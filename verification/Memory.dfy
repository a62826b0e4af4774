/** Bytes, machine words and the loads and stores of a little- or big-endian host. */
module Memory {
  type byte = x: int | 0 <= x < 0x100
  type uint16 = x: int | 0 <= x < 0x1_0000
  type uint32 = x: int | 0 <= x < 0x1_0000_0000
  type uint64 = x: int | 0 <= x < 0x1_0000_0000_0000_0000

  datatype Option<+T> = None | Some(value: T)

  /** The 16-bit word at b[i..i+2]; on a big-endian host the first byte is the most significant. */
  function Word16(big: bool, b: seq<byte>, i: nat): uint16
    requires i + 2 <= |b|
  {
    var x: int, y: int := b[i], b[i + 1];
    if big then 0x100 * x + y else x + 0x100 * y
  }

  function Word32(big: bool, b: seq<byte>, i: nat): uint32
    requires i + 4 <= |b|
  {
    var u, v := Word16(big, b, i), Word16(big, b, i + 2);
    if big then 0x1_0000 * u + v else u + 0x1_0000 * v
  }

  function Word64(big: bool, b: seq<byte>, i: nat): uint64
    requires i + 8 <= |b|
  {
    var u, v := Word32(big, b, i), Word32(big, b, i + 4);
    if big then 0x1_0000_0000 * u + v else u + 0x1_0000_0000 * v
  }

  /** The bytes a 16-bit store leaves in memory. */
  function Bytes16(big: bool, w: uint16): seq<byte>
  {
    if big then [w / 0x100, w % 0x100] else [w % 0x100, w / 0x100]
  }

  function Bytes32(big: bool, w: uint32): seq<byte>
  {
    var lo, hi := Bytes16(big, w % 0x1_0000), Bytes16(big, w / 0x1_0000);
    if big then hi + lo else lo + hi
  }

  function Bytes64(big: bool, w: uint64): seq<byte>
  {
    var lo, hi := Bytes32(big, w % 0x1_0000_0000), Bytes32(big, w / 0x1_0000_0000);
    if big then hi + lo else lo + hi
  }

  /** A load followed by a store of the same width moves exactly the bytes it read. */
  lemma StoreOfLoad16(big: bool, b: seq<byte>, i: nat)
    requires i + 2 <= |b|
    ensures Bytes16(big, Word16(big, b, i)) == b[i..i + 2]
  {
  }

  lemma Split32(lo: uint16, hi: uint16)
    ensures (lo + 0x1_0000 * hi as int) % 0x1_0000 == lo && (lo + 0x1_0000 * hi as int) / 0x1_0000 == hi
  {
  }

  lemma Split64(lo: uint32, hi: uint32)
    ensures (lo + 0x1_0000_0000 * hi as int) % 0x1_0000_0000 == lo
    ensures (lo + 0x1_0000_0000 * hi as int) / 0x1_0000_0000 == hi
  {
  }

  lemma Adjoining(b: seq<byte>, i: nat, n: nat)
    requires i + 2 * n <= |b|
    ensures b[i..i + n] + b[i + n..i + 2 * n] == b[i..i + 2 * n]
  {
  }

  lemma StoreOfLoad32(big: bool, b: seq<byte>, i: nat)
    requires i + 4 <= |b|
    ensures Bytes32(big, Word32(big, b, i)) == b[i..i + 4]
  {
    var u, v := Word16(big, b, i), Word16(big, b, i + 2);
    Split32(if big then v else u, if big then u else v);
    StoreOfLoad16(big, b, i);
    StoreOfLoad16(big, b, i + 2);
    Adjoining(b, i, 2);
  }

  lemma StoreOfLoad64(big: bool, b: seq<byte>, i: nat)
    requires i + 8 <= |b|
    ensures Bytes64(big, Word64(big, b, i)) == b[i..i + 8]
  {
    var u, v := Word32(big, b, i), Word32(big, b, i + 4);
    if big {
      Split64(v, u);
    } else {
      Split64(u, v);
    }
    StoreOfLoad32(big, b, i);
    StoreOfLoad32(big, b, i + 4);
    Adjoining(b, i, 4);
  }

  /** The first even address from a on. */
  lemma EvenUp(a: nat)
    ensures (a + a % 2) % 2 == 0
  {
  }

  /** Address a is a multiple of n: words of n bytes are loaded from such addresses only. */
  predicate OnBoundary(n: nat, a: nat)
    requires n > 0
  {
    if a < n then a == 0 else OnBoundary(n, a - n)
  }

  lemma {:induction false} OnBoundaryIff(n: nat, a: nat, k: nat, r: nat)
    requires r < n && a == n * k + r
    ensures OnBoundary(n, a) <==> r == 0
    decreases k
  {
    if k > 0 {
      assert a - n == n * (k - 1) + r;
      OnBoundaryIff(n, a - n, k - 1, r);
    } else {
      assert a == r;
    }
  }

  /** In terms of the remainder. */
  lemma {:induction false} OnBoundaryMod(n: nat, a: nat)
    requires n > 0
    ensures OnBoundary(n, a) <==> a % n == 0
  {
    OnBoundaryIff(n, a, a / n, a % n);
  }

  lemma {:induction false} OneFurther(n: nat, a: nat)
    requires n > 0
    ensures OnBoundary(n, a) <==> OnBoundary(n, a + n)
  {
  }

  /** A multiple of 2 * n is one of n. */
  lemma {:induction false} HalfBoundary(n: nat, a: nat)
    requires n > 0 && OnBoundary(2 * n, a)
    ensures OnBoundary(n, a)
  {
    if a >= 2 * n {
      HalfBoundary(n, a - 2 * n);
      OneFurther(n, a - 2 * n);
      OneFurther(n, a - n);
    }
  }

  /** Every multiple of n is one of 2 * n, or the next one is. */
  lemma {:induction false} DoubleBoundary(n: nat, a: nat)
    requires n > 0 && OnBoundary(n, a)
    ensures if a / n % 2 == 1 then OnBoundary(2 * n, a + n) else OnBoundary(2 * n, a)
  {
    OnBoundaryMod(n, a);
    var k := ExactQuotient(n, a);
    if k % 2 == 1 {
      Pairs(n, k / 2 + 1);
      assert a + n == n * (k + 1) by { Distribute(n, k); }
      OnBoundaryIff(2 * n, a + n, k / 2 + 1, 0);
    } else {
      Pairs(n, k / 2);
      OnBoundaryIff(2 * n, a, k / 2, 0);
    }
  }

  lemma ExactQuotient(n: nat, a: nat) returns (k: nat)
    requires n > 0 && a % n == 0
    ensures k == a / n && a == n * k
  {
    k := a / n;
  }

  lemma Distribute(n: nat, k: nat)
    ensures n * (k + 1) == n * k + n
  {
  }

  lemma Pairs(n: nat, q: nat)
    ensures n * (2 * q) == (2 * n) * q
  {
  }

  /** `was` with the bytes `chunk` written over it from index i on. */
  function Overwrite(was: seq<byte>, i: nat, chunk: seq<byte>): (now: seq<byte>)
    requires i + |chunk| <= |was|
    ensures |now| == |was|
  {
    was[..i] + chunk + was[i + |chunk|..]
  }

  lemma OverwriteTwice(was: seq<byte>, i: nat, chunk: seq<byte>, more: seq<byte>)
    requires i + |chunk| + |more| <= |was|
    ensures Overwrite(Overwrite(was, i, chunk), i + |chunk|, more) == Overwrite(was, i, chunk + more)
  {
  }

  /** Writing b[n..m] behind b[..n] leaves b[..m]. */
  lemma OverwriteNext(was: seq<byte>, to: nat, b: seq<byte>, n: nat, m: nat)
    requires n <= m <= |b| && to + |b| <= |was|
    ensures Overwrite(Overwrite(was, to, b[..n]), to + n, b[n..m]) == Overwrite(was, to, b[..m])
  {
    assert b[..n] + b[n..m] == b[..m];
    OverwriteTwice(was, to, b[..n], b[n..m]);
  }

  method Store8(dst: array<byte>, i: nat, x: byte)
    requires i < dst.Length
    modifies dst
    ensures dst[..] == Overwrite(old(dst[..]), i, [x])
  {
    dst[i] := x;
  }

  method Store16(big: bool, dst: array<byte>, i: nat, w: uint16)
    requires i + 2 <= dst.Length
    modifies dst
    ensures dst[..] == Overwrite(old(dst[..]), i, Bytes16(big, w))
  {
    var b := Bytes16(big, w);
    dst[i] := b[0];
    dst[i + 1] := b[1];
  }

  method Store32(big: bool, dst: array<byte>, i: nat, w: uint32)
    requires i + 4 <= dst.Length
    modifies dst
    ensures dst[..] == Overwrite(old(dst[..]), i, Bytes32(big, w))
  {
    var lo, hi := w % 0x1_0000, w / 0x1_0000;
    var u, v := if big then hi else lo, if big then lo else hi;
    Store16(big, dst, i, u);
    Store16(big, dst, i + 2, v);
    OverwriteTwice(old(dst[..]), i, Bytes16(big, u), Bytes16(big, v));
  }

  method Store64(big: bool, dst: array<byte>, i: nat, w: uint64)
    requires i + 8 <= dst.Length
    modifies dst
    ensures dst[..] == Overwrite(old(dst[..]), i, Bytes64(big, w))
  {
    var lo, hi := w % 0x1_0000_0000, w / 0x1_0000_0000;
    var u, v := if big then hi else lo, if big then lo else hi;
    Store32(big, dst, i, u);
    Store32(big, dst, i + 4, v);
    OverwriteTwice(old(dst[..]), i, Bytes32(big, u), Bytes32(big, v));
  }
}
