/** Ones'-complement 16-bit sums (RFC 1071): the one value every checksum form computes. */
module OnesComplement {
  import opened Memory

  /** The sum of s read as 16-bit words, a missing last byte taken as zero.
      `high` says that the first byte of s is the most significant one of its word. */
  function WordSum(s: seq<byte>, high: bool): nat
  {
    if s == [] then 0 else (if high then 0x100 * s[0] else s[0]) + WordSum(s[1..], !high)
  }

  /** The part of the word sum of s that is still to come at index i. */
  function Rest(s: seq<byte>, i: nat, high: bool): nat
    decreases |s| - i
  {
    if i >= |s| then 0 else (if high then 0x100 * s[i] else s[i]) + Rest(s, i + 1, !high)
  }

  lemma {:induction false} RestIsSuffix(s: seq<byte>, i: nat, high: bool)
    requires i <= |s|
    ensures Rest(s, i, high) == WordSum(s[i..], high)
    decreases |s| - i
  {
    if i < |s| {
      assert s[i..][1..] == s[i + 1..];
      RestIsSuffix(s, i + 1, !high);
    }
  }

  lemma {:induction false} RestIsAll(s: seq<byte>, high: bool)
    ensures Rest(s, 0, high) == WordSum(s, high)
  {
    assert s[0..] == s;
    RestIsSuffix(s, 0, high);
  }

  /** The 16-bit ones'-complement representative of n, found by casting out 0xffff: zero only
      for zero, else in 1..0xffff. */
  function Ones(n: nat): (r: uint16)
  {
    if n <= 0xffff then n else Ones(n - 0xffff)
  }

  /** The checksum of s as the host's 16-bit value. */
  function Checksum(big: bool, s: seq<byte>): uint16
  {
    Ones(WordSum(s, big))
  }

  function Swap16(x: uint16): uint16
  {
    0x100 * (x % 0x100) + x / 0x100
  }

  // ---- arithmetic of representatives ----

  /** Ones is determined by the residue modulo 0xffff together with being zero or not. */
  lemma {:induction false} OnesExact(n: nat, r: uint16)
    ensures r == Ones(n) <==> r % 0xffff == n % 0xffff && (r == 0 <==> n == 0)
  {
    if n > 0xffff {
      OnesExact(n - 0xffff, r);
    }
  }

  lemma {:induction false} OnesEqual(x: nat, y: nat)
    ensures Ones(x) == Ones(y) <==> x % 0xffff == y % 0xffff && (x == 0 <==> y == 0)
  {
    OnesExact(x, Ones(y));
    OnesExact(y, Ones(y));
  }

  lemma {:induction false} OnesAdd(x: nat, y: nat, z: nat)
    requires Ones(x) == Ones(y)
    ensures Ones(x + z) == Ones(y + z)
  {
    OnesEqual(x, y);
    OnesEqual(x + z, y + z);
  }

  lemma {:induction false} CastOut(r: int, k: int)
    ensures (r + 0xffff * k) % 0xffff == r % 0xffff
  {
  }

  lemma {:induction false} SameResidueTimes(x: int, y: int)
    requires x % 0xffff == y % 0xffff
    ensures (0x100 * x) % 0xffff == (0x100 * y) % 0xffff
  {
    var r := 0x100 * (x % 0xffff);
    CastOut(r, 0x100 * (x / 0xffff));
    CastOut(r, 0x100 * (y / 0xffff));
  }

  lemma {:induction false} OnesTimes(x: nat, y: nat)
    requires Ones(x) == Ones(y)
    ensures Ones(0x100 * x) == Ones(0x100 * y)
  {
    OnesEqual(x, y);
    SameResidueTimes(x, y);
    OnesEqual(0x100 * x, 0x100 * y);
  }

  /** Casting out multiples of 0xffff changes nothing while something is left. */
  lemma {:induction false} OnesCast(x: nat, k: nat)
    requires x > 0
    ensures Ones(x + 0xffff * k) == Ones(x)
  {
    OnesEqual(x + 0xffff * k, x);
  }

  lemma {:induction false} OnesTwice(x: nat)
    ensures Ones(0x1_0000 * x) == Ones(x)
  {
    if x > 0 {
      OnesCast(x, x);
    }
  }

  lemma Digits(h: byte, l: byte)
    ensures var x: uint16 := 0x100 * h as int + l;
            x / 0x100 == h && x % 0x100 == l && Swap16(x) == 0x100 * l as int + h
  {
  }

  lemma {:induction false} SwapIsTimes256(x: uint16)
    ensures Swap16(x) == Ones(0x100 * x)
    ensures Swap16(Swap16(x)) == x
  {
    var h, l := x / 0x100, x % 0x100;
    Digits(h, l);
    Digits(l, h);
    assert 0x100 * x == Swap16(x) + 0xffff * h;
    if x > 0 {
      OnesCast(Swap16(x), h);
    }
  }

  /** Exchanging the bytes of a folded sum is multiplying the sum by 256. */
  lemma {:induction false} SwapOfOnes(n: nat)
    ensures Swap16(Ones(n)) == Ones(0x100 * n)
  {
    SwapIsTimes256(Ones(n));
    OnesExact(n, Ones(n));
    OnesEqual(n, Ones(n));
    OnesTimes(n, Ones(n));
  }

  lemma {:induction false} OnesNext(n: nat)
    ensures Ones(n + 1) != Ones(n)
  {
    OnesEqual(n, n + 1);
  }

  // ---- arithmetic of word sums ----

  lemma {:induction false} WordSumConcat(a: seq<byte>, b: seq<byte>, high: bool)
    ensures WordSum(a + b, high) == WordSum(a, high) + WordSum(b, high != (|a| % 2 == 1))
  {
    if a == [] {
      assert a + b == b;
    } else {
      assert (a + b)[1..] == a[1..] + b;
      WordSumConcat(a[1..], b, !high);
    }
  }

  lemma {:induction false} WordSumBound(s: seq<byte>, high: bool)
    ensures WordSum(s, high) <= 0xffff * ((|s| + 1) / 2)
  {
    if |s| == 1 {
      assert WordSum(s[1..], !high) == 0;
    } else if |s| > 1 {
      assert s[1..][1..] == s[2..];
      WordSumBound(s[2..], high);
    }
  }

  lemma {:induction false} WordSumZero(s: seq<byte>, high: bool)
    ensures WordSum(s, high) == 0 <==> forall i :: 0 <= i < |s| ==> s[i] == 0
  {
    if s != [] {
      WordSumZero(s[1..], !high);
      if forall i :: 0 <= i < |s[1..]| ==> s[1..][i] == 0 {
        assert forall i :: 1 <= i < |s| ==> s[i] == s[1..][i - 1];
      }
    }
  }

  /** Reading every word with its bytes exchanged is multiplying by 256. */
  lemma {:induction false} WordSumSwap(s: seq<byte>, high: bool)
    ensures Ones(0x100 * WordSum(s, high)) == Ones(WordSum(s, !high))
  {
    if s != [] {
      var x: int, t, u := s[0], WordSum(s[1..], !high), WordSum(s[1..], high);
      WordSumSwap(s[1..], !high);
      if high {
        OnesTwice(x);
        OnesAdd(0x1_0000 * x, x, 0x100 * t);
        OnesAdd(0x100 * t, u, x);
      } else {
        OnesAdd(0x100 * t, u, 0x100 * x);
      }
    }
  }

  /** What the checksum is: zero exactly for all-zero bytes, otherwise the representative
      in 1..0xffff of the word sum modulo 0xffff. */
  lemma {:induction false} ChecksumMeaning(big: bool, s: seq<byte>)
    ensures Checksum(big, s) % 0xffff == WordSum(s, big) % 0xffff
    ensures Checksum(big, s) == 0 <==> forall i :: 0 <= i < |s| ==> s[i] == 0
  {
    OnesExact(WordSum(s, big), Checksum(big, s));
    WordSumZero(s, big);
  }

  /** Byte-order independence (section 2(B) of RFC 1071): the two hosts' values are byte swaps
      of each other, so both store the same two bytes. */
  lemma {:induction false} ByteOrderIndependence(s: seq<byte>)
    ensures Checksum(true, s) == Swap16(Checksum(false, s))
    ensures Bytes16(true, Checksum(true, s)) == Bytes16(false, Checksum(false, s))
  {
    WordSumSwap(s, false);
    SwapOfOnes(WordSum(s, false));
    StoredSwap(Checksum(false, s));
  }

  lemma {:induction false} StoredSwap(x: uint16)
    ensures Bytes16(true, Swap16(x)) == Bytes16(false, x)
  {
    var h, l := x / 0x100, x % 0x100;
    assert Swap16(x) / 0x100 == l && Swap16(x) % 0x100 == h;
  }
}
