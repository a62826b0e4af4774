/** The running accumulator of a checksum: wrap-around, end-around carry and folding. */
module Accumulator {
  import opened Memory
  import opened OnesComplement

  /** The platform's choice for uint_fast32_t. */
  datatype Width = Bits32 | Bits64

  function Modulus(w: Width): (m: nat)
    ensures m % 0xffff == 1 && m >= 0x1_0000_0000
  {
    if w.Bits32? then 0x1_0000_0000 else 0x1_0000_0000_0000_0000
  }

  /** Unsigned truncation to the accumulator's width. */
  function Wrap(w: Width, n: nat): (r: nat)
    ensures r < Modulus(w) && r <= n
    ensures n < Modulus(w) ==> r == n
  {
    if n < Modulus(w) then n else Wrap(w, n - Modulus(w))
  }

  lemma {:induction false} WrapAdd(w: Width, n: nat, x: nat)
    ensures Wrap(w, Wrap(w, n) + x) == Wrap(w, n + x)
  {
    if n >= Modulus(w) {
      WrapAdd(w, n - Modulus(w), x);
    }
  }

  /** End-around addition: a carry out of the top comes back in at the bottom. */
  function AddCarry(w: Width, acc: nat, x: nat): (r: nat)
    requires acc < Modulus(w) && x < Modulus(w)
    ensures r < Modulus(w)
  {
    if acc + x < Modulus(w) then acc + x else acc + x - Modulus(w) + 1
  }

  /** Adds x and a carry found by comparison: the wrapped sum tells whether there was a carry, and the
      increment never overflows. */
  method Accumulate(w: Width, acc: nat, x: nat) returns (r: nat)
    requires acc < Modulus(w) && x < Modulus(w)
    ensures r == AddCarry(w, acc, x)
  {
    r := Wrap(w, acc + x);
    if r < x {
      r := Wrap(w, r + 1);
    }
  }

  /** The residue modulo 2^n - 1 is kept, and the accumulator is zero only if nothing but zeros was
      added. */
  lemma {:induction false} AddCarryExact(w: Width, acc: nat, x: nat)
    requires acc < Modulus(w) && x < Modulus(w)
    ensures AddCarry(w, acc, x) % (Modulus(w) - 1) == (acc + x) % (Modulus(w) - 1)
    ensures AddCarry(w, acc, x) == 0 <==> acc + x == 0
  {
    if acc + x >= Modulus(w) {
      if w.Bits32? {
        LessOnce32(acc + x);
      } else {
        LessOnce64(acc + x);
      }
    }
  }

  lemma {:induction false} LessOnce32(n: int)
    ensures (n - 0xffff_ffff) % 0xffff_ffff == n % 0xffff_ffff
  {
  }

  lemma {:induction false} LessOnce64(n: int)
    ensures (n - 0xffff_ffff_ffff_ffff) % 0xffff_ffff_ffff_ffff == n % 0xffff_ffff_ffff_ffff
  {
  }

  /** An end-around addition is invisible to the final ones'-complement value. */
  lemma {:induction false} AddCarryOnes(w: Width, acc: nat, x: nat, rest: nat)
    requires acc < Modulus(w) && x < Modulus(w)
    ensures Ones(AddCarry(w, acc, x) + rest) == Ones(acc + x + rest)
  {
    if acc + x >= Modulus(w) {
      OnesCast(AddCarry(w, acc, x) + rest, if w.Bits32? then 0x1_0001 else 0x1_0001_0001_0001);
    }
  }

  /** The upper part added to the lower sixteen bits. */
  function Fold16(acc: nat): nat
  {
    acc / 0x1_0000 + acc % 0x1_0000
  }

  /** The upper part added to the lower thirty-two bits. */
  function Fold32(acc: nat): nat
  {
    acc / 0x1_0000_0000 + acc % 0x1_0000_0000
  }

  /** The last fold adds the upper part to the whole and keeps sixteen bits. */
  function LastFold(acc: nat): uint16
  {
    (acc + acc / 0x1_0000) % 0x1_0000
  }

  /** The fold of the 8-, 16- and 32-bit forms. */
  function Settle32(acc: nat): uint16
  {
    LastFold(Fold16(acc))
  }

  /** The fold of the 64-bit and vector forms. */
  function Settle64(acc: nat): uint16
  {
    LastFold(Fold16(Fold16(Fold32(acc))))
  }

  lemma {:induction false} Fold16Ones(acc: nat)
    ensures Ones(Fold16(acc)) == Ones(acc)
  {
    if acc > 0 {
      OnesCast(Fold16(acc), acc / 0x1_0000);
    }
  }

  lemma {:induction false} Fold32Ones(acc: nat)
    ensures Ones(Fold32(acc)) == Ones(acc)
  {
    if acc > 0 {
      var h := acc / 0x1_0000_0000;
      assert acc == Fold32(acc) + 0xffff * (0x1_0001 * h);
      OnesCast(Fold32(acc), 0x1_0001 * h);
    }
  }

  lemma {:induction false} LastFoldOnes(acc: nat)
    requires acc <= 0x1_fffe
    ensures LastFold(acc) == Ones(acc)
  {
    OnesExact(acc, LastFold(acc));
  }

  /** The two-step fold loses no carry below 2^32. */
  lemma {:induction false} Settle32Exact(acc: nat)
    requires acc < 0x1_0000_0000
    ensures Settle32(acc) == Ones(acc)
  {
    Fold16Ones(acc);
    LastFoldOnes(Fold16(acc));
  }

  /** The four-step fold loses no carry below 2^64. */
  lemma {:induction false} Settle64Exact(acc: nat)
    requires acc < 0x1_0000_0000_0000_0000
    ensures Settle64(acc) == Ones(acc)
  {
    var a := Fold32(acc);
    Fold32Ones(acc);
    Fold16Ones(a);
    assert Fold16(a) <= 0x2_fffe;
    Fold16Ones(Fold16(a));
    LastFoldOnes(Fold16(Fold16(a)));
  }

  /** On a 32-bit accumulator without carry detection the total survives exactly when it fits:
      a carry out of the top is worth one and is never put back. */
  lemma {:induction false} UnguardedCarry(total: nat)
    requires total < 0x2_0000_0000
    ensures Settle32(Wrap(Bits32, total)) == Ones(total) <==> total < 0x1_0000_0000
  {
    if total < 0x1_0000_0000 {
      Settle32Exact(total);
    } else {
      var acc := total - 0x1_0000_0000;
      assert Wrap(Bits32, total) == acc;
      Settle32Exact(acc);
      assert total == (acc + 1) + 0xffff * 0x1_0001;
      OnesCast(acc + 1, 0x1_0001);
      OnesNext(acc);
    }
  }

  /** When adding without a look at the carry and folding in two steps goes wrong: a 32-bit accumulator
      loses a carry out of the top; a 64-bit one keeps it, but from 0x1_0000_ffff on the fold makes 0 of
      what should be 1. */
  predicate Loses(w: Width, total: nat)
  {
    if w.Bits32? then total >= 0x1_0000_0000 else total >= 0x1_0000_ffff && Ones(total) == 1
  }

  /** What comes out. */
  function Unguarded(w: Width, total: nat): uint16
  {
    if !Loses(w, total) then Ones(total)
    else if w.Bits32? then Ones(total - 0x1_0000_0000)
    else 0
  }

  /** The two-step fold of what a 64-bit accumulator may hold. */
  lemma {:induction false} WideFold(total: nat)
    requires total < 0x1_8000_0000
    ensures Settle32(total) == Unguarded(Bits64, total)
  {
    var sum := Fold16(total);
    Fold16Ones(total);
    assert sum <= 0x2_7ffe;
    if sum <= 0x1_fffe {
      LastFoldOnes(sum);
      if total >= 0x1_0000_ffff {
        OneFolds(total);
      }
    } else if sum == 0x1_ffff {
      OnesCast(1, 2);
      assert LastFold(sum) == 0;
      assert total == 0xffff * (total / 0x1_0000) + sum;
    } else {
      assert LastFold(sum) == sum - 0x1_fffe;
      OnesCast(sum - 0x1_fffe, 2);
    }
  }

  lemma {:induction false} OneFolds(total: nat)
    requires 0x1_0000_ffff <= total && Fold16(total) <= 0x1_fffe
    ensures Ones(total) != 1
  {
    Fold16Ones(total);
    var h, l := total / 0x1_0000, total % 0x1_0000;
    assert h >= 0x1_0000 && (h == 0x1_0000 ==> l == 0xffff);
    assert h + l > 0x1_0000;
    OnesCast(h + l - 0xffff, 1);
  }

  lemma {:induction false} UnguardedIs(w: Width, total: nat)
    requires total < 0x1_8000_0000
    ensures Settle32(Wrap(w, total)) == Unguarded(w, total)
  {
    if w.Bits64? {
      WideFold(total);
    } else if total < 0x1_0000_0000 {
      Settle32Exact(total);
    } else {
      assert Wrap(Bits32, total) == total - 0x1_0000_0000;
      Settle32Exact(total - 0x1_0000_0000);
    }
  }

  /** The fold at the end of the 8-, 16- and 32-bit forms. */
  method FoldDown(w: Width, acc: nat, ghost total: nat) returns (r: uint16)
    requires acc == Wrap(w, total) && total < 0x1_8000_0000
    ensures r == Unguarded(w, total)
  {
    UnguardedIs(w, total);
    r := Settle32(acc);
  }

  /** The fold at the end of the 64-bit and vector forms. */
  method FoldDown64(acc: uint64) returns (r: uint16)
    ensures r == Ones(acc)
  {
    Settle64Exact(acc);
    r := Settle64(acc);
  }

  /** The condition is exact. */
  lemma {:induction false} UnguardedIff(w: Width, total: nat)
    ensures Unguarded(w, total) == Ones(total) <==> !Loses(w, total)
    ensures Loses(w, total) ==> total >= 0x1_0000_0000
  {
    if w.Bits32? && total >= 0x1_0000_0000 {
      LostCarry(total);
    }
  }

  /** 2^32 counts for one. */
  lemma {:induction false} LostCarry(total: nat)
    requires total >= 0x1_0000_0000
    ensures Ones(total) == Ones(total - 0xffff_ffff) != Ones(total - 0x1_0000_0000)
  {
    OnesCast(total - 0xffff_ffff, 0x1_0001);
    OnesNext(total - 0x1_0000_0000);
  }

  /** What the byte exchange of a form's last step makes of its folded value. */
  function Turn(odd: bool, x: uint16): uint16
  {
    if odd then Ones(0x100 * x as int) else x
  }

  /** The exchange itself, applied after an odd start. */
  method Exchange(odd: bool, x: uint16) returns (r: uint16)
    ensures r == Turn(odd, x)
  {
    SwapIsTimes256(x);
    r := if odd then Swap16(x) else x;
  }

  /** The checksum of s with an initial csum that is read byte-swapped when `odd`. */
  function Seeded(big: bool, s: seq<byte>, odd: bool, csum: uint32): uint16
  {
    Ones((if odd then 0x100 * csum as int else csum) + WordSum(s, big))
  }

  /** Summing from an odd address puts every byte in the other half of its word; the final
      exchange undoes that for the bytes, and does it to the initial csum. */
  lemma {:induction false} TurnSum(big: bool, s: seq<byte>, odd: bool, csum: uint32)
    ensures Turn(odd, Ones(csum + WordSum(s, big != odd))) == Seeded(big, s, odd, csum)
  {
    if odd {
      var n, c: int := WordSum(s, !big), csum;
      SwapOfOnes(c + n);
      SwapIsTimes256(Ones(c + n));
      WordSumSwap(s, !big);
      OnesAdd(0x100 * n, WordSum(s, big), 0x100 * c);
    }
  }

  lemma {:induction false} TurnOnce(odd: bool, x: uint16, y: uint16)
    ensures Turn(odd, x) == Turn(odd, y) <==> x == y
  {
    SwapIsTimes256(x);
    SwapIsTimes256(y);
  }

  // ---- taking words off the front of what is left to sum ----

  lemma {:induction false} Peel8(s: seq<byte>, i: nat, high: bool)
    requires i + 1 == |s|
    ensures Rest(s, i, high) == if high then 0x100 * s[i] as int else s[i]
  {
  }

  lemma {:induction false} Peel16(s: seq<byte>, i: nat, high: bool)
    requires i + 2 <= |s|
    ensures Rest(s, i, high) == Word16(high, s, i) + Rest(s, i + 2, high)
  {
  }

  /** A 32-bit word counts for the sum of its two halves. */
  lemma {:induction false} Peel32(s: seq<byte>, i: nat, high: bool, acc: nat)
    requires i + 4 <= |s|
    ensures Ones(acc + Word32(high, s, i) + Rest(s, i + 4, high)) == Ones(acc + Rest(s, i, high))
  {
    Peel16(s, i, high);
    Peel16(s, i + 2, high);
    var u: int, v: int := Word16(high, s, i), Word16(high, s, i + 2);
    HighHalf(acc + Rest(s, i + 4, high), if high then v else u, if high then u else v, 1);
  }

  lemma {:induction false} Peel64(s: seq<byte>, i: nat, high: bool, acc: nat)
    requires i + 8 <= |s|
    ensures Ones(acc + Word64(high, s, i) + Rest(s, i + 8, high)) == Ones(acc + Rest(s, i, high))
  {
    var u: nat, v: nat := Word32(high, s, i), Word32(high, s, i + 4);
    Halves64(high, u, v, acc, Rest(s, i + 8, high));
    Peel32(s, i + 4, high, acc + u);
    Peel32(s, i, high, acc);
  }

  /** A 64-bit word counts for the sum of its two halves. */
  lemma {:induction false} Halves64(high: bool, u: nat, v: nat, acc: nat, rest: nat)
    ensures var word := if high then 0x1_0000_0000 * u + v else u + 0x1_0000_0000 * v;
            Ones(acc + word + rest) == Ones(acc + u + v + rest)
  {
    HighHalf(acc + rest, if high then v else u, if high then u else v, 0x1_0001);
  }

  lemma {:induction false} HighHalf(acc: nat, lo: nat, hi: nat, k: nat)
    ensures Ones(acc + lo + (0xffff * k + 1) * hi) == Ones(acc + lo + hi)
  {
    assert (0xffff * k + 1) * hi == hi + 0xffff * (k * hi);
    if acc + lo + hi > 0 {
      OnesCast(acc + lo + hi, k * hi);
    } else {
      assert hi == 0;
    }
  }
}
