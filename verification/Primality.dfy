/** Primes by trial division. */
module Primality {
  ghost predicate IsPrime(n: nat)
  {
    n >= 2 && forall d :: 2 <= d < n ==> n % d != 0
  }

  /** Sixteen divisors a round: from a `from` of the form 6k - 1 on, the numbers below from + 48 * rounds that
      neither 2 nor 3 divides. */
  predicate Tried(n: nat, from: nat, rounds: nat)
    requires from > 0
    decreases rounds
  {
    rounds == 0 || (
      && n % from != 0 && n % (from + 2) != 0 && n % (from + 6) != 0 && n % (from + 8) != 0
      && n % (from + 12) != 0 && n % (from + 14) != 0 && n % (from + 18) != 0 && n % (from + 20) != 0
      && n % (from + 24) != 0 && n % (from + 26) != 0 && n % (from + 30) != 0 && n % (from + 32) != 0
      && n % (from + 36) != 0 && n % (from + 38) != 0 && n % (from + 42) != 0 && n % (from + 44) != 0
      && Tried(n, from + 48, rounds - 1))
  }

  predicate Listed(e: nat)
  {
    e in {0, 2, 6, 8, 12, 14, 18, 20, 24, 26, 30, 32, 36, 38, 42, 44}
  }

  lemma OffsetListed(e: nat)
    requires e < 48 && (e % 6 == 0 || e % 6 == 2)
    ensures Listed(e)
  {
    var j := e / 6;
    assert j < 8 && (e == 6 * j || e == 6 * j + 2);
  }

  lemma OneRound(n: nat, from: nat, rounds: nat, e: nat)
    requires from > 0 && rounds > 0 && Tried(n, from, rounds) && Listed(e)
    ensures n % (from + e) != 0
  {
  }

  lemma {:induction false} NotTried(n: nat, from: nat, rounds: nat, d: nat)
    requires from > 0 && Tried(n, from, rounds) && from <= d < from + 48 * rounds
    requires (d - from) % 6 == 0 || (d - from) % 6 == 2
    ensures n % d != 0
    decreases rounds
  {
    if d < from + 48 {
      OffsetListed(d - from);
      OneRound(n, from, rounds, d - from);
    } else {
      SixthPlaceLater(d - from - 48);
      NotTried(n, from + 48, rounds - 1, d);
    }
  }

  lemma SixthPlaceLater(e: nat)
    ensures e % 6 == (e + 48) % 6
  {
  }

  lemma PlaceBehind(from: nat, d: nat)
    requires from % 6 == 5 && from <= d && (d % 6 == 1 || d % 6 == 5)
    ensures (d - from) % 6 == 0 || (d - from) % 6 == 2
  {
  }

  lemma DividesProduct(d: nat, k: nat)
    requires d > 0
    ensures (d * k) % d == 0
  {
    var n := d * k;
    var q := n / d;
    assert d * (k - q) == n % d;
    if k > q {
      Products(d, 1, d, k - q);
    } else if k < q {
      Products(d, 1, d, q - k);
    }
  }

  lemma Products(a: nat, b: nat, c: nat, d: nat)
    requires a <= c && b <= d
    ensures a * b <= c * d
  {
  }

  /** A divisor of a divisor. */
  lemma DividesOn(p: nat, d: nat, k: nat)
    requires p > 0 && d % p == 0
    ensures (d * k) % p == 0
  {
    var q := d / p;
    assert d == p * q;
    assert d * k == p * (q * k);
    DividesProduct(p, q * k);
  }

  lemma Quotient(n: nat, d: nat) returns (k: nat)
    requires d > 0 && n % d == 0
    ensures n == d * k == k * d
  {
    k := n / d;
  }

  /** Of two numbers whose product is n one is no greater than the root. */
  lemma {:induction false} SmallDivisor(n: nat, d: nat, limit: nat) returns (s: nat)
    requires 2 <= d < n && n % d == 0 && n < limit * limit
    ensures 2 <= s < limit && n % s == 0
  {
    var k := Quotient(n, d);
    if d < limit {
      s := d;
    } else {
      s := k;
      Cofactor(d, k, limit);
      DividesProduct(k, d);
    }
  }

  lemma Cofactor(d: nat, k: nat, limit: nat)
    requires limit <= d < d * k < limit * limit
    ensures 2 <= k < limit
  {
    if k >= limit {
      Products(limit, limit, d, k);
    } else if k <= 1 {
      Products(d, k, d, 1);
    }
  }

  /** It is enough to try up to the square root. */
  lemma {:induction false} ByTrial(n: nat, limit: nat)
    requires n >= 2 && n < limit * limit && forall s :: 2 <= s < limit ==> n % s != 0
    ensures IsPrime(n)
  {
    forall d | 2 <= d < n
      ensures n % d != 0
    {
      if n % d == 0 {
        var s := SmallDivisor(n, d, limit);
      }
    }
  }

  lemma {:induction false} ByRounds(n: nat, rounds: nat)
    requires n >= 2 && n % 2 != 0 && n % 3 != 0 && n < (5 + 48 * rounds) * (5 + 48 * rounds)
    ensures Tried(n, 5, rounds) ==> IsPrime(n)
  {
    if Tried(n, 5, rounds) {
      forall s | 2 <= s < 5 + 48 * rounds
        ensures n % s != 0
      {
        NoDivisor(n, rounds, s);
      }
      ByTrial(n, 5 + 48 * rounds);
    }
  }

  lemma {:induction false} NoDivisor(n: nat, rounds: nat, s: nat)
    requires n % 2 != 0 && n % 3 != 0 && Tried(n, 5, rounds) && 2 <= s < 5 + 48 * rounds
    ensures n % s != 0
  {
    if n % s == 0 {
      DivisorOdd(s, n);
      if s >= 5 {
        SixthPlace(s);
        PlaceBehind(5, s);
        NotTried(n, 5, rounds, s);
      }
    }
  }

  lemma {:induction false} DivisorOdd(s: nat, n: nat)
    requires s > 0 && n % s == 0 && n % 2 != 0 && n % 3 != 0
    ensures s % 2 != 0 && s % 3 != 0
  {
    var k := Quotient(n, s);
    if s % 2 == 0 {
      DividesOn(2, s, k);
    }
    if s % 3 == 0 {
      DividesOn(3, s, k);
    }
  }

  lemma Halves(j: nat, r: nat)
    ensures (2 * j + r) % 2 == r % 2
  {
  }

  lemma Thirds(j: nat, r: nat)
    ensures (3 * j + r) % 3 == r % 3
  {
  }

  lemma SixthPlace(s: nat)
    requires s >= 5 && s % 2 != 0 && s % 3 != 0
    ensures s % 6 == 1 || s % 6 == 5
  {
    var j, r := s / 6, s % 6;
    Halves(3 * j, r);
    Thirds(2 * j, r);
  }
}
