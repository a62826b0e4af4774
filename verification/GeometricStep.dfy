/** The boundary step of a histogram: the log and exp of the source by their exact meaning. */
module GeometricStep {
  function Pow(b: nat, k: nat): nat
  {
    if k == 0 then 1 else b * Pow(b, k - 1)
  }

  lemma {:induction false} PowMonotone(a: nat, b: nat, k: nat)
    requires a <= b
    ensures Pow(a, k) <= Pow(b, k)
  {
    if k > 0 {
      PowMonotone(a, b, k - 1);
      ProductsOrdered(a, b, Pow(a, k - 1), Pow(b, k - 1));
    }
  }

  lemma ProductsOrdered(a: nat, b: nat, c: nat, d: nat)
    requires a <= b && c <= d
    ensures a * c <= b * d
  {
  }

  lemma {:induction false} PowPositive(b: nat, k: nat)
    requires b > 0
    ensures Pow(b, k) > 0
  {
    if k > 0 {
      PowPositive(b, k - 1);
    }
  }

  lemma Regroup(a: nat, b: nat, x: nat, y: nat)
    ensures (a * b) * (x * y) == (a * x) * (b * y)
  {
  }

  lemma SameProduct(a: nat, b: nat, c: nat, d: nat)
    requires a == c && b == d
    ensures a * b == c * d
  {
  }

  lemma {:induction false} PowProduct(a: nat, b: nat, k: nat)
    ensures Pow(a * b, k) == Pow(a, k) * Pow(b, k)
  {
    if k > 0 {
      PowProduct(a, b, k - 1);
      var x, y := Pow(a, k - 1), Pow(b, k - 1);
      SameProduct(a * b, Pow(a * b, k - 1), a * b, x * y);
      Regroup(a, b, x, y);
      SameProduct(Pow(a, k), Pow(b, k), a * x, b * y);
    }
  }

  /** 2^k times the number whose k-th root is the next boundary: current^(k-1) * declared_max. */
  function Scaled(current: nat, max: nat, k: nat): nat
    requires k > 0
  {
    Pow(2 * current, k - 1) * (2 * max)
  }

  /** n is the k-th root of current^(k-1) * max, rounded half up: n - 1/2 <= root < n + 1/2. */
  predicate Rounds(current: nat, max: nat, k: nat, n: nat)
    requires k > 0
  {
    Scaled(current, max, k) < Pow(2 * n + 1, k) && (n > 0 ==> Pow(2 * n - 1, k) <= Scaled(current, max, k))
  }

  /** The least n from `from` on whose n + 1/2 is above the root. */
  function RoundFrom(scaled: nat, k: nat, from: nat): nat
    requires k > 0
    decreases scaled - from
  {
    PowAtLeast(2 * from + 1, k);
    if scaled < Pow(2 * from + 1, k) then from else RoundFrom(scaled, k, from + 1)
  }

  lemma {:induction false} RoundFromRounds(scaled: nat, k: nat, from: nat)
    requires k > 0 && (from > 0 ==> Pow(2 * from - 1, k) <= scaled)
    ensures var n := RoundFrom(scaled, k, from);
            scaled < Pow(2 * n + 1, k) && (n > 0 ==> Pow(2 * n - 1, k) <= scaled)
    decreases scaled - from
  {
    PowAtLeast(2 * from + 1, k);
    if scaled >= Pow(2 * from + 1, k) {
      RoundFromRounds(scaled, k, from + 1);
    }
  }

  lemma {:induction false} PowAtLeast(b: nat, k: nat)
    requires k > 0 && b > 0
    ensures b <= Pow(b, k)
  {
    PowPositive(b, k - 1);
    ProductsOrdered(b, b, 1, Pow(b, k - 1));
  }

  /** floor(exp(log(current) + (log(max) - log(current)) / k) + 0.5). */
  function Next(current: nat, max: nat, k: nat): nat
    requires k > 0
  {
    RoundFrom(Scaled(current, max, k), k, 0)
  }

  lemma {:induction false} NextRounds(current: nat, max: nat, k: nat)
    requires k > 0
    ensures Rounds(current, max, k, Next(current, max, k))
  {
    RoundFromRounds(Scaled(current, max, k), k, 0);
  }

  /** No other number is the rounded root. */
  lemma {:induction false} RoundsOnce(current: nat, max: nat, k: nat, m: nat, n: nat)
    requires k > 0 && Rounds(current, max, k, m) && Rounds(current, max, k, n)
    ensures m == n
  {
    if m < n {
      PowMonotone(2 * m + 1, 2 * n - 1, k);
    } else if n < m {
      PowMonotone(2 * n + 1, 2 * m - 1, k);
    }
  }

  // ---- over the reals ----

  function RealPow(b: real, k: nat): real
  {
    if k == 0 then 1.0 else b * RealPow(b, k - 1)
  }

  lemma {:induction false} RealPowOfNat(b: nat, k: nat)
    ensures RealPow(b as real, k) == Pow(b, k) as real
  {
    if k > 0 {
      RealPowOfNat(b, k - 1);
      RealProduct(b, Pow(b, k - 1));
    }
  }

  lemma RealProduct(a: nat, b: nat)
    ensures a as real * b as real == (a * b) as real
  {
  }

  lemma {:induction false} RealPowStrict(a: real, b: real, k: nat)
    requires 0.0 <= a < b && k > 0
    ensures RealPow(a, k) < RealPow(b, k)
    ensures RealPow(b, k) > 0.0 && RealPow(a, k) >= 0.0
  {
    if k > 1 {
      RealPowStrict(a, b, k - 1);
      RealOrdered(a, b, RealPow(a, k - 1), RealPow(b, k - 1));
    }
  }

  lemma RealOrdered(a: real, b: real, c: real, d: real)
    requires 0.0 <= a < b && 0.0 <= c < d
    ensures a * c < b * d && b * d > 0.0 && a * c >= 0.0
  {
    assert a * c <= b * c;
    assert b * c < b * d;
  }

  lemma {:induction false} RealPowDoubled(x: real, k: nat)
    ensures RealPow(2.0 * x, k) == Pow(2, k) as real * RealPow(x, k)
  {
    if k > 0 {
      RealPowDoubled(x, k - 1);
      var p, q := Pow(2, k - 1) as real, RealPow(x, k - 1);
      RealProduct(2, Pow(2, k - 1));
      assert (2.0 * x) * (p * q) == (2.0 * p) * (x * q);
    }
  }

  lemma {:induction false} ScaledIs(current: nat, max: nat, k: nat)
    requires k > 0
    ensures Scaled(current, max, k) == Pow(2, k) * (Pow(current, k - 1) * max)
  {
    PowProduct(2, current, k - 1);
    var p, q := Pow(2, k - 1), Pow(current, k - 1);
    assert (p * q) * (2 * max) == (2 * p) * (q * max);
  }

  lemma {:induction false} ScaledRoot(current: nat, max: nat, k: nat, root: real)
    requires k > 0 && RealPow(root, k) == (Pow(current, k - 1) * max) as real
    ensures RealPow(2.0 * root, k) == Scaled(current, max, k) as real
  {
    ScaledIs(current, max, k);
    RealPowDoubled(root, k);
    RealProduct(Pow(2, k), Pow(current, k - 1) * max);
  }

  lemma FloorOf(root: real, n: nat)
    requires root >= 0.0 && 2.0 * root < (2 * n + 1) as real && (n > 0 ==> (2 * n - 1) as real <= 2.0 * root)
    ensures n == (root + 0.5).Floor
  {
  }

  /** The step is what the source computes if log and exp are exact: the real root plus one half,
      rounded down. */
  lemma {:induction false} NextIsRoundedRoot(current: nat, max: nat, k: nat, root: real)
    requires k > 0 && root >= 0.0 && RealPow(root, k) == (Pow(current, k - 1) * max) as real
    ensures Next(current, max, k) == (root + 0.5).Floor
  {
    NextRounds(current, max, k);
    ScaledRoot(current, max, k, root);
    RootWithin(Scaled(current, max, k), root, k, Next(current, max, k));
    FloorOf(root, Next(current, max, k));
  }

  /** Rounding half up means that of the real root. */
  lemma {:induction false} RoundsIsFloor(current: nat, max: nat, k: nat, root: real, n: nat)
    requires k > 0 && root >= 0.0 && RealPow(root, k) == (Pow(current, k - 1) * max) as real
    ensures Rounds(current, max, k, n) <==> n == (root + 0.5).Floor
  {
    NextIsRoundedRoot(current, max, k, root);
    NextRounds(current, max, k);
    if Rounds(current, max, k, n) {
      RoundsOnce(current, max, k, n, Next(current, max, k));
    }
  }

  lemma {:induction false} RootWithin(scaled: nat, root: real, k: nat, n: nat)
    requires k > 0 && root >= 0.0 && RealPow(2.0 * root, k) == scaled as real
    requires scaled < Pow(2 * n + 1, k) && (n > 0 ==> Pow(2 * n - 1, k) <= scaled)
    ensures 2.0 * root < (2 * n + 1) as real && (n > 0 ==> (2 * n - 1) as real <= 2.0 * root)
  {
    RealPowOfNat(2 * n + 1, k);
    BelowPower(2.0 * root, (2 * n + 1) as real, k);
    if n > 0 {
      RealPowOfNat(2 * n - 1, k);
      BelowPower(2.0 * root, (2 * n - 1) as real, k);
    }
  }

  /** Powers are in the order of their bases. */
  lemma {:induction false} BelowPower(a: real, b: real, k: nat)
    requires a >= 0.0 && b >= 0.0 && k > 0
    ensures a < b <==> RealPow(a, k) < RealPow(b, k)
  {
    if a < b {
      RealPowStrict(a, b, k);
    } else if b < a {
      RealPowStrict(b, a, k);
    }
  }

  // ---- how far a step goes ----

  /** Bernoulli's inequality. */
  lemma {:induction false} Bernoulli(a: nat, t: nat, k: nat)
    requires k > 0
    ensures Pow(a + t, k) >= Pow(a, k - 1) * (a + k * t)
  {
    if k > 1 {
      Bernoulli(a, t, k - 1);
      BernoulliStep(a, t, k, Pow(a, k - 2), Pow(a, k - 1), Pow(a + t, k - 1), Pow(a + t, k));
    } else {
      assert Pow(a, 0) == 1 && Pow(a + t, 1) == a + t;
    }
  }

  lemma BernoulliStep(a: nat, t: nat, k: nat, p: nat, ap: nat, q: nat, aq: nat)
    requires k > 1 && ap == a * p && aq == (a + t) * q && q >= p * (a + (k - 1) * t)
    ensures aq >= ap * (a + k * t)
  {
    ProductsOrdered(a + t, a + t, p * (a + (k - 1) * t), q);
    BernoulliTerms(a, t, k, p);
    SameProduct(ap, a + k * t, a * p, a + k * t);
  }

  lemma BernoulliTerms(a: nat, t: nat, k: nat, p: nat)
    requires k > 1
    ensures (a + t) * (p * (a + (k - 1) * t)) >= (a * p) * (a + k * t)
  {
    var u := (k - 1) * t;
    assert a + k * t == a + u + t;
    assert (a + t) * (p * (a + u)) == (a * p) * (a + u + t) + p * (t * u);
  }

  /** The geometric step is never longer than the arithmetic one, half a unit of rounding apart:
      next - 1/2 <= current + (max - current) / k. */
  lemma {:induction false} StepAtMostArithmetic(current: nat, max: nat, k: nat)
    requires 0 < current <= max && k > 0
    ensures k * (2 * Next(current, max, k) - 1) <= 2 * (k * current + max - current)
  {
    NextRounds(current, max, k);
    RoundsAtMost(current, max, k, Next(current, max, k));
  }

  lemma {:induction false} RoundsAtMost(current: nat, max: nat, k: nat, n: nat)
    requires 0 < current <= max && k > 0 && Rounds(current, max, k, n)
    ensures k * (2 * n - 1) <= 2 * (k * current + max - current)
  {
    if 2 * n - 1 > 2 * current {
      var p, q := Powers(current, max, k, n);
      Tangent(current, max, k, n, p, q);
    } else {
      TimesOrdered(k, 2 * n - 1, 2 * current);
    }
  }

  /** p is (2 * current)^(k-1) and q is (2 * n - 1)^k, which is below the one bound because n is rounded and
      above the other by Bernoulli's inequality. */
  lemma {:induction false} Powers(current: nat, max: nat, k: nat, n: nat) returns (p: nat, q: nat)
    requires 0 < current && k > 0 && 2 * n - 1 > 2 * current && Rounds(current, max, k, n)
    ensures p > 0 && q <= p * (2 * max) && q >= p * (2 * current + k * (2 * n - 1 - 2 * current))
  {
    p, q := Pow(2 * current, k - 1), Pow(2 * n - 1, k);
    Bernoulli(2 * current, 2 * n - 1 - 2 * current, k);
    PowPositive(2 * current, k - 1);
    SameProduct(p, 2 * max, Pow(2 * current, k - 1), 2 * max);
    SameProduct(p, 2 * current + k * (2 * n - 1 - 2 * current),
                Pow(2 * current, k - 1), 2 * current + k * (2 * n - 1 - 2 * current));
  }

  lemma Tangent(c: nat, max: nat, k: nat, n: nat, p: nat, q: nat)
    requires 2 * n - 1 > 2 * c && p > 0
    requires q <= p * (2 * max) && q >= p * (2 * c + k * (2 * n - 1 - 2 * c))
    ensures k * (2 * n - 1) <= 2 * (k * c + max - c)
  {
    TimesOrdered(k, 0, 2 * n - 1 - 2 * c);
    Cancel(p, 2 * c + k * (2 * n - 1 - 2 * c), 2 * max);
    assert k * (2 * n - 1) == 2 * (k * c) + k * (2 * n - 1 - 2 * c);
  }

  lemma TimesOrdered(k: nat, x: int, y: int)
    requires x <= y
    ensures k * x <= k * y
  {
  }

  lemma Cancel(p: nat, a: nat, b: nat)
    requires p > 0 && p * a <= p * b
    ensures a <= b
  {
  }

  /** So with k entries still to come and room for them, a step leaves room for the other k - 1. */
  lemma {:induction false} StepLeavesRoom(current: nat, max: nat, k: nat)
    requires 0 < current && k > 0 && max - current >= k
    ensures max - Next(current, max, k) >= k - 1
  {
    StepAtMostArithmetic(current, max, k);
    RoomLeft(current, max, k, Next(current, max, k));
  }

  lemma RoomLeft(c: nat, max: nat, k: nat, n: nat)
    requires k > 0 && max - c >= k && k * (2 * n - 1) <= 2 * (k * c + max - c)
    ensures max - n >= k - 1
  {
    var spare := max - c - k;
    if n >= c + spare + 2 {
      TimesOrdered(k, 2 * c + 2 * spare + 3, 2 * n - 1);
      Expand(k, c, spare);
    }
  }

  lemma Expand(k: nat, c: nat, spare: nat)
    requires k > 0
    ensures k * (2 * c + 2 * spare + 3) >= 2 * (k * c) + 2 * spare + 3 * k
  {
    TimesOrdered(spare, 1, k);
    assert k * (2 * c + 2 * spare + 3) == 2 * (k * c) + 2 * (spare * k) + 3 * k;
  }

  /** The last geometric step lands on the declared maximum. */
  lemma {:induction false} LastStep(current: nat, max: nat)
    ensures Next(current, max, 1) == max
  {
    var n := Next(current, max, 1);
    NextRounds(current, max, 1);
    assert Pow(2 * n + 1, 1) == 2 * n + 1 && (n > 0 ==> Pow(2 * n - 1, 1) == 2 * n - 1);
  }
}
