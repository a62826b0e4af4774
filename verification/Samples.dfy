/** What a histogram is to hold: counts and moments of a list of samples. */
module Samples {
  import opened BucketRanges

  function Total(s: seq<int>): int
  {
    if s == [] then 0 else Total(s[..|s| - 1]) + s[|s| - 1]
  }

  function Squares(s: seq<int>): int
  {
    if s == [] then 0 else Squares(s[..|s| - 1]) + s[|s| - 1] * s[|s| - 1]
  }

  /** How many samples are in [low, high). */
  function Count(samples: seq<int>, low: int, high: int): nat
  {
    if samples == [] then 0 else
      var last := samples[|samples| - 1];
      Count(samples[..|samples| - 1], low, high) + if low <= last < high then 1 else 0
  }

  function Counts(samples: seq<int>, ranges: seq<int>): (r: seq<int>)
    requires ranges != []
    ensures |r| == |ranges| - 1
  {
    seq(|ranges| - 1, i requires 0 <= i < |ranges| - 1 => Count(samples, ranges[i], ranges[i + 1]))
  }

  /** All samples are inside the bounds. */
  ghost predicate InRange(samples: seq<int>, ranges: seq<int>)
    requires ranges != []
  {
    forall k :: 0 <= k < |samples| ==> ranges[0] <= samples[k] < ranges[|ranges| - 1]
  }

  lemma {:induction false} Another(samples: seq<int>, value: int)
    ensures Total(samples + [value]) == Total(samples) + value
    ensures Squares(samples + [value]) == Squares(samples) + value * value
  {
    assert (samples + [value])[..|samples|] == samples;
  }

  lemma {:induction false} CountAnother(samples: seq<int>, low: int, high: int, value: int)
    ensures Count(samples + [value], low, high) == Count(samples, low, high) + if low <= value < high then 1 else 0
  {
    assert (samples + [value])[..|samples|] == samples;
  }

  lemma {:induction false} CountsAnotherAt(samples: seq<int>, ranges: seq<int>, value: int, i: nat, j: nat)
    requires Rising(ranges) && Within(ranges, i, value) && j + 1 < |ranges|
    ensures Counts(samples + [value], ranges)[j] == Counts(samples, ranges)[j] + if i == j then 1 else 0
  {
    CountAnother(samples, ranges[j], ranges[j + 1], value);
    if Within(ranges, j, value) {
      OneBucket(ranges, i, j, value);
    }
  }

  /** A further sample counts in its own bucket and in no other. */
  lemma {:induction false} CountsAnother(samples: seq<int>, ranges: seq<int>, value: int, i: nat)
    requires Rising(ranges) && Within(ranges, i, value)
    ensures var before := Counts(samples, ranges);
            Counts(samples + [value], ranges) == before[i := before[i] + 1]
  {
    forall j | 0 <= j < |ranges| - 1
      ensures Counts(samples + [value], ranges)[j] == Counts(samples, ranges)[j] + if i == j then 1 else 0
    {
      CountsAnotherAt(samples, ranges, value, i, j);
    }
    Bumped(Counts(samples, ranges), Counts(samples + [value], ranges), i);
  }

  lemma Bumped(before: seq<int>, after: seq<int>, i: nat)
    requires |before| == |after| && i < |before|
    requires forall j :: 0 <= j < |after| ==> after[j] == before[j] + if i == j then 1 else 0
    ensures after == before[i := before[i] + 1]
  {
  }

  lemma {:induction false} SomeBucket(ranges: seq<int>, n: nat, value: int) returns (i: nat)
    requires n < |ranges| && ranges[0] <= value < ranges[n]
    ensures Within(ranges, i, value)
  {
    i := n - 1;
    if ranges[n - 1] > value {
      i := SomeBucket(ranges, n - 1, value);
    }
  }

  lemma {:induction false} TotalUpdate(s: seq<int>, i: nat, x: int)
    requires i < |s|
    ensures Total(s[i := x]) == Total(s) - s[i] + x
  {
    var n := |s| - 1;
    if i < n {
      TotalUpdate(s[..n], i, x);
      assert s[i := x][..n] == s[..n][i := x];
    } else {
      assert s[i := x][..n] == s[..n];
    }
  }

  lemma {:induction false} TotalZero(s: seq<int>)
    requires forall k :: 0 <= k < |s| ==> s[k] == 0
    ensures Total(s) == 0
  {
    if s != [] {
      TotalZero(s[..|s| - 1]);
    }
  }

  lemma {:induction false} CountsTotalAnother(samples: seq<int>, ranges: seq<int>, value: int)
    requires ranges != [] && Rising(ranges) && ranges[0] <= value < ranges[|ranges| - 1]
    ensures Total(Counts(samples + [value], ranges)) == Total(Counts(samples, ranges)) + 1
  {
    var i := SomeBucket(ranges, |ranges| - 1, value);
    CountsAnother(samples, ranges, value, i);
    TotalUpdate(Counts(samples, ranges), i, Counts(samples, ranges)[i] + 1);
  }

  /** The counts of all buckets add up to the number of samples. */
  lemma {:induction false} CountsTotal(samples: seq<int>, ranges: seq<int>)
    requires ranges != [] && Rising(ranges) && InRange(samples, ranges)
    ensures Total(Counts(samples, ranges)) == |samples|
  {
    if samples == [] {
      TotalZero(Counts([], ranges));
    } else {
      var before, last := samples[..|samples| - 1], samples[|samples| - 1];
      CountsTotal(before, ranges);
      CountsTotalAnother(before, ranges, last);
      assert before + [last] == samples;
    }
  }

  /** The total if every sample of bucket i had the value values[i]. */
  function Weighted(counts: seq<int>, values: seq<int>): int
    requires |counts| == |values|
  {
    if counts == [] then 0 else
      var n := |counts| - 1;
      Weighted(counts[..n], values[..n]) + counts[n] * values[n]
  }

  lemma {:induction false} WeightedOneMore(counts: seq<int>, values: seq<int>, i: nat)
    requires |counts| == |values| && i < |counts|
    ensures Weighted(counts[i := counts[i] + 1], values) == Weighted(counts, values) + values[i]
  {
    var n := |counts| - 1;
    if i < n {
      WeightedOneMore(counts[..n], values[..n], i);
      assert counts[i := counts[i] + 1][..n] == counts[..n][i := counts[i] + 1];
    } else {
      assert counts[i := counts[i] + 1][..n] == counts[..n];
      assert (counts[n] + 1) * values[n] == counts[n] * values[n] + values[n];
    }
  }

  lemma {:induction false} WeightedZero(counts: seq<int>, values: seq<int>)
    requires |counts| == |values| && forall k :: 0 <= k < |counts| ==> counts[k] == 0
    ensures Weighted(counts, values) == 0
  {
    if counts != [] {
      var n := |counts| - 1;
      WeightedZero(counts[..n], values[..n]);
      assert counts[n] * values[n] == 0;
    }
  }

  function Lows(ranges: seq<int>): seq<int>
    requires ranges != []
  {
    ranges[..|ranges| - 1]
  }

  function Highs(ranges: seq<int>): (r: seq<int>)
    requires ranges != []
  {
    seq(|ranges| - 1, i requires 0 <= i < |ranges| - 1 => ranges[i + 1] - 1)
  }

  lemma {:induction false} WeightedAnother(samples: seq<int>, ranges: seq<int>, value: int)
    requires ranges != [] && Rising(ranges) && ranges[0] <= value < ranges[|ranges| - 1]
    ensures Weighted(Counts(samples + [value], ranges), Lows(ranges))
         <= Weighted(Counts(samples, ranges), Lows(ranges)) + value
    ensures Weighted(Counts(samples + [value], ranges), Highs(ranges))
         >= Weighted(Counts(samples, ranges), Highs(ranges)) + value
  {
    var i := SomeBucket(ranges, |ranges| - 1, value);
    CountsAnother(samples, ranges, value, i);
    WeightedOneMore(Counts(samples, ranges), Lows(ranges), i);
    WeightedOneMore(Counts(samples, ranges), Highs(ranges), i);
    assert Lows(ranges)[i] <= value <= Highs(ranges)[i];
  }

  /** The sum of the samples is between what the buckets' lower and upper bounds make of the counts. */
  lemma {:induction false} TotalBetween(samples: seq<int>, ranges: seq<int>)
    requires ranges != [] && Rising(ranges) && InRange(samples, ranges)
    ensures Weighted(Counts(samples, ranges), Lows(ranges)) <= Total(samples)
    ensures Total(samples) <= Weighted(Counts(samples, ranges), Highs(ranges))
  {
    if samples == [] {
      WeightedZero(Counts([], ranges), Lows(ranges));
      WeightedZero(Counts([], ranges), Highs(ranges));
    } else {
      var before, last := samples[..|samples| - 1], samples[|samples| - 1];
      TotalBetween(before, ranges);
      WeightedAnother(before, ranges, last);
      assert before + [last] == samples;
    }
  }

  // ---- the variance ----

  /** The sum of (x - value)^2 over the samples. */
  lemma {:induction false} SquaredDistance(samples: seq<int>, value: int)
    ensures Squares(samples) - 2 * (value * Total(samples)) + |samples| * (value * value) >= 0
  {
    if samples != [] {
      var before, last := samples[..|samples| - 1], samples[|samples| - 1];
      SquaredDistance(before, value);
      DistanceStep(Squares(before), Total(before), |before|, last, value);
    }
  }

  lemma DistanceStep(q: int, t: int, n: nat, x: int, v: int)
    requires q - 2 * (v * t) + n * (v * v) >= 0
    ensures (q + x * x) - 2 * (v * (t + x)) + (n + 1) * (v * v) >= 0
  {
    assert (q + x * x) - 2 * (v * (t + x)) + (n + 1) * (v * v)
        == (q - 2 * (v * t) + n * (v * v)) + (x - v) * (x - v);
    SquareNatural(x - v);
  }

  lemma SquareNatural(x: int)
    ensures x * x >= 0
  {
  }

  /** The square of the sum is never above the number of samples times the sum of squares. */
  lemma {:induction false} MomentsInequality(samples: seq<int>)
    ensures Total(samples) * Total(samples) <= |samples| * Squares(samples)
  {
    if samples != [] {
      var before, last := samples[..|samples| - 1], samples[|samples| - 1];
      MomentsInequality(before);
      SquaredDistance(before, last);
      MomentsStep(Squares(before), Total(before), |before|, last);
    }
  }

  lemma MomentsStep(q: int, t: int, n: nat, x: int)
    requires t * t <= n * q && q - 2 * (x * t) + n * (x * x) >= 0
    ensures (t + x) * (t + x) <= (n + 1) * (q + x * x)
  {
    assert (n + 1) * (q + x * x) - (t + x) * (t + x) == (n * q - t * t) + (q - 2 * (x * t) + n * (x * x));
  }

  /** So the variance, mean of squares less square of mean, has a square root. */
  lemma {:induction false} VarianceNonNegative(samples: seq<int>)
    requires samples != []
    ensures var n, mean := |samples| as real, Total(samples) as real / |samples| as real;
            Squares(samples) as real / n - mean * mean >= 0.0
  {
    MomentsInequality(samples);
    VarianceFrom(Squares(samples), Total(samples), |samples|);
  }

  lemma VarianceFrom(q: int, t: int, n: nat)
    requires n > 0 && t * t <= n * q
    ensures var mean := t as real / n as real; q as real / n as real - mean * mean >= 0.0
  {
    var m, mean := n as real, t as real / n as real;
    assert t as real == mean * m;
    assert (t * t) as real == t as real * t as real;
    assert (n * q) as real == m * q as real;
    assert (mean * m) * (mean * m) == m * m * (mean * mean);
    assert q as real == (q as real / m) * m;
    RealCancel(m, mean * mean, q as real / m);
  }

  lemma RealCancel(m: real, a: real, b: real)
    requires m > 0.0 && m * m * a <= m * (b * m)
    ensures a <= b
  {
    assert m * m > 0.0;
    assert m * (b * m) == m * m * b;
  }
}
