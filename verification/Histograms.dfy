/** The histogram: its set-up, adding a sample, and the total. A failed assertion is a false result. */
module Histograms {
  import opened BucketRanges
  import opened GeometricStep
  import opened Samples

  const INT64_MAX := 0x7fff_ffff_ffff_ffff

  newtype int32 = x: int | -0x8000_0000 <= x <= 0x7fff_ffff

  /** A sum kept in an int of 32 bits; the sums here wrap at most once. */
  function Signed32(n: int): (r: int)
    requires -0x8000_0000 <= n <= 0xffff_ffff
    ensures -0x8000_0000 <= r <= 0x7fff_ffff && (r - n) % 0x1_0000_0000 == 0
  {
    if n > INT_MAX then n - 0x1_0000_0000 else n
  }

  /** A sum that may have wrapped many times. */
  function Int32Of(n: nat): (r: int)
    ensures -0x8000_0000 <= r <= 0x7fff_ffff && (r - n) % 0x1_0000_0000 == 0
  {
    if n < 0x1_0000_0000 then Signed32(n) else Int32Of(n - 0x1_0000_0000)
  }

  lemma {:induction false} WrapsOn(n: nat, c: nat)
    requires c <= INT_MAX
    ensures Signed32(Int32Of(n) + c) == Int32Of(n + c)
  {
    if n >= 0x1_0000_0000 {
      WrapsOn(n - 0x1_0000_0000, c);
    }
  }

  function Signed64(n: int): (r: int)
    requires -0x8000_0000_0000_0000 <= n <= 0xffff_ffff_ffff_ffff
    ensures -0x8000_0000_0000_0000 <= r <= 0x7fff_ffff_ffff_ffff && (r - n) % 0x1_0000_0000_0000_0000 == 0
  {
    if n > INT64_MAX then n - 0x1_0000_0000_0000_0000 else n
  }

  /** The samples' counts and moments fit the fields that hold them. */
  ghost predicate Fits(samples: seq<int>, ranges: seq<int>)
    requires ranges != []
  {
    && Total(samples) <= 0x7fff_ffff_ffff_ffff && Squares(samples) <= 0x7fff_ffff_ffff_ffff
    && forall c :: c in Counts(samples, ranges) ==> c <= 0x7fff_ffff
  }

  /** One more sample fits if its own bucket and the two sums take it. */
  lemma {:induction false} FitsAnother(samples: seq<int>, ranges: seq<int>, value: int, i: nat)
    requires ranges != [] && Rising(ranges) && Within(ranges, i, value) && Fits(samples, ranges)
    ensures Fits(samples + [value], ranges)
       <==> Counts(samples, ranges)[i] < INT_MAX && Total(samples) + value <= INT64_MAX
            && Squares(samples) + value * value <= INT64_MAX
  {
    Another(samples, value);
    CountsAnother(samples, ranges, value, i);
    var before, after := Counts(samples, ranges), Counts(samples + [value], ranges);
    assert after[i] == before[i] + 1 && after[i] in after;
    if before[i] < INT_MAX {
      forall c | c in after
        ensures c <= INT_MAX
      {
        var j :| 0 <= j < |after| && after[j] == c;
        assert before[j] in before;
      }
    }
  }

  /** The counts and moments of a list of samples. */
  ghost predicate Holds(samples: seq<int>, ranges: seq<int>, counts: seq<int>, sum: int, squareSum: int)
    requires ranges != []
  {
    && counts == Counts(samples, ranges)
    && sum == Total(samples) && squareSum == Squares(samples)
  }

  lemma {:induction false} Nonnegative(samples: seq<int>, ranges: seq<int>)
    requires ranges != [] && forall k :: 0 <= k < |samples| ==> 0 <= samples[k]
    ensures Total(samples) >= 0 && Squares(samples) >= 0
  {
    if samples != [] {
      Nonnegative(samples[..|samples| - 1], ranges);
      SquareNatural(samples[|samples| - 1]);
    }
  }

  lemma SignedSquare(value: int, count: int)
    requires 0 <= value < INT_MAX && (count == 1 || count == -1)
    ensures 0 <= value * value <= 0x3fff_ffff_ffff_ffff
    ensures count * value == if count == 1 then value else -value
    ensures (count * value) * value == if count == 1 then value * value else -(value * value)
  {
    ProductsOrdered(value, 0x7fff_ffff, value, 0x7fff_ffff);
  }

  lemma {:induction false} CountFits(samples: seq<int>, ranges: seq<int>, i: nat)
    requires ranges != [] && i < |ranges| - 1 && Fits(samples, ranges)
    ensures 0 <= Counts(samples, ranges)[i] <= INT_MAX
  {
    assert Counts(samples, ranges)[i] in Counts(samples, ranges);
  }

  /** What one more sample changes, in either direction. */
  lemma {:induction false} FitsBoth(before: seq<int>, ranges: seq<int>, value: int, i: nat)
    requires Rising(ranges) && Within(ranges, i, value) && 0 <= value
    requires forall k :: 0 <= k < |before| ==> 0 <= before[k]
    ensures var held, after := Counts(before, ranges), before + [value];
            && Counts(after, ranges) == held[i := held[i] + 1] && held[i] >= 0
            && Total(after) == Total(before) + value && Squares(after) == Squares(before) + value * value
    ensures Total(before) >= 0 && Squares(before) >= 0
    ensures Fits(before, ranges) ==>
              && Counts(before, ranges)[i] <= INT_MAX
              && (Fits(before + [value], ranges)
                  <==> Counts(before, ranges)[i] < INT_MAX && Total(before) + value <= INT64_MAX
                       && Squares(before) + value * value <= INT64_MAX)
    ensures Fits(before + [value], ranges) ==> Fits(before, ranges) && Counts(before, ranges)[i] < INT_MAX
  {
    Another(before, value);
    CountsAnother(before, ranges, value, i);
    Nonnegative(before, ranges);
    SquareNatural(value);
    if Fits(before, ranges) {
      FitsAnother(before, ranges, value, i);
      CountFits(before, ranges, i);
    }
    if Fits(before + [value], ranges) {
      FitsWithout(before, ranges, value, i);
    }
  }

  lemma {:induction false} FitsWithout(before: seq<int>, ranges: seq<int>, value: int, i: nat)
    requires Rising(ranges) && Within(ranges, i, value) && 0 <= value && Fits(before + [value], ranges)
    ensures Fits(before, ranges) && Counts(before, ranges)[i] < INT_MAX
  {
    Another(before, value);
    SquareNatural(value);
    CountsAnother(before, ranges, value, i);
    var held, after := Counts(before, ranges), Counts(before + [value], ranges);
    forall j | 0 <= j < |held|
      ensures held[j] <= INT_MAX && held[i] < INT_MAX
    {
      assert after[j] in after && after[i] in after;
    }
  }

  class Histogram {
    var declaredMin: int
    var declaredMax: int
    const bucketCount: nat
    const ranges: array<int>
    const counts: array<int>
    var sum: int
    var squareSum: int
    /** What has been added so far. */
    ghost var samples: seq<int>

    ghost predicate Shaped()
    {
      ranges.Length == bucketCount + 1 && counts.Length == bucketCount && ranges != counts
    }

    /** Set up, with rising bounds from 0 to INT_MAX, and holding exactly its samples. */
    ghost predicate Valid()
      reads this, ranges, counts
    {
      && Shaped() && 1 < bucketCount
      && Rising(ranges[..]) && ranges[0] == 0 && ranges[bucketCount] == INT_MAX
      && InRange(samples, ranges[..]) && Fits(samples, ranges[..])
      && Holds(samples, ranges[..], counts[..], sum, squareSum)
    }

    /** PGM_HISTOGRAM_DEFINE. */
    constructor (minimum: int32, maximum: int32, count: nat)
      ensures Shaped() && bucketCount == count && fresh(ranges) && fresh(counts)
      ensures declaredMin == minimum as int && declaredMax == maximum as int
      ensures (forall i :: 0 <= i < ranges.Length ==> ranges[i] == 0) && (forall i :: 0 <= i < count ==> counts[i] == 0)
      ensures sum == 0 && squareSum == 0 && samples == []
    {
      declaredMin, declaredMax, bucketCount := minimum as int, maximum as int, count;
      ranges, counts := new int[count + 1](_ => 0), new int[count](_ => 0);
      sum, squareSum, samples := 0, 0, [];
    }

    /** pgm_histogram_init: asserts a minimum below INT_MAX and two buckets or more. Whatever maximum
        was declared, it becomes INT_MAX - 1. */
    method Init() returns (ok: bool)
      requires Shaped() && ranges[0] == 0 && (forall i :: 0 <= i < counts.Length ==> counts[i] == 0)
      requires sum == 0 && squareSum == 0 && samples == []
      modifies this, ranges
      ensures ok <==> old(declaredMin) < INT_MAX && 1 < bucketCount
      ensures ok ==> declaredMax == INT_MAX - 1 && declaredMin == if old(declaredMin) <= 0 then 1 else old(declaredMin)
      ensures ok ==> samples == [] && ranges[..] == AllBoundaries(declaredMin, bucketCount)
      ensures ok ==> ranges[0] == 0 && ranges[1] == declaredMin && ranges[bucketCount] == 0x7fff_ffff
      ensures ok ==> Geometric(ranges[..], 0x7fff_fffe, bucketCount)
      ensures ok ==> (Valid() <==> declaredMax - declaredMin >= bucketCount - 2)
    {
      if declaredMin <= 0 {
        declaredMin := 1;
      }
      declaredMax := INT_MAX - 1;
      ok := declaredMin <= declaredMax && 1 < bucketCount;
      if ok {
        ranges[bucketCount] := INT_MAX;
        InitializeBucketRange(ranges, bucketCount, declaredMin, declaredMax);
        assert ranges[..] == AllBoundaries(declaredMin, bucketCount);
        BoundaryEnds(declaredMin, bucketCount);
        RisingIff(declaredMin, bucketCount);
        NothingHeld(ranges[..], counts[..]);
      }
    }

    /** sample_set_accumulate. With a count of 1 the assertions hold exactly if the fields take one more
        sample, and then they hold it; a count of -1 takes it back. Overflows wrap, and show as
        negative values. `before` is what the fields hold without the sample. */
    method Accumulate(value: int, count: int, i: nat, ghost before: seq<int>) returns (ok: bool)
      requires Shaped() && Rising(ranges[..]) && Within(ranges[..], i, value) && (count == 1 || count == -1)
      requires 0 <= value < INT_MAX && forall k :: 0 <= k < |before| ==> 0 <= before[k]
      requires var held := if count == 1 then before else before + [value];
               Fits(held, ranges[..]) && Holds(held, ranges[..], counts[..], sum, squareSum)
      requires 0 <= counts[i] <= INT_MAX && 0 <= sum <= INT64_MAX && 0 <= squareSum <= INT64_MAX
      modifies counts, this`sum, this`squareSum
      ensures count == 1 ==> (ok <==> Fits(before + [value], ranges[..]))
      ensures count == -1 ==> ok && Fits(before, ranges[..])
      ensures ok ==> Holds(if count == 1 then before + [value] else before, ranges[..], counts[..], sum, squareSum)
      ensures ok <==> counts[i] >= 0 && sum >= 0 && squareSum >= 0
      ensures counts[..] == old(counts[..])[i := Signed32(old(counts[i]) + count)]
      ensures 0 <= value * value <= 0x3fff_ffff_ffff_ffff
      ensures sum == Signed64(old(sum) + (if count == 1 then value else -value))
      ensures squareSum == Signed64(old(squareSum) + (if count == 1 then value * value else -(value * value)))
    {
      FitsBoth(before, ranges[..], value, i);
      ok := Wrapped(value, count, i);
    }

    /** The updates as they are. */
    method Wrapped(value: int, count: int, i: nat) returns (ok: bool)
      requires i < counts.Length && (count == 1 || count == -1) && 0 <= value < INT_MAX
      requires 0 <= counts[i] <= INT_MAX && 0 <= sum <= INT64_MAX && 0 <= squareSum <= INT64_MAX
      modifies counts, this`sum, this`squareSum
      ensures counts[..] == old(counts[..])[i := Signed32(old(counts[i]) + count)]
      ensures 0 <= value * value <= 0x3fff_ffff_ffff_ffff
      ensures sum == Signed64(old(sum) + (if count == 1 then value else -value))
      ensures squareSum == Signed64(old(squareSum) + (if count == 1 then value * value else -(value * value)))
      ensures ok <==> counts[i] >= 0 && sum >= 0 && squareSum >= 0
    {
      SignedSquare(value, count);
      counts[i] := Signed32(counts[i] + count);
      sum := Signed64(sum + count * value);
      squareSum := Signed64(squareSum + (count * value) * value);
      ok := counts[i] >= 0 && sum >= 0 && squareSum >= 0;
    }

    /** pgm_histogram_add. The clamp of values above INT_MAX never acts on an int; INT_MAX itself fails
        the assertion of bucket_index. Every overflow of a count or of a sum fails an assertion. */
    method Add(value: int32) returns (ok: bool)
      requires Valid()
      modifies this, counts
      ensures var v := if value < 0 then 0 else value as int;
              && (ok <==> v < INT_MAX && Fits(old(samples) + [v], ranges[..]))
              && (ok ==> Valid() && samples == old(samples) + [v])
    {
      var v := value as int;
      if v > INT_MAX {
        v := INT_MAX - 1;
      }
      if v < 0 {
        v := 0;
      }
      if !(ranges[0] <= v && ranges[bucketCount] > v) {
        return false;
      }
      CountBound();
      var i := BucketIndex(ranges, bucketCount, v);
      ok := AddAt(v, i);
    }

    /** Rising ints are no more than the ints there are. */
    lemma {:induction false} CountBound()
      requires Valid()
      ensures bucketCount <= INT_MAX
    {
      RisingSpread(ranges[..], 0, bucketCount);
    }

    method AddAt(v: int, i: nat) returns (ok: bool)
      requires Valid() && Within(ranges[..], i, v) && 0 <= v < INT_MAX
      modifies this, counts
      ensures ok <==> Fits(old(samples) + [v], ranges[..])
      ensures ok ==> Valid() && samples == old(samples) + [v]
    {
      FitsBoth(samples, ranges[..], v, i);
      ok := Accumulate(v, 1, i, samples);
      samples := samples + [v];
    }

    /** sample_set_total_count: an int, which wraps if there are more samples than it can count. */
    method TotalCount() returns (total: int)
      requires Valid()
      ensures total == Int32Of(|samples|)
      ensures |samples| <= INT_MAX ==> total == |samples|
    {
      total := 0;
      ghost var sofar: nat := 0;
      for i := 0 to counts.Length
        invariant sofar == Total(counts[..i]) && total == Int32Of(sofar)
      {
        assert counts[..i + 1][..i] == counts[..i];
        CountFits(samples, ranges[..], i);
        WrapsOn(sofar, counts[i]);
        total, sofar := Signed32(total + counts[i]), sofar + counts[i];
      }
      assert counts[..counts.Length] == counts[..];
      CountsTotal(samples, ranges[..]);
    }

    /** Between the lower and the upper bounds of the buckets, and with a variance that is no less than 0. */
    lemma {:induction false} Moments()
      requires Valid()
      ensures Weighted(counts[..], Lows(ranges[..])) <= sum <= Weighted(counts[..], Highs(ranges[..]))
      ensures sum * sum <= |samples| * squareSum
    {
      TotalBetween(samples, ranges[..]);
      MomentsInequality(samples);
    }
  }

  lemma {:induction false} NothingHeld(ranges: seq<int>, counts: seq<int>)
    requires ranges != [] && |counts| == |ranges| - 1 && forall i :: 0 <= i < |counts| ==> counts[i] == 0
    ensures Holds([], ranges, counts, 0, 0) && Fits([], ranges) && InRange([], ranges)
  {
  }
}
