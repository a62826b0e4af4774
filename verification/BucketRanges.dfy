/** The boundaries of a histogram's buckets and the search for the bucket of a value. */
module BucketRanges {
  import opened GeometricStep

  const INT_MAX := 0x7fff_ffff

  ghost predicate Less(ranges: seq<int>, i: nat, j: nat)
    requires i < j < |ranges|
  {
    ranges[i] < ranges[j]
  }

  ghost predicate Rising(ranges: seq<int>)
  {
    forall i, j {:trigger Less(ranges, i, j)} :: 0 <= i < j < |ranges| ==> Less(ranges, i, j)
  }

  /** Whole numbers that rise leave at least one unit for each step. */
  lemma {:induction false} RisingSpread(ranges: seq<int>, i: nat, j: nat)
    requires Rising(ranges) && i <= j < |ranges|
    ensures ranges[j] - ranges[i] >= j - i
    decreases j
  {
    if i < j {
      RisingSpread(ranges, i, j - 1);
      assert Less(ranges, j - 1, j);
    }
  }

  lemma {:induction false} RisingFromSteps(ranges: seq<int>)
    requires forall i :: 0 < i < |ranges| ==> ranges[i - 1] < ranges[i]
    ensures Rising(ranges)
  {
    forall i, j | 0 <= i < j < |ranges|
      ensures Less(ranges, i, j)
    {
      StepsRise(ranges, i, j);
    }
  }

  lemma {:induction false} StepsRise(ranges: seq<int>, i: nat, j: nat)
    requires forall i :: 0 < i < |ranges| ==> ranges[i - 1] < ranges[i]
    requires i < j < |ranges|
    ensures ranges[i] < ranges[j]
    decreases j
  {
    assert ranges[j - 1] < ranges[j];
    if i < j - 1 {
      StepsRise(ranges, i, j - 1);
    }
  }

  /** The boundary after `current` with k entries of the array still to fill: the geometric step,
      or one more where that does not move. */
  function After(current: nat, max: nat, k: nat): (next: nat)
    requires k > 0
    ensures next > current
  {
    if Next(current, max, k) > current then Next(current, max, k) else current + 1
  }

  /** The first n + 1 boundaries of an array for `count` buckets. */
  function Boundaries(min: nat, max: nat, count: nat, n: nat): (r: seq<nat>)
    requires 1 <= n < count
    ensures |r| == n + 1
  {
    if n == 1 then [0, min] else
      var before := Boundaries(min, max, count, n - 1);
      before + [After(before[n - 1], max, count - n)]
  }

  /** The boundaries rise and never run out of room. */
  lemma {:induction false} BoundaryRoom(min: nat, max: nat, count: nat, n: nat)
    requires 0 < min && 1 <= n < count && max - min >= count - 2
    ensures var b := Boundaries(min, max, count, n);
            && 0 < b[n] && max - b[n] >= count - 1 - n
            && forall i :: 0 < i <= n ==> b[i - 1] < b[i]
  {
    if n > 1 {
      BoundaryRoom(min, max, count, n - 1);
      AfterLeavesRoom(Boundaries(min, max, count, n - 1)[n - 1], max, count - n);
    }
  }

  lemma {:induction false} AfterLeavesRoom(current: nat, max: nat, k: nat)
    requires 0 < current && k > 0 && max - current >= k
    ensures max - After(current, max, k) >= k - 1
  {
    StepLeavesRoom(current, max, k);
  }

  /** And the last of them is the declared maximum. */
  lemma {:induction false} LastBoundary(min: nat, max: nat, count: nat)
    requires 0 < min && 2 < count && max - min >= count - 2
    ensures Boundaries(min, max, count, count - 1)[count - 1] == max
  {
    BoundaryRoom(min, max, count, count - 2);
    LastStep(Boundaries(min, max, count, count - 2)[count - 2], max);
  }

  /** From `current`, with k entries left to fill, to the k-th root of current^(k-1) * max, rounded, or to one
      more where that does not move. */
  ghost predicate Follows(current: nat, max: nat, k: nat, next: int)
    requires k > 0
  {
    forall n: nat | Rounds(current, max, k, n) :: next == if n > current then n else current + 1
  }

  lemma {:induction false} AfterFollows(current: nat, max: nat, k: nat)
    requires k > 0
    ensures Follows(current, max, k, After(current, max, k))
    ensures exists n: nat :: Rounds(current, max, k, n)
  {
    NextRounds(current, max, k);
    forall n: nat | Rounds(current, max, k, n)
      ensures n == Next(current, max, k)
    {
      RoundsOnce(current, max, k, n, Next(current, max, k));
    }
  }

  /** Of an array for `count` buckets: every entry follows the one before it. */
  ghost predicate Geometric(ranges: seq<int>, max: nat, count: nat)
    requires count <= |ranges|
  {
    forall i :: 1 <= i < count - 1 ==> ranges[i] >= 0 && Follows(ranges[i], max, count - 1 - i, ranges[i + 1])
  }

  lemma {:induction false} BoundariesAreGeometric(min: nat, max: nat, count: nat, n: nat, i: nat)
    requires 1 <= i < n < count
    ensures var b := Boundaries(min, max, count, n); Follows(b[i], max, count - 1 - i, b[i + 1])
    decreases n
  {
    if i == n - 1 {
      AfterFollows(Boundaries(min, max, count, n - 1)[i], max, count - n);
    } else {
      BoundariesAreGeometric(min, max, count, n - 1, i);
    }
  }

  lemma {:induction false} GeometricThroughout(ranges: seq<int>, min: nat, max: nat, count: nat)
    requires 1 < count <= |ranges| && ranges[..count] == Boundaries(min, max, count, count - 1)
    ensures Geometric(ranges, max, count) && ranges[0] == 0 && ranges[1] == min
  {
    FirstBoundary(min, max, count, count - 1);
    var b := Boundaries(min, max, count, count - 1);
    assert ranges[0] == b[0] && ranges[1] == b[1];
    forall i | 1 <= i < count - 1
      ensures ranges[i] >= 0 && Follows(ranges[i], max, count - 1 - i, ranges[i + 1])
    {
      BoundariesAreGeometric(min, max, count, count - 1, i);
      assert ranges[i] == b[i] && ranges[i + 1] == b[i + 1];
    }
  }

  /** All the boundaries of a histogram: 0, the geometric ones, INT_MAX. */
  function AllBoundaries(min: nat, count: nat): seq<int>
    requires 1 < count
  {
    Boundaries(min, INT_MAX - 1, count, count - 1) + [INT_MAX]
  }

  lemma {:induction false} BoundaryEnds(min: nat, count: nat)
    requires 1 < count
    ensures AllBoundaries(min, count)[0] == 0 && AllBoundaries(min, count)[count] == INT_MAX
  {
    FirstBoundary(min, INT_MAX - 1, count, count - 1);
  }

  /** They rise over the whole array exactly when there is a number for each of them. */
  lemma {:induction false} RisingIff(min: nat, count: nat)
    requires 0 < min && 1 < count
    ensures Rising(AllBoundaries(min, count)) <==> INT_MAX - 1 - min >= count - 2
  {
    var ranges := AllBoundaries(min, count);
    assert ranges[count] == INT_MAX;
    if Rising(ranges) {
      FirstBoundary(min, INT_MAX - 1, count, count - 1);
      RisingSpread(ranges, 1, count);
    }
    if INT_MAX - 1 - min >= count - 2 {
      BoundaryRoom(min, INT_MAX - 1, count, count - 1);
      RisingFromSteps(ranges);
    }
  }

  lemma {:induction false} FirstBoundary(min: nat, max: nat, count: nat, n: nat)
    requires 1 <= n < count
    ensures Boundaries(min, max, count, n)[0] == 0 && Boundaries(min, max, count, n)[1] == min
  {
    if n > 1 {
      FirstBoundary(min, max, count, n - 1);
    }
  }

  /** One more boundary. */
  method Advance(current: nat, max: nat, k: nat) returns (current': nat)
    requires k > 0
    ensures current' == After(current, max, k)
  {
    var next := Next(current, max, k);
    if next > current {
      current' := next;
    } else {
      current' := current + 1;
    }
  }

  /** initialize_bucket_range, on an array whose first entry is 0. */
  method InitializeBucketRange(ranges: array<int>, bucketCount: nat, declaredMin: nat, declaredMax: nat)
    requires 1 < bucketCount && ranges.Length == bucketCount + 1 && ranges[0] == 0
    modifies ranges
    ensures ranges[..bucketCount] == Boundaries(declaredMin, declaredMax, bucketCount, bucketCount - 1)
    ensures ranges[bucketCount] == old(ranges[bucketCount])
    ensures ranges[0] == 0 && ranges[1] == declaredMin && Geometric(ranges[..], declaredMax, bucketCount)
  {
    var i, current := 1, declaredMin;
    ranges[i] := current;
    i := i + 1;
    while bucketCount > i
      invariant 1 < i <= bucketCount && current == ranges[i - 1]
      invariant ranges[..i] == Boundaries(declaredMin, declaredMax, bucketCount, i - 1)
      invariant ranges[bucketCount] == old(ranges[bucketCount])
    {
      current := Advance(current, declaredMax, bucketCount - i);
      ranges[i] := current;
      i := i + 1;
      assert ranges[..i] == ranges[..i - 1] + [current];
    }
    GeometricThroughout(ranges[..], declaredMin, declaredMax, bucketCount);
  }

  /** bucket_index: the assertions at its head are its precondition. The bounds need not rise for it
      to end between two of them; the sum of two indices stays in an unsigned int. */
  method BucketIndex(ranges: array<int>, bucketCount: nat, value: int) returns (mid: nat)
    requires bucketCount <= INT_MAX && ranges.Length == bucketCount + 1
    requires ranges[0] <= value < ranges[bucketCount]
    ensures mid < bucketCount && ranges[mid] <= value < ranges[mid + 1]
  {
    var under, over := 0, bucketCount;
    while true
      invariant 0 <= under < over <= bucketCount && ranges[under] <= value < ranges[over]
      decreases over - under
    {
      assert under + over < 0x1_0000_0000;
      mid := (under + over) / 2;
      if mid == under {
        break;
      }
      if ranges[mid] <= value {
        under := mid;
      } else {
        over := mid;
      }
    }
  }

  ghost predicate Within(ranges: seq<int>, i: nat, value: int)
  {
    i + 1 < |ranges| && ranges[i] <= value < ranges[i + 1]
  }

  lemma BeforeLater(ranges: seq<int>, i: nat, j: nat, value: int)
    requires Rising(ranges) && Within(ranges, i, value) && i < j < |ranges|
    ensures value < ranges[j]
  {
    if i + 1 < j {
      assert Less(ranges, i + 1, j);
    }
  }

  /** Rising bounds have one bucket for each value between the first and the last. */
  lemma {:induction false} OneBucket(ranges: seq<int>, i: nat, j: nat, value: int)
    requires Rising(ranges) && Within(ranges, i, value) && Within(ranges, j, value)
    ensures i == j
  {
    if i < j {
      BeforeLater(ranges, i, j, value);
    } else if j < i {
      BeforeLater(ranges, j, i, value);
    }
  }
}
