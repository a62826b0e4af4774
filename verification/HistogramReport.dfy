/** The rows of a histogram's report. */
module HistogramReport {
  import opened BucketRanges
  import opened Samples
  import opened Histograms

  /** A bucket with its context, or the dots that stand for a run of empty buckets. */
  datatype Row = Bucket(i: nat, past: int, current: int, remaining: int) | Dots(i: nat, last: nat)

  function Last(row: Row): nat
  {
    if row.Bucket? then row.i else row.last
  }

  /** Bucket j is there and empty. */
  predicate Empty(counts: seq<int>, j: nat)
  {
    j < |counts| && counts[j] == 0
  }

  /** What a row says is so: past counts all earlier buckets, past, current and remaining make the
      whole, and dots stand for two or more empty buckets and for as many as there are. */
  ghost predicate Correct(counts: seq<int>, whole: int, row: Row)
  {
    && row.i <= Last(row) < |counts|
    && match row
       case Bucket(i, past, current, remaining) =>
         && past == Total(counts[..i]) && current == counts[i]
         && past + current + remaining == whole
         && !(Empty(counts, i) && Empty(counts, i + 1))
       case Dots(i, last) =>
         && i < last && !Empty(counts, last + 1)
         && forall j :: i <= j <= last ==> Empty(counts, j)
  }

  /** The rows cover the buckets below n, each once and in order. */
  ghost predicate Cover(rows: seq<Row>, n: nat)
  {
    if rows == [] then n == 0 else
      var row := rows[|rows| - 1];
      n == Last(row) + 1 && Cover(rows[..|rows| - 1], row.i)
  }

  ghost predicate AllCorrect(counts: seq<int>, whole: int, rows: seq<Row>)
  {
    forall k :: 0 <= k < |rows| ==> Correct(counts, whole, rows[k])
  }

  lemma {:induction false} CoverMore(rows: seq<Row>, row: Row)
    requires Cover(rows, row.i)
    ensures Cover(rows + [row], Last(row) + 1)
  {
    assert (rows + [row])[..|rows|] == rows;
  }

  /** Correct rows that cover the buckets can be written in one way only: the report is determined
      by the counts. */
  lemma {:induction false} OneReport(counts: seq<int>, whole: int, a: seq<Row>, b: seq<Row>, n: nat)
    requires n <= |counts| && Cover(a, n) && Cover(b, n) && AllCorrect(counts, whole, a) && AllCorrect(counts, whole, b)
    ensures a == b
    decreases n
  {
    if n > 0 {
      var x, y := a[|a| - 1], b[|b| - 1];
      var a', b' := a[..|a| - 1], b[..|b| - 1];
      assert Correct(counts, whole, x) && Correct(counts, whole, y);
      SameRow(counts, whole, a', x, b', y);
      OneReport(counts, whole, a', b', x.i);
      assert a == a' + [x] && b == b' + [y];
    }
  }

  /** If the last rows did not start together, one would start inside the other's dots and the row
      before it would end on an empty bucket with an empty one behind. */
  lemma {:induction false} SameRow(counts: seq<int>, whole: int, a: seq<Row>, x: Row, b: seq<Row>, y: Row)
    requires Correct(counts, whole, x) && Correct(counts, whole, y) && Last(x) == Last(y)
    requires Cover(a, x.i) && Cover(b, y.i) && AllCorrect(counts, whole, a) && AllCorrect(counts, whole, b)
    ensures x == y
  {
    if x.i < y.i {
      NotInside(counts, whole, x, b, y);
    } else if y.i < x.i {
      NotInside(counts, whole, y, a, x);
    }
  }

  lemma {:induction false} NotInside(counts: seq<int>, whole: int, x: Row, b: seq<Row>, y: Row)
    requires Correct(counts, whole, x) && Last(x) == Last(y) && y.i <= Last(y)
    requires Cover(b, y.i) && AllCorrect(counts, whole, b)
    ensures x.i >= y.i
  {
    if b != [] && x.i <= Last(b[|b| - 1]) < Last(x) {
      NoRowEndsIn(counts, whole, x, b[|b| - 1]);
    }
  }

  lemma {:induction false} NoRowEndsIn(counts: seq<int>, whole: int, x: Row, z: Row)
    requires Correct(counts, whole, x) && x.i <= Last(z) < Last(x)
    ensures !Correct(counts, whole, z)
  {
    assert Empty(counts, Last(z)) && Empty(counts, Last(z) + 1);
  }

  lemma {:induction false} TotalPrefix(counts: seq<int>, i: nat, j: nat)
    requires i <= j <= |counts| && forall k :: i <= k < j ==> Empty(counts, k)
    ensures Total(counts[..j]) == Total(counts[..i])
    decreases j
  {
    if i < j {
      TotalPrefix(counts, i, j - 1);
      assert counts[..j][..j - 1] == counts[..j - 1];
      assert Empty(counts, j - 1);
    }
  }

  lemma {:induction false} TotalNext(counts: seq<int>, i: nat)
    requires i < |counts|
    ensures Total(counts[..i + 1]) == Total(counts[..i]) + counts[i]
  {
    assert counts[..i + 1][..i] == counts[..i];
  }

  /** The end of the run of empty buckets that starts at i. */
  method SkipEmpty(counts: seq<int>, i: nat) returns (last: nat)
    requires Empty(counts, i)
    ensures i <= last < |counts| && !Empty(counts, last + 1)
    ensures forall j :: i <= j <= last ==> Empty(counts, j)
  {
    last := i;
    while last < |counts| - 1 && counts[last + 1] == 0
      invariant i <= last < |counts| && forall j :: i <= j <= last ==> Empty(counts, j)
    {
      last := last + 1;
    }
  }

  /** One turn of the loop: the row it writes and where it leaves i, before the loop's own increment. */
  method WriteRow(counts: seq<int>, i: nat, past: int, remaining: int, ghost whole: int)
    returns (row: Row, past': int, remaining': int)
    requires i < |counts| && past == Total(counts[..i]) && past + remaining == whole
    ensures row.i == i && Correct(counts, whole, row)
    ensures past' == Total(counts[..Last(row) + 1]) && past' + remaining' == whole
  {
    var current := counts[i];
    past', remaining' := past, remaining - current;
    if current == 0 && i < |counts| - 1 && counts[i + 1] == 0 {
      var last := SkipEmpty(counts, i);
      assert last > i by {
        assert Empty(counts, i + 1);
      }
      TotalPrefix(counts, i, last + 1);
      row := Dots(i, last);
      return;
    }
    row := Bucket(i, past, current, remaining');
    TotalNext(counts, i);
    past' := past + current;
  }

  /** The row loop of write_ascii, on a snapshot of the counts. */
  method WriteRows(counts: seq<int>, sampleCount: int) returns (rows: seq<Row>, past: int, remaining: int)
    ensures Cover(rows, |counts|) && AllCorrect(counts, sampleCount, rows)
    ensures past == Total(counts) && past + remaining == sampleCount
  {
    rows, past, remaining := [], 0, sampleCount;
    var i := 0;
    while i < |counts|
      invariant i <= |counts| && Cover(rows, i) && AllCorrect(counts, sampleCount, rows)
      invariant past == Total(counts[..i]) && past + remaining == sampleCount
    {
      var row;
      row, past, remaining := WriteRow(counts, i, past, remaining, sampleCount);
      CoverMore(rows, row);
      rows := rows + [row];
      i := Last(row) + 1;
    }
    assert counts[..i] == counts;
  }

  /** write_ascii: the rows of everything added so far, with the past and remaining it ends on. The
      whole is the total as an int: it is the number of samples while that fits. */
  method WriteAscii(histogram: Histogram) returns (rows: seq<Row>, past: int, remaining: int)
    requires histogram.Valid()
    ensures Cover(rows, histogram.bucketCount)
    ensures AllCorrect(histogram.counts[..], Int32Of(|histogram.samples|), rows)
    ensures past == |histogram.samples| && past + remaining == Int32Of(|histogram.samples|)
    ensures |histogram.samples| <= INT_MAX ==> Int32Of(|histogram.samples|) == |histogram.samples| && remaining == 0
  {
    var sampleCount := histogram.TotalCount();
    var snapshot := histogram.counts[..];
    CountsTotal(histogram.samples, histogram.ranges[..]);
    rows, past, remaining := WriteRows(snapshot, sampleCount);
  }
}
