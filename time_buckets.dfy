/**
 * The time axis, in epoch milliseconds, is cut into contiguous buckets of a
 * fixed width. Bucket b is the half-open interval [b * W, (b + 1) * W).
 * `GetTimeBuckets` lists the buckets an interval touches.
 */
module TimeBuckets {

  type Positive = n: int | n > 0 witness 1

  /** Width of one time bucket in milliseconds. Its concrete value is a deployment constant that this model leaves open. */
  const TimeBucketSizeInMs: Positive

  /** Largest number of buckets that one interval may touch. Its concrete value is left open as well. */
  const MaximumBucketSpan: Positive

  /** Index of the bucket holding timestamp `t`. Dafny's `/` floors when the divisor is positive. */
  function BucketOf(t: int): int {
    t / TimeBucketSizeInMs
  }

  /** Timestamp `t` lies in bucket `b`. */
  ghost predicate InBucket(t: int, b: int) {
    b * TimeBucketSizeInMs <= t < (b + 1) * TimeBucketSizeInMs
  }

  /** Bucket `b` shares at least one millisecond with the closed interval [start, end]. */
  ghost predicate Overlaps(b: int, start: int, end: int) {
    b * TimeBucketSizeInMs <= end && start < (b + 1) * TimeBucketSizeInMs
  }

  /** Last bucket an interval touches. An end that falls in an earlier bucket than start does not move it below the start's bucket. */
  function LastBucket(start: int, end: int): int {
    if BucketOf(end) < BucketOf(start) then BucketOf(start) else BucketOf(end)
  }

  /** The integers lo, lo + 1, ..., hi - 1 in ascending order, as Python's `range(lo, hi)`. */
  function Range(lo: int, hi: int): (r: seq<int>)
    ensures |r| == if lo <= hi then hi - lo else 0
    ensures forall i :: 0 <= i < |r| ==> r[i] == lo + i
    decreases hi - lo
  {
    if lo >= hi then [] else [lo] + Range(lo + 1, hi)
  }

  /** The buckets touched by the interval [start, end], in ascending order and without repetition. */
  function GetTimeBuckets(start: int, end: int): (r: seq<int>)
    ensures |r| == LastBucket(start, end) - BucketOf(start) + 1
    ensures r[0] == BucketOf(start) && r[|r| - 1] == LastBucket(start, end)
    ensures forall i :: 0 <= i < |r| ==> r[i] == BucketOf(start) + i
    ensures forall i, j :: 0 <= i < j < |r| ==> r[i] < r[j]
  {
    Range(BucketOf(start), LastBucket(start, end) + 1)
  }

  // ---------------------------------------------------------------------
  // Arithmetic of floor division by the bucket width
  // ---------------------------------------------------------------------

  /** Multiplying by a positive width keeps order. */
  lemma MulMonotone(a: int, b: int, d: int)
    requires d > 0 && a <= b
    ensures a * d <= b * d
  {
    assert b * d - a * d == (b - a) * d;
  }

  /** A strict inequality between multiples of a positive width holds between the factors. */
  lemma MulCancel(a: int, b: int, d: int)
    requires d > 0 && a * d < b * d
    ensures a < b
  {
    if b <= a {
      MulMonotone(b, a, d);
    }
  }

  /** A quotient is fixed by the interval it brackets. */
  lemma {:induction false} FloorDivUnique(t: int, d: int, q: int)
    requires d > 0
    requires q * d <= t < (q + 1) * d
    ensures t / d == q
  {
    var p := t / d;
    assert p * d <= t < (p + 1) * d by {
      assert t == d * p + t % d && 0 <= t % d < d;
    }
    if p < q {
      MulMonotone(p + 1, q, d);
    } else if q < p {
      MulMonotone(q + 1, p, d);
    }
  }

  /** Every timestamp lies in the bucket `BucketOf` gives it. */
  lemma BucketOfBounds(t: int)
    ensures InBucket(t, BucketOf(t))
  {
    var d := TimeBucketSizeInMs;
    assert t == d * (t / d) + t % d && 0 <= t % d < d;
  }

  /** And in no other: a timestamp on a boundary belongs to the bucket it opens. */
  lemma BucketOfUnique(t: int, b: int)
    requires InBucket(t, b)
    ensures BucketOf(t) == b
  {
    FloorDivUnique(t, TimeBucketSizeInMs, b);
  }

  /** Later timestamps never fall in earlier buckets. */
  lemma BucketOfMonotone(s: int, t: int)
    requires s <= t
    ensures BucketOf(s) <= BucketOf(t)
  {
    BucketOfBounds(s);
    BucketOfBounds(t);
    if BucketOf(t) < BucketOf(s) {
      MulMonotone(BucketOf(t) + 1, BucketOf(s), TimeBucketSizeInMs);
    }
  }

  // ---------------------------------------------------------------------
  // Properties of GetTimeBuckets
  // ---------------------------------------------------------------------

  /**
   * The listed buckets are exactly the buckets that overlap the interval,
   * so the list is the contiguous inclusive range from the start's bucket
   * to the end's bucket, however the interval is aligned.
   */
  lemma TimeBucketsAreOverlaps(start: int, end: int, b: int)
    requires start <= end
    ensures b in GetTimeBuckets(start, end) <==> Overlaps(b, start, end)
  {
    var d := TimeBucketSizeInMs;
    var r := GetTimeBuckets(start, end);
    var first, last := BucketOf(start), BucketOf(end);
    BucketOfMonotone(start, end);
    BucketOfBounds(start);
    BucketOfBounds(end);
    if b in r {
      var i :| 0 <= i < |r| && r[i] == b;
      MulMonotone(b, last, d);
      MulMonotone(first + 1, b + 1, d);
    }
    if Overlaps(b, start, end) {
      if last < b {
        MulMonotone(last + 1, b, d);
      }
      if b < first {
        MulMonotone(b + 1, first, d);
      }
      assert r[b - first] == b;
    }
  }

  /** An end earlier than the start is treated as a single-point interval at the start. */
  lemma InvertedIntervalIsSinglePoint(start: int, end: int)
    requires end < start
    ensures GetTimeBuckets(start, end) == GetTimeBuckets(start, start) == [BucketOf(start)]
  {
    BucketOfMonotone(end, start);
  }

  /**
   * Regression case of the misaligned query: an interval from anywhere in
   * bucket 0 to anywhere in bucket 2 touches buckets 0, 1 and 2, even when
   * it is shorter than two bucket widths.
   */
  lemma MisalignedInterval(start: int, end: int)
    requires 0 <= start < TimeBucketSizeInMs
    requires 2 * TimeBucketSizeInMs <= end < 3 * TimeBucketSizeInMs
    ensures GetTimeBuckets(start, end) == [0, 1, 2]
  {
    BucketOfUnique(start, 0);
    BucketOfUnique(end, 2);
  }

  /** The concrete regression instance: start at 4/5 of a width, end at 11/5 of a width, with integer division. */
  lemma MisalignedRegression()
    ensures GetTimeBuckets(TimeBucketSizeInMs * 4 / 5, TimeBucketSizeInMs * 11 / 5) == [0, 1, 2]
  {
    var d: int := TimeBucketSizeInMs;
    var start, end := d * 4 / 5, d * 11 / 5;
    assert 5 * start <= d * 4 < 5 * start + 5;
    assert 5 * end <= d * 11 < 5 * end + 5;
    MisalignedInterval(start, end);
  }
}
