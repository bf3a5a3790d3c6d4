/**
 * `DatalakeRecord`: the index entries of one datalake file, one per time
 * bucket its interval touches, built from its metadata or from the
 * metadata stored with it in the object store.
 */
module DatalakeRecord {

  import opened Wrappers
  import opened Errors
  import opened TimeBuckets

  /**
   * Metadata of one file: the required start, the optional end (epoch
   * milliseconds) and the other descriptive fields, which the core carries
   * through without reading them.
   */
  datatype Metadata = Metadata(start: int, end: Option<int>, fields: map<string, string>)

  /** One index entry: the file's url, one bucket it touches, and the file's whole metadata. */
  datatype Record = Record(url: string, bucket: int, metadata: Metadata)

  /** The end the interval is bucketed with: an absent end stands for the start. */
  function EffectiveEnd(md: Metadata): int {
    match md.end
    case Some(e) => e
    case None => md.start
  }

  /** Number of buckets the metadata's interval touches. */
  function BucketSpan(md: Metadata): int {
    LastBucket(md.start, EffectiveEnd(md)) - BucketOf(md.start) + 1
  }

  /** The buckets of the metadata's interval, or `UnsupportedTimeRange` when there are more than the maximum span allows. */
  function TimeBucketsFromMetadata(md: Metadata): (r: Result<seq<int>, Error>)
    ensures r.Success? <==> BucketSpan(md) <= MaximumBucketSpan
    ensures r.Success? ==> 1 <= |r.value| <= MaximumBucketSpan
    ensures r.Success? ==> r.value == GetTimeBuckets(md.start, EffectiveEnd(md))
    ensures r.Failure? ==> r.error == UnsupportedTimeRange
  {
    var buckets := GetTimeBuckets(md.start, EffectiveEnd(md));
    if |buckets| > MaximumBucketSpan then Failure(UnsupportedTimeRange)
    else Success(buckets)
  }

  /** One record per bucket the metadata's interval touches, each carrying `url` and the unchanged metadata. */
  function ListFromMetadata(url: string, md: Metadata): (r: Result<seq<Record>, Error>)
    ensures r.Success? <==> BucketSpan(md) <= MaximumBucketSpan
    ensures r.Failure? ==> r.error == UnsupportedTimeRange
    ensures r.Success? ==> |r.value| >= 1
    ensures r.Success? ==> forall i :: 0 <= i < |r.value| ==>
      r.value[i].url == url && r.value[i].metadata == md && r.value[i].bucket == BucketOf(md.start) + i
    ensures r.Success? ==> r.value[|r.value| - 1].bucket == LastBucket(md.start, EffectiveEnd(md))
  {
    match TimeBucketsFromMetadata(md)
    case Failure(e) => Failure(e)
    case Success(buckets) =>
      Success(seq(|buckets|, i requires 0 <= i < |buckets| => Record(url, buckets[i], md)))
  }

  // ---------------------------------------------------------------------
  // Properties of ListFromMetadata
  // ---------------------------------------------------------------------

  /** The records of an accepted interval index it under exactly the buckets it overlaps. */
  lemma RecordsCoverOverlappingBuckets(url: string, md: Metadata, b: int)
    requires md.start <= EffectiveEnd(md)
    requires BucketSpan(md) <= MaximumBucketSpan
    ensures ListFromMetadata(url, md).Success?
    ensures (exists rec :: rec in ListFromMetadata(url, md).value && rec.bucket == b)
        <==> Overlaps(b, md.start, EffectiveEnd(md))
  {
    var rs := ListFromMetadata(url, md).value;
    var buckets := GetTimeBuckets(md.start, EffectiveEnd(md));
    TimeBucketsAreOverlaps(md.start, EffectiveEnd(md), b);
    if exists rec :: rec in rs && rec.bucket == b {
      var rec :| rec in rs && rec.bucket == b;
      var i :| 0 <= i < |rs| && rs[i] == rec;
      assert buckets[i] == b;
    }
    if b in buckets {
      var i :| 0 <= i < |buckets| && buckets[i] == b;
      assert rs[i] in rs && rs[i].bucket == b;
    }
  }

  /** Metadata without an end is a single-point interval: exactly one record, in the start's bucket. */
  lemma NoEnd(url: string, md: Metadata)
    requires md.end == None
    ensures ListFromMetadata(url, md) == Success([Record(url, BucketOf(md.start), md)])
    ensures TimeBucketsFromMetadata(md) == TimeBucketsFromMetadata(md.(end := Some(md.start)))
  {
    var rs := ListFromMetadata(url, md).value;
    assert rs == [Record(url, BucketOf(md.start), md)];
  }

  /** An interval from 0 to (MaximumBucketSpan + 1) widths is rejected with `UnsupportedTimeRange`. */
  lemma TimespanTooBig(url: string, md: Metadata)
    requires md.start == 0
    requires md.end == Some((MaximumBucketSpan + 1) * TimeBucketSizeInMs)
    ensures ListFromMetadata(url, md) == Failure(UnsupportedTimeRange)
  {
    var d := TimeBucketSizeInMs;
    assert (MaximumBucketSpan + 2) * d == (MaximumBucketSpan + 1) * d + d;
    BucketOfUnique((MaximumBucketSpan + 1) * d, MaximumBucketSpan + 1);
    BucketOfUnique(0, 0);
  }

  /** Every interval at least MaximumBucketSpan widths long is rejected, however it is aligned. */
  lemma LongIntervalRejected(url: string, md: Metadata)
    requires EffectiveEnd(md) - md.start >= MaximumBucketSpan * TimeBucketSizeInMs
    ensures ListFromMetadata(url, md) == Failure(UnsupportedTimeRange)
  {
    var d := TimeBucketSizeInMs;
    var first, last := BucketOf(md.start), BucketOf(EffectiveEnd(md));
    BucketOfBounds(md.start);
    BucketOfBounds(EffectiveEnd(md));
    assert (last - first + 1) * d == (last + 1) * d - first * d;
    MulCancel(MaximumBucketSpan, last - first + 1, d);
  }

  /** Every interval at most MaximumBucketSpan - 1 widths long is accepted, however it is aligned. */
  lemma ShortIntervalAccepted(url: string, md: Metadata)
    requires 0 <= EffectiveEnd(md) - md.start <= (MaximumBucketSpan - 1) * TimeBucketSizeInMs
    ensures ListFromMetadata(url, md).Success?
  {
    var d := TimeBucketSizeInMs;
    var first, last := BucketOf(md.start), BucketOf(EffectiveEnd(md));
    BucketOfBounds(md.start);
    BucketOfBounds(EffectiveEnd(md));
    BucketOfMonotone(md.start, EffectiveEnd(md));
    assert (last - first) * d == last * d - first * d;
    assert (MaximumBucketSpan - 1) * d == MaximumBucketSpan * d - d;
    MulCancel(last - first, MaximumBucketSpan, d);
  }

  // ---------------------------------------------------------------------
  // The object store and the URL entry point
  // ---------------------------------------------------------------------

  /** Where a file lives in the object store: its container (an S3 bucket) and its key. */
  datatype FileUrl = FileUrl(container: string, key: string)

  /** The url text the records carry, `s3://<container>/<key>`. */
  function UrlString(u: FileUrl): string {
    "s3://" + u.container + "/" + u.key
  }

  /**
   * The object store as the core sees it: whether its integration is
   * available, and the metadata stored with each key of each container.
   */
  datatype Backend = Backend(available: bool, containers: map<string, map<string, Metadata>>)

  /** The file is present: its container exists and holds its key. */
  predicate Stored(b: Backend, u: FileUrl) {
    u.container in b.containers && u.key in b.containers[u.container]
  }

  /** The metadata stored with a file; a missing file and a missing container both give `NoSuchDatalakeFile`. */
  function FetchMetadata(b: Backend, u: FileUrl): (r: Result<Metadata, Error>)
    ensures r.Success? <==> Stored(b, u)
    ensures r.Success? ==> r.value == b.containers[u.container][u.key]
    ensures r.Failure? ==> r.error == NoSuchDatalakeFile
  {
    if u.container !in b.containers then Failure(NoSuchDatalakeFile)
    else if u.key !in b.containers[u.container] then Failure(NoSuchDatalakeFile)
    else Success(b.containers[u.container][u.key])
  }

  /**
   * The records of the file stored at `u`: `InsufficientConfiguration`
   * without the store integration, `NoSuchDatalakeFile` when the file is
   * not stored, otherwise the records of its stored metadata.
   */
  function ListFromUrl(b: Backend, u: FileUrl): (r: Result<seq<Record>, Error>)
    ensures r == Failure(InsufficientConfiguration) <==> !b.available
    ensures b.available && Stored(b, u) ==> r == ListFromMetadata(UrlString(u), b.containers[u.container][u.key])
    ensures (r.Failure? && r.error == NoSuchDatalakeFile) <==> b.available && !Stored(b, u)
    ensures r.Success? ==> Stored(b, u) && |r.value| >= 1 && forall rec :: rec in r.value ==>
      rec.url == UrlString(u) && rec.metadata == b.containers[u.container][u.key]
  {
    if !b.available then Failure(InsufficientConfiguration)
    else
      match FetchMetadata(b, u)
      case Failure(e) => Failure(e)
      case Success(md) => ListFromMetadata(UrlString(u), md)
  }

  /** Stores `md` at `u`, creating the container if it is missing. */
  function Put(b: Backend, u: FileUrl, md: Metadata): (b': Backend)
    ensures b'.available == b.available
    ensures FetchMetadata(b', u) == Success(md)
    ensures forall v :: v != u ==> FetchMetadata(b', v) == FetchMetadata(b, v)
  {
    var files := if u.container in b.containers then b.containers[u.container] else map[];
    b.(containers := b.containers[u.container := files[u.key := md]])
  }

  /** Creates an empty container unless it exists already. */
  function MakeContainer(b: Backend, name: string): (b': Backend)
    ensures b'.available == b.available
    ensures name in b'.containers
    ensures forall v :: FetchMetadata(b', v) == FetchMetadata(b, v)
  {
    if name in b.containers then b else b.(containers := b.containers[name := map[]])
  }

  // ---------------------------------------------------------------------
  // Properties of ListFromUrl
  // ---------------------------------------------------------------------

  /** Without the store integration every lookup fails with `InsufficientConfiguration`, whatever is stored: the no-integration case on its own. */
  lemma FromUrlFailsWithoutBackend(b: Backend, u: FileUrl)
    requires !b.available
    ensures ListFromUrl(b, u) == Failure(InsufficientConfiguration)
  {
  }

  /** A key missing from an existing container gives `NoSuchDatalakeFile`. */
  lemma NoSuchFileInContainer(b: Backend, container: string, key: string)
    requires b.available
    requires key !in MakeContainer(b, container).containers[container]
    ensures ListFromUrl(MakeContainer(b, container), FileUrl(container, key)) == Failure(NoSuchDatalakeFile)
  {
  }

  /** A missing container gives the same `NoSuchDatalakeFile`. */
  lemma NoSuchContainer(b: Backend, u: FileUrl)
    requires b.available
    requires u.container !in b.containers
    ensures ListFromUrl(b, u) == Failure(NoSuchDatalakeFile)
  {
  }

  /**
   * Metadata stored at a url and then listed from it gives the same records
   * as listing the metadata directly: at least one, each carrying exactly
   * the stored metadata, provided its interval is within the span limit.
   */
  lemma StoredThenListed(b: Backend, u: FileUrl, md: Metadata)
    requires b.available
    requires BucketSpan(md) <= MaximumBucketSpan
    ensures ListFromUrl(Put(b, u, md), u) == ListFromMetadata(UrlString(u), md)
    ensures ListFromUrl(Put(b, u, md), u).Success?
    ensures |ListFromUrl(Put(b, u, md), u).value| >= 1
    ensures forall rec :: rec in ListFromUrl(Put(b, u, md), u).value ==> rec.metadata == md
  {
  }

  /** Stored metadata whose interval is too wide is rejected by the URL entry point too. */
  lemma StoredTooWide(b: Backend, u: FileUrl, md: Metadata)
    requires b.available
    requires BucketSpan(md) > MaximumBucketSpan
    ensures ListFromUrl(Put(b, u, md), u) == Failure(UnsupportedTimeRange)
  {
  }
}
