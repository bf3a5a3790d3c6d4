# datalake-common record core in Dafny

This project models the time-bucketing core of `datalake_common`. A datalake file is described by metadata: a start time, an optional end time in epoch milliseconds, and other fields that are passed through unread. The time axis is cut into buckets of `TIME_BUCKET_SIZE_IN_MS` milliseconds. `DatalakeRecord` emits one index record per bucket that the file's interval touches. Each record carries the file's url and its unchanged metadata.

- `TimeBuckets` (`time_buckets.dfy`) models `DatalakeRecord.get_time_buckets`. It covers floor division into buckets and the inclusive, ascending bucket range of an interval. It also proves that this range is exactly the set of buckets overlapping the interval, which settles the misaligned-interval regression.
- `DatalakeRecord` (`datalake_record.dfy`) models `list_from_metadata`, the `MAXIMUM_BUCKET_SPAN` guard, and `list_from_url`. The object store is an abstract value: an availability flag (the `has_s3` probe) and a map from container to key to stored metadata.
- `Errors` (`errors.dfy`) holds the three error kinds `InsufficientConfiguration`, `UnsupportedTimeRange` and `NoSuchDatalakeFile`. `Wrappers` (`wrappers.dfy`) holds `Option` and `Result`.

The two constants `TimeBucketSizeInMs` and `MaximumBucketSpan` are declared as positive integers with no fixed value. Every property is therefore proved for all positive values of both. The implementation module of `DatalakeRecord` is not part of this model; the behaviour is the one its tests in `datalake_common/tests/test_record.py` pin down. Two rules are modelling choices consistent with those tests:
- A missing `end` means `end = start`.
- An end whose bucket comes before the start's bucket is treated as a single-point interval at the start. No test exercises this case.

## Model

| member | source | states |
|---|---|---|
| TimeBuckets.GetTimeBuckets | datalake_common/tests/test_record.py:79-85 | the bucket list runs from the start's bucket to the end's bucket, ascending by one with no repetition; its length is the difference of the two bucket indices plus one |
| TimeBuckets.BucketOfBounds | datalake_common/tests/test_record.py:82-85 | every timestamp lies in the half-open interval [b·W, (b+1)·W) of the bucket it is assigned |
| TimeBuckets.BucketOfUnique | datalake_common/tests/test_record.py:82-85 | no other bucket holds it, so a timestamp on a boundary belongs to the bucket it opens |
| TimeBuckets.TimeBucketsAreOverlaps | datalake_common/tests/test_record.py:79-85 | a bucket is listed for an interval exactly when it shares a millisecond with the interval |
| TimeBuckets.MisalignedInterval | datalake_common/tests/test_record.py:79-85 | any start in bucket 0 with an end in bucket 2 gives exactly [0, 1, 2], even when the interval is shorter than two widths |
| TimeBuckets.MisalignedRegression | datalake_common/tests/test_record.py:82-85 | the test's own instance, start W·4/5 and end W·11/5 under integer division, gives [0, 1, 2] for every width W |
| TimeBuckets.InvertedIntervalIsSinglePoint | datalake_common/tests/test_record.py:84 | an end before the start gives the same single bucket as the point interval at the start; the tests never pass an inverted interval, so this is a chosen rule |
| DatalakeRecord.TimeBucketsFromMetadata | datalake_common/tests/test_record.py:46-52 | the buckets of the interval from start to the effective end are accepted exactly when they number at most MaximumBucketSpan, and then returned unchanged; otherwise the error is UnsupportedTimeRange |
| DatalakeRecord.ListFromMetadata | datalake_common/tests/test_record.py:38-43 | an accepted interval gives at least one record; record i has the given url, the input metadata unchanged and bucket first+i, and the last record is in the end's bucket; the only error is UnsupportedTimeRange, raised exactly when the span is too wide |
| DatalakeRecord.RecordsCoverOverlappingBuckets | datalake_common/tests/test_record.py:38-43 | an interval within the span limit is accepted, and the file then has a record in bucket b exactly when b overlaps its interval |
| DatalakeRecord.NoEnd | datalake_common/tests/test_record.py:70-76 | metadata without an end gives exactly one record, in the start's bucket, carrying the metadata unchanged; its buckets are those of end = start |
| DatalakeRecord.TimespanTooBig | datalake_common/tests/test_record.py:46-52 | start 0 and end (MaximumBucketSpan + 1)·W is rejected with UnsupportedTimeRange |
| DatalakeRecord.LongIntervalRejected | datalake_common/tests/test_record.py:46-52 | every interval at least MaximumBucketSpan widths long is rejected with UnsupportedTimeRange, however it is aligned |
| DatalakeRecord.ShortIntervalAccepted | datalake_common/tests/test_record.py:46-52 | every interval at most MaximumBucketSpan − 1 widths long is accepted, however it is aligned |
| DatalakeRecord.FetchMetadata | datalake_common/tests/test_record.py:55-67 | the stored metadata is returned exactly when the container exists and holds the key; a missing file and a missing container both give NoSuchDatalakeFile |
| DatalakeRecord.ListFromUrl | datalake_common/tests/test_record.py:22-35 | the result is InsufficientConfiguration exactly when the store integration is missing; with the integration and the file stored, it is the records `list_from_metadata` gives for the stored metadata; NoSuchDatalakeFile comes exactly when the integration is present and the file is not stored; a success means the file is stored and gives at least one record, each with its url and its stored metadata |
| DatalakeRecord.Put | datalake_common/tests/test_record.py:25 | after storing, fetching the url gives the stored metadata and every other url fetches as before |
| DatalakeRecord.MakeContainer | datalake_common/tests/test_record.py:57 | afterwards the container exists and every fetch gives what it gave before |
| DatalakeRecord.FromUrlFailsWithoutBackend | datalake_common/tests/test_record.py:32-35 | without the store integration, listing any url fails with InsufficientConfiguration |
| DatalakeRecord.NoSuchFileInContainer | datalake_common/tests/test_record.py:55-60 | a key missing from a container that exists gives NoSuchDatalakeFile |
| DatalakeRecord.NoSuchContainer | datalake_common/tests/test_record.py:63-67 | a url whose container does not exist gives the same NoSuchDatalakeFile |
| DatalakeRecord.StoredThenListed | datalake_common/tests/test_record.py:22-29 | metadata stored at a url and listed from it gives the same records as listing it directly: at least one, each with metadata equal to what was stored |
| DatalakeRecord.StoredTooWide | datalake_common/tests/test_record.py:22-29 | stored metadata whose span is too wide is rejected by the url entry point with UnsupportedTimeRange |

## Left out

- Object-store access (S3 through boto, its connection and container fixtures) is replaced by the `Backend` value. Its `available` flag stands for the `has_s3` import probe.
- URL parsing is left out. A url is given already split into container and key (`FileUrl`). The records carry the text `s3://<container>/<key>`.
- Timestamps are integers. The float timestamps that `W * 4 / 5` produces under Python 3 are not modelled. The regression is stated for every start in bucket 0 and end in bucket 2, and for the integer-division instance.
- The concrete values of `TIME_BUCKET_SIZE_IN_MS` and `MAXIMUM_BUCKET_SPAN` are not modelled. Both are arbitrary positive constants.
- Record fields other than url, bucket and metadata are not modelled. The tests read only `metadata`.
- Idempotence of `list_from_metadata` is not stated as a lemma. Every Dafny function is deterministic, so it holds by construction.
- Timestamps before the epoch are outside the source's domain, where buckets start at 0. The model accepts them and floors them into negative buckets.
- The inverted-interval rule (`InvertedIntervalIsSinglePoint`) is not pinned by any test; it is a chosen behaviour.
- The random metadata generation of the test fixtures and the pytest skip markers are not modelled.
