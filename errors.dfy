/** The error kinds of `datalake_common.errors` that the record core raises. */
module Errors {

  datatype Error =
    /** The optional object-store integration is not available. */
    | InsufficientConfiguration
    /** An interval touches more time buckets than the system allows. */
    | UnsupportedTimeRange
    /** The requested file, or the container that should hold it, does not exist. */
    | NoSuchDatalakeFile
}
