/** Optional values: a missing environment variable, a publication without a
    track, a scan that found nothing. */
module Wrappers {

  datatype Option<+T> = None | Some(value: T)
}
