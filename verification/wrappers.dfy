/** Optional values, used for the timer handle and for runs of events that
    may stop at an event the host would never deliver. */
module Wrappers {

  datatype Option<+T> = None | Some(value: T)
}
