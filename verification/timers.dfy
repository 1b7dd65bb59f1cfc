/**
 This module models the host environment's interval registry, the part of
 the browser behind `setInterval` and `clearInterval`. Only which intervals
 are live matters to the controller; their periods and the wall clock are
 not modelled. A live interval may fire a tick at any time.
 */
module Timers {

  /** The registry: the ids of live intervals and the next id to hand out.
      Browsers hand out positive ids, so a stored handle is always truthy. */
  datatype Host = Host(live: set<nat>, nextId: nat) {

    /** Every live id was handed out earlier, and ids are positive. */
    predicate Valid()
    {
      && 0 < nextId
      && forall id :: id in live ==> 0 < id < nextId
    }
  }

  /** The registry of a freshly loaded page: nothing is live yet. */
  function Fresh(): (h: Host)
    ensures h.Valid() && h.live == {}
  {
    Host({}, 1)
  }

  /** `setInterval`: registers a new live interval and returns its id. The id
      is fresh, so it can never be confused with an interval already live. */
  function SetInterval(h: Host): (r: (Host, nat))
    requires h.Valid()
    ensures r.1 !in h.live
    ensures r.1 > 0
    ensures r.0.live == h.live + {r.1}
    ensures r.0.Valid()
  {
    (Host(h.live + {h.nextId}, h.nextId + 1), h.nextId)
  }

  /** `clearInterval`: the interval stops firing; clearing an id that is not
      live has no effect. */
  function ClearInterval(h: Host, id: nat): (r: Host)
    ensures r.live == h.live - {id}
    ensures id !in h.live ==> r == h
    ensures h.Valid() ==> r.Valid()
  {
    Host(h.live - {id}, h.nextId)
  }
}
