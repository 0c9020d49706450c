/**
 * The debounce shared by both controllers (make_filterable.js:182-184, 356-358):
 * a filter pass is scheduled with `setTimeout` and its handle kept in
 * `filterTimer`; a later keystroke clears that handle before scheduling anew.
 * The event loop's queue is modelled by the set of handles still pending.
 */
module Debounce {
  import opened Wrappers

  /** Every pending pass is the latest one scheduled, and handles are issued in order. */
  predicate OnlyLatestPending(filterTimer: Option<nat>, pending: set<nat>, nextId: nat) {
    match filterTimer
    case None => pending == {}
    case Some(t) => t < nextId && pending <= {t}
  }

  /** Hence a controller never has two filter passes waiting. */
  lemma AtMostOnePending(filterTimer: Option<nat>, pending: set<nat>, nextId: nat)
    requires OnlyLatestPending(filterTimer, pending, nextId)
    ensures |pending| <= 1
  {
    if filterTimer.Some? && pending != {} {
      assert pending == {filterTimer.value};
    }
  }
}
