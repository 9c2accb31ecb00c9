/**
 * The cache refresh (src/cache.ts): a store update whose failure is absorbed,
 * logged and tracked instead of propagated.
 */
module Cache {
  import opened Wrappers
  import opened Types
  import Output
  import RecordStore
  import Request

  const CacheErrorMessage := "Could not update the cache. Ensure you are connected to the Pinterest VPN"

  /** The tracking event a failed refresh emits. */
  const ErrorEvent := Output.TrackEvent("Error", "Error", CacheErrorMessage, None)

  /**
   * `update`: never fails. On success its effect is the store update's; on
   * failure the snapshot is as before, the error's message and then the fixed
   * VPN message are logged, and one error event is tracked.
   */
  method Update(store: RecordStore.Store, log: Output.Log, tracker: Output.Tracker,
                deciders: Result<seq<Decider>, FetchError>,
                experiments: Result<seq<Experiment>, FetchError>, now: int)
    modifies store, log, tracker
    ensures deciders.Success? && experiments.Success? ==>
      && store.globalState == old(store.globalState)[RecordStore.StateKey :=
           Snapshot(now, Request.TagDeciders(deciders.value), Request.TagExperiments(experiments.value))]
      && log.lines == old(log.lines) + RecordStore.RequestLines() + [RecordStore.UpdatedLine]
      && tracker.events == old(tracker.events)
    ensures deciders.Failure? || experiments.Failure? ==>
      && store.globalState == old(store.globalState)
      && |log.lines| == |old(log.lines)| + 4
      && log.lines[..|old(log.lines)| + 2] == old(log.lines) + RecordStore.RequestLines()
      && log.lines[|old(log.lines)| + 2] in RecordStore.FailedMessages(deciders, experiments)
      && log.lines[|old(log.lines)| + 3] == CacheErrorMessage
      && tracker.events == old(tracker.events) + [ErrorEvent]
  {
    var outcome := store.Update(log, deciders, experiments, now);
    if outcome.Fail? {
      log.Append(outcome.error.message);
      tracker.Event(ErrorEvent);
      log.Append(CacheErrorMessage);
    }
  }
}
