/**
 * The record store (src/store.ts): one entry of the editor's persisted global
 * state, under the key "Pinterest", holding the last snapshot. It is read
 * without side effects and replaced wholesale once both fetches succeed.
 */
module RecordStore {
  import opened Wrappers
  import opened Types
  import Request
  import Output

  const StateKey := "Pinterest"
  const UpdatedLine := "Cache: Updated"

  /** The lines the two requests log, deciders first, before either settles. */
  function RequestLines(): seq<string> {
    [Request.RequestLine(Request.Url(Request.BaseUrl + "api/deciders", [])),
     Request.RequestLine(Request.Url(Request.BaseUrl + "api/experiments", []))]
  }

  /** A snapshot as ingestion writes it: tagged lists and only live deciders. */
  ghost predicate Ingested(s: Snapshot) {
    && (forall i :: 0 <= i < |s.deciders| ==> s.deciders[i].DeciderItem? && Request.Live(s.deciders[i].decider))
    && (forall i :: 0 <= i < |s.experiments| ==> s.experiments[i].ExperimentItem?)
  }

  /** The messages of the fetches that failed. */
  function FailedMessages(deciders: Result<seq<Decider>, FetchError>, experiments: Result<seq<Experiment>, FetchError>): set<string> {
    (if deciders.Failure? then {deciders.error.message} else {})
    + (if experiments.Failure? then {experiments.error.message} else {})
  }

  class Store {
    /** The extension's persisted global state, key by key. */
    var globalState: map<string, Snapshot>

    /** The state persisted by earlier sessions, possibly empty. */
    constructor (persisted: map<string, Snapshot>)
      ensures globalState == persisted
    {
      globalState := persisted;
    }

    /** `get`: the snapshot under "Pinterest", or none if it was never written. */
    function Get(): (stored: Option<Snapshot>)
      reads this
      ensures stored.Some? <==> StateKey in globalState
      ensures stored.Some? ==> stored.value == globalState[StateKey]
    {
      if StateKey in globalState then Some(globalState[StateKey]) else None
    }

    /**
     * `update`: issue both requests, then, once both have succeeded, write
     * one new snapshot stamped with `now`. A failed fetch rejects the whole
     * update with that fetch's error and writes nothing. Which error is
     * reported when both fail depends on timing; this model reports the
     * deciders' one.
     */
    method Update(log: Output.Log, deciders: Result<seq<Decider>, FetchError>,
                  experiments: Result<seq<Experiment>, FetchError>, now: int)
      returns (outcome: Outcome<FetchError>)
      modifies this, log
      ensures outcome.Pass? <==> deciders.Success? && experiments.Success?
      ensures outcome.Fail? ==> outcome.error.message in FailedMessages(deciders, experiments)
      ensures outcome.Fail? ==> globalState == old(globalState)
      ensures outcome.Pass? ==> globalState == old(globalState)[StateKey :=
        Snapshot(now, Request.TagDeciders(deciders.value), Request.TagExperiments(experiments.value))]
      ensures outcome.Pass? ==> Get().Some? && Ingested(Get().value) && Get().value.lastUpdated == now
      ensures log.lines == old(log.lines) + RequestLines() + if outcome.Pass? then [UpdatedLine] else []
    {
      var fetchedDeciders := Request.FetchDeciders(log, deciders);
      var fetchedExperiments := Request.FetchExperiments(log, experiments);
      if fetchedDeciders.Failure? {
        return Fail(fetchedDeciders.error);
      }
      if fetchedExperiments.Failure? {
        return Fail(fetchedExperiments.error);
      }
      log.Append(UpdatedLine);
      globalState := globalState[StateKey := Snapshot(now, fetchedDeciders.value, fetchedExperiments.value)];
      outcome := Pass;
    }
  }
}
