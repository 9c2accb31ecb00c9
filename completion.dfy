/**
 * The live completion provider (src/completionProvider.ts): gated like the
 * legacy one, but a line naming both kinds searches the experiments, and
 * every offered item carries the same placeholder documentation.
 */
module Completion {
  import opened Wrappers
  import opened Types
  import opened Strings
  import opened Editor
  import Output
  import RecordStore
  import Trigger

  const Placeholder := Markdown("*test*", true)

  /** The count event both providers emit once a search has run. */
  function AutocompletionEvent(count: nat): (event: Output.TrackEvent)
    ensures event.category == "Event" && event.action == "Count" && event.eventLabel == "Autocompletion"
    ensures event.value.Some? && Canonical(event.value.value) && DigitsValue(event.value.value) == count
  {
    Output.TrackEvent("Event", "Count", "Autocompletion", Some(NatToString(count)))
  }

  /** How a store instance appears in a template: an object or "undefined". */
  function ShowStore(stored: Option<Snapshot>): string {
    if stored.Some? then "[object Object]" else "undefined"
  }

  // The debug lines each stage of the provider logs.
  function StoreLine(stored: Option<Snapshot>): string {
    "// provideCompletionItems 1 - " + ShowStore(stored)
  }

  const EligibleLine := "// provideCompletionItems 2"

  function PrefixLine(prefix: string): string {
    "// provideCompletionItems 3 - " + prefix
  }

  /** A match array prints as the whole match and the group, which are equal here. */
  function MatchLine(token: string): string {
    "// provideCompletionItems 4 - " + token + "," + token
  }

  /** The debug lines logged up to the stage where the provider stops. */
  function Trace(stored: Option<Snapshot>, text: string, prefix: string): (lines: seq<string>)
    ensures 1 <= |lines| <= 4 && lines[0] == StoreLine(stored)
    ensures |lines| == 4 <==> stored.Some? && Trigger.Eligible(text) && Trigger.MatchTrigger(prefix).Some?
  {
    if stored.None? || !Trigger.Eligible(text) then [StoreLine(stored)]
    else if Trigger.MatchTrigger(prefix).None? then [StoreLine(stored), EligibleLine, PrefixLine(prefix)]
    else [StoreLine(stored), EligibleLine, PrefixLine(prefix), MatchLine(Trigger.MatchTrigger(prefix).value)]
  }

  /** One offered record: its key as label, no detail, the placeholder text. */
  function Offered(results: seq<Item>): (items: seq<CompletionItem>)
    ensures |items| == |results|
    ensures forall i :: 0 <= i < |results| ==>
      items[i].labelText == results[i].Key() && items[i].kind == Text
      && items[i].detail.None? && items[i].documentation == Placeholder
  {
    seq(|results|, i requires 0 <= i < |results| => CompletionItem(results[i].Key(), Text, None, Placeholder))
  }

  /**
   * The gates of `provideCompletionItems`, each logging its debug line: a
   * stored snapshot, a document that mentions a record kind in its first 100
   * lines, and a trigger ending the text left of the cursor. When all pass,
   * the snapshot, that text and the trigger. The editor passes `line` as the
   * document's line at the cursor, so it is one of the lines of `text`; the
   * model takes the two as given and does not relate them.
   */
  method Gate(store: RecordStore.Store, log: Output.Log, text: string, line: string, character: nat)
    returns (passed: Option<(Snapshot, string, string)>)
    modifies log
    ensures var prefix := Trigger.LinePrefix(line, character);
      passed.Some? <==> store.Get().Some? && Trigger.Eligible(text) && Trigger.MatchTrigger(prefix).Some?
    ensures passed.Some? ==>
      var prefix := Trigger.LinePrefix(line, character);
      passed.value == (store.Get().value, prefix, Trigger.MatchTrigger(prefix).value)
    ensures log.lines == old(log.lines) + Trace(store.Get(), text, Trigger.LinePrefix(line, character))
  {
    var storeInstance := store.Get();
    log.Append(StoreLine(storeInstance));
    if storeInstance.None? || !Trigger.Eligible(text) {
      return None;
    }
    log.Append(EligibleLine);
    var linePrefix := Trigger.LinePrefix(line, character);
    log.Append(PrefixLine(linePrefix));
    var matched := Trigger.MatchTrigger(linePrefix);
    if matched.None? {
      Output.AppendedThree(old(log.lines), StoreLine(storeInstance), EligibleLine, PrefixLine(linePrefix));
      return None;
    }
    log.Append(MatchLine(matched.value));
    Output.AppendedFour(old(log.lines), StoreLine(storeInstance), EligibleLine, PrefixLine(linePrefix), MatchLine(matched.value));
    passed := Some((storeInstance.value, linePrefix, matched.value));
  }

  /**
   * The search once the gates pass: the line's words choose the list, the
   * experiments when both kinds are named; the search runs on the trigger
   * without quotes, and one count event is tracked.
   */
  method Search(snapshot: Snapshot, linePrefix: string, token: string,
                search: (seq<Item>, string) -> seq<Item>, tracker: Output.Tracker)
    returns (items: seq<CompletionItem>)
    modifies tracker
    ensures var results := search(Trigger.Candidates(Trigger.ExperimentFirst, linePrefix, snapshot), Trigger.Unquote(token));
      && items == Offered(results)
      && tracker.events == old(tracker.events) + [AutocompletionEvent(|results|)]
  {
    var searchIndex := snapshot.deciders + snapshot.experiments;
    var lower := Lower(linePrefix);
    if Includes(lower, "experiment") {
      searchIndex := snapshot.experiments;
    } else if Includes(lower, "decider") {
      searchIndex := snapshot.deciders;
    }
    var results := search(searchIndex, Trigger.Unquote(token));
    tracker.Event(AutocompletionEvent(|results|));
    items := Offered(results);
  }

  /**
   * `provideCompletionItems`: nothing without a snapshot, for a document that
   * mentions no record kind in its first 100 lines, or when the text left of
   * the cursor does not end in a trigger. Otherwise the fuzzy search over the
   * chosen list, for the trigger without its quotes, gives the items in its
   * order, and one count event is tracked. Each step logs a debug line.
   */
  method ProvideCompletionItems(store: RecordStore.Store, log: Output.Log, tracker: Output.Tracker,
                                text: string, line: string, character: nat,
                                search: (seq<Item>, string) -> seq<Item>)
    returns (items: Option<seq<CompletionItem>>)
    modifies log, tracker
    ensures var prefix := Trigger.LinePrefix(line, character);
      items.Some? <==> store.Get().Some? && Trigger.Eligible(text) && Trigger.MatchTrigger(prefix).Some?
    ensures items.Some? ==>
      var prefix := Trigger.LinePrefix(line, character);
      var token := Trigger.MatchTrigger(prefix).value;
      var results := search(Trigger.Candidates(Trigger.ExperimentFirst, prefix, store.Get().value), Trigger.Unquote(token));
      && items.value == Offered(results)
      && tracker.events == old(tracker.events) + [AutocompletionEvent(|results|)]
    ensures items.None? ==> tracker.events == old(tracker.events)
    ensures log.lines == old(log.lines) + Trace(store.Get(), text, Trigger.LinePrefix(line, character))
  {
    var passed := Gate(store, log, text, line, character);
    if passed.None? {
      return None;
    }
    var found := Search(passed.value.0, passed.value.1, passed.value.2, search, tracker);
    items := Some(found);
  }
}
