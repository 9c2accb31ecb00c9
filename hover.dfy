/**
 * The hover provider (src/DeciderExperimentHoverProvider.ts): the word under
 * the pointer is looked up among the stored records' keys, and a record found
 * is shown with the full detail over that word's range.
 */
module HoverProvider {
  import opened Wrappers
  import opened Types
  import opened Editor
  import Output
  import RecordStore
  import Info
  import Strings

  /** `items.map((item) => item.key)`. */
  function Keys(items: seq<Item>): (keys: seq<string>)
    ensures |keys| == |items|
    ensures forall i :: 0 <= i < |items| ==> keys[i] == items[i].Key()
  {
    seq(|items|, i requires 0 <= i < |items| => items[i].Key())
  }

  /** Where `items.find((item) => item.key === key)` stops: the first record with that key. */
  function FirstIndex(items: seq<Item>, key: string): (r: Option<nat>)
    ensures r.None? ==> forall j :: 0 <= j < |items| ==> items[j].Key() != key
    ensures r.Some? ==> r.value < |items| && items[r.value].Key() == key
    ensures r.Some? ==> forall j :: 0 <= j < r.value ==> items[j].Key() != key
    decreases |items|
  {
    if items == [] then None
    else if items[0].Key() == key then Some(0)
    else
      var rest := FirstIndex(items[1..], key);
      assert forall j :: 1 <= j < |items| ==> items[j] == items[1..][j - 1];
      if rest.None? then None else Some(rest.value + 1)
  }

  /** `items.find((item) => item.key === key)`. */
  function Find(items: seq<Item>, key: string): (r: Option<Item>)
    ensures r.None? <==> key !in Keys(items)
    ensures r.Some? ==> r.value.Key() == key
    ensures r.Some? ==> r.value == items[FirstIndex(items, key).value]
  {
    var keys := Keys(items);
    assert FirstIndex(items, key).Some? ==> keys[FirstIndex(items, key).value] == key;
    match FirstIndex(items, key)
    case None => None
    case Some(i) => Some(items[i])
  }

  /**
   * The record a hovered name resolves to: nothing unless some decider's or
   * experiment's key equals it; then the first decider with that key, and
   * only failing that the first experiment.
   */
  function Lookup(snapshot: Snapshot, name: string): (entry: Option<Item>)
    ensures entry.None? <==> name !in Keys(snapshot.deciders) && name !in Keys(snapshot.experiments)
    ensures entry.Some? ==> entry.value.Key() == name
    ensures name in Keys(snapshot.deciders) ==> entry == Find(snapshot.deciders, name)
  {
    if name in Keys(snapshot.deciders) || name in Keys(snapshot.experiments) then
      match Find(snapshot.deciders, name)
      case Some(item) => Some(item)
      case None => Find(snapshot.experiments, name)
    else
      None
  }

  /** The key guard only repeats what the two searches decide by themselves. */
  lemma LookupGuardRedundant(snapshot: Snapshot, name: string)
    ensures Lookup(snapshot, name)
      == if Find(snapshot.deciders, name).Some? then Find(snapshot.deciders, name) else Find(snapshot.experiments, name)
  {
  }

  /** A decider and an experiment sharing a key: the hover shows the decider. */
  lemma DeciderShadowsExperiment(d: Decider, e: Experiment, deciders: seq<Item>, experiments: seq<Item>, now: int)
    requires d.key == e.key
    ensures Lookup(Snapshot(now, [DeciderItem(d)] + deciders, [ExperimentItem(e)] + experiments), d.key)
      == Some(DeciderItem(d))
  {
    var ds := [DeciderItem(d)] + deciders;
    assert Keys(ds)[0] == d.key;
    assert Find(ds, d.key) == Some(DeciderItem(d)) by {
      assert ds[0].Key() == d.key;
    }
  }

  // The debug lines the provider logs.
  const DecidersLine := "//// 1 deciders by key"
  const ExperimentsLine := "//// 2 experiments by key"

  function NameLine(name: string): string {
    "// name: " + name
  }

  function KeyLine(key: string): string {
    "//// 3: " + key
  }

  /** The debug lines logged for a hover over `word` with `stored` in the store. */
  function Trace(word: Option<(Range, string)>, stored: Option<Snapshot>): (lines: seq<string>)
    ensures word.None? || stored.None? ==> lines == []
    ensures word.Some? && stored.Some? ==>
      && 3 <= |lines| <= 4
      && lines[..3] == [DecidersLine, ExperimentsLine, NameLine(word.value.1)]
      && (|lines| == 4 <==> Lookup(stored.value, word.value.1).Some?)
  {
    if word.None? || stored.None? then []
    else
      var name := word.value.1;
      match Lookup(stored.value, name)
      case None => [DecidersLine, ExperimentsLine, NameLine(name)]
      case Some(entry) => [DecidersLine, ExperimentsLine, NameLine(name), KeyLine(entry.Key())]
  }

  /**
   * `provideHover`: nothing when no word is under the pointer, when the store
   * is empty, or when no record has the word as its key; otherwise the
   * record's full detail, as trusted markdown, over the word's range.
   * `word` is the word range and its text; `history` is what the ramp
   * history request for the record returned.
   */
  method ProvideHover(store: RecordStore.Store, log: Output.Log, word: Option<(Range, string)>,
                      history: Result<Info.RampHistory, FetchError>, locale: Info.Locale)
    returns (hover: Option<Hover>)
    modifies log
    ensures hover.Some? <==> word.Some? && store.Get().Some? && Lookup(store.Get().value, word.value.1).Some?
    ensures hover.Some? ==>
      var entry := Lookup(store.Get().value, word.value.1);
      && hover.value.range == word.value.0
      && hover.value.contents.isTrusted
      && hover.value.contents.value == Strings.Join(Info.Sections(entry.value, history, locale), Info.SectionBreak)
    ensures log.lines == old(log.lines) + Trace(word, store.Get())
  {
    if word.None? {
      return None;
    }
    var wordRange, name := word.value.0, word.value.1;
    var storeInstance := store.Get();
    if storeInstance.None? {
      return None;
    }
    log.Append(DecidersLine);
    log.Append(ExperimentsLine);
    log.Append(NameLine(name));
    var entry := Lookup(storeInstance.value, name);
    if entry.None? {
      Output.AppendedThree(old(log.lines), DecidersLine, ExperimentsLine, NameLine(name));
      return None;
    }
    log.Append(KeyLine(entry.value.Key()));
    Output.AppendedFour(old(log.lines), DecidersLine, ExperimentsLine, NameLine(name), KeyLine(entry.value.Key()));
    var markdown := Info.GetInfo(entry, history, locale);
    if markdown.None? {
      return None;
    }
    hover := Some(Hover(markdown.value.(isTrusted := true), wordRange));
  }
}
