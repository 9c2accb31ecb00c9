/**
 * The older completion provider (src/DeciderExperimentCompletionItemProvider.ts):
 * the same gate as the live provider, but a line naming both kinds searches
 * the deciders, and each item carries a detail line and a documentation text
 * built by this file's own, simpler formatter.
 */
module LegacyCompletion {
  import opened Wrappers
  import opened Types
  import opened Strings
  import opened Editor
  import Output
  import RecordStore
  import Trigger
  import Info
  import Completion

  const ActivatedLine := "// provideCompletionItems activated"

  /**
   * `parseDescription`: the placeholder for a missing description; otherwise
   * the text after "Description: " with no escape left in it, and text
   * without a backslash-n or backslash-r escape, links included, shown as written.
   */
  function Description(input: Option<string>): (r: string)
    ensures !Truthy(input) ==> r == Info.EmptyDescription
    ensures Truthy(input) ==>
      StartsWith(r, "Description: ") && !HasEscape(r[|"Description: "|..], 'n') && !HasEscape(r[|"Description: "|..], 'r')
    ensures Truthy(input) && !HasEscape(input.value, 'n') && !HasEscape(input.value, 'r') ==>
      r == "Description: " + input.value
  {
    if !Truthy(input) then Info.EmptyDescription
    else
      var text := Info.Normalise(input.value);
      PrefixOfConcat("Description: ", text);
      assert ("Description: " + text)[|"Description: "|..] == text;
      "Description: " + text
  }

  /** Each backslash-n or backslash-r in a description is shown as one space. */
  lemma DescriptionEscape(a: string, b: string, c: char)
    requires c == 'n' || c == 'r'
    ensures Description(Some(a + ['\\', c] + b)) == "Description: " + Info.Normalise(a) + " " + Info.Normalise(b)
  {
    Info.NormaliseEscape(a, b, c);
    assert |a + ['\\', c] + b| >= 2;
  }

  /** On text without `[` the two formatters describe a record alike. */
  lemma DescriptionAgrees(input: Option<string>)
    requires input.Some? ==> '[' !in input.value
    ensures Description(input) == Info.ParseDescription(input)
  {
    if Truthy(input) {
      var n := Unescape(input.value, 'n');
      Info.UnescapeNoNewChar(input.value, 'n', '[');
      Info.UnescapeNoNewChar(n, 'r', '[');
    }
  }

  /** `parseDateTime`: the timestamp read as UTC, its date and its time separated by a space. */
  function DateTime(input: string, locale: Info.Locale): (r: string)
    ensures StartsWith(r, locale.date(input + "Z")) && EndsWith(r, locale.time(input + "Z"))
    ensures |r| == |locale.date(input + "Z")| + 1 + |locale.time(input + "Z")|
    ensures r[|locale.date(input + "Z")|..|locale.date(input + "Z")| + 1] == " "
  {
    Framed(locale.date(input + "Z"), " ", locale.time(input + "Z"));
    locale.date(input + "Z") + " " + locale.time(input + "Z")
  }

  /** The three candidate owner lines; an experiment's label is always "Owner". */
  function OwnerLines(item: Item): seq<string> {
    match item
    case ExperimentItem(e) =>
      [if e.owner != "" then "Owner: " + Info.OwnerLinks(e.owner) else "", Info.TeamLine(e), ""]
    case DeciderItem(d) => ["", "", Info.DeciderOwnerLine(d)]
  }

  /**
   * `ownerInfo`: the present lines joined by markdown line breaks. A
   * decider's is its owner line; an experiment with owners opens with the
   * singular label, however many owners it lists; one without owners shows
   * only its team line.
   */
  function OwnerInfo(item: Item): (r: string)
    ensures item.DeciderItem? ==> r == Info.DeciderOwnerLine(item.decider)
    ensures item.ExperimentItem? && item.experiment.owner != "" ==>
      r == "Owner: " + Info.OwnerLinks(item.experiment.owner)
        + (if Truthy(item.experiment.team) then Info.LineBreak + Info.TeamLine(item.experiment) else "")
    ensures item.ExperimentItem? && item.experiment.owner == "" ==> r == Info.TeamLine(item.experiment)
  {
    match item
    case DeciderItem(d) =>
      Info.LastLineOnly(Info.DeciderOwnerLine(d), Info.LineBreak);
      Join(Compact(OwnerLines(item)), Info.LineBreak)
    case ExperimentItem(e) =>
      var o := if e.owner != "" then "Owner: " + Info.OwnerLinks(e.owner) else "";
      var t := Info.TeamLine(e);
      assert OwnerLines(item) == [o, t, ""];
      OwnerThenTeam(o, t, Info.LineBreak);
      Join(Compact(OwnerLines(item)), Info.LineBreak)
  }

  /** Helper: an owner line and a team line, each shown only when present. */
  lemma OwnerThenTeam(o: string, t: string, sep: string)
    ensures Join(Compact([o, t, ""]), sep) == if o != "" then o + (if t != "" then sep + t else "") else t
  {
    JoinTwoPresent(o, t, sep);
    ConcatAssoc(o, sep, t);
    assert o + "" == o;
  }

  /**
   * The two formatters give the same owner section except for an experiment
   * with several owners, which the newer one labels "Owners".
   */
  lemma OwnerInfoAgrees(item: Item)
    requires item.ExperimentItem? ==> ',' !in item.experiment.owner
    ensures OwnerInfo(item) == Info.OwnerInfo(item)
  {
    match item
    case ExperimentItem(e) =>
      assert Info.ExperimentOwnerLine(e) == OwnerLines(item)[0] by {
        if e.owner != "" {
          assert Info.OwnerLabel(e.owner) == "Owner";
          assert "Owner" + ": " == "Owner: ";
        }
      }
      assert OwnerLines(item) == Info.OwnerLines(item);
    case DeciderItem(d) =>
  }

  /** `dateInfo`: "Created At:" only when known, then "Last Updated:". */
  function DateInfo(item: Item, locale: Info.Locale): (r: string)
    ensures Truthy(item.CreatedAt()) ==>
      r == "Created At: " + DateTime(item.CreatedAt().value, locale) + Info.LineBreak
           + "Last Updated: " + DateTime(item.LastUpdated(), locale)
    ensures !Truthy(item.CreatedAt()) ==> r == "Last Updated: " + DateTime(item.LastUpdated(), locale)
  {
    var created := if Truthy(item.CreatedAt()) then "Created At: " + DateTime(item.CreatedAt().value, locale) else "";
    var updated := "Last Updated: " + DateTime(item.LastUpdated(), locale);
    assert updated[0] == 'L';
    CompactCons(updated, []);
    CompactCons(created, [updated]);
    assert [created, updated] == [created] + [updated];
    if created == "" then
      Join(Compact([created, updated]), Info.LineBreak)
    else
      JoinCons(created, [updated], Info.LineBreak);
      assert Compact([created, updated]) == [created] + [updated];
      assert created + Info.LineBreak + updated
        == "Created At: " + DateTime(item.CreatedAt().value, locale) + Info.LineBreak
           + "Last Updated: " + DateTime(item.LastUpdated(), locale);
      Join(Compact([created, updated]), Info.LineBreak)
  }

  /**
   * The trusted documentation: the link (to Helium for an experiment, to
   * Adminapp for a decider), the description, the owners and the dates, a
   * blank line apart.
   */
  function DocumentationHead(item: Item): string {
    (if item.ExperimentItem? then "[Helium Link](" else "[Adminapp Link](")
      + item.Url() + ")" + "\n\n" + Description(item.Description()) + "\n\n"
  }

  function Documentation(item: Item, locale: Info.Locale): (r: Markdown)
    ensures r.isTrusted
    ensures item.ExperimentItem? ==>
      StartsWith(r.value, "[Helium Link](" + item.Url() + ")" + "\n\n" + Description(item.Description()) + "\n\n")
    ensures item.DeciderItem? ==>
      StartsWith(r.value, "[Adminapp Link](" + item.Url() + ")" + "\n\n" + Description(item.Description()) + "\n\n")
    ensures EndsWith(r.value, "\n\n" + DateInfo(item, locale))
    ensures var head := DocumentationHead(item);
      |head| + |OwnerInfo(item)| <= |r.value| && r.value[|head|..|head| + |OwnerInfo(item)|] == OwnerInfo(item)
      && |r.value| == |head| + |OwnerInfo(item)| + |"\n\n" + DateInfo(item, locale)|
  {
    var head := DocumentationHead(item);
    var owners, dates := OwnerInfo(item), DateInfo(item, locale);
    Framed(head, owners, "\n\n" + dates);
    Markdown(head + owners + ("\n\n" + dates), true)
  }

  /** The detail: a decider's ramp and type, an experiment's type. */
  function Detail(item: Item): (r: string)
    ensures item.DeciderItem? ==> r == "Ramp: " + Info.DeciderValue(item.decider.currentValue) + " " + Info.GetDetail(item)
    ensures item.ExperimentItem? ==> r == Info.GetDetail(item)
  {
    if item.DeciderItem? then "Ramp: " + Info.DeciderValue(item.decider.currentValue) + " (" + item.Type() + ")"
    else "(" + item.Type() + ")"
  }

  /** Every offered record: key as label, detail and documentation. */
  function Offered(results: seq<Item>, locale: Info.Locale): (items: seq<CompletionItem>)
    ensures |items| == |results|
    ensures forall i :: 0 <= i < |results| ==>
      items[i] == CompletionItem(results[i].Key(), Text, Some(Detail(results[i])), Documentation(results[i], locale))
  {
    seq(|results|, i requires 0 <= i < |results| =>
      CompletionItem(results[i].Key(), Text, Some(Detail(results[i])), Documentation(results[i], locale)))
  }

  /**
   * `provideCompletionItems`: the same three gates as the live provider;
   * then the search over the chosen list, deciders winning when the line
   * names both kinds, gives the items in its order and one count event.
   */
  method ProvideCompletionItems(store: RecordStore.Store, log: Output.Log, tracker: Output.Tracker,
                                text: string, line: string, character: nat,
                                search: (seq<Item>, string) -> seq<Item>, locale: Info.Locale)
    returns (list: Option<seq<CompletionItem>>)
    modifies log, tracker
    ensures var prefix := Trigger.LinePrefix(line, character);
      list.Some? <==> store.Get().Some? && Trigger.Eligible(text) && Trigger.MatchTrigger(prefix).Some?
    ensures list.Some? ==>
      var prefix := Trigger.LinePrefix(line, character);
      var token := Trigger.MatchTrigger(prefix).value;
      var results := search(Trigger.Candidates(Trigger.DeciderFirst, prefix, store.Get().value), Trigger.Unquote(token));
      && list.value == Offered(results, locale)
      && tracker.events == old(tracker.events) + [Completion.AutocompletionEvent(|results|)]
    ensures list.None? ==> tracker.events == old(tracker.events)
    ensures log.lines == old(log.lines) + [ActivatedLine]
  {
    var storeInstance := store.Get();
    log.Append(ActivatedLine);
    if storeInstance.None? {
      return None;
    }
    if !Trigger.Eligible(text) {
      return None;
    }
    var linePrefix := Trigger.LinePrefix(line, character);
    var matched := Trigger.MatchTrigger(linePrefix);
    if matched.None? {
      return None;
    }
    var snapshot := storeInstance.value;
    var searchIndex := snapshot.deciders + snapshot.experiments;
    var lower := Lower(linePrefix);
    if Includes(lower, "decider") {
      searchIndex := snapshot.deciders;
    } else if Includes(lower, "experiment") {
      searchIndex := snapshot.experiments;
    }
    var results := search(searchIndex, Trigger.Unquote(matched.value));
    tracker.Event(Completion.AutocompletionEvent(|results|));
    list := Some(Offered(results, locale));
  }
}
