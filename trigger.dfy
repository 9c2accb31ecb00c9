/**
 * The completion gate both completion providers apply before searching: the
 * document must mention a record kind in its first 100 lines, the text left
 * of the cursor must end in a quote followed by key characters, and the
 * words on that line choose which list is searched.
 */
module Trigger {
  import opened Wrappers
  import opened Types
  import opened Strings

  /** Only this many leading lines are inspected for a mention. */
  const ScannedLines := 100

  function Lines(text: string): (lines: seq<string>)
    ensures |lines| >= 1 && Join(lines, "\n") == text
  {
    Split(text, '\n')
  }

  /** The first lines of the document, at most `ScannedLines` of them. */
  function Leading(text: string): (lines: seq<string>)
    ensures |lines| == if |Lines(text)| < ScannedLines then |Lines(text)| else ScannedLines
    ensures lines == Lines(text)[..|lines|]
  {
    var all := Lines(text);
    if |all| < ScannedLines then all else all[..ScannedLines]
  }

  /** A line mentions a record kind, ignoring ASCII case. */
  predicate MentionsRecord(line: string) {
    Includes(Lower(line), "experiment") || Includes(Lower(line), "decider")
  }

  /** `lines.some(MentionsRecord)`. */
  function AnyMentions(lines: seq<string>): bool
    decreases |lines|
  {
    lines != [] && (MentionsRecord(lines[0]) || AnyMentions(lines[1..]))
  }

  lemma {:induction false} AnyMentionsMeans(lines: seq<string>)
    ensures AnyMentions(lines) <==> exists i :: 0 <= i < |lines| && MentionsRecord(lines[i])
    decreases |lines|
  {
    if lines != [] {
      AnyMentionsMeans(lines[1..]);
      assert forall i :: 1 <= i < |lines| ==> lines[i] == lines[1..][i - 1];
      if AnyMentions(lines[1..]) {
        var i :| 0 <= i < |lines[1..]| && MentionsRecord(lines[1..][i]);
        assert MentionsRecord(lines[i + 1]);
      }
    }
  }

  /** The document may hold record keys: one of its first 100 lines mentions a kind. */
  function Eligible(text: string): (r: bool)
    ensures r <==> exists i :: 0 <= i < |Leading(text)| && MentionsRecord(Leading(text)[i])
  {
    AnyMentionsMeans(Leading(text));
    AnyMentions(Leading(text))
  }

  /** Text after the 100th line never makes a document eligible. */
  lemma EligibleIgnoresTail(head: string, tail: string)
    requires |Lines(head)| >= ScannedLines
    ensures Eligible(head + "\n" + tail) == Eligible(head)
  {
    SplitAppend(head, tail, '\n');
    assert head + "\n" + tail == head + ['\n'] + tail;
    var joined := Lines(head) + Lines(tail);
    assert joined[..ScannedLines] == Lines(head)[..ScannedLines];
    assert Leading(head + "\n" + tail) == Leading(head);
  }

  /** `substr(0, character)`: the line left of the cursor. */
  function LinePrefix(line: string, character: nat): (prefix: string)
    ensures StartsWith(line, prefix)
    ensures |prefix| == if character < |line| then character else |line|
  {
    if character < |line| then line[..character] else line
  }

  /** The characters of `[\w-_]`: ASCII letters, digits, `_` and `-`. */
  predicate IsKeyChar(c: char) {
    ('a' <= c <= 'z') || ('A' <= c <= 'Z') || ('0' <= c <= '9') || c == '_' || c == '-'
  }

  predicate IsQuote(c: char) {
    c == '\'' || c == '"'
  }

  /** A quote followed by one or more key characters: what `(['"][\w-_]+)` matches. */
  predicate IsTrigger(t: string) {
    |t| >= 2 && IsQuote(t[0]) && forall j :: 1 <= j < |t| ==> IsKeyChar(t[j])
  }

  /** Where the run of key characters that ends `s` begins. */
  function KeyRunStart(s: string): (k: nat)
    ensures k <= |s|
    ensures forall j :: k <= j < |s| ==> IsKeyChar(s[j])
    ensures k > 0 ==> !IsKeyChar(s[k - 1])
    decreases |s|
  {
    if s == [] || !IsKeyChar(s[|s| - 1]) then |s|
    else
      var k := KeyRunStart(s[..|s| - 1]);
      assert forall j :: k <= j < |s| - 1 ==> s[j] == s[..|s| - 1][j];
      k
  }

  /**
   * `linePrefix.match(/(['"][\w-_]+)$/)`: the trigger that ends the prefix.
   * A quote is not a key character, so at most one suffix is a trigger.
   */
  function MatchTrigger(prefix: string): (r: Option<string>)
    ensures r.Some? ==> IsTrigger(r.value) && EndsWith(prefix, r.value)
  {
    var k := KeyRunStart(prefix);
    if 0 < k < |prefix| && IsQuote(prefix[k - 1]) then
      var t := prefix[k - 1..];
      assert forall j :: 1 <= j < |t| ==> t[j] == prefix[k - 1 + j];
      Some(t)
    else
      None
  }

  /** The match is missed only when no suffix of the prefix is a trigger. */
  lemma MatchTriggerComplete(prefix: string)
    ensures MatchTrigger(prefix).None? <==> forall i :: 0 <= i <= |prefix| ==> !IsTrigger(prefix[i..])
  {
    forall i | 0 <= i <= |prefix| {
      TriggerAtRunStart(prefix, i);
    }
    var r := MatchTrigger(prefix);
    if r.Some? {
      assert prefix[|prefix| - |r.value|..] == r.value;
    }
  }

  /** A trigger suffix starts just before the key run that ends the prefix. */
  lemma TriggerAtRunStart(prefix: string, i: nat)
    requires i <= |prefix|
    ensures IsTrigger(prefix[i..]) ==> KeyRunStart(prefix) == i + 1 && IsQuote(prefix[i]) && i + 1 < |prefix|
  {
    var t := prefix[i..];
    if IsTrigger(t) {
      forall j | i + 1 <= j < |prefix| ensures IsKeyChar(prefix[j]) {
        assert prefix[j] == t[j - i];
      }
      assert prefix[i] == t[0];
    }
  }

  /** `replace(/['"]/g, "")`: the token without its quotes. */
  function Unquote(token: string): (q: string)
    ensures forall j :: 0 <= j < |q| ==> !IsQuote(q[j])
    ensures forall c :: c in q <==> c in token && !IsQuote(c)
    decreases |token|
  {
    if token == [] then []
    else (if IsQuote(token[0]) then [] else [token[0]]) + Unquote(token[1..])
  }

  /** Removing quotes works piece by piece, so the other characters keep their order. */
  lemma {:induction false} UnquoteAppend(a: string, b: string)
    ensures Unquote(a + b) == Unquote(a) + Unquote(b)
    decreases |a|
  {
    if a == [] {
      assert a + b == b;
    } else {
      assert (a + b)[1..] == a[1..] + b;
      UnquoteAppend(a[1..], b);
    }
  }

  /** A single character is dropped exactly when it is a quote. */
  lemma UnquoteChar(c: char)
    ensures Unquote([c]) == if IsQuote(c) then [] else [c]
  {
    assert [c][1..] == [];
  }

  /** The search query of a trigger is the key text after its quote. */
  lemma QueryOfTrigger(t: string)
    requires IsTrigger(t)
    ensures Unquote(t) == t[1..]
  {
    assert forall j :: 0 <= j < |t[1..]| ==> !IsQuote(t[1..][j]);
    UnquoteUnquoted(t[1..]);
  }

  /** Text without quotes is its own query. */
  lemma {:induction false} UnquoteUnquoted(s: string)
    requires forall j :: 0 <= j < |s| ==> !IsQuote(s[j])
    ensures Unquote(s) == s
    decreases |s|
  {
    if s != [] {
      assert forall j :: 0 <= j < |s[1..]| ==> !IsQuote(s[1..][j]) by {
        forall j | 0 <= j < |s[1..]| ensures !IsQuote(s[1..][j]) {
          assert s[1..][j] == s[j + 1];
        }
      }
      UnquoteUnquoted(s[1..]);
      UnquoteKeeps(s);
    }
  }

  /** A text whose head is no quote keeps its head. */
  lemma UnquoteKeeps(s: string)
    requires s != [] && !IsQuote(s[0]) && Unquote(s[1..]) == s[1..]
    ensures Unquote(s) == s
  {
    assert s == [s[0]] + s[1..];
  }

  /** Which word wins when a line mentions both kinds. */
  datatype Priority = DeciderFirst | ExperimentFirst

  /**
   * The list searched: the kind the line mentions, the priority's kind when
   * it mentions both, every record when it mentions neither.
   */
  function Candidates(priority: Priority, prefix: string, snapshot: Snapshot): (index: seq<Item>)
    ensures var e, d := Includes(Lower(prefix), "experiment"), Includes(Lower(prefix), "decider");
      && (!e && !d ==> index == snapshot.deciders + snapshot.experiments)
      && (e && !d ==> index == snapshot.experiments)
      && (d && !e ==> index == snapshot.deciders)
      && (e && d ==> index == if priority == DeciderFirst then snapshot.deciders else snapshot.experiments)
  {
    var lower := Lower(prefix);
    var all := snapshot.deciders + snapshot.experiments;
    match priority
    case DeciderFirst =>
      if Includes(lower, "decider") then snapshot.deciders
      else if Includes(lower, "experiment") then snapshot.experiments
      else all
    case ExperimentFirst =>
      if Includes(lower, "experiment") then snapshot.experiments
      else if Includes(lower, "decider") then snapshot.deciders
      else all
  }

  /** The two priorities choose the same list unless the line mentions both kinds. */
  lemma PrioritiesAgree(prefix: string, snapshot: Snapshot)
    ensures Candidates(DeciderFirst, prefix, snapshot) != Candidates(ExperimentFirst, prefix, snapshot) ==>
      Includes(Lower(prefix), "experiment") && Includes(Lower(prefix), "decider")
  {
  }

  lemma GrowPrefixLetters()
    ensures forall i :: 0 <= i < |"decider('grow"| ==> !('A' <= "decider('grow"[i] <= 'Z')
    ensures 'x' !in "decider('grow" && 'x' in "experiment"
  {
  }

  /** Typing `decider('grow` triggers a search for "grow". */
  lemma DeciderCallTrigger()
    ensures MatchTrigger("decider('grow") == Some("'grow")
    ensures Unquote("'grow") == "grow"
  {
    assert "decider('grow" == "decider(" + "'grow";
    assert IsTrigger("'grow");
    TriggerAfter("decider(", "'grow");
    QueryOfTrigger("'grow");
  }

  /** A prefix that ends in a trigger matches that trigger, whatever comes before it. */
  lemma TriggerAfter(before: string, t: string)
    requires IsTrigger(t)
    ensures MatchTrigger(before + t) == Some(t)
  {
    var prefix := before + t;
    assert prefix[|before|..] == t;
    TriggerAtRunStart(prefix, |before|);
  }

  /** On such a line the deciders are searched, whichever word has priority. */
  lemma DeciderCallCandidates(snapshot: Snapshot)
    ensures Candidates(DeciderFirst, "decider('grow", snapshot) == snapshot.deciders
    ensures Candidates(ExperimentFirst, "decider('grow", snapshot) == snapshot.deciders
  {
    var prefix := "decider('grow";
    GrowPrefixLetters();
    LowerWithoutCapitals(prefix);
    assert StartsWith(prefix, "decider");
    MissingCharExcludes(prefix, "experiment", 'x');
  }
}
