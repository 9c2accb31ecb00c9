/**
 * The detail formatter (src/experimentDeciderInfo.ts): the markdown shown for
 * one decider or experiment. Locale date formatting and the ramp-history
 * request are inputs; everything else is string building over the tagged
 * record.
 */
module Info {
  import opened Wrappers
  import opened Types
  import opened Strings

  const EmptyDescription := "Description: (empty)"
  const RampUnavailable := "Ramp: (Could not fetch data)"
  const RampHeader := "| **Group** | **Percent** |"
  const RampAlign := "| :--- | ---: |"
  /** Joins the lines of one section: a markdown hard line break. */
  const LineBreak := "  \n"
  /** Separates sections: a blank line. */
  const SectionBreak := "\n\n"
  const WhoUrl := "https://who.pinadmin.com/#"
  const AdminAppUserUrl := "https://adminapp.pinterest.com/220calave/user/"

  /**
   * What `toLocaleDateString` and `toLocaleTimeString` make of the instant
   * that a timestamp text denotes.
   */
  datatype Locale = Locale(date: string -> string, time: string -> string)

  /** One group of an experiment's ramp; its percentage is already rounded text. */
  datatype GroupRange = GroupRange(group: string, percent: string)

  /** The `data` list of the ramp-history response, each entry's `group_ranges`. */
  type RampHistory = seq<seq<GroupRange>>

  // ---------------------------------------------------------------- descriptions

  /** The characters `.` in a regular expression does not match. */
  predicate IsLineTerminator(c: char) {
    c == '\n' || c == '\r' || c == '\U{2028}' || c == '\U{2029}'
  }

  /** The first line terminator at or after `from`, or the end of `s`. */
  function LineEnd(s: string, from: nat): (k: nat)
    requires from <= |s|
    ensures from <= k <= |s|
    ensures forall j :: from <= j < k ==> !IsLineTerminator(s[j])
    ensures k < |s| ==> IsLineTerminator(s[k])
    decreases |s| - from
  {
    if from == |s| || IsLineTerminator(s[from]) then from else LineEnd(s, from + 1)
  }

  /** `]]` starts at index `j`. */
  predicate IsClose(s: string, j: int) {
    0 <= j && j + 1 < |s| && s[j] == ']' && s[j + 1] == ']'
  }

  /** The last `]]` that lies within `s[lo..hi]`. */
  function LastClose(s: string, lo: nat, hi: nat): (r: Option<nat>)
    requires lo <= hi <= |s|
    ensures r.Some? ==> lo <= r.value && r.value + 2 <= hi && IsClose(s, r.value)
    ensures r.Some? ==> forall j :: r.value < j && j + 2 <= hi ==> !IsClose(s, j)
    ensures r.None? ==> forall j :: lo <= j && j + 2 <= hi ==> !IsClose(s, j)
    decreases hi - lo
  {
    if hi < lo + 2 then None
    else if IsClose(s, hi - 2) then Some(hi - 2)
    else LastClose(s, lo, hi - 1)
  }

  /** The last `|` in `s[lo..hi]`. */
  function LastBar(s: string, lo: nat, hi: nat): (r: Option<nat>)
    requires lo <= hi <= |s|
    ensures r.Some? ==> lo <= r.value < hi && s[r.value] == '|'
    ensures r.Some? ==> forall j :: r.value < j < hi ==> s[j] != '|'
    ensures r.None? ==> forall j :: lo <= j < hi ==> s[j] != '|'
    decreases hi - lo
  {
    if hi == lo then None
    else if s[hi - 1] == '|' then Some(hi - 1)
    else LastBar(s, lo, hi - 1)
  }

  /**
   * A match of `/\[\[(.*)\|(.*)\]\]/` starting at `p`, as the positions of its
   * `|` and of its closing `]]`. Both groups are greedy and `.` stops at a
   * line terminator, so the match closes at the line's last `]]` and splits
   * at the last `|` before it.
   */
  function LinkAt(s: string, p: nat): (m: Option<(nat, nat)>)
    ensures m.Some? ==> p + 2 <= m.value.0 < m.value.1 && m.value.1 + 2 <= |s|
    ensures m.Some? ==> s[p] == '[' && s[p + 1] == '[' && s[m.value.0] == '|' && IsClose(s, m.value.1)
    ensures m.Some? ==> forall j :: p + 2 <= j < m.value.1 + 2 ==> !IsLineTerminator(s[j])
  {
    if p + 2 > |s| || s[p] != '[' || s[p + 1] != '[' then None
    else
      var end := LineEnd(s, p + 2);
      match LastClose(s, p + 2, end)
      case None => None
      case Some(e) =>
        match LastBar(s, p + 2, e)
        case None => None
        case Some(b) => Some((b, e))
  }

  /**
   * The match is greedy: it closes at the last `]]` before the line ends and
   * splits at the last `|` before that; when a `[[` opens there but no match
   * is found, no `|` precedes any `]]` on that line.
   */
  lemma LinkAtGreedy(s: string, p: nat)
    ensures var m := LinkAt(s, p);
      m.Some? ==> forall j :: m.value.1 < j && j + 2 <= LineEnd(s, p + 2) ==> !IsClose(s, j)
    ensures var m := LinkAt(s, p);
      m.Some? ==> forall j :: m.value.0 < j < m.value.1 ==> s[j] != '|'
    ensures var m := LinkAt(s, p);
      m.Some? ==> m.value.1 + 2 <= LineEnd(s, p + 2)
    ensures var m := LinkAt(s, p);
      m.None? && p + 2 <= |s| && s[p] == '[' && s[p + 1] == '[' ==>
        forall b, e :: p + 2 <= b < e && e + 2 <= LineEnd(s, p + 2) && IsClose(s, e) ==> s[b] != '|'
  {
    if p + 2 <= |s| && s[p] == '[' && s[p + 1] == '[' {
      var end := LineEnd(s, p + 2);
      var close := LastClose(s, p + 2, end);
      if close.Some? {
        var bar := LastBar(s, p + 2, close.value);
        assert LinkAt(s, p) == if bar.None? then None else Some((bar.value, close.value));
      } else {
        assert LinkAt(s, p) == None;
      }
    }
  }

  /**
   * The global replacement `[[U|T]]` to `[T](U)`, scanning from `i`: each step writes the
   * link text of a match at the scan position, or copies the character there, and the scan
   * resumes after what it consumed.
   */
  function ReplaceLinksFrom(s: string, i: nat): string
    requires i <= |s|
    decreases |s| - i
  {
    if i == |s| then "" else Emitted(s, i) + ReplaceLinksFrom(s, NextScan(s, i))
  }

  /** What one scanning step at `i` writes: the link text of a match there, or the character. */
  function Emitted(s: string, i: nat): string
    requires i < |s|
  {
    var m := LinkAt(s, i);
    if m.None? then [s[i]] else LinkText(s, i, m.value.0, m.value.1)
  }

  /** Where scanning resumes after the step at `i`: past the match there, or at the next character. */
  function NextScan(s: string, i: nat): (n: nat)
    requires i < |s|
    ensures i < n <= |s|
  {
    var m := LinkAt(s, i);
    if m.None? then i + 1 else m.value.1 + 2
  }

  /** The link rewrite over the whole text; text without `[` is left unchanged. */
  function ReplaceLinks(s: string): (r: string)
    ensures '[' !in s ==> r == s
  {
    assert '[' !in s ==> ReplaceLinksFrom(s, 0) == s by {
      if '[' !in s {
        CopyUntilLink(s, 0, |s|);
      }
    }
    ReplaceLinksFrom(s, 0)
  }

  /** A character that cannot open a link is copied and scanning moves on. */
  lemma CopyStep(s: string, i: nat)
    requires i < |s| && s[i] != '['
    ensures ReplaceLinksFrom(s, i) == [s[i]] + ReplaceLinksFrom(s, i + 1)
  {
    NotOpened(s, i);
    EmittedCopy(s, i);
    ScanStep(s, i);
  }

  /** Helper: without a match, a step copies the character and moves one position on. */
  lemma EmittedCopy(s: string, i: nat)
    requires i < |s| && LinkAt(s, i) == None
    ensures Emitted(s, i) == [s[i]] && NextScan(s, i) == i + 1
  {
  }

  /** Text without `[` before `j` is copied as it is. */
  lemma {:induction false} CopyUntilLink(s: string, i: nat, j: nat)
    requires i <= j <= |s|
    requires forall k :: i <= k < j ==> s[k] != '['
    ensures ReplaceLinksFrom(s, i) == s[i..j] + ReplaceLinksFrom(s, j)
    decreases j - i
  {
    if i == j {
      assert s[i..j] == [];
    } else {
      var n := i + 1;
      CopyStep(s, i);
      CopyUntilLink(s, n, j);
      SliceCons(s, i, j, ReplaceLinksFrom(s, j));
    }
  }

  /** Helper: a slice is its first character in front of the rest of it. */
  lemma SliceCons(s: string, i: nat, j: nat, rest: string)
    requires i < j <= |s|
    ensures [s[i]] + (s[i + 1..j] + rest) == s[i..j] + rest
  {
    assert s[i..j] == [s[i]] + s[i + 1..j];
  }

  // The match never crosses a line terminator, so the rewrite works line by
  // line: the text before a terminator is rewritten as if it ended there, and
  // the text after it as if it started there.

  /**
   * A line is rewritten on its own: the links of the text before a line
   * terminator and of the text after it are replaced independently.
   */
  lemma ReplaceLinksLines(a: string, c: char, b: string)
    requires IsLineTerminator(c)
    ensures ReplaceLinks(a + [c] + b) == ReplaceLinks(a) + [c] + ReplaceLinks(b)
  {
    var s := a + [c] + b;
    var k := |a| + 1;
    LinePieces(a, c, b);
    RewritePrefix(s, a, 0);
    CopyStep(s, |a|);
    ShiftSuffix(s, k);
    RewriteSuffix(s, b, k, k, 0);
    ConcatAssoc(ReplaceLinksFrom(a, 0), [c], ReplaceLinksFrom(b, 0));
  }

  /** Helper: the text before the terminator, the terminator and the text after it. */
  lemma LinePieces(a: string, c: char, b: string)
    ensures var s := a + [c] + b; |a| < |s| && a == s[..|a|] && s[|a|] == c && b == s[|a| + 1..]
  {
  }

  /** Helper: before a line terminator at `|a|`, scanning `s` from `i` rewrites `a` and then the rest. */
  lemma {:induction false} RewritePrefix(s: string, a: string, i: nat)
    requires |a| < |s| && a == s[..|a|] && IsLineTerminator(s[|a|]) && i <= |a|
    ensures ReplaceLinksFrom(s, i) == ReplaceLinksFrom(a, i) + ReplaceLinksFrom(s, |a|)
    decreases |a| - i
  {
    if i < |a| {
      var n := NextScan(a, i);
      RewritePrefix(s, a, n);
      ScanStep(s, i);
      ScanStep(a, i);
      ScanPrefix(s, a, i);
      Splice(ReplaceLinksFrom(s, i), ReplaceLinksFrom(a, i), Emitted(a, i),
        ReplaceLinksFrom(s, n), ReplaceLinksFrom(a, n), ReplaceLinksFrom(s, |a|));
    }
  }

  /** Helper: the rewrite is one step's output followed by the rewrite from where scanning resumes. */
  lemma ScanStep(s: string, i: nat)
    requires i < |s|
    ensures ReplaceLinksFrom(s, i) == Emitted(s, i) + ReplaceLinksFrom(s, NextScan(s, i))
  {
  }

  /** Helper: before the terminator, a step writes the same and resumes at the same place in both texts. */
  lemma ScanPrefix(s: string, a: string, i: nat)
    requires |a| < |s| && a == s[..|a|] && IsLineTerminator(s[|a|]) && i < |a|
    ensures Emitted(s, i) == Emitted(a, i) && NextScan(s, i) == NextScan(a, i)
  {
    LinkAtPrefix(s, a, i);
    var m := LinkAt(a, i);
    if m.Some? {
      LinkTextPrefix(s, a, i, m.value.0, m.value.1);
    }
  }

  /** Helper: equal heads before texts that differ by a common tail. */
  lemma Splice(rs: string, ra: string, head: string, ts: string, ta: string, rest: string)
    requires rs == head + ts && ra == head + ta && ts == ta + rest
    ensures rs == ra + rest
  {
    ConcatAssoc(head, ta, rest);
  }

  /** The Markdown link that replaces the match at `p`. */
  function LinkText(s: string, p: nat, bar: nat, e: nat): string
    requires p + 2 <= bar < e <= |s|
  {
    "[" + s[bar + 1..e] + "](" + s[p + 2..bar] + ")"
  }

  /** Helper: at a match, its link text comes first. */
  lemma LinkStep(s: string, p: nat, bar: nat, e: nat)
    requires p < |s| && LinkAt(s, p) == Some((bar, e))
    ensures ReplaceLinksFrom(s, p) == LinkText(s, p, bar, e) + ReplaceLinksFrom(s, e + 2)
  {
    EmittedAtLink(s, p, bar, e);
    ScanStep(s, p);
  }

  /** Helper: a link within a prefix reads the same in the prefix. */
  lemma LinkTextPrefix(s: string, a: string, p: nat, bar: nat, e: nat)
    requires |a| <= |s| && a == s[..|a|] && p + 2 <= bar < e <= |a|
    ensures LinkText(s, p, bar, e) == LinkText(a, p, bar, e)
  {
    SlicePrefix(s, a, bar + 1, e);
    SlicePrefix(s, a, p + 2, bar);
  }

  /** Helper: a slice within a prefix is the same slice of the prefix. */
  lemma SlicePrefix(s: string, a: string, i: nat, j: nat)
    requires |a| <= |s| && a == s[..|a|] && i <= j <= |a|
    ensures s[i..j] == a[i..j]
  {
    assert forall k :: 0 <= k < j - i ==> s[i..j][k] == a[i..j][k];
  }

  /** Helper: a match starting before the terminator is the match in the text that ends there. */
  lemma LinkAtPrefix(s: string, a: string, p: nat)
    requires |a| < |s| && a == s[..|a|] && IsLineTerminator(s[|a|]) && p < |a|
    ensures LinkAt(s, p) == LinkAt(a, p)
  {
    if p + 2 <= |a| && s[p] == '[' && s[p + 1] == '[' {
      LineEndPrefix(s, a, p + 2);
      var end := LineEnd(a, p + 2);
      LastClosePrefix(s, a, p + 2, end);
      var close := LastClose(a, p + 2, end);
      if close.Some? {
        LastBarPrefix(s, a, p + 2, close.value);
      }
    }
  }

  /** Helper: the line ends at the terminator at the latest. */
  lemma {:induction false} LineEndPrefix(s: string, a: string, from: nat)
    requires |a| < |s| && a == s[..|a|] && IsLineTerminator(s[|a|]) && from <= |a|
    ensures LineEnd(s, from) == LineEnd(a, from)
    decreases |a| - from
  {
    if from < |a| && !IsLineTerminator(s[from]) {
      LineEndPrefix(s, a, from + 1);
    }
  }

  /** Helper: within the text before the terminator, the last `]]` is the same. */
  lemma {:induction false} LastClosePrefix(s: string, a: string, lo: nat, hi: nat)
    requires |a| <= |s| && a == s[..|a|] && lo <= hi <= |a|
    ensures LastClose(s, lo, hi) == LastClose(a, lo, hi)
    decreases hi - lo
  {
    if hi >= lo + 2 {
      assert IsClose(s, hi - 2) == IsClose(a, hi - 2);
      LastClosePrefix(s, a, lo, hi - 1);
    }
  }

  /** Helper: within the text before the terminator, the last `|` is the same. */
  lemma {:induction false} LastBarPrefix(s: string, a: string, lo: nat, hi: nat)
    requires |a| <= |s| && a == s[..|a|] && lo <= hi <= |a|
    ensures LastBar(s, lo, hi) == LastBar(a, lo, hi)
    decreases hi - lo
  {
    if hi > lo {
      LastBarPrefix(s, a, lo, hi - 1);
    }
  }

  /** Helper: scanning `s` from `k + j` rewrites its suffix `y` from `j`. */
  lemma {:induction false} RewriteSuffix(s: string, y: string, k: nat, i: nat, j: nat)
    requires Shift(s, y, k) && j <= |y| && i == k + j
    ensures ReplaceLinksFrom(s, i) == ReplaceLinksFrom(y, j)
    decreases |y| - j
  {
    if j < |y| {
      var n := NextScan(y, j);
      var m := k + n;
      RewriteSuffix(s, y, k, m, n);
      ScanSuffix(s, y, k, i, j);
      SameStep(s, i, m, y, j, n);
    }
  }


  /** `y` is the text of `s` from `k` on. */
  predicate Shift(s: string, y: string, k: nat) {
    |s| == k + |y| && forall i :: 0 <= i < |y| ==> s[k + i] == y[i]
  }

  /** Helper: a text and one of its suffixes. */
  lemma ShiftSuffix(s: string, k: nat)
    requires k <= |s|
    ensures Shift(s, s[k..], k)
  {
  }


  /**
   * Helper: a step at `i` in `s` and at `j` in `y` that write the same and
   * resume where the two rewrites agree make the rewrites from `i` and `j` agree.
   */
  lemma SameStep(s: string, i: nat, m: nat, y: string, j: nat, n: nat)
    requires i < |s| && j < |y|
    requires Emitted(s, i) == Emitted(y, j) && NextScan(s, i) == m && NextScan(y, j) == n
    requires ReplaceLinksFrom(s, m) == ReplaceLinksFrom(y, n)
    ensures ReplaceLinksFrom(s, i) == ReplaceLinksFrom(y, j)
  {
    ScanStep(s, i);
    ScanStep(y, j);
    SameHead(ReplaceLinksFrom(s, i), ReplaceLinksFrom(y, j), Emitted(y, j),
      ReplaceLinksFrom(s, m), ReplaceLinksFrom(y, n));
  }

  /** Helper: the same head before equal texts. */
  lemma SameHead(rs: string, ry: string, head: string, ts: string, ty: string)
    requires rs == head + ts && ry == head + ty && ts == ty
    ensures rs == ry
  {
  }

  /** Helper: in a suffix, a step writes the same and resumes at the same place, moved by the offset. */
  lemma ScanSuffix(s: string, y: string, k: nat, i: nat, j: nat)
    requires Shift(s, y, k) && j < |y| && i == k + j
    ensures i < |s| && Emitted(s, i) == Emitted(y, j) && NextScan(s, i) == k + NextScan(y, j)
  {
    var m := LinkAt(y, j);
    if m.None? {
      CopyInSuffix(s, y, k, i, j);
    } else {
      LinkInSuffix(s, y, k, i, j, m.value.0, m.value.1);
    }
  }

  /** Helper: where the suffix has no match, neither has the whole text. */
  lemma CopyInSuffix(s: string, y: string, k: nat, i: nat, j: nat)
    requires Shift(s, y, k) && j < |y| && i == k + j && LinkAt(y, j).None?
    ensures i < |s| && Emitted(s, i) == Emitted(y, j) && NextScan(s, i) == k + NextScan(y, j)
  {
    LinkAtSuffix(s, y, k, i, j);
    assert s[i] == y[j];
  }

  /** Helper: a match in the suffix is the match in the whole text, with the same link text. */
  lemma LinkInSuffix(s: string, y: string, k: nat, i: nat, j: nat, bar: nat, e: nat)
    requires Shift(s, y, k) && j < |y| && i == k + j && LinkAt(y, j) == Some((bar, e))
    ensures i < |s| && Emitted(s, i) == Emitted(y, j) && NextScan(s, i) == k + NextScan(y, j)
  {
    LinkAtSuffixSome(s, y, k, i, j, bar, e);
    EmittedAtLink(y, j, bar, e);
    EmittedShifted(s, y, k, i, j, bar, e);
  }

  /** Helper: the link text written at a match in a suffix is the one written in the whole text. */
  lemma EmittedShifted(s: string, y: string, k: nat, i: nat, j: nat, bar: nat, e: nat)
    requires Shift(s, y, k) && j + 2 <= bar < e <= |y| && i == k + j
    requires LinkAt(s, i) == Some((k + bar, k + e))
    ensures Emitted(s, i) == LinkText(y, j, bar, e) && NextScan(s, i) == k + e + 2
  {
    EmittedAtLink(s, i, k + bar, k + e);
    LinkTextSuffix(s, y, k, j, bar, e);
  }

  /** Helper: at a match, a step writes its link text and resumes after its `]]`. */
  lemma EmittedAtLink(s: string, p: nat, bar: nat, e: nat)
    requires p < |s| && LinkAt(s, p) == Some((bar, e))
    ensures Emitted(s, p) == LinkText(s, p, bar, e) && NextScan(s, p) == e + 2
  {
  }

  /** Helper: a link within a suffix reads the same in the suffix. */
  lemma LinkTextSuffix(s: string, y: string, k: nat, p: nat, bar: nat, e: nat)
    requires Shift(s, y, k) && p + 2 <= bar < e <= |y|
    ensures LinkText(s, k + p, k + bar, k + e) == LinkText(y, p, bar, e)
  {
    SliceSuffix(s, y, k, bar + 1, e);
    SliceSuffix(s, y, k, p + 2, bar);
  }

  /** Helper: a slice of a suffix is the slice of the whole text, moved by the offset. */
  lemma SliceSuffix(s: string, y: string, k: nat, i: nat, j: nat)
    requires Shift(s, y, k) && i <= j <= |y|
    ensures s[k + i..k + j] == y[i..j]
  {
    assert forall t :: 0 <= t < j - i ==> s[k + i..k + j][t] == y[i..j][t];
  }

  /** Helper: a match in a suffix is the match in the whole text, moved by the suffix's offset. */
  lemma LinkAtSuffix(s: string, y: string, k: nat, i: nat, p: nat)
    requires Shift(s, y, k) && p <= |y| && i == k + p
    ensures LinkAt(s, i) == ShiftedMatch(LinkAt(y, p), k)
  {
    if p + 2 <= |y| && y[p] == '[' && y[p + 1] == '[' {
      var q, j := p + 2, i + 2;
      assert s[i] == '[' && s[i + 1] == '[';
      LineEndSuffix(s, y, k, j, q);
      var end := LineEnd(y, q);
      var send := k + end;
      LastCloseSuffix(s, y, k, q, end, j, send);
      var close := LastClose(y, q, end);
      var bar := if close.Some? then LastBar(y, q, close.value) else None;
      if close.Some? {
        var c := close.value;
        var sc := k + c;
        LastBarSuffix(s, y, k, q, c, j, sc);
      }
      OpenedAt(y, p, end, close, bar);
      OpenedAt(s, i, send, Shifted(close, k), Shifted(bar, k));
      ShiftedOpen(close, bar, k);
    } else {
      assert i + 2 > |s| || s[i] != '[' || s[i + 1] != '[';
      NotOpened(s, i);
      NotOpened(y, p);
    }
  }

  /** Helper: without `[[` at a position there is no match there. */
  lemma NotOpened(s: string, p: nat)
    requires p + 2 > |s| || s[p] != '[' || s[p + 1] != '['
    ensures LinkAt(s, p) == None
  {
  }

  /** Helper: moving the `]]` and the `|` of a match moves the match. */
  lemma ShiftedOpen(close: Option<nat>, bar: Option<nat>, k: nat)
    ensures ShiftedMatch(if close.None? || bar.None? then None else Some((bar.value, close.value)), k)
      == if Shifted(close, k).None? || Shifted(bar, k).None? then None
         else Some((Shifted(bar, k).value, Shifted(close, k).value))
  {
  }

  /** Helper: the match at a `[[` from where its line ends, its last `]]` and the last `|` before that. */
  lemma OpenedAt(s: string, p: nat, end: nat, close: Option<nat>, bar: Option<nat>)
    requires p + 2 <= |s| && s[p] == '[' && s[p + 1] == '['
    requires LineEnd(s, p + 2) == end && LastClose(s, p + 2, end) == close
    requires close.Some? ==> close.value <= end && LastBar(s, p + 2, close.value) == bar
    ensures LinkAt(s, p) == if close.None? || bar.None? then None else Some((bar.value, close.value))
  {
  }

  /** Helper: a match in a suffix, moved by its offset. */
  lemma LinkAtSuffixSome(s: string, y: string, k: nat, i: nat, p: nat, bar: nat, e: nat)
    requires Shift(s, y, k) && p <= |y| && i == k + p && LinkAt(y, p) == Some((bar, e))
    ensures LinkAt(s, i) == Some((k + bar, k + e))
  {
    LinkAtSuffix(s, y, k, i, p);
  }

  /** A match found in a suffix, as positions in the whole text. */
  function ShiftedMatch(m: Option<(nat, nat)>, k: nat): Option<(nat, nat)> {
    if m.None? then None else Some((k + m.value.0, k + m.value.1))
  }


  /** Helper: line ends in a suffix, moved by its offset. */
  lemma {:induction false} LineEndSuffix(s: string, y: string, k: nat, f: nat, from: nat)
    requires Shift(s, y, k) && from <= |y| && f == k + from
    ensures LineEnd(s, f) == k + LineEnd(y, from)
    decreases |y| - from
  {
    if from < |y| && !IsLineTerminator(y[from]) {
      LineEndSuffix(s, y, k, f + 1, from + 1);
    }
  }

  /** Helper: the last `]]` in a suffix, moved by its offset. */
  lemma {:induction false} LastCloseSuffix(s: string, y: string, k: nat, lo: nat, hi: nat, slo: nat, shi: nat)
    requires Shift(s, y, k) && lo <= hi <= |y| && slo == k + lo && shi == k + hi
    ensures LastClose(s, slo, shi) == Shifted(LastClose(y, lo, hi), k)
    decreases hi - lo
  {
    if hi >= lo + 2 {
      assert IsClose(s, shi - 2) == IsClose(y, hi - 2);
      LastCloseSuffix(s, y, k, lo, hi - 1, slo, shi - 1);
    }
  }

  /** Helper: the last `|` in a suffix, moved by its offset. */
  lemma {:induction false} LastBarSuffix(s: string, y: string, k: nat, lo: nat, hi: nat, slo: nat, shi: nat)
    requires Shift(s, y, k) && lo <= hi <= |y| && slo == k + lo && shi == k + hi
    ensures LastBar(s, slo, shi) == Shifted(LastBar(y, lo, hi), k)
    decreases hi - lo
  {
    if hi > lo {
      LastBarSuffix(s, y, k, lo, hi - 1, slo, shi - 1);
    }
  }

  /** A position found in a suffix, as a position in the whole text. */
  function Shifted(o: Option<nat>, k: nat): Option<nat> {
    if o.None? then None else Some(k + o.value)
  }

  /**
   * The match at `p` is determined by where the line's last `]]` and the
   * last `|` before it are: a `[[` at `p`, a `|` at `bar` and a `]]` at `e`,
   * no line terminator in between, no `|` between `bar` and `e` and no `]]`
   * after `e` make the match split at `bar` and close at `e`.
   */
  lemma LinkAtPositions(s: string, p: nat, bar: nat, e: nat)
    requires p + 2 <= bar < e && e + 2 <= |s|
    requires s[p] == '[' && s[p + 1] == '[' && s[bar] == '|' && IsClose(s, e)
    requires forall k :: p + 2 <= k < e + 2 ==> !IsLineTerminator(s[k])
    requires forall j :: bar < j < e ==> s[j] != '|'
    requires forall j :: e < j ==> !IsClose(s, j)
    ensures LinkAt(s, p) == Some((bar, e))
  {
    var end := LineEnd(s, p + 2);
    assert e + 2 <= end;
    var close := LastClose(s, p + 2, end);
    assert close.Some? && close.value >= e;
    assert close == Some(e);
    assert LastBar(s, p + 2, e) == Some(bar);
  }

  /** At a match, the link is rewritten and scanning resumes after its `]]`. */
  lemma ReplaceAtLink(s: string, p: nat, bar: nat, e: nat)
    requires p < |s| && LinkAt(s, p) == Some((bar, e))
    ensures ReplaceLinksFrom(s, p) == "[" + s[bar + 1..e] + "](" + s[p + 2..bar] + ")" + ReplaceLinksFrom(s, e + 2)
  {
    LinkStep(s, p, bar, e);
  }

  /** In `A[[U|T]]B` the match at the end of `A` is the whole link. */
  lemma LoneLinkMatch(a: string, u: string, t: string, b: string)
    requires ']' !in b && '|' !in t
    requires forall k :: 0 <= k < |u| ==> !IsLineTerminator(u[k])
    requires forall k :: 0 <= k < |t| ==> !IsLineTerminator(t[k])
    ensures var s := a + "[[" + u + "|" + t + "]]" + b;
      LinkAt(s, |a|) == Some((|a| + 2 + |u|, |a| + 3 + |u| + |t|))
  {
    var s := a + "[[" + u + "|" + t + "]]" + b;
    var p := |a|;
    var bar := p + 2 + |u|;
    var e := bar + 1 + |t|;
    assert |s| == e + 2 + |b|;
    assert s[p] == '[' && s[p + 1] == '[' && s[bar] == '|' && s[e] == ']' && s[e + 1] == ']';
    forall k | p + 2 <= k < e + 2 ensures !IsLineTerminator(s[k]) {
      if k < bar {
        assert s[k] == u[k - p - 2];
      } else if bar < k < e {
        assert s[k] == t[k - bar - 1];
      }
    }
    forall j | e < j ensures !IsClose(s, j) {
      if j + 1 < |s| {
        assert s[j + 1] == b[j + 1 - e - 2];
      }
    }
    forall j | bar < j < e ensures s[j] != '|' {
      assert s[j] == t[j - bar - 1];
    }
    LinkAtPositions(s, p, bar, e);
  }

  /** One match and no other `[`: the text around the link is copied. */
  lemma ReplaceSingleLink(s: string, p: nat, bar: nat, e: nat)
    requires p < |s| && LinkAt(s, p) == Some((bar, e))
    requires forall k :: 0 <= k < p ==> s[k] != '['
    requires forall k :: e + 2 <= k < |s| ==> s[k] != '['
    ensures ReplaceLinks(s) == s[..p] + ("[" + s[bar + 1..e] + "](" + s[p + 2..bar] + ")" + s[e + 2..])
  {
    var f := e + 2;
    CopyPrefix(s, p);
    ReplaceAtLink(s, p, bar, e);
    CopySuffix(s, f);
    var link := "[" + s[bar + 1..e] + "](" + s[p + 2..bar] + ")";
    Substitute(ReplaceLinks(s), s[..p], ReplaceLinksFrom(s, p), link, ReplaceLinksFrom(s, f), s[f..]);
  }

  /** Helper: substituting equals into a text made of a head, a middle and a tail. */
  lemma Substitute(r: string, head: string, x: string, mid: string, y: string, tail: string)
    requires r == head + x && x == mid + y && y == tail
    ensures r == head + (mid + tail)
  {
  }

  /** Text without `[` before `p` is copied up to `p`. */
  lemma CopyPrefix(s: string, p: nat)
    requires p <= |s|
    requires forall k :: 0 <= k < p ==> s[k] != '['
    ensures ReplaceLinks(s) == s[..p] + ReplaceLinksFrom(s, p)
  {
    CopyUntilLink(s, 0, p);
    assert s[0..p] == s[..p];
  }

  /** Text without `[` from `i` on is copied to the end. */
  lemma CopySuffix(s: string, i: nat)
    requires i <= |s|
    requires forall k :: i <= k < |s| ==> s[k] != '['
    ensures ReplaceLinksFrom(s, i) == s[i..]
  {
    CopyUntilLink(s, i, |s|);
    assert ReplaceLinksFrom(s, |s|) == "";
    assert s[i..|s|] + "" == s[i..];
  }

  /**
   * A lone link becomes a markdown link: `[[U|T]]` turns into `[T](U)` when
   * neither part spans a line, `T` holds no `|`, nothing before it opens a
   * bracket and nothing after it opens or closes one.
   */
  lemma LoneLink(a: string, u: string, t: string, b: string)
    requires '[' !in a && '[' !in b && ']' !in b && '|' !in t
    requires forall k :: 0 <= k < |u| ==> !IsLineTerminator(u[k])
    requires forall k :: 0 <= k < |t| ==> !IsLineTerminator(t[k])
    ensures ReplaceLinks(a + "[[" + u + "|" + t + "]]" + b) == a + "[" + t + "](" + u + ")" + b
  {
    var s := a + "[[" + u + "|" + t + "]]" + b;
    var p := |a|;
    var bar := p + 2 + |u|;
    var e := bar + 1 + |t|;
    LinkParts(a, u, t, b);
    assert LinkAt(s, p) == Some((bar, e)) by {
      LoneLinkMatch(a, u, t, b);
    }
    var r := s[..p] + ("[" + s[bar + 1..e] + "](" + s[p + 2..bar] + ")" + s[e + 2..]);
    assert ReplaceLinks(s) == r by {
      ReplaceSingleLink(s, p, bar, e);
    }
    SameLinkParts(s[..p], s[bar + 1..e], s[p + 2..bar], s[e + 2..], a, t, u, b);
    LinkAssoc(a, t, u, b);
  }

  /** Helper: rebuilding a markdown link from equal parts gives the same text. */
  lemma SameLinkParts(a: string, t: string, u: string, b: string, a': string, t': string, u': string, b': string)
    requires a == a' && t == t' && u == u' && b == b'
    ensures a + ("[" + t + "](" + u + ")" + b) == a' + ("[" + t' + "](" + u' + ")" + b')
  {
  }

  /** Where the pieces of `A[[U|T]]B` sit, and that only `A` and `B` lie outside the link. */
  lemma LinkParts(a: string, u: string, t: string, b: string)
    requires '[' !in a && '[' !in b
    ensures var s := a + "[[" + u + "|" + t + "]]" + b;
      var bar := |a| + 2 + |u|;
      var e := bar + 1 + |t|;
      && |s| == e + 2 + |b|
      && s[..|a|] == a && s[|a| + 2..bar] == u && s[bar + 1..e] == t && s[e + 2..] == b
      && (forall k :: 0 <= k < |a| ==> s[k] != '[')
      && (forall k :: e + 2 <= k < |s| ==> s[k] != '[')
  {
    var s := a + "[[" + u + "|" + t + "]]" + b;
    var p := |a|;
    var bar := p + 2 + |u|;
    var e := bar + 1 + |t|;
    forall k | 0 <= k < p ensures s[k] != '[' {
      assert s[k] == a[k];
    }
    forall k | e + 2 <= k < |s| ensures s[k] != '[' {
      assert s[k] == b[k - e - 2];
    }
    assert s[..p] == a && s[p + 2..bar] == u && s[bar + 1..e] == t && s[e + 2..] == b;
  }

  /** Helper: regrouping the concatenation around a markdown link. */
  lemma LinkAssoc(a: string, t: string, u: string, b: string)
    ensures a + ("[" + t + "](" + u + ")" + b) == a + "[" + t + "](" + u + ")" + b
  {
  }

  /**
   * The two escape replacements: backslash-n and then backslash-r become a
   * space; afterwards neither escape is left.
   */
  function Normalise(s: string): (r: string)
    ensures !HasEscape(r, 'n') && !HasEscape(r, 'r')
    ensures !HasEscape(s, 'n') && !HasEscape(s, 'r') ==> r == s
  {
    var noNewlines := Unescape(s, 'n');
    UnescapeKeeps(noNewlines, 'r', 'n');
    Unescape(noNewlines, 'r')
  }

  /** Each backslash-n and each backslash-r becomes one space, wherever it stands. */
  lemma NormaliseEscape(a: string, b: string, c: char)
    requires c == 'n' || c == 'r'
    ensures Normalise(a + ['\\', c] + b) == Normalise(a) + " " + Normalise(b)
  {
    if c == 'n' {
      NormaliseNewline(a, b);
    } else {
      NormaliseReturn(a, b);
    }
  }

  /** The backslash-n case: the later backslash-r pass keeps the new space. */
  lemma NormaliseNewline(a: string, b: string)
    ensures Normalise(a + ['\\', 'n'] + b) == Normalise(a) + " " + Normalise(b)
  {
    var na, nb := Unescape(a, 'n'), Unescape(b, 'n');
    UnescapeEscape(a, b, 'n');
    SpaceBetween(na, nb, 'r');
  }

  /** The backslash-r case: the earlier backslash-n pass leaves the escape in place. */
  lemma NormaliseReturn(a: string, b: string)
    ensures Normalise(a + ['\\', 'r'] + b) == Normalise(a) + " " + Normalise(b)
  {
    var na, nb := Unescape(a, 'n'), Unescape(b, 'n');
    KeepOtherEscape(a, b, 'n', 'r');
    UnescapeEscape(na, nb, 'r');
  }

  /** A space between two texts stays where it is when escapes are replaced. */
  lemma SpaceBetween(x: string, y: string, e: char)
    requires e != '\\' && e != ' '
    ensures Unescape(x + " " + y, e) == Unescape(x, e) + " " + Unescape(y, e)
  {
    UnescapeAppend(x, " " + y, e);
    UnescapeAppend(" ", y, e);
    assert x + " " + y == x + (" " + y);
  }

  /** Replacing the escape `e` leaves a backslash followed by `f` in place. */
  lemma KeepOtherEscape(a: string, b: string, e: char, f: char)
    requires e != '\\' && e != ' ' && f != e && f != '\\'
    ensures Unescape(a + ['\\', f] + b, e) == Unescape(a, e) + ['\\', f] + Unescape(b, e)
  {
    var m := ['\\', f] + b;
    UnescapeAppend(a, m, e);
    UnescapeAppend(['\\', f], b, e);
    assert Unescape(['\\', f], e) == ['\\', f] by {
      assert Unescape([f], e) == [f];
    }
    assert a + ['\\', f] + b == a + m;
    assert Unescape(a, e) + (['\\', f] + Unescape(b, e)) == Unescape(a, e) + ['\\', f] + Unescape(b, e);
  }

  /** `parseDescription`. */
  function ParseDescription(input: Option<string>): (r: string)
    ensures !Truthy(input) ==> r == EmptyDescription
    ensures Truthy(input) ==> StartsWith(r, "Description: ")
  {
    if !Truthy(input) then EmptyDescription
    else "Description: " + ReplaceLinks(Normalise(input.value))
  }

  /** Without a `[`, a description only has its escapes replaced. */
  lemma DescriptionWithoutLink(text: string)
    requires text != "" && '[' !in text
    ensures ParseDescription(Some(text)) == "Description: " + Normalise(text)
  {
    var n := Unescape(text, 'n');
    assert forall k :: 0 <= k < |n| ==> n[k] != '[' by {
      UnescapeNoNewChar(text, 'n', '[');
    }
    UnescapeNoNewChar(n, 'r', '[');
  }

  /** Replacing an escape introduces no character other than a space. */
  lemma {:induction false} UnescapeNoNewChar(s: string, e: char, c: char)
    requires e != '\\' && e != ' ' && c != ' ' && c !in s
    ensures c !in Unescape(s, e)
    decreases |s|
  {
    if s != [] {
      if EscapeAt(s, e, 0) {
        assert c !in s[2..];
        UnescapeNoNewChar(s[2..], e, c);
      } else {
        assert c !in s[1..];
        UnescapeNoNewChar(s[1..], e, c);
      }
    }
  }

  /**
   * A description without escapes holding one link renders with that link
   * rewritten and the rest of the text unchanged.
   */
  lemma DescriptionLink(a: string, u: string, t: string, b: string)
    requires '\\' !in a && '\\' !in u && '\\' !in t && '\\' !in b
    requires '[' !in a && '[' !in b && ']' !in b && '|' !in t
    requires forall k :: 0 <= k < |u| ==> !IsLineTerminator(u[k])
    requires forall k :: 0 <= k < |t| ==> !IsLineTerminator(t[k])
    ensures ParseDescription(Some(a + "[[" + u + "|" + t + "]]" + b)) == "Description: " + (a + "[" + t + "](" + u + ")" + b)
  {
    var text := a + "[[" + u + "|" + t + "]]" + b;
    assert '\\' !in text;
    NoBackslashNoEscape(text, 'n');
    NoBackslashNoEscape(text, 'r');
    LoneLink(a, u, t, b);
  }

  // ---------------------------------------------------------------- ramp

  /** `deciderValue`: the value, or "undefined" when absent, then "%". */
  function DeciderValue(value: Option<int>): (r: string)
    ensures EndsWith(r, "%")
    ensures value.None? ==> r == "undefined%"
    ensures value.Some? && value.value >= 0 ==>
      Canonical(r[..|r| - 1]) && DigitsValue(r[..|r| - 1]) == value.value
    ensures value.Some? && value.value < 0 ==>
      |r| >= 3 && r[0] == '-' && Canonical(r[1..|r| - 1]) && DigitsValue(r[1..|r| - 1]) == -value.value
  {
    var r := (if value.Some? then IntToString(value.value) else "undefined") + "%";
    assert r[..|r| - 1] == if value.Some? then IntToString(value.value) else "undefined";
    r
  }

  /** One table row: the group, then its percent in code style; a single line when both are. */
  function RampRow(g: GroupRange): (r: string)
    ensures StartsWith(r, "| " + g.group + " | `") && EndsWith(r, "%` |")
    ensures |r| == |g.group| + |g.percent| + 10 && r[|g.group| + 6..|r| - 4] == g.percent
    ensures '\n' !in g.group && '\n' !in g.percent ==> '\n' !in r
  {
    Framed("| " + g.group + " | `", g.percent, "%` |");
    "| " + g.group + " | `" + g.percent + "%` |"
  }

  /** The `reduce` that appends one row per group to the accumulator. */
  function AppendRows(acc: seq<string>, groups: seq<GroupRange>): (r: seq<string>)
    ensures |r| == |acc| + |groups|
    ensures r[..|acc|] == acc
    ensures forall i :: 0 <= i < |groups| ==> r[|acc| + i] == RampRow(groups[i])
    decreases |groups|
  {
    if groups == [] then acc
    else
      var r := AppendRows(acc + [RampRow(groups[0])], groups[1..]);
      assert r[..|acc|] == (r[..|acc| + 1])[..|acc|];
      assert forall i :: 1 <= i < |groups| ==> groups[i] == groups[1..][i - 1];
      r
  }

  /** The ramp table: the header line, the alignment line, then the rows one per line. */
  function RampTable(groups: seq<GroupRange>): (r: string)
    ensures r == RampHeader + "\n" + RampAlign + "\n" + Join(AppendRows([], groups), "\n")
  {
    var x := Join(AppendRows([], groups), "\n");
    assert [RampHeader, RampAlign, x] == [RampHeader] + [RampAlign, x];
    assert [RampAlign, x] == [RampAlign] + [x];
    JoinCons(RampHeader, [RampAlign, x], "\n");
    JoinCons(RampAlign, [x], "\n");
    Join([RampHeader, RampAlign, x], "\n")
  }

  /**
   * `getRampInfo`: a decider's ramp is its value and needs no request; an
   * experiment's is the first history entry's table, and a failed request or
   * a response without entries gives the placeholder.
   */
  function RampInfo(item: Item, history: Result<RampHistory, FetchError>): (r: string)
    ensures item.DeciderItem? ==> r == "Ramp: " + DeciderValue(item.decider.currentValue)
    ensures item.ExperimentItem? && (history.Failure? || history.value == []) ==> r == RampUnavailable
    ensures item.ExperimentItem? && history.Success? && history.value != [] ==>
      r == RampTable(history.value[0]) && StartsWith(r, RampHeader + "\n" + RampAlign + "\n")
  {
    match item
    case DeciderItem(d) => "Ramp: " + DeciderValue(d.currentValue)
    case ExperimentItem(_) =>
      if history.Failure? || history.value == [] then RampUnavailable
      else
        var groups := history.value[0];
        PrefixOfConcat(RampHeader + "\n" + RampAlign + "\n", Join(AppendRows([], groups), "\n"));
        RampTable(groups)
  }

  lemma HeadersSingleLine()
    ensures '\n' !in RampHeader && '\n' !in RampAlign
  {
  }

  /** Joining two lines in front of the joined rows joins all the lines. */
  lemma JoinHeaded(h: string, al: string, rows: seq<string>)
    requires rows != []
    ensures Join([h, al, Join(rows, "\n")], "\n") == Join([h, al] + rows, "\n")
  {
    var x := Join(rows, "\n");
    assert [h, al, x] == [h] + ([al] + [x]);
    JoinCons(h, [al] + [x], "\n");
    JoinCons(al, [x], "\n");
    assert [h, al] + rows == [h] + ([al] + rows);
    JoinCons(h, [al] + rows, "\n");
    JoinCons(al, rows, "\n");
  }

  /** Two single-line headers over single-line rows split back into those lines. */
  lemma HeadedLines(h: string, al: string, rows: seq<string>)
    requires rows != [] && '\n' !in h && '\n' !in al
    requires forall i :: 0 <= i < |rows| ==> '\n' !in rows[i]
    ensures Split(Join([h, al, Join(rows, "\n")], "\n"), '\n') == [h, al] + rows
  {
    JoinHeaded(h, al, rows);
    SingleLines(h, al, rows);
    assert "\n" == ['\n'];
    SplitJoin([h, al] + rows, '\n');
  }

  lemma SingleLines(h: string, al: string, rows: seq<string>)
    requires '\n' !in h && '\n' !in al
    requires forall i :: 0 <= i < |rows| ==> '\n' !in rows[i]
    ensures forall i :: 0 <= i < |[h, al] + rows| ==> '\n' !in ([h, al] + rows)[i]
  {
    var lines := [h, al] + rows;
    forall i | 0 <= i < |lines| ensures '\n' !in lines[i] {
      if i == 0 {
        assert lines[0] == h;
      } else if i == 1 {
        assert lines[1] == al;
      } else {
        assert lines[i] == rows[i - 2];
      }
    }
  }

  /**
   * The table has one line per group after the two header lines, provided
   * no group name or percentage spans a line.
   */
  lemma RampTableLayout(groups: seq<GroupRange>)
    requires |groups| >= 1
    requires forall i :: 0 <= i < |groups| ==> '\n' !in groups[i].group && '\n' !in groups[i].percent
    ensures Split(RampTable(groups), '\n') == [RampHeader, RampAlign] + AppendRows([], groups)
  {
    var rows := AppendRows([], groups);
    assert |rows| == |groups|;
    RowsSingleLine(groups);
    HeadersSingleLine();
    HeadedLines(RampHeader, RampAlign, rows);
  }

  lemma RowsSingleLine(groups: seq<GroupRange>)
    requires forall i :: 0 <= i < |groups| ==> '\n' !in groups[i].group && '\n' !in groups[i].percent
    ensures forall i :: 0 <= i < |AppendRows([], groups)| ==> '\n' !in AppendRows([], groups)[i]
  {
    var rows := AppendRows([], groups);
    forall i | 0 <= i < |rows| ensures '\n' !in rows[i] {
      assert rows[i] == RampRow(groups[i]);
    }
  }

  /** A decider's ramp does not depend on any ramp-history response. */
  lemma DeciderRampIsLocal(d: Decider, h1: Result<RampHistory, FetchError>, h2: Result<RampHistory, FetchError>)
    ensures RampInfo(DeciderItem(d), h1) == RampInfo(DeciderItem(d), h2)
  {
  }

  // ---------------------------------------------------------------- owners

  /** A link labelled `@owner` to the owner's directory entry. */
  function OwnerLink(owner: string): (r: string)
    ensures StartsWith(r, "[@" + owner + "](")
    ensures |r| == 2 * |owner| + |WhoUrl| + 5
    ensures EndsWith(r, ")") && r[|owner| + 4..|r| - 1] == WhoUrl + owner
  {
    var caption := "[@" + owner + "](";
    Framed(caption, WhoUrl + owner, ")");
    caption + (WhoUrl + owner) + ")"
  }

  /**
   * The owners field split on commas, each trimmed and linked, joined by
   * " / "; a lone owner without surrounding white space is one link.
   */
  function OwnerLinks(owners: string): (r: string)
    ensures ',' !in owners && Trimmed(owners) ==> r == OwnerLink(owners)
  {
    var parts := Split(owners, ',');
    assert ',' !in owners ==> parts == [owners] by {
      if ',' !in owners {
        assert |parts| == 1 && Join(parts, [',']) == parts[0];
      }
    }
    Join(Links(TrimAll(parts)), " / ")
  }

  /** Each name trimmed. */
  function TrimAll(names: seq<string>): seq<string> {
    seq(|names|, i requires 0 <= i < |names| => Trim(names[i]))
  }

  /** Each name as its owner link. */
  function Links(names: seq<string>): seq<string> {
    seq(|names|, i requires 0 <= i < |names| => OwnerLink(names[i]))
  }

  /** Owner names as they can be listed with commas: no comma inside any of them. */
  predicate CommaFree(names: seq<string>) {
    forall i :: 0 <= i < |names| ==> ',' !in names[i]
  }

  /**
   * Names without commas, listed with commas, come back as one link each, in
   * order, every name trimmed of the white space around it.
   */
  lemma OwnerLinksOfNames(names: seq<string>)
    requires |names| >= 1 && CommaFree(names)
    ensures OwnerLinks(Join(names, ",")) == Join(Links(TrimAll(names)), " / ")
  {
    SplitJoinComma(names);
  }

  /** For names already without surrounding white space, the links are of the names as listed. */
  lemma OwnerLinksOfTrimmedNames(names: seq<string>)
    requires |names| >= 1 && CommaFree(names)
    requires forall i :: 0 <= i < |names| ==> Trimmed(names[i])
    ensures OwnerLinks(Join(names, ",")) == Join(Links(names), " / ")
  {
    TrimAllTrimmed(names);
    OwnerLinksOfNames(names);
  }

  /** The white space after a comma is not part of the next owner's link. */
  lemma TwoOwners(a: string, b: string)
    requires ',' !in a && ',' !in b && Trimmed(a) && Trimmed(b)
    ensures OwnerLinks(a + ", " + b) == OwnerLink(a) + " / " + OwnerLink(b)
  {
    var names := [a, " " + b];
    assert Join(names, ",") == a + ", " + b by {
      assert Join(names[1..], ",") == " " + b;
      ConcatAssoc(a + ",", " ", b);
      assert a + ", " == a + "," + " ";
    }
    assert CommaFree(names) by {
      assert forall i :: 0 <= i < |names| ==> names[i] == a || names[i] == [' '] + b;
    }
    OwnerLinksOfNames(names);
    assert Trim(names[1]) == b by {
      TrimLeadingSpace(' ', b);
    }
    TrimAllPair(a, " " + b);
    JoinLinksPair(a, b);
  }

  /** Helper: trimming a pair of names trims each. */
  lemma TrimAllPair(x: string, y: string)
    ensures TrimAll([x, y]) == [Trim(x), Trim(y)]
  {
  }

  /** Helper: the links of two names, joined. */
  lemma JoinLinksPair(a: string, b: string)
    ensures Join(Links([a, b]), " / ") == OwnerLink(a) + " / " + OwnerLink(b)
  {
    assert Links([a, b])[1..] == [OwnerLink(b)];
  }

  /** Splitting on commas undoes listing names with commas. */
  lemma SplitJoinComma(names: seq<string>)
    requires |names| >= 1 && CommaFree(names)
    ensures Split(Join(names, ","), ',') == names
  {
    assert "," == [','];
    SplitJoin(names, ',');
  }

  /** Trimming names without surrounding white space changes none of them. */
  lemma TrimAllTrimmed(names: seq<string>)
    requires forall i :: 0 <= i < |names| ==> Trimmed(names[i])
    ensures TrimAll(names) == names
  {
    assert forall i :: 0 <= i < |names| ==> TrimAll(names)[i] == names[i];
  }

  /** "Owners" exactly when the field lists more than one owner. */
  function OwnerLabel(owners: string): (r: string)
    ensures r == "Owners" <==> ',' in owners
    ensures r == "Owner" <==> ',' !in owners
  {
    if |Split(owners, ',')| > 1 then "Owners" else "Owner"
  }

  /** An experiment's owner line: present exactly when it has owners, opening with the caption. */
  function ExperimentOwnerLine(e: Experiment): (r: string)
    ensures r == "" <==> e.owner == ""
    ensures e.owner != "" ==> StartsWith(r, OwnerLabel(e.owner) + ": ")
  {
    if e.owner != "" then
      PrefixOfConcat(OwnerLabel(e.owner) + ": ", OwnerLinks(e.owner));
      OwnerLabel(e.owner) + ": " + OwnerLinks(e.owner)
    else ""
  }

  /**
   * The owner line of an experiment whose owners field lists the given names:
   * the caption counts the names and each name becomes its own link.
   */
  lemma ExperimentOwners(e: Experiment, names: seq<string>)
    requires |names| >= 1 && CommaFree(names) && e.owner == Join(names, ",") && e.owner != ""
    ensures ExperimentOwnerLine(e) == (if |names| > 1 then "Owners" else "Owner") + ": " + Join(Links(TrimAll(names)), " / ")
  {
    SplitJoinComma(names);
    OwnerLinksOfNames(names);
  }

  function TeamLine(e: Experiment): (r: string)
    ensures r != "" <==> Truthy(e.team)
  {
    if Truthy(e.team) then "Team: " + e.team.value else ""
  }

  /** The owner line from a resolved LDAP name: the name, linked to the LDAP entry in the directory. */
  function LdapOwnerLine(name: string, ldap: Option<string>): (r: string)
    ensures StartsWith(r, "Owner: [" + name + "]")
    ensures EndsWith(r, "(" + WhoUrl + Show(ldap) + ")")
    ensures |r| == |"Owner: [" + name + "]"| + |"(" + WhoUrl + Show(ldap) + ")"|
  {
    var caption, link := "Owner: [" + name + "]", "(" + WhoUrl + Show(ldap) + ")";
    PrefixOfConcat(caption, link);
    SuffixOfConcat(caption, link);
    caption + link
  }

  /** Without an LDAP entry the link still points into the directory, at "undefined". */
  lemma LdapOwnerLineUndefined(name: string)
    ensures EndsWith(LdapOwnerLine(name, None), WhoUrl + "undefined" + ")")
  {
    assert "(" + WhoUrl + "undefined" + ")" == "(" + (WhoUrl + "undefined" + ")");
    SuffixOfSuffix(LdapOwnerLine(name, None), "(", WhoUrl + "undefined" + ")");
  }

  /**
   * The owner line from an owner profile: the full name linked to the
   * Pinterest profile of the username, then an AdminApp link for the owner.
   */
  function ProfileOwnerLine(profile: OwnerInfo, owner: Option<string>): (r: string)
    ensures StartsWith(r, "Owner: [" + profile.fullName + "](https://pinterest.com/" + profile.username + "/) ")
    ensures EndsWith(r, "([AdminApp](" + AdminAppUserUrl + Show(owner) + "/))")
    ensures |r| == |"Owner: [" + profile.fullName + "](https://pinterest.com/" + profile.username + "/) "|
      + |"([AdminApp](" + AdminAppUserUrl + Show(owner) + "/))"|
  {
    var profileLink := "Owner: [" + profile.fullName + "](https://pinterest.com/" + profile.username + "/) ";
    var adminLink := "([AdminApp](" + AdminAppUserUrl + Show(owner) + "/))";
    PrefixOfConcat(profileLink, adminLink);
    SuffixOfConcat(profileLink, adminLink);
    profileLink + adminLink
  }

  /** The owner line from a bare owner name: the name, linked to its admin page, marked as a suspended account. */
  function SuspendedOwnerLine(owner: string): (r: string)
    ensures StartsWith(r, "Owner: [" + owner + "]")
    ensures EndsWith(r, "(" + AdminAppUserUrl + owner + "/) (Suspended / deactivated account)")
    ensures |r| == |"Owner: [" + owner + "]"| + |"(" + AdminAppUserUrl + owner + "/) (Suspended / deactivated account)"|
  {
    var caption := "Owner: [" + owner + "]";
    var rest := "(" + AdminAppUserUrl + owner + "/) (Suspended / deactivated account)";
    PrefixOfConcat(caption, rest);
    SuffixOfConcat(caption, rest);
    caption + rest
  }

  /**
   * A decider's owner line: the resolved LDAP name first, then the owner
   * profile, then the bare owner name marked as a suspended account; with
   * none of them there is no line.
   */
  function DeciderOwnerLine(d: Decider): (r: string)
    ensures d.ldapInfo.Some? && d.ldapInfo.value.name != "" ==>
      StartsWith(r, "Owner: [" + d.ldapInfo.value.name + "]") && EndsWith(r, "(" + WhoUrl + Show(d.ldap) + ")")
    ensures !(d.ldapInfo.Some? && d.ldapInfo.value.name != "") && d.ownerInfo.Some? ==>
      StartsWith(r, "Owner: [" + d.ownerInfo.value.fullName + "](https://pinterest.com/" + d.ownerInfo.value.username + "/) ")
      && EndsWith(r, "([AdminApp](" + AdminAppUserUrl + Show(d.owner) + "/))")
    ensures !(d.ldapInfo.Some? && d.ldapInfo.value.name != "") && d.ownerInfo.None? && Truthy(d.owner) ==>
      StartsWith(r, "Owner: [" + d.owner.value + "]")
      && EndsWith(r, "(" + AdminAppUserUrl + d.owner.value + "/) (Suspended / deactivated account)")
    ensures r == "" <==> !(d.ldapInfo.Some? && d.ldapInfo.value.name != "") && d.ownerInfo.None? && !Truthy(d.owner)
  {
    if d.ldapInfo.Some? && d.ldapInfo.value.name != "" then LdapOwnerLine(d.ldapInfo.value.name, d.ldap)
    else if d.ownerInfo.Some? then ProfileOwnerLine(d.ownerInfo.value, d.owner)
    else if Truthy(d.owner) then SuspendedOwnerLine(d.owner.value)
    else ""
  }

  /** The three candidate lines of `ownerInfo`; an absent line is empty. */
  function OwnerLines(item: Item): seq<string> {
    match item
    case ExperimentItem(e) => [ExperimentOwnerLine(e), TeamLine(e), ""]
    case DeciderItem(d) => ["", "", DeciderOwnerLine(d)]
  }

  /**
   * `ownerInfo`: the present lines, joined by markdown line breaks. A
   * decider's is its owner line alone; an experiment's is the owner line when
   * it has owners and then the team line when it has a team.
   */
  function OwnerInfo(item: Item): (r: string)
    ensures item.DeciderItem? ==> r == DeciderOwnerLine(item.decider)
    ensures item.ExperimentItem? && item.experiment.owner != "" && Truthy(item.experiment.team) ==>
      r == ExperimentOwnerLine(item.experiment) + LineBreak + "Team: " + item.experiment.team.value
    ensures item.ExperimentItem? && item.experiment.owner != "" && !Truthy(item.experiment.team) ==>
      r == ExperimentOwnerLine(item.experiment)
    ensures item.ExperimentItem? && item.experiment.owner == "" ==> r == TeamLine(item.experiment)
  {
    match item
    case DeciderItem(d) =>
      DeciderOwnerSection(d);
      Join(Compact(OwnerLines(item)), LineBreak)
    case ExperimentItem(e) =>
      ExperimentOwnerSection(e);
      Join(Compact(OwnerLines(item)), LineBreak)
  }

  /** Helper: a decider's present lines are its owner line alone. */
  lemma DeciderOwnerSection(d: Decider)
    ensures Join(Compact(OwnerLines(DeciderItem(d))), LineBreak) == DeciderOwnerLine(d)
  {
    LastLineOnly(DeciderOwnerLine(d), LineBreak);
  }

  /** Helper: an experiment's present lines are its owner line and its team line. */
  lemma ExperimentOwnerSection(e: Experiment)
    ensures e.owner != "" && Truthy(e.team) ==>
      Join(Compact(OwnerLines(ExperimentItem(e))), LineBreak) == ExperimentOwnerLine(e) + LineBreak + "Team: " + e.team.value
    ensures e.owner != "" && !Truthy(e.team) ==>
      Join(Compact(OwnerLines(ExperimentItem(e))), LineBreak) == ExperimentOwnerLine(e)
    ensures e.owner == "" ==> Join(Compact(OwnerLines(ExperimentItem(e))), LineBreak) == TeamLine(e)
  {
    var o, t := ExperimentOwnerLine(e), TeamLine(e);
    assert OwnerLines(ExperimentItem(e)) == [o, t, ""];
    JoinTwoPresent(o, t, LineBreak);
    if Truthy(e.team) {
      ConcatAssoc(o + LineBreak, "Team: ", e.team.value);
    }
  }

  /** Of three candidate lines only the last is present. */
  lemma LastLineOnly(x: string, sep: string)
    ensures Join(Compact(["", "", x]), sep) == x
  {
    assert ["", "", x] == [""] + ([""] + ([x] + []));
    CompactCons(x, []);
    CompactCons("", [x] + []);
    CompactCons("", [""] + ([x] + []));
  }

  // ---------------------------------------------------------------- dates

  /**
   * `parseDateTime`: the timestamp read as UTC by appending "Z", shown as its
   * date, " at ", then its time.
   */
  function ParseDateTime(input: string, locale: Locale): (r: string)
    ensures StartsWith(r, locale.date(input + "Z")) && EndsWith(r, locale.time(input + "Z"))
    ensures |r| == |locale.date(input + "Z")| + 4 + |locale.time(input + "Z")|
    ensures r[|locale.date(input + "Z")|..|locale.date(input + "Z")| + 4] == " at "
  {
    Framed(locale.date(input + "Z"), " at ", locale.time(input + "Z"));
    locale.date(input + "Z") + " at " + locale.time(input + "Z")
  }

  /**
   * The two date lines joined without the empty one: the update line always
   * ends the text, and the text opens with "Created: " exactly when the
   * creation line is present.
   */
  lemma DateLines(created: string, updated: string)
    requires updated != "" && updated[0] == 'L'
    requires created != "" ==> StartsWith(created, "Created: ")
    ensures var r := Join(Compact([created, updated]), LineBreak);
      && EndsWith(r, updated)
      && (StartsWith(r, "Created: ") <==> created != "")
      && (created != "" ==> StartsWith(r, created + LineBreak))
  {
    var r := Join(Compact([created, updated]), LineBreak);
    JoinPair(created, updated, LineBreak);
    if created == "" {
      SuffixOfConcat("", updated);
      assert "" + updated == updated;
    } else {
      SuffixOfConcat(created + LineBreak, updated);
      PrefixOfConcat(created + LineBreak, updated);
      PrefixOfPrefix(r, created, LineBreak);
      PrefixOfPrefix(r, "Created: ", created[|"Created: "|..]);
      assert "Created: " + created[|"Created: "|..] == created;
    }
  }

  /** `dateInfo`: "Created:" only when known, "Last Updated:" always, last. */
  function DateInfo(item: Item, locale: Locale): (r: string)
    ensures EndsWith(r, "Last Updated: " + ParseDateTime(item.LastUpdated(), locale))
    ensures StartsWith(r, "Created: ") <==> Truthy(item.CreatedAt())
    ensures Truthy(item.CreatedAt()) ==>
      StartsWith(r, "Created: " + ParseDateTime(item.CreatedAt().value, locale) + LineBreak)
  {
    var created := if Truthy(item.CreatedAt()) then "Created: " + ParseDateTime(item.CreatedAt().value, locale) else "";
    var updated := "Last Updated: " + ParseDateTime(item.LastUpdated(), locale);
    assert created != "" ==> StartsWith(created, "Created: ") by {
      if created != "" {
        PrefixOfConcat("Created: ", ParseDateTime(item.CreatedAt().value, locale));
      }
    }
    assert updated[0] == 'L';
    DateLines(created, updated);
    JoinPair(created, updated, LineBreak);
    if created == "" then updated else created + LineBreak + updated
  }

  /** `dateInfo` is the two date lines, the empty one filtered out, joined by line breaks. */
  lemma DateInfoFiltered(item: Item, locale: Locale)
    ensures var created := if Truthy(item.CreatedAt()) then "Created: " + ParseDateTime(item.CreatedAt().value, locale) else "";
      DateInfo(item, locale) == Join(Compact([created, "Last Updated: " + ParseDateTime(item.LastUpdated(), locale)]), LineBreak)
  {
    var created := if Truthy(item.CreatedAt()) then "Created: " + ParseDateTime(item.CreatedAt().value, locale) else "";
    JoinPair(created, "Last Updated: " + ParseDateTime(item.LastUpdated(), locale), LineBreak);
  }

  // ---------------------------------------------------------------- the whole detail

  /** The link section: an experiment links to Helium, a decider to Adminapp. */
  function LinkLine(item: Item): (r: string)
    ensures item.ExperimentItem? ==> r == "Link: [Helium](" + item.Url() + ")"
    ensures item.DeciderItem? ==> r == "Link: [Adminapp](" + item.Url() + ")"
  {
    assert "Link: [" + "Helium" + "](" == "Link: [Helium](";
    assert "Link: [" + "Adminapp" + "](" == "Link: [Adminapp](";
    "Link: [" + (if item.ExperimentItem? then "Helium" else "Adminapp") + "](" + item.Url() + ")"
  }

  /**
   * The five sections of the detail in the order they are shown: the
   * description, the ramp, the owners, the link and the dates.
   */
  function Sections(item: Item, history: Result<RampHistory, FetchError>, locale: Locale): (r: seq<string>)
    ensures |r| == 5
    ensures StartsWith(r[0], "Description: ")
    ensures StartsWith(r[1], "Ramp: ") || StartsWith(r[1], RampHeader + "\n")
    ensures r[2] == OwnerInfo(item)
    ensures StartsWith(r[3], "Link: [")
    ensures EndsWith(r[4], "Last Updated: " + ParseDateTime(item.LastUpdated(), locale))
  {
    var description, ramp, owner := ParseDescription(item.Description()), RampInfo(item, history), OwnerInfo(item);
    var link, date := LinkLine(item), DateInfo(item, locale);
    DescriptionOpens(item.Description());
    RampOpens(item, history);
    LinkOpens(item);
    FiveSections(description, ramp, owner, link, date, "Last Updated: " + ParseDateTime(item.LastUpdated(), locale));
    [description, ramp, owner, link, date]
  }

  /** Helper: the five sections keep their openings and ending once listed. */
  lemma FiveSections(description: string, ramp: string, owner: string, link: string, date: string, updated: string)
    requires StartsWith(description, "Description: ")
    requires StartsWith(ramp, "Ramp: ") || StartsWith(ramp, RampHeader + "\n")
    requires StartsWith(link, "Link: [") && EndsWith(date, updated)
    ensures var r := [description, ramp, owner, link, date];
      |r| == 5 && StartsWith(r[0], "Description: ") && (StartsWith(r[1], "Ramp: ") || StartsWith(r[1], RampHeader + "\n"))
      && r[2] == owner && StartsWith(r[3], "Link: [") && EndsWith(r[4], updated)
  {
  }

  /** Every description section opens with its heading. */
  lemma DescriptionOpens(input: Option<string>)
    ensures StartsWith(ParseDescription(input), "Description: ")
  {
    assert EmptyDescription == "Description: " + "(empty)";
    PrefixOfConcat("Description: ", "(empty)");
  }

  /** The ramp section opens with "Ramp: " or with the table header. */
  lemma RampOpens(item: Item, history: Result<RampHistory, FetchError>)
    ensures StartsWith(RampInfo(item, history), "Ramp: ") || StartsWith(RampInfo(item, history), RampHeader + "\n")
  {
    if item.DeciderItem? {
      PrefixOfConcat("Ramp: ", DeciderValue(item.decider.currentValue));
    } else if history.Failure? || history.value == [] {
      UnavailableOpens();
    } else {
      PrefixOfPrefix(RampInfo(item, history), RampHeader + "\n", RampAlign + "\n");
    }
  }

  lemma UnavailableOpens()
    ensures StartsWith(RampUnavailable, "Ramp: ")
  {
    assert RampUnavailable[..6] == "Ramp: ";
  }

  /** The link section opens with "Link: [". */
  lemma LinkOpens(item: Item)
    ensures StartsWith(LinkLine(item), "Link: [")
  {
    var caption := if item.ExperimentItem? then "Helium" else "Adminapp";
    assert LinkLine(item) == "Link: [" + caption + ("](" + item.Url() + ")");
    PrefixOfJoined("Link: [", caption, "](" + item.Url() + ")");
  }

  /** Five sections joined with separators between them. */
  lemma JoinFive(a: string, b: string, c: string, d: string, e: string, sep: string)
    ensures Join([a, b, c, d, e], sep) == a + sep + b + sep + c + sep + d + sep + e
  {
    assert [a, b, c, d, e] == [a] + ([b] + ([c] + ([d] + [e])));
    JoinCons(d, [e], sep);
    JoinCons(c, [d] + [e], sep);
    JoinCons(b, [c] + ([d] + [e]), sep);
    JoinCons(a, [b] + ([c] + ([d] + [e])), sep);
  }

  /**
   * `getInfo`: nothing for no record; otherwise trusted markdown holding the
   * description, ramp, owner, link and date sections in that order, one blank
   * line apart.
   */
  function GetInfo(entry: Option<Item>, history: Result<RampHistory, FetchError>, locale: Locale): (r: Option<Markdown>)
    ensures r.Some? <==> entry.Some?
    ensures r.Some? ==> r.value.isTrusted
    ensures r.Some? ==> r.value.value == Join(Sections(entry.value, history, locale), SectionBreak)
  {
    if entry.None? then None
    else
      var item := entry.value;
      var markdown := Markdown("", false)
        .Append(ParseDescription(item.Description()))
        .Append(SectionBreak)
        .Append(RampInfo(item, history))
        .Append(SectionBreak)
        .Append(OwnerInfo(item))
        .Append(SectionBreak)
        .Append(LinkLine(item))
        .Append(SectionBreak)
        .Append(DateInfo(item, locale));
      AppendedFive(ParseDescription(item.Description()), RampInfo(item, history), OwnerInfo(item),
        LinkLine(item), DateInfo(item, locale), SectionBreak);
      Some(markdown.(isTrusted := true))
  }

  /** Five texts appended with separators between them hold the five joined. */
  lemma AppendedFive(a: string, b: string, c: string, d: string, e: string, sep: string)
    ensures Markdown("", false).Append(a).Append(sep).Append(b).Append(sep).Append(c)
      .Append(sep).Append(d).Append(sep).Append(e).value == Join([a, b, c, d, e], sep)
  {
    JoinFive(a, b, c, d, e, sep);
    assert "" + a == a;
  }

  /** `getDetail`: the record's type in parentheses. */
  function GetDetail(item: Item): (r: string)
    ensures r == "(decider)" <==> item.DeciderItem?
    ensures r == "(experiment)" <==> item.ExperimentItem?
  {
    "(" + item.Type() + ")"
  }

  /**
   * A decider lacking every optional field still has all five sections: the
   * description placeholder, its ramp, an empty owner section, its link and
   * its last update.
   */
  lemma BareDeciderSections(d: Decider, history: Result<RampHistory, FetchError>, locale: Locale)
    requires d.description.None? && d.createdAt.None? && d.owner.None?
    requires d.ldapInfo.None? && d.ownerInfo.None? && d.currentValue == Some(50)
    ensures Sections(DeciderItem(d), history, locale) ==
      [EmptyDescription, "Ramp: 50%", "", "Link: [Adminapp](" + d.url + ")", "Last Updated: " + ParseDateTime(d.lastUpdated, locale)]
  {
    var item := DeciderItem(d);
    assert OwnerInfo(item) == "";
    RampFifty(d, history);
    DateWithoutCreation(item, locale);
    assert ParseDescription(item.Description()) == EmptyDescription;
  }

  /** A decider at value 50 shows a ramp of 50%. */
  lemma RampFifty(d: Decider, history: Result<RampHistory, FetchError>)
    requires d.currentValue == Some(50)
    ensures RampInfo(DeciderItem(d), history) == "Ramp: 50%"
  {
    FiftyDigits();
    assert DeciderValue(Some(50)) == "50" + "%";
  }

  /** Without a creation time the date section is the last-update line alone. */
  lemma DateWithoutCreation(item: Item, locale: Locale)
    requires !Truthy(item.CreatedAt())
    ensures DateInfo(item, locale) == "Last Updated: " + ParseDateTime(item.LastUpdated(), locale)
  {
    JoinPair("", "Last Updated: " + ParseDateTime(item.LastUpdated(), locale), LineBreak);
  }

  /** The rendered detail of such a decider: empty sections still keep their separators. */
  lemma BareDeciderDetail(d: Decider, history: Result<RampHistory, FetchError>, locale: Locale)
    requires d.description.None? && d.createdAt.None? && d.owner.None?
    requires d.ldapInfo.None? && d.ownerInfo.None? && d.currentValue == Some(50)
    ensures GetInfo(Some(DeciderItem(d)), history, locale).value.value ==
      EmptyDescription + SectionBreak + "Ramp: 50%" + SectionBreak + SectionBreak
      + ("Link: [Adminapp](" + d.url + ")") + SectionBreak + ("Last Updated: " + ParseDateTime(d.lastUpdated, locale))
  {
    BareDeciderSections(d, history, locale);
    var link, updated := "Link: [Adminapp](" + d.url + ")", "Last Updated: " + ParseDateTime(d.lastUpdated, locale);
    JoinFive(EmptyDescription, "Ramp: 50%", "", link, updated, SectionBreak);
    var r := GetInfo(Some(DeciderItem(d)), history, locale).value.value;
    assert r == Join(Sections(DeciderItem(d), history, locale), SectionBreak);
    var head := EmptyDescription + SectionBreak + "Ramp: 50%" + SectionBreak;
    assert r == head + "" + SectionBreak + link + SectionBreak + updated;
    assert head + "" == head;
  }

  /** The first two of five joined parts open the joined text. */
  lemma JoinFivePrefix(a: string, b: string, c: string, d: string, e: string, sep: string)
    ensures StartsWith(Join([a, b, c, d, e], sep), a + sep + b + sep)
  {
    JoinFive(a, b, c, d, e, sep);
    var head := a + sep + b + sep;
    var rest := c + sep + d + sep + e;
    assert a + sep + b + sep + c + sep + d + sep + e == head + rest;
    PrefixOfConcat(head, rest);
  }

  /** When the ramp request fails, an experiment's detail shows the placeholder ramp second. */
  lemma ExperimentRampFailure(e: Experiment, error: FetchError, locale: Locale)
    ensures StartsWith(GetInfo(Some(ExperimentItem(e)), Failure(error), locale).value.value,
                       ParseDescription(e.description) + SectionBreak + RampUnavailable + SectionBreak)
  {
    var s := Sections(ExperimentItem(e), Failure(error), locale);
    assert s == [s[0], s[1], s[2], s[3], s[4]];
    JoinFivePrefix(s[0], s[1], s[2], s[3], s[4], SectionBreak);
  }
}
