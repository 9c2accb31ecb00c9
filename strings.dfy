/**
 * The JavaScript string operations the extension relies on, over `seq<char>`:
 * `split` on one character and `join`, `includes`, ASCII `toLowerCase`, `trim`,
 * the global replacement of a backslash escape, `String(number)`, and the
 * `[...].filter(Boolean)` idiom over lines.
 */
module Strings {
  import opened Wrappers

  predicate StartsWith(s: string, prefix: string) {
    |prefix| <= |s| && s[..|prefix|] == prefix
  }

  predicate EndsWith(s: string, suffix: string) {
    |suffix| <= |s| && s[|s| - |suffix|..] == suffix
  }

  /** `sub` occurs in `s` starting at index `i`. */
  predicate OccursAt(s: string, sub: string, i: int) {
    0 <= i && i + |sub| <= |s| && s[i..i + |sub|] == sub
  }

  /** `s.includes(sub)`. */
  function Includes(s: string, sub: string): bool
    decreases |s|
  {
    if |sub| > |s| then false
    else if StartsWith(s, sub) then true
    else Includes(s[1..], sub)
  }

  /** `includes` holds exactly when `sub` occurs somewhere in `s`. */
  lemma {:induction false} IncludesMeans(s: string, sub: string)
    ensures Includes(s, sub) <==> exists i :: OccursAt(s, sub, i)
    decreases |s|
  {
    if |sub| <= |s| {
      if StartsWith(s, sub) {
        assert OccursAt(s, sub, 0);
      } else {
        IncludesMeans(s[1..], sub);
        if Includes(s[1..], sub) {
          var i :| OccursAt(s[1..], sub, i);
          OccursShift(s, sub, i);
        } else {
          forall i ensures !OccursAt(s, sub, i) {
            if i > 0 {
              OccursShift(s, sub, i - 1);
            }
          }
        }
      }
    }
  }

  /** An occurrence in the tail is an occurrence one place further in the whole. */
  lemma OccursShift(s: string, sub: string, i: nat)
    requires s != []
    ensures OccursAt(s[1..], sub, i) <==> OccursAt(s, sub, i + 1)
  {
    if i + 1 + |sub| <= |s| {
      assert s[1..][i..i + |sub|] == s[i + 1..i + 1 + |sub|];
    }
  }

  /** A text lacking one of the characters of `sub` does not include it. */
  lemma MissingCharExcludes(s: string, sub: string, c: char)
    requires c in sub && c !in s
    ensures !Includes(s, sub)
  {
    IncludesMeans(s, sub);
    forall i ensures !OccursAt(s, sub, i) {
      if 0 <= i && i + |sub| <= |s| {
        assert c !in s[i..i + |sub|];
      }
    }
  }

  /** The first position of `c` in `s`, if any. */
  function IndexOf(s: string, c: char): (r: Option<nat>)
    ensures r.Some? ==> r.value < |s| && s[r.value] == c && c !in s[..r.value]
    ensures r.None? ==> c !in s
    decreases |s|
  {
    if s == [] then None
    else if s[0] == c then Some(0)
    else match IndexOf(s[1..], c)
      case None => None
      case Some(i) =>
        assert s[..i + 1] == [s[0]] + s[1..][..i];
        Some(i + 1)
  }

  /** `parts.join(sep)`: the empty list joins to the empty string. */
  function Join(parts: seq<string>, sep: string): string
    decreases |parts|
  {
    if |parts| == 0 then ""
    else if |parts| == 1 then parts[0]
    else parts[0] + sep + Join(parts[1..], sep)
  }

  /**
   * `s.split(sep)` for a one-character separator: at least one part, none of
   * them holds the separator, and joining them back gives `s`.
   */
  function Split(s: string, sep: char): (parts: seq<string>)
    ensures |parts| >= 1
    ensures |parts| == 1 <==> sep !in s
    ensures forall i :: 0 <= i < |parts| ==> sep !in parts[i]
    ensures Join(parts, [sep]) == s
    decreases |s|
  {
    match IndexOf(s, sep)
    case None => [s]
    case Some(i) =>
      var rest := Split(s[i + 1..], sep);
      SplitParts(s, sep, i, rest);
      [s[..i]] + rest
  }

  /** The part before the first separator in front of the parts after it. */
  lemma SplitParts(s: string, sep: char, i: nat, rest: seq<string>)
    requires i < |s| && s[i] == sep && sep !in s[..i]
    requires |rest| >= 1 && Join(rest, [sep]) == s[i + 1..]
    requires forall j :: 0 <= j < |rest| ==> sep !in rest[j]
    ensures var parts := [s[..i]] + rest;
      && |parts| >= 2 && sep in s
      && (forall j :: 0 <= j < |parts| ==> sep !in parts[j])
      && Join(parts, [sep]) == s
  {
    var parts := [s[..i]] + rest;
    JoinCons(s[..i], rest, [sep]);
    Around(s, i);
    forall j | 0 <= j < |parts| ensures sep !in parts[j] {
      if j > 0 {
        assert parts[j] == rest[j - 1];
      }
    }
  }

  /** Helper: a text is what lies before, at and after one of its positions. */
  lemma Around(s: string, i: nat)
    requires i < |s|
    ensures s == s[..i] + [s[i]] + s[i + 1..]
  {
  }

  /** Helper: a list is its head in front of its tail. */
  lemma HeadTail<T>(xs: seq<T>)
    requires xs != []
    ensures [xs[0]] + xs[1..] == xs
  {
  }

  /** Splitting at a first separator after a separator-free head. */
  lemma SplitAt(a: string, sep: char, b: string)
    requires sep !in a
    ensures Split(a + [sep] + b, sep) == [a] + Split(b, sep)
  {
    var s := a + [sep] + b;
    IndexOfAfter(a, sep, b);
    assert s[..|a|] == a;
    assert s[|a| + 1..] == b;
  }

  lemma {:induction false} IndexOfAfter(a: string, c: char, b: string)
    requires c !in a
    ensures IndexOf(a + [c] + b, c) == Some(|a|)
    decreases |a|
  {
    var s := a + [c] + b;
    if a != [] {
      assert s[0] == a[0] && a[0] in a;
      assert s[1..] == a[1..] + [c] + b;
      IndexOfAfter(a[1..], c, b);
    }
  }

  /** Joining two non-empty lists joins their joins. */
  lemma {:induction false} JoinAppend(p: seq<string>, q: seq<string>, sep: string)
    requires |p| >= 1 && |q| >= 1
    ensures Join(p + q, sep) == Join(p, sep) + sep + Join(q, sep)
    decreases |p|
  {
    assert (p + q)[0] == p[0];
    assert (p + q)[1..] == p[1..] + q;
    if |p| > 1 {
      JoinAppend(p[1..], q, sep);
    }
  }

  /** Joining a part in front of a non-empty list. */
  lemma JoinCons(x: string, rest: seq<string>, sep: string)
    requires rest != []
    ensures Join([x] + rest, sep) == x + sep + Join(rest, sep)
  {
    assert ([x] + rest)[1..] == rest;
  }

  /** Dropping empty lines from a list with a given head. */
  lemma CompactCons(x: string, rest: seq<string>)
    ensures Compact([x] + rest) == (if x == "" then [] else [x]) + Compact(rest)
  {
    assert ([x] + rest)[1..] == rest;
  }

  /** Joining two lines without the empty ones. */
  lemma JoinPair(x: string, y: string, sep: string)
    ensures Join(Compact([x, y]), sep)
      == if x != "" && y != "" then x + sep + y else if x != "" then x else y
  {
    assert [x, y] == [x] + ([y] + []);
    CompactCons(y, []);
    CompactCons(x, [y] + []);
    if x != "" && y != "" {
      JoinCons(x, [y], sep);
    }
  }

  /** Two optional lines and an absent one, compacted and joined. */
  lemma JoinTwoPresent(x: string, y: string, sep: string)
    ensures Join(Compact([x, y, ""]), sep)
      == if x != "" && y != "" then x + sep + y else if x != "" then x else y
  {
    assert [x, y, ""] == [x] + ([y] + ([""] + []));
    CompactCons("", []);
    CompactCons(y, [""] + []);
    CompactCons(x, [y] + ([""] + []));
    if x != "" && y != "" {
      JoinCons(x, [y], sep);
    }
  }

  /** Helper: a text starts with whatever was put in front of it. */
  lemma PrefixOfConcat(p: string, q: string)
    ensures StartsWith(p + q, p)
  {
    assert (p + q)[..|p|] == p;
  }

  lemma PrefixOfJoined(p: string, sep: string, q: string)
    ensures StartsWith(p + sep + q, p)
  {
    PrefixOfConcat(p, sep + q);
    assert p + sep + q == p + (sep + q);
  }

  /** What starts with `p + q` starts with `p`. */
  lemma PrefixOfPrefix(s: string, p: string, q: string)
    requires StartsWith(s, p + q)
    ensures StartsWith(s, p)
  {
    assert (p + q)[..|p|] == p;
  }

  /** What ends with `p + q` ends with `q`. */
  lemma SuffixOfSuffix(s: string, p: string, q: string)
    requires EndsWith(s, p + q)
    ensures EndsWith(s, q)
  {
    assert (p + q)[|p|..] == q;
  }

  /** Helper: a text built as `p + m + q` starts with `p`, ends with `q` and holds `m` between them. */
  lemma Framed(p: string, m: string, q: string)
    ensures StartsWith(p + m + q, p) && EndsWith(p + m + q, q)
    ensures (p + m + q)[|p|..|p| + |m|] == m
  {
    PrefixOfConcat(p, m + q);
    SuffixOfConcat(p + m, q);
    assert p + (m + q) == p + m + q;
  }

  lemma SuffixOfConcat(p: string, q: string)
    ensures EndsWith(p + q, q)
  {
    assert (p + q)[|p + q| - |q|..] == q;
  }

  /** Splitting undoes joining when no part holds the separator. */
  lemma {:induction false} SplitJoin(parts: seq<string>, sep: char)
    requires |parts| >= 1
    requires forall i :: 0 <= i < |parts| ==> sep !in parts[i]
    ensures Split(Join(parts, [sep]), sep) == parts
    decreases |parts|
  {
    if |parts| == 1 {
      var r := Split(parts[0], sep);
      assert |r| == 1;
    } else {
      SplitAt(parts[0], sep, Join(parts[1..], [sep]));
      SplitJoin(parts[1..], sep);
      HeadTail(parts);
    }
  }

  /** Splitting at a separator splits the two sides independently. */
  lemma SplitAppend(a: string, b: string, c: char)
    ensures Split(a + [c] + b, c) == Split(a, c) + Split(b, c)
  {
    var pa, pb := Split(a, c), Split(b, c);
    var p := pa + pb;
    JoinAppend(pa, pb, [c]);
    assert J: Join(p, [c]) == a + [c] + b;
    assert N: forall i :: 0 <= i < |p| ==> c !in p[i] by {
      forall i | 0 <= i < |p| ensures c !in p[i] {
        if i < |pa| { assert p[i] == pa[i]; } else { assert p[i] == pb[i - |pa|]; }
      }
    }
    SplitJoin(p, c);
  }

  function LowerChar(c: char): char {
    if 'A' <= c <= 'Z' then (c as int + 32) as char else c
  }

  /** ASCII `toLowerCase`. */
  function Lower(s: string): string {
    seq(|s|, i requires 0 <= i < |s| => LowerChar(s[i]))
  }

  /** Text without capitals is already lower case. */
  lemma LowerWithoutCapitals(s: string)
    requires forall i :: 0 <= i < |s| ==> !('A' <= s[i] <= 'Z')
    ensures Lower(s) == s
  {
    assert forall i :: 0 <= i < |s| ==> Lower(s)[i] == s[i];
  }

  /** Lower-casing twice is lower-casing once. */
  lemma LowerIdempotent(s: string)
    ensures Lower(Lower(s)) == Lower(s)
  {
    var l := Lower(s);
    assert forall i :: 0 <= i < |l| ==> l[i] == LowerChar(s[i]);
    LowerWithoutCapitals(l);
  }

  /** The characters `trim` removes: white space and line terminators. */
  predicate IsSpace(c: char) {
    c == ' ' || c == '\t' || c == '\n' || c == '\r' || c == '\U{B}' || c == '\U{C}'
    || c == '\U{A0}' || c == '\U{1680}' || '\U{2000}' <= c <= '\U{200A}'
    || c == '\U{2028}' || c == '\U{2029}' || c == '\U{202F}' || c == '\U{205F}'
    || c == '\U{3000}' || c == '\U{FEFF}'
  }

  /** `s` with its leading white space removed. */
  function TrimStart(s: string): (r: string)
    ensures |r| <= |s| && r == s[|s| - |r|..]
    ensures forall i :: 0 <= i < |s| - |r| ==> IsSpace(s[i])
    ensures r == [] || !IsSpace(r[0])
    decreases |s|
  {
    if s != [] && IsSpace(s[0]) then
      var r := TrimStart(s[1..]);
      assert s[1..][|s| - 1 - |r|..] == s[|s| - |r|..];
      assert forall i :: 1 <= i < |s| - |r| ==> s[i] == s[1..][i - 1];
      r
    else s
  }

  /** `s` with its trailing white space removed. */
  function TrimEnd(s: string): (r: string)
    ensures |r| <= |s| && r == s[..|r|]
    ensures forall i :: |r| <= i < |s| ==> IsSpace(s[i])
    ensures r == [] || !IsSpace(r[|r| - 1])
    decreases |s|
  {
    if s != [] && IsSpace(s[|s| - 1]) then
      var r := TrimEnd(s[..|s| - 1]);
      assert s[..|s| - 1][..|r|] == s[..|r|];
      assert forall i :: |r| <= i < |s| - 1 ==> s[i] == s[..|s| - 1][i];
      r
    else s
  }

  /** Neither end of `s` is white space. */
  predicate Trimmed(s: string) {
    s == [] || (!IsSpace(s[0]) && !IsSpace(s[|s| - 1]))
  }

  /** `r` is the slice of `s` at `i` with nothing but white space around it. */
  predicate TrimmedAt(s: string, r: string, i: int) {
    0 <= i <= |s| - |r| && r == s[i..i + |r|]
    && (forall k :: 0 <= k < i ==> IsSpace(s[k]))
    && (forall k :: i + |r| <= k < |s| ==> IsSpace(s[k]))
  }

  /**
   * `s.trim()`: the slice of `s` left after dropping white space at both
   * ends; text already without surrounding white space is unchanged.
   */
  function Trim(s: string): (r: string)
    ensures Trimmed(r)
    ensures exists i :: TrimmedAt(s, r, i)
    ensures Trimmed(s) ==> r == s
  {
    TrimBothEnds(s);
    TrimBothEndsTrimmed(s);
    TrimmedUnchanged(s);
    TrimEnd(TrimStart(s))
  }

  /** White space in front makes no difference to the trimmed text. */
  lemma TrimLeadingSpace(c: char, s: string)
    requires IsSpace(c)
    ensures Trim([c] + s) == Trim(s)
  {
    assert ([c] + s)[1..] == s;
  }

  /** Trimming the start and then the end keeps a slice of `s` between spaces. */
  lemma TrimBothEnds(s: string)
    ensures TrimmedAt(s, TrimEnd(TrimStart(s)), |s| - |TrimStart(s)|)
  {
    var t := TrimStart(s);
    TrimmedAtOf(s, t, TrimEnd(t), |s| - |t|);
  }

  /** A prefix `r` of the suffix `t` of `s`, with only spaces around it, sits at `i` between spaces. */
  lemma TrimmedAtOf(s: string, t: string, r: string, i: nat)
    requires i <= |s| && t == s[i..] && |r| <= |t| && r == t[..|r|]
    requires forall k :: 0 <= k < i ==> IsSpace(s[k])
    requires forall k :: |r| <= k < |t| ==> IsSpace(t[k])
    ensures TrimmedAt(s, r, i)
  {
    SliceOfSuffix(s, i, |r|);
    TrailingSpaces(s, t, r, i);
  }

  /** Neither end of the doubly trimmed text is a space. */
  lemma TrimBothEndsTrimmed(s: string)
    ensures Trimmed(TrimEnd(TrimStart(s)))
  {
    var t := TrimStart(s);
    var r := TrimEnd(t);
    if r != [] {
      assert r[0] == t[0];
    }
  }

  /** Taking `j` characters of the suffix from `i` is the slice from `i` to `i + j`. */
  lemma SliceOfSuffix(s: string, i: nat, j: nat)
    requires i + j <= |s|
    ensures s[i..][..j] == s[i..i + j]
  {
  }

  /** The spaces `TrimEnd` drops from a suffix of `s` are spaces of `s`. */
  lemma TrailingSpaces(s: string, t: string, r: string, i: nat)
    requires i <= |s| && t == s[i..] && |r| <= |t|
    requires forall k :: |r| <= k < |t| ==> IsSpace(t[k])
    ensures forall k :: i + |r| <= k < |s| ==> IsSpace(s[k])
  {
    forall k | i + |r| <= k < |s|
      ensures IsSpace(s[k])
    {
      assert s[k] == t[k - i];
    }
  }

  /** Text without surrounding spaces is left as it is by both trims. */
  lemma TrimmedUnchanged(s: string)
    ensures Trimmed(s) ==> TrimEnd(TrimStart(s)) == s
  {
    if s != [] && Trimmed(s) {
      var t := TrimStart(s);
      assert |t| == |s|;
      assert t == s;
      var r := TrimEnd(s);
      assert |r| == |s|;
    }
  }

  /** A backslash followed by `e` starts at index `i`. */
  predicate EscapeAt(s: string, e: char, i: int) {
    0 <= i < |s| - 1 && s[i] == '\\' && s[i + 1] == e
  }

  ghost predicate HasEscape(s: string, e: char) {
    exists i :: EscapeAt(s, e, i)
  }

  /**
   * `s.replace(/\\e/g, " ")`: every two-character sequence backslash, `e`,
   * found left to right, becomes one space.
   */
  function Unescape(s: string, e: char): (t: string)
    requires e != '\\' && e != ' '
    ensures !HasEscape(t, e)
    ensures !HasEscape(s, e) ==> t == s
    ensures s == [] <==> t == []
    ensures s != [] ==> t[0] == (if EscapeAt(s, e, 0) then ' ' else s[0])
    decreases |s|
  {
    if s == [] then []
    else if EscapeAt(s, e, 0) then
      var u := Unescape(s[2..], e);
      assert forall i :: EscapeAt([' '] + u, e, i) ==> i >= 1 && EscapeAt(u, e, i - 1);
      [' '] + u
    else
      var u := Unescape(s[1..], e);
      assert !HasEscape(s, e) ==> !HasEscape(s[1..], e) by {
        assert forall i :: EscapeAt(s[1..], e, i) ==> EscapeAt(s, e, i + 1);
      }
      assert forall i :: EscapeAt([s[0]] + u, e, i) ==> i >= 1 && EscapeAt(u, e, i - 1);
      [s[0]] + u
  }

  /** Text without a backslash holds no escape. */
  lemma NoBackslashNoEscape(s: string, e: char)
    requires '\\' !in s
    ensures !HasEscape(s, e)
  {
    assert forall i :: 0 <= i < |s| ==> s[i] != '\\';
  }

  /** Replacing one escape never creates another kind of escape. */
  lemma {:induction false} UnescapeKeeps(s: string, e: char, f: char)
    requires e != '\\' && e != ' ' && f != '\\' && f != ' '
    requires !HasEscape(s, f)
    ensures !HasEscape(Unescape(s, e), f)
    decreases |s|
  {
    if s != [] {
      var t := Unescape(s, e);
      if EscapeAt(s, e, 0) {
        assert forall i :: EscapeAt(s[2..], f, i) ==> EscapeAt(s, f, i + 2);
        UnescapeKeeps(s[2..], e, f);
        var u := Unescape(s[2..], e);
        assert t == [' '] + u;
        assert forall i :: EscapeAt(t, f, i) ==> i >= 1 && EscapeAt(u, f, i - 1);
      } else {
        assert forall i :: EscapeAt(s[1..], f, i) ==> EscapeAt(s, f, i + 1);
        UnescapeKeeps(s[1..], e, f);
        var u := Unescape(s[1..], e);
        assert t == [s[0]] + u;
        assert !EscapeAt(s, f, 0);
        assert !EscapeAt(t, f, 0);
        assert forall i :: EscapeAt(t, f, i) ==> i >= 1 && EscapeAt(u, f, i - 1);
      }
    }
  }

  /**
   * Unescaping distributes over a concatenation unless a backslash ending
   * the first part and `e` opening the second would form an escape together.
   */
  lemma {:induction false} UnescapeAppend(a: string, b: string, e: char)
    requires e != '\\' && e != ' '
    requires !(a != [] && a[|a| - 1] == '\\' && b != [] && b[0] == e)
    ensures Unescape(a + b, e) == Unescape(a, e) + Unescape(b, e)
    decreases |a|
  {
    if a == [] {
      assert a + b == b;
    } else if EscapeAt(a, e, 0) {
      assert EscapeAt(a + b, e, 0);
      assert (a + b)[2..] == a[2..] + b;
      UnescapeAppend(a[2..], b, e);
      ConcatAssoc([' '], Unescape(a[2..], e), Unescape(b, e));
    } else {
      assert !EscapeAt(a + b, e, 0);
      assert (a + b)[1..] == a[1..] + b;
      UnescapeAppend(a[1..], b, e);
      ConcatAssoc([a[0]], Unescape(a[1..], e), Unescape(b, e));
    }
  }

  /** An escape between two texts becomes one space between their unescaped forms. */
  lemma UnescapeEscape(a: string, b: string, e: char)
    requires e != '\\' && e != ' '
    ensures Unescape(a + ['\\', e] + b, e) == Unescape(a, e) + " " + Unescape(b, e)
  {
    var m := ['\\', e] + b;
    UnescapeAppend(a, m, e);
    assert m[2..] == b;
    assert a + ['\\', e] + b == a + m;
  }

  /** `lines.filter(Boolean)` where a missing line is the empty string. */
  function Compact(lines: seq<string>): (r: seq<string>)
    ensures forall i :: 0 <= i < |r| ==> r[i] != ""
    decreases |lines|
  {
    if lines == [] then []
    else (if lines[0] == "" then [] else [lines[0]]) + Compact(lines[1..])
  }

  function DigitChar(d: nat): char
    requires d < 10
  {
    "0123456789"[d]
  }

  /** The number a string of decimal digits denotes. */
  function DigitsValue(s: string): nat
    decreases |s|
  {
    if s == [] then 0
    else
      var d := s[|s| - 1] as int - '0' as int;
      DigitsValue(s[..|s| - 1]) * 10 + (if 0 <= d then d else 0)
  }

  /** Decimal digits without a superfluous leading zero. */
  predicate Canonical(s: string) {
    |s| >= 1 && (forall i :: 0 <= i < |s| ==> '0' <= s[i] <= '9') && (s[0] == '0' ==> |s| == 1)
  }

  /** `String(n)` for a natural number: the canonical digits that denote `n`. */
  function NatToString(n: nat): (r: string)
    ensures Canonical(r)
    ensures DigitsValue(r) == n
    decreases n
  {
    DigitCharValue(n % 10);
    if n < 10 then [DigitChar(n)]
    else
      var p := NatToString(n / 10);
      var r := p + [DigitChar(n % 10)];
      DigitsAppend(p, DigitChar(n % 10));
      assert p[0] == '0' ==> p == ['0'];
      r
  }

  /** A canonical digit string whose first digit is not zero denotes a positive number. */
  lemma {:induction false} LeadingDigitPositive(s: string)
    requires |s| >= 1 && (forall i :: 0 <= i < |s| ==> '0' <= s[i] <= '9') && s[0] != '0'
    ensures DigitsValue(s) >= 1
    decreases |s|
  {
    if |s| > 1 {
      var p := s[..|s| - 1];
      assert p[0] == s[0];
      LeadingDigitPositive(p);
    }
  }

  /** Every canonical digit string is what `NatToString` gives for its value. */
  lemma {:induction false} NatToStringOfDigits(s: string)
    requires Canonical(s)
    ensures NatToString(DigitsValue(s)) == s
    decreases |s|
  {
    if |s| == 1 {
      OneDigit(s);
    } else {
      var p := s[..|s| - 1];
      CanonicalPrefix(s);
      NatToStringOfDigits(p);
      AppendDigit(s);
    }
  }

  /** A single digit is written as itself. */
  lemma OneDigit(s: string)
    requires Canonical(s) && |s| == 1
    ensures NatToString(DigitsValue(s)) == s
  {
    var c := s[0];
    CharOfDigit(c);
    assert s[..0] == [];
    assert DigitsValue(s) == c as int - '0' as int;
  }

  /** Dropping the last digit of a canonical string of two or more digits keeps it canonical. */
  lemma CanonicalPrefix(s: string)
    requires Canonical(s) && |s| > 1
    ensures Canonical(s[..|s| - 1]) && s[..|s| - 1][0] != '0'
  {
    assert s[..|s| - 1][0] == s[0];
  }

  /** Writing the value of a canonical string adds its last digit to what its prefix is written as. */
  lemma AppendDigit(s: string)
    requires Canonical(s) && |s| > 1
    requires NatToString(DigitsValue(s[..|s| - 1])) == s[..|s| - 1]
    ensures NatToString(DigitsValue(s)) == s
  {
    var p, c := s[..|s| - 1], s[|s| - 1];
    var d := c as int - '0' as int;
    assert Canonical(p) && p[0] != '0' by {
      CanonicalPrefix(s);
    }
    LeadingDigitPositive(p);
    var v := DigitsValue(p);
    var n := DigitsValue(s);
    assert n == v * 10 + d;
    LastSplit(s);
    assert n >= 10 && n / 10 == v && n % 10 == d by {
      DivModTen(v, d);
    }
    assert NatToString(n / 10) == p;
    assert DigitChar(n % 10) == c by {
      CharOfDigit(c);
    }
    NatToStringStep(n);
  }

  /** Helper: concatenation is associative. */
  lemma ConcatAssoc<T>(x: seq<T>, y: seq<T>, z: seq<T>)
    ensures x + (y + z) == (x + y) + z
  {
  }

  /** A non-empty string is its prefix followed by its last character. */
  lemma LastSplit(s: string)
    requires s != []
    ensures s == s[..|s| - 1] + [s[|s| - 1]]
  {
  }

  /** Above nine, `NatToString` writes the tens and then the last digit. */
  lemma NatToStringStep(n: nat)
    requires n >= 10
    ensures NatToString(n) == NatToString(n / 10) + [DigitChar(n % 10)]
  {
  }

  /** Dividing `10 * v + d` by ten gives back `v` and the digit `d`. */
  lemma DivModTen(v: nat, d: nat)
    requires d < 10
    ensures (v * 10 + d) / 10 == v && (v * 10 + d) % 10 == d
  {
  }

  /** A decimal digit character is the character of its own value. */
  lemma CharOfDigit(c: char)
    requires '0' <= c <= '9'
    ensures DigitChar(c as int - '0' as int) == c
  {
  }

  lemma DigitCharValue(d: nat)
    requires d < 10
    ensures '0' <= DigitChar(d) <= '9' && DigitChar(d) as int - '0' as int == d
  {
  }

  /** One more digit multiplies the value by ten and adds the digit. */
  lemma DigitsAppend(s: string, c: char)
    requires '0' <= c <= '9'
    ensures DigitsValue(s + [c]) == DigitsValue(s) * 10 + (c as int - '0' as int)
  {
    assert (s + [c])[..|s + [c]| - 1] == s;
  }

  /** `String(i)` for an integer: a minus sign exactly for a negative `i`, then canonical digits. */
  function IntToString(i: int): (r: string)
    ensures i < 0 <==> StartsWith(r, "-")
    ensures Canonical(if i < 0 then r[1..] else r)
    ensures DigitsValue(if i < 0 then r[1..] else r) == if i < 0 then -i else i
  {
    if i < 0 then
      var r := "-" + NatToString(-i);
      assert r[1..] == NatToString(-i);
      r
    else
      var r := NatToString(i);
      assert r[0] != '-';
      r
  }

  lemma FiftyDigits()
    ensures IntToString(50) == "50"
  {
    assert NatToString(5) == ['5'];
    assert NatToString(50) == NatToString(5) + [DigitChar(0)];
  }
}
