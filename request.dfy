/**
 * The remote data client (src/request.ts): the request URL, and the two
 * ingestion pipelines that filter and tag what the API returns. The HTTP
 * fetch and JSON decoding are not modelled: their outcome is an input.
 */
module Request {
  import opened Wrappers
  import opened Types
  import Strings
  import Output

  const BaseUrl := "https://capi.pinadmin.com/"

  datatype Path = DecidersPath | ExperimentsPath
  {
    function Name(): string {
      if DecidersPath? then "deciders" else "experiments"
    }
  }

  /** A query field value before `String(value)`. */
  datatype FieldValue = Number(n: int) | Text(s: string)
  {
    function ToString(): string {
      if Number? then Strings.IntToString(n) else s
    }
  }

  type Params = seq<(string, string)>

  /** A URL: its address without query, and its search parameters in order. */
  datatype Url = Url(href: string, searchParams: Params)

  /** The value of the first parameter named `k` (`searchParams.get`). */
  function Lookup(ps: Params, k: string): (r: Option<string>)
    ensures r.Some? <==> exists i :: 0 <= i < |ps| && ps[i].0 == k
    decreases |ps|
  {
    if ps == [] then None
    else if ps[0].0 == k then Some(ps[0].1)
    else
      var r := Lookup(ps[1..], k);
      assert forall i :: 1 <= i < |ps| ==> ps[i] == ps[1..][i - 1];
      r
  }

  ghost predicate UniqueKeys(ps: Params) {
    forall i, j :: 0 <= i < j < |ps| ==> ps[i].0 != ps[j].0
  }

  /** The parameters other than those named `k`. */
  function Without(ps: Params, k: string): (r: Params)
    ensures forall k' :: Lookup(r, k') == if k' == k then None else Lookup(ps, k')
    ensures UniqueKeys(ps) ==> UniqueKeys(r)
    ensures forall i :: 0 <= i < |r| ==> exists j :: 0 <= j < |ps| && r[i] == ps[j]
    decreases |ps|
  {
    if ps == [] then []
    else if ps[0].0 == k then Without(ps[1..], k)
    else
      var rest := Without(ps[1..], k);
      assert forall i :: 0 <= i < |rest| ==> exists j :: 0 <= j < |ps| && rest[i] == ps[j] by {
        forall i | 0 <= i < |rest| ensures exists j :: 0 <= j < |ps| && rest[i] == ps[j] {
          var j :| 0 <= j < |ps[1..]| && rest[i] == ps[1..][j];
          assert rest[i] == ps[j + 1];
        }
      }
      [ps[0]] + rest
  }

  /** Looking a key up in a list with one more parameter in front. */
  lemma LookupCons(p: (string, string), rest: Params, k: string)
    ensures Lookup([p] + rest, k) == if p.0 == k then Some(p.1) else Lookup(rest, k)
  {
    assert ([p] + rest)[1..] == rest;
  }

  /** A key absent from unique parameters may go in front of them. */
  lemma UniqueCons(p: (string, string), rest: Params)
    requires UniqueKeys(rest) && Lookup(rest, p.0).None?
    ensures UniqueKeys([p] + rest)
  {
    var r := [p] + rest;
    forall i, j | 0 <= i < j < |r| ensures r[i].0 != r[j].0 {
      assert r[j] == rest[j - 1];
      if i > 0 {
        assert r[i] == rest[i - 1];
      }
    }
  }

  /** The tail of unique parameters is unique and lacks the head's key. */
  lemma UniqueTail(ps: Params)
    requires ps != [] && UniqueKeys(ps)
    ensures UniqueKeys(ps[1..]) && Lookup(ps[1..], ps[0].0).None?
  {
    forall i | 0 <= i < |ps[1..]| ensures ps[1..][i].0 != ps[0].0 {
      assert ps[1..][i] == ps[i + 1];
    }
  }

  /** Replaces the first parameter named `k` and drops the later ones. */
  function SetFirst(ps: Params, k: string, v: string): (r: Params)
    requires Lookup(ps, k).Some?
    ensures forall k' :: Lookup(r, k') == if k' == k then Some(v) else Lookup(ps, k')
    ensures UniqueKeys(ps) ==> UniqueKeys(r)
    decreases |ps|
  {
    var rest := if ps[0].0 == k then Without(ps[1..], k) else SetFirst(ps[1..], k, v);
    var r := [if ps[0].0 == k then (k, v) else ps[0]] + rest;
    assert ps == [ps[0]] + ps[1..];
    assert forall k' :: Lookup(r, k') == if k' == k then Some(v) else Lookup(ps, k') by {
      forall k' ensures Lookup(r, k') == if k' == k then Some(v) else Lookup(ps, k') {
        LookupCons(r[0], rest, k');
        LookupCons(ps[0], ps[1..], k');
      }
    }
    assert UniqueKeys(ps) ==> UniqueKeys(r) by {
      if UniqueKeys(ps) {
        UniqueTail(ps);
        UniqueCons(r[0], rest);
      }
    }
    r
  }

  /**
   * `searchParams.set(k, v)`: the first parameter named `k` takes the value
   * `v` and any later ones are removed; without one, the pair is appended.
   */
  function SetParam(ps: Params, k: string, v: string): (r: Params)
    ensures forall k' :: Lookup(r, k') == if k' == k then Some(v) else Lookup(ps, k')
    ensures UniqueKeys(ps) ==> UniqueKeys(r)
  {
    if Lookup(ps, k).Some? then SetFirst(ps, k, v)
    else
      assert forall k' :: Lookup(ps + [(k, v)], k') == if k' == k then Some(v) else Lookup(ps, k') by {
        forall k' ensures Lookup(ps + [(k, v)], k') == if k' == k then Some(v) else Lookup(ps, k') {
          LookupAppend(ps, (k, v), k');
        }
      }
      ps + [(k, v)]
  }

  lemma {:induction false} LookupAppend(ps: Params, p: (string, string), k: string)
    ensures Lookup(ps + [p], k) == if Lookup(ps, k).Some? then Lookup(ps, k) else if p.0 == k then Some(p.1) else None
    decreases |ps|
  {
    if ps != [] {
      assert (ps + [p])[1..] == ps[1..] + [p];
      LookupAppend(ps[1..], p, k);
    }
  }

  /** The value the last field named `k` gives. */
  function LastValue(fields: seq<(string, FieldValue)>, k: string): (r: Option<string>)
    ensures r.Some? <==> exists i :: 0 <= i < |fields| && fields[i].0 == k
    decreases |fields|
  {
    if fields == [] then None
    else
      var last := fields[|fields| - 1];
      if last.0 == k then Some(last.1.ToString())
      else
        var r := LastValue(fields[..|fields| - 1], k);
        assert forall i :: 0 <= i < |fields| - 1 ==> fields[i] == fields[..|fields| - 1][i];
        r
  }

  /**
   * The URL `get` requests: `api/<path>` under the base address, with each
   * field set as a query parameter, a later field of the same name
   * overwriting an earlier one.
   */
  method BuildUrl(path: Path, fields: Option<seq<(string, FieldValue)>>) returns (url: Url)
    ensures url.href == BaseUrl + "api/" + path.Name()
    ensures fields.None? ==> url.searchParams == []
    ensures forall k :: Lookup(url.searchParams, k) == if fields.None? then None else LastValue(fields.value, k)
    ensures UniqueKeys(url.searchParams)
  {
    var params: Params := [];
    if fields.Some? {
      var entries := fields.value;
      for i := 0 to |entries|
        invariant forall k :: Lookup(params, k) == LastValue(entries[..i], k)
        invariant UniqueKeys(params)
      {
        assert entries[..i + 1][..i] == entries[..i];
        params := SetParam(params, entries[i].0, entries[i].1.ToString());
      }
      assert entries[..|entries|] == entries;
    }
    url := Url(BaseUrl + "api/" + path.Name(), params);
  }

  /**
   * `url.toString()`: the address, then a query after "?" exactly when there
   * are search parameters; percent-encoding of the query is not modelled.
   */
  function Serialize(url: Url): (r: string)
    ensures Strings.StartsWith(r, url.href)
    ensures r == url.href <==> url.searchParams == []
    ensures url.searchParams != [] ==> |r| > |url.href| && r[|url.href|] == '?'
  {
    var query := if url.searchParams == [] then "" else
      "?" + Strings.Join(seq(|url.searchParams|, i requires 0 <= i < |url.searchParams| =>
        url.searchParams[i].0 + "=" + url.searchParams[i].1), "&");
    Strings.PrefixOfConcat(url.href, query);
    url.href + query
  }

  function RequestLine(url: Url): string {
    "Request data from " + Serialize(url)
  }

  /** The part of `get` before the fetch: build the URL and log it. */
  method Get(path: Path, fields: Option<seq<(string, FieldValue)>>, log: Output.Log) returns (url: Url)
    modifies log
    ensures url.href == BaseUrl + "api/" + path.Name()
    ensures forall k :: Lookup(url.searchParams, k) == if fields.None? then None else LastValue(fields.value, k)
    ensures fields.None? ==> url.searchParams == []
    ensures log.lines == old(log.lines) + [RequestLine(url)]
  {
    url := BuildUrl(path, fields);
    log.Append(RequestLine(url));
  }

  /** A decider worth offering: its `currentValue` is present and not -1. */
  function Live(d: Decider): (r: bool)
    ensures d.currentValue.None? ==> !r
    ensures d.currentValue == Some(-1) ==> !r
    ensures d.currentValue.Some? && d.currentValue.value != -1 ==> r
  {
    d.currentValue.Some? && d.currentValue.value != -1
  }

  /** The decider pipeline: keep the live deciders, in order, tagged. */
  function TagDeciders(data: seq<Decider>): (r: seq<Item>)
    ensures |r| <= |data|
    ensures forall i :: 0 <= i < |r| ==> r[i].DeciderItem? && Live(r[i].decider) && r[i].decider in data
    decreases |data|
  {
    if data == [] then []
    else (if Live(data[0]) then [DeciderItem(data[0])] else []) + TagDeciders(data[1..])
  }

  /** The experiment pipeline: tag every experiment. */
  function TagExperiments(data: seq<Experiment>): (r: seq<Item>)
    ensures |r| == |data|
    ensures forall i :: 0 <= i < |r| ==> r[i].ExperimentItem?
  {
    seq(|data|, i requires 0 <= i < |data| => ExperimentItem(data[i]))
  }

  /** The experiments inside tagged items, in order. */
  function ExperimentsOf(items: seq<Item>): seq<Experiment>
    decreases |items|
  {
    if items == [] then []
    else (if items[0].ExperimentItem? then [items[0].experiment] else []) + ExperimentsOf(items[1..])
  }

  /** The deciders inside tagged items, in order. */
  function DecidersOf(items: seq<Item>): seq<Decider>
    decreases |items|
  {
    if items == [] then []
    else (if items[0].DeciderItem? then [items[0].decider] else []) + DecidersOf(items[1..])
  }

  /** The deciders of a sequence, in order, that satisfy `Live`. */
  function LiveOnly(data: seq<Decider>): seq<Decider>
    decreases |data|
  {
    if data == [] then [] else (if Live(data[0]) then [data[0]] else []) + LiveOnly(data[1..])
  }

  /** Untagging the experiment pipeline's output gives back its input. */
  lemma {:induction false} ExperimentsRoundTrip(data: seq<Experiment>)
    ensures ExperimentsOf(TagExperiments(data)) == data
    decreases |data|
  {
    if data != [] {
      assert TagExperiments(data) == [ExperimentItem(data[0])] + TagExperiments(data[1..]);
      ExperimentsRoundTrip(data[1..]);
    }
  }

  /**
   * Untagging the decider pipeline's output gives exactly the live inputs in
   * their original order: only the filter removes anything, no field changes.
   */
  lemma {:induction false} DecidersRoundTrip(data: seq<Decider>)
    ensures DecidersOf(TagDeciders(data)) == LiveOnly(data)
    decreases |data|
  {
    if data != [] {
      var head := if Live(data[0]) then [DeciderItem(data[0])] else [];
      assert (head + TagDeciders(data[1..]))[..|head|] == head;
      DecidersOfAppend(head, TagDeciders(data[1..]));
      DecidersRoundTrip(data[1..]);
    }
  }

  lemma {:induction false} DecidersOfAppend(a: seq<Item>, b: seq<Item>)
    ensures DecidersOf(a + b) == DecidersOf(a) + DecidersOf(b)
    decreases |a|
  {
    if a != [] {
      assert (a + b)[0] == a[0];
      assert (a + b)[1..] == a[1..] + b;
      DecidersOfAppend(a[1..], b);
    } else {
      assert a + b == b;
    }
  }

  /** The decider pipeline keeps order: it distributes over concatenation. */
  lemma {:induction false} TagDecidersAppend(a: seq<Decider>, b: seq<Decider>)
    ensures TagDeciders(a + b) == TagDeciders(a) + TagDeciders(b)
    decreases |a|
  {
    if a != [] {
      TagDecidersAppend(a[1..], b);
      ConcatHead(a, b);
      var head := if Live(a[0]) then [DeciderItem(a[0])] else [];
      assert TagDeciders(a + b) == head + TagDeciders(a[1..] + b);
      Strings.ConcatAssoc(head, TagDeciders(a[1..]), TagDeciders(b));
    } else {
      assert a + b == b;
    }
  }

  /** Helper: the head and tail of a concatenation with a non-empty front. */
  lemma ConcatHead<T>(a: seq<T>, b: seq<T>)
    requires a != []
    ensures (a + b)[0] == a[0] && (a + b)[1..] == a[1..] + b
  {
  }

  /**
   * Nothing is deduplicated: each decider appears in the output as many
   * times as in the input when it is live, and not at all otherwise.
   */
  lemma {:induction false} TagDecidersCount(data: seq<Decider>, d: Decider)
    ensures multiset(TagDeciders(data))[DeciderItem(d)] == if Live(d) then multiset(data)[d] else 0
    decreases |data|
  {
    if data != [] {
      TagDecidersCount(data[1..], d);
      TagStep(data, d);
      CountHead(data, d);
    }
  }

  /** How often `y` occurs in a non-empty list, split at its head. */
  lemma CountHead<T>(s: seq<T>, y: T)
    requires s != []
    ensures multiset(s)[y] == (if s[0] == y then 1 else 0) + multiset(s[1..])[y]
  {
    assert s == [s[0]] + s[1..];
    CountCons(s[0], s[1..], y);
  }

  /** The head of the input adds at most one tagged copy of itself. */
  lemma TagStep(data: seq<Decider>, d: Decider)
    requires data != []
    ensures multiset(TagDeciders(data))[DeciderItem(d)]
      == (if Live(data[0]) && data[0] == d then 1 else 0) + multiset(TagDeciders(data[1..]))[DeciderItem(d)]
  {
    if Live(data[0]) {
      CountCons(DeciderItem(data[0]), TagDeciders(data[1..]), DeciderItem(d));
    } else {
      assert TagDeciders(data) == [] + TagDeciders(data[1..]);
    }
  }

  /** How often `y` occurs in a list with head `x`. */
  lemma CountCons<T>(x: T, rest: seq<T>, y: T)
    ensures multiset([x] + rest)[y] == (if x == y then 1 else 0) + multiset(rest)[y]
  {
    assert multiset([x] + rest) == multiset([x]) + multiset(rest);
  }

  /** The ingestion example: a launched flag is kept, an unlaunched one dropped. */
  lemma FilterExample(a: Decider, b: Decider)
    requires a.key == "growth_feature_a" && a.currentValue == Some(50)
    requires b.key == "growth_feature_b" && b.currentValue == Some(-1)
    ensures TagDeciders([a, b]) == [DeciderItem(a)]
    ensures TagDeciders([a, b])[0].Type() == "decider"
  {
    assert [a, b][1..] == [b];
    assert [b][1..] == [];
  }

  /** `deciders()`: request, then the decider pipeline over the fetched data. */
  method FetchDeciders(log: Output.Log, response: Result<seq<Decider>, FetchError>)
    returns (r: Result<seq<Item>, FetchError>)
    modifies log
    ensures log.lines == old(log.lines) + [RequestLine(Url(BaseUrl + "api/deciders", []))]
    ensures r == match response
                 case Success(data) => Success(TagDeciders(data))
                 case Failure(e) => Failure(e)
  {
    var url := Get(DecidersPath, None, log);
    assert url == Url(BaseUrl + "api/deciders", []);
    r := match response
         case Success(data) => Success(TagDeciders(data))
         case Failure(e) => Failure(e);
  }

  /** `experiments()`: request, then the experiment pipeline over the fetched data. */
  method FetchExperiments(log: Output.Log, response: Result<seq<Experiment>, FetchError>)
    returns (r: Result<seq<Item>, FetchError>)
    modifies log
    ensures log.lines == old(log.lines) + [RequestLine(Url(BaseUrl + "api/experiments", []))]
    ensures r == match response
                 case Success(data) => Success(TagExperiments(data))
                 case Failure(e) => Failure(e)
  {
    var url := Get(ExperimentsPath, None, log);
    assert url == Url(BaseUrl + "api/experiments", []);
    r := match response
         case Success(data) => Success(TagExperiments(data))
         case Failure(e) => Failure(e);
  }
}
