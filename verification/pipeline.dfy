/** The geoparsing pipeline (GeoLlama in geo_llama/main.py): extract the
    toponyms of a text with the toponym model, look each one up in the
    gazetteer, and let the RAG model pick a location among the matches.

    The language models are oracles: `generate` maps a prompt batch to the
    decoded output batch (tokenizer, generation and batch_decode together).
    json.loads, the printing of the match list into the prompt, the clock
    and the HTTP backend are the inputs of `Library`. */
module Pipeline {
  import opened PyValues
  import opened PyStrings
  import PyLists
  import Prompt
  import TopoModel
  import RagModel
  import Gazetteer

  /** A loaded model: its templates, its response and end-of-sequence
      markers, and the generation oracle. */
  datatype LanguageModel = LanguageModel(
    template: string,
    instruction: string,
    inputTemplate: Option<string>,
    responseToken: string,
    eos: string,
    generate: seq<string> -> seq<string>)

  /** The library calls the pipeline makes. `clock(k)` is the ISO time
      printed by datetime.now() at the k-th gazetteer lookup. */
  datatype Library = Library(
    loads: string -> Option<Json>,
    printMatches: seq<Json> -> string,
    clock: nat -> string,
    fetch: string -> Option<Json>,
    quote: string -> string)

  /** One step of the pipeline: the toponym extraction, a gazetteer lookup
      or a RAG call for one toponym. */
  datatype Step = Extract | Lookup(toponym: string) | Locate(toponym: string)

  /** What geoparse returns, the gazetteer after it, the steps it took and
      the URLs it requested. */
  datatype Run = Run(result: Result<seq<Json>>, gazetteer: Gazetteer.State, steps: seq<Step>, requests: seq<string>)

  /** The reply slicing of get_output on the model's answer to a prompt batch. */
  function Reply(m: LanguageModel, batch: seq<string>): Result<string> {
    Prompt.GetResponse(m.generate(batch), m.responseToken, m.eos)
  }

  // ---------------------------------------------------------------------
  // get_toponyms

  /** get_toponyms: prompt the toponym model with the text and validate its
      answer against that same text, so every toponym returned occurs in
      the text whatever the model answered. */
  function GetToponyms(topo: LanguageModel, text: string, lib: Library): (r: Result<seq<string>>)
    ensures r.Ok? ==> forall k :: 0 <= k < |r.value| ==> Contains(text, r.value[k])
    ensures r.Ok? ==> PyLists.Distinct(r.value)
  {
    var prompt :- Prompt.ToponymPrompt(topo.template, topo.instruction, text);
    var response :- Reply(topo, prompt);
    TopoModel.CleanResponse(response, text, lib.loads)
  }

  // ---------------------------------------------------------------------
  // get_matches

  /** The user agent of a lookup: never empty, so a Nominatim lookup never
      fails for want of one. */
  function UserAgent(now: string): (r: Option<string>)
    ensures Given(r)
  {
    Some("GeoLLama_req_" + now)
  }

  /** One candidate as get_matches builds it from a gazetteer record. */
  function Remap(m: Json): (r: Result<Json>)
    ensures r.Ok? <==> m.JObj? && {"name", "lat", "lon", "display_name"} <= m.fields.Keys
    ensures r.Ok? ==> r.value.JObj? && r.value.fields.Keys == {"name", "lat", "lon", "address"}
    ensures r.Ok? ==> r.value.fields["address"] == m.fields["display_name"]
    ensures r.Ok? ==> forall key :: key in {"name", "lat", "lon"} ==> r.value.fields[key] == m.fields[key]
  {
    var name :- Get(m, "name");
    var lat :- Get(m, "lat");
    var lon :- Get(m, "lon");
    var address :- Get(m, "display_name");
    Ok(JObj(map["name" := name, "lat" := lat, "lon" := lon, "address" := address]))
  }

  function RemapItems(items: seq<Json>): (r: Result<seq<Json>>)
    ensures r.Ok? <==> forall k :: 0 <= k < |items| ==> Remap(items[k]).Ok?
    ensures r.Ok? ==> |r.value| == |items| && forall k :: 0 <= k < |items| ==> r.value[k] == Remap(items[k]).value
    decreases |items|
  {
    if |items| == 0 then Ok([])
    else
      var head :- Remap(items[0]);
      var rest :- RemapItems(items[1..]);
      assert forall k :: 1 <= k < |items| ==> items[k] == items[1..][k - 1];
      Ok([head] + rest)
  }

  /** The loop of get_matches over whatever the gazetteer answered: a list
      is remapped record by record; iterating a string or a dict yields
      strings, which cannot be indexed by a key; None and numbers cannot be
      iterated. */
  function RemapAll(raw: Json): (r: Result<seq<Json>>)
    ensures raw.JArr? ==> r == RemapItems(raw.items)
    ensures !raw.JArr? && r.Ok? ==> r.value == []
  {
    match raw
    case JArr(items) => RemapItems(items)
    case JStr(s) => if |s| == 0 then Ok([]) else Err(TypeError)
    case JObj(f) => if |f| == 0 then Ok([]) else Err(TypeError)
    case _ => Err(TypeError)
  }

  /** The records the test gazetteer answers with. */
  function TestGazetteerRecords(): seq<Json> {
    [JObj(map["name" := JStr("name_1"), "lat" := JNum(0.0), "lon" := JNum(0.0), "display_name" := JStr("display_name_1")]),
     JObj(map["name" := JStr("name_2"), "lat" := JNum(0.0), "lon" := JNum(0.0), "display_name" := JStr("display_name_2")])]
  }

  /** The test of get_matches: each record comes back with its display
      name under `address`. */
  lemma RemapTestRecords()
    ensures RemapAll(JArr(TestGazetteerRecords())) == Ok([
      JObj(map["name" := JStr("name_1"), "lat" := JNum(0.0), "lon" := JNum(0.0), "address" := JStr("display_name_1")]),
      JObj(map["name" := JStr("name_2"), "lat" := JNum(0.0), "lon" := JNum(0.0), "address" := JStr("display_name_2")])])
  {
    var items := TestGazetteerRecords();
    var e0 := JObj(map["name" := JStr("name_1"), "lat" := JNum(0.0), "lon" := JNum(0.0), "address" := JStr("display_name_1")]);
    var e1 := JObj(map["name" := JStr("name_2"), "lat" := JNum(0.0), "lon" := JNum(0.0), "address" := JStr("display_name_2")]);
    assert Remap(items[0]) == Ok(e0);
    assert Remap(items[1]) == Ok(e1);
    var r := RemapItems(items);
    assert r.Ok?;
    assert r.value == [e0, e1];
  }

  /** A lookup: what get_matches returns, the gazetteer after the query and
      the URLs requested. */
  datatype Lookup = LookupResult(result: Result<seq<Json>>, state: Gazetteer.State, requests: seq<string>)

  /** get_matches at the k-th lookup. The gazetteer answer, cached or
      fetched, is remapped record by record. */
  function GetMatches(g: Gazetteer.State, toponym: string, k: nat, lib: Library): (r: Lookup)
    ensures |r.requests| <= 1
    ensures r.requests == [] ==> r.state == g
    ensures r.result.Ok? ==> forall j :: 0 <= j < |r.result.value| ==>
      r.result.value[j].JObj? && r.result.value[j].fields.Keys == {"name", "lat", "lon", "address"}
    ensures Lower(g.source) == "nominatim" && g.baseUrl.Some? && !Gazetteer.Cached(g, toponym) ==>
      r.requests == [Gazetteer.NominatimUrl(g.baseUrl.value, lib.quote(toponym))]
    ensures var a := Gazetteer.Query(g, toponym, UserAgent(lib.clock(k)), lib.fetch, lib.quote);
      && r.state == a.state && r.requests == a.requests
      && (a.result.Err? ==> r.result == Err(a.result.error))
      && (a.result.Ok? && a.result.value.JArr? ==>
            && (r.result.Ok? <==> forall j :: 0 <= j < |a.result.value.items| ==> Remap(a.result.value.items[j]).Ok?)
            && (r.result.Ok? ==> (|r.result.value| == |a.result.value.items| &&
                  forall j :: 0 <= j < |r.result.value| ==> r.result.value[j] == Remap(a.result.value.items[j]).value)))
      && (a.result.Ok? && !a.result.value.JArr? && r.result.Ok? ==> r.result.value == [])
  {
    var a := Gazetteer.Query(g, toponym, UserAgent(lib.clock(k)), lib.fetch, lib.quote);
    var out := match a.result
      case Err(e) => Err(e)
      case Ok(raw) => RemapAll(raw);
    LookupResult(out, a.state, a.requests)
  }

  // ---------------------------------------------------------------------
  // get_location

  /** The RAG model's reply to the prompt for one toponym. */
  function RagReply(rag: LanguageModel, toponym: string, text: string, matches: seq<Json>, lib: Library): Result<string> {
    var prompt :- Prompt.GeoparsePrompt(rag.template, rag.instruction, rag.inputTemplate, text, toponym, lib.printMatches(matches));
    Reply(rag, prompt)
  }

  /** get_location: prompt the RAG model with the text, the toponym and the
      printed matches, and validate its answer against the matches, so
      RAG_estimated says whether some match is within the tolerance of the
      answer; every other entry is the one the reply parses to. */
  function GetLocation(rag: LanguageModel, toponym: string, text: string, matches: seq<Json>, lib: Library): (r: Result<Json>)
    ensures RagReply(rag, toponym, text, matches, lib).Err? ==> r.Err?
    ensures r.Ok? ==> r.value.JObj? && "RAG_estimated" in r.value.fields
    ensures r.Ok? ==>
      r.value.fields["RAG_estimated"] == JBool(exists k :: 0 <= k < |matches| && RagModel.Within(r.value, matches[k]))
  {
    match RagReply(rag, toponym, text, matches, lib)
    case Err(e) => Err(e)
    case Ok(response) => RagModel.CleanResponse(response, Some(matches), lib.loads)
  }

  /** The located record is the parsed (or repaired) reply of the RAG model:
      every key of the parse other than RAG_estimated keeps its value. */
  lemma GetLocationKeepsReply(rag: LanguageModel, toponym: string, text: string, matches: seq<Json>, lib: Library)
    ensures var r := GetLocation(rag, toponym, text, matches, lib);
      r.Ok? ==>
      && RagReply(rag, toponym, text, matches, lib).Ok?
      && var p := RagModel.ParseReply(RagReply(rag, toponym, text, matches, lib).value, lib.loads);
      && p.Ok? && p.value.JObj? && r.value.JObj?
      && r.value.fields.Keys == p.value.fields.Keys + {"RAG_estimated"}
      && forall key :: key in p.value.fields && key != "RAG_estimated" ==> r.value.fields[key] == p.value.fields[key]
  {
    var reply := RagReply(rag, toponym, text, matches, lib);
    if reply.Ok? {
      RagModel.CleanResponseKeepsParse(reply.value, matches, lib.loads);
    }
  }

  // ---------------------------------------------------------------------
  // geoparse

  /** The steps the pipeline takes for a list of toponyms: a lookup then a
      RAG call for each, in order. */
  function Steps(ts: seq<string>): (r: seq<Step>)
    ensures |r| == 2 * |ts|
    ensures forall st :: st in r ==> !st.Extract? && st.toponym in ts
    decreases |ts|
  {
    if |ts| == 0 then []
    else
      var rest := Steps(ts[1..]);
      assert forall t :: t in ts[1..] ==> t in ts;
      [Lookup(ts[0]), Locate(ts[0])] + rest
  }

  /** The k-th toponym is looked up at step 2k and located at step 2k + 1. */
  lemma {:induction false} StepsAt(ts: seq<string>, k: nat)
    requires k < |ts|
    ensures Steps(ts)[2 * k] == Lookup(ts[k]) && Steps(ts)[2 * k + 1] == Locate(ts[k])
    decreases k
  {
    var rest := Steps(ts[1..]);
    var r := [Lookup(ts[0]), Locate(ts[0])] + rest;
    assert Steps(ts) == r;
    if k > 0 {
      var j := 2 * (k - 1);
      StepsAt(ts[1..], k - 1);
      assert ts[1..][k - 1] == ts[k];
      assert 2 * k == j + 2;
      assert r[j + 2] == rest[j] && r[j + 3] == rest[j + 1];
    }
  }

  /** An entry of geoparse's output: a record carrying the RAG model's
      verdict. */
  predicate Located(v: Json) {
    v.JObj? && "RAG_estimated" in v.fields && v.fields["RAG_estimated"].JBool?
  }

  /** Every entry of an output carries the RAG model's verdict. */
  predicate AllLocated(vs: seq<Json>) {
    forall j :: 0 <= j < |vs| ==> Located(vs[j])
  }

  lemma AllLocatedConcat(a: seq<Json>, b: seq<Json>)
    requires AllLocated(a) && AllLocated(b)
    ensures AllLocated(a + b)
  {
    assert forall j :: |a| <= j < |a + b| ==> (a + b)[j] == b[j - |a|];
  }

  /** One iteration of geoparse's loop: the lookup, then the RAG call on
      the matches found. */
  function LocateOne(rag: LanguageModel, text: string, t: string, k: nat,
                     g: Gazetteer.State, lib: Library): (r: Run)
    ensures r.steps == [Lookup(t)] || r.steps == [Lookup(t), Locate(t)]
    ensures r.result.Ok? ==> r.steps == [Lookup(t), Locate(t)] && |r.result.value| == 1 && AllLocated(r.result.value)
    ensures |r.requests| <= 1
    ensures var m := GetMatches(g, t, k, lib);
      && r.gazetteer == m.state && r.requests == m.requests
      && (m.result.Err? ==> r.result == Err(m.result.error) && r.steps == [Lookup(t)])
      && (m.result.Ok? ==>
            var loc := GetLocation(rag, t, text, m.result.value, lib);
            && r.steps == [Lookup(t), Locate(t)]
            && (r.result.Ok? <==> loc.Ok?)
            && (loc.Ok? ==> r.result.value == [loc.value])
            && (loc.Err? ==> r.result.error == loc.error))
  {
    var look := GetMatches(g, t, k, lib);
    match look.result
    case Err(e) => Run(Err(e), look.state, [Lookup(t)], look.requests)
    case Ok(matches) =>
      var location := GetLocation(rag, t, text, matches, lib);
      var result := match location
        case Err(e) => Err(e)
        case Ok(v) => Ok([v]);
      Run(result, look.state, [Lookup(t), Locate(t)], look.requests)
  }

  /** The steps for a non-empty list: the first toponym's lookup and RAG
      call, then the rest. */
  lemma StepsHead(ts: seq<string>)
    requires |ts| > 0
    ensures Steps(ts) == [Lookup(ts[0]), Locate(ts[0])] + Steps(ts[1..])
    ensures [Lookup(ts[0])] <= Steps(ts) && [Lookup(ts[0]), Locate(ts[0])] <= Steps(ts)
  {
  }

  /** A common head keeps a prefix a prefix. */
  lemma PrefixAfter(head: seq<Step>, a: seq<Step>, b: seq<Step>)
    requires a <= b
    ensures head + a <= head + b
  {
    assert (head + b)[..|head + a|] == head + a;
  }

  /** The loop of geoparse over the toponyms, from the k-th lookup on. It
      stops at the first step that raises. */
  function LocateAll(rag: LanguageModel, text: string, ts: seq<string>, k: nat,
                     g: Gazetteer.State, lib: Library): (r: Run)
    ensures r.result.Ok? ==> |r.result.value| == |ts| && r.steps == Steps(ts)
    ensures r.result.Ok? ==> AllLocated(r.result.value)
    ensures r.steps <= Steps(ts)
    ensures |r.requests| <= |ts|
    ensures ts == [] ==> r == Run(Ok([]), g, [], [])
    decreases |ts|
  {
    if |ts| == 0 then Run(Ok([]), g, [], [])
    else
      var one := LocateOne(rag, text, ts[0], k, g, lib);
      StepsHead(ts);
      match one.result
      case Err(_) => one
      case Ok(first) =>
        var rest := LocateAll(rag, text, ts[1..], k + 1, one.gazetteer, lib);
        PrefixAfter(one.steps, rest.steps, Steps(ts[1..]));
        var result := match rest.result
          case Err(e) => Err(e)
          case Ok(out) => (AllLocatedConcat(first, out); Ok(first + out));
        Run(result, rest.gazetteer, one.steps + rest.steps, one.requests + rest.requests)
  }

  // ---------------------------------------------------------------------
  // The loop, toponym by toponym

  /** The outcomes of a step applied to each element in turn from the
      k-th on, each step made on the state the earlier steps left. */
  function Thread<A, S, V>(xs: seq<A>, k: nat, s: S, out: (A, nat, S) -> V, next: (A, nat, S) -> S): (r: seq<V>)
    ensures |r| == |xs|
    decreases |xs|
  {
    if |xs| == 0 then [] else [out(xs[0], k, s)] + Thread(xs[1..], k + 1, next(xs[0], k, s), out, next)
  }

  /** The state the steps over `xs` leave, from the k-th on. */
  function After<A, S>(xs: seq<A>, k: nat, s: S, next: (A, nat, S) -> S): S
    decreases |xs|
  {
    if |xs| == 0 then s else After(xs[1..], k + 1, next(xs[0], k, s), next)
  }

  /** The j-th outcome is the step on the j-th element, made on the state
      the steps over the elements before it left. */
  lemma {:induction false} ThreadAt<A, S, V>(xs: seq<A>, k: nat, s: S, out: (A, nat, S) -> V, next: (A, nat, S) -> S, j: nat)
    requires j < |xs|
    ensures Thread(xs, k, s, out, next)[j] == out(xs[j], k + j, After(xs[..j], k, s, next))
    decreases j
  {
    if j > 0 {
      ThreadAt(xs[1..], k + 1, next(xs[0], k, s), out, next, j - 1);
      var prefix := xs[..j];
      assert prefix[0] == xs[0] && prefix[1..] == xs[1..][..j - 1];
      assert xs[1..][j - 1] == xs[j];
    }
  }

  /** One toponym's lookup, then the RAG call on the matches found. */
  function Outcome(rag: LanguageModel, text: string, t: string, k: nat, g: Gazetteer.State, lib: Library): Result<Json> {
    match GetMatches(g, t, k, lib).result
    case Err(e) => Err(e)
    case Ok(matches) => GetLocation(rag, t, text, matches, lib)
  }

  /** The gazetteer a lookup leaves. */
  function LookupNext(lib: Library): (string, nat, Gazetteer.State) -> Gazetteer.State {
    (t: string, k: nat, g: Gazetteer.State) => GetMatches(g, t, k, lib).state
  }

  /** The outcome of each toponym's lookup and RAG call, each lookup made
      on the gazetteer the earlier lookups left, whether or not earlier
      steps failed. */
  function Locations(rag: LanguageModel, text: string, ts: seq<string>, k: nat,
                     g: Gazetteer.State, lib: Library): seq<Result<Json>>
  {
    Thread(ts, k, g, (t: string, i: nat, h: Gazetteer.State) => Outcome(rag, text, t, i, h, lib), LookupNext(lib))
  }

  /** The gazetteer after looking up each of `ts` in turn, from the k-th
      lookup on. */
  function LookupState(g: Gazetteer.State, ts: seq<string>, k: nat, lib: Library): Gazetteer.State {
    After(ts, k, g, LookupNext(lib))
  }

  /** The values of a run of outcomes up to the first failure, which is
      raised: a loop that appends each value and stops at an exception. */
  function Collect<T>(os: seq<Result<T>>): Result<seq<T>>
    decreases |os|
  {
    if |os| == 0 then Ok([])
    else match os[0]
      case Err(e) => Err(e)
      case Ok(v) =>
        match Collect(os[1..])
        case Err(e) => Err(e)
        case Ok(rest) => Ok([v] + rest)
  }

  /** The outcomes up to index j all succeed, and the j-th fails with e. */
  predicate FailsFirstAt<T>(os: seq<Result<T>>, j: nat, e: PyError) {
    && j < |os| && os[j] == Err(e)
    && forall i :: 0 <= i < j ==> os[i].Ok?
  }

  /** Collecting succeeds exactly when every outcome does, and then gives
      their values in order; otherwise it raises the first failure. */
  lemma {:induction false} CollectSpec<T>(os: seq<Result<T>>)
    ensures Collect(os).Ok? <==> forall j :: 0 <= j < |os| ==> os[j].Ok?
    ensures Collect(os).Ok? ==> (|Collect(os).value| == |os| &&
      forall j :: 0 <= j < |os| ==> Collect(os).value[j] == os[j].value)
    ensures Collect(os).Err? ==> exists j :: FailsFirstAt(os, j, Collect(os).error)
    decreases |os|
  {
    if |os| > 0 {
      CollectSpec(os[1..]);
      var c := Collect(os);
      if os[0].Ok? {
        var rest := Collect(os[1..]);
        if rest.Ok? {
          assert forall j :: 1 <= j < |os| ==> os[j] == os[1..][j - 1];
          assert forall j :: 1 <= j < |os| ==> c.value[j] == rest.value[j - 1];
        } else {
          var i: nat :| FailsFirstAt(os[1..], i, rest.error);
          assert FailsFirstAt(os, i + 1, c.error) by {
            assert forall h :: 1 <= h < i + 1 ==> os[h] == os[1..][h - 1];
          }
        }
      } else {
        assert FailsFirstAt(os, 0, c.error);
      }
    }
  }

  /** geoparse's loop raises exactly what collecting the toponyms'
      outcomes raises, and otherwise gives their values, leaving the
      gazetteer as the lookups leave it. */
  lemma {:induction false} LocateAllCollects(rag: LanguageModel, text: string, ts: seq<string>, k: nat,
                                             g: Gazetteer.State, lib: Library)
    ensures var r := LocateAll(rag, text, ts, k, g, lib);
      && r.result == Collect(Locations(rag, text, ts, k, g, lib))
      && (r.result.Ok? ==> r.gazetteer == LookupState(g, ts, k, lib))
    decreases |ts|
  {
    if |ts| > 0 {
      var g1 := GetMatches(g, ts[0], k, lib).state;
      LocateAllCollects(rag, text, ts[1..], k + 1, g1, lib);
      var os := Locations(rag, text, ts, k, g, lib);
      assert LookupNext(lib)(ts[0], k, g) == g1;
      assert os[0] == Outcome(rag, text, ts[0], k, g, lib);
      assert os[1..] == Locations(rag, text, ts[1..], k + 1, g1, lib);
    }
  }

  /** geoparse's loop locates each toponym in turn: it succeeds exactly
      when every lookup and RAG call does, and then its j-th entry is the
      location of the j-th toponym against the matches of its own lookup;
      otherwise it raises the error of the first lookup or RAG call that
      fails. */
  lemma LocateAllLocates(rag: LanguageModel, text: string, ts: seq<string>, k: nat,
                         g: Gazetteer.State, lib: Library)
    ensures var r := LocateAll(rag, text, ts, k, g, lib);
      var os := Locations(rag, text, ts, k, g, lib);
      && (r.result.Ok? <==> forall j :: 0 <= j < |ts| ==> os[j].Ok?)
      && (r.result.Ok? ==> forall j :: 0 <= j < |ts| ==> r.result.value[j] == os[j].value)
      && (r.result.Err? ==> exists j :: FailsFirstAt(os, j, r.result.error))
  {
    LocateAllCollects(rag, text, ts, k, g, lib);
    CollectSpec(Locations(rag, text, ts, k, g, lib));
  }

  /** The j-th outcome is the j-th toponym's lookup and RAG call, the
      lookup made on the gazetteer the lookups before it left. */
  lemma LocationsAt(rag: LanguageModel, text: string, ts: seq<string>, k: nat,
                    g: Gazetteer.State, lib: Library, j: nat)
    requires j < |ts|
    ensures Locations(rag, text, ts, k, g, lib)[j] == Outcome(rag, text, ts[j], k + j, LookupState(g, ts[..j], k, lib), lib)
  {
    ThreadAt(ts, k, g, (t: string, i: nat, h: Gazetteer.State) => Outcome(rag, text, t, i, h, lib), LookupNext(lib), j);
  }

  /** geoparse: a text that is not a string raises TypeError before any
      model call; otherwise the toponyms are extracted once and each one is
      looked up and located, in order. */
  function Geoparse(topo: LanguageModel, rag: LanguageModel, text: Json, g: Gazetteer.State, lib: Library): (r: Run)
    ensures !text.JStr? ==> r == Run(Err(TypeError), g, [], [])
    ensures text.JStr? ==> |r.steps| >= 1 && r.steps[0] == Extract
    ensures text.JStr? && GetToponyms(topo, text.s, lib).Err? ==>
      r == Run(Err(GetToponyms(topo, text.s, lib).error), g, [Extract], [])
    ensures text.JStr? && GetToponyms(topo, text.s, lib).Ok? ==>
      var ts := GetToponyms(topo, text.s, lib).value;
      && r.steps <= [Extract] + Steps(ts)
      && |r.requests| <= |ts|
      && (r.result.Ok? ==> |r.result.value| == |ts| && r.steps == [Extract] + Steps(ts))
      && (ts == [] ==> r == Run(Ok([]), g, [Extract], []))
  {
    match text
    case JStr(s) =>
      (match GetToponyms(topo, s, lib)
       case Err(e) => Run(Err(e), g, [Extract], [])
       case Ok(ts) =>
         var rest := LocateAll(rag, s, ts, 0, g, lib);
         Run(rest.result, rest.gazetteer, [Extract] + rest.steps, rest.requests))
    case _ => Run(Err(TypeError), g, [], [])
  }

  /** geoparse on a string whose toponyms are extracted gives one entry per
      toponym, in extraction order, each the location of that toponym
      against the matches of its own lookup, and succeeds exactly when
      every lookup and RAG call does; otherwise it raises the error of the
      first one that fails. */
  lemma GeoparseLocates(topo: LanguageModel, rag: LanguageModel, s: string, g: Gazetteer.State, lib: Library)
    ensures var found := GetToponyms(topo, s, lib);
      found.Ok? ==>
      var r := Geoparse(topo, rag, JStr(s), g, lib);
      var os := Locations(rag, s, found.value, 0, g, lib);
      && r.result == Collect(os)
      && (r.result.Ok? <==> forall j :: 0 <= j < |os| ==> os[j].Ok?)
      && (r.result.Ok? ==> |r.result.value| == |found.value| && forall j :: 0 <= j < |os| ==> r.result.value[j] == os[j].value)
      && (r.result.Ok? ==> r.gazetteer == LookupState(g, found.value, 0, lib))
      && (r.result.Err? ==> exists j :: FailsFirstAt(os, j, r.result.error))
  {
    var found := GetToponyms(topo, s, lib);
    if found.Ok? {
      LocateAllCollects(rag, s, found.value, 0, g, lib);
      CollectSpec(Locations(rag, s, found.value, 0, g, lib));
    }
  }

  /** Every lookup and RAG call of a run is for a toponym that occurs in
      the text. */
  lemma GeoparseStepsInText(topo: LanguageModel, rag: LanguageModel, s: string, g: Gazetteer.State, lib: Library)
    ensures var r := Geoparse(topo, rag, JStr(s), g, lib);
      forall st :: st in r.steps && !st.Extract? ==> Contains(s, st.toponym)
  {
    var r := Geoparse(topo, rag, JStr(s), g, lib);
    var found := GetToponyms(topo, s, lib);
    if found.Ok? {
      var ts := found.value;
      forall st | st in r.steps && !st.Extract?
        ensures Contains(s, st.toponym)
      {
        var full := [Extract] + Steps(ts);
        var i :| 0 <= i < |r.steps| && r.steps[i] == st;
        assert full[i] == st;
        assert i > 0;
        assert st in Steps(ts) by {
          assert Steps(ts)[i - 1] == st;
        }
        var k :| 0 <= k < |ts| && ts[k] == st.toponym;
      }
    }
  }
}
