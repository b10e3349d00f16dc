/** The gazetteer client (Gazetteer in geo_llama/gazetteer.py): backend
    selection, the cache, the credential checks, the request URLs and the
    reshaping of GeoNames records into Nominatim-shaped ones.

    The HTTP session is the input `fetch`, which maps a request URL to the
    decoded JSON body, or to None when the request or the decoding of its
    body raises requests.RequestException. Percent-encoding of the query
    (urllib.parse.quote, section 2.1 of RFC 3986) is the input `quote`.
    Status-code printing and the User-agent header are not modelled. */
module Gazetteer {
  import opened PyValues
  import opened PyStrings
  import opened PyLists

  const NominatimBase: string := "https://nominatim.openstreetmap.org/"
  const GeonamesBase: string := "http://api.geonames.org/"

  /** A Gazetteer object. `baseUrl` is None while the constructor has left
      the attribute unset, and so is `username`, which is Some(None) when
      set to Python's None. */
  datatype State = State(source: string, baseUrl: Option<string>, username: Option<Option<string>>, cache: map<string, Json>)

  /** What a call returns, the object after it and the URLs it requested. */
  datatype Answer = Answer(result: Result<Json>, state: State, requests: seq<string>)

  /** Gazetteer(gazetteer_source, geonames_username): the base URL is set
      only for the exact names 'nominatim' and 'geonames', the username
      only for 'geonames'; the cache starts empty. */
  function New(source: string, username: Option<string>): (g: State)
    ensures g.source == source && g.cache == map[]
    ensures g.baseUrl.Some? <==> source == "nominatim" || source == "geonames"
    ensures source == "nominatim" ==> g.baseUrl == Some(NominatimBase)
    ensures source == "geonames" ==> g.baseUrl == Some(GeonamesBase)
    ensures g.username.Some? <==> source == "geonames"
    ensures g.username.Some? ==> g.username.value == username
  {
    if source == "nominatim" then State(source, Some(NominatimBase), None, map[])
    else if source == "geonames" then State(source, Some(GeonamesBase), Some(username), map[])
    else State(source, None, None, map[])
  }

  /** Gazetteer() with the default source as the code spells it, 'nominatm'. */
  function NewDefaultAsWritten(): State {
    New("nominatm", None)
  }

  /** Gazetteer() with the default the documentation gives, 'nominatim'. */
  function NewDefault(): (g: State)
    ensures g.baseUrl == Some(NominatimBase) && g.username.None? && g.cache == map[]
  {
    New("nominatim", None)
  }

  // ---------------------------------------------------------------------
  // Request URLs

  /** The Nominatim search URL for an encoded query. */
  function NominatimUrl(base: string, quoted: string): string {
    base + "search" + "?" + "q=" + quoted + "&" + "format=json" + "&" + "accept-language=en"
  }

  /** The GeoNames search URL for an encoded query; the username goes in
      unencoded. */
  function GeonamesUrl(base: string, quoted: string, username: string): string {
    base + "searchJSON" + "?" + "q=" + quoted + "&" + "username=" + username + "&" + "orderby=relevance" + "&" + "maxRows=20"
  }

  /** The query string of a URL: what follows its first `?`. */
  function Parameters(url: string): seq<string> {
    var halves := Split(url, "?");
    if |halves| < 2 then [] else Split(halves[1], "&")
  }

  /** A path followed by `?` and parameters joined with `&` reads back as
      those parameters, when neither the path nor the parameters hold a
      `?` and no parameter holds a `&`. */
  lemma ParametersOf(path: string, params: seq<string>)
    requires '?' !in path && |params| >= 1
    requires forall k :: 0 <= k < |params| ==> '?' !in params[k] && '&' !in params[k]
    ensures Parameters(path + "?" + Join("&", params)) == params
  {
    var q := Join("&", params);
    if '?' in q {
      JoinChars("&", params, '?');
    }
    SplitAfter(path, "?", q);
    SplitNoSeparator(q, "?");
    SplitJoinFirstChar("&", params);
  }

  /** A Nominatim request asks for the encoded query, JSON output and
      English names, and nothing else. */
  lemma NominatimUrlParameters(base: string, quoted: string)
    requires '?' !in base && '?' !in quoted && '&' !in quoted
    ensures Parameters(NominatimUrl(base, quoted)) == ["q=" + quoted, "format=json", "accept-language=en"]
  {
    var params := ["q=" + quoted, "format=json", "accept-language=en"];
    JoinCons("&", params[0], params[1..]);
    JoinCons("&", params[1], params[2..]);
    assert params[1..] == [params[1]] + params[2..];
    assert NominatimUrl(base, quoted) == (base + "search") + "?" + Join("&", params);
    ParametersOf(base + "search", params);
  }

  /** A GeoNames request asks for the encoded query under the given
      username, ordered by relevance, at most twenty rows. */
  lemma GeonamesUrlParameters(base: string, quoted: string, username: string)
    requires '?' !in base && '?' !in quoted && '&' !in quoted && '?' !in username && '&' !in username
    ensures Parameters(GeonamesUrl(base, quoted, username))
         == ["q=" + quoted, "username=" + username, "orderby=relevance", "maxRows=20"]
  {
    UrlOfFour(base, "searchJSON", "q=", quoted, "username=", username, "orderby=relevance", "maxRows=20");
    ParametersOf(base + "searchJSON", ["q=" + quoted, "username=" + username, "orderby=relevance", "maxRows=20"]);
  }

  /** The GeoNames URL, regrouped as a path, `?` and four joined parameters. */
  lemma UrlOfFour(base: string, path: string, qKey: string, q: string, uKey: string, u: string, o: string, m: string)
    ensures base + path + "?" + qKey + q + "&" + uKey + u + "&" + o + "&" + m
         == (base + path) + "?" + Join("&", [qKey + q, uKey + u, o, m])
  {
    var params := [qKey + q, uKey + u, o, m];
    var last := Join("&", params[2..]);
    JoinCons("&", params[2], params[3..]);
    assert params[3..] == [m];
    assert last == o + "&" + m;
    var mid := Join("&", params[1..]);
    JoinCons("&", params[1], params[2..]);
    assert mid == (uKey + u) + "&" + last;
    JoinCons("&", params[0], params[1..]);
    assert Join("&", params) == (qKey + q) + "&" + mid;
  }

  // ---------------------------------------------------------------------
  // format_geonames_response

  /** m.get(key, ''). */
  function GetOr(m: map<string, Json>, key: string): Json {
    if key in m then m[key] else JStr("")
  }

  /** The three parts of an address: place, first-level region, country. */
  function AddressParts(m: map<string, Json>): seq<Json> {
    [GetOr(m, "name"), GetOr(m, "adminName1"), GetOr(m, "countryName")]
  }

  /** The texts of values that must all be strings, as str.join needs them. */
  function Strings(vs: seq<Json>): (r: Result<seq<string>>)
    ensures r.Ok? <==> forall k :: 0 <= k < |vs| ==> vs[k].JStr?
    ensures r.Ok? ==> |r.value| == |vs| && forall k :: 0 <= k < |vs| ==> vs[k] == JStr(r.value[k])
    ensures r.Err? ==> r.error == TypeError
    decreases |vs|
  {
    if |vs| == 0 then Ok([])
    else match vs[0]
      case JStr(s) =>
        var rest :- Strings(vs[1..]);
        assert forall k :: 1 <= k < |vs| ==> vs[k] == vs[1..][k - 1];
        Ok([s] + rest)
      case _ => Err(TypeError)
  }

  /** display_name as the code builds it: the three parts joined with
      ', ', empty ones included. */
  function DisplayNameAsWritten(m: map<string, Json>): Result<string> {
    var parts :- Strings(AddressParts(m));
    Ok(Join(", ", parts))
  }

  /** display_name with the empty parts left out, as the tests expect. */
  function DisplayName(m: map<string, Json>): Result<string> {
    var parts :- Strings(AddressParts(m));
    Ok(Join(", ", Filter(parts, NonEmpty)))
  }

  /** As written, the display name reads back as all three parts, empty
      ones included, when no part holds a comma. */
  lemma DisplayNameAsWrittenParts(m: map<string, Json>)
    requires DisplayNameAsWritten(m).Ok?
    ensures var parts := Strings(AddressParts(m)).value;
      (forall k :: 0 <= k < 3 ==> ',' !in parts[k]) ==> Split(DisplayNameAsWritten(m).value, ", ") == parts
  {
    var parts := Strings(AddressParts(m)).value;
    if forall k :: 0 <= k < 3 ==> ',' !in parts[k] {
      SplitJoinFirstChar(", ", parts);
    }
  }

  /** The display name reads back as exactly the non-empty parts, when
      there is one and no part holds a comma. */
  lemma DisplayNameParts(m: map<string, Json>)
    requires DisplayName(m).Ok?
    ensures var parts := Strings(AddressParts(m)).value;
      (forall k :: 0 <= k < 3 ==> ',' !in parts[k]) && Filter(parts, NonEmpty) != [] ==>
        Split(DisplayName(m).value, ", ") == Filter(parts, NonEmpty)
  {
    var parts := Strings(AddressParts(m)).value;
    var kept := Filter(parts, NonEmpty);
    if (forall k :: 0 <= k < 3 ==> ',' !in parts[k]) && kept != [] {
      FilterSpec(parts, NonEmpty);
      assert forall k :: 0 <= k < |kept| ==> kept[k] in parts;
      SplitJoinFirstChar(", ", kept);
    }
  }

  /** One reshaped record: name, coordinates with `lng` renamed `lon`, and
      the display name. */
  function Reshaped(m: map<string, Json>, display: string): Json {
    JObj(map["name" := GetOr(m, "name"), "lat" := GetOr(m, "lat"), "lon" := GetOr(m, "lng"), "display_name" := JStr(display)])
  }

  /** The loop of format_geonames_response over a list of records, with the
      display name built by `display`. A record that is not a dict has no
      `get` (AttributeError). */
  function ReshapeAll(items: seq<Json>, display: map<string, Json> -> Result<string>): (r: Result<seq<Json>>)
    ensures r.Ok? <==> forall k :: 0 <= k < |items| ==> items[k].JObj? && display(items[k].fields).Ok?
    ensures r.Ok? ==> |r.value| == |items|
    ensures r.Ok? ==> forall k :: 0 <= k < |items| ==>
      r.value[k] == Reshaped(items[k].fields, display(items[k].fields).value)
    decreases |items|
  {
    if |items| == 0 then Ok([])
    else match items[0]
      case JObj(m) =>
        var name :- display(m);
        var rest :- ReshapeAll(items[1..], display);
        assert forall k :: 1 <= k < |items| ==> items[k] == items[1..][k - 1];
        Ok([Reshaped(m, name)] + rest)
      case _ => Err(AttributeError)
  }

  /** format_geonames_response over any value: a list is reshaped record by
      record; iterating a non-empty string or dict yields strings, which
      have no `get`; other values cannot be iterated. */
  function FormatWith(response: Json, display: map<string, Json> -> Result<string>): Result<seq<Json>> {
    match response
    case JArr(items) => ReshapeAll(items, display)
    case JStr(s) => if |s| == 0 then Ok([]) else Err(AttributeError)
    case JObj(f) => if |f| == 0 then Ok([]) else Err(AttributeError)
    case _ => Err(TypeError)
  }

  /** format_geonames_response as written. */
  function FormatGeonamesResponseAsWritten(response: Json): Result<seq<Json>> {
    FormatWith(response, DisplayNameAsWritten)
  }

  /** format_geonames_response with empty address parts skipped. */
  function FormatGeonamesResponse(response: Json): (r: Result<seq<Json>>)
    ensures response.JArr? ==> (r.Ok? <==> forall k :: 0 <= k < |response.items| ==>
      response.items[k].JObj? && forall j :: 0 <= j < 3 ==> AddressParts(response.items[k].fields)[j].JStr?)
    ensures response.JArr? && r.Ok? ==> |r.value| == |response.items|
    ensures response.JArr? && r.Ok? ==> forall k :: 0 <= k < |response.items| ==>
      && r.value[k].JObj? && r.value[k].fields.Keys == {"name", "lat", "lon", "display_name"}
      && r.value[k].fields["lon"] == GetOr(response.items[k].fields, "lng")
      && r.value[k].fields["lat"] == GetOr(response.items[k].fields, "lat")
      && r.value[k].fields["name"] == GetOr(response.items[k].fields, "name")
  {
    FormatWith(response, DisplayName)
  }

  /** The records of the test of format_geonames_response: one complete,
      one without a region. */
  function ExampleResponse(): Json {
    JArr([JObj(CompleteRecord()), JObj(RegionlessRecord())])
  }

  function CompleteRecord(): map<string, Json> {
    map["name" := JStr("name_1"), "adminName1" := JStr("state_1"), "countryName" := JStr("country_1"),
        "lat" := JNum(0.0), "lng" := JNum(0.0)]
  }

  function RegionlessRecord(): map<string, Json> {
    map["name" := JStr("name_2"), "countryName" := JStr("country_2"), "lat" := JNum(1.0), "lng" := JNum(1.0)]
  }

  /** Two records are reshaped one after the other. */
  lemma ReshapeTwo(a: map<string, Json>, b: map<string, Json>, display: map<string, Json> -> Result<string>)
    requires display(a).Ok? && display(b).Ok?
    ensures FormatWith(JArr([JObj(a), JObj(b)]), display)
         == Ok([Reshaped(a, display(a).value), Reshaped(b, display(b).value)])
  {
    var items := [JObj(a), JObj(b)];
    var r := ReshapeAll(items, display);
    assert items[0].fields == a && items[1].fields == b;
    assert r.Ok?;
    assert r.value[0] == Reshaped(a, display(a).value);
    assert r.value[1] == Reshaped(b, display(b).value);
    assert |r.value| == 2;
    assert r.value == [Reshaped(a, display(a).value), Reshaped(b, display(b).value)];
    assert FormatWith(JArr(items), display) == r;
  }

  /** As written, the record without a region gets an empty part in its
      display name, `name_2, , country_2`, where the test expects
      `name_2, country_2`. */
  lemma FormatGeonamesAsWrittenExample()
    ensures FormatGeonamesResponseAsWritten(ExampleResponse()).Ok?
    ensures var out := FormatGeonamesResponseAsWritten(ExampleResponse()).value;
      |out| == 2 && out[1].fields["display_name"] == JStr("name_2" + ", " + "" + ", " + "country_2")
      && out[1].fields["display_name"] != JStr("name_2, country_2")
  {
    var m0 := CompleteRecord();
    var m1 := RegionlessRecord();
    assert AddressParts(m0) == [JStr("name_1"), JStr("state_1"), JStr("country_1")];
    assert Strings(AddressParts(m0)).Ok?;
    assert AddressParts(m1) == [JStr("name_2"), JStr(""), JStr("country_2")];
    assert Strings(AddressParts(m1)).value == ["name_2", "", "country_2"];
    var d := Join(", ", ["name_2", "", "country_2"]);
    assert d == "name_2" + ", " + "" + ", " + "country_2";
    assert DisplayNameAsWritten(m1) == Ok(d);
    ReshapeTwo(m0, m1, DisplayNameAsWritten);
    var out := FormatGeonamesResponseAsWritten(ExampleResponse()).value;
    assert out[1] == Reshaped(m1, d);
    assert out[1].fields["display_name"] == JStr(d);
    assert |d| != |"name_2, country_2"|;
  }

  /** The complete record's display name lists all three parts. */
  lemma ExampleFullDisplayName()
    ensures DisplayName(CompleteRecord()) == Ok("name_1" + ", " + "state_1" + ", " + "country_1")
  {
    var m0 := CompleteRecord();
    assert AddressParts(m0) == [JStr("name_1"), JStr("state_1"), JStr("country_1")];
    assert Strings(AddressParts(m0)).Ok?;
    assert Strings(AddressParts(m0)).value == ["name_1", "state_1", "country_1"];
    FilterAll(["name_1", "state_1", "country_1"], NonEmpty);
    JoinCons(", ", "name_1", ["state_1", "country_1"]);
    JoinCons(", ", "state_1", ["country_1"]);
    assert ["name_1", "state_1", "country_1"] == ["name_1"] + ["state_1", "country_1"];
    assert ["state_1", "country_1"] == ["state_1"] + ["country_1"];
    var d := Join(", ", ["name_1", "state_1", "country_1"]);
    assert d == "name_1" + ", " + ("state_1" + ", " + "country_1");
    ConcatAssoc("name_1" + ", ", "state_1", ", " + "country_1");
    ConcatAssoc("name_1" + ", " + "state_1", ", ", "country_1");
    ConcatAssoc("name_1", ", ", "state_1" + ", " + "country_1");
    ConcatAssoc("state_1", ", ", "country_1");
    assert Filter(["name_1", "state_1", "country_1"], NonEmpty) == ["name_1", "state_1", "country_1"];
    assert DisplayName(m0) == Ok(d);
  }

  /** The record without a region has it left out of its display name. */
  lemma ExampleShortDisplayName()
    ensures DisplayName(RegionlessRecord()) == Ok("name_2" + ", " + "country_2")
  {
    var m1 := RegionlessRecord();
    assert AddressParts(m1) == [JStr("name_2"), JStr(""), JStr("country_2")];
    assert Strings(AddressParts(m1)).Ok?;
    assert Strings(AddressParts(m1)).value == ["name_2", "", "country_2"];
    assert Filter(["name_2", "", "country_2"], NonEmpty) == ["name_2", "country_2"] by {
      var s := ["name_2", "", "country_2"];
      assert s[1..][1..] == ["country_2"];
    }
    JoinCons(", ", "name_2", ["country_2"]);
    assert ["name_2", "country_2"] == ["name_2"] + ["country_2"];
  }

  /** With empty parts skipped, both records come out as the test expects. */
  lemma FormatGeonamesExample()
    ensures FormatGeonamesResponse(ExampleResponse()).Ok?
    ensures var out := FormatGeonamesResponse(ExampleResponse()).value;
      && |out| == 2
      && out[0] == JObj(map["name" := JStr("name_1"), "lat" := JNum(0.0), "lon" := JNum(0.0),
                            "display_name" := JStr("name_1" + ", " + "state_1" + ", " + "country_1")])
      && out[1] == JObj(map["name" := JStr("name_2"), "lat" := JNum(1.0), "lon" := JNum(1.0),
                            "display_name" := JStr("name_2" + ", " + "country_2")])
  {
    var m0 := CompleteRecord();
    var m1 := RegionlessRecord();
    ExampleFullDisplayName();
    ExampleShortDisplayName();
    ReshapeTwo(m0, m1, DisplayName);
    var out := FormatGeonamesResponse(ExampleResponse()).value;
    assert out == [Reshaped(m0, "name_1" + ", " + "state_1" + ", " + "country_1"), Reshaped(m1, "name_2" + ", " + "country_2")];
  }

  // ---------------------------------------------------------------------
  // The backend requests

  /** _nominatim_query, caching the body under `cacheKey`; a failed request
      gives an empty list and leaves the cache alone. */
  function NominatimRequest(g: State, query: string, cacheKey: string,
                            fetch: string -> Option<Json>, quote: string -> string): Answer {
    match g.baseUrl
    case None => Answer(Err(AttributeError), g, [])
    case Some(base) =>
      var url := NominatimUrl(base, quote(query));
      match fetch(url)
      case None => Answer(Ok(JArr([])), g, [url])
      case Some(body) => Answer(Ok(body), g.(cache := g.cache[cacheKey := body]), [url])
  }

  /** f'{self.username}' for a set attribute. */
  function UsernameText(u: Option<string>): string {
    match u
    case None => "None"
    case Some(name) => name
  }

  /** _geonames_query, caching the reshaped records under `cacheKey` and
      answering `onError` when the request fails. A body without a
      `geonames` entry raises, since only request errors are caught. */
  function GeonamesRequest(g: State, query: string, cacheKey: string, onError: Json,
                           display: map<string, Json> -> Result<string>,
                           fetch: string -> Option<Json>, quote: string -> string): Answer {
    match (g.baseUrl, g.username)
    case (None, _) => Answer(Err(AttributeError), g, [])
    case (_, None) => Answer(Err(AttributeError), g, [])
    case (Some(base), Some(u)) =>
      var url := GeonamesUrl(base, quote(query), UsernameText(u));
      match fetch(url)
      case None => Answer(Ok(onError), g, [url])
      case Some(body) =>
        match Get(body, "geonames")
        case Err(e) => Answer(Err(e), g, [url])
        case Ok(records) =>
          match FormatWith(records, display)
          case Err(e) => Answer(Err(e), g, [url])
          case Ok(out) => Answer(Ok(JArr(out)), g.(cache := g.cache[cacheKey := JArr(out)]), [url])
  }

  /** _geonames_query as written: cached under 'query', a dict on failure,
      empty address parts kept. */
  function GeonamesQueryAsWritten(g: State, query: string, fetch: string -> Option<Json>, quote: string -> string): Answer {
    GeonamesRequest(g, query, "query", JObj(map["geonames" := JArr([])]), DisplayNameAsWritten, fetch, quote)
  }

  /** _geonames_query corrected: cached under the query, an empty list on
      failure, empty address parts skipped. */
  function GeonamesQuery(g: State, query: string, fetch: string -> Option<Json>, quote: string -> string): (a: Answer)
    ensures a.result.Ok? ==> a.result.value.JArr?
    ensures |a.requests| <= 1
    ensures a.requests == [] <==> g.baseUrl.None? || g.username.None?
    ensures a.requests == [] ==> a == Answer(Err(AttributeError), g, [])
    ensures g.baseUrl.Some? && g.username.Some? ==>
      a.requests == [GeonamesUrl(g.baseUrl.value, quote(query), UsernameText(g.username.value))]
    ensures a.requests != [] && fetch(a.requests[0]).None? ==> a.result == Ok(JArr([])) && a.state == g
    ensures a.requests != [] && fetch(a.requests[0]).Some? ==>
      var records := Get(fetch(a.requests[0]).value, "geonames");
      && (records.Err? ==> a.result == Err(records.error) && a.state == g)
      && (records.Ok? && FormatGeonamesResponse(records.value).Err? ==>
            a.result == Err(FormatGeonamesResponse(records.value).error) && a.state == g)
      && (records.Ok? && FormatGeonamesResponse(records.value).Ok? ==>
            && a.result == Ok(JArr(FormatGeonamesResponse(records.value).value))
            && a.state == g.(cache := g.cache[query := a.result.value]))
  {
    GeonamesRequest(g, query, query, JArr([]), DisplayName, fetch, quote)
  }

  /** As written, a failed GeoNames request answers a dict with one entry,
      so the caller's `len(out) == 0` does not hold. The corrected request
      answers an empty list. */
  lemma GeonamesFailureAsWritten(g: State, query: string, fetch: string -> Option<Json>, quote: string -> string)
    requires g.baseUrl.Some? && g.username.Some?
    requires fetch(GeonamesUrl(g.baseUrl.value, quote(query), UsernameText(g.username.value))).None?
    ensures GeonamesQueryAsWritten(g, query, fetch, quote).result == Ok(JObj(map["geonames" := JArr([])]))
    ensures GeonamesQuery(g, query, fetch, quote).result == Ok(JArr([]))
  {
  }

  /** A GeoNames body whose `geonames` entry lists records with string
      address parts answers one Nominatim-shaped record per GeoNames
      record, in order, with `lng` read as `lon`, and caches that list
      under the query. */
  lemma GeonamesQueryReshapes(g: State, query: string, fetch: string -> Option<Json>, quote: string -> string,
                              records: seq<Json>)
    requires g.baseUrl.Some? && g.username.Some?
    requires var body := fetch(GeonamesUrl(g.baseUrl.value, quote(query), UsernameText(g.username.value)));
      body.Some? && body.value.JObj? && "geonames" in body.value.fields && body.value.fields["geonames"] == JArr(records)
    requires forall k :: 0 <= k < |records| ==>
      records[k].JObj? && forall j :: 0 <= j < 3 ==> AddressParts(records[k].fields)[j].JStr?
    ensures var a := GeonamesQuery(g, query, fetch, quote);
      && a.result.Ok? && |a.result.value.items| == |records|
      && a.state.cache == g.cache[query := a.result.value]
      && forall k :: 0 <= k < |records| ==>
        var out := a.result.value.items[k];
        && out.JObj? && out.fields.Keys == {"name", "lat", "lon", "display_name"}
        && out.fields["name"] == GetOr(records[k].fields, "name")
        && out.fields["lat"] == GetOr(records[k].fields, "lat")
        && out.fields["lon"] == GetOr(records[k].fields, "lng")
  {
  }

  // ---------------------------------------------------------------------
  // query

  /** A truthy cache entry for the query. */
  predicate Cached(g: State, query: string) {
    query in g.cache && Truthy(g.cache[query])
  }

  /** query as written: Nominatim results are cached under the constant key
      'query', and the GeoNames branch passes _geonames_query an argument
      too many, which raises TypeError. An unrecognised source falls
      through and returns None. */
  function QueryAsWritten(g: State, query: string, userAgent: Option<string>,
                          fetch: string -> Option<Json>, quote: string -> string): Answer {
    if Cached(g, query) then Answer(Ok(g.cache[query]), g, [])
    else if Lower(g.source) == "nominatim" then
      if !Given(userAgent) then Answer(Err(ValueError), g, [])
      else NominatimRequest(g, query, "query", fetch, quote)
    else if Lower(g.source) == "geonames" then
      match g.username
      case None => Answer(Err(AttributeError), g, [])
      case Some(u) =>
        if !Given(u) then Answer(Err(ValueError), g, [])
        else Answer(Err(TypeError), g, [])
    else Answer(Ok(JNull), g, [])
  }

  /** query corrected: results are cached under the query itself and the
      GeoNames branch calls the corrected _geonames_query. A truthy cached
      entry is returned first, before any credential check; a falsy one
      (an empty list) counts as a miss. */
  function Query(g: State, query: string, userAgent: Option<string>,
                 fetch: string -> Option<Json>, quote: string -> string): (a: Answer)
    ensures |a.requests| <= 1
    ensures a.state.source == g.source && a.state.baseUrl == g.baseUrl && a.state.username == g.username
    ensures a.requests == [] ==> a.state == g
    ensures a.state.cache.Keys <= g.cache.Keys + {query}
    ensures forall k :: k in g.cache && k != query ==> k in a.state.cache && a.state.cache[k] == g.cache[k]
    ensures a.requests != [] ==> !Cached(g, query)
    ensures a.requests != [] && Lower(g.source) == "nominatim" ==>
      Given(userAgent) && g.baseUrl.Some? && a.requests == [NominatimUrl(g.baseUrl.value, quote(query))]
    ensures a.requests != [] && Lower(g.source) != "nominatim" ==>
      && Lower(g.source) == "geonames" && g.baseUrl.Some? && g.username.Some? && Given(g.username.value)
      && a.requests == [GeonamesUrl(g.baseUrl.value, quote(query), g.username.value.value)]
    ensures a.state != g && a.result.Ok? ==> a.state.cache == g.cache[query := a.result.value]
    ensures Cached(g, query) ==> a.result == Ok(g.cache[query])
    ensures a.requests != [] && Lower(g.source) == "nominatim" ==>
      && a.result == Ok(if fetch(a.requests[0]).Some? then fetch(a.requests[0]).value else JArr([]))
      && a.state.cache == (if fetch(a.requests[0]).Some? then g.cache[query := a.result.value] else g.cache)
    ensures a.requests != [] && Lower(g.source) != "nominatim" ==>
      && (fetch(a.requests[0]).None? ==> a.result == Ok(JArr([])) && a.state == g)
      && (a.result.Ok? ==> a.result.value.JArr?)
    ensures !Cached(g, query) && Lower(g.source) != "nominatim" && Lower(g.source) != "geonames" ==>
      a.result == Ok(JNull)
    ensures !Cached(g, query) && Lower(g.source) == "nominatim" && Given(userAgent) && g.baseUrl.Some? ==>
      |a.requests| == 1
    ensures !Cached(g, query) && Lower(g.source) == "geonames" && g.baseUrl.Some? && g.username.Some? && Given(g.username.value) ==>
      |a.requests| == 1
    ensures a.requests != [] && Lower(g.source) != "nominatim" ==> a == GeonamesQuery(g, query, fetch, quote)
  {
    if Cached(g, query) then Answer(Ok(g.cache[query]), g, [])
    else if Lower(g.source) == "nominatim" then
      if !Given(userAgent) then Answer(Err(ValueError), g, [])
      else NominatimRequest(g, query, query, fetch, quote)
    else if Lower(g.source) == "geonames" then
      match g.username
      case None => Answer(Err(AttributeError), g, [])
      case Some(u) =>
        if !Given(u) then Answer(Err(ValueError), g, [])
        else GeonamesQuery(g, query, fetch, quote)
    else Answer(Ok(JNull), g, [])
  }

  /** A cache hit answers the cached value with no request and no change. */
  lemma QueryCacheHit(g: State, query: string, userAgent: Option<string>,
                      fetch: string -> Option<Json>, quote: string -> string)
    requires Cached(g, query)
    ensures Query(g, query, userAgent, fetch, quote) == Answer(Ok(g.cache[query]), g, [])
    ensures QueryAsWritten(g, query, userAgent, fetch, quote) == Answer(Ok(g.cache[query]), g, [])
  {
  }

  /** On a miss, a Nominatim gazetteer without a user agent, or a GeoNames
      one without a username, raises ValueError before any request. */
  lemma QueryNeedsCredentials(g: State, query: string, userAgent: Option<string>,
                              fetch: string -> Option<Json>, quote: string -> string)
    requires !Cached(g, query)
    ensures Lower(g.source) == "nominatim" && !Given(userAgent) ==>
      Query(g, query, userAgent, fetch, quote) == Answer(Err(ValueError), g, [])
    ensures Lower(g.source) == "geonames" && g.username.Some? && !Given(g.username.value) ==>
      Query(g, query, userAgent, fetch, quote) == Answer(Err(ValueError), g, [])
  {
    assert Lower("nominatim") == "nominatim";
  }

  /** Asking twice: after a request whose result is truthy, the same query
      is answered from the cache with no further request. */
  lemma QueryThenCached(g: State, query: string, userAgent: Option<string>,
                        fetch: string -> Option<Json>, quote: string -> string)
    requires var a := Query(g, query, userAgent, fetch, quote);
      a.requests != [] && a.result.Ok? && Truthy(a.result.value)
    ensures var a := Query(g, query, userAgent, fetch, quote);
      Query(a.state, query, userAgent, fetch, quote) == Answer(a.result, a.state, [])
  {
    var a := Query(g, query, userAgent, fetch, quote);
    assert a.state != g by {
      assert !Cached(g, query);
      assert Cached(a.state, query);
    }
  }

  /** As written, a Nominatim answer is cached under 'query', so asking
      again for any other query repeats the request. */
  lemma CacheKeyAsWritten(g: State, query: string, userAgent: Option<string>,
                          fetch: string -> Option<Json>, quote: string -> string)
    requires g.source == "nominatim" && g.baseUrl.Some? && Given(userAgent)
    requires query != "query" && !Cached(g, query)
    requires fetch(NominatimUrl(g.baseUrl.value, quote(query))).Some?
    ensures var a := QueryAsWritten(g, query, userAgent, fetch, quote);
      && |a.requests| == 1
      && QueryAsWritten(a.state, query, userAgent, fetch, quote).requests == a.requests
  {
    assert Lower("nominatim") == "nominatim";
  }

  /** As written, a GeoNames gazetteer with a username raises TypeError on
      every cache miss, without a request. Corrected, it requests the
      GeoNames search URL. */
  lemma GeonamesBranchAsWritten(g: State, query: string, userAgent: Option<string>,
                                fetch: string -> Option<Json>, quote: string -> string)
    requires g.source == "geonames" && g.baseUrl.Some? && g.username.Some? && Given(g.username.value)
    requires !Cached(g, query)
    ensures QueryAsWritten(g, query, userAgent, fetch, quote) == Answer(Err(TypeError), g, [])
    ensures Query(g, query, userAgent, fetch, quote).requests
         == [GeonamesUrl(g.baseUrl.value, quote(query), g.username.value.value)]
  {
    assert Lower("geonames") == "geonames";
    assert Lower("geonames") != "nominatim";
  }

  /** As written, the default gazetteer has no base URL and answers None to
      every query without a request. With the documented default it
      requests the Nominatim search URL. */
  lemma DefaultSourceAsWritten(query: string, userAgent: Option<string>,
                               fetch: string -> Option<Json>, quote: string -> string)
    requires Given(userAgent)
    ensures NewDefaultAsWritten().baseUrl.None?
    ensures QueryAsWritten(NewDefaultAsWritten(), query, userAgent, fetch, quote) == Answer(Ok(JNull), NewDefaultAsWritten(), [])
    ensures NewDefault().baseUrl == Some(NominatimBase)
    ensures Query(NewDefault(), query, userAgent, fetch, quote).requests == [NominatimUrl(NominatimBase, quote(query))]
  {
    assert Lower("nominatm") == "nominatm";
    assert Lower("nominatim") == "nominatim";
  }
}
