/** The annotated-article records (geo_llama/data.py): a toponym with its
    position and coordinates, and an article holding a text and its
    toponyms, each serialised to the dictionary the models answer with.
    The XML-backed article subclasses are not part of this model. */
module Records {
  import opened PyValues
  import opened Numbers

  /** A toponym of an annotated article. The coordinates are whatever the
      corpus supplied (None when absent); they are converted only when
      serialised. */
  datatype Toponym = Toponym(phrase: string, start: int, end: int, latitude: Json, longitude: Json, toponymType: Option<string>)

  /** An article: its source record, when built from one, its text and its
      toponyms. */
  datatype Article = Article(articleXml: Option<Json>, text: Option<string>, toponyms: seq<Toponym>)

  /** Toponym.to_dict: the name and both coordinates as floats. A
      coordinate float() rejects with TypeError (None, say) gives None for
      both; a malformed string raises ValueError, which is not caught.
      The latitude is converted first. */
  function ToponymToDict(t: Toponym): (r: Result<Json>)
    ensures r.Ok? ==> r.value.JObj? && r.value.fields.Keys == {"name", "latitude", "longitude"}
    ensures r.Ok? ==> r.value.fields["name"] == JStr(t.phrase)
    ensures r.Ok? ==> (r.value.fields["latitude"].JNull? <==> r.value.fields["longitude"].JNull?)
    ensures r.Ok? ==> (r.value.fields["latitude"].JNum? <==> r.value.fields["longitude"].JNum?)
    ensures ToFloat(t.latitude).Ok? && ToFloat(t.longitude).Ok? ==>
      r.Ok? && r.value.fields["latitude"] == JNum(ToFloat(t.latitude).value)
      && r.value.fields["longitude"] == JNum(ToFloat(t.longitude).value)
    ensures r.Err? <==>
      ToFloat(t.latitude) == Err(ValueError) || (ToFloat(t.latitude).Ok? && ToFloat(t.longitude) == Err(ValueError))
  {
    var name := JStr(t.phrase);
    match ToFloat(t.latitude)
    case Err(e) =>
      if e == TypeError then Ok(JObj(map["name" := name, "latitude" := JNull, "longitude" := JNull]))
      else Err(e)
    case Ok(lat) =>
      match ToFloat(t.longitude)
      case Err(e) =>
        if e == TypeError then Ok(JObj(map["name" := name, "latitude" := JNull, "longitude" := JNull]))
        else Err(e)
      case Ok(lon) => Ok(JObj(map["name" := name, "latitude" := JNum(lat), "longitude" := JNum(lon)]))
  }

  /** A toponym without coordinates serialises with None for both. */
  lemma ToponymWithoutCoordinates(phrase: string, start: int, end: int, lon: Json, kind: Option<string>)
    ensures ToponymToDict(Toponym(phrase, start, end, JNull, lon, kind))
         == Ok(JObj(map["name" := JStr(phrase), "latitude" := JNull, "longitude" := JNull]))
  {
  }

  /** A toponym with one coordinate only serialises with neither. */
  lemma ToponymHalfCoordinates(phrase: string, start: int, end: int, lat: real, kind: Option<string>)
    ensures ToponymToDict(Toponym(phrase, start, end, JNum(lat), JNull, kind))
         == Ok(JObj(map["name" := JStr(phrase), "latitude" := JNull, "longitude" := JNull]))
  {
  }

  /** Article.__post_init__: an article built from a source record
      validates it, which the base class does not implement; one built
      without keeps the text and toponyms it was given. */
  function PostInit(a: Article): (r: Result<Article>)
    ensures a.articleXml.None? <==> r.Ok?
    ensures r.Ok? ==> r.value == a
    ensures r.Err? ==> r.error == NotImplementedError
  {
    match a.articleXml
    case None => Ok(a)
    case Some(_) => Err(NotImplementedError)
  }

  /** The toponym dictionaries of a list of toponyms, in order. */
  function ToponymDicts(ts: seq<Toponym>): (r: Result<seq<Json>>)
    ensures r.Ok? <==> forall k :: 0 <= k < |ts| ==> ToponymToDict(ts[k]).Ok?
    ensures r.Ok? ==> |r.value| == |ts| && forall k :: 0 <= k < |ts| ==> r.value[k] == ToponymToDict(ts[k]).value
    decreases |ts|
  {
    if |ts| == 0 then Ok([])
    else
      var head :- ToponymToDict(ts[0]);
      var rest :- ToponymDicts(ts[1..]);
      assert forall k :: 1 <= k < |ts| ==> ts[k] == ts[1..][k - 1];
      Ok([head] + rest)
  }

  /** Article.to_dict(text_id): the id as a decimal string and one
      dictionary per toponym, in order. */
  function ArticleToDict(a: Article, textId: int): (r: Result<Json>)
    ensures r.Ok? <==> forall k :: 0 <= k < |a.toponyms| ==> ToponymToDict(a.toponyms[k]).Ok?
    ensures r.Ok? ==> r.value.JObj? && r.value.fields.Keys == {"id", "toponyms"}
    ensures r.Ok? ==> r.value.fields["id"].JStr? && ParseDecimal(r.value.fields["id"].s) == Some(textId as real)
    ensures r.Ok? ==> r.value.fields["toponyms"].JArr? && |r.value.fields["toponyms"].items| == |a.toponyms|
    ensures r.Ok? ==> forall k :: 0 <= k < |a.toponyms| ==>
      r.value.fields["toponyms"].items[k] == ToponymToDict(a.toponyms[k]).value
  {
    var dicts :- ToponymDicts(a.toponyms);
    IntToStringParses(textId);
    Ok(JObj(map["id" := JStr(IntToString(textId)), "toponyms" := JArr(dicts)]))
  }

  /** An article built by hand and serialised: its toponyms come out with
      their names, in order. */
  lemma ArticleNames(text: Option<string>, ts: seq<Toponym>, textId: int)
    requires ArticleToDict(Article(None, text, ts), textId).Ok?
    ensures PostInit(Article(None, text, ts)) == Ok(Article(None, text, ts))
    ensures var out := ArticleToDict(Article(None, text, ts), textId).value.fields["toponyms"].items;
      forall k :: 0 <= k < |ts| ==> out[k].fields["name"] == JStr(ts[k].phrase)
  {
  }
}
