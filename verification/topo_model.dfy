/** Repair and validation of the toponym model's answer, a JSON object
    `{"toponyms": [...]}` that often comes back truncated or with repeats
    (TopoModel in geo_llama/model.py). */
module TopoModel {
  import opened PyValues
  import opened PyStrings
  import opened PyLists

  /** The text that opens the list in the answer. */
  const ListOpen: string := "[\""

  /** The text between two items of the list. */
  const ItemSep: string := "\", \""

  /** The text after the first `["` and before the next one, as
      json_str.split('["')[1] picks it; IndexError when there is no `["`. */
  function ListPart(s: string): (r: Result<string>)
    ensures r.Err? <==> !Contains(s, ListOpen)
    ensures r.Err? ==> r.error == IndexError
    ensures r.Ok? ==> Contains(s, r.value)
    ensures r.Ok? ==> (Find(s, ListOpen).Some?
      && r.value == Split(s[Find(s, ListOpen).value + |ListOpen|..], ListOpen)[0])
    ensures r.Ok? ==> var start := Find(s, ListOpen).value + |ListOpen|;
      start + |r.value| <= |s| && s[start..start + |r.value|] == r.value
  {
    var pieces := Split(s, ListOpen);
    SplitPiecesOccur(s, ListOpen);
    if |pieces| < 2 then Err(IndexError)
    else (ListPieceShape(s); Ok(pieces[1]))
  }

  /** The piece `ListPart` keeps starts right after the first `["` and is the
      head of the split of what follows. */
  lemma ListPieceShape(s: string)
    requires |Split(s, ListOpen)| >= 2
    ensures Find(s, ListOpen).Some?
    ensures var start := Find(s, ListOpen).value + |ListOpen|;
      Split(s, ListOpen)[1] == Split(s[start..], ListOpen)[0]
      && start + |Split(s, ListOpen)[1]| <= |s|
      && s[start..start + |Split(s, ListOpen)[1]|] == Split(s, ListOpen)[1]
  {
    assert Contains(s, ListOpen) by { SplitHead(s, ListOpen); }
    SplitSecond(s, ListOpen);
    var start := Find(s, ListOpen).value + |ListOpen|;
    HeadOfSuffix(s, start);
  }

  /** The head piece of a suffix of `s` is a slice of `s`. */
  lemma HeadOfSuffix(s: string, start: nat)
    requires start <= |s|
    ensures var h := Split(s[start..], ListOpen)[0];
      start + |h| <= |s| && s[start..start + |h|] == h
  {
    var rest := s[start..];
    var h := Split(rest, ListOpen)[0];
    SplitHead(rest, ListOpen);
    assert rest[..|h|] == s[start..start + |h|];
  }

  /** The number of non-alphanumeric characters at the end of `p`. */
  function TrailingRun(p: string): (k: nat)
    ensures k <= |p|
    ensures forall j :: |p| - k <= j < |p| ==> !IsAlphaNumeric(p[j])
    ensures k < |p| ==> IsAlphaNumeric(p[|p| - 1 - k])
    decreases |p|
  {
    if |p| == 0 || IsAlphaNumeric(p[|p| - 1]) then 0 else 1 + TrailingRun(p[..|p| - 1])
  }

  /** The trailing-character loop and the slice `list_part[:-i]` as the code
      has them. The loop leaves `i` at the count of trailing
      non-alphanumerics when it finds an alphanumeric, at `len - 1` when it
      finds none, and unbound when the text is empty; a slice `[:-0]` is
      empty, so text that ends in a letter or digit is dropped entirely. */
  function StripAsWritten(p: string): (r: Result<string>)
    ensures r.Err? <==> |p| == 0
    ensures r.Err? ==> r.error == UnboundLocalError
  {
    if |p| == 0 then Err(UnboundLocalError)
    else
      var k := TrailingRun(p);
      var i := if k < |p| then k else |p| - 1;
      Ok(if i == 0 then "" else p[..|p| - i])
  }

  /** `p` without its trailing non-alphanumeric characters: what remains is
      empty or ends in a letter or digit, and only non-alphanumerics were
      cut off. */
  function Strip(p: string): (r: string)
    ensures |r| <= |p| && r == p[..|r|]
    ensures |r| > 0 ==> IsAlphaNumeric(r[|r| - 1])
    ensures forall j :: |r| <= j < |p| ==> !IsAlphaNumeric(p[j])
  {
    p[..|p| - TrailingRun(p)]
  }

  /** The items of the list text: split on `", "`, deduplicated (in order of
      first occurrence) and with empty strings dropped. */
  function Items(listText: string): (r: seq<string>)
    ensures Distinct(r)
    ensures forall k :: 0 <= k < |r| ==> |r[k]| > 0
    ensures forall t :: t in r <==> t in Split(listText, ItemSep) && |t| > 0
  {
    var unique := Dedup(Split(listText, ItemSep));
    FilterSpec(unique, NonEmpty);
    var r := Filter(unique, NonEmpty);
    assert forall k :: 0 <= k < |r| ==> r[k] in r;
    assert forall i, j :: 0 <= i < j < |r| ==> r[i] != r[j] by {
      FilteredDistinct(unique, NonEmpty);
    }
    r
  }

  lemma {:induction false} FilteredDistinct(s: seq<string>, p: string -> bool)
    requires Distinct(s)
    ensures Distinct(Filter(s, p))
    decreases |s|
  {
    if |s| > 0 {
      FilteredDistinct(s[1..], p);
      FilterSpec(s[1..], p);
      var r := Filter(s, p);
      if p(s[0]) {
        assert s[0] !in s[1..];
        assert s[0] !in Filter(s[1..], p);
        assert r == [s[0]] + Filter(s[1..], p);
        forall i, j | 0 <= i < j < |r|
          ensures r[i] != r[j]
        {
          if i == 0 {
            assert r[j] in Filter(s[1..], p);
          } else {
            assert r[i] == Filter(s[1..], p)[i - 1];
          }
        }
      }
    }
  }

  /** The toponyms fix_json recovers, as the code has it. */
  function RepairListAsWritten(s: string): Result<seq<string>> {
    var part :- ListPart(s);
    var stripped :- StripAsWritten(part);
    Ok(Items(stripped))
  }

  /** The toponyms fix_json recovers, with the trailing characters stripped
      as intended: distinct, non-empty pieces of the answer itself. */
  function RepairList(s: string): (r: Result<seq<string>>)
    ensures r.Err? <==> !Contains(s, ListOpen)
    ensures r.Err? ==> r.error == IndexError
    ensures r.Ok? ==> Distinct(r.value)
    ensures r.Ok? ==> forall k :: 0 <= k < |r.value| ==> |r.value[k]| > 0 && Contains(s, r.value[k])
  {
    var part :- ListPart(s);
    var stripped := Strip(part);
    ContainsSlice(part, 0, |stripped|);
    ContainsTrans(s, part, stripped);
    ItemsOccur(s, stripped);
    Ok(Items(stripped))
  }

  /** The items of a piece of the answer are pieces of the answer. */
  lemma ItemsOccur(s: string, listText: string)
    requires Contains(s, listText)
    ensures forall k :: 0 <= k < |Items(listText)| ==> Contains(s, Items(listText)[k])
  {
    var r := Items(listText);
    var pieces := Split(listText, ItemSep);
    SplitPiecesOccur(listText, ItemSep);
    forall k | 0 <= k < |r|
      ensures Contains(s, r[k])
    {
      assert r[k] in r;
      var n :| 0 <= n < |pieces| && pieces[n] == r[k];
      ContainsTrans(s, listText, pieces[n]);
    }
  }

  /** Distinct toponyms written as a JSON list, possibly cut short, behind
      any prefix. With the intended stripping they all come back; as
      written they all come back only when something follows the last
      one, and none does when the answer stops right after a letter or
      digit. */
  lemma RepairListReadsList(pre: string, ts: seq<string>, tail: string)
    requires '[' !in pre
    requires |ts| >= 1
    requires forall k :: 0 <= k < |ts| ==> |ts[k]| > 0 && '"' !in ts[k] && '[' !in ts[k]
    requires IsAlphaNumeric(ts[|ts| - 1][|ts[|ts| - 1]| - 1])
    requires forall k :: 0 <= k < |tail| ==> !IsAlphaNumeric(tail[k]) && tail[k] != '['
    ensures RepairList(pre + ListOpen + Join(ItemSep, ts) + tail) == Ok(Dedup(ts))
    ensures RepairListAsWritten(pre + ListOpen + Join(ItemSep, ts) + tail)
         == Ok(if |tail| == 0 then [] else Dedup(ts))
  {
    RepairListOf(pre, ts, tail);
    RepairListAsWrittenOf(pre, ts, tail);
  }

  lemma RepairListOf(pre: string, ts: seq<string>, tail: string)
    requires '[' !in pre
    requires |ts| >= 1
    requires forall k :: 0 <= k < |ts| ==> |ts[k]| > 0 && '"' !in ts[k] && '[' !in ts[k]
    requires IsAlphaNumeric(ts[|ts| - 1][|ts[|ts| - 1]| - 1])
    requires forall k :: 0 <= k < |tail| ==> !IsAlphaNumeric(tail[k]) && tail[k] != '['
    ensures RepairList(pre + ListOpen + Join(ItemSep, ts) + tail) == Ok(Dedup(ts))
  {
    var body := Join(ItemSep, ts);
    var s := pre + ListOpen + body + tail;
    ListPartOf(pre, ts, tail);
    assert ListPart(s) == Ok(body + tail);
    StripOf(ts, tail);
    assert Strip(body + tail) == body;
    ItemsOf(ts);
    assert RepairList(s) == Ok(Items(body));
  }

  lemma RepairListAsWrittenOf(pre: string, ts: seq<string>, tail: string)
    requires '[' !in pre
    requires |ts| >= 1
    requires forall k :: 0 <= k < |ts| ==> |ts[k]| > 0 && '"' !in ts[k] && '[' !in ts[k]
    requires IsAlphaNumeric(ts[|ts| - 1][|ts[|ts| - 1]| - 1])
    requires forall k :: 0 <= k < |tail| ==> !IsAlphaNumeric(tail[k]) && tail[k] != '['
    ensures RepairListAsWritten(pre + ListOpen + Join(ItemSep, ts) + tail)
         == Ok(if |tail| == 0 then [] else Dedup(ts))
  {
    var body := Join(ItemSep, ts);
    var s := pre + ListOpen + body + tail;
    ListPartOf(pre, ts, tail);
    assert ListPart(s) == Ok(body + tail);
    StripOf(ts, tail);
    if |tail| == 0 {
      StripAsWrittenNoTail(body);
      ItemsOfEmpty();
      assert RepairListAsWritten(s) == Ok(Items(""));
    } else {
      ItemsOf(ts);
      assert RepairListAsWritten(s) == Ok(Items(body));
    }
  }

  /** With nothing after the last alphanumeric, the as-written strip keeps
      nothing at all. */
  lemma StripAsWrittenNoTail(body: string)
    requires |body| > 0 && IsAlphaNumeric(body[|body| - 1])
    ensures StripAsWritten(body + "") == Ok("")
  {
    assert body + "" == body;
    TrailingRunOf(body, "");
  }

  lemma ItemsOfEmpty()
    ensures Items("") == []
  {
    SplitNoSeparator("", ItemSep);
    var one: seq<string> := [""];
    assert one[..0] == [];
    assert Dedup(one) == [""];
    assert Filter(one, NonEmpty) == [];
  }

  lemma ListPartOf(pre: string, ts: seq<string>, tail: string)
    requires '[' !in pre
    requires forall k :: 0 <= k < |ts| ==> '[' !in ts[k]
    requires forall k :: 0 <= k < |tail| ==> tail[k] != '['
    ensures ListPart(pre + ListOpen + Join(ItemSep, ts) + tail) == Ok(Join(ItemSep, ts) + tail)
  {
    var body := Join(ItemSep, ts);
    NoBracketInJoin(ts);
    NoBracketInConcat(body, tail);
    ListPartAfter(pre, body + tail);
    ConcatAssoc(pre + ListOpen, body, tail);
  }

  lemma NoBracketInConcat(a: string, b: string)
    requires '[' !in a
    requires forall k :: 0 <= k < |b| ==> b[k] != '['
    ensures '[' !in a + b
  {
  }

  lemma ListPartAfter(pre: string, part: string)
    requires '[' !in pre && '[' !in part
    ensures ListPart(pre + ListOpen + part) == Ok(part)
  {
    SplitAfter(pre, ListOpen, part);
    SplitNoSeparator(part, ListOpen);
  }

  lemma NoBracketInJoin(ts: seq<string>)
    requires forall k :: 0 <= k < |ts| ==> '[' !in ts[k]
    ensures '[' !in Join(ItemSep, ts)
  {
    if '[' in Join(ItemSep, ts) {
      JoinChars(ItemSep, ts, '[');
    }
  }

  lemma StripOf(ts: seq<string>, tail: string)
    requires |ts| >= 1 && |ts[|ts| - 1]| > 0
    requires IsAlphaNumeric(ts[|ts| - 1][|ts[|ts| - 1]| - 1])
    requires forall k :: 0 <= k < |tail| ==> !IsAlphaNumeric(tail[k])
    ensures Strip(Join(ItemSep, ts) + tail) == Join(ItemSep, ts)
    ensures |tail| > 0 ==> StripAsWritten(Join(ItemSep, ts) + tail) == Ok(Join(ItemSep, ts))
  {
    var body := Join(ItemSep, ts);
    var part := body + tail;
    JoinLast(ItemSep, ts);
    TrailingRunOf(body, tail);
    assert part[..|part| - |tail|] == body;
  }

  lemma ItemsOf(ts: seq<string>)
    requires |ts| >= 1
    requires forall k :: 0 <= k < |ts| ==> |ts[k]| > 0 && '"' !in ts[k]
    ensures Items(Join(ItemSep, ts)) == Dedup(ts)
  {
    SplitJoinFirstChar(ItemSep, ts);
    var unique := Dedup(ts);
    assert forall k :: 0 <= k < |unique| ==> unique[k] in ts;
    FilterAll(unique, NonEmpty);
  }

  lemma TrailingRunOf(body: string, tail: string)
    requires |body| > 0 && IsAlphaNumeric(body[|body| - 1])
    requires forall k :: 0 <= k < |tail| ==> !IsAlphaNumeric(tail[k])
    ensures TrailingRun(body + tail) == |tail|
  {
    var p := body + tail;
    assert forall j :: |body| <= j < |p| ==> p[j] == tail[j - |body|];
    assert p[|body| - 1] == body[|body| - 1];
  }

  /** validate_toponyms: the toponyms that occur in the text, in their
      order, each as often as it is listed. */
  function ValidateToponyms(toponyms: seq<string>, text: string): (r: seq<string>)
    ensures IsSubsequence(r, toponyms)
    ensures forall t :: t in r <==> t in toponyms && Contains(text, t)
    ensures forall t :: multiset(r)[t] == (if Contains(text, t) then multiset(toponyms)[t] else 0)
  {
    FilterSpec(toponyms, t => Contains(text, t));
    Filter(toponyms, t => Contains(text, t))
  }

  /** fix_json's dictionary. */
  function FixJson(s: string): (r: Result<Json>)
    ensures r.Ok? ==> r.value.JObj? && r.value.fields.Keys == {"toponyms"}
    ensures r.Err? <==> !Contains(s, ListOpen)
  {
    var ts :- RepairList(s);
    Ok(JObj(map["toponyms" := StringList(ts)]))
  }

  /** fix_json's dictionary, with the trailing characters stripped as the
      code has it. */
  function FixJsonAsWritten(s: string): (r: Result<Json>)
    ensures r.Ok? ==> r.value.JObj? && r.value.fields.Keys == {"toponyms"}
    ensures r.Err? <==> !Contains(s, ListOpen) || ListPart(s) == Ok("")
    ensures r.Err? ==> r.error == (if Contains(s, ListOpen) then UnboundLocalError else IndexError)
  {
    var ts :- RepairListAsWritten(s);
    Ok(JObj(map["toponyms" := StringList(ts)]))
  }

  function StringList(ts: seq<string>): (r: Json)
    ensures r.JArr? && |r.items| == |ts|
    ensures forall k :: 0 <= k < |ts| ==> r.items[k] == JStr(ts[k])
  {
    JArr(seq(|ts|, k requires 0 <= k < |ts| => JStr(ts[k])))
  }

  /** Iterating over the value under `toponyms` and testing `toponym in
      text`: a list must hold strings (anything else raises TypeError), a
      string is iterated character by character, and a value that is not
      iterable raises TypeError. A dict, whose key order this model does
      not keep, is outside the model. */
  function ToponymStrings(v: Json): (r: Result<seq<string>>)
    ensures v.JArr? && r.Ok? ==> |r.value| == |v.items| && forall k :: 0 <= k < |v.items| ==> v.items[k] == JStr(r.value[k])
    ensures v.JArr? ==> (r.Ok? <==> forall k :: 0 <= k < |v.items| ==> v.items[k].JStr?)
  {
    match v
    case JArr(items) =>
      if forall k :: 0 <= k < |items| ==> items[k].JStr? then
        Ok(seq(|items|, k requires 0 <= k < |items| => items[k].s))
      else Err(TypeError)
    case JStr(s) => Ok(seq(|s|, k requires 0 <= k < |s| => [s[k]]))
    case JObj(_) => Err(UnsupportedFormat)
    case _ => Err(TypeError)
  }

  /** The quote fix clean_response applies before parsing. */
  function FixQuotes(response: string): string {
    Replace(response, "'", "\"")
  }

  /** The answer parsed strictly with `loads`, or by fix_json as written
      when that fails. */
  function ParseAnswerAsWritten(fixed: string, loads: string -> Option<Json>): Result<Json> {
    match loads(fixed)
    case Some(v) => Ok(v)
    case None => FixJsonAsWritten(fixed)
  }

  /** The answer parsed strictly with `loads`, or by the corrected fix_json
      when that fails. */
  function ParseAnswer(fixed: string, loads: string -> Option<Json>): Result<Json> {
    match loads(fixed)
    case Some(v) => Ok(v)
    case None => FixJson(fixed)
  }

  /** The toponym list the answer parsed as the code has it holds under
      `toponyms`. */
  function AnswerToponymsAsWritten(response: string, loads: string -> Option<Json>): Result<seq<string>> {
    var output :- ParseAnswerAsWritten(FixQuotes(response), loads);
    var field :- Get(output, "toponyms");
    ToponymStrings(field)
  }

  /** The toponym list the parsed answer holds under `toponyms`. */
  function AnswerToponyms(response: string, loads: string -> Option<Json>): Result<seq<string>> {
    var output :- ParseAnswer(FixQuotes(response), loads);
    var field :- Get(output, "toponyms");
    ToponymStrings(field)
  }

  /** Reading a list of strings back gives the strings. */
  lemma ToponymStringsOfList(ts: seq<string>)
    ensures ToponymStrings(StringList(ts)) == Ok(ts)
  {
    var r := ToponymStrings(StringList(ts));
    assert r.Ok? && |r.value| == |ts|;
    assert forall k :: 0 <= k < |ts| ==> JStr(r.value[k]) == JStr(ts[k]);
    assert r.value == ts;
  }

  /** When strict parsing fails, the toponym list is the list fix_json
      recovers as written. */
  lemma FallbackToponymsAsWritten(response: string, loads: string -> Option<Json>)
    ensures loads(FixQuotes(response)).None? ==>
      AnswerToponymsAsWritten(response, loads) == RepairListAsWritten(FixQuotes(response))
  {
    var fixed := FixQuotes(response);
    if loads(fixed).None? {
      match RepairListAsWritten(fixed)
      case Ok(ts) =>
        assert Get(JObj(map["toponyms" := StringList(ts)]), "toponyms") == Ok(StringList(ts));
        ToponymStringsOfList(ts);
      case Err(e) =>
    }
  }

  /** When strict parsing fails, the toponym list is fix_json's list. */
  lemma FallbackToponyms(response: string, loads: string -> Option<Json>)
    ensures loads(FixQuotes(response)).None? ==>
      AnswerToponyms(response, loads) == RepairList(FixQuotes(response))
  {
    var fixed := FixQuotes(response);
    if loads(fixed).None? {
      match RepairList(fixed)
      case Ok(ts) =>
        assert Get(JObj(map["toponyms" := StringList(ts)]), "toponyms") == Ok(StringList(ts));
        ToponymStringsOfList(ts);
      case Err(e) =>
    }
  }

  /** clean_response as written: fix the quotes, parse strictly with
      `loads` or fall back to fix_json as written, then keep the toponyms
      that occur in the text. Whatever the model answered, every toponym
      returned occurs in the text; the fix_json path also has no repeats,
      but a strictly parsed list keeps any repeats it had. On the fix_json
      path the call raises IndexError without a `["`, and
      UnboundLocalError when nothing follows the first `["`. */
  function CleanResponseAsWritten(response: string, text: string, loads: string -> Option<Json>): (r: Result<seq<string>>)
    ensures r.Ok? ==> forall k :: 0 <= k < |r.value| ==> Contains(text, r.value[k])
    ensures r.Ok? <==> AnswerToponymsAsWritten(response, loads).Ok?
    ensures r.Ok? ==> r.value == ValidateToponyms(AnswerToponymsAsWritten(response, loads).value, text)
    ensures loads(FixQuotes(response)).None? ==>
      (r.Err? <==> !Contains(FixQuotes(response), ListOpen) || ListPart(FixQuotes(response)) == Ok(""))
    ensures loads(FixQuotes(response)).None? && r.Err? ==>
      r.error == (if Contains(FixQuotes(response), ListOpen) then UnboundLocalError else IndexError)
    ensures loads(FixQuotes(response)).None? && r.Ok? ==>
      RepairListAsWritten(FixQuotes(response)).Ok? && Distinct(r.value)
      && r.value == ValidateToponyms(RepairListAsWritten(FixQuotes(response)).value, text)
  {
    FallbackToponymsAsWritten(response, loads);
    var toponyms :- AnswerToponymsAsWritten(response, loads);
    var r := ValidateToponyms(toponyms, text);
    assert forall k :: 0 <= k < |r| ==> r[k] in r;
    if loads(FixQuotes(response)).None? then
      SubsequenceDistinct(r, toponyms);
      Ok(r)
    else Ok(r)
  }

  /** A strictly parsed answer that lists toponyms comes back as those of
      them that occur in the text, in order, repeats included. */
  lemma CleanResponseStrictList(response: string, text: string, loads: string -> Option<Json>, ts: seq<string>)
    requires loads(FixQuotes(response)) == Some(JObj(map["toponyms" := StringList(ts)]))
    ensures CleanResponseAsWritten(response, text, loads) == Ok(ValidateToponyms(ts, text))
  {
    var v := StringList(ts);
    assert Get(JObj(map["toponyms" := v]), "toponyms") == Ok(v);
    ToponymStringsOfList(ts);
  }

  /** clean_response as its documentation describes it, with the corrected
      fix_json: the toponyms of the answer that occur in the text, each
      once, in order of first occurrence. A strictly parsed answer gives
      the code's toponyms without repeats; on the fix_json path the call
      fails exactly when there is no `["`, and gives the repaired list
      filtered by the text. */
  function CleanResponse(response: string, text: string, loads: string -> Option<Json>): (r: Result<seq<string>>)
    ensures r.Ok? <==> AnswerToponyms(response, loads).Ok?
    ensures r.Ok? ==> Distinct(r.value)
    ensures r.Ok? ==> forall t :: t in r.value <==> t in AnswerToponyms(response, loads).value && Contains(text, t)
    ensures r.Ok? ==> forall k :: 0 <= k < |r.value| ==> Contains(text, r.value[k])
    ensures loads(FixQuotes(response)).Some? ==>
      && (r.Ok? <==> CleanResponseAsWritten(response, text, loads).Ok?)
      && (r.Ok? ==> r.value == Dedup(CleanResponseAsWritten(response, text, loads).value))
    ensures loads(FixQuotes(response)).None? ==>
      && (r.Err? <==> !Contains(FixQuotes(response), ListOpen))
      && (r.Ok? ==> r.value == ValidateToponyms(RepairList(FixQuotes(response)).value, text))
  {
    FallbackToponyms(response, loads);
    var ts :- AnswerToponyms(response, loads);
    var valid := ValidateToponyms(ts, text);
    if loads(FixQuotes(response)).None? then
      SubsequenceDistinct(valid, ts);
      DedupDistinct(valid);
      Ok(Dedup(valid))
    else
      var r := Dedup(valid);
      assert forall k :: 0 <= k < |r| ==> r[k] in r && r[k] in valid;
      Ok(r)
  }
}
