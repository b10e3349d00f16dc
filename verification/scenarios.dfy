/** The cases the repository's unit tests exercise, stated on the model:
    each test input, written out as the concatenation of its parts, and
    the output the test expects. */
module Scenarios {
  import opened PyValues
  import opened PyStrings
  import opened PyLists
  import opened Lexer
  import RagModel
  import Numbers
  import TopoModel

  // ---------------------------------------------------------------------
  // extract_words

  /** `{"name":"Paris"}` reads as the words name and Paris. */
  lemma ExtractWordsStripsCharacters()
    ensures ExtractWords("{\"" + "name" + "\":\"" + "Paris" + "\"}") == ["name", "Paris"]
  {
    var tokens := ["name", "Paris"];
    var seps := ["{\"", "\":\"", "\"}"];
    assert Render(tokens, seps) == "{\"" + "name" + ("\":\"" + "Paris" + "\"}") by {
      assert tokens[1..] == ["Paris"] && seps[1..] == ["\":\"", "\"}"];
      assert tokens[1..][1..] == [] && seps[1..][1..] == ["\"}"];
    }
    ConcatAssoc("{\"" + "name", "\":\"" + "Paris", "\"}");
    ConcatAssoc("{\"" + "name", "\":\"", "Paris");
    ExtractRendered(tokens, seps);
  }

  /** Hyphenated, apostrophised and accented words and a word with digits
      are word tokens. */
  lemma CompoundWords()
    ensures IsWordToken("Champs-Elysees") && IsWordToken("d'Huez")
    ensures IsWordToken("\U{00C9}lys\U{00E9}es") && IsWordToken("129a")
  {
    Hyphenated();
    Apostrophised();
  }

  lemma Hyphenated()
    ensures IsWordToken("Champs-Elysees")
  {
  }

  lemma Apostrophised()
    ensures IsWordToken("d'Huez")
  {
  }

  /** Unsigned and signed decimals are tokens. */
  lemma Decimals()
    ensures IsWordToken("2.34") && IsNegativeNumber("-2.34")
  {
    assert "-2.34"[1..] == "2.34";
  }

  /** Hyphenated, apostrophised and accented words, a word with digits, and
      signed and unsigned decimals each come out as one word. */
  lemma ExtractWordsKeepsCompounds()
    ensures var tokens := ["Champs-Elysees", "d'Huez", "\U{00C9}lys\U{00E9}es", "129a", "2.34", "-2.34"];
      ExtractWords(Render(tokens, [" ", " ", " ", " ", " ", " ", ""])) == tokens
  {
    var tokens := ["Champs-Elysees", "d'Huez", "\U{00C9}lys\U{00E9}es", "129a", "2.34", "-2.34"];
    var seps := [" ", " ", " ", " ", " ", " ", ""];
    CompoundWords();
    Decimals();
    assert forall k :: 0 <= k < |tokens| ==> IsToken(tokens[k]);
    assert Renderable(tokens, seps);
    ExtractRendered(tokens, seps);
  }

  // ---------------------------------------------------------------------
  // add_missing_keys

  /** The words a present key contributes to a layout. */
  function Entry(key: string, v: Option<string>): seq<string> {
    if v.Some? then [key, v.value] else []
  }

  /** A four-key layout, spelled out. */
  lemma LayoutOfFour(k0: string, k1: string, k2: string, k3: string,
                     v0: Option<string>, v1: Option<string>, v2: Option<string>, v3: Option<string>)
    ensures RagModel.Layout([k0, k1, k2, k3], [v0, v1, v2, v3]) == Entry(k0, v0) + Entry(k1, v1) + Entry(k2, v2) + Entry(k3, v3)
    ensures RagModel.Completed([v0, v1, v2, v3])
         == [Some(if v0.Some? then v0.value else "False"), Some(if v1.Some? then v1.value else "False"),
             Some(if v2.Some? then v2.value else "False"), Some(if v3.Some? then v3.value else "False")]
  {
    var e0, e1, e2, e3 := Entry(k0, v0), Entry(k1, v1), Entry(k2, v2), Entry(k3, v3);
    assert RagModel.Layout([k3], [v3]) == e3 by {
      assert RagModel.Layout([k3][1..], [v3][1..]) == [];
    }
    assert RagModel.Layout([k2, k3], [v2, v3]) == e2 + e3 by {
      assert [k2, k3][1..] == [k3] && [v2, v3][1..] == [v3];
    }
    assert RagModel.Layout([k1, k2, k3], [v1, v2, v3]) == e1 + (e2 + e3) by {
      assert [k1, k2, k3][1..] == [k2, k3] && [v1, v2, v3][1..] == [v2, v3];
    }
    assert RagModel.Layout([k0, k1, k2, k3], [v0, v1, v2, v3]) == e0 + (e1 + (e2 + e3)) by {
      assert [k0, k1, k2, k3][1..] == [k1, k2, k3] && [v0, v1, v2, v3][1..] == [v1, v2, v3];
    }
    ConcatAssoc(e1, e2, e3);
    ConcatAssoc(e0, e1 + e2, e3);
    ConcatAssoc(e0, e1, e2);
    CompletedOfFour(v0, v1, v2, v3);
  }

  lemma CompletedOfFour(v0: Option<string>, v1: Option<string>, v2: Option<string>, v3: Option<string>)
    ensures RagModel.Completed([v0, v1, v2, v3])
         == [Some(if v0.Some? then v0.value else "False"), Some(if v1.Some? then v1.value else "False"),
             Some(if v2.Some? then v2.value else "False"), Some(if v3.Some? then v3.value else "False")]
  {
    var c3 := RagModel.Completed([v3]);
    assert c3 == [Some(if v3.Some? then v3.value else "False")] by {
      assert RagModel.Completed([v3][1..]) == [];
    }
    assert [v2, v3][1..] == [v3] && [v1, v2, v3][1..] == [v2, v3] && [v0, v1, v2, v3][1..] == [v1, v2, v3];
    assert RagModel.Completed([v2, v3]) == [Some(if v2.Some? then v2.value else "False")] + c3;
    assert RagModel.Completed([v1, v2, v3]) == [Some(if v1.Some? then v1.value else "False")] + RagModel.Completed([v2, v3]);
  }

  /** One key missing, as in the test with a name, a longitude and a
      flag: its pair goes in where it belongs, whatever the values. */
  lemma AddMissingKeysOneMissing(name: string, lon: string, flag: string)
    requires name !in RagModel.ExpectedKeys && lon !in RagModel.ExpectedKeys && flag !in RagModel.ExpectedKeys
    ensures RagModel.AddMissingKeys(["name", name, "longitude", lon, "RAG_estimated", flag], RagModel.ExpectedKeys)
         == ["name", name, "latitude", "False", "longitude", lon, "RAG_estimated", flag]
  {
    var vals := [Some(name), None, Some(lon), Some(flag)];
    RagModel.AddMissingKeysRestoresLayout(RagModel.ExpectedKeys, vals);
    LayoutOfFour("name", "latitude", "longitude", "RAG_estimated", Some(name), None, Some(lon), Some(flag));
    LayoutOfFour("name", "latitude", "longitude", "RAG_estimated", Some(name), Some("False"), Some(lon), Some(flag));
    Pairs("name", name, "longitude", lon, "RAG_estimated", flag);
    Pairs4("name", name, "latitude", "False", "longitude", lon, "RAG_estimated", flag);
  }

  /** Three pairs laid out with an absent pair among them. */
  lemma Pairs(a: string, b: string, c: string, d: string, e: string, f: string)
    ensures [a, b] + [] + [c, d] + [e, f] == [a, b, c, d, e, f]
  {
  }

  /** Four pairs laid out. */
  lemma Pairs4(a: string, b: string, c: string, d: string, e: string, f: string, g: string, h: string)
    ensures [a, b] + [c, d] + [e, f] + [g, h] == [a, b, c, d, e, f, g, h]
  {
  }

  /** A reply without a latitude: the filled-in 'False' becomes the
      latitude, and, being the first boolean word, the flag too, whatever
      flag the reply itself gave. */
  lemma MissingLatitudeOverridesFlag(name: string, lon: string, flag: string)
    requires name !in RagModel.ExpectedKeys && lon !in RagModel.ExpectedKeys && flag !in RagModel.ExpectedKeys
    requires !RagModel.IsBoolWord(name) && Numbers.LiteralEval(lon).Ok?
    ensures RagModel.RepairWords(["name", name, "longitude", lon, "RAG_estimated", flag])
         == Ok(RagModel.Record(name, JBool(false), Numbers.LiteralEval(lon).value, JBool(false)))
  {
    assert RagModel.Placeholder !in RagModel.ExpectedKeys && Lower(RagModel.Placeholder) == "false";
    ReadFilledLatitude(name, RagModel.Placeholder, lon, flag);
    RepairWithoutLatitude(name, lon, flag);
  }

  /** Words without a latitude are read once its placeholder pair is in. */
  lemma RepairWithoutLatitude(name: string, lon: string, flag: string)
    requires name !in RagModel.ExpectedKeys && lon !in RagModel.ExpectedKeys && flag !in RagModel.ExpectedKeys
    ensures RagModel.RepairWords(["name", name, "longitude", lon, "RAG_estimated", flag])
         == RagModel.ReadRecord(RagModel.RecordTokens([name], RagModel.Placeholder, lon, flag))
  {
    var words := ["name", name, "longitude", lon, "RAG_estimated", flag];
    assert !RagModel.AllKeysIn(words, RagModel.ExpectedKeys) by {
      assert RagModel.ExpectedKeys[1] !in words;
    }
    AddMissingKeysOneMissing(name, lon, flag);
    RecordTokensOfOne(name, RagModel.Placeholder, lon, flag);
    RagModel.RepairWordsFilled(words);
  }

  /** Downstream of the misplaced key: as written, an answer with only a
      name and the flag puts `False RAG_estimated true` between the
      latitude and longitude keys, which literal_eval rejects, so fix_json
      raises. Corrected, the same answer is repaired (RepairNameAndFlag). */
  lemma RepairWordsAsWrittenRaises()
    ensures RagModel.RepairWordsAsWritten(["name", "Paris", "RAG_estimated", "true"]) == Err(MalformedLiteral)
  {
    var w0 := ["name", "Paris", "RAG_estimated", "true"];
    assert !RagModel.AllKeysIn(w0, RagModel.ExpectedKeys) by {
      assert RagModel.ExpectedKeys[1] !in w0;
    }
    RagModel.AddMissingKeysAsWrittenMisplaces();
    MisplacedLatitudeRaises("Paris", "true");
  }

  /** The corrected repair of a name and a flag alone: both coordinates
      and the flag are the filled-in False. */
  lemma RepairNameAndFlag(name: string, flag: string)
    requires name !in RagModel.ExpectedKeys && flag !in RagModel.ExpectedKeys && !RagModel.IsBoolWord(name)
    ensures RagModel.RepairWords(["name", name, "RAG_estimated", flag])
         == Ok(RagModel.Record(name, JBool(false), JBool(false), JBool(false)))
  {
    var w0 := ["name", name, "RAG_estimated", flag];
    assert !RagModel.AllKeysIn(w0, RagModel.ExpectedKeys) by {
      assert RagModel.ExpectedKeys[1] !in w0;
    }
    AddMissingKeysNameAndFlag(name, flag);
    RecordTokensOfOne(name, RagModel.Placeholder, RagModel.Placeholder, flag);
    RagModel.RepairWordsFilled(w0);
    RagModel.PlaceholderIsBoolWord();
    assert RagModel.Placeholder !in RagModel.ExpectedKeys;
    ReadFilledLatitude(name, RagModel.Placeholder, RagModel.Placeholder, flag);
  }

  /** Both coordinates missing: each gets its placeholder pair, in order. */
  lemma AddMissingKeysNameAndFlag(name: string, flag: string)
    requires name !in RagModel.ExpectedKeys && flag !in RagModel.ExpectedKeys
    ensures RagModel.AddMissingKeys(["name", name, "RAG_estimated", flag], RagModel.ExpectedKeys)
         == ["name", name, "latitude", "False", "longitude", "False", "RAG_estimated", flag]
  {
    var vals := [Some(name), None, None, Some(flag)];
    RagModel.AddMissingKeysRestoresLayout(RagModel.ExpectedKeys, vals);
    LayoutOfFour("name", "latitude", "longitude", "RAG_estimated", Some(name), None, None, Some(flag));
    LayoutOfFour("name", "latitude", "longitude", "RAG_estimated", Some(name), Some("False"), Some("False"), Some(flag));
    OuterPairs("name", name, "RAG_estimated", flag);
    Pairs4("name", name, "latitude", "False", "longitude", "False", "RAG_estimated", flag);
  }

  /** Two pairs laid out with two absent pairs between them. */
  lemma OuterPairs(a: string, b: string, c: string, d: string)
    ensures [a, b] + [] + [] + [c, d] == [a, b, c, d]
  {
  }

  /** With the longitude pair after the flag, the latitude slice runs
      over RAG_estimated and the flag, and is no literal. */
  lemma MisplacedLatitudeRaises(name: string, flag: string)
    requires name != "latitude" && name != "longitude" && flag != "longitude"
    ensures RagModel.ReadRecord(["name", name, "latitude", "False", "RAG_estimated", flag, "longitude", "False"])
         == Err(MalformedLiteral)
  {
    var words := ["name", name, "latitude", "False", "RAG_estimated", flag, "longitude", "False"];
    var mid := ["False", "RAG_estimated", flag];
    RagModel.GetWordBetween(["name", name], "latitude", mid, "longitude", ["False"]);
    assert ["name", name] + ["latitude"] + mid + ["longitude"] + ["False"] == words;
    assert words[0] == "name" && words[2] == "latitude" && words[4] == "RAG_estimated" && words[6] == "longitude";
    assert RagModel.GetWord(words, Some("name"), Some("latitude")).Ok?;
    assert RagModel.GetWord(words, Some("longitude"), Some("RAG_estimated")).Ok?;
    LatitudeSliceNotLiteral(flag);
  }

  /** `False RAG_estimated <flag>` is no literal. */
  lemma LatitudeSliceNotLiteral(flag: string)
    ensures Numbers.LiteralEval(Join(" ", ["False", "RAG_estimated", flag])) == Err(MalformedLiteral)
  {
    var parts := ["False", "RAG_estimated", flag];
    var lat := Join(" ", parts);
    assert parts[1..] == ["RAG_estimated", flag] && parts[1..][1..] == [flag];
    assert Join(" ", [flag]) == flag;
    assert Join(" ", ["RAG_estimated", flag]) == "RAG_estimated" + " " + flag;
    assert lat == "False" + " " + ("RAG_estimated" + " " + flag);
    assert lat[0] == 'F' && |lat| > 5;
    Numbers.NotDecimal(lat);
  }

  /** The words of an answer whose name is one word. */
  lemma RecordTokensOfOne(name: string, lat: string, lon: string, flag: string)
    ensures RagModel.RecordTokens([name], lat, lon, flag)
         == ["name", name, "latitude", lat, "longitude", lon, "RAG_estimated", flag]
  {
  }

  /** The words of an answer whose latitude is itself a boolean word: that
      word is read as the latitude and also as the flag. */
  lemma ReadFilledLatitude(name: string, lat: string, lon: string, flag: string)
    requires name !in RagModel.ExpectedKeys && lon !in RagModel.ExpectedKeys && lat !in RagModel.ExpectedKeys
    requires !RagModel.IsBoolWord(name) && Lower(lat) == "false"
    requires Numbers.LiteralEval(lat) == Ok(JBool(false)) && Numbers.LiteralEval(lon).Ok?
    ensures RagModel.ReadRecord(RagModel.RecordTokens([name], lat, lon, flag))
         == Ok(RagModel.Record(name, JBool(false), Numbers.LiteralEval(lon).value, JBool(false)))
  {
    var filled := RagModel.RecordTokens([name], lat, lon, flag);
    assert RagModel.KeyFree([name], lat, lon);
    RagModel.NameWords([name], lat, lon, flag);
    RagModel.LatitudeWord([name], lat, lon, flag);
    RagModel.LongitudeWord([name], lat, lon, flag);
    assert Join(" ", [name]) == name;
    RagModel.RecordFirstBool([name], lat, lon, flag);
    RagModel.ReadRecordOf(filled, name, lat, lon, lat);
  }

  /** Two keys missing, one in the middle and one at the end, as in the
      test with a name and a longitude only. */
  lemma AddMissingKeysMultipleMissing(name: string, lon: string)
    requires name !in RagModel.ExpectedKeys && lon !in RagModel.ExpectedKeys
    ensures RagModel.AddMissingKeys(["name", name, "longitude", lon], RagModel.ExpectedKeys)
         == ["name", name, "latitude", "False", "longitude", lon, "RAG_estimated", "False"]
  {
    var vals := [Some(name), None, Some(lon), None];
    RagModel.AddMissingKeysRestoresLayout(RagModel.ExpectedKeys, vals);
    LayoutOfFour("name", "latitude", "longitude", "RAG_estimated", Some(name), None, Some(lon), None);
    LayoutOfFour("name", "latitude", "longitude", "RAG_estimated", Some(name), Some("False"), Some(lon), Some("False"));
    TwoPairs("name", name, "longitude", lon);
    Pairs4("name", name, "latitude", "False", "longitude", lon, "RAG_estimated", "False");
  }

  /** Two pairs laid out with absent pairs after each. */
  lemma TwoPairs(a: string, b: string, c: string, d: string)
    ensures [a, b] + [] + [c, d] + [] == [a, b, c, d]
  {
  }

  /** The test's words: Paris, 2.34 and True are not keys. */
  lemma AddMissingKeysTestWords()
    ensures RagModel.AddMissingKeys(["name", "Paris", "longitude", "2.34", "RAG_estimated", "True"], RagModel.ExpectedKeys)
         == ["name", "Paris", "latitude", "False", "longitude", "2.34", "RAG_estimated", "True"]
    ensures RagModel.AddMissingKeys(["name", "Paris", "longitude", "2.34"], RagModel.ExpectedKeys)
         == ["name", "Paris", "latitude", "False", "longitude", "2.34", "RAG_estimated", "False"]
  {
    AddMissingKeysOneMissing("Paris", "2.34", "True");
    AddMissingKeysMultipleMissing("Paris", "2.34");
  }

  // ---------------------------------------------------------------------
  // validate_json

  /** No matches: RAG_estimated is false and the name is kept. */
  lemma ValidateJsonEmptyList()
    ensures RagModel.ValidateJson(JObj(map["name" := JStr("paris")]), [])
         == Ok(JObj(map["name" := JStr("paris"), "RAG_estimated" := JBool(false)]))
  {
  }

  function Origin(): Json {
    JObj(map["latitude" := JNum(0.0), "longitude" := JNum(0.0)])
  }

  function Point(lat: real, lon: real): Json {
    JObj(map["lat" := JNum(lat), "lon" := JNum(lon)])
  }

  /** A match a ten-thousandth of a degree away counts. */
  lemma ValidateJsonLocationInMatches()
    ensures RagModel.ValidateJson(Origin(), [Point(40.0, 22.0), Point(0.0001, 0.0001)])
         == Ok(JObj(Origin().fields["RAG_estimated" := JBool(true)]))
  {
    var matches := [Point(40.0, 22.0), Point(0.0001, 0.0001)];
    assert RagModel.Within(Origin(), matches[1]);
  }

  /** Matches a hundredth of a degree away or further do not. */
  lemma ValidateJsonLocationNotInMatches()
    ensures RagModel.ValidateJson(Origin(), [Point(40.0, 22.0), Point(0.01, 0.01)])
         == Ok(JObj(Origin().fields["RAG_estimated" := JBool(false)]))
  {
    var matches := [Point(40.0, 22.0), Point(0.01, 0.01)];
    assert !RagModel.Within(Origin(), matches[0]);
    assert !RagModel.Within(Origin(), matches[1]);
  }

  // ---------------------------------------------------------------------
  // TopoModel.fix_json and validate_toponyms

  /** Three different toponyms come back as they are. */
  lemma DedupThree(a: string, b: string, c: string)
    requires a != b && b != c && a != c
    ensures Dedup([a, b, c]) == [a, b, c]
  {
    DedupTwo(a, b);
    assert [a, b, c][..2] == [a, b];
    assert c !in [a, b];
    assert Dedup([a, b, c]) == [a, b] + [c];
  }

  lemma DedupTwo(a: string, b: string)
    requires a != b
    ensures Dedup([a, b]) == [a, b]
  {
    assert [a][..0] == [];
    assert Dedup([a]) == [] + [a];
    assert [a, b][..1] == [a];
    assert Dedup([a, b]) == [a] + [b];
  }

  /** A toponym repeated last comes back once. */
  lemma DedupRepeat(a: string, b: string)
    requires a != b
    ensures Dedup([a, b, a]) == [a, b]
  {
    DedupTwo(a, b);
    assert [a, b, a][..2] == [a, b];
  }

  /** The three toponyms of the tests are words without quotes or
      brackets, and the last ends in a letter. */
  lemma TestToponyms(ts: seq<string>)
    requires ts == ["toponym1", "toponym2", "top"] || ts == ["toponym1", "toponym2", "toponym1"]
    ensures forall k :: 0 <= k < |ts| ==> |ts[k]| > 0 && '"' !in ts[k] && '[' !in ts[k]
    ensures IsAlphaNumeric(ts[|ts| - 1][|ts[|ts| - 1]| - 1])
  {
    assert '"' !in "toponym1" && '[' !in "toponym1";
    assert '"' !in "toponym2" && '[' !in "toponym2";
    assert '"' !in "top" && '[' !in "top";
    assert "toponym1"[7] == '1' && "top"[2] == 'p';
  }

  /** The answer cut short inside its last toponym keeps all three. */
  lemma TopoFixJsonTruncated()
    ensures TopoModel.RepairList("{\"toponyms\":" + TopoModel.ListOpen + Join(TopoModel.ItemSep, ["toponym1", "toponym2", "top"]) + "]}")
         == Ok(["toponym1", "toponym2", "top"])
  {
    var ts := ["toponym1", "toponym2", "top"];
    TestToponyms(ts);
    TopoModel.RepairListReadsList("{\"toponyms\":", ts, "]}");
    DedupThree("toponym1", "toponym2", "top");
  }

  /** A repeated toponym comes back once. */
  lemma TopoFixJsonRepeated()
    ensures TopoModel.RepairList("{\"toponyms\":" + TopoModel.ListOpen + Join(TopoModel.ItemSep, ["toponym1", "toponym2", "toponym1"]) + "\"]}")
         == Ok(["toponym1", "toponym2"])
  {
    var ts := ["toponym1", "toponym2", "toponym1"];
    TestToponyms(ts);
    TopoModel.RepairListReadsList("{\"toponyms\":", ts, "\"]}");
    DedupRepeat("toponym1", "toponym2");
  }

  /** As written, an answer cut short right after a letter loses every
      toponym. */
  lemma TopoFixJsonAsWrittenDropsAll()
    ensures TopoModel.RepairListAsWritten("{\"toponyms\":" + TopoModel.ListOpen + Join(TopoModel.ItemSep, ["toponym1", "toponym2", "top"]))
         == Ok([])
    ensures TopoModel.RepairList("{\"toponyms\":" + TopoModel.ListOpen + Join(TopoModel.ItemSep, ["toponym1", "toponym2", "top"]))
         == Ok(["toponym1", "toponym2", "top"])
  {
    var ts := ["toponym1", "toponym2", "top"];
    var s := "{\"toponyms\":" + TopoModel.ListOpen + Join(TopoModel.ItemSep, ts);
    assert s + "" == s;
    TestToponyms(ts);
    TopoModel.RepairListReadsList("{\"toponyms\":", ts, "");
    DedupThree("toponym1", "toponym2", "top");
  }

  /** An answer that stops right after its `["`, such as
      `{"toponyms": ["`, raises UnboundLocalError as written; the corrected
      clean-up answers no toponyms. */
  lemma TopoEmptyListRaises(pre: string, text: string, loads: string -> Option<Json>)
    requires '[' !in pre && '\'' !in pre
    requires loads(pre + TopoModel.ListOpen).None?
    ensures TopoModel.CleanResponseAsWritten(pre + TopoModel.ListOpen, text, loads) == Err(UnboundLocalError)
    ensures TopoModel.CleanResponse(pre + TopoModel.ListOpen, text, loads) == Ok([])
  {
    var s := pre + TopoModel.ListOpen;
    assert TopoModel.FixQuotes(s) == s by {
      ContainsChar(s, '\'');
      ReplaceAbsent(s, "'", "\"");
    }
    assert s + "" == s;
    TopoModel.ListPartAfter(pre, "");
    ContainsSlice(s, |pre|, |s|);
    assert s[|pre|..|s|] == TopoModel.ListOpen;
    assert TopoModel.Strip("") == "";
    TopoModel.ItemsOfEmpty();
  }

  /** An answer cut short right after a letter, such as
      `{"toponyms": ["Paris", "Lon`, loses every toponym as written; the
      corrected clean-up keeps those the text mentions. */
  lemma TopoTruncatedAnswerDropsAll(pre: string, ts: seq<string>, text: string, loads: string -> Option<Json>)
    requires '[' !in pre
    requires |ts| >= 1
    requires forall k :: 0 <= k < |ts| ==> |ts[k]| > 0 && '"' !in ts[k] && '[' !in ts[k]
    requires IsAlphaNumeric(ts[|ts| - 1][|ts[|ts| - 1]| - 1])
    requires '\'' !in pre + TopoModel.ListOpen + Join(TopoModel.ItemSep, ts)
    requires loads(pre + TopoModel.ListOpen + Join(TopoModel.ItemSep, ts)).None?
    ensures TopoModel.CleanResponseAsWritten(pre + TopoModel.ListOpen + Join(TopoModel.ItemSep, ts), text, loads) == Ok([])
    ensures TopoModel.CleanResponse(pre + TopoModel.ListOpen + Join(TopoModel.ItemSep, ts), text, loads)
         == Ok(TopoModel.ValidateToponyms(Dedup(ts), text))
  {
    var s := pre + TopoModel.ListOpen + Join(TopoModel.ItemSep, ts);
    assert TopoModel.FixQuotes(s) == s by {
      ContainsChar(s, '\'');
      ReplaceAbsent(s, "'", "\"");
    }
    assert s + "" == s;
    TopoModel.RepairListReadsList(pre, ts, "");
  }

  /** Four toponyms of which the text mentions the first three. */
  lemma KeepsMentioned(a: string, b: string, c: string, d: string, text: string)
    requires Contains(text, a) && Contains(text, b) && Contains(text, c) && !Contains(text, d)
    ensures TopoModel.ValidateToponyms([a, b, c, d], text) == [a, b, c]
  {
    var p := t => Contains(text, t);
    assert Filter([d], p) == [] by { assert [d][1..] == []; }
    assert Filter([c, d], p) == [c] by { assert [c, d][1..] == [d]; }
    assert Filter([b, c, d], p) == [b, c] by { assert [b, c, d][1..] == [c, d]; }
    assert Filter([a, b, c, d], p) == [a, b, c] by { assert [a, b, c, d][1..] == [b, c, d]; }
  }

  /** The test's text, with the years each city hosted the games. */
  function HostText(): string {
    "London" + " (2012), " + "Rio de Janeiro" + " (2016), " + "Tokyo" + " (2020)"
  }

  lemma HostTextMentions()
    ensures Contains(HostText(), "London") && Contains(HostText(), "Rio de Janeiro") && Contains(HostText(), "Tokyo")
  {
    var text := HostText();
    ContainsSlice(text, 0, 6);
    assert text[0..6] == "London";
    ContainsSlice(text, 15, 29);
    assert text[15..29] == "Rio de Janeiro";
    ContainsSlice(text, 38, 43);
    assert text[38..43] == "Tokyo";
  }

  lemma HostTextOmitsParis()
    ensures !Contains(HostText(), "Paris")
  {
    var text := HostText();
    assert 'P' !in text;
    ContainsChar(text, 'P');
    ContainsChar("Paris", 'P');
    if Contains(text, "Paris") {
      ContainsTrans(text, "Paris", "P");
    }
  }

  /** An answer that parses strictly to one toponym listed twice, such as
      `{"toponyms": ["Paris", "Paris"]}`, keeps both entries, although the
      code's documentation promises unique toponyms. */
  lemma TopoStrictKeepsRepeats(response: string, t: string, loads: string -> Option<Json>)
    requires '\'' !in response
    requires loads(response) == Some(JObj(map["toponyms" := JArr([JStr(t), JStr(t)])]))
    ensures TopoModel.CleanResponseAsWritten(response, t, loads) == Ok([t, t])
  {
    var ts := [t, t];
    assert TopoModel.FixQuotes(response) == response by {
      ContainsChar(response, '\'');
      ReplaceAbsent(response, "'", "\"");
    }
    var v := TopoModel.StringList(ts);
    assert v == JArr([JStr(t), JStr(t)]) by {
      assert |v.items| == 2 && v.items[0] == JStr(t) && v.items[1] == JStr(t);
    }
    TopoModel.CleanResponseStrictList(response, t, loads, ts);
    assert TopoModel.ValidateToponyms(ts, t) == ts by {
      assert OccursAt(t, t, 0);
      FilterAll(ts, x => Contains(t, x));
    }
  }

  /** The corrected clean-up keeps the toponym once. */
  lemma TopoDedupsRepeats(response: string, t: string, loads: string -> Option<Json>)
    requires '\'' !in response
    requires loads(response) == Some(JObj(map["toponyms" := JArr([JStr(t), JStr(t)])]))
    ensures TopoModel.CleanResponse(response, t, loads) == Ok([t])
  {
    TopoStrictKeepsRepeats(response, t, loads);
    assert Dedup([t]) == [t] by {
      assert [t][..0] == [];
    }
    assert Dedup([t, t]) == [t] by {
      assert [t, t][..1] == [t] && [t, t][1] == t;
    }
  }

  /** Of four cities, the one the text does not mention is dropped. */
  lemma ValidateToponymsDropsAbsent()
    ensures TopoModel.ValidateToponyms(["London", "Rio de Janeiro", "Tokyo", "Paris"], HostText()) == ["London", "Rio de Janeiro", "Tokyo"]
  {
    HostTextMentions();
    HostTextOmitsParis();
    KeepsMentioned("London", "Rio de Janeiro", "Tokyo", "Paris", HostText());
  }
}
