/** Repair and validation of the RAG model's answer: a record
    `{name, latitude, longitude, RAG_estimated}` that the language model
    writes as JSON, often with quotes, commas, braces or whole keys missing
    (RAGModel in geo_llama/model.py). */
module RagModel {
  import opened PyValues
  import opened PyStrings
  import opened PyLists
  import opened Numbers
  import opened Lexer

  /** The keys of an answer, in declared order. */
  const ExpectedKeys: seq<string> := ["name", "latitude", "longitude", "RAG_estimated"]

  /** The value written in for a key that is missing. */
  const Placeholder: string := "False"

  predicate AllKeysIn(words: seq<string>, keys: seq<string>) {
    forall j :: 0 <= j < |keys| ==> keys[j] in words
  }

  // ---------------------------------------------------------------------
  // add_missing_keys

  /** words.insert(i, key) followed by words.insert(i + 1, 'False'). */
  function InsertPair(words: seq<string>, i: nat, key: string): (r: seq<string>)
    ensures |r| == |words| + 2
  {
    Insert(Insert(words, i, key), i + 1, Placeholder)
  }

  /** The two inserts put the pair at the index (or at the end), with
      everything before it kept before and everything after it kept after. */
  lemma InsertPairShape(words: seq<string>, i: nat, key: string)
    ensures var q := if i <= |words| then i else |words|;
      InsertPair(words, i, key) == words[..q] + [key, Placeholder] + words[q..]
  {
    var w := Insert(words, i, key);
    var q := if i <= |words| then i else |words|;
    InsertShape(words, i, key);
    InsertShape(w, i + 1, Placeholder);
    assert w[..q + 1] == words[..q] + [key];
    assert w[q + 1..] == words[q..];
  }

  /** The loop of add_missing_keys from running index i on, as the code
      has it: a missing key's pair goes in at i, and the index then moves
      on by four (two inside the branch and two after it); a present key
      moves it on by two. */
  function FillAsWritten(words: seq<string>, keys: seq<string>, i: nat): seq<string>
    decreases |keys|
  {
    if |keys| == 0 then words
    else if keys[0] in words then FillAsWritten(words, keys[1..], i + 2)
    else FillAsWritten(InsertPair(words, i, keys[0]), keys[1..], i + 4)
  }

  function AddMissingKeysAsWritten(words: seq<string>, keys: seq<string>): seq<string> {
    FillAsWritten(words, keys, 0)
  }

  /** The loop of add_missing_keys with the index moving on by two per key,
      so that it stays at the place the next key belongs. */
  function Fill(words: seq<string>, keys: seq<string>, i: nat): seq<string>
    decreases |keys|
  {
    if |keys| == 0 then words
    else if keys[0] in words then Fill(words, keys[1..], i + 2)
    else Fill(InsertPair(words, i, keys[0]), keys[1..], i + 2)
  }

  /** One turn of the filling loop: the words it leaves for the next key. */
  lemma FillStep(words: seq<string>, keys: seq<string>, i: nat) returns (w: seq<string>)
    requires |keys| > 0
    ensures w == if keys[0] in words then words else InsertPair(words, i, keys[0])
    ensures Fill(words, keys, i) == Fill(w, keys[1..], i + 2)
  {
    w := if keys[0] in words then words else InsertPair(words, i, keys[0]);
  }

  lemma InsertPairMembers(words: seq<string>, i: nat, key: string)
    ensures forall x :: x in InsertPair(words, i, key) <==> x in words || x == key || x == Placeholder
  {
  }

  /** What the filling loop guarantees about membership. */
  lemma {:induction false} FillMembers(words: seq<string>, keys: seq<string>, i: nat)
    ensures AllKeysIn(Fill(words, keys, i), keys)
    ensures forall x :: x in words ==> x in Fill(words, keys, i)
    ensures AllKeysIn(words, keys) ==> Fill(words, keys, i) == words
    ensures !AllKeysIn(words, keys) ==> Placeholder in Fill(words, keys, i)
    decreases |keys|
  {
    if |keys| > 0 {
      if keys[0] in words {
        FillMembers(words, keys[1..], i + 2);
      } else {
        var w := InsertPair(words, i, keys[0]);
        InsertPairMembers(words, i, keys[0]);
        FillMembers(w, keys[1..], i + 2);
      }
    }
  }

  /** add_missing_keys: every expected key ends up present, and a list that
      already has them all is returned as it is. */
  function AddMissingKeys(words: seq<string>, keys: seq<string>): (r: seq<string>)
    ensures AllKeysIn(r, keys)
    ensures AllKeysIn(words, keys) ==> r == words
    ensures !AllKeysIn(words, keys) ==> Placeholder in r
  {
    FillMembers(words, keys, 0);
    Fill(words, keys, 0)
  }

  /** The keys absent from `words`, in declared order. */
  function Missing(keys: seq<string>, words: seq<string>): (r: seq<string>)
    ensures forall x :: x in r <==> x in keys && x !in words
    decreases |keys|
  {
    if |keys| == 0 then []
    else (if keys[0] in words then [] else [keys[0]]) + Missing(keys[1..], words)
  }

  /** The missing keys come in the order the keys were declared, and
      without repeats when the keys have none. */
  lemma {:induction false} MissingInOrder(keys: seq<string>, words: seq<string>)
    ensures IsSubsequence(Missing(keys, words), keys)
    ensures Distinct(keys) ==> Distinct(Missing(keys, words))
    decreases |keys|
  {
    var r := Missing(keys, words);
    if |keys| > 0 {
      MissingInOrder(keys[1..], words);
      var rest := Missing(keys[1..], words);
      if keys[0] in words {
        assert r == rest;
        if |r| > 0 {
          assert r[0] in r;
          assert r[0] != keys[0];
        }
      } else {
        assert r[0] == keys[0] && r[1..] == rest;
      }
    }
    if Distinct(keys) {
      SubsequenceDistinct(r, keys);
    }
  }

  lemma {:induction false} MissingStable(keys: seq<string>, a: seq<string>, b: seq<string>)
    requires forall j :: 0 <= j < |keys| ==> (keys[j] in a <==> keys[j] in b)
    ensures Missing(keys, a) == Missing(keys, b)
    decreases |keys|
  {
    if |keys| > 0 {
      MissingStable(keys[1..], a, b);
    }
  }

  lemma DistinctTail(keys: seq<string>)
    requires |keys| > 0 && Distinct(keys)
    ensures Distinct(keys[1..]) && keys[0] !in keys[1..]
  {
  }

  /** Every inserted pair adds two items: the list grows by exactly two per
      missing key (the keys being distinct and none of them the placeholder). */
  lemma {:induction false} FillLength(words: seq<string>, keys: seq<string>, i: nat)
    requires Distinct(keys) && Placeholder !in keys
    ensures |Fill(words, keys, i)| == |words| + 2 * |Missing(keys, words)|
    decreases |keys|
  {
    if |keys| > 0 {
      DistinctTail(keys);
      var k, rest := keys[0], keys[1..];
      if k in words {
        assert Missing(keys, words) == Missing(rest, words);
        FillLength(words, rest, i + 2);
      } else {
        var w := InsertPair(words, i, k);
        MissingAfterInsert(words, keys, i);
        assert Fill(words, keys, i) == Fill(w, rest, i + 2);
        FillLength(w, rest, i + 2);
      }
    }
  }

  /** Inserting a missing first key leaves the rest of the keys missing
      exactly as before. */
  lemma MissingAfterInsert(words: seq<string>, keys: seq<string>, i: nat)
    requires |keys| > 0 && Distinct(keys) && Placeholder !in keys && keys[0] !in words
    ensures Missing(keys, words) == [keys[0]] + Missing(keys[1..], InsertPair(words, i, keys[0]))
  {
    var k, rest := keys[0], keys[1..];
    var w := InsertPair(words, i, k);
    InsertPairMembers(words, i, k);
    forall j | 0 <= j < |rest|
      ensures rest[j] in w <==> rest[j] in words
    {
      assert rest[j] == keys[j + 1];
    }
    MissingStable(rest, w, words);
  }

  /** Insertion only adds: whatever was a subsequence of the input is one of the output. */
  lemma {:induction false} FillKeepsSubsequence(a: seq<string>, words: seq<string>, keys: seq<string>, i: nat)
    requires IsSubsequence(a, words)
    ensures IsSubsequence(a, Fill(words, keys, i))
    decreases |keys|
  {
    if |keys| > 0 {
      if keys[0] in words {
        FillKeepsSubsequence(a, words, keys[1..], i + 2);
      } else {
        var w := Insert(words, i, keys[0]);
        SubsequenceOfInsert(a, words, i, keys[0]);
        SubsequenceOfInsert(a, w, i + 1, Placeholder);
        FillKeepsSubsequence(a, InsertPair(words, i, keys[0]), keys[1..], i + 2);
      }
    }
  }

  /** A pair that lies before the running index is never moved or split. */
  lemma {:induction false} FillKeepsPair(words: seq<string>, keys: seq<string>, i: nat, p: nat)
    requires p + 1 < |words| && p + 2 <= i
    ensures var r := Fill(words, keys, i);
      p + 1 < |r| && r[p] == words[p] && r[p + 1] == words[p + 1]
    decreases |keys|
  {
    if |keys| > 0 {
      var w := FillStep(words, keys, i);
      assert p + 1 < |w| && w[p] == words[p] && w[p + 1] == words[p + 1] by {
        if keys[0] !in words {
          var q := if i <= |words| then i else |words|;
          InsertPairShape(words, i, keys[0]);
          assert w[..q] == words[..q];
        }
      }
      FillKeepsPair(w, keys[1..], i + 2, p);
    }
  }

  /** `key` followed directly by the placeholder somewhere in `r`. */
  predicate HasPair(r: seq<string>, key: string) {
    exists p :: 0 <= p < |r| - 1 && r[p] == key && r[p + 1] == Placeholder
  }

  /** Each key that was missing appears as the adjacent pair [key, 'False']. */
  lemma {:induction false} FillInsertsPairs(words: seq<string>, keys: seq<string>, i: nat)
    requires Distinct(keys) && Placeholder !in keys
    ensures forall j :: 0 <= j < |keys| && keys[j] !in words ==> HasPair(Fill(words, keys, i), keys[j])
    decreases |keys|
  {
    if |keys| > 0 {
      DistinctTail(keys);
      var r := Fill(words, keys, i);
      if keys[0] in words {
        assert r == Fill(words, keys[1..], i + 2);
        FillInsertsPairs(words, keys[1..], i + 2);
        forall j | 0 <= j < |keys| && keys[j] !in words
          ensures HasPair(r, keys[j])
        {
          assert j > 0;
          assert keys[j] == keys[1..][j - 1];
        }
      } else {
        var w := InsertPair(words, i, keys[0]);
        var q := if i <= |words| then i else |words|;
        InsertPairMembers(words, i, keys[0]);
        assert r == Fill(w, keys[1..], i + 2);
        assert w[q] == keys[0] && w[q + 1] == Placeholder by {
          InsertPairShape(words, i, keys[0]);
        }
        FillKeepsPair(w, keys[1..], i + 2, q);
        FillInsertsPairs(w, keys[1..], i + 2);
        forall j | 0 <= j < |keys| && keys[j] !in words
          ensures HasPair(r, keys[j])
        {
          if j == 0 {
            assert r[q] == keys[0] && r[q + 1] == Placeholder;
          } else {
            assert keys[j] == keys[1..][j - 1];
            assert keys[j] != keys[0];
            assert keys[j] !in w;
          }
        }
      }
    }
  }

  /** The properties of add_missing_keys on any list of words: the input
      stays a subsequence of the output, the output is longer by two per
      missing key, and each missing key comes with its placeholder right
      after it. */
  lemma AddMissingKeysSpec(words: seq<string>, keys: seq<string>)
    requires Distinct(keys) && Placeholder !in keys
    ensures IsSubsequence(words, AddMissingKeys(words, keys))
    ensures |AddMissingKeys(words, keys)| == |words| + 2 * |Missing(keys, words)|
    ensures forall j :: 0 <= j < |keys| && keys[j] !in words ==> HasPair(AddMissingKeys(words, keys), keys[j])
  {
    SubsequenceRefl(words);
    FillKeepsSubsequence(words, words, keys, 0);
    FillLength(words, keys, 0);
    FillInsertsPairs(words, keys, 0);
  }

  /** A record laid out as [key, value, key, value, ...] with the present
      keys in declared order; `None` marks a key that is left out. */
  function Layout(keys: seq<string>, vals: seq<Option<string>>): seq<string>
    requires |vals| == |keys|
    decreases |keys|
  {
    if |keys| == 0 then []
    else (if vals[0].Some? then [keys[0], vals[0].value] else []) + Layout(keys[1..], vals[1..])
  }

  /** Every left-out value replaced by the placeholder. */
  function Completed(vals: seq<Option<string>>): (r: seq<Option<string>>)
    ensures |r| == |vals|
    ensures forall j :: 0 <= j < |r| ==> r[j].Some?
    decreases |vals|
  {
    if |vals| == 0 then []
    else [Some(if vals[0].Some? then vals[0].value else Placeholder)] + Completed(vals[1..])
  }

  lemma {:induction false} LayoutMembers(keys: seq<string>, vals: seq<Option<string>>, x: string)
    requires |vals| == |keys|
    requires x in Layout(keys, vals)
    ensures x in keys || Some(x) in vals
    decreases |keys|
  {
    if |keys| > 0 && !(vals[0].Some? && (x == keys[0] || x == vals[0].value)) {
      LayoutMembers(keys[1..], vals[1..], x);
    }
  }

  /** The first key does not occur again in the rest of a layout. */
  lemma LayoutHeadAbsent(keys: seq<string>, vals: seq<Option<string>>)
    requires |vals| == |keys| && |keys| > 0
    requires Distinct(keys)
    requires forall j :: 0 <= j < |vals| && vals[j].Some? ==> vals[j].value !in keys
    ensures keys[0] !in Layout(keys[1..], vals[1..])
  {
    var k := keys[0];
    if k in Layout(keys[1..], vals[1..]) {
      LayoutMembers(keys[1..], vals[1..], k);
    }
  }

  /** The conditions of FillLayout carry over to the rest of the keys once
      the first pair is in the prefix. */
  lemma LayoutTailConditions(prefix: seq<string>, keys: seq<string>, vals: seq<Option<string>>, v: string)
    requires |vals| == |keys| && |keys| > 0
    requires Distinct(keys) && v !in keys
    requires forall j :: 0 <= j < |vals| && vals[j].Some? ==> vals[j].value !in keys
    requires forall j :: 0 <= j < |keys| ==> keys[j] !in prefix
    ensures forall j :: 0 <= j < |keys[1..]| ==> keys[1..][j] !in prefix + [keys[0], v]
    ensures forall j :: 0 <= j < |vals[1..]| && vals[1..][j].Some? ==> vals[1..][j].value !in keys[1..]
  {
    forall j | 0 <= j < |keys[1..]|
      ensures keys[1..][j] !in prefix + [keys[0], v]
    {
      assert keys[1..][j] == keys[j + 1];
    }
    forall j | 0 <= j < |vals[1..]| && vals[1..][j].Some?
      ensures vals[1..][j].value !in keys[1..]
    {
      assert vals[1..][j] == vals[j + 1];
    }
  }

  lemma CompletedLayoutHead(keys: seq<string>, vals: seq<Option<string>>)
    requires |vals| == |keys| && |keys| > 0
    ensures Layout(keys, Completed(vals))
         == [keys[0], if vals[0].Some? then vals[0].value else Placeholder] + Layout(keys[1..], Completed(vals[1..]))
  {
    assert Completed(vals)[1..] == Completed(vals[1..]);
  }

  /** One round of the filling loop on a layout: the first pair ends up
      in the prefix, with the placeholder if it was left out. */
  lemma FillLayoutStep(prefix: seq<string>, keys: seq<string>, vals: seq<Option<string>>)
    requires |vals| == |keys| && |keys| > 0
    requires keys[0] !in prefix && keys[0] !in Layout(keys[1..], vals[1..])
    ensures var v := if vals[0].Some? then vals[0].value else Placeholder;
      Fill(prefix + Layout(keys, vals), keys, |prefix|)
        == Fill(prefix + [keys[0], v] + Layout(keys[1..], vals[1..]), keys[1..], |prefix| + 2)
  {
    var k := keys[0];
    var rest := Layout(keys[1..], vals[1..]);
    var w := prefix + Layout(keys, vals);
    if vals[0].Some? {
      assert Layout(keys, vals) == [k, vals[0].value] + rest;
      ConcatAssoc(prefix, [k, vals[0].value], rest);
      assert w[|prefix|] == k;
      assert Fill(w, keys, |prefix|) == Fill(w, keys[1..], |prefix| + 2);
    } else {
      assert Layout(keys, vals) == rest;
      KeyAbsentFromJoin(prefix, rest, k);
      InsertPairAt(prefix, rest, k);
      assert Fill(w, keys, |prefix|) == Fill(InsertPair(w, |prefix|, k), keys[1..], |prefix| + 2);
    }
  }

  lemma KeyAbsentFromJoin(a: seq<string>, b: seq<string>, k: string)
    requires k !in a && k !in b
    ensures k !in a + b
  {
  }

  lemma InsertPairAt(prefix: seq<string>, rest: seq<string>, k: string)
    ensures InsertPair(prefix + rest, |prefix|, k) == prefix + [k, Placeholder] + rest
  {
    var w := prefix + rest;
    assert w[..|prefix|] == prefix;
    assert w[|prefix|..] == rest;
  }

  lemma {:induction false} FillLayout(prefix: seq<string>, keys: seq<string>, vals: seq<Option<string>>)
    requires |vals| == |keys|
    requires Distinct(keys) && Placeholder !in keys
    requires forall j :: 0 <= j < |vals| && vals[j].Some? ==> vals[j].value !in keys
    requires forall j :: 0 <= j < |keys| ==> keys[j] !in prefix
    ensures Fill(prefix + Layout(keys, vals), keys, |prefix|) == prefix + Layout(keys, Completed(vals))
    decreases |keys|
  {
    if |keys| == 0 {
      assert prefix + [] == prefix;
    } else {
      DistinctTail(keys);
      LayoutHeadAbsent(keys, vals);
      var v := if vals[0].Some? then vals[0].value else Placeholder;
      var next := prefix + [keys[0], v];
      LayoutTailConditions(prefix, keys, vals, v);
      FillLayoutStep(prefix, keys, vals);
      assert |next| == |prefix| + 2;
      FillLayout(next, keys[1..], vals[1..]);
      CompletedLayoutHead(keys, vals);
      ConcatAssoc(prefix, [keys[0], v], Layout(keys[1..], Completed(vals[1..])));
    }
  }

  /** On a record laid out in declared order with some keys left out,
      add_missing_keys puts back each left-out key, with the placeholder,
      exactly where it belongs. */
  lemma AddMissingKeysRestoresLayout(keys: seq<string>, vals: seq<Option<string>>)
    requires |vals| == |keys|
    requires Distinct(keys) && Placeholder !in keys
    requires forall j :: 0 <= j < |vals| && vals[j].Some? ==> vals[j].value !in keys
    ensures AddMissingKeys(Layout(keys, vals), keys) == Layout(keys, Completed(vals))
  {
    FillLayout([], keys, vals);
    assert [] + Layout(keys, vals) == Layout(keys, vals);
    assert [] + Layout(keys, Completed(vals)) == Layout(keys, Completed(vals));
  }

  /** The code as written misplaces the second of two consecutive missing
      keys: with latitude and longitude both missing, longitude lands after
      RAG_estimated rather than before it. */
  lemma AddMissingKeysAsWrittenMisplaces()
    ensures AddMissingKeysAsWritten(["name", "Paris", "RAG_estimated", "true"], ExpectedKeys)
         == ["name", "Paris", "latitude", "False", "RAG_estimated", "true", "longitude", "False"]
    ensures AddMissingKeys(["name", "Paris", "RAG_estimated", "true"], ExpectedKeys)
         == ["name", "Paris", "latitude", "False", "longitude", "False", "RAG_estimated", "true"]
  {
    var w0 := ["name", "Paris", "RAG_estimated", "true"];
    var w1 := ["name", "Paris", "latitude", "False", "RAG_estimated", "true"];
    KeySuffixes();
    assert "name" in w0 && "latitude" !in w0;
    assert InsertPair(w0, 2, "latitude") == w1;
    assert "longitude" !in w1;
    MisplacedSteps(w1);
    OrderedSteps(w1);
  }

  /** The suffixes of the expected keys the loop walks through. */
  lemma KeySuffixes()
    ensures ExpectedKeys[1..] == ["latitude", "longitude", "RAG_estimated"]
    ensures ExpectedKeys[1..][1..] == ["longitude", "RAG_estimated"]
    ensures ExpectedKeys[1..][1..][1..] == ["RAG_estimated"]
    ensures ExpectedKeys[1..][1..][1..][1..] == []
  {
  }

  /** The as-written loop from the longitude on, once latitude is in. */
  lemma MisplacedSteps(w1: seq<string>)
    requires w1 == ["name", "Paris", "latitude", "False", "RAG_estimated", "true"]
    ensures FillAsWritten(w1, ["longitude", "RAG_estimated"], 6)
         == ["name", "Paris", "latitude", "False", "RAG_estimated", "true", "longitude", "False"]
  {
    var w2 := w1 + ["longitude", "False"];
    assert "longitude" !in w1;
    assert InsertPair(w1, 6, "longitude") == w2;
    assert "RAG_estimated" in w2;
    assert ["longitude", "RAG_estimated"][1..] == ["RAG_estimated"];
    assert ["RAG_estimated"][1..] == [];
    assert FillAsWritten(w2, ["RAG_estimated"], 10) == FillAsWritten(w2, [], 12);
  }

  /** The corrected loop from the longitude on, once latitude is in. */
  lemma OrderedSteps(w1: seq<string>)
    requires w1 == ["name", "Paris", "latitude", "False", "RAG_estimated", "true"]
    ensures Fill(w1, ["longitude", "RAG_estimated"], 4)
         == ["name", "Paris", "latitude", "False", "longitude", "False", "RAG_estimated", "true"]
  {
    var w2 := ["name", "Paris", "latitude", "False", "longitude", "False", "RAG_estimated", "true"];
    assert "longitude" !in w1;
    assert InsertPair(w1, 4, "longitude") == w2;
    assert "RAG_estimated" in w2;
    assert ["longitude", "RAG_estimated"][1..] == ["RAG_estimated"];
    assert ["RAG_estimated"][1..] == [];
    assert Fill(w2, ["RAG_estimated"], 6) == Fill(w2, [], 8);
  }

  // ---------------------------------------------------------------------
  // get_word

  /** The words strictly between the first occurrence of `start` and the
      first occurrence of `stop`, joined with single spaces. A start or stop
      marker that is None or empty stands for the beginning or the end of
      the list; a marker that does not occur raises ValueError. */
  function GetWord(words: seq<string>, start: Option<string>, stop: Option<string>): (r: Result<string>)
    ensures r.Err? <==> (Given(start) && start.value !in words) || (Given(stop) && stop.value !in words)
    ensures r.Err? ==> r.error == ValueError
  {
    if Given(start) && start.value !in words then Err(ValueError)
    else if Given(stop) && stop.value !in words then Err(ValueError)
    else
      var a := if Given(start) then IndexOf(words, start.value) + 1 else 0;
      var b := if Given(stop) then IndexOf(words, stop.value) else |words|;
      Ok(Join(" ", if a < b then words[a..b] else []))
  }

  /** get_word between two markers picks exactly the words between their
      first occurrences. */
  lemma GetWordBetween(pre: seq<string>, start: string, mid: seq<string>, stop: string, post: seq<string>)
    requires |start| > 0 && |stop| > 0
    requires start !in pre && stop !in pre + [start] + mid
    ensures GetWord(pre + [start] + mid + [stop] + post, Some(start), Some(stop)) == Ok(Join(" ", mid))
  {
    var words := pre + [start] + mid + [stop] + post;
    var b := |pre| + 1 + |mid|;
    assert words[..|pre|] == pre;
    IndexOfUnique(words, start, |pre|);
    assert words[..b] == pre + [start] + mid;
    IndexOfUnique(words, stop, b);
    assert words[|pre| + 1..b] == mid;
  }

  /** Without a start marker, get_word reads from the beginning. */
  lemma GetWordFromStart(mid: seq<string>, stop: string, post: seq<string>)
    requires |stop| > 0 && stop !in mid
    ensures GetWord(mid + [stop] + post, None, Some(stop)) == Ok(Join(" ", mid))
  {
    var words := mid + [stop] + post;
    assert words[..|mid|] == mid;
    IndexOfUnique(words, stop, |mid|);
  }

  /** Without a stop marker, get_word reads to the end. */
  lemma GetWordToEnd(pre: seq<string>, start: string, mid: seq<string>)
    requires |start| > 0 && start !in pre
    ensures GetWord(pre + [start] + mid, Some(start), None) == Ok(Join(" ", mid))
  {
    var words := pre + [start] + mid;
    assert words[..|pre|] == pre;
    IndexOfUnique(words, start, |pre|);
    assert words[|pre| + 1..|words|] == mid;
  }

  /** A stop marker that comes before the start marker gives the empty string. */
  lemma GetWordReversed(words: seq<string>, start: string, stop: string)
    requires |start| > 0 && |stop| > 0 && start in words && stop in words
    requires IndexOf(words, stop) <= IndexOf(words, start)
    ensures GetWord(words, Some(start), Some(stop)) == Ok("")
  {
  }

  /** The words get_word picks out come back apart when its result is split
      on spaces, as long as none of them contains a space. */
  lemma GetWordSplits(mid: seq<string>)
    requires |mid| > 0
    requires forall k :: 0 <= k < |mid| ==> ' ' !in mid[k]
    ensures Split(Join(" ", mid), " ") == mid
  {
    SplitJoinChar(mid, ' ');
  }

  // ---------------------------------------------------------------------
  // fix_json

  /** A word that lower-cases to `true` or `false`. */
  predicate IsBoolWord(w: string) {
    Lower(w) == "true" || Lower(w) == "false"
  }

  /** literal_eval of a boolean word put in capitalised form. */
  lemma CapitalizedBool(w: string)
    requires IsBoolWord(w)
    ensures LiteralEval(Capitalize(w)) == Ok(JBool(Lower(w) == "true"))
  {
    var c := Capitalize(w);
    assert Lower(w)[0] == LowerChar(w[0]);
    assert Lower(w)[1..] == Lower(w[1..]);
    if Lower(w) == "true" {
      assert c == "True";
    } else {
      assert c == "False";
    }
  }

  /** A word whose first letter is not t or f is not a boolean word. */
  lemma NotBoolWord(w: string)
    requires |w| > 0 && LowerChar(w[0]) != 't' && LowerChar(w[0]) != 'f'
    ensures !IsBoolWord(w)
  {
    assert Lower(w)[0] == LowerChar(w[0]);
  }

  lemma PlaceholderIsBoolWord()
    ensures IsBoolWord(Placeholder) && Lower(Placeholder) == "false"
  {
    assert Lower(Placeholder) == "false";
  }

  /** The dictionary fix_json builds. */
  function Record(name: string, latitude: Json, longitude: Json, flag: Json): Json {
    JObj(map["name" := JStr(name), "latitude" := latitude, "longitude" := longitude, "RAG_estimated" := flag])
  }

  /** The part of fix_json that reads the record off the words, once the
      keys have been filled in. The dictionary display evaluates its values
      in order: the latitude, then the longitude, then the first boolean
      word (IndexError when there is none). */
  function ReadRecord(words: seq<string>): (r: Result<Json>)
    ensures AllKeysIn(words, ExpectedKeys) && r.Err? ==> r.error == MalformedLiteral || r.error == IndexError
    ensures r == Err(IndexError) ==> forall k :: 0 <= k < |words| ==> !IsBoolWord(words[k])
    ensures r.Ok? ==> r.value.JObj? && r.value.fields.Keys == {"name", "latitude", "longitude", "RAG_estimated"}
    ensures r.Ok? ==> r.value.fields["RAG_estimated"].JBool?
  {
    assert AllKeysIn(words, ExpectedKeys) ==>
      ExpectedKeys[0] in words && ExpectedKeys[1] in words && ExpectedKeys[2] in words && ExpectedKeys[3] in words;
    var name :- GetWord(words, Some("name"), Some("latitude"));
    var lat :- GetWord(words, Some("latitude"), Some("longitude"));
    var lon :- GetWord(words, Some("longitude"), Some("RAG_estimated"));
    var bools := Filter(words, IsBoolWord);
    var latitude :- LiteralEval(lat);
    var longitude :- LiteralEval(lon);
    FilterSpec(words, IsBoolWord);
    if |bools| == 0 then
      assert forall k :: 0 <= k < |words| ==> words[k] in words;
      Err(IndexError)
    else
      assert bools[0] in bools;
      CapitalizedBool(bools[0]);
      match LiteralEval(Capitalize(bools[0]))
      case Ok(flag) => Ok(Record(name, latitude, longitude, flag))
      case Err(e) => Err(e)
  }

  /** fix_json after tokenizing: fill in the missing keys if any, then read
      the record. Only the literal parser and the missing boolean can make
      it fail; and it fails for want of a boolean only when every key was
      already there and no word spells true or false, since a filled-in key
      brings a 'False' with it. */
  function RepairWords(words: seq<string>): (r: Result<Json>)
    ensures r.Err? ==> r.error == MalformedLiteral || r.error == IndexError
    ensures r == Err(IndexError) ==>
      AllKeysIn(words, ExpectedKeys) && forall k :: 0 <= k < |words| ==> !IsBoolWord(words[k])
    ensures r.Ok? ==> r.value.JObj? && r.value.fields.Keys == {"name", "latitude", "longitude", "RAG_estimated"}
    ensures r.Ok? ==> r.value.fields["RAG_estimated"].JBool?
  {
    var filled := if AllKeysIn(words, ExpectedKeys) then words else AddMissingKeys(words, ExpectedKeys);
    var r := ReadRecord(filled);
    if r == Err(IndexError) && !AllKeysIn(words, ExpectedKeys) then
      assert Placeholder in filled;
      PlaceholderIsBoolWord();
      assert false;
      r
    else r
  }

  /** Words lacking a key are read once the missing keys are filled in. */
  lemma RepairWordsFilled(words: seq<string>)
    requires !AllKeysIn(words, ExpectedKeys)
    ensures RepairWords(words) == ReadRecord(AddMissingKeys(words, ExpectedKeys))
  {
  }

  /** fix_json: the record read off the tokens of the text. */
  function FixJson(s: string): (r: Result<Json>)
    ensures r.Err? ==> r.error == MalformedLiteral || r.error == IndexError
    ensures r.Ok? ==> r.value.JObj? && r.value.fields.Keys == {"name", "latitude", "longitude", "RAG_estimated"}
  {
    RepairWords(ExtractWords(s))
  }

  /** fix_json with add_missing_keys as written. */
  function FixJsonAsWritten(s: string): Result<Json> {
    RepairWordsAsWritten(ExtractWords(s))
  }

  /** The repair of fix_json's words with add_missing_keys as written. */
  function RepairWordsAsWritten(words: seq<string>): Result<Json> {
    ReadRecord(if AllKeysIn(words, ExpectedKeys) then words else AddMissingKeysAsWritten(words, ExpectedKeys))
  }

  /** The words of a complete answer: the name's words between the `name`
      and `latitude` keys, then one word for each other value. */
  function RecordTokens(nameWords: seq<string>, lat: string, lon: string, flag: string): seq<string> {
    ["name"] + nameWords + ["latitude", lat, "longitude", lon, "RAG_estimated", flag]
  }

  /** What fix_json makes of a complete answer whose values are not keys
      and whose only boolean word is the flag. */
  function ExpectedRecord(nameWords: seq<string>, lat: string, lon: string, flag: string): Result<Json> {
    match (LiteralEval(lat), LiteralEval(lon))
    case (Ok(x), Ok(y)) => Ok(Record(Join(" ", nameWords), x, y, JBool(Lower(flag) == "true")))
    case _ => Err(MalformedLiteral)
  }

  /** No value word of an answer is one of the keys. */
  predicate KeyFree(nameWords: seq<string>, lat: string, lon: string) {
    && (forall k :: 0 <= k < |nameWords| ==> nameWords[k] !in ExpectedKeys)
    && lat !in ExpectedKeys && lon !in ExpectedKeys
  }

  /** The conditions under which the words of an answer read back as the answer. */
  predicate PlainValues(nameWords: seq<string>, lat: string, lon: string, flag: string) {
    && (forall k :: 0 <= k < |nameWords| ==> nameWords[k] !in ExpectedKeys && !IsBoolWord(nameWords[k]))
    && lat !in ExpectedKeys && lon !in ExpectedKeys
    && !IsBoolWord(lat) && !IsBoolWord(lon) && IsBoolWord(flag)
  }

  lemma KeysAreNotBoolWords()
    ensures forall k :: 0 <= k < |ExpectedKeys| ==> !IsBoolWord(ExpectedKeys[k])
  {
    NotBoolWord("name");
  }

  /** The boolean words of a complete answer are just its flag. */
  lemma RecordBools(nameWords: seq<string>, lat: string, lon: string, flag: string)
    requires PlainValues(nameWords, lat, lon, flag)
    ensures Filter(RecordTokens(nameWords, lat, lon, flag), IsBoolWord) == [flag]
  {
    var tail := ["latitude", lat, "longitude", lon, "RAG_estimated"];
    assert RecordTokens(nameWords, lat, lon, flag) == ["name"] + nameWords + tail + [flag];
    KeysAreNotBoolWords();
    assert ExpectedKeys[0] == "name" && ExpectedKeys[1] == tail[0] && ExpectedKeys[2] == tail[2] && ExpectedKeys[3] == tail[4];
    assert forall k :: 0 <= k < |tail| ==> !IsBoolWord(tail[k]);
    FilterNone(["name"], IsBoolWord);
    FilterNone(nameWords, IsBoolWord);
    FilterNone(tail, IsBoolWord);
    FilterConcat(["name"], nameWords, IsBoolWord);
    FilterConcat(["name"] + nameWords, tail, IsBoolWord);
    FilterConcat(["name"] + nameWords + tail, [flag], IsBoolWord);
  }

  /** When the latitude word is itself a boolean word, it is the first
      boolean word of the answer. */
  lemma RecordFirstBool(nameWords: seq<string>, lat: string, lon: string, flag: string)
    requires forall k :: 0 <= k < |nameWords| ==> !IsBoolWord(nameWords[k])
    requires IsBoolWord(lat)
    ensures |Filter(RecordTokens(nameWords, lat, lon, flag), IsBoolWord)| > 0
    ensures Filter(RecordTokens(nameWords, lat, lon, flag), IsBoolWord)[0] == lat
  {
    var tail := ["latitude", lat, "longitude", lon, "RAG_estimated", flag];
    NotBoolWord("name");
    NotBoolWord("latitude");
    FilterNone(["name"], IsBoolWord);
    FilterNone(nameWords, IsBoolWord);
    FilterConcat(["name"], nameWords, IsBoolWord);
    FilterConcat(["name"] + nameWords, tail, IsBoolWord);
    assert tail[1..][0] == lat;
    assert Filter(tail, IsBoolWord) == Filter(tail[1..], IsBoolWord);
  }

  lemma NameWords(nameWords: seq<string>, lat: string, lon: string, flag: string)
    requires KeyFree(nameWords, lat, lon)
    ensures GetWord(RecordTokens(nameWords, lat, lon, flag), Some("name"), Some("latitude")) == Ok(Join(" ", nameWords))
  {
    assert "latitude" == ExpectedKeys[1];
    assert "latitude" !in nameWords;
    assert RecordTokens(nameWords, lat, lon, flag)
        == [] + ["name"] + nameWords + ["latitude"] + [lat, "longitude", lon, "RAG_estimated", flag];
    GetWordBetween([], "name", nameWords, "latitude", [lat, "longitude", lon, "RAG_estimated", flag]);
  }

  lemma LatitudeWord(nameWords: seq<string>, lat: string, lon: string, flag: string)
    requires KeyFree(nameWords, lat, lon)
    ensures GetWord(RecordTokens(nameWords, lat, lon, flag), Some("latitude"), Some("longitude")) == Ok(lat)
  {
    var pre := ["name"] + nameWords;
    assert "latitude" == ExpectedKeys[1] && "longitude" == ExpectedKeys[2];
    assert "latitude" !in nameWords && "longitude" !in nameWords;
    assert "longitude" !in pre + ["latitude"] + [lat];
    assert RecordTokens(nameWords, lat, lon, flag) == pre + ["latitude"] + [lat] + ["longitude"] + [lon, "RAG_estimated", flag];
    GetWordBetween(pre, "latitude", [lat], "longitude", [lon, "RAG_estimated", flag]);
  }

  lemma LongitudeWord(nameWords: seq<string>, lat: string, lon: string, flag: string)
    requires KeyFree(nameWords, lat, lon)
    ensures GetWord(RecordTokens(nameWords, lat, lon, flag), Some("longitude"), Some("RAG_estimated")) == Ok(lon)
  {
    var pre := ["name"] + nameWords + ["latitude", lat];
    assert "longitude" == ExpectedKeys[2] && "RAG_estimated" == ExpectedKeys[3];
    assert "longitude" !in nameWords && "RAG_estimated" !in nameWords;
    assert "longitude" !in pre;
    assert "RAG_estimated" !in pre + ["longitude"] + [lon];
    assert RecordTokens(nameWords, lat, lon, flag) == pre + ["longitude"] + [lon] + ["RAG_estimated"] + [flag];
    GetWordBetween(pre, "longitude", [lon], "RAG_estimated", [flag]);
  }

  /** A complete answer is read back as the record it spells out. */
  lemma RepairRecordWords(nameWords: seq<string>, lat: string, lon: string, flag: string)
    requires PlainValues(nameWords, lat, lon, flag)
    ensures RepairWords(RecordTokens(nameWords, lat, lon, flag)) == ExpectedRecord(nameWords, lat, lon, flag)
  {
    var words := RecordTokens(nameWords, lat, lon, flag);
    assert AllKeysIn(words, ExpectedKeys);
    NameWords(nameWords, lat, lon, flag);
    LatitudeWord(nameWords, lat, lon, flag);
    LongitudeWord(nameWords, lat, lon, flag);
    RecordBools(nameWords, lat, lon, flag);
    CapitalizedBool(flag);
  }

  /** Where each field of a record read off the words comes from: the name
      is the words between `name` and `latitude`, each coordinate is the
      literal of the words between its marker and the next, and the flag is
      whether the first boolean word spells true. */
  lemma ReadRecordFields(words: seq<string>)
    ensures var r := ReadRecord(words);
      r.Ok? ==> (GetWord(words, Some("name"), Some("latitude")).Ok?
      && r.value.fields["name"] == JStr(GetWord(words, Some("name"), Some("latitude")).value))
    ensures var r := ReadRecord(words);
      r.Ok? ==> (GetWord(words, Some("latitude"), Some("longitude")).Ok?
      && LiteralEval(GetWord(words, Some("latitude"), Some("longitude")).value) == Ok(r.value.fields["latitude"]))
    ensures var r := ReadRecord(words);
      r.Ok? ==> (GetWord(words, Some("longitude"), Some("RAG_estimated")).Ok?
      && LiteralEval(GetWord(words, Some("longitude"), Some("RAG_estimated")).value) == Ok(r.value.fields["longitude"]))
    ensures var r := ReadRecord(words);
      r.Ok? ==> (|Filter(words, IsBoolWord)| > 0
      && r.value.fields["RAG_estimated"] == JBool(Lower(Filter(words, IsBoolWord)[0]) == "true"))
  {
    var r := ReadRecord(words);
    if r.Ok? {
      var name := GetWord(words, Some("name"), Some("latitude"));
      var lat := GetWord(words, Some("latitude"), Some("longitude"));
      var lon := GetWord(words, Some("longitude"), Some("RAG_estimated"));
      var bools := Filter(words, IsBoolWord);
      assert name.Ok? && lat.Ok? && lon.Ok? && LiteralEval(lat.value).Ok? && LiteralEval(lon.value).Ok?;
      assert |bools| > 0;
      FilterSpec(words, IsBoolWord);
      assert bools[0] in bools;
      CapitalizedBool(bools[0]);
      assert r.value == Record(name.value, LiteralEval(lat.value).value, LiteralEval(lon.value).value,
                               JBool(Lower(bools[0]) == "true"));
    }
  }

  /** The record read off words whose three values and first boolean
      word are known. */
  lemma ReadRecordOf(words: seq<string>, name: string, lat: string, lon: string, flag: string)
    requires GetWord(words, Some("name"), Some("latitude")) == Ok(name)
    requires GetWord(words, Some("latitude"), Some("longitude")) == Ok(lat)
    requires GetWord(words, Some("longitude"), Some("RAG_estimated")) == Ok(lon)
    requires LiteralEval(lat).Ok? && LiteralEval(lon).Ok?
    requires |Filter(words, IsBoolWord)| > 0 && Filter(words, IsBoolWord)[0] == flag
    ensures ReadRecord(words) == Ok(Record(name, LiteralEval(lat).value, LiteralEval(lon).value, JBool(Lower(flag) == "true")))
  {
    FilterSpec(words, IsBoolWord);
    assert flag in Filter(words, IsBoolWord);
    CapitalizedBool(flag);
  }

  /** However the separators between its words are mangled (quotes, commas
      or braces missing), an answer whose words the tokenizer reads back
      comes out of fix_json as the record it spells out. */
  lemma FixJsonReadsRecord(nameWords: seq<string>, lat: string, lon: string, flag: string, seps: seq<string>)
    requires PlainValues(nameWords, lat, lon, flag)
    requires Renderable(RecordTokens(nameWords, lat, lon, flag), seps)
    ensures FixJson(Render(RecordTokens(nameWords, lat, lon, flag), seps)) == ExpectedRecord(nameWords, lat, lon, flag)
  {
    ExtractRendered(RecordTokens(nameWords, lat, lon, flag), seps);
    RepairRecordWords(nameWords, lat, lon, flag);
  }

  // ---------------------------------------------------------------------
  // validate_json

  /** The largest difference on either axis at which a match still counts. */
  const Tolerance: real := 0.001

  function Abs(x: real): real {
    if x < 0.0 then -x else x
  }

  /** float(v[key]). */
  function Coordinate(v: Json, key: string): Result<real> {
    var x :- Get(v, key);
    ToFloat(x)
  }

  /** Both coordinates of the record and of the match can be read. */
  predicate Readable(record: Json, m: Json) {
    && Coordinate(m, "lat").Ok? && Coordinate(record, "latitude").Ok?
    && Coordinate(m, "lon").Ok? && Coordinate(record, "longitude").Ok?
  }

  /** The match lies within the tolerance of the record on both axes. */
  predicate Within(record: Json, m: Json) {
    && Readable(record, m)
    && Abs(Coordinate(m, "lat").value - Coordinate(record, "latitude").value) <= Tolerance
    && Abs(Coordinate(m, "lon").value - Coordinate(record, "longitude").value) <= Tolerance
  }

  /** The loop body of validate_json for one match, reading the match's
      latitude, the record's latitude, the match's longitude and the
      record's longitude in that order. */
  function CloseTo(record: Json, m: Json): (r: Result<bool>)
    ensures r.Ok? <==> Readable(record, m)
    ensures r.Ok? ==> (r.value <==> Within(record, m))
    ensures r.Err? ==> r.error in {KeyError, TypeError, ValueError}
  {
    var mlat :- Coordinate(m, "lat");
    var rlat :- Coordinate(record, "latitude");
    var mlon :- Coordinate(m, "lon");
    var rlon :- Coordinate(record, "longitude");
    Ok(Abs(mlat - rlat) <= Tolerance && Abs(mlon - rlon) <= Tolerance)
  }

  /** The loop of validate_json over all matches: it does not stop at the
      first close match, so an unreadable later match still raises. */
  function AnyClose(record: Json, matches: seq<Json>): (r: Result<bool>)
    ensures r.Ok? <==> forall k :: 0 <= k < |matches| ==> Readable(record, matches[k])
    ensures r.Ok? ==> (r.value <==> exists k :: 0 <= k < |matches| && Within(record, matches[k]))
    ensures r.Err? ==> r.error in {KeyError, TypeError, ValueError}
    decreases |matches|
  {
    if |matches| == 0 then Ok(false)
    else
      var here :- CloseTo(record, matches[0]);
      var later :- AnyClose(record, matches[1..]);
      assert forall k :: 1 <= k < |matches| ==> matches[k] == matches[1..][k - 1];
      Ok(here || later)
  }

  /** validate_json: sets RAG_estimated to whether some match lies within the
      tolerance on both axes (false for no matches) and leaves every other
      entry of the record as it was. */
  function ValidateJson(record: Json, matches: seq<Json>): (r: Result<Json>)
    ensures r.Ok? <==> record.JObj? && forall k :: 0 <= k < |matches| ==> Readable(record, matches[k])
    ensures r.Ok? ==> r.value.JObj? && r.value.fields.Keys == record.fields.Keys + {"RAG_estimated"}
    ensures r.Ok? ==> forall key :: key in record.fields && key != "RAG_estimated" ==>
      r.value.fields[key] == record.fields[key]
    ensures r.Ok? ==>
      r.value.fields["RAG_estimated"] == JBool(exists k :: 0 <= k < |matches| && Within(record, matches[k]))
    ensures r.Err? ==> r.error in {AttributeError, KeyError, TypeError, ValueError}
  {
    if |matches| == 0 then
      match record
      case JObj(fields) => Ok(JObj(fields["RAG_estimated" := JBool(false)]))
      case _ => Err(AttributeError)
    else
      var rag :- AnyClose(record, matches);
      match record
      case JObj(fields) => Ok(JObj(fields["RAG_estimated" := JBool(rag)]))
      case _ => Err(AttributeError)
  }

  /** The record validate_json returns has the same coordinates as the one
      it was given, so a match is close to one exactly when it is close to
      the other. */
  lemma ValidatedWithin(record: Json, matches: seq<Json>)
    ensures ValidateJson(record, matches).Ok? ==>
      forall m :: Within(ValidateJson(record, matches).value, m) <==> Within(record, m)
  {
    var r := ValidateJson(record, matches);
    if r.Ok? {
      assert "latitude" != "RAG_estimated" && "longitude" != "RAG_estimated";
      assert Get(r.value, "latitude") == Get(record, "latitude");
      assert Get(r.value, "longitude") == Get(record, "longitude");
    }
  }

  // ---------------------------------------------------------------------
  // clean_response

  /** The spelling fixes applied before parsing: single quotes become
      double quotes and Python's True and False become JSON's true and false. */
  function Normalize(response: string): string {
    Replace(Replace(Replace(response, "'", "\""), "True", "true"), "False", "false")
  }

  /** No single quote survives the spelling fixes. */
  lemma NormalizeRemovesQuotes(response: string)
    ensures '\'' !in Normalize(response)
  {
    ReplaceRemovesChar(response, '\'', "\"");
    var once := Replace(response, "'", "\"");
    ReplaceKeepsCharOut(once, "True", "true", '\'');
    ReplaceKeepsCharOut(Replace(once, "True", "true"), "False", "false", '\'');
  }

  /** The record a reply parses to before any validation: the fixed text
      read strictly with `loads`, or by fix_json when that fails. */
  function ParseReply(response: string, loads: string -> Option<Json>): Result<Json> {
    match loads(Normalize(response))
    case Some(v) => Ok(v)
    case None => FixJson(Normalize(response))
  }

  /** clean_response: parse the fixed text strictly with `loads` and fall
      back to fix_json only when that fails; then, when matches are given
      (an empty list included), decide RAG_estimated against them. With
      matches, a parse failure is passed on, every other entry comes from
      the parsed reply, and validation fails exactly when the parsed reply
      is not a dict or some match cannot be read against it. */
  function CleanResponse(response: string, validation: Option<seq<Json>>, loads: string -> Option<Json>): (r: Result<Json>)
    ensures loads(Normalize(response)).Some? && validation.None? ==> r == Ok(loads(Normalize(response)).value)
    ensures loads(Normalize(response)).None? && validation.None? ==> r == FixJson(Normalize(response))
    ensures validation.Some? && ParseReply(response, loads).Err? ==> r == ParseReply(response, loads)
    ensures validation.Some? && r.Ok? ==> r.value.JObj? && "RAG_estimated" in r.value.fields
    ensures validation == Some([]) && r.Ok? ==> r.value.fields["RAG_estimated"] == JBool(false)
    ensures validation.Some? && r.Ok? ==>
      r.value.fields["RAG_estimated"] == JBool(exists k :: 0 <= k < |validation.value| && Within(r.value, validation.value[k]))
  {
    var parsed := ParseReply(response, loads);
    match validation
    case None => parsed
    case Some(matches) =>
      var v :- parsed;
      ValidatedWithin(v, matches);
      ValidateJson(v, matches)
  }

  /** With matches, cleaning succeeds exactly when the parsed reply is a
      dict against which every match can be read, and the record keeps
      every key of the parse other than RAG_estimated. */
  lemma CleanResponseKeepsParse(response: string, matches: seq<Json>, loads: string -> Option<Json>)
    ensures var r := CleanResponse(response, Some(matches), loads);
      ParseReply(response, loads).Ok? ==>
      var p := ParseReply(response, loads).value;
      (r.Ok? <==> p.JObj? && forall k :: 0 <= k < |matches| ==> Readable(p, matches[k]))
    ensures var r := CleanResponse(response, Some(matches), loads);
      r.Ok? ==>
      var p := ParseReply(response, loads).value;
      && ParseReply(response, loads).Ok? && p.JObj?
      && r.value.JObj? && r.value.fields.Keys == p.fields.Keys + {"RAG_estimated"}
      && forall key :: key in p.fields && key != "RAG_estimated" ==> r.value.fields[key] == p.fields[key]
  {
  }

  /** A reply the strict parser rejects, laid out as a complete answer
      with its separators mangled, is repaired into the record it spells,
      and RAG_estimated is then decided against the matches. */
  lemma CleanResponseRepairsRecord(nameWords: seq<string>, lat: string, lon: string, flag: string,
                                   seps: seq<string>, matches: seq<Json>, loads: string -> Option<Json>)
    requires PlainValues(nameWords, lat, lon, flag)
    requires Renderable(RecordTokens(nameWords, lat, lon, flag), seps)
    requires var s := Render(RecordTokens(nameWords, lat, lon, flag), seps);
      '\'' !in s && !Contains(s, "True") && !Contains(s, "False") && loads(s).None?
    ensures var s := Render(RecordTokens(nameWords, lat, lon, flag), seps);
      var e := ExpectedRecord(nameWords, lat, lon, flag);
      CleanResponse(s, Some(matches), loads) == if e.Ok? then ValidateJson(e.value, matches) else e
  {
    var s := Render(RecordTokens(nameWords, lat, lon, flag), seps);
    ContainsChar(s, '\'');
    ReplaceAbsent(s, "'", "\"");
    ReplaceAbsent(s, "True", "true");
    ReplaceAbsent(s, "False", "false");
    assert Normalize(s) == s;
    FixJsonReadsRecord(nameWords, lat, lon, flag, seps);
  }
}
