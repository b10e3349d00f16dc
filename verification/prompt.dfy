/** Prompt building and reply slicing shared by both language models
    (Model in geo_llama/model.py). The templates are read from files and
    generation runs a neural model; both are inputs here. */
module Prompt {
  import opened PyValues
  import opened PyStrings

  // ---------------------------------------------------------------------
  // str.format

  /** `t` holds no brace, so formatting copies it unchanged. */
  predicate BraceFree(t: string) {
    '{' !in t && '}' !in t
  }

  /** str.format with automatically numbered fields: `{{` and `}}` stand for
      literal braces and each `{}` takes the next argument; surplus
      arguments are ignored. Too few arguments raise IndexError, and a lone
      `}` or a `{` at the very end raises ValueError. Numbered, named and
      formatted fields (`{0}`, `{x}`, `{:>4}`) are not interpreted here
      and give UnsupportedFormat. */
  function Format(template: string, args: seq<string>): (r: Result<string>)
    ensures r.Err? ==> r.error in {IndexError, ValueError, UnsupportedFormat}
  {
    FormatFrom(template, args, 0)
  }

  /** Formatting the rest `t` of a template when `n` arguments are used up. */
  function FormatFrom(t: string, args: seq<string>, n: nat): (r: Result<string>)
    ensures r.Err? ==> r.error in {IndexError, ValueError, UnsupportedFormat}
    decreases |t|
  {
    if |t| == 0 then Ok("")
    else if |t| >= 2 && t[..2] == "{{" then
      var rest :- FormatFrom(t[2..], args, n);
      Ok("{" + rest)
    else if |t| >= 2 && t[..2] == "}}" then
      var rest :- FormatFrom(t[2..], args, n);
      Ok("}" + rest)
    else if |t| >= 2 && t[..2] == "{}" then
      if n < |args| then
        var rest :- FormatFrom(t[2..], args, n + 1);
        Ok(args[n] + rest)
      else Err(IndexError)
    else if t[0] == '{' then
      if |t| == 1 then Err(ValueError) else Err(UnsupportedFormat)
    else if t[0] == '}' then Err(ValueError)
    else
      var rest :- FormatFrom(t[1..], args, n);
      Ok(t[..1] + rest)
  }

  /** Brace-free text in front of the rest is copied through. */
  lemma {:induction false} FormatLiteral(p: string, rest: string, args: seq<string>, n: nat)
    requires BraceFree(p)
    ensures FormatFrom(p + rest, args, n)
         == (match FormatFrom(rest, args, n)
             case Ok(v) => Ok(p + v)
             case Err(e) => Err(e))
    decreases |p|
  {
    var t := p + rest;
    if |p| > 0 {
      assert t[0] == p[0];
      assert |t| >= 2 ==> t[..2][0] == t[0];
      assert t[..1] == p[..1];
      assert t[1..] == p[1..] + rest;
      FormatLiteral(p[1..], rest, args, n);
      match FormatFrom(rest, args, n) {
        case Ok(v) => assert p[..1] + (p[1..] + v) == p + v;
        case Err(_) =>
      }
    } else {
      assert t == rest;
      match FormatFrom(rest, args, n) {
        case Ok(v) => assert p + v == v;
        case Err(_) =>
      }
    }
  }

  /** `s` with each brace doubled: the template whose formatting is `s`. */
  function Escape(s: string): (r: string)
    ensures |r| >= |s|
  {
    if |s| == 0 then ""
    else if s[0] == '{' || s[0] == '}' then [s[0], s[0]] + Escape(s[1..])
    else [s[0]] + Escape(s[1..])
  }

  /** Formatting undoes escaping, whatever the arguments. */
  lemma {:induction false} FormatEscape(s: string, args: seq<string>, n: nat)
    ensures FormatFrom(Escape(s), args, n) == Ok(s)
    decreases |s|
  {
    if |s| > 0 {
      var t := Escape(s);
      FormatEscape(s[1..], args, n);
      if s[0] == '{' || s[0] == '}' {
        assert t[..2] == [s[0], s[0]];
        assert t[2..] == Escape(s[1..]);
      } else {
        assert t[0] == s[0];
        assert t[1..] == Escape(s[1..]);
        assert t[..1] == [s[0]];
      }
      assert s == [s[0]] + s[1..];
    }
  }

  /** The text a template with brace-free `pieces` around its `{}` fields
      stands for: the pieces with the arguments in between, in order. */
  function Fill(pieces: seq<string>, args: seq<string>): string
    requires |pieces| >= 1 && |args| >= |pieces| - 1
    decreases |pieces|
  {
    if |pieces| == 1 then pieces[0]
    else pieces[0] + args[0] + Fill(pieces[1..], args[1..])
  }

  /** A template with one `{}` between each pair of brace-free pieces
      formats to the pieces filled with the arguments, provided there are
      enough of them, and raises IndexError otherwise. */
  lemma {:induction false} FormatSlots(pieces: seq<string>, args: seq<string>, n: nat)
    requires |pieces| >= 1 && n <= |args|
    requires forall k :: 0 <= k < |pieces| ==> BraceFree(pieces[k])
    ensures FormatFrom(Join("{}", pieces), args, n)
         == if |args| - n >= |pieces| - 1 then Ok(Fill(pieces, args[n..])) else Err(IndexError)
    decreases |pieces|
  {
    if |pieces| == 1 {
      FormatLiteral(pieces[0], "", args, n);
      assert pieces[0] + "" == pieces[0];
    } else {
      var tail := Join("{}", pieces[1..]);
      var t := "{}" + tail;
      assert Join("{}", pieces) == pieces[0] + t;
      FormatLiteral(pieces[0], t, args, n);
      assert t[..2] == "{}" && t[2..] == tail;
      assert t[..2] != "{{" && t[..2] != "}}";
      if n < |args| {
        FormatSlots(pieces[1..], args, n + 1);
        assert args[n..][1..] == args[n + 1..];
        assert args[n..][0] == args[n];
        if |args| - n >= |pieces| - 1 {
          var f := Fill(pieces[1..], args[n + 1..]);
          assert FormatFrom(t, args, n) == Ok(args[n] + f);
          assert pieces[0] + (args[n] + f) == pieces[0] + args[n] + f;
        }
      }
    }
  }

  // ---------------------------------------------------------------------
  // Model.format_prompt and the two prompts built on it

  /** format_prompt: the prompt template filled with the instruction, the
      input and the example response, as the batch of one prompt held
      under the `text` key of the returned dictionary. */
  function FormatPrompt(template: string, instruction: string, input: string, response: string): (r: Result<seq<string>>)
    ensures r.Ok? ==> |r.value| == 1
    ensures r.Err? ==> r.error in {IndexError, ValueError, UnsupportedFormat}
  {
    var text :- Format(template, [instruction, input, response]);
    Ok([text])
  }

  /** The filling of four pieces, written out. */
  lemma FillFour(pieces: seq<string>, args: seq<string>)
    requires |pieces| == 4 && |args| == 3
    ensures Fill(pieces, args) == pieces[0] + args[0] + pieces[1] + args[1] + pieces[2] + args[2] + pieces[3]
  {
    var p1, a1 := pieces[1..], args[1..];
    var p2, a2 := p1[1..], a1[1..];
    assert p2[0] == pieces[2] && a2[0] == args[2] && p2[1..] == pieces[3..];
    var tail := pieces[2] + args[2] + pieces[3];
    assert Fill(p2, a2) == tail;
    var mid := pieces[1] + args[1] + tail;
    assert Fill(p1, a1) == mid;
    assert Fill(pieces, args) == pieces[0] + args[0] + mid;
    ConcatAssoc(pieces[1] + args[1], pieces[2] + args[2], pieces[3]);
    ConcatAssoc(pieces[1] + args[1], pieces[2], args[2]);
    ConcatAssoc(pieces[0] + args[0], pieces[1] + args[1] + pieces[2] + args[2], pieces[3]);
    ConcatAssoc(pieces[0] + args[0], pieces[1] + args[1] + pieces[2], args[2]);
    ConcatAssoc(pieces[0] + args[0], pieces[1] + args[1], pieces[2]);
    ConcatAssoc(pieces[0] + args[0], pieces[1], args[1]);
  }

  /** A prompt template with three fields yields the instruction, the input
      and the response in its three places. */
  lemma FormatPromptFills(pieces: seq<string>, instruction: string, input: string, response: string)
    requires |pieces| == 4
    requires forall k :: 0 <= k < |pieces| ==> BraceFree(pieces[k])
    ensures FormatPrompt(Join("{}", pieces), instruction, input, response)
         == Ok([pieces[0] + instruction + pieces[1] + input + pieces[2] + response + pieces[3]])
  {
    var args := [instruction, input, response];
    FormatSlots(pieces, args, 0);
    assert args[0..] == args;
    FillFour(pieces, args);
  }

  /** A prompt template with more than three fields raises IndexError. */
  lemma FormatPromptTooManyFields(pieces: seq<string>, instruction: string, input: string, response: string)
    requires |pieces| > 4
    requires forall k :: 0 <= k < |pieces| ==> BraceFree(pieces[k])
    ensures FormatPrompt(Join("{}", pieces), instruction, input, response) == Err(IndexError)
  {
    FormatSlots(pieces, [instruction, input, response], 0);
  }

  /** toponym_prompt: the instruction and the text, with an empty response. */
  function ToponymPrompt(template: string, instruction: string, text: string): (r: Result<seq<string>>)
    ensures r.Ok? ==> |r.value| == 1
  {
    FormatPrompt(template, instruction, text, "")
  }

  /** geoparse_prompt: the input template filled with the text, the toponym
      and the printed match list, then placed in the prompt template with an
      empty response. The toponym model loads no input template; using it
      there raises AttributeError. */
  function GeoparsePrompt(template: string, instruction: string, inputTemplate: Option<string>,
                          text: string, toponym: string, matchesText: string): (r: Result<seq<string>>)
    ensures inputTemplate.None? ==> r == Err(AttributeError)
    ensures r.Ok? ==> |r.value| == 1
  {
    match inputTemplate
    case None => Err(AttributeError)
    case Some(t) =>
      var input :- Format(t, [text, toponym, matchesText]);
      FormatPrompt(template, instruction, input, "")
  }

  /** With three-field templates the prompt holds the text, the toponym and
      the matches, in that order, inside the input part. */
  lemma GeoparsePromptFills(pieces: seq<string>, inputPieces: seq<string>, instruction: string,
                            text: string, toponym: string, matchesText: string)
    requires |pieces| == 4 && |inputPieces| == 4
    requires forall k :: 0 <= k < 4 ==> BraceFree(pieces[k]) && BraceFree(inputPieces[k])
    ensures GeoparsePrompt(Join("{}", pieces), instruction, Some(Join("{}", inputPieces)), text, toponym, matchesText)
      == Ok([pieces[0] + instruction + pieces[1]
             + (inputPieces[0] + text + inputPieces[1] + toponym + inputPieces[2] + matchesText + inputPieces[3])
             + pieces[2] + pieces[3]])
  {
    var input := inputPieces[0] + text + inputPieces[1] + toponym + inputPieces[2] + matchesText + inputPieces[3];
    FormatPromptFills(inputPieces, text, toponym, matchesText);
    assert Format(Join("{}", inputPieces), [text, toponym, matchesText]) == Ok(input);
    FormatPromptFills(pieces, instruction, input, "");
    var front := pieces[0] + instruction + pieces[1] + input + pieces[2];
    assert front + "" == front;
  }

  // ---------------------------------------------------------------------
  // The reply slicing in Model.get_output

  /** The response in the decoded batch: the text after the first response
      token, cut at the next response token and then at the first
      end-of-sequence token. An empty batch or a missing response token
      raises IndexError; an empty token or marker raises ValueError. */
  function GetResponse(decoded: seq<string>, token: string, eos: string): (r: Result<string>)
    ensures r.Err? ==> r.error in {IndexError, ValueError}
    ensures r.Err? && r.error == IndexError <==> |decoded| == 0 || (|token| > 0 && !Contains(decoded[0], token))
  {
    if |decoded| == 0 then Err(IndexError)
    else if |token| == 0 then Err(ValueError)
    else
      var pieces := Split(decoded[0], token);
      SplitHead(decoded[0], token);
      if |pieces| < 2 then Err(IndexError)
      else if |eos| == 0 then Err(ValueError)
      else Ok(Split(pieces[1], eos)[0])
  }

  /** `v` is the response of reply `s`: it directly follows the first
      response token, holds neither marker, and ends where a marker or the
      text ends. */
  predicate ResponseOf(s: string, token: string, eos: string, v: string) {
    Find(s, token).Some? && ResponseAt(s, token, eos, v, Find(s, token).value + |token|)
  }

  /** `v` occurs at `start`, holds neither marker, and ends where a marker
      or the text ends. */
  predicate ResponseAt(s: string, token: string, eos: string, v: string, start: nat) {
    && OccursAt(s, v, start)
    && !Contains(v, token) && !Contains(v, eos)
    && EndsResponse(s, token, eos, start + |v|)
  }

  /** Position `e` of `s` ends a response: the text or a marker begins there. */
  predicate EndsResponse(s: string, token: string, eos: string, e: nat) {
    e == |s| || OccursAt(s, token, e) || OccursAt(s, eos, e)
  }

  /** A successful read yields the response of the first reply. */
  lemma GetResponseSpec(decoded: seq<string>, token: string, eos: string)
    requires GetResponse(decoded, token, eos).Ok?
    ensures ResponseOf(decoded[0], token, eos, GetResponse(decoded, token, eos).value)
  {
    GetResponseOk(decoded, token, eos);
    GetResponseSteps(decoded, token, eos);
    ResponseWithin(decoded[0], token, eos);
  }

  /** The second piece of `s` at `token`, cut at `eos`, is the response. */
  lemma ResponseWithin(s: string, token: string, eos: string)
    requires |token| > 0 && |eos| > 0 && Contains(s, token)
    ensures ResponseOf(s, token, eos, Split(Split(s, token)[1], eos)[0])
  {
    SplitSecond(s, token);
    var start := Find(s, token).value + |token|;
    CutWithin(s, start, token, eos);
    assert Split(s, token)[1] == Split(s[start..], token)[0];
    assert ResponseAt(s, token, eos, Split(Split(s, token)[1], eos)[0], start);
  }

  /** The text after `start`, cut at the first `token` and then at the
      first `eos`, is a response sitting at `start`. */
  lemma CutWithin(s: string, start: nat, token: string, eos: string)
    requires |token| > 0 && |eos| > 0 && start <= |s|
    ensures ResponseAt(s, token, eos, Split(Split(s[start..], token)[0], eos)[0], start)
  {
    var x := s[start..];
    var v := Split(Split(x, token)[0], eos)[0];
    CutPrefix(x, token, eos);
    assert |v| <= |x| && x[..|v|] == v && EndsResponse(x, token, eos, |v|);
    SliceWithin(s, start, x, token, eos, v);
    assert ResponseAt(s, token, eos, v, start);
  }

  /** A prefix of the text after `start` occurs at `start`, and where it
      ends in the slice a response ends in the whole reply. */
  lemma SliceWithin(s: string, start: nat, x: string, token: string, eos: string, v: string)
    requires start <= |s| && s[start..] == x
    requires |v| <= |x| && x[..|v|] == v && EndsResponse(x, token, eos, |v|)
    ensures OccursAt(s, v, start) && EndsResponse(s, token, eos, start + |v|)
  {
    assert s[start..start + |x|] == x;
    assert OccursAt(x, v, 0);
    OccursWithin(s, start, x, v, 0);
    if OccursAt(x, token, |v|) {
      OccursWithin(s, start, x, token, |v|);
    }
    if OccursAt(x, eos, |v|) {
      OccursWithin(s, start, x, eos, |v|);
    }
  }

  /** Cutting a text at the first `token` and then at the first `eos` leaves
      a prefix free of both that ends at one of them or at the end of the
      text. */
  lemma CutPrefix(x: string, token: string, eos: string)
    requires |token| > 0 && |eos| > 0
    ensures var v := Split(Split(x, token)[0], eos)[0];
      && |v| <= |x| && x[..|v|] == v
      && !Contains(v, token) && !Contains(v, eos)
      && EndsResponse(x, token, eos, |v|)
  {
    var piece := Split(x, token)[0];
    var v := Split(piece, eos)[0];
    FirstPiece(x, token);
    FirstPiece(piece, eos);
    PrefixLacks(piece, v, token);
    assert x[..|v|] == v by {
      assert x[..|piece|][..|v|] == x[..|v|];
    }
    if |v| < |piece| {
      assert x[0..|piece|] == piece;
      OccursWithin(x, 0, piece, eos, |v|);
    }
  }

  /** The first piece of a split is a prefix free of the separator, ended by
      the separator or by the end of the string. */
  lemma FirstPiece(x: string, sep: string)
    requires |sep| > 0
    ensures var h := Split(x, sep)[0];
      && |h| <= |x| && x[..|h|] == h && !Contains(h, sep)
      && (|h| == |x| || OccursAt(x, sep, |h|))
  {
    SplitHead(x, sep);
    if |Split(x, sep)[0]| < |x| {
      SplitFirstSeparator(x, sep);
    }
  }

  /** A prefix of a string that lacks a pattern lacks it too. */
  lemma PrefixLacks(x: string, p: string, pat: string)
    requires |p| <= |x| && x[..|p|] == p && !Contains(x, pat)
    ensures !Contains(p, pat)
  {
    forall j: nat | j <= |p|
      ensures !OccursAt(p, pat, j)
    {
      if j + |pat| <= |p| {
        assert p[j..j + |pat|] == x[j..j + |pat|];
        assert !OccursAt(x, pat, j);
      }
    }
  }

  /** An occurrence inside a slice is an occurrence in the whole string. */
  lemma OccursWithin(s: string, off: nat, x: string, pat: string, i: nat)
    requires off + |x| <= |s| && s[off..off + |x|] == x && OccursAt(x, pat, i)
    ensures OccursAt(s, pat, off + i)
  {
    forall t | 0 <= t < |pat|
      ensures s[off + i + t] == pat[t]
    {
      assert x[i..i + |pat|][t] == x[i + t] == s[off..off + |x|][i + t];
    }
  }

  /** When the first piece is shorter than the string, the separator
      follows it. */
  lemma SplitFirstSeparator(s: string, sep: string)
    requires |sep| > 0 && |Split(s, sep)[0]| < |s|
    ensures OccursAt(s, sep, |Split(s, sep)[0]|)
  {
    match Find(s, sep)
    case None =>
    case Some(k) =>
      assert Split(s, sep)[0] == s[..k];
  }

  /** A reply laid out as prompt echo, response token, response, marker and
      anything after it yields exactly the response. */
  lemma GetResponseOf(pre: string, token: string, body: string, eos: string, post: string)
    requires |token| > 0 && |eos| > 0
    requires token[0] !in pre && token[0] !in body && token[0] !in eos
    requires eos[0] !in body
    ensures GetResponse([pre + token + body + eos + post], token, eos) == Ok(body)
  {
    var s := pre + token + body + eos + post;
    var x := Split(post, token)[0];
    ConcatAssoc(pre + token, body, eos);
    SecondPiece(pre, token, body + eos, post);
    assert Split(s, token)[1] == body + eos + x;
    SplitAfter(body, eos, x);
    GetResponseSteps([s], token, eos);
    assert GetResponse([s], token, eos) == Ok(Split(body + eos + x, eos)[0]);
  }

  /** The piece after the first response token runs up to the next one. */
  lemma SecondPiece(pre: string, token: string, mid: string, post: string)
    requires |token| > 0 && token[0] !in pre && token[0] !in mid
    ensures |Split(pre + token + mid + post, token)| >= 2
    ensures Split(pre + token + mid + post, token)[1] == mid + Split(post, token)[0]
  {
    var rest := mid + post;
    ConcatAssoc(pre + token, mid, post);
    SplitAfter(pre, token, rest);
    var pieces := Split(pre + token + rest, token);
    assert pieces == [pre] + Split(rest, token);
    assert pieces[1] == Split(rest, token)[0];
    SplitHeadSkip(mid, post, token);
  }

  /** What a successful read requires of the reply and the markers. */
  lemma GetResponseOk(decoded: seq<string>, token: string, eos: string)
    requires GetResponse(decoded, token, eos).Ok?
    ensures |decoded| > 0 && |token| > 0 && |eos| > 0
    ensures Contains(decoded[0], token) && |Split(decoded[0], token)| >= 2
  {
    SplitHead(decoded[0], token);
  }

  /** The response of a reply that holds the response token, read off its
      pieces. */
  lemma GetResponseSteps(decoded: seq<string>, token: string, eos: string)
    requires |decoded| > 0 && |token| > 0 && |eos| > 0 && |Split(decoded[0], token)| >= 2
    ensures GetResponse(decoded, token, eos) == Ok(Split(Split(decoded[0], token)[1], eos)[0])
  {
  }

  /** The reply of the stand-in model used in the tests, `input ### Response:
      default output <\out>`, written in its four parts. */
  lemma GetResponseExample()
    ensures GetResponse(["input " + "### Response:" + " default output " + "<\\out>"], "### Response:", "<\\out>")
         == Ok(" default output ")
  {
    var reply := "input " + "### Response:" + " default output " + "<\\out>";
    GetResponseOf("input ", "### Response:", " default output ", "<\\out>", "");
    assert reply + "" == reply;
  }
}
