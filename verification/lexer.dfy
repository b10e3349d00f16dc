/** RAGModel.extract_words (geo_llama/model.py): the regular expression

      \b[\wÀ-ſ]+(?:[-.'][\wÀ-ſ]+)*  |  -?\d+(?:\.\d+)?

    applied with re.findall. The scan tries the word alternative, then the
    number alternative, at each position; a match is emitted and the scan
    resumes after it, otherwise the scan moves on by one character.
 */
module Lexer {
  import opened PyValues
  import opened PyStrings

  /** `\w` in this model: ASCII letters and digits, `_`, and the Latin
      letters U+00C0-U+017F. */
  predicate IsWordChar(c: char) {
    IsAsciiLetter(c) || IsDigit(c) || c == '_' || IsLatinLetter(c)
  }

  /** The class `[\wÀ-ſ]`: `\w` plus the whole range, × and ÷ included. */
  predicate InWordClass(c: char) {
    IsWordChar(c) || ('\U{00C0}' <= c <= '\U{017F}')
  }

  /** The characters `[-.']` that join two runs into one word. */
  predicate IsJoiner(c: char) {
    c == '-' || c == '.' || c == '\''
  }

  /** A character that can be part of a token. */
  predicate IsTokenChar(c: char) {
    InWordClass(c) || IsJoiner(c)
  }

  /** `\b` at position i: exactly one of the neighbouring characters is `\w`. */
  predicate Boundary(s: string, i: nat)
    requires i <= |s|
  {
    (0 < i && IsWordChar(s[i - 1])) != (i < |s| && IsWordChar(s[i]))
  }

  /** Where the word alternative ends, having consumed a class character
      just before j: more class characters, or a joiner followed by one. */
  function WordEnd(s: string, j: nat): (e: nat)
    requires j <= |s|
    ensures j <= e <= |s|
    ensures forall k :: j <= k < e ==> IsTokenChar(s[k])
    decreases |s| - j
  {
    if j < |s| && InWordClass(s[j]) then WordEnd(s, j + 1)
    else if j + 1 < |s| && IsJoiner(s[j]) && InWordClass(s[j + 1]) then WordEnd(s, j + 1)
    else j
  }

  /** The end of the run of digits starting at j. */
  function DigitsEnd(s: string, j: nat): (e: nat)
    requires j <= |s|
    ensures j <= e <= |s|
    ensures forall k :: j <= k < e ==> IsDigit(s[k])
    ensures e < |s| ==> !IsDigit(s[e])
    decreases |s| - j
  {
    if j < |s| && IsDigit(s[j]) then DigitsEnd(s, j + 1) else j
  }

  /** The optional `\.\d+` after the integer digits ending at j. */
  function FractionEnd(s: string, j: nat): (e: nat)
    requires j <= |s|
    ensures j <= e <= |s|
    ensures forall k :: j <= k < e ==> IsDigit(s[k]) || s[k] == '.'
  {
    if j + 1 < |s| && s[j] == '.' && IsDigit(s[j + 1]) then DigitsEnd(s, j + 1) else j
  }

  /** The end of the match starting at position i, if either alternative matches there. */
  function MatchAt(s: string, i: nat): (r: Option<nat>)
    requires i < |s|
    ensures r.Some? ==> i < r.value <= |s|
    ensures r.Some? ==> forall k :: i <= k < r.value ==> IsTokenChar(s[k])
  {
    if Boundary(s, i) && InWordClass(s[i]) then Some(WordEnd(s, i + 1))
    else if s[i] == '-' && i + 1 < |s| && IsDigit(s[i + 1]) then Some(FractionEnd(s, DigitsEnd(s, i + 1)))
    else if IsDigit(s[i]) then Some(FractionEnd(s, DigitsEnd(s, i)))
    else None
  }

  /** A matched slice of the input: characters [start, end). */
  datatype Span = Span(start: nat, end: nat)

  /** The span is a non-empty slice of `s` made of token characters. */
  ghost predicate SpanOk(s: string, sp: Span) {
    sp.start < sp.end <= |s| && forall k :: sp.start <= k < sp.end ==> IsTokenChar(s[k])
  }

  /** The spans re.findall reports from position i on. */
  function Spans(s: string, i: nat): (r: seq<Span>)
    requires i <= |s|
    ensures forall k :: 0 <= k < |r| ==> i <= r[k].start && SpanOk(s, r[k])
    ensures forall k :: 0 < k < |r| ==> r[k - 1].end <= r[k].start
    decreases |s| - i
  {
    if i == |s| then []
    else match MatchAt(s, i)
      case Some(e) => [Span(i, e)] + Spans(s, e)
      case None => Spans(s, i + 1)
  }

  /** The text of each span. */
  function Texts(s: string, sps: seq<Span>): (r: seq<string>)
    requires forall k :: 0 <= k < |sps| ==> sps[k].start <= sps[k].end <= |s|
    ensures |r| == |sps|
    ensures forall k :: 0 <= k < |r| ==> r[k] == s[sps[k].start..sps[k].end]
  {
    seq(|sps|, k requires 0 <= k < |sps| => s[sps[k].start..sps[k].end])
  }

  /** extract_words: every token is a non-empty run of token characters, and
      the tokens are disjoint slices of the input in source order. */
  function ExtractWords(s: string): (r: seq<string>)
    ensures |r| == |Spans(s, 0)|
    ensures forall k :: 0 <= k < |r| ==> r[k] == s[Spans(s, 0)[k].start..Spans(s, 0)[k].end]
    ensures forall k :: 0 <= k < |r| ==> |r[k]| > 0 && forall c :: c in r[k] ==> IsTokenChar(c)
  {
    var sps := Spans(s, 0);
    var r := Texts(s, sps);
    assert forall k :: 0 <= k < |r| ==> SpanOk(s, sps[k]);
    r
  }

  /** The separators the tokenizer drops are never token characters, so no
      token contains a brace, quote, colon, comma or space. */
  lemma TokensHaveNoPunctuation(s: string)
    ensures forall k :: 0 <= k < |ExtractWords(s)| ==>
      forall c :: c in "{}:,\" " ==> c !in ExtractWords(s)[k]
  {
  }

  // ---------------------------------------------------------------------
  // Well-formed tokens, and recovering them from a rendering.

  /** A word token `C+([-.']C+)*` that starts with a `\w` character. */
  predicate IsWordToken(w: string) {
    && |w| > 0
    && IsWordChar(w[0])
    && InWordClass(w[|w| - 1])
    && (forall k :: 0 <= k < |w| ==> IsTokenChar(w[k]))
    && (forall k :: 0 <= k < |w| - 1 ==> IsJoiner(w[k]) ==> InWordClass(w[k + 1]))
  }

  /** The body of a number `\d+(\.\d+)?`. */
  predicate IsNumberBody(b: string) {
    && |b| > 0
    && IsDigit(b[0])
    && IsDigit(b[|b| - 1])
    && (forall k :: 0 <= k < |b| ==> IsDigit(b[k]) || b[k] == '.')
    && (forall j, k :: 0 <= j < k < |b| && b[j] == '.' ==> b[k] != '.')
  }

  /** A negative number `-\d+(\.\d+)?`; positive numbers are word tokens. */
  predicate IsNegativeNumber(w: string) {
    |w| > 1 && w[0] == '-' && IsNumberBody(w[1..])
  }

  predicate IsToken(w: string) {
    IsWordToken(w) || IsNegativeNumber(w)
  }

  /** Separator text: no word-class character and no minus sign. */
  predicate IsSeparator(sep: string) {
    forall k :: 0 <= k < |sep| ==> !InWordClass(sep[k]) && sep[k] != '-'
  }

  /** A separator that may follow a token: a lone joiner would glue the
      next token on, so a one-character separator must not be one. */
  predicate IsTrailingSeparator(sep: string) {
    IsSeparator(sep) && !(|sep| == 1 && IsJoiner(sep[0]))
  }

  /** seps[0] + tokens[0] + seps[1] + ... + tokens[n-1] + seps[n]. */
  function Render(tokens: seq<string>, seps: seq<string>): string
    requires |seps| == |tokens| + 1
    decreases |tokens|
  {
    if |tokens| == 0 then seps[0]
    else seps[0] + tokens[0] + Render(tokens[1..], seps[1..])
  }

  /** The separators and tokens of a rendering the tokenizer can undo:
      tokens are well formed and consecutive tokens are kept apart. */
  ghost predicate Renderable(tokens: seq<string>, seps: seq<string>) {
    && |seps| == |tokens| + 1
    && (forall k :: 0 <= k < |tokens| ==> IsToken(tokens[k]))
    && IsSeparator(seps[0])
    && (forall k :: 1 <= k < |seps| ==> IsTrailingSeparator(seps[k]))
    && (forall k :: 1 <= k < |tokens| ==> |seps[k]| > 0)
  }

  /** Separator characters never start a match. */
  lemma {:induction false} SkipSeparator(s: string, i: nat, j: nat)
    requires i <= j <= |s|
    requires forall k :: i <= k < j ==> !InWordClass(s[k]) && s[k] != '-'
    ensures Spans(s, i) == Spans(s, j)
    decreases j - i
  {
    if i < j {
      assert !IsDigit(s[i]);
      assert MatchAt(s, i).None?;
      SkipSeparator(s, i + 1, j);
    }
  }

  /** The word scanner stops exactly at the end of a well-formed word. */
  lemma {:induction false} WordEndAtToken(s: string, i: nat, e: nat, j: nat)
    requires i < j <= e <= |s|
    requires IsWordToken(s[i..e])
    requires j == e || InWordClass(s[j - 1]) || IsJoiner(s[j - 1])
    requires e < |s| ==> !InWordClass(s[e])
    requires e + 1 < |s| && IsJoiner(s[e]) ==> !InWordClass(s[e + 1])
    ensures WordEnd(s, j) == e
    decreases e - j
  {
    var w := s[i..e];
    if j < e {
      assert s[j] == w[j - i];
      if !InWordClass(s[j]) {
        assert IsJoiner(s[j]);
        assert j - i < |w| - 1;
        assert s[j + 1] == w[j - i + 1];
      }
      WordEndAtToken(s, i, e, j + 1);
    }
  }

  /** The digit scanner stops at the end of a run of digits. */
  lemma {:induction false} DigitsEndAt(s: string, j: nat, e: nat)
    requires j <= e <= |s|
    requires forall k :: j <= k < e ==> IsDigit(s[k])
    requires e < |s| ==> !IsDigit(s[e])
    ensures DigitsEnd(s, j) == e
    decreases e - j
  {
    if j < e {
      DigitsEndAt(s, j + 1, e);
    }
  }

  /** The number scanner stops exactly at the end of a number body. */
  lemma NumberEndAtToken(s: string, i: nat, e: nat)
    requires i < e <= |s|
    requires IsNumberBody(s[i..e])
    requires e < |s| ==> !InWordClass(s[e])
    requires e + 1 < |s| && IsJoiner(s[e]) ==> !InWordClass(s[e + 1])
    ensures FractionEnd(s, DigitsEnd(s, i)) == e
  {
    var b := s[i..e];
    if exists k :: 0 <= k < |b| && b[k] == '.' {
      var k :| 0 <= k < |b| && b[k] == '.';
      assert k > 0 && k < |b| - 1;
      forall m | i <= m < i + k
        ensures IsDigit(s[m])
      {
        assert s[m] == b[m - i];
        assert b[m - i] != '.';
      }
      DigitsEndAt(s, i, i + k);
      forall m | i + k + 1 <= m < e
        ensures IsDigit(s[m])
      {
        assert s[m] == b[m - i];
        assert b[m - i] != '.';
      }
      assert s[i + k + 1] == b[k + 1];
      DigitsEndAt(s, i + k + 1, e);
    } else {
      forall m | i <= m < e
        ensures IsDigit(s[m])
      {
        assert s[m] == b[m - i];
      }
      DigitsEndAt(s, i, e);
    }
  }

  /** A well-formed token that follows a separator, and is itself followed by
      one or by the end, is matched whole. */
  lemma MatchToken(s: string, i: nat, e: nat)
    requires i < e <= |s|
    requires IsToken(s[i..e])
    requires 0 < i ==> !IsWordChar(s[i - 1]) && s[i - 1] != '-'
    requires e < |s| ==> !InWordClass(s[e])
    requires e + 1 < |s| && IsJoiner(s[e]) ==> !InWordClass(s[e + 1])
    ensures MatchAt(s, i) == Some(e)
  {
    var w := s[i..e];
    assert s[i] == w[0];
    if IsWordToken(w) {
      assert Boundary(s, i);
      if i + 1 < e {
        assert s[i] == w[0];
        WordEndAtToken(s, i, e, i + 1);
      } else {
        WordEndAtToken(s, i, e, i + 1);
      }
    } else {
      assert s[i + 1] == w[1];
      assert s[i + 1..e] == w[1..];
      NumberEndAtToken(s, i + 1, e);
    }
  }

  /** The characters of a separator laid out at position i. */
  lemma SeparatorAt(s: string, i: nat, sep: string)
    requires i + |sep| <= |s| && s[i..i + |sep|] == sep
    requires IsSeparator(sep)
    ensures forall k :: i <= k < i + |sep| ==> !InWordClass(s[k]) && s[k] != '-'
  {
    forall k | i <= k < i + |sep|
      ensures !InWordClass(s[k]) && s[k] != '-'
    {
      assert s[k] == sep[k - i];
    }
  }

  lemma TextsCons(s: string, sp: Span, sps: seq<Span>)
    requires sp.start <= sp.end <= |s|
    requires forall k :: 0 <= k < |sps| ==> sps[k].start <= sps[k].end <= |s|
    ensures Texts(s, [sp] + sps) == [s[sp.start..sp.end]] + Texts(s, sps)
  {
  }

  /** One separator-token step of a rendering: the separator occupies
      [i, p) and the token [p, e). */
  lemma StepToken(s: string, i: nat, p: nat, e: nat)
    requires i <= p < e <= |s|
    requires forall k :: i <= k < p ==> !InWordClass(s[k]) && s[k] != '-'
    requires IsToken(s[p..e])
    requires 0 < p ==> !IsWordChar(s[p - 1]) && s[p - 1] != '-'
    requires e < |s| ==> !InWordClass(s[e])
    requires e + 1 < |s| && IsJoiner(s[e]) ==> !InWordClass(s[e + 1])
    ensures Spans(s, i) == [Span(p, e)] + Spans(s, e)
  {
    SkipSeparator(s, i, p);
    MatchToken(s, p, e);
  }

  /** The first separator and token of a rendering, and what follows them. */
  lemma RenderHead(s: string, i: nat, tokens: seq<string>, seps: seq<string>)
    requires |seps| == |tokens| + 1 && |tokens| > 0
    requires i <= |s| && s[i..] == Render(tokens, seps)
    ensures i + |seps[0]| + |tokens[0]| <= |s|
    ensures s[i..i + |seps[0]|] == seps[0]
    ensures s[i + |seps[0]|..i + |seps[0]| + |tokens[0]|] == tokens[0]
    ensures s[i + |seps[0]| + |tokens[0]|..] == Render(tokens[1..], seps[1..])
  {
    var tail := Render(tokens[1..], seps[1..]);
    assert s[i..] == seps[0] + tokens[0] + tail;
    var j := i + |seps[0]| + |tokens[0]|;
    assert s[i..][..|seps[0]|] == seps[0];
    assert s[i..][|seps[0]|..|seps[0]| + |tokens[0]|] == tokens[0];
    assert s[i..][|seps[0]| + |tokens[0]|..] == tail;
  }

  /** What follows a token in a rendering cannot extend it. */
  lemma FollowingChars(s: string, j: nat, tokens: seq<string>, seps: seq<string>)
    requires Renderable(tokens, seps)
    requires IsTrailingSeparator(seps[0])
    requires |tokens| > 0 ==> |seps[0]| > 0
    requires j <= |s| && s[j..] == Render(tokens, seps)
    ensures j < |s| ==> !InWordClass(s[j])
    ensures j + 1 < |s| && IsJoiner(s[j]) ==> !InWordClass(s[j + 1])
  {
    var next := seps[0];
    if |tokens| == 0 {
      assert s[j..] == next;
    } else {
      RenderHead(s, j, tokens, seps);
    }
    if j < |s| {
      assert s[j] == next[0];
      if j + 1 < |s| && IsJoiner(s[j]) {
        assert |next| > 1;
        assert s[j + 1] == next[1];
      }
    }
  }

  /** The first match in a rendering is its first token. */
  lemma HeadSpan(s: string, i: nat, tokens: seq<string>, seps: seq<string>)
    requires Renderable(tokens, seps) && |tokens| > 0
    requires i <= |s| && s[i..] == Render(tokens, seps)
    requires |seps[0]| == 0 && 0 < i ==> !IsWordChar(s[i - 1]) && s[i - 1] != '-'
    ensures i + |seps[0]| + |tokens[0]| <= |s|
    ensures s[i + |seps[0]| + |tokens[0]|..] == Render(tokens[1..], seps[1..])
    ensures Spans(s, i) == [Span(i + |seps[0]|, i + |seps[0]| + |tokens[0]|)] + Spans(s, i + |seps[0]| + |tokens[0]|)
  {
    var p := i + |seps[0]|;
    var e := p + |tokens[0]|;
    HeadStep(s, i, tokens, seps);
    StepToken(s, i, p, e);
  }

  /** The first separator and token of a rendering meet the conditions of
      one separator-token step. */
  lemma HeadStep(s: string, i: nat, tokens: seq<string>, seps: seq<string>)
    requires Renderable(tokens, seps) && |tokens| > 0
    requires i <= |s| && s[i..] == Render(tokens, seps)
    requires |seps[0]| == 0 && 0 < i ==> !IsWordChar(s[i - 1]) && s[i - 1] != '-'
    ensures var p := i + |seps[0]|; var e := p + |tokens[0]|;
      && i <= p < e <= |s|
      && s[e..] == Render(tokens[1..], seps[1..])
      && (forall k :: i <= k < p ==> !InWordClass(s[k]) && s[k] != '-')
      && IsToken(s[p..e])
      && (0 < p ==> !IsWordChar(s[p - 1]) && s[p - 1] != '-')
      && (e < |s| ==> !InWordClass(s[e]))
      && (e + 1 < |s| && IsJoiner(s[e]) ==> !InWordClass(s[e + 1]))
  {
    var sep := seps[0];
    var p := i + |sep|;
    var j := p + |tokens[0]|;
    RenderHead(s, i, tokens, seps);
    assert Renderable(tokens[1..], seps[1..]);
    FollowingChars(s, j, tokens[1..], seps[1..]);
    SeparatorAt(s, i, sep);
    assert IsToken(tokens[0]);
    assert |tokens[0]| > 0;
    assert s[p..j] == tokens[0];
    if |sep| > 0 {
      assert i <= p - 1 < p;
      assert !InWordClass(s[p - 1]) && s[p - 1] != '-';
    } else {
      assert p == i;
    }
    assert 0 < p ==> !IsWordChar(s[p - 1]) && s[p - 1] != '-';
  }

  lemma RenderableTail(tokens: seq<string>, seps: seq<string>)
    requires Renderable(tokens, seps) && |tokens| > 0
    ensures Renderable(tokens[1..], seps[1..])
    ensures |tokens| > 1 ==> |seps[1]| > 0
  {
  }

  /** A trailing separator yields no tokens. */
  lemma ReadSeparator(s: string, i: nat, sep: string)
    requires IsSeparator(sep)
    requires i <= |s| && s[i..] == sep
    ensures Spans(s, i) == []
  {
    SeparatorAt(s, i, sep);
    SkipSeparator(s, i, |s|);
  }

  /** Where the tokens of a rendering placed at position i lie. */
  function RenderSpans(i: nat, tokens: seq<string>, seps: seq<string>): seq<Span>
    requires |seps| == |tokens| + 1
    decreases |tokens|
  {
    if |tokens| == 0 then []
    else
      var p := i + |seps[0]|;
      [Span(p, p + |tokens[0]|)] + RenderSpans(p + |tokens[0]|, tokens[1..], seps[1..])
  }

  /** The tokenizer finds exactly the token spans of a rendering placed at i. */
  lemma {:induction false} ReadRender(s: string, i: nat, tokens: seq<string>, seps: seq<string>)
    requires Renderable(tokens, seps)
    requires i <= |s| && s[i..] == Render(tokens, seps)
    requires |seps[0]| == 0 && 0 < i && |tokens| > 0 ==> !IsWordChar(s[i - 1]) && s[i - 1] != '-'
    ensures Spans(s, i) == RenderSpans(i, tokens, seps)
    decreases |tokens|
  {
    if |tokens| == 0 {
      ReadSeparator(s, i, seps[0]);
    } else {
      var j := i + |seps[0]| + |tokens[0]|;
      HeadSpan(s, i, tokens, seps);
      RenderableTail(tokens, seps);
      ReadRender(s, j, tokens[1..], seps[1..]);
    }
  }

  /** The token spans of a rendering hold the tokens. */
  lemma {:induction false} RenderTexts(s: string, i: nat, tokens: seq<string>, seps: seq<string>)
    requires |seps| == |tokens| + 1
    requires i <= |s| && s[i..] == Render(tokens, seps)
    ensures forall k :: 0 <= k < |RenderSpans(i, tokens, seps)| ==>
      RenderSpans(i, tokens, seps)[k].start <= RenderSpans(i, tokens, seps)[k].end <= |s|
    ensures Texts(s, RenderSpans(i, tokens, seps)) == tokens
    decreases |tokens|
  {
    if |tokens| > 0 {
      var p := i + |seps[0]|;
      var j := p + |tokens[0]|;
      RenderHead(s, i, tokens, seps);
      RenderTexts(s, j, tokens[1..], seps[1..]);
      TextsCons(s, Span(p, j), RenderSpans(j, tokens[1..], seps[1..]));
      assert tokens == [tokens[0]] + tokens[1..];
    }
  }

  /** Tokens laid out between separators are read back exactly: the
      tokenizer undoes any rendering of well-formed tokens. */
  lemma ExtractRendered(tokens: seq<string>, seps: seq<string>)
    requires Renderable(tokens, seps)
    ensures ExtractWords(Render(tokens, seps)) == tokens
  {
    var s := Render(tokens, seps);
    assert s[0..] == s;
    ReadRender(s, 0, tokens, seps);
    RenderTexts(s, 0, tokens, seps);
  }
}
