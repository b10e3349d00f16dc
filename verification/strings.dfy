/** The str methods the modelled code relies on: `in`, find, split, join,
    replace, lower and capitalize, with Python's semantics for a non-empty
    separator. Case mapping covers ASCII letters only. */
module PyStrings {
  import opened PyValues

  /** Python's truthiness of a string. */
  predicate NonEmpty(t: string) {
    |t| > 0
  }

  /** Concatenation regrouped; stated once so that long concatenations
      can be regrouped in one cheap step. */
  lemma ConcatAssoc<T>(a: seq<T>, b: seq<T>, c: seq<T>)
    ensures a + b + c == a + (b + c)
  {
  }

  /** `pat` occurs in `s` starting at index `k`. */
  predicate OccursAt(s: string, pat: string, k: nat) {
    k + |pat| <= |s| && s[k..k + |pat|] == pat
  }

  /** Python's `pat in s`. */
  predicate Contains(s: string, pat: string) {
    exists k: nat :: k <= |s| && OccursAt(s, pat, k)
  }

  function FindFrom(s: string, pat: string, i: nat): (r: Option<nat>)
    requires i <= |s|
    ensures r.Some? ==> i <= r.value && OccursAt(s, pat, r.value)
    ensures r.Some? ==> forall k :: i <= k < r.value ==> !OccursAt(s, pat, k)
    ensures r.None? ==> forall k :: i <= k <= |s| ==> !OccursAt(s, pat, k)
    decreases |s| - i
  {
    if OccursAt(s, pat, i) then Some(i)
    else if i == |s| then None
    else FindFrom(s, pat, i + 1)
  }

  /** The index of the first occurrence of `pat` in `s` (str.find). */
  function Find(s: string, pat: string): (r: Option<nat>)
    ensures r.Some? ==> OccursAt(s, pat, r.value)
    ensures r.Some? ==> forall k :: 0 <= k < r.value ==> !OccursAt(s, pat, k)
    ensures r.None? <==> !Contains(s, pat)
  {
    FindFrom(s, pat, 0)
  }

  /** str.split(sep) for a non-empty separator: the pieces between
      non-overlapping occurrences, scanned left to right. */
  function Split(s: string, sep: string): (r: seq<string>)
    requires |sep| > 0
    ensures |r| >= 1
    ensures forall k :: 0 <= k < |r| ==> !Contains(r[k], sep)
    decreases |s|
  {
    match Find(s, sep)
    case None => [s]
    case Some(k) =>
      PrefixHasNoEarlierOccurrence(s, sep, k);
      [s[..k]] + Split(s[k + |sep|..], sep)
  }

  /** sep.join(parts). */
  function Join(sep: string, parts: seq<string>): string
    decreases |parts|
  {
    if |parts| == 0 then ""
    else if |parts| == 1 then parts[0]
    else parts[0] + sep + Join(sep, parts[1..])
  }

  /** str.replace(pat, repl) for a non-empty `pat`. */
  function Replace(s: string, pat: string, repl: string): string
    requires |pat| > 0
  {
    Join(repl, Split(s, pat))
  }

  /** A piece before the first occurrence of `pat` does not contain `pat`. */
  lemma PrefixHasNoEarlierOccurrence(s: string, pat: string, k: nat)
    requires k <= |s|
    requires forall j :: 0 <= j < k ==> !OccursAt(s, pat, j)
    requires |pat| > 0
    ensures !Contains(s[..k], pat)
  {
    if Contains(s[..k], pat) {
      var j: nat :| j <= k && OccursAt(s[..k], pat, j);
      assert s[..k][j..j + |pat|] == s[j..j + |pat|];
      assert OccursAt(s, pat, j);
    }
  }

  /** Splitting and joining again with the same separator gives back the
      original string, whatever it is. */
  lemma {:induction false} JoinSplit(s: string, sep: string)
    requires |sep| > 0
    ensures Join(sep, Split(s, sep)) == s
    decreases |s|
  {
    match Find(s, sep)
    case None =>
    case Some(k) =>
      var rest := s[k + |sep|..];
      JoinSplit(rest, sep);
      JoinCons(sep, s[..k], Split(rest, sep));
      Pieces(s, k, |sep|);
  }

  /** Joining a head piece in front of at least one more piece. */
  lemma JoinCons(sep: string, head: string, tail: seq<string>)
    requires |tail| >= 1
    ensures Join(sep, [head] + tail) == head + sep + Join(sep, tail)
  {
    assert ([head] + tail)[1..] == tail;
  }

  /** A string is its prefix, a middle slice and its suffix. */
  lemma Pieces(s: string, k: nat, n: nat)
    requires k + n <= |s|
    ensures s == s[..k] + s[k..k + n] + s[k + n..]
  {
  }

  /** A one-character pattern occurs exactly where the character does. */
  lemma ContainsChar(s: string, c: char)
    ensures Contains(s, [c]) <==> c in s
  {
    if c in s {
      var k :| 0 <= k < |s| && s[k] == c;
      assert OccursAt(s, [c], k);
    }
    if Contains(s, [c]) {
      var k: nat :| k <= |s| && OccursAt(s, [c], k);
      assert s[k] == c;
    }
  }

  /** Joining pieces that do not contain a one-character separator and
      splitting on that character gives back exactly the pieces. */
  lemma {:induction false} SplitJoinChar(parts: seq<string>, c: char)
    requires |parts| >= 1
    requires forall k :: 0 <= k < |parts| ==> c !in parts[k]
    ensures Split(Join([c], parts), [c]) == parts
    decreases |parts|
  {
    var s := Join([c], parts);
    if |parts| == 1 {
      ContainsChar(parts[0], c);
    } else {
      var rest := Join([c], parts[1..]);
      assert s == parts[0] + [c] + rest;
      var n := |parts[0]|;
      assert OccursAt(s, [c], n);
      forall j | 0 <= j < n
        ensures !OccursAt(s, [c], j)
      {
        assert s[j] == parts[0][j];
      }
      assert Find(s, [c]) == Some(n);
      assert s[..n] == parts[0];
      assert s[n + 1..] == rest;
      SplitJoinChar(parts[1..], c);
      assert parts == [parts[0]] + parts[1..];
    }
  }

  /** Every character of a join comes from a piece or from the separator. */
  lemma {:induction false} JoinChars(sep: string, parts: seq<string>, c: char)
    requires c in Join(sep, parts)
    ensures c in sep || exists k :: 0 <= k < |parts| && c in parts[k]
    decreases |parts|
  {
    if |parts| > 1 {
      var rest := Join(sep, parts[1..]);
      if c !in parts[0] && c !in sep {
        assert c in rest;
        JoinChars(sep, parts[1..], c);
        var k :| 0 <= k < |parts[1..]| && c in parts[1..][k];
        assert c in parts[k + 1];
      }
    }
  }

  /** Replacing a character by text that does not contain it leaves no
      occurrence of the character behind. */
  lemma ReplaceRemovesChar(s: string, pat: char, repl: string)
    requires pat !in repl
    ensures pat !in Replace(s, [pat], repl)
  {
    var parts := Split(s, [pat]);
    if pat in Replace(s, [pat], repl) {
      JoinChars(repl, parts, pat);
      var k :| 0 <= k < |parts| && pat in parts[k];
      ContainsChar(parts[k], pat);
    }
  }

  /** A replacement whose new text avoids `c` keeps `c` out if it was out. */
  lemma ReplaceKeepsCharOut(s: string, pat: string, repl: string, c: char)
    requires |pat| > 0
    requires c !in s && c !in repl
    ensures c !in Replace(s, pat, repl)
  {
    var parts := Split(s, pat);
    if c in Replace(s, pat, repl) {
      JoinChars(repl, parts, c);
      var k :| 0 <= k < |parts| && c in parts[k];
      JoinSplit(s, pat);
      JoinPieceChars(pat, parts, k, c);
    }
  }

  /** Every character of a piece is a character of the join. */
  lemma {:induction false} JoinPieceChars(sep: string, parts: seq<string>, k: nat, c: char)
    requires k < |parts|
    requires c in parts[k]
    ensures c in Join(sep, parts)
    decreases |parts|
  {
    if |parts| > 1 {
      if k > 0 {
        JoinPieceChars(sep, parts[1..], k - 1, c);
      }
    }
  }

  /** Text without any occurrence of `pat` is left unchanged. */
  lemma ReplaceAbsent(s: string, pat: string, repl: string)
    requires |pat| > 0
    requires !Contains(s, pat)
    ensures Replace(s, pat, repl) == s
  {
  }

  /** A string without the separator's first character splits into itself. */
  lemma SplitNoSeparator(s: string, sep: string)
    requires |sep| > 0 && sep[0] !in s
    ensures Split(s, sep) == [s]
  {
  }

  /** The first separator is found after a prefix that lacks its first character. */
  lemma SplitAfter(pre: string, sep: string, post: string)
    requires |sep| > 0 && sep[0] !in pre
    ensures Split(pre + sep + post, sep) == [pre] + Split(post, sep)
  {
    var s := pre + sep + post;
    var n := |pre|;
    assert s[n..n + |sep|] == sep;
    assert OccursAt(s, sep, n);
    match Find(s, sep)
    case None =>
    case Some(k) =>
      assert k == n;
      assert s[..n] == pre;
      assert s[n + |sep|..] == post;
  }

  /** Pieces free of the separator's first character come back apart. */
  lemma {:induction false} SplitJoinFirstChar(sep: string, parts: seq<string>)
    requires |sep| > 0 && |parts| >= 1
    requires forall k :: 0 <= k < |parts| ==> sep[0] !in parts[k]
    ensures Split(Join(sep, parts), sep) == parts
    decreases |parts|
  {
    if |parts| == 1 {
      SplitNoSeparator(parts[0], sep);
    } else {
      SplitAfter(parts[0], sep, Join(sep, parts[1..]));
      SplitJoinFirstChar(sep, parts[1..]);
      assert parts == [parts[0]] + parts[1..];
    }
  }

  /** A string contains each of its slices. */
  lemma ContainsSlice(s: string, i: nat, j: nat)
    requires i <= j <= |s|
    ensures Contains(s, s[i..j])
  {
    assert OccursAt(s, s[i..j], i);
  }

  /** Containment is transitive. */
  lemma ContainsTrans(a: string, b: string, c: string)
    requires Contains(a, b) && Contains(b, c)
    ensures Contains(a, c)
  {
    var i: nat :| i <= |a| && OccursAt(a, b, i);
    var j: nat :| j <= |b| && OccursAt(b, c, j);
    forall t | 0 <= t < |c|
      ensures a[i + j + t] == c[t]
    {
      assert c[t] == b[j..j + |c|][t] == b[j + t];
      assert b[j + t] == a[i..i + |b|][j + t] == a[i + j + t];
    }
    assert a[i + j..i + j + |c|] == c;
    assert OccursAt(a, c, i + j);
  }

  /** Every piece of a split is a substring of the string split. */
  lemma {:induction false} SplitPiecesOccur(s: string, sep: string)
    requires |sep| > 0
    ensures forall k :: 0 <= k < |Split(s, sep)| ==> Contains(s, Split(s, sep)[k])
    decreases |s|
  {
    match Find(s, sep)
    case None =>
      ContainsSlice(s, 0, |s|);
      assert s[0..|s|] == s;
    case Some(k) =>
      var rest := s[k + |sep|..];
      SplitPiecesOccur(rest, sep);
      ContainsSlice(s, 0, k);
      ContainsSlice(s, k + |sep|, |s|);
      assert s[0..k] == s[..k];
      assert s[k + |sep|..|s|] == rest;
      var parts := Split(s, sep);
      assert parts == [s[..k]] + Split(rest, sep);
      forall n | 0 <= n < |parts|
        ensures Contains(s, parts[n])
      {
        if n > 0 {
          assert parts[n] == Split(rest, sep)[n - 1];
          ContainsTrans(s, rest, parts[n]);
        }
      }
  }

  /** The last character of a join is that of the last piece, when it has one. */
  lemma {:induction false} JoinLast(sep: string, parts: seq<string>)
    requires |parts| >= 1 && |parts[|parts| - 1]| > 0
    ensures |Join(sep, parts)| > 0
    ensures Join(sep, parts)[|Join(sep, parts)| - 1] == parts[|parts| - 1][|parts[|parts| - 1]| - 1]
    decreases |parts|
  {
    if |parts| > 1 {
      JoinLast(sep, parts[1..]);
    }
  }

  /** An occurrence with none before it is the one find reports. */
  lemma FindFirst(s: string, pat: string, j: nat)
    requires OccursAt(s, pat, j)
    requires forall k :: 0 <= k < j ==> !OccursAt(s, pat, k)
    ensures Find(s, pat) == Some(j)
  {
    assert Contains(s, pat);
  }

  /** The first piece of a split is a prefix of the string, ended by the
      first separator or by the end of the string. */
  lemma SplitHead(s: string, sep: string)
    requires |sep| > 0
    ensures var h := Split(s, sep)[0]; |h| <= |s| && s[..|h|] == h
    ensures |Split(s, sep)| == 1 <==> !Contains(s, sep)
    ensures |Split(s, sep)| == 1 ==> Split(s, sep)[0] == s
  {
    match Find(s, sep)
    case None =>
    case Some(k) =>
      assert Split(s, sep) == [s[..k]] + Split(s[k + |sep|..], sep);
  }

  /** The second piece of a split starts right after the first separator. */
  lemma SplitSecond(s: string, sep: string)
    requires |sep| > 0 && Contains(s, sep)
    ensures |Split(s, sep)| > 1
    ensures Find(s, sep).Some?
    ensures Split(s, sep)[1] == Split(s[Find(s, sep).value + |sep|..], sep)[0]
  {
    assert Find(s, sep).Some?;
    var k := Find(s, sep).value;
    var rest := Split(s[k + |sep|..], sep);
    assert Split(s, sep) == [s[..k]] + rest;
    assert Split(s, sep)[1] == rest[0];
  }

  /** A prefix without the separator's first character stays in the first piece. */
  lemma SplitHeadSkip(a: string, b: string, sep: string)
    requires |sep| > 0 && sep[0] !in a
    ensures Split(a + b, sep)[0] == a + Split(b, sep)[0]
  {
    var s := a + b;
    NoOccurrenceIn(a, b, sep);
    OccursShifted(a, b, sep);
    match Find(b, sep)
    case None =>
      forall k: nat | |a| <= k <= |s|
        ensures !OccursAt(s, sep, k)
      {
        assert !OccursAt(b, sep, k - |a|);
      }
      assert !Contains(s, sep);
      assert Split(s, sep) == [s];
      assert Split(b, sep) == [b];
    case Some(j) =>
      forall k | |a| <= k < |a| + j
        ensures !OccursAt(s, sep, k)
      {
        assert !OccursAt(b, sep, k - |a|);
      }
      FindFirst(s, sep, |a| + j);
      assert Split(s, sep)[0] == s[..|a| + j];
      assert Split(b, sep)[0] == b[..j];
      assert s[..|a| + j] == a + b[..j];
  }

  /** No occurrence of the separator starts inside a prefix that lacks its
      first character. */
  lemma NoOccurrenceIn(a: string, b: string, sep: string)
    requires |sep| > 0 && sep[0] !in a
    ensures forall k :: 0 <= k < |a| ==> !OccursAt(a + b, sep, k)
  {
    var s := a + b;
    forall k | 0 <= k < |a|
      ensures !OccursAt(s, sep, k)
    {
      assert s[k] == a[k];
    }
  }

  /** Occurrences after a prefix are the occurrences in the rest, shifted. */
  lemma OccursShifted(a: string, b: string, sep: string)
    ensures forall j :: 0 <= j <= |b| ==> (OccursAt(a + b, sep, |a| + j) <==> OccursAt(b, sep, j))
  {
    var s := a + b;
    forall j | 0 <= j <= |b|
      ensures OccursAt(s, sep, |a| + j) <==> OccursAt(b, sep, j)
    {
      if |a| + j + |sep| <= |s| {
        assert s[|a| + j..|a| + j + |sep|] == b[j..j + |sep|];
      }
    }
  }

  function LowerChar(c: char): char {
    if 'A' <= c <= 'Z' then (c as int + 32) as char else c
  }

  function UpperChar(c: char): char {
    if 'a' <= c <= 'z' then (c as int - 32) as char else c
  }

  /** str.lower() on ASCII letters. */
  function Lower(s: string): (r: string)
    ensures |r| == |s|
    ensures forall k :: 0 <= k < |s| ==> r[k] == LowerChar(s[k])
  {
    seq(|s|, k requires 0 <= k < |s| => LowerChar(s[k]))
  }

  /** str.capitalize() on ASCII letters: first character upper-case, the rest lower-case. */
  function Capitalize(s: string): (r: string)
    ensures |r| == |s|
    ensures |s| > 0 ==> r[0] == UpperChar(s[0]) && r[1..] == Lower(s[1..])
  {
    if |s| == 0 then "" else [UpperChar(s[0])] + Lower(s[1..])
  }

  predicate IsDigit(c: char) {
    '0' <= c <= '9'
  }

  predicate IsAsciiLetter(c: char) {
    ('a' <= c <= 'z') || ('A' <= c <= 'Z')
  }

  /** The Latin letters U+00C0-U+017F (the range minus the signs × and ÷). */
  predicate IsLatinLetter(c: char) {
    '\U{00C0}' <= c <= '\U{017F}' && c != '\U{00D7}' && c != '\U{00F7}'
  }

  /** str.isalpha() or str.isnumeric(), for the characters this model classifies. */
  predicate IsAlphaNumeric(c: char) {
    IsAsciiLetter(c) || IsDigit(c) || IsLatinLetter(c)
  }
}
