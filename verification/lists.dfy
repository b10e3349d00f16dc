/** The list operations the modelled code relies on: list.insert,
    list.index, order-preserving filtering and deduplication. */
module PyLists {
  import opened PyValues

  /** list.insert(i, x) for a non-negative index: an index past the end
      appends. The element lands at the index (or at the end), the elements
      before it stay where they were, and those after it move up by one. */
  function Insert<T>(s: seq<T>, i: nat, x: T): (r: seq<T>)
    ensures |r| == |s| + 1
    ensures var j := if i <= |s| then i else |s|;
      && r[j] == x
      && (forall k :: 0 <= k < j ==> r[k] == s[k])
      && (forall k :: j < k < |r| ==> r[k] == s[k - 1])
  {
    if i >= |s| then s + [x] else s[..i] + [x] + s[i..]
  }

  /** The inserted list, spelled out: the part before the index, the new
      element, and the rest. */
  lemma InsertShape<T>(s: seq<T>, i: nat, x: T)
    ensures var j := if i <= |s| then i else |s|;
      Insert(s, i, x) == s[..j] + [x] + s[j..]
  {
    var j := if i <= |s| then i else |s|;
    assert Insert(s, i, x) == s[..j] + [x] + s[j..];
  }

  /** The index of the first occurrence of `x` in `s`, as list.index returns it. */
  function IndexOf<T(==)>(s: seq<T>, x: T): (r: nat)
    requires x in s
    ensures r < |s| && s[r] == x && x !in s[..r]
  {
    if s[0] == x then 0 else 1 + IndexOf(s[1..], x)
  }

  /** `a` is `b` with some elements removed, order kept. */
  ghost predicate IsSubsequence<T>(a: seq<T>, b: seq<T>)
    decreases |b|
  {
    if |a| == 0 then true
    else if |b| == 0 then false
    else if a[0] == b[0] then IsSubsequence(a[1..], b[1..])
    else IsSubsequence(a, b[1..])
  }

  lemma {:induction false} SubsequenceMembers<T>(a: seq<T>, b: seq<T>)
    requires IsSubsequence(a, b)
    ensures forall x :: x in a ==> x in b
    decreases |b|
  {
    if |a| > 0 && |b| > 0 {
      if a[0] == b[0] {
        SubsequenceMembers(a[1..], b[1..]);
        assert forall x :: x in a ==> x == a[0] || x in a[1..];
      } else {
        SubsequenceMembers(a, b[1..]);
      }
    }
  }

  lemma {:induction false} SubsequenceRefl<T>(a: seq<T>)
    ensures IsSubsequence(a, a)
    decreases |a|
  {
    if |a| > 0 {
      SubsequenceRefl(a[1..]);
    }
  }

  /** Dropping the head of the left-hand side keeps a subsequence one. */
  lemma {:induction false} SubsequenceTail<T>(a: seq<T>, b: seq<T>)
    requires |a| > 0 && IsSubsequence(a, b)
    ensures IsSubsequence(a[1..], b)
    decreases |b|
  {
    if a[0] != b[0] {
      SubsequenceTail(a, b[1..]);
    }
    if |a| > 1 && a[1] == b[0] {
      SubsequenceTail(a[1..], b[1..]);
      assert a[1..][1..] == a[2..];
    }
  }

  /** Adding an element in front of the right-hand side keeps a subsequence one. */
  lemma SubsequenceCons<T>(a: seq<T>, b: seq<T>, x: T)
    requires IsSubsequence(a, b)
    ensures IsSubsequence(a, [x] + b)
  {
    assert ([x] + b)[1..] == b;
    if |a| > 0 && a[0] == x {
      SubsequenceTail(a, b);
    }
  }

  /** Inserting into the right-hand side keeps a subsequence one. */
  lemma {:induction false} SubsequenceOfInsert<T>(a: seq<T>, b: seq<T>, i: nat, x: T)
    requires IsSubsequence(a, b)
    ensures IsSubsequence(a, Insert(b, i, x))
    decreases |b|
  {
    var c := Insert(b, i, x);
    if |a| == 0 {
    } else if |b| == 0 {
    } else if i == 0 {
      assert c == [x] + b;
      SubsequenceCons(a, b, x);
    } else {
      assert c[0] == b[0];
      if i >= |b| {
        assert c[1..] == b[1..] + [x];
      } else {
        assert b[1..][..i - 1] == b[1..i] && b[1..][i - 1..] == b[i..];
        assert c[1..] == b[1..i] + [x] + b[i..];
      }
      assert c[1..] == Insert(b[1..], i - 1, x);
      if a[0] == b[0] {
        SubsequenceOfInsert(a[1..], b[1..], i - 1, x);
      } else {
        SubsequenceOfInsert(a, b[1..], i - 1, x);
      }
    }
  }

  /** The elements of `s` that satisfy `p`, in order (a list comprehension with a condition). */
  function Filter<T>(s: seq<T>, p: T -> bool): (r: seq<T>)
    ensures |r| <= |s|
    decreases |s|
  {
    if |s| == 0 then []
    else if p(s[0]) then [s[0]] + Filter(s[1..], p)
    else Filter(s[1..], p)
  }

  /** Filtering keeps exactly the elements that satisfy the condition, in
      their original order, each as many times as it occurs. */
  lemma {:induction false} FilterSpec<T>(s: seq<T>, p: T -> bool)
    ensures IsSubsequence(Filter(s, p), s)
    ensures forall x :: x in Filter(s, p) <==> x in s && p(x)
    ensures forall x :: multiset(Filter(s, p))[x] == (if p(x) then multiset(s)[x] else 0)
    decreases |s|
  {
    if |s| > 0 {
      FilterSpec(s[1..], p);
      var r := Filter(s, p);
      assert s == [s[0]] + s[1..];
      assert forall x :: x in s <==> x == s[0] || x in s[1..];
      assert multiset(s) == multiset([s[0]]) + multiset(s[1..]);
      if p(s[0]) {
        assert r == [s[0]] + Filter(s[1..], p);
        assert r[1..] == Filter(s[1..], p);
        assert multiset(r) == multiset([s[0]]) + multiset(Filter(s[1..], p));
      }
    }
  }

  /** No element occurs twice. */
  predicate Distinct<T(==)>(s: seq<T>) {
    forall i, j :: 0 <= i < j < |s| ==> s[i] != s[j]
  }

  /** The first occurrence of each element, in order of first occurrence. */
  function Dedup(s: seq<string>): (r: seq<string>)
    ensures Distinct(r)
    ensures forall x :: x in r <==> x in s
    decreases |s|
  {
    if |s| == 0 then []
    else
      var rest := Dedup(s[..|s| - 1]);
      var last := s[|s| - 1];
      assert forall x :: x in s <==> x in s[..|s| - 1] || x == last;
      if last in rest then rest else rest + [last]
  }

  /** A list with no repeated element is its own deduplication. */
  lemma {:induction false} DedupDistinct(s: seq<string>)
    requires Distinct(s)
    ensures Dedup(s) == s
    decreases |s|
  {
    if |s| > 0 {
      var init := s[..|s| - 1];
      assert Distinct(init);
      DedupDistinct(init);
      assert s[|s| - 1] !in init;
      assert init + [s[|s| - 1]] == s;
    }
  }

  /** Removing elements keeps a list free of repeats. */
  lemma {:induction false} SubsequenceDistinct<T>(a: seq<T>, b: seq<T>)
    requires IsSubsequence(a, b) && Distinct(b)
    ensures Distinct(a)
    decreases |b|
  {
    if |a| > 0 && |b| > 0 {
      assert Distinct(b[1..]);
      if a[0] == b[0] {
        SubsequenceDistinct(a[1..], b[1..]);
        SubsequenceMembers(a[1..], b[1..]);
        assert b[0] !in b[1..];
        forall i, j | 0 <= i < j < |a|
          ensures a[i] != a[j]
        {
          if i == 0 {
            assert a[j] == a[1..][j - 1];
          } else {
            assert a[i] == a[1..][i - 1] && a[j] == a[1..][j - 1];
          }
        }
      } else {
        SubsequenceDistinct(a, b[1..]);
      }
    }
  }

  /** The first occurrence is the only index before which `x` is absent. */
  lemma IndexOfUnique<T>(s: seq<T>, x: T, i: nat)
    requires i < |s| && s[i] == x && x !in s[..i]
    ensures IndexOf(s, x) == i
  {
  }

  /** Filtering distributes over concatenation. */
  lemma {:induction false} FilterConcat<T>(a: seq<T>, b: seq<T>, p: T -> bool)
    ensures Filter(a + b, p) == Filter(a, p) + Filter(b, p)
    decreases |a|
  {
    if |a| > 0 {
      assert (a + b)[1..] == a[1..] + b;
      FilterConcat(a[1..], b, p);
    } else {
      assert a + b == b;
    }
  }

  /** Nothing survives a filter that rejects every element. */
  lemma {:induction false} FilterNone<T>(s: seq<T>, p: T -> bool)
    requires forall k :: 0 <= k < |s| ==> !p(s[k])
    ensures Filter(s, p) == []
    decreases |s|
  {
    if |s| > 0 {
      FilterNone(s[1..], p);
    }
  }

  /** A filter that accepts every element changes nothing. */
  lemma {:induction false} FilterAll<T>(s: seq<T>, p: T -> bool)
    requires forall k :: 0 <= k < |s| ==> p(s[k])
    ensures Filter(s, p) == s
    decreases |s|
  {
    if |s| > 0 {
      FilterAll(s[1..], p);
      assert s == [s[0]] + s[1..];
    }
  }
}
