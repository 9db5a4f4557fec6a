/**
  The ordering step of the matcher: `Array.prototype.sort` with the comparator
  `(a, b) => b.confidence - a.confidence`. ECMAScript has required `sort` to be
  stable since ES2019, so the result is the unique stable descending order:
  it is non-increasing in confidence and, for every confidence value, lists the
  results with that value in their original order.
 */
module MatchSort {
  import opened Records

  predicate NonIncreasing(s: seq<MatchResult>) {
    forall i, j :: 0 <= i < j < |s| ==> s[i].confidence >= s[j].confidence
  }

  /** The results of `s` whose confidence is `c`, in their order in `s`. */
  function WithConfidence(s: seq<MatchResult>, c: int): (r: seq<MatchResult>)
    ensures |r| <= |s|
    ensures forall x :: x in r ==> x in s && x.confidence == c
  {
    if s == [] then []
    else (if s[0].confidence == c then [s[0]] else []) + WithConfidence(s[1..], c)
  }

  lemma WithConfidenceCons(x: MatchResult, s: seq<MatchResult>, c: int)
    ensures WithConfidence([x] + s, c) == (if x.confidence == c then [x] else []) + WithConfidence(s, c)
  {
    assert ([x] + s)[1..] == s;
  }

  lemma {:induction false} WithConfidenceFound(s: seq<MatchResult>, x: MatchResult)
    requires x in s
    ensures WithConfidence(s, x.confidence) != []
  {
    if s[0] != x {
      WithConfidenceFound(s[1..], x);
    }
  }

  /** Puts `x` in front of the first element it is not below. */
  function Insert(x: MatchResult, t: seq<MatchResult>): (r: seq<MatchResult>)
    requires NonIncreasing(t)
    ensures NonIncreasing(r)
    ensures multiset(r) == multiset(t) + multiset{x}
  {
    if t == [] || x.confidence >= t[0].confidence then
      ConsNonIncreasing(x, t);
      [x] + t
    else
      NonIncreasingTail(t);
      var rest := Insert(x, t[1..]);
      assert t == [t[0]] + t[1..];
      assert rest[0] in multiset(rest);
      ConsNonIncreasing(t[0], rest);
      [t[0]] + rest
  }

  lemma ConsNonIncreasing(x: MatchResult, s: seq<MatchResult>)
    requires NonIncreasing(s)
    requires s == [] || x.confidence >= s[0].confidence
    ensures NonIncreasing([x] + s)
  {
    forall i, j | 0 <= i < j < |[x] + s|
      ensures ([x] + s)[i].confidence >= ([x] + s)[j].confidence
    {
      if i == 0 && j > 1 {
        assert s[0].confidence >= s[j - 1].confidence;
      }
    }
  }

  /** Inserting `x` puts it ahead of every result with its confidence and moves nothing else. */
  lemma {:induction false} InsertGroups(x: MatchResult, t: seq<MatchResult>, c: int)
    requires NonIncreasing(t)
    ensures WithConfidence(Insert(x, t), c) ==
              if x.confidence == c then [x] + WithConfidence(t, c) else WithConfidence(t, c)
  {
    if t == [] || x.confidence >= t[0].confidence {
      WithConfidenceCons(x, t, c);
    } else {
      NonIncreasingTail(t);
      InsertGroups(x, t[1..], c);
      GroupsBehindHead(t[0], Insert(x, t[1..]), t[1..], x, c);
      assert t == [t[0]] + t[1..];
    }
  }

  lemma NonIncreasingTail(t: seq<MatchResult>)
    requires NonIncreasing(t) && t != []
    ensures NonIncreasing(t[1..])
  {
    forall i, j | 0 <= i < j < |t[1..]|
      ensures t[1..][i].confidence >= t[1..][j].confidence
    {
      assert t[1..][i] == t[i + 1] && t[1..][j] == t[j + 1];
    }
  }

  /** A head above `x` keeps its place in front of both `rest` and `u`. */
  lemma GroupsBehindHead(y: MatchResult, rest: seq<MatchResult>, u: seq<MatchResult>, x: MatchResult, c: int)
    requires y.confidence > x.confidence
    requires WithConfidence(rest, c) == if x.confidence == c then [x] + WithConfidence(u, c) else WithConfidence(u, c)
    ensures WithConfidence([y] + rest, c) ==
              if x.confidence == c then [x] + WithConfidence([y] + u, c) else WithConfidence([y] + u, c)
  {
    WithConfidenceCons(y, rest, c);
    WithConfidenceCons(y, u, c);
  }

  /** The stable descending sort by confidence (insertion sort). */
  function SortByConfidence(s: seq<MatchResult>): (r: seq<MatchResult>)
    ensures NonIncreasing(r)
    ensures multiset(r) == multiset(s)
    ensures forall c :: WithConfidence(r, c) == WithConfidence(s, c)
  {
    if s == [] then []
    else
      var t := SortByConfidence(s[1..]);
      InsertKeepsGroups(s[0], t, s[1..]);
      assert s == [s[0]] + s[1..];
      Insert(s[0], t)
  }

  /** Inserting `x` into a stable ordering of `u` gives a stable ordering of `[x] + u`. */
  lemma InsertKeepsGroups(x: MatchResult, t: seq<MatchResult>, u: seq<MatchResult>)
    requires NonIncreasing(t)
    requires forall c :: WithConfidence(t, c) == WithConfidence(u, c)
    ensures forall c :: WithConfidence(Insert(x, t), c) == WithConfidence([x] + u, c)
  {
    forall c
      ensures WithConfidence(Insert(x, t), c) == WithConfidence([x] + u, c)
    {
      InsertGroups(x, t, c);
      WithConfidenceCons(x, u, c);
    }
  }

  /** Two non-increasing sequences with the same results at every confidence are equal. */
  lemma {:induction false} SameGroupsEqual(a: seq<MatchResult>, b: seq<MatchResult>)
    requires NonIncreasing(a) && NonIncreasing(b)
    requires forall c :: WithConfidence(a, c) == WithConfidence(b, c)
    ensures a == b
    decreases |a|
  {
    if a == [] {
      if b != [] {
        WithConfidenceFound(b, b[0]);
      }
    } else if b == [] {
      WithConfidenceFound(a, a[0]);
    } else {
      assert WithConfidence(a, a[0].confidence) == WithConfidence(b, a[0].confidence);
      assert WithConfidence(a, b[0].confidence) == WithConfidence(b, b[0].confidence);
      SameHead(a, b);
      SameTailGroups(a, b);
      NonIncreasingTail(a);
      NonIncreasingTail(b);
      SameGroupsEqual(a[1..], b[1..]);
      ConsEqual(a, b);
    }
  }

  lemma ConsEqual(a: seq<MatchResult>, b: seq<MatchResult>)
    requires a != [] && b != [] && a[0] == b[0] && a[1..] == b[1..]
    ensures a == b
  {
    assert a == [a[0]] + a[1..] && b == [b[0]] + b[1..];
  }

  /** A result of `s` with confidence `c` means the head's confidence is at least `c`. */
  lemma HeadIsHighest(s: seq<MatchResult>, c: int)
    requires NonIncreasing(s) && s != []
    requires WithConfidence(s, c) != []
    ensures s[0].confidence >= c
  {
    var y := WithConfidence(s, c)[0];
    assert y in s;
  }

  lemma SameHead(a: seq<MatchResult>, b: seq<MatchResult>)
    requires NonIncreasing(a) && NonIncreasing(b) && a != [] && b != []
    requires WithConfidence(a, a[0].confidence) == WithConfidence(b, a[0].confidence)
    requires WithConfidence(a, b[0].confidence) == WithConfidence(b, b[0].confidence)
    ensures a[0] == b[0]
  {
    var c, d := a[0].confidence, b[0].confidence;
    assert c == d by {
      WithConfidenceFound(a, a[0]);
      WithConfidenceFound(b, b[0]);
      HeadIsHighest(b, c);
      HeadIsHighest(a, d);
    }
    assert WithConfidence(a, c)[0] == a[0] by {
      assert a == [a[0]] + a[1..];
      WithConfidenceCons(a[0], a[1..], c);
    }
    assert WithConfidence(b, c)[0] == b[0] by {
      assert b == [b[0]] + b[1..];
      WithConfidenceCons(b[0], b[1..], c);
    }
    assert WithConfidence(a, c) == WithConfidence(b, c);
  }

  lemma SameTailGroups(a: seq<MatchResult>, b: seq<MatchResult>)
    requires a != [] && b != [] && a[0] == b[0]
    requires forall c :: WithConfidence(a, c) == WithConfidence(b, c)
    ensures forall k :: WithConfidence(a[1..], k) == WithConfidence(b[1..], k)
  {
    assert a == [a[0]] + a[1..] && b == [b[0]] + b[1..];
    forall k
      ensures WithConfidence(a[1..], k) == WithConfidence(b[1..], k)
    {
      var p := if a[0].confidence == k then [a[0]] else [];
      WithConfidenceCons(a[0], a[1..], k);
      WithConfidenceCons(b[0], b[1..], k);
      assert (p + WithConfidence(a[1..], k))[|p|..] == WithConfidence(a[1..], k);
      assert (p + WithConfidence(b[1..], k))[|p|..] == WithConfidence(b[1..], k);
    }
  }

  /** Any stable descending ordering of `s` is exactly `SortByConfidence(s)`. */
  lemma StableSortIsUnique(s: seq<MatchResult>, t: seq<MatchResult>)
    requires NonIncreasing(t)
    requires forall c :: WithConfidence(t, c) == WithConfidence(s, c)
    ensures t == SortByConfidence(s)
  {
    SameGroupsEqual(t, SortByConfidence(s));
  }
}
