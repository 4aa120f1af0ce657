/**
 * `list.sort(reverse=True)` on a list of strings: the list ends up holding the
 * same names, largest first under Python's string order.
 */
module Sorting {
  import opened Text

  /** Every name is at least as large as every name after it. */
  predicate NonIncreasing(s: seq<string>)
  {
    forall i, j :: 0 <= i < j < |s| ==> LexLe(s[j], s[i])
  }

  /** Puts `x` in front of the first name not larger than it. */
  function Insert(x: string, s: seq<string>): (r: seq<string>)
    requires NonIncreasing(s)
    ensures NonIncreasing(r)
    ensures multiset(r) == multiset(s) + multiset{x}
  {
    if s == [] then [x]
    else if LexLe(s[0], x) then
      LexLeHead(s, x);
      [x] + s
    else
      var tail := Insert(x, s[1..]);
      assert s == [s[0]] + s[1..];
      LexLeTotal(s[0], x);
      InsertHead(s[0], tail, x, s[1..]);
      [s[0]] + tail
  }

  /** `x` in front of a non-increasing list headed by a name not larger than `x` keeps it non-increasing. */
  lemma LexLeHead(s: seq<string>, x: string)
    requires NonIncreasing(s) && s != [] && LexLe(s[0], x)
    ensures NonIncreasing([x] + s)
  {
    forall i, j | 0 <= i < j < |s| + 1
      ensures LexLe(([x] + s)[j], ([x] + s)[i])
    {
      if i == 0 {
        if j > 1 {
          LexLeTransitive(s[j - 1], s[0], x);
        }
      }
    }
  }

  lemma InsertHead(h: string, tail: seq<string>, x: string, rest: seq<string>)
    requires NonIncreasing(tail) && NonIncreasing([h] + rest)
    requires multiset(tail) == multiset(rest) + multiset{x}
    requires LexLe(x, h)
    ensures NonIncreasing([h] + tail)
  {
    forall j | 0 <= j < |tail|
      ensures LexLe(tail[j], h)
    {
      assert tail[j] in multiset(tail);
      if tail[j] != x {
        assert tail[j] in multiset(rest);
        var k :| 0 <= k < |rest| && rest[k] == tail[j];
        assert ([h] + rest)[k + 1] == rest[k] && ([h] + rest)[0] == h;
        assert LexLe(([h] + rest)[k + 1], ([h] + rest)[0]);
      }
    }
    forall i, j | 0 <= i < j < |tail| + 1
      ensures LexLe(([h] + tail)[j], ([h] + tail)[i])
    {
      if i > 0 {
        assert ([h] + tail)[j] == tail[j - 1] && ([h] + tail)[i] == tail[i - 1];
      }
    }
  }

  /** The reference sort: insertion of each name into the sorted rest. */
  function SortDescending(s: seq<string>): (r: seq<string>)
    ensures NonIncreasing(r)
    ensures multiset(r) == multiset(s)
  {
    if s == [] then []
    else
      assert s == [s[0]] + s[1..];
      Insert(s[0], SortDescending(s[1..]))
  }

  /** There is only one non-increasing arrangement of a collection of names. */
  lemma {:induction false} SortedUnique(a: seq<string>, b: seq<string>)
    requires NonIncreasing(a) && NonIncreasing(b)
    requires multiset(a) == multiset(b)
    ensures a == b
    decreases |a|
  {
    assert |b| == |a| by {
      assert |multiset(b)| == |multiset(a)|;
    }
    if a != [] {
      HeadsEqual(a, b);
      TailsSameMultiset(a, b);
      NonIncreasingTail(a);
      NonIncreasingTail(b);
      SortedUnique(a[1..], b[1..]);
      assert a == [a[0]] + a[1..] && b == [b[0]] + b[1..];
    }
  }

  /** The largest name heads every non-increasing arrangement. */
  lemma HeadsEqual(a: seq<string>, b: seq<string>)
    requires NonIncreasing(a) && NonIncreasing(b)
    requires multiset(a) == multiset(b) && a != [] && b != []
    ensures a[0] == b[0]
  {
    assert a[0] in multiset(b);
    var k :| 0 <= k < |b| && b[k] == a[0];
    assert b[0] in multiset(a);
    var m :| 0 <= m < |a| && a[m] == b[0];
    if k == 0 {
      LexLeReflexive(b[0]);
    }
    if m == 0 {
      LexLeReflexive(a[0]);
    }
    assert LexLe(b[k], b[0]) && LexLe(a[m], a[0]);
    LexLeAntisymmetric(a[0], b[0]);
  }

  lemma TailsSameMultiset(a: seq<string>, b: seq<string>)
    requires multiset(a) == multiset(b) && a != [] && b != [] && a[0] == b[0]
    ensures multiset(a[1..]) == multiset(b[1..])
  {
    assert a == [a[0]] + a[1..] && b == [b[0]] + b[1..];
    assert multiset(a) == multiset{a[0]} + multiset(a[1..]);
    assert multiset(b) == multiset{b[0]} + multiset(b[1..]);
    calc {
      multiset(a[1..]);
      multiset(a) - multiset{a[0]};
      multiset(b) - multiset{b[0]};
      multiset(b[1..]);
    }
  }

  lemma NonIncreasingTail(s: seq<string>)
    requires NonIncreasing(s) && s != []
    ensures NonIncreasing(s[1..])
  {
    forall i, j | 0 <= i < j < |s| - 1
      ensures LexLe(s[1..][j], s[1..][i])
    {
      assert s[1..][j] == s[j + 1] && s[1..][i] == s[i + 1];
    }
  }

  /** The non-increasing permutations of a list are exactly its reference sort. */
  lemma SortDescendingCharacterized(s: seq<string>, r: seq<string>)
    ensures NonIncreasing(r) && multiset(r) == multiset(s) <==> r == SortDescending(s)
  {
    if NonIncreasing(r) && multiset(r) == multiset(s) {
      SortedUnique(r, SortDescending(s));
    }
  }

  /** `files.sort(reverse=True)`: sorts the names in place, largest first. */
  method SortReverse(a: array<string>)
    modifies a
    ensures a[..] == SortDescending(old(a[..]))
  {
    var i := 0;
    while i < a.Length
      invariant 0 <= i <= a.Length
      invariant NonIncreasing(a[..i])
      invariant multiset(a[..]) == multiset(old(a[..]))
    {
      SinkBack(a, i);
      i := i + 1;
    }
    assert a[..i] == a[..];
    SortedUnique(a[..], SortDescending(old(a[..])));
  }

  /** One insertion step: moves `a[i]` left past every smaller name, so that `a[..i + 1]` is sorted. */
  method SinkBack(a: array<string>, i: int)
    requires 0 <= i < a.Length && NonIncreasing(a[..i])
    modifies a
    ensures NonIncreasing(a[..i + 1])
    ensures multiset(a[..]) == multiset(old(a[..]))
  {
    var j := i;
    SinkStart(a[..], i);
    while j > 0 && !LexLe(a[j], a[j - 1])
      invariant 0 <= j <= i
      invariant Sinking(a[..], j, i)
      invariant multiset(a[..]) == multiset(old(a[..]))
    {
      ghost var s := a[..];
      SinkStep(s, j, i);
      a[j - 1], a[j] := a[j], a[j - 1];
      assert a[..] == s[j - 1 := s[j]][j := s[j - 1]];
      j := j - 1;
    }
    SinkDone(a[..], j, i);
  }

  /**
   * While `s[j]` sinks towards its place in `s[..i + 1]`: the other names are
   * in order, those before `j` are at least those after it, and `s[j]` is at
   * least those after it.
   */
  ghost predicate Sinking(s: seq<string>, j: int, i: int)
    requires 0 <= j <= i < |s|
  {
    && (forall p, q :: 0 <= p < q <= i && p != j && q != j ==> LexLe(s[q], s[p]))
    && (forall p, q :: 0 <= p < j < q <= i ==> LexLe(s[q], s[p]))
    && (forall q :: j < q <= i ==> LexLe(s[q], s[j]))
  }

  lemma SinkStart(s: seq<string>, i: int)
    requires 0 <= i < |s| && NonIncreasing(s[..i])
    ensures Sinking(s, i, i)
  {
    forall p, q | 0 <= p < q < i
      ensures LexLe(s[q], s[p])
    {
      assert s[..i][q] == s[q] && s[..i][p] == s[p];
    }
  }

  lemma SinkStep(s: seq<string>, j: int, i: int)
    requires 0 < j <= i < |s| && Sinking(s, j, i) && !LexLe(s[j], s[j - 1])
    ensures Sinking(s[j - 1 := s[j]][j := s[j - 1]], j - 1, i)
  {
    LexLeTotal(s[j], s[j - 1]);
  }

  lemma SinkDone(s: seq<string>, j: int, i: int)
    requires 0 <= j <= i < |s| && Sinking(s, j, i)
    requires j > 0 ==> LexLe(s[j], s[j - 1])
    ensures NonIncreasing(s[..i + 1])
  {
    forall p | 0 <= p < j
      ensures LexLe(s[j], s[p])
    {
      if p < j - 1 {
        LexLeTransitive(s[j], s[j - 1], s[p]);
      }
    }
    var t := s[..i + 1];
    forall p, q | 0 <= p < q < |t|
      ensures LexLe(t[q], t[p])
    {
    }
  }
}
