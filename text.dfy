/**
 * The few Python `str` operations the history listing relies on: ordering by
 * code point (`<=` on strings), `lower()`, `endswith()` and `replace(pat, "")`.
 */
module Text {

  /** Python's `a <= b` on strings: lexicographic by code point, a proper prefix first. */
  predicate LexLe(a: string, b: string)
  {
    |a| == 0 || (|b| > 0 && (a[0] < b[0] || (a[0] == b[0] && LexLe(a[1..], b[1..]))))
  }

  lemma {:induction false} LexLeReflexive(a: string)
    ensures LexLe(a, a)
  {
    if |a| > 0 {
      LexLeReflexive(a[1..]);
    }
  }

  lemma {:induction false} LexLeTotal(a: string, b: string)
    ensures LexLe(a, b) || LexLe(b, a)
  {
    if |a| > 0 && |b| > 0 && a[0] == b[0] {
      LexLeTotal(a[1..], b[1..]);
    }
  }

  lemma {:induction false} LexLeAntisymmetric(a: string, b: string)
    requires LexLe(a, b) && LexLe(b, a)
    ensures a == b
  {
    if |a| > 0 && |b| > 0 {
      LexLeAntisymmetric(a[1..], b[1..]);
      assert a == [a[0]] + a[1..] && b == [b[0]] + b[1..];
    }
  }

  lemma {:induction false} LexLeTransitive(a: string, b: string, c: string)
    requires LexLe(a, b) && LexLe(b, c)
    ensures LexLe(a, c)
  {
    if |a| > 0 && a[0] == b[0] && b[0] == c[0] {
      LexLeTransitive(a[1..], b[1..], c[1..]);
    }
  }

  /** Strings sharing a prefix compare as their remainders do. */
  lemma {:induction false} LexLeCommonPrefix(p: string, a: string, b: string)
    ensures LexLe(p + a, p + b) <==> LexLe(a, b)
  {
    if |p| > 0 {
      assert (p + a)[1..] == p[1..] + a && (p + b)[1..] == p[1..] + b;
      LexLeCommonPrefix(p[1..], a, b);
    } else {
      assert p + a == a && p + b == b;
    }
  }

  /** Past two equal-length beginnings, the first difference decides; without one, the rest does. */
  lemma {:induction false} LexLeSameLength(a: string, b: string, x: string, y: string)
    requires |a| == |b|
    ensures LexLe(a + x, b + y) <==> (a == b && LexLe(x, y)) || (a != b && LexLe(a, b))
  {
    if a == [] {
      assert a + x == x && b + y == y;
    } else {
      assert (a + x)[0] == a[0] && (b + y)[0] == b[0];
      assert (a + x)[1..] == a[1..] + x && (b + y)[1..] == b[1..] + y;
      LexLeSameLength(a[1..], b[1..], x, y);
      assert a == [a[0]] + a[1..] && b == [b[0]] + b[1..];
    }
  }

  /** `str.lower()` on one character, for the ASCII letters. */
  function LowerChar(c: char): (l: char)
    ensures 'A' <= c <= 'Z' ==> l as int == c as int + 32
    ensures !('A' <= c <= 'Z') ==> l == c
  {
    if 'A' <= c <= 'Z' then (c as int + 32) as char else c
  }

  function Lower(s: string): (r: string)
    ensures |r| == |s|
    ensures forall i :: 0 <= i < |s| ==> r[i] == LowerChar(s[i])
  {
    if s == [] then [] else [LowerChar(s[0])] + Lower(s[1..])
  }

  lemma {:induction false} LowerAppend(a: string, b: string)
    ensures Lower(a + b) == Lower(a) + Lower(b)
  {
    if a == [] {
      assert a + b == b;
    } else {
      assert (a + b)[1..] == a[1..] + b;
      LowerAppend(a[1..], b);
    }
  }

  predicate EndsWith(s: string, suffix: string)
  {
    |suffix| <= |s| && s[|s| - |suffix|..] == suffix
  }

  /**
   * `s.replace(pat, "")`: scans left to right and deletes every
   * non-overlapping occurrence of `pat`; the text left behind is not scanned again.
   */
  function RemoveAll(s: string, pat: string): (r: string)
    requires |pat| > 0
    ensures |r| <= |s|
    decreases |s|
  {
    if |s| < |pat| then s
    else if s[..|pat|] == pat then RemoveAll(s[|pat|..], pat)
    else [s[0]] + RemoveAll(s[1..], pat)
  }

  /** Text before the first possible start of `pat` is kept as it is. */
  lemma {:induction false} RemoveAllSkips(a: string, b: string, pat: string)
    requires |pat| > 0
    requires pat[0] !in a
    ensures RemoveAll(a + b, pat) == a + RemoveAll(b, pat)
  {
    if a != [] {
      var s := a + b;
      assert s[0] == a[0];
      if |s| >= |pat| {
        assert s[..|pat|] != pat by { assert s[..|pat|][0] == a[0]; }
      }
      assert s[1..] == a[1..] + b;
      RemoveAllSkips(a[1..], b, pat);
      if |s| < |pat| {
        RemoveAllSkipsShort(a[1..], b, pat);
      }
    } else {
      assert a + b == b;
    }
  }

  lemma {:induction false} RemoveAllSkipsShort(a: string, b: string, pat: string)
    requires |pat| > 0 && |a + b| < |pat|
    ensures RemoveAll(a + b, pat) == a + b
  {
  }

  /** An occurrence at the front is deleted. */
  lemma RemoveAllFront(pat: string, s: string)
    requires |pat| > 0
    ensures RemoveAll(pat + s, pat) == RemoveAll(s, pat)
  {
    assert (pat + s)[..|pat|] == pat;
    assert (pat + s)[|pat|..] == s;
  }

  /**
   * A suffix `w` survives the deletion when no occurrence of `pat` can end
   * inside it: the last character of `pat` appears in `w` at most as its own
   * last character, and `w` does not itself end with `pat`.
   */
  lemma {:induction false} RemoveAllKeepsSuffix(s: string, pat: string, w: string)
    requires |pat| > 0 && |w| >= |pat|
    requires EndsWith(s, w)
    requires forall i :: 0 <= i < |w| - 1 ==> w[i] != pat[|pat| - 1]
    requires !EndsWith(w, pat)
    ensures EndsWith(RemoveAll(s, pat), w)
    decreases |s|
  {
    if |s| < |pat| {
    } else if s[..|pat|] == pat {
      var rest := s[|pat|..];
      RestKeepsSuffix(s, pat, w);
      RemoveAllKeepsSuffix(rest, pat, w);
    } else if |s| > |w| {
      var r := RemoveAll(s[1..], pat);
      assert EndsWith(s[1..], w) by {
        assert s[1..][|s| - 1 - |w|..] == s[|s| - |w|..];
      }
      RemoveAllKeepsSuffix(s[1..], pat, w);
      assert RemoveAll(s, pat) == [s[0]] + r;
      ConsKeepsSuffix(s[0], r, w);
    } else {
      assert s == w;
      NoOccurrenceKept(s[1..], pat);
      assert RemoveAll(s, pat) == [s[0]] + s[1..];
      assert [s[0]] + s[1..] == s;
    }
  }

  /** A suffix in which the last character of `pat` never appears survives the deletion. */
  lemma {:induction false} RemoveAllKeepsFreeSuffix(s: string, pat: string, w: string)
    requires |pat| > 0
    requires EndsWith(s, w)
    requires forall i :: 0 <= i < |w| ==> w[i] != pat[|pat| - 1]
    ensures EndsWith(RemoveAll(s, pat), w)
    decreases |s|
  {
    if |s| == |w| {
      assert s == w;
      NoOccurrenceKept(s, pat);
    } else if |s| < |pat| {
    } else if s[..|pat|] == pat {
      FreeRestKeepsSuffix(s, pat, w);
      RemoveAllKeepsFreeSuffix(s[|pat|..], pat, w);
    } else {
      var r := RemoveAll(s[1..], pat);
      assert EndsWith(s[1..], w) by {
        assert s[1..][|s| - 1 - |w|..] == s[|s| - |w|..];
      }
      RemoveAllKeepsFreeSuffix(s[1..], pat, w);
      assert RemoveAll(s, pat) == [s[0]] + r;
      ConsKeepsSuffix(s[0], r, w);
    }
  }

  lemma FreeRestKeepsSuffix(s: string, pat: string, w: string)
    requires |pat| > 0 && |s| >= |pat| && |s| > |w|
    requires EndsWith(s, w) && s[..|pat|] == pat
    requires forall i :: 0 <= i < |w| ==> w[i] != pat[|pat| - 1]
    ensures EndsWith(s[|pat|..], w)
  {
    var rest := s[|pat|..];
    assert s[|pat| - 1] == pat[|pat| - 1];
    assert rest[|rest| - |w|..] == s[|s| - |w|..];
  }

  lemma RestKeepsSuffix(s: string, pat: string, w: string)
    requires |pat| > 0 && |w| >= |pat| && |s| >= |pat|
    requires EndsWith(s, w) && s[..|pat|] == pat
    requires forall i :: 0 <= i < |w| - 1 ==> w[i] != pat[|pat| - 1]
    requires !EndsWith(w, pat)
    ensures EndsWith(s[|pat|..], w)
  {
    var rest := s[|pat|..];
    assert rest[|rest| - |w|..] == s[|s| - |w|..];
  }

  lemma ConsKeepsSuffix(c: char, r: string, w: string)
    requires EndsWith(r, w)
    ensures EndsWith([c] + r, w)
  {
    assert ([c] + r)[|r| + 1 - |w|..] == r[|r| - |w|..];
  }

  /** A text in which `pat` cannot end anywhere but at its last character, and does not end there, is untouched. */
  lemma {:induction false} NoOccurrenceKept(s: string, pat: string)
    requires |pat| > 0
    requires forall i :: 0 <= i < |s| - 1 ==> s[i] != pat[|pat| - 1]
    requires !EndsWith(s, pat)
    ensures RemoveAll(s, pat) == s
    decreases |s|
  {
    if |s| >= |pat| {
      if |s| - 1 >= |pat| {
        assert s[1..][|s| - 1 - |pat|..] == s[|s| - |pat|..];
      }
      NoOccurrenceKept(s[1..], pat);
      assert s == [s[0]] + s[1..];
    }
  }
}
