/**
 * The order `sort.Strings` puts strings in: lexicographic on code points
 * (which for UTF-8 text is the byte-wise order Go's `<` on strings uses),
 * with a proper prefix first. The sort itself is a library call; it is
 * modelled as an insertion sort, and `SortedUnique` shows that any sort
 * producing a sorted permutation produces the same list.
 */
module StringOrder {

  /** `s` sorts no later than `t`. */
  predicate LexLe(s: string, t: string) {
    |s| == 0 || (|t| > 0 && (s[0] < t[0] || (s[0] == t[0] && LexLe(s[1..], t[1..]))))
  }

  lemma {:induction false} LexLeReflexive(s: string)
    ensures LexLe(s, s)
  {
    if |s| > 0 {
      LexLeReflexive(s[1..]);
    }
  }

  lemma {:induction false} LexLeTotal(s: string, t: string)
    ensures LexLe(s, t) || LexLe(t, s)
  {
    if |s| > 0 && |t| > 0 && s[0] == t[0] {
      LexLeTotal(s[1..], t[1..]);
    }
  }

  lemma {:induction false} LexLeAntisymmetric(s: string, t: string)
    requires LexLe(s, t) && LexLe(t, s)
    ensures s == t
  {
    if |s| > 0 {
      LexLeAntisymmetric(s[1..], t[1..]);
      assert s == [s[0]] + s[1..];
      assert t == [t[0]] + t[1..];
    }
  }

  lemma {:induction false} LexLeTransitive(s: string, t: string, u: string)
    requires LexLe(s, t) && LexLe(t, u)
    ensures LexLe(s, u)
  {
    if |s| > 0 && s[0] == t[0] && t[0] == u[0] {
      LexLeTransitive(s[1..], t[1..], u[1..]);
    }
  }

  /** Every string sorts no later than every later one. */
  predicate Sorted(xs: seq<string>) {
    forall i, j :: 0 <= i < j < |xs| ==> LexLe(xs[i], xs[j])
  }

  /** `xs` with `x` placed before the first element it sorts no later than. */
  function Insert(x: string, xs: seq<string>): (r: seq<string>)
    ensures multiset(r) == multiset(xs) + multiset{x}
    ensures |r| == |xs| + 1
  {
    if xs == [] then [x]
    else if LexLe(x, xs[0]) then [x] + xs
    else
      assert xs == [xs[0]] + xs[1..];
      [xs[0]] + Insert(x, xs[1..])
  }

  /** Inserting into a sorted list keeps it sorted. */
  lemma {:induction false} InsertSorted(x: string, xs: seq<string>)
    requires Sorted(xs)
    ensures Sorted(Insert(x, xs))
  {
    if xs != [] {
      if LexLe(x, xs[0]) {
        forall j | 1 <= j < |xs| + 1
          ensures LexLe(x, ([x] + xs)[j])
        {
          if j > 1 {
            LexLeTransitive(x, xs[0], xs[j - 1]);
          }
        }
      } else {
        var rest := Insert(x, xs[1..]);
        InsertSorted(x, xs[1..]);
        LexLeTotal(x, xs[0]);
        forall j | 0 <= j < |rest|
          ensures LexLe(xs[0], rest[j])
        {
          assert rest[j] in multiset(rest);
          if rest[j] != x {
            assert rest[j] in multiset(xs[1..]);
            var k :| 0 <= k < |xs[1..]| && xs[1..][k] == rest[j];
            assert xs[k + 1] == rest[j];
          }
        }
      }
    }
  }

  /** `sort.Strings`: the strings in ascending order. */
  function SortStrings(xs: seq<string>): (r: seq<string>)
    ensures multiset(r) == multiset(xs)
  {
    if xs == [] then []
    else
      assert xs == [xs[0]] + xs[1..];
      Insert(xs[0], SortStrings(xs[1..]))
  }

  /** What `sort.Strings` leaves is sorted. */
  lemma {:induction false} SortStringsIsSorted(xs: seq<string>)
    ensures Sorted(SortStrings(xs))
  {
    if xs != [] {
      SortStringsIsSorted(xs[1..]);
      InsertSorted(xs[0], SortStrings(xs[1..]));
    }
  }

  lemma SortedTail(xs: seq<string>)
    requires Sorted(xs) && |xs| > 0
    ensures Sorted(xs[1..])
  {
  }

  /** A sorted list is first in each of its elements' order: its head sorts no later than any member. */
  lemma HeadIsLeast(xs: seq<string>, y: string)
    requires Sorted(xs) && y in multiset(xs)
    ensures LexLe(xs[0], y)
  {
    var k :| 0 <= k < |xs| && xs[k] == y;
    if k == 0 {
      LexLeReflexive(y);
    }
  }

  lemma MultisetTail<T>(s: seq<T>)
    requires |s| > 0
    ensures s == [s[0]] + s[1..]
    ensures multiset(s[1..]) == multiset(s) - multiset{s[0]}
  {
    assert s == [s[0]] + s[1..];
    assert multiset(s) == multiset([s[0]]) + multiset(s[1..]);
  }

  /** A sorted permutation is unique: any two agree element by element. */
  lemma {:induction false} SortedUnique(a: seq<string>, b: seq<string>)
    requires Sorted(a) && Sorted(b) && multiset(a) == multiset(b)
    ensures a == b
  {
    if |a| > 0 {
      assert |b| == |a| by {
        assert |multiset(a)| == |a| && |multiset(b)| == |b|;
      }
      assert a[0] in multiset(b) by {
        assert a[0] in multiset(a);
      }
      assert b[0] in multiset(a) by {
        assert b[0] in multiset(b);
      }
      HeadIsLeast(a, b[0]);
      HeadIsLeast(b, a[0]);
      LexLeAntisymmetric(a[0], b[0]);
      MultisetTail(a);
      MultisetTail(b);
      SortedTail(a);
      SortedTail(b);
      SortedUnique(a[1..], b[1..]);
    } else {
      assert |multiset(b)| == |b|;
    }
  }

  /** Sorting depends only on which strings occur how often, not on their order. */
  lemma SortStringsOnlyMultiset(xs: seq<string>, ys: seq<string>)
    requires multiset(xs) == multiset(ys)
    ensures SortStrings(xs) == SortStrings(ys)
  {
    SortStringsIsSorted(xs);
    SortStringsIsSorted(ys);
    SortedUnique(SortStrings(xs), SortStrings(ys));
  }

  /** Sorting two lists and then their concatenation is sorting the concatenation. */
  lemma SortStringsOfSorted(xs: seq<string>, ys: seq<string>)
    ensures SortStrings(SortStrings(xs) + SortStrings(ys)) == SortStrings(xs + ys)
  {
    assert multiset(SortStrings(xs) + SortStrings(ys)) == multiset(xs + ys) by {
      assert multiset(SortStrings(xs) + SortStrings(ys)) == multiset(SortStrings(xs)) + multiset(SortStrings(ys));
      assert multiset(xs + ys) == multiset(xs) + multiset(ys);
    }
    SortStringsOnlyMultiset(SortStrings(xs) + SortStrings(ys), xs + ys);
  }

  /** Sorting a sorted list changes nothing. */
  lemma SortStringsKeepsSorted(xs: seq<string>)
    requires Sorted(xs)
    ensures SortStrings(xs) == xs
  {
    SortStringsIsSorted(xs);
    SortedUnique(SortStrings(xs), xs);
  }

  /** The order is textual, not numeric: "10.0.0.0/8" sorts before "9.0.0.0/8". */
  lemma TextualNotNumeric()
    ensures SortStrings(["9.0.0.0/8", "10.0.0.0/8"]) == ["10.0.0.0/8", "9.0.0.0/8"]
  {
    var lo, hi := "10.0.0.0/8", "9.0.0.0/8";
    assert LexLe(lo, hi);
    assert Sorted([lo, hi]);
    SortStringsOnlyMultiset(["9.0.0.0/8", "10.0.0.0/8"], [lo, hi]);
    SortStringsKeepsSorted([lo, hi]);
  }
}
