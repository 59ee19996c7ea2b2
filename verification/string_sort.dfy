/**
  `Array.prototype.sort()` without a comparator, on strings: an insertion sort
  under the character-by-character order, with its sortedness and permutation
  proofs.
 */
module StringSort {
  import opened Seqs

  /** `a <= b` in the string order of JavaScript's default sort: character by character, a prefix first. */
  predicate LessEq(a: string, b: string)
    decreases |a|
  {
    |a| == 0 || (|b| > 0 && (a[0] < b[0] || (a[0] == b[0] && LessEq(a[1..], b[1..]))))
  }

  lemma {:induction false} LessEqTotal(a: string, b: string)
    ensures LessEq(a, b) || LessEq(b, a)
    decreases |a|
  {
    if |a| > 0 && |b| > 0 && a[0] == b[0] {
      LessEqTotal(a[1..], b[1..]);
    }
  }

  lemma {:induction false} LessEqTransitive(a: string, b: string, c: string)
    requires LessEq(a, b) && LessEq(b, c)
    ensures LessEq(a, c)
    decreases |a|
  {
    if |a| > 0 && a[0] == b[0] && b[0] == c[0] {
      LessEqTransitive(a[1..], b[1..], c[1..]);
    }
  }

  predicate Sorted(s: seq<string>) {
    forall i, j | 0 <= i < j < |s| :: LessEq(s[i], s[j])
  }

  /** Put `x` into a list before the first element it does not exceed. */
  function Insert(x: string, s: seq<string>): (r: seq<string>)
    ensures multiset(r) == multiset(s) + multiset{x}
    ensures |r| == |s| + 1
  {
    if |s| == 0 then [x]
    else if LessEq(x, s[0]) then [x] + s
    else
      assert s == [s[0]] + s[1..];
      [s[0]] + Insert(x, s[1..])
  }

  /** Inserting into a sorted list keeps it sorted. */
  lemma {:induction false} InsertSorted(x: string, s: seq<string>)
    requires Sorted(s)
    ensures Sorted(Insert(x, s))
    decreases |s|
  {
    if |s| == 0 {
    } else if LessEq(x, s[0]) {
      forall j | 0 <= j < |s|
        ensures LessEq(x, s[j])
      {
        if j > 0 { LessEqTransitive(x, s[0], s[j]); }
      }
      var r := [x] + s;
      forall i, j | 0 <= i < j < |r|
        ensures LessEq(r[i], r[j])
      {
        assert r[j] == s[j - 1];
        if i > 0 { assert r[i] == s[i - 1]; }
      }
    } else {
      LessEqTotal(x, s[0]);
      var t := s[1..];
      assert Sorted(t) by {
        forall i, j | 0 <= i < j < |t|
          ensures LessEq(t[i], t[j])
        {
          assert t[i] == s[i + 1] && t[j] == s[j + 1];
        }
      }
      InsertSorted(x, t);
      assert s == [s[0]] + t;
      InsertSortedCons(s[0], t, x, Insert(x, t));
    }
  }

  lemma InsertSortedCons(h: string, t: seq<string>, x: string, rest: seq<string>)
    requires Sorted([h] + t) && Sorted(rest) && LessEq(h, x)
    requires multiset(rest) == multiset(t) + multiset{x}
    ensures Sorted([h] + rest)
  {
    forall y | y in rest
      ensures LessEq(h, y)
    {
      assert y in multiset(rest);
      if y != x {
        assert y in multiset(t);
        var k :| 0 <= k < |t| && t[k] == y;
        assert ([h] + t)[0] == h;
        assert ([h] + t)[k + 1] == y;
      }
    }
    var r := [h] + rest;
    forall i, j | 0 <= i < j < |r|
      ensures LessEq(r[i], r[j])
    {
      assert r[j] == rest[j - 1];
      if i > 0 {
        assert r[i] == rest[i - 1];
      } else {
        assert rest[j - 1] in rest;
      }
    }
  }

  /** `Array.prototype.sort()` on strings: a sorted permutation of the list. */
  function SortStrings(s: seq<string>): (r: seq<string>)
    ensures Sorted(r)
    ensures multiset(r) == multiset(s)
  {
    if |s| == 0 then []
    else
      var n := |s| - 1;
      assert s == s[..n] + [s[n]];
      InsertSorted(s[n], SortStrings(s[..n]));
      Insert(s[n], SortStrings(s[..n]))
  }


  /** Sorting a duplicate-free list gives a duplicate-free list of the same strings. */
  lemma SortStringsSet(s: seq<string>)
    requires NoDup(s)
    ensures NoDup(SortStrings(s))
    ensures Elems(SortStrings(s)) == Elems(s)
  {
    var r := SortStrings(s);
    NoDupMultiset(s);
    NoDupMultiset(r);
    assert forall x :: x in r <==> x in multiset(r);
  }
}
