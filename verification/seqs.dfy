/**
  Sequences used as insertion-ordered sets.

  JavaScript's `Set` iterates its elements in insertion order, so a `Set` is
  modelled as a duplicate-free sequence, and `[...new Set(s)]` as `Dedup(s)`,
  which keeps the first occurrence of every element.
 */
module Seqs {

  datatype Option<T> = None | Some(value: T)

  /** The elements of `s`, forgetting order and multiplicity. */
  function Elems<T>(s: seq<T>): set<T> {
    set x | x in s
  }

  lemma ElemsConcat<T>(a: seq<T>, b: seq<T>)
    ensures Elems(a + b) == Elems(a) + Elems(b)
  {
    assert forall x | x in a + b :: x in a || x in b;
  }

  predicate NoDup<T(==)>(s: seq<T>) {
    forall i, j | 0 <= i < j < |s| :: s[i] != s[j]
  }

  /** `[...new Set(s)]`: the first occurrence of every element, in order. */
  function Dedup<T(==)>(s: seq<T>): (r: seq<T>)
    ensures NoDup(r)
    ensures Elems(r) == Elems(s)
    ensures |r| <= |s|
  {
    if |s| == 0 then []
    else
      var d := Dedup(s[..|s| - 1]);
      assert s == s[..|s| - 1] + [s[|s| - 1]];
      ElemsConcat(s[..|s| - 1], [s[|s| - 1]]);
      ElemsConcat(d, [s[|s| - 1]]);
      if s[|s| - 1] in d then d else d + [s[|s| - 1]]
  }

  /** `set.add(x)` on a set kept as a duplicate-free sequence. */
  function Add<T(==)>(s: seq<T>, x: T): (r: seq<T>)
    ensures Elems(r) == Elems(s) + {x}
    ensures NoDup(s) ==> NoDup(r)
    ensures x in s ==> r == s
    ensures x !in s ==> r == s + [x]
  {
    if x in s then s else s + [x]
  }

  /** Number of elements of `s` satisfying `p`. */
  function Count<T>(s: seq<T>, p: T -> bool): (n: nat)
    ensures n <= |s|
  {
    if |s| == 0 then 0
    else Count(s[..|s| - 1], p) + (if p(s[|s| - 1]) then 1 else 0)
  }

  /** Elements of `s` satisfying `p`, in order (`Array.prototype.filter`). */
  function Filter<T>(s: seq<T>, p: T -> bool): (r: seq<T>)
    ensures |r| <= |s|
    ensures forall x | x in r :: x in s && p(x)
    ensures forall x | x in s && p(x) :: x in r
  {
    if |s| == 0 then []
    else
      var rest := Filter(s[..|s| - 1], p);
      assert s == s[..|s| - 1] + [s[|s| - 1]];
      if p(s[|s| - 1]) then rest + [s[|s| - 1]] else rest
  }

  /** `s.map(f)`. */
  function Map<T, U>(s: seq<T>, f: T -> U): (r: seq<U>)
    ensures |r| == |s|
    ensures forall i | 0 <= i < |s| :: r[i] == f(s[i])
  {
    seq(|s|, i requires 0 <= i < |s| => f(s[i]))
  }

  /** `s` is obtained from `t` by deleting elements, keeping order. */
  predicate IsSubsequence<T(==)>(s: seq<T>, t: seq<T>)
    decreases |t|
  {
    if |t| == 0 then |s| == 0
    else
      || (|s| > 0 && s[|s| - 1] == t[|t| - 1] && IsSubsequence(s[..|s| - 1], t[..|t| - 1]))
      || IsSubsequence(s, t[..|t| - 1])
  }

  lemma {:induction false} SubsequenceElems<T>(s: seq<T>, t: seq<T>)
    requires IsSubsequence(s, t)
    ensures Elems(s) <= Elems(t)
    decreases |t|
  {
    if |t| > 0 {
      var init := t[..|t| - 1];
      assert t == init + [t[|t| - 1]];
      ElemsConcat(init, [t[|t| - 1]]);
      if |s| > 0 && s[|s| - 1] == t[|t| - 1] && IsSubsequence(s[..|s| - 1], init) {
        SubsequenceElems(s[..|s| - 1], init);
        assert s == s[..|s| - 1] + [s[|s| - 1]];
        ElemsConcat(s[..|s| - 1], [s[|s| - 1]]);
      } else {
        SubsequenceElems(s, init);
      }
    }
  }

  /** What a filter keeps is a subsequence of what it filtered. */
  lemma {:induction false} FilterIsSubsequence<T>(s: seq<T>, p: T -> bool)
    ensures IsSubsequence(Filter(s, p), s)
    decreases |s|
  {
    if |s| > 0 {
      FilterIsSubsequence(s[..|s| - 1], p);
    }
  }

  /** A duplicate-free sequence has as many elements as distinct values. */
  lemma {:induction false} NoDupCard<T>(s: seq<T>)
    requires NoDup(s)
    ensures |Elems(s)| == |s|
  {
    if |s| > 0 {
      var init := s[..|s| - 1];
      assert NoDup(init);
      NoDupCard(init);
      assert s == init + [s[|s| - 1]];
      assert s[|s| - 1] !in init;
      assert Elems(s) == Elems(init) + {s[|s| - 1]};
    }
  }

  /** A sequence has at least as many elements as distinct values. */
  lemma ElemsCard<T>(s: seq<T>)
    ensures |Elems(s)| <= |s|
  {
    NoDupCard(Dedup(s));
  }

  lemma DedupSnoc<T>(s: seq<T>, x: T)
    ensures Dedup(s + [x]) == Add(Dedup(s), x)
  {
    assert (s + [x])[..|s + [x]| - 1] == s;
  }

  /** Deduplicating a duplicate-free sequence changes nothing. */
  lemma {:induction false} DedupNoDup<T>(s: seq<T>)
    requires NoDup(s)
    ensures Dedup(s) == s
  {
    if |s| > 0 {
      var init := s[..|s| - 1];
      DedupNoDup(init);
      assert s[|s| - 1] !in init;
      assert s == init + [s[|s| - 1]];
    }
  }

  /** Inserting `b` into `[...new Set(a)]` is the same as deduplicating `a ++ b`. */
  lemma {:induction false} DedupAppend<T>(a: seq<T>, b: seq<T>)
    ensures Dedup(Dedup(a) + b) == Dedup(a + b)
    decreases |b|
  {
    if |b| == 0 {
      assert Dedup(a) + b == Dedup(a);
      assert a + b == a;
      DedupNoDup(Dedup(a));
    } else {
      var init := b[..|b| - 1];
      var x := b[|b| - 1];
      DedupAppend(a, init);
      assert Dedup(a) + b == (Dedup(a) + init) + [x];
      assert a + b == (a + init) + [x];
      DedupSnoc(Dedup(a) + init, x);
      DedupSnoc(a + init, x);
    }
  }

  /** `[...new Set(a)]` is a prefix of `[...new Set(a ++ b)]`: appending never reorders. */
  lemma {:induction false} DedupPrefix<T>(a: seq<T>, b: seq<T>)
    ensures |Dedup(a)| <= |Dedup(a + b)|
    ensures Dedup(a + b)[..|Dedup(a)|] == Dedup(a)
    decreases |b|
  {
    if |b| == 0 {
      assert a + b == a;
    } else {
      var init := b[..|b| - 1];
      var x := b[|b| - 1];
      DedupPrefix(a, init);
      assert a + b == (a + init) + [x];
      DedupSnoc(a + init, x);
    }
  }

  lemma DedupAssociative<T>(a: seq<T>, b: seq<T>, c: seq<T>)
    ensures Dedup(Dedup(a + b) + c) == Dedup(a + (b + c))
  {
    var ab := a + b;
    assert ab + c == a + (b + c);
    DedupAppend(ab, c);
  }

  /** The tail of a duplicate-free list is duplicate-free and does not hold its head. */
  lemma NoDupTail<T>(s: seq<T>)
    requires |s| > 0 && NoDup(s)
    ensures NoDup(s[1..]) && s[0] !in s[1..]
  {
    forall i, j | 0 <= i < j < |s| - 1
      ensures s[1..][i] != s[1..][j]
    {
      assert s[1..][i] == s[i + 1] && s[1..][j] == s[j + 1];
    }
    forall j | 0 <= j < |s| - 1
      ensures s[1..][j] != s[0]
    {
      assert s[1..][j] == s[j + 1];
    }
  }

  lemma InHeadOrTail<T>(s: seq<T>, x: T)
    requires |s| > 0
    ensures x in s <==> x == s[0] || x in s[1..]
  {
    assert s == [s[0]] + s[1..];
  }

  /** A sequence is duplicate-free exactly when no value occurs in it twice. */
  lemma {:induction false} NoDupMultiset<T>(s: seq<T>)
    ensures NoDup(s) <==> forall x :: multiset(s)[x] <= 1
  {
    if NoDup(s) {
      NoDupCounts(s);
    } else {
      var i, j :| 0 <= i < j < |s| && s[i] == s[j];
      assert s == s[..j] + [s[j]] + s[j + 1..];
      assert s[i] in multiset(s[..j]);
      assert multiset(s)[s[j]] >= 2;
    }
  }

  lemma {:induction false} NoDupCounts<T>(s: seq<T>)
    requires NoDup(s)
    ensures forall x :: multiset(s)[x] <= 1
  {
    if |s| > 0 {
      var init := s[..|s| - 1];
      var y := s[|s| - 1];
      assert NoDup(init);
      NoDupCounts(init);
      assert s == init + [y];
      assert y !in multiset(init);
    }
  }

  /** The sequences of `ss` one after another. */
  function Flatten<T>(ss: seq<seq<T>>): (r: seq<T>)
    decreases |ss|
  {
    if |ss| == 0 then [] else ss[0] + Flatten(ss[1..])
  }

  /** An element of the flattened sequence is an element of one of the pieces, and conversely. */
  lemma {:induction false} InFlatten<T>(ss: seq<seq<T>>, x: T)
    ensures x in Flatten(ss) <==> exists i | 0 <= i < |ss| :: x in ss[i]
    decreases |ss|
  {
    if |ss| > 0 {
      InFlatten(ss[1..], x);
      if x in Flatten(ss[1..]) {
        var i :| 0 <= i < |ss[1..]| && x in ss[1..][i];
        assert x in ss[i + 1];
      }
      if exists i | 0 <= i < |ss| :: x in ss[i] {
        var i :| 0 <= i < |ss| && x in ss[i];
        if i > 0 {
          assert x in ss[1..][i - 1];
        }
      }
    }
  }

  /** The values of the `Some` entries of `s`, in order. */
  function Somes<T>(s: seq<Option<T>>): (r: seq<T>)
    decreases |s|
  {
    if |s| == 0 then []
    else (if s[0].Some? then [s[0].value] else []) + Somes(s[1..])
  }

  lemma {:induction false} InSomes<T>(s: seq<Option<T>>, x: T)
    ensures x in Somes(s) <==> exists i | 0 <= i < |s| :: s[i] == Some(x)
    decreases |s|
  {
    if |s| > 0 {
      InSomes(s[1..], x);
      if x in Somes(s[1..]) {
        var i :| 0 <= i < |s[1..]| && s[1..][i] == Some(x);
        assert s[i + 1] == Some(x);
      }
      if exists i | 0 <= i < |s| :: s[i] == Some(x) {
        var i :| 0 <= i < |s| && s[i] == Some(x);
        if i > 0 {
          assert s[1..][i - 1] == Some(x);
        }
      }
    }
  }

  /** The sum of `f` over `s`, added up from the left. */
  function Sum<T>(s: seq<T>, f: T -> nat): nat {
    if |s| == 0 then 0 else Sum(s[..|s| - 1], f) + f(s[|s| - 1])
  }

  lemma {:induction false} SumAppend<T>(a: seq<T>, b: seq<T>, f: T -> nat)
    ensures Sum(a + b, f) == Sum(a, f) + Sum(b, f)
    decreases |b|
  {
    if |b| == 0 {
      assert a + b == a;
    } else {
      var n := |b| - 1;
      assert (a + b)[..|a + b| - 1] == a + b[..n];
      SumAppend(a, b[..n], f);
    }
  }

  /** Taking the element at `i` out of `t` takes away exactly its value. */
  lemma SumRemove<T>(t: seq<T>, i: nat, f: T -> nat)
    requires i < |t|
    ensures Sum(t, f) == Sum(t[..i] + t[i + 1..], f) + f(t[i])
  {
    var a, x, b := t[..i], t[i], t[i + 1..];
    assert t == (a + [x]) + b;
    SumAppend(a + [x], b, f);
    assert (a + [x])[..|a|] == a;
    SumAppend(a, b, f);
  }
}
