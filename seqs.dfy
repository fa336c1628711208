/** Sequence comprehensions used by the screens: `Array.prototype.filter`,
    `[...new Set(xs)]` and the concatenation of a list of lists. */
module Seqs {

  /** `a` can be obtained from `b` by deleting elements: `a` keeps the
      relative order of `b`. */
  predicate IsSubsequence<T(==,!new)>(a: seq<T>, b: seq<T>)
    decreases |b|
  {
    if a == [] then true
    else if b == [] then false
    else (a[0] == b[0] && IsSubsequence(a[1..], b[1..])) || IsSubsequence(a, b[1..])
  }

  predicate NoDuplicates<T(==,!new)>(s: seq<T>) {
    forall i, j :: 0 <= i < j < |s| ==> s[i] != s[j]
  }

  /** `s.filter(p)`: the elements of `s` that satisfy `p`, in their order,
      each as often as it occurs in `s`. */
  function Filter<T(==,!new)>(s: seq<T>, p: T -> bool): (r: seq<T>)
    ensures |r| <= |s|
    ensures IsSubsequence(r, s)
    ensures forall x :: x in r <==> x in s && p(x)
    ensures forall x :: multiset(r)[x] == if p(x) then multiset(s)[x] else 0
  {
    if s == [] then []
    else
      var rest := Filter(s[1..], p);
      assert s == [s[0]] + s[1..];
      if p(s[0]) then [s[0]] + rest else rest
  }

  lemma {:induction false} FilterAllKept<T(!new)>(s: seq<T>, p: T -> bool)
    requires forall i :: 0 <= i < |s| ==> p(s[i])
    ensures Filter(s, p) == s
  {
    if s != [] {
      FilterAllKept(s[1..], p);
    }
  }

  /** Filtering keeps a list free of duplicates. */
  lemma {:induction false} FilterNoDuplicates<T(!new)>(s: seq<T>, p: T -> bool)
    requires NoDuplicates(s)
    ensures NoDuplicates(Filter(s, p))
  {
    if s != [] {
      assert NoDuplicates(s[1..]) by {
        forall i, j | 0 <= i < j < |s[1..]| ensures s[1..][i] != s[1..][j] {
          assert s[1..][i] == s[i + 1] && s[1..][j] == s[j + 1];
        }
      }
      FilterNoDuplicates(s[1..], p);
      assert s[0] !in s[1..] by {
        forall k | 0 <= k < |s[1..]| ensures s[1..][k] != s[0] {
          assert s[1..][k] == s[k + 1];
        }
      }
    }
  }

  /** The elements of `s` not in `seen`, each once, in order of first
      occurrence (the iteration order of a JavaScript `Set`). */
  function DistinctFrom<T(==,!new)>(s: seq<T>, seen: set<T>): (r: seq<T>)
    ensures NoDuplicates(r)
    ensures IsSubsequence(r, s)
    ensures forall x :: x in r <==> x in s && x !in seen
  {
    if s == [] then []
    else if s[0] in seen then DistinctFrom(s[1..], seen)
    else [s[0]] + DistinctFrom(s[1..], seen + {s[0]})
  }

  /** `[...new Set(s)]`. */
  function Distinct<T(==,!new)>(s: seq<T>): (r: seq<T>)
    ensures NoDuplicates(r)
    ensures IsSubsequence(r, s)
    ensures forall x :: x in r <==> x in s
  {
    DistinctFrom(s, {})
  }

  /** The position of the first `x` in `s`. */
  function IndexOf<T(==)>(s: seq<T>, x: T): (k: nat)
    requires x in s
    ensures k < |s| && s[k] == x && x !in s[..k]
  {
    if s[0] == x then 0
    else
      var k := IndexOf(s[1..], x) + 1;
      assert s[..k] == [s[0]] + s[1..][..k - 1];
      k
  }

  /** Every element of `r` occurs in `s`, and the elements of `r` come in
      the order of their first occurrence in `s`. */
  predicate InFirstOccurrenceOrder<T(==)>(r: seq<T>, s: seq<T>) {
    && (forall x :: x in r ==> x in s)
    && forall i, j :: 0 <= i < j < |r| ==> r[i] in s && r[j] in s && IndexOf(s, r[i]) < IndexOf(s, r[j])
  }

  lemma IndexOfTail<T>(s: seq<T>, x: T)
    requires x in s && x != s[0]
    ensures x in s[1..] && IndexOf(s, x) == IndexOf(s[1..], x) + 1
  {
  }

  /** `DistinctFrom` lists its elements in first-occurrence order. */
  lemma {:induction false} DistinctFromOrder<T(!new)>(s: seq<T>, seen: set<T>)
    ensures InFirstOccurrenceOrder(DistinctFrom(s, seen), s)
  {
    if s != [] {
      var seen' := if s[0] in seen then seen else seen + {s[0]};
      var rest := DistinctFrom(s[1..], seen');
      DistinctFromOrder(s[1..], seen');
      assert s[0] !in rest;
      if s[0] in seen {
        ShiftOrder(rest, s);
      } else {
        HeadOrder(rest, s);
      }
    }
  }

  /** Order after the head of `s` is order in `s`, for elements other than the head. */
  lemma ShiftOrder<T>(r: seq<T>, s: seq<T>)
    requires s != [] && s[0] !in r && InFirstOccurrenceOrder(r, s[1..])
    ensures InFirstOccurrenceOrder(r, s)
  {
    forall i, j | 0 <= i < j < |r|
      ensures r[i] in s && r[j] in s && IndexOf(s, r[i]) < IndexOf(s, r[j])
    {
      InTail(s, r[i]);
      InTail(s, r[j]);
      IndexOfTail(s, r[i]);
      IndexOfTail(s, r[j]);
    }
  }

  lemma InTail<T>(s: seq<T>, x: T)
    requires s != [] && x in s[1..]
    ensures x in s
  {
    var k :| 0 <= k < |s[1..]| && s[1..][k] == x;
    assert s[k + 1] == x;
  }

  /** The head of `s` in front of elements ordered after it. */
  lemma HeadOrder<T>(r: seq<T>, s: seq<T>)
    requires s != [] && s[0] !in r && InFirstOccurrenceOrder(r, s[1..])
    ensures InFirstOccurrenceOrder([s[0]] + r, s)
  {
    ShiftOrder(r, s);
    var f := [s[0]] + r;
    forall i, j | 0 <= i < j < |f|
      ensures f[i] in s && f[j] in s && IndexOf(s, f[i]) < IndexOf(s, f[j])
    {
      assert f[j] == r[j - 1];
      if i > 0 {
        assert f[i] == r[i - 1];
      } else {
        IndexOfTail(s, f[j]);
      }
    }
  }

  /** `[...new Set(s)]` lists its elements in first-occurrence order. */
  lemma DistinctOrder<T(!new)>(s: seq<T>)
    ensures InFirstOccurrenceOrder(Distinct(s), s)
  {
    DistinctFromOrder(s, {});
  }

  /** Filtering keeps the first-occurrence order. */
  lemma {:induction false} FilterKeepsOrder<T(!new)>(r: seq<T>, p: T -> bool, s: seq<T>)
    requires InFirstOccurrenceOrder(r, s)
    ensures InFirstOccurrenceOrder(Filter(r, p), s)
  {
    if r != [] {
      OrderTail(r, s);
      FilterKeepsOrder(r[1..], p, s);
      if p(r[0]) {
        OrderCons(r, Filter(r[1..], p), s);
        assert Filter(r, p) == [r[0]] + Filter(r[1..], p);
      }
    }
  }

  lemma OrderTail<T>(r: seq<T>, s: seq<T>)
    requires r != [] && InFirstOccurrenceOrder(r, s)
    ensures InFirstOccurrenceOrder(r[1..], s)
  {
    forall i, j | 0 <= i < j < |r[1..]|
      ensures r[1..][i] in s && r[1..][j] in s && IndexOf(s, r[1..][i]) < IndexOf(s, r[1..][j])
    {
      assert r[1..][i] == r[i + 1] && r[1..][j] == r[j + 1];
    }
  }

  /** The head of `r` in front of ordered elements from its tail. */
  lemma OrderCons<T>(r: seq<T>, rest: seq<T>, s: seq<T>)
    requires r != [] && InFirstOccurrenceOrder(r, s) && InFirstOccurrenceOrder(rest, s)
    requires forall x :: x in rest ==> x in r[1..]
    ensures InFirstOccurrenceOrder([r[0]] + rest, s)
  {
    var f := [r[0]] + rest;
    forall i, j | 0 <= i < j < |f|
      ensures f[i] in s && f[j] in s && IndexOf(s, f[i]) < IndexOf(s, f[j])
    {
      assert f[j] == rest[j - 1];
      if i == 0 {
        assert f[j] in r[1..];
        var k :| 0 <= k < |r[1..]| && r[1..][k] == f[j];
        assert r[k + 1] == f[j];
      } else {
        assert f[i] == rest[i - 1];
      }
    }
  }

  function Flatten<T>(ss: seq<seq<T>>): seq<T> {
    if ss == [] then [] else ss[0] + Flatten(ss[1..])
  }
}
