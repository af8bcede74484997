/** `Array.prototype.filter`, and `map` followed by `filter`, over sequences. */
module Seqs {
  import opened Options

  /** `a` is `b` with some elements left out: the same elements in the same relative order. */
  predicate IsSubsequence<T(==)>(a: seq<T>, b: seq<T>)
    decreases |b|
  {
    if a == [] then true
    else if b == [] then false
    else (a[0] == b[0] && IsSubsequence(a[1..], b[1..])) || IsSubsequence(a, b[1..])
  }

  /** Putting one element in front of both sides keeps a subsequence. */
  lemma SubsequenceCons<T>(x: T, a: seq<T>, b: seq<T>)
    requires IsSubsequence(a, b)
    ensures IsSubsequence([x] + a, [x] + b) && IsSubsequence(a, [x] + b)
  {
    assert ([x] + a)[1..] == a && ([x] + b)[1..] == b;
  }

  /** The elements of `s` that satisfy `p`, in their original order. */
  function Filter<T(==)>(s: seq<T>, p: T -> bool): (r: seq<T>)
    ensures |r| <= |s|
  {
    if s == [] then []
    else
      var rest := Filter(s[1..], p);
      if p(s[0]) then [s[0]] + rest else rest
  }

  /**
   * The filter keeps exactly the elements that satisfy `p`, in their order:
   * its result is a subsequence of `s`, everything in it satisfies `p`, every
   * element of `s` that satisfies `p` is in it, and as often as in `s`.
   */
  lemma {:induction false} FilterSpec<T>(s: seq<T>, p: T -> bool)
    ensures IsSubsequence(Filter(s, p), s)
    ensures forall i :: 0 <= i < |Filter(s, p)| ==> Filter(s, p)[i] in s && p(Filter(s, p)[i])
    ensures forall i :: 0 <= i < |s| && p(s[i]) ==> s[i] in Filter(s, p)
    ensures forall x :: multiset(Filter(s, p))[x] == if p(x) then multiset(s)[x] else 0
    decreases |s|
  {
    if s != [] {
      var rest := Filter(s[1..], p);
      FilterSpec(s[1..], p);
      SubsequenceCons(s[0], rest, s[1..]);
      assert [s[0]] + s[1..] == s;
      assert multiset(s) == multiset{s[0]} + multiset(s[1..]);
      assert multiset(Filter(s, p)) == (if p(s[0]) then multiset{s[0]} else multiset{}) + multiset(rest);
      forall i | 0 <= i < |s| && p(s[i]) ensures s[i] in Filter(s, p) {
        if i > 0 {
          assert s[i] == s[1..][i - 1];
        }
      }
      forall i | 0 <= i < |Filter(s, p)| ensures Filter(s, p)[i] in s && p(Filter(s, p)[i]) {
        if p(s[0]) && i > 0 {
          assert Filter(s, p)[i] == rest[i - 1];
        }
      }
    }
  }

  /** Filtering works piece by piece, so it keeps the relative order of what it keeps. */
  lemma {:induction false} FilterAppend<T>(s: seq<T>, t: seq<T>, p: T -> bool)
    ensures Filter(s + t, p) == Filter(s, p) + Filter(t, p)
    decreases |s|
  {
    if s != [] {
      assert (s + t)[0] == s[0] && (s + t)[1..] == s[1..] + t;
      FilterAppend(s[1..], t, p);
    } else {
      assert s + t == t;
    }
  }

  /** A predicate every element satisfies filters nothing out. */
  lemma {:induction false} FilterKeepsAll<T>(s: seq<T>, p: T -> bool)
    requires forall i :: 0 <= i < |s| ==> p(s[i])
    ensures Filter(s, p) == s
    decreases |s|
  {
    if s != [] {
      FilterKeepsAll(s[1..], p);
      assert [s[0]] + s[1..] == s;
    }
  }

  /** `s.map(f).filter(...)` where `f` gives `None` for the elements the filter drops. */
  function FilterMap<T, U>(s: seq<T>, f: T -> Option<U>): (r: seq<U>)
    ensures |r| <= |s|
  {
    if s == [] then []
    else
      match f(s[0])
      case None => FilterMap(s[1..], f)
      case Some(u) => [u] + FilterMap(s[1..], f)
  }

  /** Some element of `s` maps to `u`. */
  ghost predicate MapsTo<T, U>(s: seq<T>, f: T -> Option<U>, u: U) {
    exists j :: 0 <= j < |s| && f(s[j]) == Some(u)
  }

  /** `s.map(f)`. */
  function Mapped<T, U>(s: seq<T>, f: T -> U): (r: seq<U>)
    ensures |r| == |s| && forall j :: 0 <= j < |s| ==> r[j] == f(s[j])
  {
    seq(|s|, j requires 0 <= j < |s| => f(s[j]))
  }

  /** Every value wrapped as present. */
  function Wrapped<U>(s: seq<U>): (r: seq<Option<U>>)
    ensures |r| == |s| && forall i :: 0 <= i < |s| ==> r[i] == Some(s[i])
  {
    seq(|s|, i requires 0 <= i < |s| => Some(s[i]))
  }

  predicate IsSome<U>(o: Option<U>) {
    o.Some?
  }

  /** The mapped sequence of `s` after its first element. */
  lemma MappedTail<T, U>(s: seq<T>, f: T -> U)
    requires s != []
    ensures Mapped(s, f) == [f(s[0])] + Mapped(s[1..], f)
  {
    assert Mapped(s, f)[1..] == Mapped(s[1..], f);
  }

  /** `FilterMap` is the filter of the present values of `s.map(f)`, which are then unwrapped. */
  lemma {:induction false} FilterMapIsFilter<T, U>(s: seq<T>, f: T -> Option<U>)
    ensures Wrapped(FilterMap(s, f)) == Filter(Mapped(s, f), IsSome)
    decreases |s|
  {
    if s != [] {
      var rest := FilterMap(s[1..], f);
      FilterMapIsFilter(s[1..], f);
      MappedTail(s, f);
      var m := Mapped(s, f);
      assert m[0] == f(s[0]) && m[1..] == Mapped(s[1..], f);
      if f(s[0]).Some? {
        assert Wrapped([f(s[0]).value] + rest) == [f(s[0])] + Wrapped(rest);
      }
    }
  }

  /** Wrapping keeps the count of every value. */
  lemma {:induction false} WrappedCount<U>(s: seq<U>, u: U)
    ensures multiset(Wrapped(s))[Some(u)] == multiset(s)[u]
    decreases |s|
  {
    if s != [] {
      WrappedCount(s[1..], u);
      assert Wrapped(s) == [Some(s[0])] + Wrapped(s[1..]);
      assert s == [s[0]] + s[1..];
    }
  }

  /**
   * Everything kept comes from an element, and every element that maps to a
   * value is kept; the kept values follow the order of `s` and each occurs as
   * often as an element maps to it.
   */
  lemma FilterMapSpec<T, U>(s: seq<T>, f: T -> Option<U>)
    ensures forall i :: 0 <= i < |FilterMap(s, f)| ==> MapsTo(s, f, FilterMap(s, f)[i])
    ensures forall j :: 0 <= j < |s| && f(s[j]).Some? ==> f(s[j]).value in FilterMap(s, f)
    ensures IsSubsequence(Wrapped(FilterMap(s, f)), Mapped(s, f))
    ensures forall u :: multiset(FilterMap(s, f))[u] == multiset(Mapped(s, f))[Some(u)]
  {
    FilterMapOrder(s, f);
    FilterMapCounts(s, f);
    FilterMapFrom(s, f);
    FilterMapKeeps(s, f);
  }

  /** Everything kept comes from an element. */
  lemma FilterMapFrom<T, U>(s: seq<T>, f: T -> Option<U>)
    ensures forall i :: 0 <= i < |FilterMap(s, f)| ==> MapsTo(s, f, FilterMap(s, f)[i])
  {
    FilterMapCounts(s, f);
    var r, m := FilterMap(s, f), Mapped(s, f);
    forall i | 0 <= i < |r| ensures MapsTo(s, f, r[i]) {
      assert multiset(r)[r[i]] > 0;
      assert Some(r[i]) in multiset(m);
      var j :| 0 <= j < |m| && m[j] == Some(r[i]);
    }
  }

  /** Every element that maps to a value is kept. */
  lemma FilterMapKeeps<T, U>(s: seq<T>, f: T -> Option<U>)
    ensures forall j :: 0 <= j < |s| && f(s[j]).Some? ==> f(s[j]).value in FilterMap(s, f)
  {
    var r, m := FilterMap(s, f), Mapped(s, f);
    forall j | 0 <= j < |s| && f(s[j]).Some? ensures f(s[j]).value in r {
      var v := f(s[j]).value;
      assert m[j] == Some(v) && m[j] in multiset(m);
      assert multiset(m)[Some(v)] > 0;
      FilterMapCount(s, f, v);
    }
  }

  /** The kept values follow the order of `s`. */
  lemma FilterMapOrder<T, U>(s: seq<T>, f: T -> Option<U>)
    ensures IsSubsequence(Wrapped(FilterMap(s, f)), Mapped(s, f))
  {
    FilterMapIsFilter(s, f);
    FilterSpec(Mapped(s, f), IsSome);
  }

  /** Each kept value occurs as often as an element maps to it. */
  lemma FilterMapCounts<T, U>(s: seq<T>, f: T -> Option<U>)
    ensures forall u :: multiset(FilterMap(s, f))[u] == multiset(Mapped(s, f))[Some(u)]
  {
    forall u ensures multiset(FilterMap(s, f))[u] == multiset(Mapped(s, f))[Some(u)] {
      FilterMapCount(s, f, u);
    }
  }

  lemma FilterMapCount<T, U>(s: seq<T>, f: T -> Option<U>, u: U)
    ensures multiset(FilterMap(s, f))[u] == multiset(Mapped(s, f))[Some(u)]
  {
    var r, m := FilterMap(s, f), Mapped(s, f);
    FilterMapIsFilter(s, f);
    FilterSpec(m, IsSome);
    WrappedCount(r, u);
    assert IsSome(Some(u));
  }

  function Last<T>(s: seq<T>): T
    requires s != []
  {
    s[|s| - 1]
  }

  function Init<T>(s: seq<T>): seq<T>
    requires s != []
  {
    s[..|s| - 1]
  }

  lemma AppendAssociates<T>(a: seq<T>, b: seq<T>, c: seq<T>)
    ensures a + (b + c) == (a + b) + c
  {}
}
