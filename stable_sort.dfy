/**
 * `Array.prototype.sort(cmp)` with a comparator `(a, b) => key(a) - key(b)`:
 * a stable sort by an integer key.  The dashboard sorts the filtered issues
 * by start date and the per-author totals by descending value this way.
 */
module StableSort {
  predicate SortedBy<T>(s: seq<T>, key: T -> int) {
    forall i, j :: 0 <= i < j < |s| ==> key(s[i]) <= key(s[j])
  }

  /** Places `x` after every element at the end of `s` whose key is greater than `x`'s. */
  function Insert<T>(x: T, s: seq<T>, key: T -> int): (r: seq<T>)
    ensures |r| == |s| + 1
    decreases |s|
  {
    if s == [] || key(s[|s| - 1]) <= key(x) then s + [x]
    else
      assert s == s[..|s| - 1] + [s[|s| - 1]];
      Insert(x, s[..|s| - 1], key) + [s[|s| - 1]]
  }

  /** The stable sort of `s` by `key`: insertion sort, one element at a time from the left. */
  function SortByKey<T>(s: seq<T>, key: T -> int): (r: seq<T>)
    ensures |r| == |s|
    decreases |s|
  {
    if s == [] then []
    else
      assert s == s[..|s| - 1] + [s[|s| - 1]];
      Insert(s[|s| - 1], SortByKey(s[..|s| - 1], key), key)
  }

  /** Insertion adds exactly `x` to the elements. */
  lemma {:induction false} InsertPermutes<T>(x: T, s: seq<T>, key: T -> int)
    ensures multiset(Insert(x, s, key)) == multiset(s) + multiset{x}
    decreases |s|
  {
    if !(s == [] || key(s[|s| - 1]) <= key(x)) {
      var init, last := s[..|s| - 1], s[|s| - 1];
      InsertPermutes(x, init, key);
      assert s == init + [last];
    }
  }

  /** The stable sort is a permutation of its input. */
  lemma {:induction false} SortByKeyPermutes<T>(s: seq<T>, key: T -> int)
    ensures multiset(SortByKey(s, key)) == multiset(s)
    decreases |s|
  {
    if s != [] {
      var init, last := s[..|s| - 1], s[|s| - 1];
      SortByKeyPermutes(init, key);
      InsertPermutes(last, SortByKey(init, key), key);
      assert s == init + [last];
    }
  }

  /** The elements of `s` whose key is `k`, in order. */
  function WithKey<T>(s: seq<T>, key: T -> int, k: int): seq<T> {
    if s == [] then []
    else (if key(s[0]) == k then [s[0]] else []) + WithKey(s[1..], key, k)
  }

  lemma {:induction false} WithKeyAppend<T>(s: seq<T>, t: seq<T>, key: T -> int, k: int)
    ensures WithKey(s + t, key, k) == WithKey(s, key, k) + WithKey(t, key, k)
    decreases |s|
  {
    if s != [] {
      assert (s + t)[0] == s[0] && (s + t)[1..] == s[1..] + t;
      WithKeyAppend(s[1..], t, key, k);
    } else {
      assert s + t == t;
    }
  }

  lemma {:induction false} InsertKeepsSorted<T>(x: T, s: seq<T>, key: T -> int)
    requires SortedBy(s, key)
    ensures SortedBy(Insert(x, s, key), key)
    decreases |s|
  {
    if !(s == [] || key(s[|s| - 1]) <= key(x)) {
      var init, last := s[..|s| - 1], s[|s| - 1];
      InsertKeepsSorted(x, init, key);
      var r := Insert(x, init, key);
      InsertPermutes(x, init, key);
      forall y | y in r ensures key(y) <= key(last) {
        assert y in multiset(r);
        if y != x {
          assert y in init;
        }
      }
      assert forall i :: 0 <= i < |r| ==> r[i] in r;
    }
  }

  /** The stable sort's result is sorted by the key. */
  lemma {:induction false} SortByKeySorted<T>(s: seq<T>, key: T -> int)
    ensures SortedBy(SortByKey(s, key), key)
    decreases |s|
  {
    if s != [] {
      SortByKeySorted(s[..|s| - 1], key);
      InsertKeepsSorted(s[|s| - 1], SortByKey(s[..|s| - 1], key), key);
    }
  }

  lemma {:induction false} InsertWithKey<T>(x: T, s: seq<T>, key: T -> int, k: int)
    requires SortedBy(s, key)
    ensures WithKey(Insert(x, s, key), key, k) == WithKey(s, key, k) + (if key(x) == k then [x] else [])
    decreases |s|
  {
    if s == [] || key(s[|s| - 1]) <= key(x) {
      WithKeyAppend(s, [x], key, k);
    } else {
      var init, last := s[..|s| - 1], s[|s| - 1];
      assert s == init + [last];
      InsertWithKey(x, init, key, k);
      WithKeyAppend(Insert(x, init, key), [last], key, k);
      WithKeyAppend(init, [last], key, k);
    }
  }

  /**
   * Stability: for every key value, the elements carrying it appear in the
   * sorted result in the same order as in the input.
   */
  lemma {:induction false} SortByKeyStable<T>(s: seq<T>, key: T -> int, k: int)
    ensures WithKey(SortByKey(s, key), key, k) == WithKey(s, key, k)
    decreases |s|
  {
    if s != [] {
      var init, last := s[..|s| - 1], s[|s| - 1];
      assert s == init + [last];
      SortByKeySorted(init, key);
      InsertWithKey(last, SortByKey(init, key), key, k);
      SortByKeyStable(init, key, k);
      WithKeyAppend(init, [last], key, k);
    }
  }

  /** The elements of key `k` are those of `s` with that key. */
  lemma {:induction false} WithKeyMembers<T>(s: seq<T>, key: T -> int, k: int)
    ensures forall x :: x in WithKey(s, key, k) <==> x in s && key(x) == k
    decreases |s|
  {
    if s != [] {
      WithKeyMembers(s[1..], key, k);
      assert s == [s[0]] + s[1..];
    }
  }

  /** A lower bound on the rank of every element of `s` bounds its elements of any one key. */
  lemma {:induction false} WithKeyAbove<T>(s: seq<T>, key: T -> int, k: int, rank: T -> int, b: int)
    requires forall i :: 0 <= i < |s| ==> rank(s[i]) > b
    ensures forall i :: 0 <= i < |WithKey(s, key, k)| ==> rank(WithKey(s, key, k)[i]) > b
    decreases |s|
  {
    if s != [] {
      assert forall i :: 0 <= i < |s[1..]| ==> s[1..][i] == s[i + 1];
      WithKeyAbove(s[1..], key, k, rank, b);
    }
  }

  /** A strict order of `s` by `rank` holds among its elements of any one key. */
  lemma {:induction false} WithKeyRanked<T>(s: seq<T>, key: T -> int, k: int, rank: T -> int)
    requires forall i, j :: 0 <= i < j < |s| ==> rank(s[i]) < rank(s[j])
    ensures forall i, j :: 0 <= i < j < |WithKey(s, key, k)| ==> rank(WithKey(s, key, k)[i]) < rank(WithKey(s, key, k)[j])
    decreases |s|
  {
    if s != [] {
      var w, rest := WithKey(s, key, k), WithKey(s[1..], key, k);
      assert forall i, j :: 0 <= i < j < |s[1..]| ==> s[1..][i] == s[i + 1] && s[1..][j] == s[j + 1];
      WithKeyRanked(s[1..], key, k, rank);
      WithKeyMembers(s[1..], key, k);
      if key(s[0]) == k {
        WithKeyAbove(s[1..], key, k, rank, rank(s[0]));
        assert forall j :: 0 < j < |w| ==> w[j] == rest[j - 1];
      }
    }
  }

  /** Ranked elements of key `k`: `rank` increases along `WithKey(r, key, k)`. */
  ghost predicate KeyRanked<T>(r: seq<T>, key: T -> int, k: int, rank: T -> int) {
    forall i, j :: 0 <= i < j < |WithKey(r, key, k)| ==> rank(WithKey(r, key, k)[i]) < rank(WithKey(r, key, k)[j])
  }

  /** Dropping the first element keeps the ranking of the rest. */
  lemma KeyRankedTail<T>(r: seq<T>, key: T -> int, k: int, rank: T -> int)
    requires r != [] && KeyRanked(r, key, k, rank)
    ensures KeyRanked(r[1..], key, k, rank)
  {
    var w, rest := WithKey(r, key, k), WithKey(r[1..], key, k);
    var pre := if key(r[0]) == k then 1 else 0;
    assert w == (if key(r[0]) == k then [r[0]] else []) + rest;
    forall i, j | 0 <= i < j < |rest| ensures rank(rest[i]) < rank(rest[j]) {
      assert w[i + pre] == rest[i] && w[j + pre] == rest[j];
    }
  }

  /** A first element of key `k` is ranked below every later element of key `k`. */
  lemma HeadRankedFirst<T>(r: seq<T>, key: T -> int, k: int, rank: T -> int, j: int)
    requires 0 < j < |r| && key(r[0]) == k && key(r[j]) == k && KeyRanked(r, key, k, rank)
    ensures rank(r[0]) < rank(r[j])
  {
    var w, rest := WithKey(r, key, k), WithKey(r[1..], key, k);
    assert w == [r[0]] + rest;
    WithKeyMembers(r[1..], key, k);
    assert r[j] == r[1..][j - 1];
    assert r[j] in rest;
    var q :| 0 <= q < |rest| && rest[q] == r[j];
    assert w[0] == r[0] && w[q + 1] == r[j];
  }

  /** Two elements of key `k` in `r`, in that order, are ranked in that order when `r`'s elements of key `k` are. */
  lemma {:induction false} TiesRanked<T>(r: seq<T>, key: T -> int, k: int, rank: T -> int)
    requires KeyRanked(r, key, k, rank)
    ensures forall i, j :: 0 <= i < j < |r| && key(r[i]) == k && key(r[j]) == k ==> rank(r[i]) < rank(r[j])
    decreases |r|
  {
    if r != [] {
      KeyRankedTail(r, key, k, rank);
      TiesRanked(r[1..], key, k, rank);
      forall i, j | 0 <= i < j < |r| && key(r[i]) == k && key(r[j]) == k ensures rank(r[i]) < rank(r[j]) {
        if i > 0 {
          assert r[i] == r[1..][i - 1] && r[j] == r[1..][j - 1];
        } else {
          HeadRankedFirst(r, key, k, rank, j);
        }
      }
    }
  }

  /**
   * Stability, stated through a ranking: when the input is strictly ordered
   * by `rank`, elements of equal key in a stably sorted copy keep that order.
   */
  lemma TiesKeepRank<T>(s: seq<T>, r: seq<T>, key: T -> int, rank: T -> int)
    requires forall i, j :: 0 <= i < j < |s| ==> rank(s[i]) < rank(s[j])
    requires forall k :: WithKey(r, key, k) == WithKey(s, key, k)
    ensures forall i, j :: 0 <= i < j < |r| && key(r[i]) == key(r[j]) ==> rank(r[i]) < rank(r[j])
  {
    forall i, j | 0 <= i < j < |r| && key(r[i]) == key(r[j]) ensures rank(r[i]) < rank(r[j]) {
      var k := key(r[i]);
      WithKeyRanked(s, key, k, rank);
      TiesRanked(r, key, k, rank);
    }
  }

  /**
   * `x` lands at position `j` of `s` when every key from `j` on is larger than
   * `x`'s and the key just before `j` is not.
   */
  lemma {:induction false} InsertPosition<T>(x: T, s: seq<T>, j: int, key: T -> int)
    requires 0 <= j <= |s|
    requires forall k :: j <= k < |s| ==> key(s[k]) > key(x)
    requires j == 0 || key(s[j - 1]) <= key(x)
    ensures Insert(x, s, key) == s[..j] + [x] + s[j..]
    decreases |s|
  {
    if j < |s| {
      var init := s[..|s| - 1];
      InsertPosition(x, init, j, key);
      assert init[..j] == s[..j];
      assert init[j..] + [s[|s| - 1]] == s[j..];
    } else {
      assert s[..j] == s;
    }
  }

  /** Sorting one more element of a prefix inserts it into the sorted shorter prefix. */
  lemma SortByKeyPrefix<T>(s: seq<T>, i: int, key: T -> int)
    requires 0 <= i < |s|
    ensures SortByKey(s[..i + 1], key) == Insert(s[i], SortByKey(s[..i], key), key)
  {
    var p := s[..i + 1];
    assert p[..|p| - 1] == s[..i];
  }

  /** Moves `a[i]` left past the larger keys before it: one insertion-sort step. */
  method InsertAt<T(==)>(a: array<T>, i: int, key: T -> int)
    requires 0 <= i < a.Length
    modifies a
    ensures a[..i + 1] == Insert(old(a[i]), old(a[..i]), key)
    ensures a[i + 1..] == old(a[i + 1..])
  {
    var x := a[i];
    ghost var sorted := a[..i];
    var j := i;
    while j > 0 && key(a[j - 1]) > key(x)
      invariant 0 <= j <= i
      invariant forall k :: 0 <= k < j ==> a[k] == sorted[k]
      invariant forall k :: j < k <= i ==> a[k] == sorted[k - 1]
      invariant forall k :: i < k < a.Length ==> a[k] == old(a[k])
      invariant forall k :: j <= k < i ==> key(sorted[k]) > key(x)
    {
      a[j] := a[j - 1];
      j := j - 1;
    }
    InsertPosition(x, sorted, j, key);
    a[j] := x;
    ghost var want := sorted[..j] + [x] + sorted[j..];
    forall k | 0 <= k <= i ensures a[k] == want[k] {
      if k > j {
        assert want[k] == sorted[k - 1];
      }
    }
    assert a[..i + 1] == want;
  }

  /** Sorts `a` in place, stably, by `key`: the in-place insertion sort behind the comparator sort. */
  method SortInPlace<T(==)>(a: array<T>, key: T -> int)
    modifies a
    ensures a[..] == SortByKey(old(a[..]), key)
  {
    ghost var input := a[..];
    var i := 0;
    while i < a.Length
      invariant 0 <= i <= a.Length
      invariant a[..i] == SortByKey(input[..i], key)
      invariant a[i..] == input[i..]
    {
      ghost var before := a[..];
      assert before[i] == input[i] && before[..i] == a[..i];
      InsertAt(a, i, key);
      SortByKeyPrefix(input, i, key);
      assert a[i + 1..] == before[i + 1..] == before[i..][1..];
      i := i + 1;
    }
    assert input[..a.Length] == input;
  }

  /**
   * `s` copied into a fresh array and sorted there: sorted by `key`, a
   * permutation of `s`, and with the elements of each key in their order in `s`.
   */
  method SortedCopy<T(==)>(s: seq<T>, key: T -> int) returns (r: seq<T>)
    ensures r == SortByKey(s, key)
    ensures SortedBy(r, key)
    ensures multiset(r) == multiset(s)
    ensures forall k :: WithKey(r, key, k) == WithKey(s, key, k)
  {
    var a := new T[|s|](i requires 0 <= i < |s| => s[i]);
    assert a[..] == s;
    SortInPlace(a, key);
    r := a[..];
    SortByKeySorted(s, key);
    SortByKeyPermutes(s, key);
    forall k ensures WithKey(r, key, k) == WithKey(s, key, k) {
      SortByKeyStable(s, key, k);
    }
  }
}
