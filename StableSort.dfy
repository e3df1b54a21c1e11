/** Stable sorting by a numeric key: what `Array.prototype.sort` does (it is
    required to be stable) when given the comparator `(a, b) => key(a) - key(b)`.
    SortBy is the specification, an insertion sort on sequences; SortInPlace
    sorts an array in place and is proved to produce it. StableSortAt
    characterises the k-th element of the result without mentioning the sort. */
module StableSort {

  ghost predicate SortedBy<T>(s: seq<T>, key: T -> real) {
    forall i, j :: 0 <= i < j < |s| ==> key(s[i]) <= key(s[j])
  }

  /** Inserts `x` after every element of `s` except the trailing ones whose key
      exceeds key(x): equal keys keep their order. */
  function Insert<T>(s: seq<T>, x: T, key: T -> real): (r: seq<T>)
    ensures |r| == |s| + 1
    decreases |s|
  {
    if s == [] || key(s[|s| - 1]) <= key(x) then s + [x]
    else Insert(s[..|s| - 1], x, key) + [s[|s| - 1]]
  }

  /** The stable sort of `s` by `key`, ascending. */
  function SortBy<T>(s: seq<T>, key: T -> real): (r: seq<T>)
    ensures |r| == |s|
  {
    if s == [] then []
    else Insert(SortBy(s[..|s| - 1], key), s[|s| - 1], key)
  }

  lemma {:induction false} InsertPermutes<T>(s: seq<T>, x: T, key: T -> real)
    ensures multiset(Insert(s, x, key)) == multiset(s) + multiset{x}
    decreases |s|
  {
    if s != [] && key(s[|s| - 1]) > key(x) {
      assert s == s[..|s| - 1] + [s[|s| - 1]];
      InsertPermutes(s[..|s| - 1], x, key);
    }
  }

  /** The stable sort is a permutation. */
  lemma {:induction false} SortByPermutes<T>(s: seq<T>, key: T -> real)
    ensures multiset(SortBy(s, key)) == multiset(s)
  {
    if s != [] {
      assert s == s[..|s| - 1] + [s[|s| - 1]];
      SortByPermutes(s[..|s| - 1], key);
      InsertPermutes(SortBy(s[..|s| - 1], key), s[|s| - 1], key);
    }
  }

  /** An element no smaller than any of a sorted sequence extends it sorted. */
  lemma SortedAppend<T>(s: seq<T>, y: T, key: T -> real)
    requires SortedBy(s, key)
    requires forall i :: 0 <= i < |s| ==> key(s[i]) <= key(y)
    ensures SortedBy(s + [y], key)
  {
    var t := s + [y];
    forall i, j | 0 <= i < j < |t| ensures key(t[i]) <= key(t[j]) {
      assert t[i] == s[i];
      if j < |s| {
        assert t[j] == s[j];
      }
    }
  }

  lemma {:induction false} InsertSorted<T>(s: seq<T>, x: T, key: T -> real)
    requires SortedBy(s, key)
    ensures SortedBy(Insert(s, x, key), key)
    decreases |s|
  {
    if s == [] || key(s[|s| - 1]) <= key(x) {
      forall i | 0 <= i < |s| ensures key(s[i]) <= key(x) {
        assert i == |s| - 1 || key(s[i]) <= key(s[|s| - 1]);
      }
      SortedAppend(s, x, key);
    } else {
      var init, last := s[..|s| - 1], s[|s| - 1];
      SortedInit(s, key);
      InsertSorted(init, x, key);
      InsertPermutes(init, x, key);
      var r := Insert(init, x, key);
      forall i | 0 <= i < |r| ensures key(r[i]) <= key(last) {
        assert r[i] in multiset(init) + multiset{x};
        if r[i] != x {
          var k :| 0 <= k < |init| && init[k] == r[i];
          assert init[k] == s[k];
        }
      }
      SortedAppend(r, last, key);
    }
  }

  /** The stable sort is sorted. */
  lemma {:induction false} SortBySorted<T>(s: seq<T>, key: T -> real)
    ensures SortedBy(SortBy(s, key), key)
  {
    if s != [] {
      SortBySorted(s[..|s| - 1], key);
      InsertSorted(SortBy(s[..|s| - 1], key), s[|s| - 1], key);
    }
  }

  /** The elements of `s` whose key is `v`, in their order in `s`. */
  function WithKey<T>(s: seq<T>, key: T -> real, v: real): (r: seq<T>)
    ensures forall y :: y in r ==> y in s && key(y) == v
  {
    if s == [] then []
    else
      var init := WithKey(s[..|s| - 1], key, v);
      assert forall y :: y in s[..|s| - 1] ==> y in s;
      if key(s[|s| - 1]) == v then init + [s[|s| - 1]] else init
  }

  /** How many elements of `s` have a key below `v`. */
  function CountBelow<T>(s: seq<T>, key: T -> real, v: real): nat {
    if s == [] then 0
    else CountBelow(s[..|s| - 1], key, v) + (if key(s[|s| - 1]) < v then 1 else 0)
  }

  /** How many elements of `s` have a key of at most `v`. */
  function CountAtMost<T>(s: seq<T>, key: T -> real, v: real): nat {
    if s == [] then 0
    else CountAtMost(s[..|s| - 1], key, v) + (if key(s[|s| - 1]) <= v then 1 else 0)
  }

  lemma AppendOne<T>(s: seq<T>, y: T, key: T -> real, v: real)
    ensures CountBelow(s + [y], key, v) == CountBelow(s, key, v) + (if key(y) < v then 1 else 0)
    ensures CountAtMost(s + [y], key, v) == CountAtMost(s, key, v) + (if key(y) <= v then 1 else 0)
    ensures WithKey(s + [y], key, v) == WithKey(s, key, v) + (if key(y) == v then [y] else [])
  {
    assert (s + [y])[..|s|] == s;
  }

  /** Inserting adds `x` to the counts, and to the end of its key's elements. */
  lemma {:induction false} InsertKeeps<T>(s: seq<T>, x: T, key: T -> real, v: real)
    ensures CountBelow(Insert(s, x, key), key, v) == CountBelow(s, key, v) + (if key(x) < v then 1 else 0)
    ensures CountAtMost(Insert(s, x, key), key, v) == CountAtMost(s, key, v) + (if key(x) <= v then 1 else 0)
    ensures WithKey(Insert(s, x, key), key, v) == WithKey(s, key, v) + (if key(x) == v then [x] else [])
    decreases |s|
  {
    if s == [] || key(s[|s| - 1]) <= key(x) {
      AppendOne(s, x, key, v);
    } else {
      var init, last := s[..|s| - 1], s[|s| - 1];
      assert s == init + [last];
      InsertKeeps(init, x, key, v);
      AppendOne(Insert(init, x, key), last, key, v);
      AppendOne(init, last, key, v);
    }
  }

  /** Sorting keeps the counts, and keeps the elements of each key in their
      original order: the sort is stable. */
  lemma {:induction false} SortByKeeps<T>(s: seq<T>, key: T -> real, v: real)
    ensures CountBelow(SortBy(s, key), key, v) == CountBelow(s, key, v)
    ensures CountAtMost(SortBy(s, key), key, v) == CountAtMost(s, key, v)
    ensures WithKey(SortBy(s, key), key, v) == WithKey(s, key, v)
  {
    if s != [] {
      var init, last := s[..|s| - 1], s[|s| - 1];
      assert s == init + [last];
      SortByKeeps(init, key, v);
      InsertKeeps(SortBy(init, key), last, key, v);
      AppendOne(init, last, key, v);
    }
  }

  lemma {:induction false} CountSplit<T>(s: seq<T>, key: T -> real, v: real)
    ensures CountAtMost(s, key, v) == CountBelow(s, key, v) + |WithKey(s, key, v)|
  {
    if s != [] {
      CountSplit(s[..|s| - 1], key, v);
    }
  }

  lemma {:induction false} CountAtMostAll<T>(s: seq<T>, key: T -> real, v: real)
    requires forall i :: 0 <= i < |s| ==> key(s[i]) <= v
    ensures CountAtMost(s, key, v) == |s|
  {
    if s != [] {
      CountAtMostAll(s[..|s| - 1], key, v);
    }
  }

  /** In a sorted sequence, the element at `k` is preceded by every element of
      smaller key, and is the (k - CountBelow)-th of the elements of its key. */
  lemma {:induction false} SortedAt<T>(t: seq<T>, key: T -> real, k: nat)
    requires SortedBy(t, key) && k < |t|
    ensures CountBelow(t, key, key(t[k])) <= k < CountAtMost(t, key, key(t[k]))
    ensures k - CountBelow(t, key, key(t[k])) < |WithKey(t, key, key(t[k]))|
    ensures WithKey(t, key, key(t[k]))[k - CountBelow(t, key, key(t[k]))] == t[k]
  {
    var v := key(t[k]);
    var init, last := t[..|t| - 1], t[|t| - 1];
    assert t == init + [last];
    SortedInit(t, key);
    AppendOne(init, last, key, v);
    if k == |t| - 1 {
      CountAtMostAll(init, key, v);
      CountSplit(init, key, v);
    } else {
      assert init[k] == t[k];
      assert key(last) >= v;
      SortedAt(init, key, k);
    }
  }

  /** A sorted sequence without its last element is sorted, and that element
      has the largest key. */
  lemma SortedInit<T>(t: seq<T>, key: T -> real)
    requires SortedBy(t, key) && t != []
    ensures SortedBy(t[..|t| - 1], key)
    ensures forall i :: 0 <= i < |t| - 1 ==> key(t[i]) <= key(t[|t| - 1])
  {
    var init := t[..|t| - 1];
    forall i, j | 0 <= i < j < |init| ensures key(init[i]) <= key(init[j]) {
      assert init[i] == t[i] && init[j] == t[j];
    }
  }


  /** The element at position k of the stable sort of `s`, described through `s`
      alone: with v its key, fewer than k + 1 elements of `s` have a key below v
      and more than k have a key of at most v, and it is, among the elements of
      key v in their order in `s`, the one at position k - CountBelow(s, key, v). */
  lemma StableSortAt<T>(s: seq<T>, key: T -> real, k: nat)
    requires k < |s|
    ensures var v := key(SortBy(s, key)[k]);
      && CountBelow(s, key, v) <= k < CountAtMost(s, key, v)
      && k - CountBelow(s, key, v) < |WithKey(s, key, v)|
      && SortBy(s, key)[k] == WithKey(s, key, v)[k - CountBelow(s, key, v)]
  {
    var t := SortBy(s, key);
    SortBySorted(s, key);
    SortedAt(t, key, k);
    SortByKeeps(s, key, key(t[k]));
  }

  /** `x` is the element a stable sort of `s` by `key` puts in the middle
      (at |s| / 2), described without sorting: with v its key, at most |s| / 2
      elements have a smaller key, more than |s| / 2 have a key of at most v,
      and among the elements of key v, in their order in `s`, x comes at the
      remaining offset. */
  ghost predicate StableMedian<T>(s: seq<T>, key: T -> real, x: T) {
    var v := key(x);
    && x in s
    && CountBelow(s, key, v) <= |s| / 2 < CountAtMost(s, key, v)
    && |s| / 2 - CountBelow(s, key, v) < |WithKey(s, key, v)|
    && x == WithKey(s, key, v)[|s| / 2 - CountBelow(s, key, v)]
  }

  /** The middle element of the stable sort is the stable median. */
  lemma MiddleIsStableMedian<T>(s: seq<T>, key: T -> real)
    requires s != []
    ensures StableMedian(s, key, SortBy(s, key)[|s| / 2])
  {
    StableSortAt(s, key, |s| / 2);
    var x := SortBy(s, key)[|s| / 2];
    assert x in WithKey(s, key, key(x));
  }

  /** Moves a[i] left past the elements before it whose key exceeds its own. */
  method InsertAt<T>(a: array<T>, i: nat, key: T -> real)
    requires i < a.Length
    modifies a
    ensures a[..i + 1] == Insert(old(a[..i]), old(a[i]), key)
    ensures a[i + 1..] == old(a[i + 1..])
  {
    var x := a[i];
    ghost var sorted := a[..i];
    var j := i;
    while j > 0 && key(a[j - 1]) > key(x)
      invariant 0 <= j <= i
      invariant forall k :: 0 <= k < j ==> a[k] == sorted[k]
      invariant forall k :: j < k <= i ==> a[k] == sorted[k - 1]
      invariant forall k :: i < k < a.Length ==> a[k] == old(a[k])
      invariant forall k :: j <= k < i ==> key(sorted[k]) > key(x)
    {
      a[j] := a[j - 1];
      j := j - 1;
    }
    a[j] := x;
    InsertSplit(sorted, x, key, j);
    InsertStop(sorted, x, key, j);
    InsertLayout(a[..i + 1], sorted, x, j);
  }

  /** Insertion passes over a tail of larger keys. */
  lemma {:induction false} InsertSplit<T>(s: seq<T>, x: T, key: T -> real, j: nat)
    requires j <= |s|
    requires forall k :: j <= k < |s| ==> key(s[k]) > key(x)
    ensures Insert(s, x, key) == Insert(s[..j], x, key) + s[j..]
    decreases |s|
  {
    if j == |s| {
      assert s[..j] == s && s[j..] == [];
    } else {
      var init, last := s[..|s| - 1], s[|s| - 1];
      InsertSplit(init, x, key, j);
      assert init[..j] == s[..j];
      assert init[j..] + [last] == s[j..];
    }
  }

  /** The insertion stops after an element whose key does not exceed key(x). */
  lemma InsertStop<T>(s: seq<T>, x: T, key: T -> real, j: nat)
    requires j <= |s| && (j == 0 || key(s[j - 1]) <= key(x))
    ensures Insert(s[..j], x, key) == s[..j] + [x]
  {
  }

  /** The array after the shifting loop and the final write, as a sequence:
      what is left of the insertion point, `x`, then the shifted elements. */
  lemma InsertLayout<T>(r: seq<T>, s: seq<T>, x: T, j: nat)
    requires |r| == |s| + 1 && j <= |s|
    requires forall k :: 0 <= k < j ==> r[k] == s[k]
    requires r[j] == x
    requires forall k :: j < k < |r| ==> r[k] == s[k - 1]
    ensures r == s[..j] + [x] + s[j..]
  {
    var target := s[..j] + [x] + s[j..];
    forall k | 0 <= k < |r| ensures r[k] == target[k] {
      if k < j {
        assert target[k] == s[k];
      } else if k > j {
        assert target[k] == s[k - 1];
      }
    }
  }

  /** Sorts `a` stably by `key`, in place, by insertion. */
  method SortInPlace<T>(a: array<T>, key: T -> real)
    modifies a
    ensures a[..] == SortBy(old(a[..]), key)
  {
    ghost var input := a[..];
    var i := 0;
    while i < a.Length
      invariant 0 <= i <= a.Length
      invariant a[..i] == SortBy(input[..i], key)
      invariant a[i..] == input[i..]
    {
      assert input[..i + 1][..i] == input[..i];
      assert a[i] == input[i];
      ghost var before := a[..];
      InsertAt(a, i, key);
      assert a[..i + 1] == Insert(before[..i], before[i], key);
      assert a[i + 1..] == input[i + 1..] by {
        assert before[i + 1..] == before[i..][1..];
        assert input[i + 1..] == input[i..][1..];
      }
      i := i + 1;
    }
    assert input[..a.Length] == input;
    assert a[..] == a[..a.Length];
  }
}
