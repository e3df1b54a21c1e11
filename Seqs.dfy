/** Array operations of JavaScript used as values: `filter`, and the facts
    about repeated elements that grouping and `Object.keys` rely on. */
module Seqs {

  /** `s.filter(p)`: the elements satisfying `p`, in their order. */
  function Filter<T>(s: seq<T>, p: T -> bool): (r: seq<T>)
    ensures |r| <= |s|
    ensures forall x :: x in r ==> x in s && p(x)
    ensures forall x :: x in s && p(x) ==> x in r
  {
    if s == [] then []
    else
      var init := Filter(s[..|s| - 1], p);
      assert forall x :: x in s ==> x in s[..|s| - 1] || x == s[|s| - 1];
      assert forall x :: x in s[..|s| - 1] ==> x in s;
      if p(s[|s| - 1]) then init + [s[|s| - 1]] else init
  }

  lemma FilterAppend<T>(s: seq<T>, x: T, p: T -> bool)
    ensures Filter(s + [x], p) == Filter(s, p) + (if p(x) then [x] else [])
  {
    assert (s + [x])[..|s|] == s;
  }

  /** Two elements that pass the filter keep their relative order in it. */
  lemma {:induction false} FilterKeepsOrder<T>(s: seq<T>, p: T -> bool, i: nat, j: nat)
    requires i < j < |s| && p(s[i]) && p(s[j])
    ensures exists i', j' :: 0 <= i' < j' < |Filter(s, p)| && Filter(s, p)[i'] == s[i] && Filter(s, p)[j'] == s[j]
  {
    var init := s[..|s| - 1];
    var before := Filter(init, p);
    assert Filter(s, p) == before + [s[|s| - 1]] || Filter(s, p) == before;
    if j < |s| - 1 {
      assert init[i] == s[i] && init[j] == s[j];
      FilterKeepsOrder(init, p, i, j);
      var i', j' :| 0 <= i' < j' < |before| && before[i'] == s[i] && before[j'] == s[j];
      assert Filter(s, p)[i'] == s[i] && Filter(s, p)[j'] == s[j];
    } else {
      assert s[i] == init[i] && s[i] in init;
      var i' :| 0 <= i' < |before| && before[i'] == s[i];
      assert Filter(s, p) == before + [s[j]];
      assert Filter(s, p)[i'] == s[i] && Filter(s, p)[|before|] == s[j];
    }
  }

  /** A filter of a sequence that is strictly increasing in `rank` is too. */
  lemma {:induction false} FilterIncreasing<T>(s: seq<T>, p: T -> bool, rank: T -> int)
    requires forall i, j :: 0 <= i < j < |s| ==> rank(s[i]) < rank(s[j])
    ensures forall i, j :: 0 <= i < j < |Filter(s, p)| ==> rank(Filter(s, p)[i]) < rank(Filter(s, p)[j])
  {
    if s != [] {
      var init, last := s[..|s| - 1], s[|s| - 1];
      assert forall i :: 0 <= i < |init| ==> init[i] == s[i];
      FilterIncreasing(init, p, rank);
      var before := Filter(init, p);
      forall x | x in before ensures rank(x) < rank(last) {
        var k :| 0 <= k < |init| && init[k] == x;
      }
      var r := Filter(s, p);
      forall i, j | 0 <= i < j < |r| ensures rank(r[i]) < rank(r[j]) {
        if j < |before| {
          assert r[i] == before[i] && r[j] == before[j];
          assert rank(before[i]) < rank(before[j]);
        } else {
          assert p(last) && r == before + [last];
          assert r[i] == before[i] && r[i] in before && r[j] == last;
          assert rank(before[i]) < rank(last);
        }
      }
    }
  }

  /** No element occurs twice. */
  ghost predicate Distinct<T>(s: seq<T>) {
    forall i, j :: 0 <= i < j < |s| ==> s[i] != s[j]
  }

  lemma {:induction false} FilterDistinct<T>(s: seq<T>, p: T -> bool)
    requires Distinct(s)
    ensures Distinct(Filter(s, p))
  {
    if s != [] {
      var init := s[..|s| - 1];
      assert Distinct(init);
      FilterDistinct(init, p);
      assert s[|s| - 1] !in init;
    }
  }

  /** An element of a sequence without repetitions occurs in it once. */
  lemma {:induction false} DistinctOnce<T>(s: seq<T>, x: T)
    requires Distinct(s)
    ensures multiset(s)[x] <= 1
  {
    if s != [] {
      var init := s[..|s| - 1];
      assert s == init + [s[|s| - 1]];
      assert Distinct(init);
      DistinctOnce(init, x);
      assert s[|s| - 1] !in init;
    }
  }

  /** A permutation of a sequence without repetitions has none either. */
  lemma DistinctPermutation<T>(a: seq<T>, b: seq<T>)
    requires Distinct(a) && multiset(a) == multiset(b)
    ensures Distinct(b)
  {
    forall i, j | 0 <= i < j < |b| ensures b[i] != b[j] {
      if b[i] == b[j] {
        assert b == b[..j] + [b[j]] + b[j + 1..];
        assert b[i] in b[..j];
        assert multiset(b)[b[j]] >= 2;
        DistinctOnce(a, b[j]);
      }
    }
  }

  /** Filtering by a predicate and by its negation splits the elements. */
  lemma {:induction false} FilterPartition<T>(s: seq<T>, p: T -> bool, q: T -> bool)
    requires forall x :: q(x) == !p(x)
    ensures multiset(Filter(s, p)) + multiset(Filter(s, q)) == multiset(s)
  {
    if s != [] {
      var init := s[..|s| - 1];
      FilterPartition(init, p, q);
      assert s == init + [s[|s| - 1]];
    }
  }

  lemma {:induction false} FilterConcat<T>(a: seq<T>, b: seq<T>, p: T -> bool)
    ensures Filter(a + b, p) == Filter(a, p) + Filter(b, p)
  {
    if b != [] {
      var init := b[..|b| - 1];
      assert a + b == (a + init) + [b[|b| - 1]];
      FilterAppend(a + init, b[|b| - 1], p);
      FilterConcat(a, init, p);
      assert b == init + [b[|b| - 1]];
      FilterAppend(init, b[|b| - 1], p);
    } else {
      assert a + b == a;
    }
  }

  /** Filtering keeps everything when everything passes, nothing when nothing does. */
  lemma {:induction false} FilterAllOrNone<T>(s: seq<T>, p: T -> bool)
    ensures (forall i :: 0 <= i < |s| ==> p(s[i])) ==> Filter(s, p) == s
    ensures (forall i :: 0 <= i < |s| ==> !p(s[i])) ==> Filter(s, p) == []
  {
    if s != [] {
      var init := s[..|s| - 1];
      assert forall i :: 0 <= i < |init| ==> init[i] == s[i];
      FilterAllOrNone(init, p);
      assert s == init + [s[|s| - 1]];
    }
  }

  /** The concatenation of `f(a)` for the elements `a` of `s`, in order: what
      a `forEach` pushing `f(a)` for each `a` leaves in its array. */
  function FlatMap<A, B>(s: seq<A>, f: A -> seq<B>): seq<B> {
    if s == [] then [] else FlatMap(s[..|s| - 1], f) + f(s[|s| - 1])
  }

  /** When every output of `f(a)` names `a` as its owner, each element of the
      concatenation comes from its owner, and the owner is among the inputs. */
  lemma {:induction false} FlatMapFrom<A, B>(s: seq<A>, f: A -> seq<B>, owner: B -> A)
    requires forall a, b :: b in f(a) ==> owner(b) == a
    ensures forall i :: 0 <= i < |FlatMap(s, f)| ==> owner(FlatMap(s, f)[i]) in s && FlatMap(s, f)[i] in f(owner(FlatMap(s, f)[i]))
  {
    if s != [] {
      var init, last := s[..|s| - 1], s[|s| - 1];
      FlatMapFrom(init, f, owner);
      var before := FlatMap(init, f);
      var all := FlatMap(s, f);
      forall i | 0 <= i < |all| ensures owner(all[i]) in s && all[i] in f(owner(all[i])) {
        if i < |before| {
          assert all[i] == before[i];
          assert owner(before[i]) in init;
        } else {
          assert all[i] == f(last)[i - |before|];
        }
      }
    }
  }

  /** Every input with an output has it in the concatenation. */
  lemma {:induction false} FlatMapCover<A, B>(s: seq<A>, f: A -> seq<B>, a: A)
    requires a in s && f(a) != []
    ensures exists i :: 0 <= i < |FlatMap(s, f)| && FlatMap(s, f)[i] in f(a)
  {
    var init, last := s[..|s| - 1], s[|s| - 1];
    assert s == init + [last];
    var before := FlatMap(init, f);
    var all := FlatMap(s, f);
    if a in init {
      FlatMapCover(init, f, a);
      var i :| 0 <= i < |before| && before[i] in f(a);
      assert all[i] == before[i];
    } else {
      assert all[|before|] == f(a)[0];
    }
  }

  /** With inputs that do not repeat, no two elements of the concatenation
      have the same owner unless they come from the same output. */
  lemma {:induction false} FlatMapDistinct<A, B>(s: seq<A>, f: A -> seq<B>, owner: B -> A)
    requires Distinct(s)
    requires forall a, b :: b in f(a) ==> owner(b) == a
    requires forall a :: |f(a)| <= 1
    ensures forall i, j :: 0 <= i < j < |FlatMap(s, f)| ==> owner(FlatMap(s, f)[i]) != owner(FlatMap(s, f)[j])
  {
    if s != [] {
      var init, last := s[..|s| - 1], s[|s| - 1];
      assert s == init + [last];
      assert Distinct(init);
      FlatMapDistinct(init, f, owner);
      FlatMapFrom(init, f, owner);
      var before := FlatMap(init, f);
      var all := FlatMap(s, f);
      forall i, j | 0 <= i < j < |all| ensures owner(all[i]) != owner(all[j]) {
        if j < |before| {
          assert all[i] == before[i] && all[j] == before[j];
        } else {
          assert all[i] == before[i] && owner(before[i]) in init;
          assert all[j] == f(last)[j - |before|];
        }
      }
    }
  }

  /** When the inputs are strictly increasing in `rank` and each yields at
      most one output, the outputs of the concatenation follow the inputs:
      an earlier element has an owner of smaller rank. */
  lemma {:induction false} FlatMapOrder<A, B>(s: seq<A>, f: A -> seq<B>, owner: B -> A, rank: A -> int)
    requires forall a, b :: b in f(a) ==> owner(b) == a
    requires forall a :: |f(a)| <= 1
    requires forall p, q :: 0 <= p < q < |s| ==> rank(s[p]) < rank(s[q])
    ensures forall i, j :: 0 <= i < j < |FlatMap(s, f)| ==> rank(owner(FlatMap(s, f)[i])) < rank(owner(FlatMap(s, f)[j]))
  {
    if s != [] {
      var init, last := s[..|s| - 1], s[|s| - 1];
      assert forall p :: 0 <= p < |init| ==> init[p] == s[p];
      FlatMapOrder(init, f, owner, rank);
      FlatMapFrom(init, f, owner);
      var before := FlatMap(init, f);
      var all := FlatMap(s, f);
      forall i, j | 0 <= i < j < |all| ensures rank(owner(all[i])) < rank(owner(all[j])) {
        if j < |before| {
          assert all[i] == before[i] && all[j] == before[j];
        } else {
          assert all[i] == before[i] && owner(before[i]) in init;
          var p :| 0 <= p < |init| && init[p] == owner(before[i]);
          assert all[j] == f(last)[j - |before|];
          assert all[j] in f(last);
        }
      }
    }
  }
}
