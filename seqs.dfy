/** List comprehensions with a condition (`[x for x in xs if keep(x)]`) and what they preserve. */
module Seqs {

  /** `xs` can be obtained from `ys` by deleting elements, keeping the order. */
  predicate IsSubsequence<T(==)>(xs: seq<T>, ys: seq<T>)
    decreases |ys|
  {
    if xs == [] then true
    else if ys == [] then false
    else if xs[0] == ys[0] then IsSubsequence(xs[1..], ys[1..])
    else IsSubsequence(xs, ys[1..])
  }

  /**
   * `[x for x in xs if keep(x)]`: in the original order, every element that
   * passes, as many times as it occurs in `xs`, and nothing else.
   */
  function Filter<T(==,!new)>(xs: seq<T>, keep: T -> bool): (r: seq<T>)
    ensures IsSubsequence(r, xs)
    ensures forall x :: multiset(r)[x] == if keep(x) then multiset(xs)[x] else 0
    ensures |r| <= |xs|
    ensures forall k :: 0 <= k < |r| ==> keep(r[k])
  {
    if xs == [] then []
    else
      var rest := Filter(xs[1..], keep);
      assert xs == [xs[0]] + xs[1..];
      assert multiset(xs) == multiset{xs[0]} + multiset(xs[1..]);
      if keep(xs[0]) then
        var r := [xs[0]] + rest;
        assert r[1..] == rest;
        assert multiset(r) == multiset{xs[0]} + multiset(rest);
        r
      else
        rest
  }

  /** Nothing is dropped exactly when every element passes. */
  lemma {:induction false} FilterKeepsAll<T(!new)>(xs: seq<T>, keep: T -> bool)
    ensures |Filter(xs, keep)| == |xs| <==> forall k :: 0 <= k < |xs| ==> keep(xs[k])
    decreases |xs|
  {
    if xs != [] {
      FilterKeepsAll(xs[1..], keep);
      assert forall k :: 1 <= k < |xs| ==> xs[k] == xs[1..][k - 1];
    }
  }

  /** Nothing is kept exactly when no element passes. */
  lemma {:induction false} NoneKept<T(!new)>(xs: seq<T>, keep: T -> bool)
    ensures Filter(xs, keep) == [] <==> forall k :: 0 <= k < |xs| ==> !keep(xs[k])
    decreases |xs|
  {
    if xs != [] {
      NoneKept(xs[1..], keep);
      assert forall k :: 1 <= k < |xs| ==> xs[k] == xs[1..][k - 1];
    }
  }

  /** Filtering a list that grows by one element at the end. */
  lemma {:induction false} FilterSnoc<T(!new)>(xs: seq<T>, x: T, keep: T -> bool)
    ensures Filter(xs + [x], keep) == Filter(xs, keep) + (if keep(x) then [x] else [])
    decreases |xs|
  {
    var tail := if keep(x) then [x] else [];
    if xs == [] {
      assert [x][1..] == [];
      assert xs + [x] == [x];
    } else {
      var ys := xs + [x];
      assert ys[0] == xs[0] && ys[1..] == xs[1..] + [x];
      FilterSnoc(xs[1..], x, keep);
      var f := Filter(xs[1..], keep);
      if keep(xs[0]) {
        assert Filter(ys, keep) == [xs[0]] + (f + tail);
        AppendAssoc([xs[0]], f, tail);
      } else {
        assert Filter(ys, keep) == f + tail;
      }
    }
  }

  /** Every element passes exactly one of two complementary conditions. */
  lemma {:induction false} FilterComplement<T(!new)>(xs: seq<T>, keep: T -> bool, drop: T -> bool)
    requires forall x :: drop(x) == !keep(x)
    ensures |Filter(xs, keep)| + |Filter(xs, drop)| == |xs|
    decreases |xs|
  {
    if xs != [] {
      FilterComplement(xs[1..], keep, drop);
    }
  }

  /** `[f(x) for x in xs if keep(x)]`, for an `f` defined wherever `keep` holds. */
  function FilterMap<T(!new), U>(xs: seq<T>, keep: T -> bool, f: T --> U): (ys: seq<U>)
    requires forall x :: keep(x) ==> f.requires(x)
    ensures |ys| == |Filter(xs, keep)|
    decreases |xs|
  {
    if xs == [] then []
    else
      var x, before := xs[|xs| - 1], xs[..|xs| - 1];
      assert xs == before + [x];
      FilterSnoc(before, x, keep);
      FilterMap(before, keep, f) + (if keep(x) then [f(x)] else [])
  }

  /** One more element at the end adds its image when it passes. */
  lemma FilterMapSnoc<T(!new), U>(xs: seq<T>, x: T, keep: T -> bool, f: T --> U)
    requires forall y :: keep(y) ==> f.requires(y)
    ensures FilterMap(xs + [x], keep, f) == FilterMap(xs, keep, f) + (if keep(x) then [f(x)] else [])
  {
    assert (xs + [x])[..|xs|] == xs;
  }

  /** The k-th result is the image of the k-th element that passes. */
  lemma {:induction false} FilterMapAt<T(!new), U>(xs: seq<T>, keep: T -> bool, f: T --> U)
    requires forall x :: keep(x) ==> f.requires(x)
    ensures var ys, kept := FilterMap(xs, keep, f), Filter(xs, keep);
      forall k :: 0 <= k < |ys| ==> ys[k] == f(kept[k])
    decreases |xs|
  {
    if xs != [] {
      var x, before := xs[|xs| - 1], xs[..|xs| - 1];
      assert xs == before + [x];
      FilterSnoc(before, x, keep);
      FilterMapAt(before, keep, f);
      var ys, kept := FilterMap(xs, keep, f), Filter(xs, keep);
      var ys', kept' := FilterMap(before, keep, f), Filter(before, keep);
      forall k | 0 <= k < |ys|
        ensures ys[k] == f(kept[k])
      {
        if k < |ys'| {
          assert ys[k] == ys'[k] && kept[k] == kept'[k];
        }
      }
    }
  }

  lemma AppendAssoc<T>(a: seq<T>, b: seq<T>, c: seq<T>)
    ensures a + (b + c) == (a + b) + c
  {
  }

  /** A weaker condition keeps at least as many elements. */
  lemma {:induction false} FilterGrows<T(!new)>(xs: seq<T>, keep1: T -> bool, keep2: T -> bool)
    requires forall x :: keep1(x) ==> keep2(x)
    ensures |Filter(xs, keep1)| <= |Filter(xs, keep2)|
    decreases |xs|
  {
    if xs != [] {
      FilterGrows(xs[1..], keep1, keep2);
    }
  }
}
