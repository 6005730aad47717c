/** The three index-based list edits the editors perform on copies of
    their member lists: `splice(i, 1)`, assignment to one slot, and a
    keep-if filter. */
module Seqs {

  /** `copy.splice(i, 1)`: removes the element at `i`. `splice` with an
      index at or past the end removes nothing. */
  function RemoveAt<T>(xs: seq<T>, i: nat): (r: seq<T>)
    ensures i < |xs| ==> |r| == |xs| - 1
    ensures i < |xs| ==> multiset(r) + multiset{xs[i]} == multiset(xs)
    ensures i < |xs| ==> forall k :: 0 <= k < |r| ==> r[k] == (if k < i then xs[k] else xs[k + 1])
    ensures i >= |xs| ==> r == xs
  {
    if i < |xs| then
      assert xs == xs[..i] + [xs[i]] + xs[i + 1..];
      xs[..i] + xs[i + 1..]
    else xs
  }

  /** `copy[i] = x`: the slot `i` holds `x`, every other slot is untouched. */
  function UpdateAt<T>(xs: seq<T>, i: nat, x: T): (r: seq<T>)
    requires i < |xs|
    ensures |r| == |xs|
    ensures r[i] == x
    ensures forall k :: 0 <= k < |xs| && k != i ==> r[k] == xs[k]
  {
    xs[i := x]
  }

  /** `xs.filter(keep)`. */
  function Filter<T>(xs: seq<T>, keep: T -> bool): (r: seq<T>)
    ensures |r| <= |xs|
    ensures forall k :: 0 <= k < |r| ==> keep(r[k])
    decreases |xs|
  {
    if |xs| == 0 then []
    else if keep(xs[0]) then [xs[0]] + Filter(xs[1..], keep)
    else Filter(xs[1..], keep)
  }

  /** An element survives the filter iff it was in the list and is kept. */
  lemma {:induction false} FilterMembership<T>(xs: seq<T>, keep: T -> bool, x: T)
    ensures x in Filter(xs, keep) <==> x in xs && keep(x)
    decreases |xs|
  {
    if |xs| > 0 {
      FilterMembership(xs[1..], keep, x);
      assert xs == [xs[0]] + xs[1..];
    }
  }

  /** Filtering distributes over concatenation, so the relative order of
      the kept elements is the order they had. */
  lemma {:induction false} FilterAppend<T>(xs: seq<T>, ys: seq<T>, keep: T -> bool)
    ensures Filter(xs + ys, keep) == Filter(xs, keep) + Filter(ys, keep)
    decreases |xs|
  {
    if |xs| > 0 {
      assert (xs + ys)[0] == xs[0];
      assert (xs + ys)[1..] == xs[1..] + ys;
      FilterAppend(xs[1..], ys, keep);
    } else {
      assert xs + ys == ys;
    }
  }

  /** A list whose every element is kept passes the filter unchanged. */
  lemma {:induction false} FilterAllKept<T>(xs: seq<T>, keep: T -> bool)
    requires forall k :: 0 <= k < |xs| ==> keep(xs[k])
    ensures Filter(xs, keep) == xs
    decreases |xs|
  {
    if |xs| > 0 {
      FilterAllKept(xs[1..], keep);
    }
  }

  /** A list none of whose elements is kept filters to nothing. */
  lemma {:induction false} FilterNoneKept<T>(xs: seq<T>, keep: T -> bool)
    requires forall k :: 0 <= k < |xs| ==> !keep(xs[k])
    ensures Filter(xs, keep) == []
    decreases |xs|
  {
    if |xs| > 0 {
      FilterNoneKept(xs[1..], keep);
    }
  }

  /** Removing an element that is not kept leaves the filtered list as it
      was; removing one that is kept takes exactly that one out of it. */
  lemma FilterRemoveAt<T>(xs: seq<T>, i: nat, keep: T -> bool)
    requires i < |xs|
    ensures !keep(xs[i]) ==> Filter(RemoveAt(xs, i), keep) == Filter(xs, keep)
    ensures keep(xs[i]) ==> |Filter(RemoveAt(xs, i), keep)| + 1 == |Filter(xs, keep)|
    ensures keep(xs[i]) ==> multiset(Filter(RemoveAt(xs, i), keep)) + multiset{xs[i]} == multiset(Filter(xs, keep))
  {
    var a, b := xs[..i], xs[i + 1..];
    assert xs == a + ([xs[i]] + b);
    FilterAppend(a, [xs[i]] + b, keep);
    FilterAppend([xs[i]], b, keep);
    FilterAppend(a, b, keep);
    assert [xs[i]][1..] == [];
  }

  /** Maps each element to a pair of lists and concatenates the first
      components and the second components, each in element order. */
  function ConcatPairs<A, P, Q>(xs: seq<A>, f: A -> (seq<P>, seq<Q>)): (r: (seq<P>, seq<Q>))
    decreases |xs|
  {
    if |xs| == 0 then ([], [])
    else
      var h := f(xs[0]);
      var t := ConcatPairs(xs[1..], f);
      (h.0 + t.0, h.1 + t.1)
  }

  /** The pairs of a concatenation are the pairs of the parts, joined
      component-wise. */
  lemma {:induction false} ConcatPairsAppend<A, P, Q>(xs: seq<A>, ys: seq<A>, f: A -> (seq<P>, seq<Q>))
    ensures ConcatPairs(xs + ys, f) ==
            (ConcatPairs(xs, f).0 + ConcatPairs(ys, f).0, ConcatPairs(xs, f).1 + ConcatPairs(ys, f).1)
    decreases |xs|
  {
    if |xs| == 0 {
      assert xs + ys == ys;
      var b := ConcatPairs(ys, f);
      assert [] + b.0 == b.0 && [] + b.1 == b.1;
    } else {
      assert (xs + ys)[0] == xs[0];
      assert (xs + ys)[1..] == xs[1..] + ys;
      ConcatPairsAppend(xs[1..], ys, f);
      var h := f(xs[0]);
      var a := ConcatPairs(xs[1..], f);
      var b := ConcatPairs(ys, f);
      assert h.0 + (a.0 + b.0) == (h.0 + a.0) + b.0;
      assert h.1 + (a.1 + b.1) == (h.1 + a.1) + b.1;
    }
  }
  /** A single element contributes exactly its own pair. */
  lemma ConcatPairsSingle<A, P, Q>(x: A, f: A -> (seq<P>, seq<Q>))
    ensures ConcatPairs([x], f) == f(x)
  {
    var xs := [x];
    assert xs[1..] == [];
    var h := f(x);
    assert h.0 + [] == h.0 && h.1 + [] == h.1;
  }
}
