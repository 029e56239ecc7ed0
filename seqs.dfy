/** Sequence helpers: first index of an element, and the first-occurrence de-duplication
    performed by `Array.from(new Set(xs))`. */
module Seqs {

  predicate Distinct<T(==)>(xs: seq<T>) {
    forall i, j :: 0 <= i < j < |xs| ==> xs[i] != xs[j]
  }

  /** The index of the first occurrence of `x` in `xs`. */
  function IndexOf<T(==)>(xs: seq<T>, x: T): (i: nat)
    requires x in xs
    ensures i < |xs| && xs[i] == x && x !in xs[..i]
  {
    if xs[0] == x then 0
    else
      var j := IndexOf(xs[1..], x);
      assert xs[1..][..j] == xs[1..j + 1];
      assert xs[..j + 1] == [xs[0]] + xs[1..j + 1];
      1 + j
  }

  /** Appending elements does not move the first occurrence of an element already present. */
  lemma {:induction false} IndexOfAppend<T>(xs: seq<T>, ys: seq<T>, x: T)
    requires x in xs
    ensures x in xs + ys && IndexOf(xs + ys, x) == IndexOf(xs, x)
  {
    var i := IndexOf(xs, x);
    assert (xs + ys)[..i] == xs[..i];
    assert (xs + ys)[i] == x;
  }

  /** `Array.from(new Set(xs))`: a Set iterates in insertion order, so the result keeps the
      first occurrence of every element, in the order of those first occurrences. */
  function Dedup<T(==,!new)>(xs: seq<T>): (r: seq<T>)
    ensures forall x :: x in r <==> x in xs
    ensures Distinct(r)
    ensures |r| <= |xs|
    ensures forall i, j :: 0 <= i < j < |r| ==> IndexOf(xs, r[i]) < IndexOf(xs, r[j])
  {
    if xs == [] then []
    else
      var init, last := xs[..|xs| - 1], xs[|xs| - 1];
      var d := Dedup(init);
      assert xs == init + [last];
      forall x | x in init ensures IndexOf(xs, x) == IndexOf(init, x) && IndexOf(init, x) < |init| {
        IndexOfAppend(init, [last], x);
      }
      if last in d then d
      else
        assert last !in init;
        assert xs[..|init|] == init;
        d + [last]
  }

  /** Where the elements of a concatenation come from. */
  lemma AppendIndex<T>(xs: seq<T>, ys: seq<T>)
    ensures |xs + ys| == |xs| + |ys|
    ensures forall i :: 0 <= i < |xs| ==> (xs + ys)[i] == xs[i]
    ensures forall j :: 0 <= j < |ys| ==> (xs + ys)[|xs| + j] == ys[j]
  {
  }
}
