/** Applying a function to every element of a sequence, in order. */
module Seqs {

  function Map<A, B>(f: A -> B, xs: seq<A>): (r: seq<B>)
    ensures |r| == |xs|
    ensures forall k :: 0 <= k < |xs| ==> r[k] == f(xs[k])
  {
    if xs == [] then [] else Map(f, xs[..|xs| - 1]) + [f(xs[|xs| - 1])]
  }

  /** Mapping one more element appends its image, also after a given prefix. */
  lemma MapSnoc<A, B>(f: A -> B, pre: seq<B>, xs: seq<A>, k: nat)
    requires k < |xs|
    ensures Map(f, xs[..k + 1]) == Map(f, xs[..k]) + [f(xs[k])]
    ensures pre + Map(f, xs[..k + 1]) == (pre + Map(f, xs[..k])) + [f(xs[k])]
  {
    assert xs[..k + 1][..k] == xs[..k];
  }

  /** Mapping a sequence with one more element appends that element's image. */
  lemma MapLast<A, B>(f: A -> B, xs: seq<A>, x: A)
    ensures var r := Map(f, xs + [x]);
            |r| == |xs| + 1 && r[..|xs|] == Map(f, xs) && r[|xs|] == f(x)
  {
    assert (xs + [x])[..|xs|] == xs;
  }

  /** Mapping a concatenation concatenates the images. */
  lemma {:induction false} MapAppend<A, B>(f: A -> B, xs: seq<A>, ys: seq<A>)
    ensures Map(f, xs + ys) == Map(f, xs) + Map(f, ys)
    decreases |ys|
  {
    if ys != [] {
      var ys' := ys[..|ys| - 1];
      assert (xs + ys)[..|xs + ys| - 1] == xs + ys';
      MapAppend(f, xs, ys');
    } else {
      assert xs + ys == xs;
    }
  }
}
