/**
 * List combinators the page and the scraper apply element by element:
 * `Array.prototype.map` and a loop that appends zero or one output per input.
 */
module Seqs {

  /** `xs.map(f)`. */
  function Map<A, B>(f: A -> B, xs: seq<A>): (r: seq<B>)
    ensures |r| == |xs|
    ensures forall i :: 0 <= i < |xs| ==> r[i] == f(xs[i])
  {
    seq(|xs|, i requires 0 <= i < |xs| => f(xs[i]))
  }

  lemma MapSnoc<A, B>(f: A -> B, xs: seq<A>, x: A)
    ensures Map(f, xs + [x]) == Map(f, xs) + [f(x)]
  {
    var l, r := Map(f, xs + [x]), Map(f, xs) + [f(x)];
    forall i | 0 <= i < |l| ensures l[i] == r[i] {
      if i < |xs| {
        assert (xs + [x])[i] == xs[i];
      }
    }
  }

  /** The outputs of `f` for each element of `xs`, concatenated in order. */
  function FlatMap<A, B>(f: A -> seq<B>, xs: seq<A>): seq<B>
  {
    if xs == [] then [] else f(xs[0]) + FlatMap(f, xs[1..])
  }

  /** `FlatMap` works element by element, so it distributes over concatenation. */
  lemma {:induction false} FlatMapAppend<A, B>(f: A -> seq<B>, xs: seq<A>, ys: seq<A>)
    ensures FlatMap(f, xs + ys) == FlatMap(f, xs) + FlatMap(f, ys)
  {
    if xs == [] {
      assert xs + ys == ys;
    } else {
      assert (xs + ys)[0] == xs[0] && (xs + ys)[1..] == xs[1..] + ys;
      calc {
        FlatMap(f, xs + ys);
        f(xs[0]) + FlatMap(f, xs[1..] + ys);
        { FlatMapAppend(f, xs[1..], ys); }
        f(xs[0]) + (FlatMap(f, xs[1..]) + FlatMap(f, ys));
        (f(xs[0]) + FlatMap(f, xs[1..])) + FlatMap(f, ys);
        FlatMap(f, xs) + FlatMap(f, ys);
      }
    }
  }

  /** When each element gives at most one output, there are no more outputs than elements. */
  lemma {:induction false} FlatMapAtMostOne<A, B>(f: A -> seq<B>, xs: seq<A>)
    requires forall i :: 0 <= i < |xs| ==> |f(xs[i])| <= 1
    ensures |FlatMap(f, xs)| <= |xs|
  {
    if xs != [] {
      FlatMapAtMostOne(f, xs[1..]);
    }
  }

  lemma FlatMapSnoc<A, B>(f: A -> seq<B>, xs: seq<A>, i: int)
    requires 0 <= i < |xs|
    ensures FlatMap(f, xs[..i + 1]) == FlatMap(f, xs[..i]) + f(xs[i])
  {
    assert xs[..i + 1] == xs[..i] + [xs[i]];
    FlatMapAppend(f, xs[..i], [xs[i]]);
    assert [xs[i]][1..] == [];
  }
}
