/** Octets written element after element, and their sizes. */
module Chunks {
  import opened Ber

  function Sum<T>(f: T -> nat, xs: seq<T>): nat {
    if xs == [] then 0 else Sum(f, xs[..|xs| - 1]) + f(xs[|xs| - 1])
  }

  function Concat<T>(f: T -> Bytes, xs: seq<T>): Bytes {
    if xs == [] then [] else Concat(f, xs[..|xs| - 1]) + f(xs[|xs| - 1])
  }

  /** The first element, and then the others. */
  lemma {:induction false} ListCons<T>(f: T -> Bytes, g: T -> nat, xs: seq<T>)
    requires xs != []
    ensures Concat(f, xs) == f(xs[0]) + Concat(f, xs[1..]) && Sum(g, xs) == g(xs[0]) + Sum(g, xs[1..])
  {
    var front := xs[..|xs| - 1];
    if |xs| == 1 {
      assert front == [] && xs[1..] == [];
    } else {
      ListCons(f, g, front);
      assert front[1..] == xs[1..][..|xs| - 2];
      Assoc(f(xs[0]), Concat(f, front[1..]), f(xs[|xs| - 1]));
    }
  }

  lemma {:induction false} ConcatSize<T>(f: T -> Bytes, g: T -> nat, xs: seq<T>)
    requires forall i :: 0 <= i < |xs| ==> |f(xs[i])| == g(xs[i])
    ensures |Concat(f, xs)| == Sum(g, xs)
  {
    if xs != [] {
      ConcatSize(f, g, xs[..|xs| - 1]);
    }
  }

  lemma Next<T>(f: T -> Bytes, g: T -> nat, xs: seq<T>, i: nat)
    requires i < |xs|
    ensures Concat(f, xs[..i + 1]) == Concat(f, xs[..i]) + f(xs[i]) && Sum(g, xs[..i + 1]) == Sum(g, xs[..i]) + g(xs[i])
  {
    assert xs[..i + 1][..i] == xs[..i];
  }

  lemma {:induction false} SumAligned<T>(g: T -> nat, xs: seq<T>)
    requires forall i :: 0 <= i < |xs| ==> g(xs[i]) % 4 == 0
    ensures Sum(g, xs) % 4 == 0
  {
    if xs != [] {
      SumAligned(g, xs[..|xs| - 1]);
    }
  }
}
