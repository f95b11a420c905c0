/**
  Facts about sequences in general. `Distinct` is the no-repeats notion the
  grouping and deduplication stages share; the lemmas below it are small
  steps of sequence algebra that the proofs elsewhere call, and stand for
  nothing in the scripts themselves.
 */
module Seqs {

  /** No element occurs twice. */
  predicate Distinct<T(==)>(s: seq<T>)
  {
    forall i, j :: 0 <= i < j < |s| ==> s[i] != s[j]
  }

  lemma ConsSnoc<T>(x: T, m: seq<T>, y: T)
    ensures [x] + (m + [y]) == ([x] + m) + [y]
  {
  }

  lemma SwapEmpty<T>(xs: seq<T>, ys: seq<T>, w: seq<T>)
    requires xs == [] || ys == []
    ensures ys + (xs + w) == xs + (ys + w)
  {
  }

  lemma SeqOfThree<T>(s: seq<T>, a: T, b: T, c: T)
    requires |s| == 3 && s[0] == a && s[1] == b && s[2] == c
    ensures s == [a, b, c]
  {
  }

  lemma AllOfThree<T>(s: seq<T>, p: T -> bool)
    requires |s| == 3 && p(s[0]) && p(s[1]) && p(s[2])
    ensures forall x :: x in s ==> p(x)
  {
    SeqOfThree(s, s[0], s[1], s[2]);
  }
}
