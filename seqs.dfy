/** Facts about slicing and concatenating sequences, proved once, away from the string functions. */
module Seqs {

  /** Dropping the head of a concatenation drops the head of its left part. */
  lemma TailOfConcat<T>(xs: seq<T>, ys: seq<T>)
    requires xs != []
    ensures (xs + ys)[0] == xs[0] && (xs + ys)[1..] == xs[1..] + ys
  {
  }

  /** Extending a prefix by the next element. */
  lemma PrefixSnoc<T>(xs: seq<T>, i: nat)
    requires i < |xs|
    ensures xs[..i + 1] == xs[..i] + [xs[i]]
  {
  }

  /** A sequence is its prefix followed by its suffix. */
  lemma PrefixSuffix<T>(xs: seq<T>, i: nat)
    requires i <= |xs|
    ensures xs == xs[..i] + xs[i..]
  {
  }

  /** Concatenation is associative. */
  lemma ConcatAssoc<T>(xs: seq<T>, ys: seq<T>, zs: seq<T>)
    ensures xs + (ys + zs) == xs + ys + zs
  {
  }

  /** The empty sequence is a unit of concatenation. */
  lemma ConcatEmpty<T>(xs: seq<T>)
    ensures [] + xs == xs && xs + [] == xs
  {
  }

  /** Index `j` of a sequence is index `j - 1` of its tail. */
  lemma TailIndex<T>(xs: seq<T>)
    requires xs != []
    ensures forall j :: 1 <= j < |xs| ==> xs[1..][j - 1] == xs[j]
  {
  }
}
