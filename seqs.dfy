/** Facts about sequence concatenation used by the inductive proofs. */
module Seqs {
  /** Dropping the last element of `xs + ys`, when `ys` is not empty, drops
      the last element of `ys`. */
  lemma AppendInit<T>(xs: seq<T>, ys: seq<T>)
    requires ys != []
    ensures (xs + ys)[..|xs + ys| - 1] == xs + ys[..|ys| - 1]
    ensures (xs + ys)[|xs + ys| - 1] == ys[|ys| - 1]
  {
  }

  /** A sequence is what lies before position `j`, the element there and what follows. */
  lemma SpliceAt<T>(s: seq<T>, j: nat)
    requires j < |s|
    ensures s == (s[..j] + [s[j]]) + s[j + 1..]
  {
  }

  lemma AppendAssoc<T>(xs: seq<T>, ys: seq<T>, zs: seq<T>)
    ensures (xs + ys) + zs == xs + (ys + zs)
  {
  }

  /** The first `m + 1` elements are the first `m` and one more. */
  lemma TakeSnoc<T>(s: seq<T>, m: nat)
    requires m < |s|
    ensures s[..m + 1][..m] == s[..m] && s[..m + 1][m] == s[m]
  {
  }
}
