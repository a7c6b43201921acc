/** Facts about sequence slices that the loops over a prefix use. */
module Seqs {

  /** Extending a prefix by one element. */
  lemma SliceSnoc<T>(s: seq<T>, i: nat)
    requires i < |s|
    ensures s[..i + 1] == s[..i] + [s[i]]
  {
  }

  /** The prefix of the whole length is the sequence. */
  lemma SliceAll<T>(s: seq<T>)
    ensures s[..|s|] == s
  {
  }
}
