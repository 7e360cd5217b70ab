/** Generic facts about sequences that the proofs of the other modules lean
    on: splitting, extending and mapping. */
module Seqs {

  /** A sequence is its prefix followed by the matching suffix. */
  lemma SplitAt<T>(s: seq<T>, i: nat)
    requires i <= |s|
    ensures s == s[..i] + s[i..]
  {
  }

  /** A sequence that agrees with `t` and then holds `x` is `t + [x]`. */
  lemma SnocEqual<T>(s: seq<T>, t: seq<T>, x: T)
    requires |s| == |t| + 1 && s[|t|] == x
    requires forall p :: 0 <= p < |t| ==> s[p] == t[p]
    ensures s == t + [x]
  {
  }

  /** Extending a prefix by two elements appends those two elements. */
  lemma PrefixTwoMore<T>(s: seq<T>, i: nat)
    requires i + 2 <= |s|
    ensures s[..i + 2] == s[..i] + [s[i], s[i + 1]]
  {
    assert s[..i + 2] == s[..i] + s[i..i + 2];
  }

  /** A sequence is its own longest prefix. */
  lemma PrefixWhole<T>(s: seq<T>)
    ensures s[..|s|] == s
  {
  }

  /** `f` applied to each element, in order. */
  function MapSeq<A, B>(f: A -> B, s: seq<A>): (r: seq<B>)
    ensures |r| == |s|
    ensures forall k :: 0 <= k < |s| ==> r[k] == f(s[k])
  {
    seq(|s|, k requires 0 <= k < |s| => f(s[k]))
  }

  /** Mapping distributes over concatenation. */
  lemma MapAppend<A, B>(f: A -> B, a: seq<A>, b: seq<A>)
    ensures MapSeq(f, a + b) == MapSeq(f, a) + MapSeq(f, b)
  {
    assert forall k :: |a| <= k < |a + b| ==> (a + b)[k] == b[k - |a|];
  }

  /** Mapping commutes with taking a prefix. */
  lemma MapPrefix<A, B>(f: A -> B, s: seq<A>, k: nat)
    requires k <= |s|
    ensures MapSeq(f, s[..k]) == MapSeq(f, s)[..k]
  {
  }
}
