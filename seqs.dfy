/** Small facts about sequences, each proved on its own so that callers need not redo them. */
module Seqs {
  lemma WholeSlice<T>(s: seq<T>)
    ensures s[..|s|] == s
  {
  }

  lemma SplitLast<T>(s: seq<T>)
    requires s != []
    ensures s == s[..|s| - 1] + [s[|s| - 1]]
  {
  }

  lemma Pointwise<T>(a: seq<T>, b: seq<T>)
    requires |a| == |b| && forall k :: 0 <= k < |a| ==> a[k] == b[k]
    ensures a == b
  {
  }

  /** When a slice is `pre + u`, skipping `pre` in it leaves `u`. */
  lemma AfterPrefix<T>(s: seq<T>, lo: nat, hi: nat, pre: seq<T>, u: seq<T>)
    requires lo <= hi <= |s| && s[lo..hi] == pre + u
    ensures s[lo + |pre|..hi] == u
  {
    assert s[lo + |pre|..hi] == s[lo..hi][|pre|..];
  }
}
