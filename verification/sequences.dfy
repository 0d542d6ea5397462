/** Order-preserving subsequences: `b` is obtained from `u` by deleting
    elements, never by reordering or copying them. */
module Sequences {

  /** `b` is a subsequence of `u`: the last element of `u` is either
      dropped, or matched with the last element of `b`. */
  ghost predicate IsSubsequence<T>(b: seq<T>, u: seq<T>)
    decreases |u|
  {
    if |u| == 0 then |b| == 0
    else
      || IsSubsequence(b, u[..|u| - 1])
      || (|b| > 0 && b[|b| - 1] == u[|u| - 1] && IsSubsequence(b[..|b| - 1], u[..|u| - 1]))
  }

  /** Appending to `u` alone keeps `b` a subsequence. */
  lemma SubsequenceExtend<T>(b: seq<T>, u: seq<T>, x: T)
    requires IsSubsequence(b, u)
    ensures IsSubsequence(b, u + [x])
  {
    assert (u + [x])[..|u|] == u;
  }

  /** Appending the same element to both keeps `b` a subsequence. */
  lemma SubsequenceExtendBoth<T>(b: seq<T>, u: seq<T>, x: T)
    requires IsSubsequence(b, u)
    ensures IsSubsequence(b + [x], u + [x])
  {
    assert (u + [x])[..|u|] == u;
    assert (b + [x])[..|b|] == b;
  }

  /** Every element of a subsequence occurs in the sequence at least as
      often: nothing in `b` is invented. */
  lemma {:induction false} SubsequenceMultiset<T>(b: seq<T>, u: seq<T>)
    requires IsSubsequence(b, u)
    ensures multiset(b) <= multiset(u)
    decreases |u|
  {
    if |u| > 0 {
      var u' := u[..|u| - 1];
      assert u == u' + [u[|u| - 1]];
      if IsSubsequence(b, u') {
        SubsequenceMultiset(b, u');
      } else {
        var b' := b[..|b| - 1];
        assert b == b' + [b[|b| - 1]];
        SubsequenceMultiset(b', u');
      }
    }
  }

  /** Hence every element of a subsequence is an element of the sequence. */
  lemma SubsequenceMembers<T>(b: seq<T>, u: seq<T>)
    requires IsSubsequence(b, u)
    ensures forall x :: x in b ==> x in u
  {
    SubsequenceMultiset(b, u);
    forall x | x in b ensures x in u {
      assert multiset(b)[x] > 0;
    }
  }
}
