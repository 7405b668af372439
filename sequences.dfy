/** Order-preserving selection: `a` is a subsequence of `b` when the
    elements of `a` sit in `b` at strictly increasing positions. */
module Sequences {

  /** `idx` lists, in increasing order, the positions of `b` that `a` holds. */
  predicate SubseqAt<T(==)>(a: seq<T>, b: seq<T>, idx: seq<nat>) {
    && |idx| == |a|
    && (forall k :: 0 <= k < |idx| ==> idx[k] < |b| && a[k] == b[idx[k]])
    && (forall k, l :: 0 <= k < l < |idx| ==> idx[k] < idx[l])
  }

  ghost predicate IsSubseq<T>(a: seq<T>, b: seq<T>) {
    exists idx :: SubseqAt(a, b, idx)
  }

  lemma EmptySubseq<T>(b: seq<T>)
    ensures IsSubseq([], b)
  {
    assert SubseqAt([], b, []);
  }

  /** Appending to the whole sequence keeps a subsequence one. */
  lemma SubseqSkip<T>(a: seq<T>, b: seq<T>, x: T)
    requires IsSubseq(a, b)
    ensures IsSubseq(a, b + [x])
  {
    var idx: seq<nat> :| SubseqAt(a, b, idx);
    assert SubseqAt(a, b + [x], idx);
  }

  /** Appending the same element to both keeps a subsequence one. */
  lemma SubseqTake<T>(a: seq<T>, b: seq<T>, x: T)
    requires IsSubseq(a, b)
    ensures IsSubseq(a + [x], b + [x])
  {
    var idx: seq<nat> :| SubseqAt(a, b, idx);
    var idx': seq<nat> := idx + [|b|];
    assert forall k :: 0 <= k < |idx| ==> idx'[k] == idx[k] && (a + [x])[k] == a[k];
    assert forall k :: 0 <= k < |idx| ==> (b + [x])[idx[k]] == b[idx[k]];
    assert SubseqAt(a + [x], b + [x], idx');
  }

  /** A subsequence is no longer than the sequence. */
  lemma SubseqLength<T>(a: seq<T>, b: seq<T>)
    requires IsSubseq(a, b)
    ensures |a| <= |b|
  {
    var idx: seq<nat> :| SubseqAt(a, b, idx);
    IncreasingBelow(idx, |b|);
  }

  lemma {:induction false} IncreasingBelow(idx: seq<nat>, n: nat)
    requires forall k :: 0 <= k < |idx| ==> idx[k] < n
    requires forall k, l :: 0 <= k < l < |idx| ==> idx[k] < idx[l]
    ensures |idx| <= n
  {
    if |idx| > 0 {
      var init := idx[..|idx| - 1];
      assert forall k :: 0 <= k < |init| ==> init[k] < idx[|idx| - 1];
      IncreasingBelow(init, idx[|idx| - 1]);
    }
  }

  /** The elements of `s` at positions `idx`, in that order. */
  function Pick<T>(s: seq<T>, idx: seq<nat>): (r: seq<T>)
    requires forall k :: 0 <= k < |idx| ==> idx[k] < |s|
    ensures |r| == |idx| && forall k :: 0 <= k < |idx| ==> r[k] == s[idx[k]]
  {
    seq(|idx|, k requires 0 <= k < |idx| => s[idx[k]])
  }
}
