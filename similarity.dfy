/** `SimilarityAnalyzer`: a request is an outlier when fewer than three
    other requests are more similar to it than a threshold. The cosine
    similarity matrix of the batch is given. */
module Similarity {
  import opened Wrappers
  import opened RowOps
  import Vectorizer

  /** `(index, similarity_score, similar_indices)` */
  type Outlier = (nat, real, seq<nat>)

  /** `np.where(row > threshold)[0]`: the indices above the threshold, in
      increasing order. */
  function Above(row: seq<real>, threshold: real): (s: seq<nat>)
    ensures forall j: int :: j in s <==> 0 <= j < |row| && row[j] > threshold
    ensures forall k, l :: 0 <= k < l < |s| ==> s[k] < s[l]
  {
    if |row| == 0 then []
    else
      var init := Above(row[..|row| - 1], threshold);
      assert forall j :: 0 <= j < |row| - 1 ==> row[..|row| - 1][j] == row[j];
      assert forall k :: 0 <= k < |init| ==> init[k] < |row| - 1 by {
        forall k | 0 <= k < |init| ensures init[k] < |row| - 1 { assert init[k] in init; }
      }
      init + (if row[|row| - 1] > threshold then [|row| - 1] else [])
  }

  /** What the loop does for request `i`. */
  function OutlierAt(sims: seq<seq<real>>, i: nat, threshold: real): Option<Outlier>
    requires i < |sims| && i < |sims[i]|
  {
    var row := SelfZeroed(sims[i], i);
    if |Above(row, threshold)| < 3 then Some((i, Max(row), TopThree(row))) else None
  }

  /** The loop's outcome for every request. */
  function Checks(sims: seq<seq<real>>, n: nat, threshold: real): (opts: seq<Option<Outlier>>)
    requires Square(sims, n)
    ensures |opts| == n
    ensures forall i :: 0 <= i < n ==> opts[i] == OutlierAt(sims, i, threshold)
  {
    seq(n, i requires 0 <= i < n => OutlierAt(sims, i, threshold))
  }

  /** What `find_anomalies` returns for `n` requests; `sims` is `None` when
      vectorizing or the similarity computation raises. */
  function Outliers(n: nat, sims: Option<seq<seq<real>>>, threshold: real): seq<Outlier>
    requires sims.Some? ==> Square(sims.value, n)
  {
    if n < 2 || sims.None? then [] else Somes(Checks(sims.value, n, threshold))
  }

  class SimilarityAnalyzer {
    const similarityThreshold: real

    constructor (similarityThreshold: real := 0.8)
      ensures this.similarityThreshold == similarityThreshold
    {
      this.similarityThreshold := similarityThreshold;
    }

    /** `find_anomalies`, with `cosine_similarity(fit_transform(requests))`
        given as `sims`. */
    method FindAnomalies(requests: seq<Vectorizer.Request>, sims: Option<seq<seq<real>>>)
      returns (anomalies: seq<Outlier>)
      requires sims.Some? ==> Square(sims.value, |requests|)
      ensures anomalies == Outliers(|requests|, sims, similarityThreshold)
    {
      if |requests| < 2 {
        return [];
      }
      if sims.None? {
        return [];
      }
      var similarities := sims.value;
      ghost var opts := Checks(similarities, |requests|, similarityThreshold);
      anomalies := [];
      var i := 0;
      while i < |requests|
        invariant i <= |requests|
        invariant anomalies == Somes(opts[..i])
      {
        var outlier := CheckRequest(similarities, i, similarityThreshold);
        SomesStep(opts, i);
        if outlier.Some? {
          anomalies := anomalies + [outlier.value];
        }
        i := i + 1;
      }
      assert opts[..|requests|] == opts;
    }
  }

  /** The body of the `find_anomalies` loop for request `i`. */
  method CheckRequest(similarities: seq<seq<real>>, i: nat, threshold: real) returns (outlier: Option<Outlier>)
    requires i < |similarities| && i < |similarities[i]|
    ensures outlier == OutlierAt(similarities, i, threshold)
  {
    var row := CopyZeroed(similarities[i], i);
    var similar := WhereAbove(row, threshold);
    if |similar| < 3 {
      var maxSimilarity := Max(row);
      var top := TopThree(row);
      outlier := Some((i, maxSimilarity, top));
    } else {
      outlier := None;
    }
  }

  /** `np.where(row > threshold)[0]` */
  method WhereAbove(row: seq<real>, threshold: real) returns (s: seq<nat>)
    ensures s == Above(row, threshold)
  {
    s := [];
    for j := 0 to |row|
      invariant s == Above(row[..j], threshold)
    {
      assert row[..j + 1][..j] == row[..j];
      if row[j] > threshold {
        s := s + [j];
      }
    }
    assert row[..|row|] == row;
  }

  // ---------------------------------------------------------------------
  // Properties

  /** The set of elements of a sequence. */
  function SetOf(s: seq<nat>): set<nat> {
    set x | x in s
  }

  lemma SetOfSnoc(s: seq<nat>, x: nat)
    ensures SetOf(s + [x]) == SetOf(s) + {x}
  {
    assert forall y :: y in s + [x] <==> y in s || y == x;
  }

  /** A strictly increasing sequence has as many elements as its set. */
  lemma {:induction false} IncreasingCard(s: seq<nat>)
    requires forall k, l :: 0 <= k < l < |s| ==> s[k] < s[l]
    ensures |SetOf(s)| == |s|
  {
    if |s| > 0 {
      var init := s[..|s| - 1];
      var last := s[|s| - 1];
      IncreasingCard(init);
      assert s == init + [last];
      SetOfSnoc(init, last);
      assert last !in SetOf(init) by {
        forall k | 0 <= k < |init| ensures init[k] != last {
          assert init[k] == s[k];
        }
      }
    }
  }

  /** The other requests more similar to request `i` than the threshold. */
  function OthersAbove(row: seq<real>, i: nat, threshold: real): set<nat> {
    set j: nat | j < |row| && j != i && row[j] > threshold
  }

  /** The indices above the threshold in a self-zeroed row are the other
      requests above it, plus the request itself when the threshold is
      negative. */
  lemma AboveSelfZeroed(row: seq<real>, i: nat, threshold: real)
    requires i < |row|
    ensures var above := Above(SelfZeroed(row, i), threshold);
      |above| == |OthersAbove(row, i, threshold)| + (if 0.0 > threshold then 1 else 0)
  {
    var above := Above(SelfZeroed(row, i), threshold);
    var others := OthersAbove(row, i, threshold);
    IncreasingCard(above);
    AboveSelfZeroedSet(row, i, threshold);
    assert i !in others;
  }

  lemma AboveSelfZeroedSet(row: seq<real>, i: nat, threshold: real)
    requires i < |row|
    ensures SetOf(Above(SelfZeroed(row, i), threshold)) ==
      OthersAbove(row, i, threshold) + (if 0.0 > threshold then {i} else {})
  {
    var z := SelfZeroed(row, i);
    var lhs := SetOf(Above(z, threshold));
    var rhs := OthersAbove(row, i, threshold) + (if 0.0 > threshold then {i} else {});
    forall j: nat ensures j in lhs <==> j in rhs {
      if j < |row| && j != i { assert z[j] == row[j]; }
    }
  }

  /** Some tuple of `out` is about request `i`. */
  predicate Lists(out: seq<Outlier>, i: nat) {
    exists k :: 0 <= k < |out| && out[k].0 == i
  }

  /** Request `i` of a batch of at least two is reported iff fewer than three
      other requests are more similar to it than the threshold (counting
      itself too when the threshold is negative, since its entry is 0). */
  lemma ReportedIff(n: nat, sims: seq<seq<real>>, threshold: real, i: nat)
    requires Square(sims, n) && 2 <= n && i < n
    ensures Lists(Outliers(n, Some(sims), threshold), i) <==>
      |OthersAbove(sims[i], i, threshold)| + (if 0.0 > threshold then 1 else 0) < 3
  {
    var opts := Checks(sims, n, threshold);
    assert Indexed(opts);
    SomesHasIndex(opts, i);
    AboveSelfZeroed(sims[i], i, threshold);
    assert opts[i] == OutlierAt(sims, i, threshold);
    assert opts[i].Some? <==> |Above(SelfZeroed(sims[i], i), threshold)| < 3;
    assert Outliers(n, Some(sims), threshold) == Somes(opts);
  }

  /** An indexed sequence's present entries include one for position `i`
      exactly when entry `i` is present. */
  lemma SomesHasIndex(opts: seq<Option<Outlier>>, i: nat)
    requires Indexed(opts) && i < |opts|
    ensures Lists(Somes(opts), i) <==> opts[i].Some?
  {
    var out := Somes(opts);
    SomesMembers(opts);
    if opts[i].Some? {
      assert opts[i].value in out;
      var k :| 0 <= k < |out| && out[k] == opts[i].value;
      assert out[k].0 == i;
    } else {
      forall k | 0 <= k < |out| ensures out[k].0 != i {
        assert out[k] in out;
        var j :| 0 <= j < |opts| && opts[j] == Some(out[k]);
      }
    }
  }

  /** The score is the largest similarity to another request (at least 0,
      the zeroed self, and otherwise attained by another request), and the
      neighbour list holds min(3, n) indices of the most similar requests,
      least similar first. */
  predicate WellFormed(sims: seq<seq<real>>, n: nat, o: Outlier)
    requires Square(sims, n)
  {
    var (i, score, similar) := o;
    i < n &&
    var row := SelfZeroed(sims[i], i);
    && 0.0 <= score
    && (forall j :: 0 <= j < n && j != i ==> sims[i][j] <= score)
    && (score == 0.0 || exists j :: 0 <= j < n && j != i && sims[i][j] == score)
    && |similar| == Min(3, n)
    && (forall a :: 0 <= a < |similar| ==> similar[a] < n)
    && (forall a, b :: 0 <= a < b < |similar| ==> similar[a] != similar[b] && row[similar[a]] <= row[similar[b]])
    && (forall j, a :: 0 <= j < n && j !in similar && 0 <= a < |similar| ==> row[j] <= row[similar[a]])
  }

  lemma OutlierAtWellFormed(sims: seq<seq<real>>, n: nat, threshold: real, i: nat)
    requires Square(sims, n) && i < n
    requires OutlierAt(sims, i, threshold).Some?
    ensures WellFormed(sims, n, OutlierAt(sims, i, threshold).value)
  {
    var row := SelfZeroed(sims[i], i);
    assert row[i] == 0.0;
    SelfZeroedMax(sims[i], i);
    TopThreeLargest(row);
  }

  /** Every reported tuple is well formed. */
  lemma OutlierFields(n: nat, sims: seq<seq<real>>, threshold: real, k: nat)
    requires Square(sims, n)
    requires k < |Outliers(n, Some(sims), threshold)|
    ensures WellFormed(sims, n, Outliers(n, Some(sims), threshold)[k])
  {
    var opts := Checks(sims, n, threshold);
    var out := Outliers(n, Some(sims), threshold);
    SomesMembers(opts);
    assert out[k] in out;
    var i :| 0 <= i < n && opts[i] == Some(out[k]);
    OutlierAtWellFormed(sims, n, threshold, i);
  }

  /** Each present entry carries its own position as its index. */
  predicate Indexed(opts: seq<Option<Outlier>>) {
    forall j :: 0 <= j < |opts| && opts[j].Some? ==> opts[j].value.0 == j
  }

  /** The present entries of an indexed sequence come in increasing index
      order. */
  lemma {:induction false} SomesIncreasing(opts: seq<Option<Outlier>>)
    requires Indexed(opts)
    ensures forall k :: 0 <= k < |Somes<Outlier>(opts)| ==> Somes<Outlier>(opts)[k].0 < |opts|
    ensures forall k, l :: 0 <= k < l < |Somes<Outlier>(opts)| ==> Somes<Outlier>(opts)[k].0 < Somes<Outlier>(opts)[l].0
  {
    if |opts| > 0 {
      var init := opts[..|opts| - 1];
      assert Indexed(init) by {
        forall j | 0 <= j < |init| && init[j].Some? ensures init[j].value.0 == j {
          assert init[j] == opts[j];
        }
      }
      SomesIncreasing(init);
      var before := Somes<Outlier>(init);
      var out := Somes<Outlier>(opts);
      var last := opts[|opts| - 1];
      assert out == before + (if last.Some? then [last.value] else []);
      assert last.Some? ==> last.value.0 == |opts| - 1;
      forall k | 0 <= k < |out| ensures out[k].0 < |opts| {
        if k < |before| { assert out[k] == before[k]; } else { assert out[k] == last.value; }
      }
      forall k, l | 0 <= k < l < |out| ensures out[k].0 < out[l].0 {
        assert out[k] == before[k];
        if l < |before| { assert out[l] == before[l]; } else { assert out[l] == last.value; }
      }
    }
  }

  /** `find_anomalies` lists its tuples in increasing request order. */
  lemma OutliersInOrder(n: nat, sims: seq<seq<real>>, threshold: real)
    requires Square(sims, n)
    ensures var out := Outliers(n, Some(sims), threshold);
      forall k, l :: 0 <= k < l < |out| ==> out[k].0 < out[l].0
  {
    var opts := Checks(sims, n, threshold);
    assert Indexed(opts);
    SomesIncreasing(opts);
    if n >= 2 {
      assert Outliers(n, Some(sims), threshold) == Somes<Outlier>(opts);
    }
  }

  /** The indices below `n` other than `i`, in increasing order. */
  function Others(n: nat, i: nat): (r: seq<nat>)
    requires i < n
    ensures |r| == n - 1
  {
    seq(n - 1, k requires 0 <= k < n - 1 => if k < i then k else k + 1)
  }

  /** At most `n - 1` other requests can be above the threshold. */
  lemma OthersAboveBound(row: seq<real>, i: nat, threshold: real)
    requires i < |row|
    ensures |OthersAbove(row, i, threshold)| <= |row| - 1
  {
    var n := |row|;
    var others := Others(n, i);
    IncreasingCard(others);
    var a := OthersAbove(row, i, threshold);
    assert a <= SetOf(others) by {
      forall j | j in a ensures j in SetOf(others) {
        if j < i { assert others[j] == j; } else { assert others[j - 1] == j; }
      }
    }
    assert SetOf(others) == a + (SetOf(others) - a);
  }

  /** With two or three requests and a non-negative threshold no request can
      have three neighbours above it, so every request is reported, in order,
      and each neighbour list holds every index, the request's own included. */
  lemma SmallBatchAllReported(n: nat, sims: seq<seq<real>>, threshold: real)
    requires Square(sims, n) && 2 <= n <= 3 && 0.0 <= threshold
    ensures var out := Outliers(n, Some(sims), threshold);
      && |out| == n
      && (forall k :: 0 <= k < n ==> out[k].0 == k && k in out[k].2)
  {
    var opts := Checks(sims, n, threshold);
    forall k | 0 <= k < n ensures opts[k].Some? && opts[k].value.0 == k && k in opts[k].value.2 {
      SmallBatchReported(sims[k], k, threshold);
    }
    AllSomes(opts);
  }

  /** In a row of at most three entries, fewer than three indices of the
      self-zeroed row lie above a non-negative threshold, and the neighbour
      list takes every index. */
  lemma SmallBatchReported(row: seq<real>, i: nat, threshold: real)
    requires i < |row| <= 3 && 0.0 <= threshold
    ensures |Above(SelfZeroed(row, i), threshold)| < 3
    ensures i in TopThree(SelfZeroed(row, i))
  {
    AboveSelfZeroed(row, i, threshold);
    OthersAboveBound(row, i, threshold);
    TopThreeOfShortRow(SelfZeroed(row, i), i);
  }

  /** When every entry is present, `Somes` keeps all of them. */
  lemma {:induction false} AllSomes<T>(opts: seq<Option<T>>)
    requires forall k :: 0 <= k < |opts| ==> opts[k].Some?
    ensures |Somes(opts)| == |opts|
    ensures forall k :: 0 <= k < |opts| ==> Somes(opts)[k] == opts[k].value
  {
    if |opts| > 0 {
      AllSomes(opts[..|opts| - 1]);
    }
  }
}
