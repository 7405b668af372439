/** `APIDeduplicator` (src/analysis/deduplicator_v1.py): drops an event when
    its payload is semantically (TF-IDF cosine) or textually (fuzzy ratio)
    close to some other event that has not been kept yet. The cosine matrix
    and the fuzzy ratio are inputs. Modelled as written; the first-fit
    variant that compares only against kept events is at the end. */
module DeduplicatorV1 {
  import opened JsonValue
  import opened Sequences
  import opened Fuzz
  import opened Wrappers
  import opened RowOps

  /** An event as the deduplicator reads it: `event['id']`, `event['payload']`. */
  datatype ApiEvent = ApiEvent(id: int, payload: Json)

  /** What the method is given: the events, the cosine similarity matrix of
      their payload strings, and `fuzz.ratio`. */
  datatype Batch = Batch(events: seq<ApiEvent>, sims: seq<seq<real>>, ratio: Ratio) {
    predicate Valid() {
      Square(sims, |events|)
    }
  }

  datatype Thresholds = Thresholds(semantic: real, fuzzy: int)

  /** Event `i` counts as a duplicate of event `j`: cosine at least the
      semantic threshold, or fuzzy ratio of the two payload strings at least
      the fuzzy threshold. */
  predicate Near(b: Batch, t: Thresholds, i: nat, j: nat)
    requires b.Valid() && i < |b.events| && j < |b.events|
  {
    b.sims[i][j] >= t.semantic
      || b.ratio(Str(b.events[i].payload), Str(b.events[j].payload)) >= t.fuzzy
  }

  /** Index `j` is compared with `i` by the inner loop: another position whose
      id has not been kept. */
  predicate Candidate(b: Batch, seen: set<int>, i: nat, j: nat)
    requires j < |b.events|
  {
    j != i && b.events[j].id !in seen
  }

  predicate Duplicate(b: Batch, t: Thresholds, seen: set<int>, i: nat)
    requires b.Valid() && i < |b.events|
  {
    exists j :: 0 <= j < |b.events| && Candidate(b, seen, i, j) && Near(b, t, i, j)
  }

  function Ids(kept: seq<ApiEvent>): set<int> {
    set e | e in kept :: e.id
  }

  predicate DistinctIds(kept: seq<ApiEvent>) {
    forall p, q :: 0 <= p < q < |kept| ==> kept[p].id != kept[q].id
  }

  /** The kept events and the kept ids after the outer loop has looked at the
      first `n` events. */
  function Pass(b: Batch, t: Thresholds, n: nat): (seq<ApiEvent>, set<int>)
    requires b.Valid() && n <= |b.events|
  {
    if n == 0 then ([], {})
    else
      var (kept, seen) := Pass(b, t, n - 1);
      var e := b.events[n - 1];
      if e.id in seen || Duplicate(b, t, seen, n - 1) then (kept, seen)
      else (kept + [e], seen + {e.id})
  }

  function Unique(b: Batch, t: Thresholds): seq<ApiEvent>
    requires b.Valid()
  {
    Pass(b, t, |b.events|).0
  }

  class APIDeduplicator {
    const similarityThreshold: real
    const fuzzyThreshold: int

    constructor (similarityThreshold: real := 0.7, fuzzyThreshold: int := 80)
      ensures this.similarityThreshold == similarityThreshold
      ensures this.fuzzyThreshold == fuzzyThreshold
    {
      this.similarityThreshold := similarityThreshold;
      this.fuzzyThreshold := fuzzyThreshold;
    }

    /** `deduplicate(events)`, given the matrix `_compute_semantic_similarity`
        returns and the ratio `_compute_fuzzy_similarity` applies. */
    method Deduplicate(events: seq<ApiEvent>, sims: seq<seq<real>>, ratio: Ratio)
      returns (unique: seq<ApiEvent>)
      requires Square(sims, |events|)
      ensures unique == Unique(Batch(events, sims, ratio), Thresholds(similarityThreshold, fuzzyThreshold))
    {
      var b := Batch(events, sims, ratio);
      var t := Thresholds(similarityThreshold, fuzzyThreshold);
      unique := [];
      var seen: set<int> := {};
      var i := 0;
      while i < |events|
        invariant i <= |events|
        invariant (unique, seen) == Pass(b, t, i)
      {
        var event := events[i];
        if event.id !in seen {
          var hit := FirstHit(b, t, seen, i);
          if hit.None? {
            unique := unique + [event];
            seen := seen + {event.id};
          }
        }
        i := i + 1;
      }
    }
  }

  /** The inner loop: the first candidate `j` that `i` is near, where the loop
      breaks, or `None` when it runs to the end. */
  method FirstHit(b: Batch, t: Thresholds, seen: set<int>, i: nat) returns (hit: Option<nat>)
    requires b.Valid() && i < |b.events|
    ensures hit.Some? <==> Duplicate(b, t, seen, i)
    ensures hit.Some? ==> hit.value < |b.events| && Candidate(b, seen, i, hit.value) && Near(b, t, i, hit.value)
    ensures hit.Some? ==> forall j :: 0 <= j < hit.value && Candidate(b, seen, i, j) ==> !Near(b, t, i, j)
  {
    var j := 0;
    while j < |b.events|
      invariant j <= |b.events|
      invariant forall k :: 0 <= k < j && Candidate(b, seen, i, k) ==> !Near(b, t, i, k)
    {
      if j != i && b.events[j].id !in seen {
        if b.sims[i][j] >= t.semantic {
          assert Candidate(b, seen, i, j) && Near(b, t, i, j);
          return Some(j);
        }
        if b.ratio(Str(b.events[i].payload), Str(b.events[j].payload)) >= t.fuzzy {
          assert Candidate(b, seen, i, j) && Near(b, t, i, j);
          return Some(j);
        }
      }
      j := j + 1;
    }
    return None;
  }

  /** After each step of the outer loop the kept ids are exactly the ids of
      the kept events, no id is kept twice, and the kept events appear in
      input order. */
  lemma {:induction false} PassInvariant(b: Batch, t: Thresholds, n: nat)
    requires b.Valid() && n <= |b.events|
    ensures Pass(b, t, n).1 == Ids(Pass(b, t, n).0)
    ensures DistinctIds(Pass(b, t, n).0)
    ensures IsSubseq(Pass(b, t, n).0, b.events[..n])
  {
    if n == 0 {
      EmptySubseq(b.events[..0]);
    } else {
      PassInvariant(b, t, n - 1);
      var (kept, seen) := Pass(b, t, n - 1);
      var e := b.events[n - 1];
      assert b.events[..n] == b.events[..n - 1] + [e];
      if e.id in seen || Duplicate(b, t, seen, n - 1) {
        SubseqSkip(kept, b.events[..n - 1], e);
      } else {
        SubseqTake(kept, b.events[..n - 1], e);
        assert Ids(kept + [e]) == Ids(kept) + {e.id};
        assert forall p :: 0 <= p < |kept| ==> kept[p].id in Ids(kept);
      }
    }
  }

  /** The result keeps input order, never holds two events with the same id
      and is no longer than the input. */
  lemma UniqueIsSubsequence(b: Batch, t: Thresholds)
    requires b.Valid()
    ensures IsSubseq(Unique(b, t), b.events)
    ensures DistinctIds(Unique(b, t))
    ensures |Unique(b, t)| <= |b.events|
  {
    PassInvariant(b, t, |b.events|);
    assert b.events[..|b.events|] == b.events;
    SubseqLength(Unique(b, t), b.events);
  }

  /** Step `i` appends event `i` exactly when its id is not among the kept
      ids and, for every other index whose id is not kept (earlier or later,
      dropped or not), both scores stay below their thresholds; otherwise the
      step changes nothing. */
  lemma KeptIff(b: Batch, t: Thresholds, i: nat)
    requires b.Valid() && i < |b.events|
    ensures Pass(b, t, i + 1).0 == Pass(b, t, i).0 + [b.events[i]] <==>
      && b.events[i].id !in Ids(Pass(b, t, i).0)
      && forall j :: 0 <= j < |b.events| && j != i && b.events[j].id !in Ids(Pass(b, t, i).0) ==>
           b.sims[i][j] < t.semantic
           && b.ratio(Str(b.events[i].payload), Str(b.events[j].payload)) < t.fuzzy
    ensures Pass(b, t, i + 1).0 != Pass(b, t, i).0 + [b.events[i]] ==> Pass(b, t, i + 1) == Pass(b, t, i)
  {
    PassInvariant(b, t, i);
    var (kept, seen) := Pass(b, t, i);
    var e := b.events[i];
    if e.id in seen || Duplicate(b, t, seen, i) {
      assert Pass(b, t, i + 1) == Pass(b, t, i);
      assert |kept + [e]| != |kept|;
      if e.id !in seen {
        var j :| 0 <= j < |b.events| && Candidate(b, seen, i, j) && Near(b, t, i, j);
      }
    } else {
      assert Pass(b, t, i + 1).0 == kept + [e];
      forall j | 0 <= j < |b.events| && j != i && b.events[j].id !in seen
        ensures b.sims[i][j] < t.semantic
        ensures b.ratio(Str(e.payload), Str(b.events[j].payload)) < t.fuzzy
      {
        assert Candidate(b, seen, i, j);
      }
    }
  }

  /** Two events with different ids, each close to the other, are both
      dropped: the first because the second is not kept yet, the second
      because the first was not kept. */
  lemma MutualPairDropped(b: Batch, t: Thresholds)
    requires b.Valid() && |b.events| == 2
    requires b.events[0].id != b.events[1].id
    requires Near(b, t, 0, 1) && Near(b, t, 1, 0)
    ensures Unique(b, t) == []
  {
    assert Candidate(b, {}, 0, 1);
    assert Pass(b, t, 1) == ([], {});
    assert Candidate(b, {}, 1, 0);
  }

  /** Two requests with the same payload under different ids (cosine 1.0
      everywhere), with the default thresholds, leave nothing. */
  lemma IdenticalPairDropped(p: Json, ratio: Ratio)
    ensures Unique(Batch([ApiEvent(1, p), ApiEvent(2, p)], [[1.0, 1.0], [1.0, 1.0]], ratio),
                   Thresholds(0.7, 80)) == []
  {
    var b := Batch([ApiEvent(1, p), ApiEvent(2, p)], [[1.0, 1.0], [1.0, 1.0]], ratio);
    MutualPairDropped(b, Thresholds(0.7, 80));
  }

  /** Event `i` repeats the id of a kept position or is near one. */
  predicate NearKept(b: Batch, t: Thresholds, kept: seq<nat>, i: nat)
    requires b.Valid() && i < |b.events|
    requires forall k :: 0 <= k < |kept| ==> kept[k] < |b.events|
  {
    exists k :: 0 <= k < |kept| && (b.events[kept[k]].id == b.events[i].id || Near(b, t, i, kept[k]))
  }

  /** Corrected deduplication: event `i` is compared only with the events
      already kept, so of a group of close events the first one stays. The
      positions kept among the first `n`. */
  function FirstFit(b: Batch, t: Thresholds, n: nat): (kept: seq<nat>)
    requires b.Valid() && n <= |b.events|
    ensures forall k :: 0 <= k < |kept| ==> kept[k] < n
    ensures forall p, q :: 0 <= p < q < |kept| ==> kept[p] < kept[q]
    ensures n > 0 ==> |kept| > 0 && kept[0] == 0
  {
    if n == 0 then []
    else
      var kept := FirstFit(b, t, n - 1);
      if NearKept(b, t, kept, n - 1) then kept else kept + [n - 1]
  }

  function UniqueFirstFit(b: Batch, t: Thresholds): seq<ApiEvent>
    requires b.Valid()
  {
    Pick(b.events, FirstFit(b, t, |b.events|))
  }

  /** Event `i` repeats the id of, or is near, a kept position before it. */
  predicate Covered(b: Batch, t: Thresholds, kept: seq<nat>, i: nat)
    requires b.Valid() && i < |b.events|
  {
    exists k :: 0 <= k < |kept| && kept[k] < i
      && (b.events[kept[k]].id == b.events[i].id || Near(b, t, i, kept[k]))
  }

  lemma CoveredExtend(b: Batch, t: Thresholds, kept: seq<nat>, x: nat, i: nat)
    requires b.Valid() && i < |b.events| && x < |b.events|
    requires forall k :: 0 <= k < |kept| ==> kept[k] < |b.events|
    requires Covered(b, t, kept, i)
    ensures Covered(b, t, kept + [x], i)
  {
    var k :| 0 <= k < |kept| && kept[k] < i
      && (b.events[kept[k]].id == b.events[i].id || Near(b, t, i, kept[k]));
    assert (kept + [x])[k] == kept[k];
  }

  lemma CoveredAfterKeep(b: Batch, t: Thresholds, prev: seq<nat>, x: nat)
    requires b.Valid() && x < |b.events|
    requires forall k :: 0 <= k < |prev| ==> prev[k] < |b.events|
    requires forall i :: 0 <= i < x && i !in prev ==> Covered(b, t, prev, i)
    ensures forall i :: 0 <= i <= x && i !in prev + [x] ==> Covered(b, t, prev + [x], i)
  {
    forall i | 0 <= i <= x && i !in prev + [x] ensures Covered(b, t, prev + [x], i) {
      assert i in prev ==> i in prev + [x];
      CoveredExtend(b, t, prev, x, i);
    }
  }

  /** Near a kept position that lies before `i` means covered. */
  lemma NearKeptCovered(b: Batch, t: Thresholds, kept: seq<nat>, i: nat)
    requires b.Valid() && i < |b.events|
    requires forall k :: 0 <= k < |kept| ==> kept[k] < i
    requires NearKept(b, t, kept, i)
    ensures Covered(b, t, kept, i)
  {
    var k :| 0 <= k < |kept| && (b.events[kept[k]].id == b.events[i].id || Near(b, t, i, kept[k]));
  }

  /** Every event the corrected version drops repeats the id of, or is near,
      an earlier event it keeps. */
  lemma {:induction false} FirstFitCovers(b: Batch, t: Thresholds, n: nat)
    requires b.Valid() && n <= |b.events|
    ensures forall i :: 0 <= i < n && i !in FirstFit(b, t, n) ==> Covered(b, t, FirstFit(b, t, n), i)
  {
    if n > 0 {
      FirstFitCovers(b, t, n - 1);
      var prev := FirstFit(b, t, n - 1);
      assert FirstFit(b, t, n) == if NearKept(b, t, prev, n - 1) then prev else prev + [n - 1];
      FirstFitCoversStep(b, t, prev, n - 1);
    }
  }

  /** One step of `FirstFit`, at position `x`, keeps every dropped position
      covered. */
  lemma FirstFitCoversStep(b: Batch, t: Thresholds, prev: seq<nat>, x: nat)
    requires b.Valid() && x < |b.events|
    requires forall k :: 0 <= k < |prev| ==> prev[k] < x
    requires forall i :: 0 <= i < x && i !in prev ==> Covered(b, t, prev, i)
    ensures var kept := if NearKept(b, t, prev, x) then prev else prev + [x];
      forall i :: 0 <= i <= x && i !in kept ==> Covered(b, t, kept, i)
  {
    if NearKept(b, t, prev, x) {
      NearKeptCovered(b, t, prev, x);
    } else {
      CoveredAfterKeep(b, t, prev, x);
    }
  }

  /** No two kept events share an id, and no kept event is near an earlier
      kept one. */
  lemma {:induction false} FirstFitSeparated(b: Batch, t: Thresholds, n: nat)
    requires b.Valid() && n <= |b.events|
    ensures forall p, q :: 0 <= p < q < |FirstFit(b, t, n)| ==>
      b.events[FirstFit(b, t, n)[p]].id != b.events[FirstFit(b, t, n)[q]].id
      && !Near(b, t, FirstFit(b, t, n)[q], FirstFit(b, t, n)[p])
  {
    if n > 0 {
      FirstFitSeparated(b, t, n - 1);
      var prev := FirstFit(b, t, n - 1);
      if !NearKept(b, t, prev, n - 1) {
        var kept := prev + [n - 1];
        assert forall p :: 0 <= p < |prev| ==>
          b.events[prev[p]].id != b.events[n - 1].id && !Near(b, t, n - 1, prev[p]);
      }
    }
  }

  /** The corrected result is a subsequence of the input. */
  lemma UniqueFirstFitIsSubsequence(b: Batch, t: Thresholds)
    requires b.Valid()
    ensures IsSubseq(UniqueFirstFit(b, t), b.events)
  {
    assert SubseqAt(UniqueFirstFit(b, t), b.events, FirstFit(b, t, |b.events|));
  }

  /** With the correction, of two close events the first survives. */
  lemma FirstFitPairKeepsFirst(b: Batch, t: Thresholds)
    requires b.Valid() && |b.events| == 2
    requires Near(b, t, 1, 0)
    ensures UniqueFirstFit(b, t) == [b.events[0]]
  {
    assert FirstFit(b, t, 1) == [0];
    assert NearKept(b, t, [0], 1);
  }
}
