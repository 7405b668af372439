/** The bucketing step of `cluster_events` (src/analysis/cluster.py): given
    the KMeans label of each event, append every event to the list its label
    indexes. The labels are an input. */
module Cluster {
  import opened JsonValue
  import opened Sequences

  /** An event is a dict; bucketing does not look inside it. */
  datatype Event = Event(fields: seq<(string, Json)>)

  /** `zip(events, labels)` stops at the shorter of the two. */
  function ZipLength(events: seq<Event>, labels: seq<int>): nat {
    if |events| <= |labels| then |events| else |labels|
  }

  /** Every label that `zip` reaches names one of the buckets. */
  predicate LabelsInRange(events: seq<Event>, labels: seq<int>, numClusters: nat) {
    forall i :: 0 <= i < ZipLength(events, labels) ==> 0 <= labels[i] < numClusters
  }

  /** `[[] for _ in range(num_clusters)]` */
  function EmptyClusters(k: nat): seq<seq<Event>> {
    seq(k, _ => [])
  }

  /** The buckets after the first `n` pairs have been placed. */
  function Buckets(events: seq<Event>, labels: seq<int>, numClusters: nat, n: nat): (bs: seq<seq<Event>>)
    requires n <= ZipLength(events, labels) && LabelsInRange(events, labels, numClusters)
    ensures |bs| == numClusters
  {
    if n == 0 then EmptyClusters(numClusters)
    else
      var bs := Buckets(events, labels, numClusters, n - 1);
      var c := labels[n - 1];
      bs[c := bs[c] + [events[n - 1]]]
  }

  method ClusterEvents(events: seq<Event>, labels: seq<int>, numClusters: nat := 5)
    returns (clusters: seq<seq<Event>>)
    requires LabelsInRange(events, labels, numClusters)
    ensures clusters == Buckets(events, labels, numClusters, ZipLength(events, labels))
  {
    clusters := EmptyClusters(numClusters);
    var i := 0;
    while i < |events| && i < |labels|
      invariant i <= ZipLength(events, labels)
      invariant clusters == Buckets(events, labels, numClusters, i)
    {
      var event, c := events[i], labels[i];
      clusters := clusters[c := clusters[c] + [event]];
      i := i + 1;
    }
  }

  /** The positions among the first `n` whose label is `c`, in increasing
      order. */
  function Indices(labels: seq<int>, c: int, n: nat): (idx: seq<nat>)
    requires n <= |labels|
    ensures forall k :: 0 <= k < |idx| ==> idx[k] < n && labels[idx[k]] == c
    ensures forall i :: 0 <= i < n && labels[i] == c ==> i in idx
    ensures forall p, q :: 0 <= p < q < |idx| ==> idx[p] < idx[q]
  {
    if n == 0 then []
    else Indices(labels, c, n - 1) + (if labels[n - 1] == c then [n - 1] else [])
  }

  /** Bucket `c` holds exactly the events labelled `c`, in input order. */
  lemma {:induction false} BucketIsSelection(events: seq<Event>, labels: seq<int>, numClusters: nat, n: nat, c: nat)
    requires n <= ZipLength(events, labels) && LabelsInRange(events, labels, numClusters)
    requires c < numClusters
    ensures Buckets(events, labels, numClusters, n)[c] == Pick(events, Indices(labels, c, n))
  {
    if n > 0 {
      BucketIsSelection(events, labels, numClusters, n - 1, c);
    }
  }

  /** Hence every bucket is an order-preserving subsequence of the input. */
  lemma BucketKeepsOrder(events: seq<Event>, labels: seq<int>, numClusters: nat, c: nat)
    requires LabelsInRange(events, labels, numClusters) && c < numClusters
    ensures IsSubseq(Buckets(events, labels, numClusters, ZipLength(events, labels))[c], events)
  {
    var n := ZipLength(events, labels);
    BucketIsSelection(events, labels, numClusters, n, c);
    assert SubseqAt(Pick(events, Indices(labels, c, n)), events, Indices(labels, c, n));
  }

  /** Each zipped event lands in the bucket its label indexes. */
  lemma EventInItsBucket(events: seq<Event>, labels: seq<int>, numClusters: nat, i: nat)
    requires LabelsInRange(events, labels, numClusters) && i < ZipLength(events, labels)
    ensures events[i] in Buckets(events, labels, numClusters, ZipLength(events, labels))[labels[i]]
  {
    var n := ZipLength(events, labels);
    BucketIsSelection(events, labels, numClusters, n, labels[i]);
    var idx := Indices(labels, labels[i], n);
    var k :| 0 <= k < |idx| && idx[k] == i;
    assert Pick(events, idx)[k] == events[i];
  }

  /** The number of events over all buckets. */
  function Total(bs: seq<seq<Event>>): nat {
    if |bs| == 0 then 0 else Total(bs[..|bs| - 1]) + |bs[|bs| - 1]|
  }

  /** The events over all buckets, counted with multiplicity. */
  function Union(bs: seq<seq<Event>>): multiset<Event> {
    if |bs| == 0 then multiset{} else Union(bs[..|bs| - 1]) + multiset(bs[|bs| - 1])
  }

  lemma {:induction false} TotalAppend(bs: seq<seq<Event>>, c: nat, e: Event)
    requires c < |bs|
    ensures Total(bs[c := bs[c] + [e]]) == Total(bs) + 1
  {
    var m := |bs| - 1;
    if c < m {
      assert bs[c := bs[c] + [e]][..m] == bs[..m][c := bs[c] + [e]];
      TotalAppend(bs[..m], c, e);
    } else {
      assert bs[c := bs[c] + [e]][..m] == bs[..m];
    }
  }

  lemma {:induction false} UnionAppend(bs: seq<seq<Event>>, c: nat, e: Event)
    requires c < |bs|
    ensures Union(bs[c := bs[c] + [e]]) == Union(bs) + multiset{e}
  {
    var m := |bs| - 1;
    if c < m {
      assert bs[c := bs[c] + [e]][..m] == bs[..m][c := bs[c] + [e]];
      UnionAppend(bs[..m], c, e);
    } else {
      assert bs[c := bs[c] + [e]][..m] == bs[..m];
      assert multiset(bs[c] + [e]) == multiset(bs[c]) + multiset{e};
    }
  }

  lemma {:induction false} EmptyBuckets(k: nat)
    ensures Total(EmptyClusters(k)) == 0 && Union(EmptyClusters(k)) == multiset{}
  {
    if k > 0 {
      assert EmptyClusters(k)[..k - 1] == EmptyClusters(k - 1);
      EmptyBuckets(k - 1);
    }
  }

  /** The sizes of the buckets add up to the number of events placed. */
  lemma {:induction false} BucketSizesAddUp(events: seq<Event>, labels: seq<int>, numClusters: nat, n: nat)
    requires n <= ZipLength(events, labels) && LabelsInRange(events, labels, numClusters)
    ensures Total(Buckets(events, labels, numClusters, n)) == n
  {
    if n == 0 {
      EmptyBuckets(numClusters);
    } else {
      BucketSizesAddUp(events, labels, numClusters, n - 1);
      TotalAppend(Buckets(events, labels, numClusters, n - 1), labels[n - 1], events[n - 1]);
    }
  }

  lemma BucketsStep(events: seq<Event>, labels: seq<int>, numClusters: nat, n: nat)
    requires 0 < n <= ZipLength(events, labels) && LabelsInRange(events, labels, numClusters)
    ensures var bs := Buckets(events, labels, numClusters, n - 1);
      Buckets(events, labels, numClusters, n) == bs[labels[n - 1] := bs[labels[n - 1]] + [events[n - 1]]]
  {
  }

  lemma PrefixMultiset(s: seq<Event>, n: nat)
    requires 0 < n <= |s|
    ensures multiset(s[..n]) == multiset(s[..n - 1]) + multiset{s[n - 1]}
  {
    assert s[..n] == s[..n - 1] + [s[n - 1]];
  }

  lemma PartitionStep(events: seq<Event>, labels: seq<int>, numClusters: nat, n: nat)
    requires 0 < n <= ZipLength(events, labels) && LabelsInRange(events, labels, numClusters)
    requires Union(Buckets(events, labels, numClusters, n - 1)) == multiset(events[..n - 1])
    ensures Union(Buckets(events, labels, numClusters, n)) == multiset(events[..n])
  {
    var bs, c, e := Buckets(events, labels, numClusters, n - 1), labels[n - 1], events[n - 1];
    BucketsStep(events, labels, numClusters, n);
    UnionAppend(bs, c, e);
    PrefixMultiset(events, n);
  }

  /** The buckets partition the zipped events: together they hold each one
      exactly once. */
  lemma {:induction false} BucketsPartition(events: seq<Event>, labels: seq<int>, numClusters: nat, n: nat)
    requires n <= ZipLength(events, labels) && LabelsInRange(events, labels, numClusters)
    ensures Union(Buckets(events, labels, numClusters, n)) == multiset(events[..n])
  {
    if n == 0 {
      EmptyBuckets(numClusters);
    } else {
      BucketsPartition(events, labels, numClusters, n - 1);
      PartitionStep(events, labels, numClusters, n);
    }
  }
}
