/** The numpy operations both anomaly detectors apply to one row of a
    similarity matrix: `np.max`, and `np.argsort(row)[-3:]` (the indices of
    the three largest entries, in ascending order of value). */
module RowOps {

  /** An `n` by `n` matrix, as `cosine_similarity` returns for `n` vectors. */
  predicate Square(m: seq<seq<real>>, n: nat) {
    |m| == n && forall i :: 0 <= i < n ==> |m[i]| == n
  }

  /** `row.copy()` followed by `row[i] = 0`. */
  function SelfZeroed(row: seq<real>, i: nat): (r: seq<real>)
    requires i < |row|
    ensures |r| == |row| && r[i] == 0.0
    ensures forall j :: 0 <= j < |row| && j != i ==> r[j] == row[j]
  {
    row[i := 0.0]
  }

  /** `similarities[i].copy()`, then its self-entry set to 0 in place. */
  method CopyZeroed(row: seq<real>, i: nat) returns (r: seq<real>)
    requires i < |row|
    ensures r == SelfZeroed(row, i)
  {
    var copy := new real[|row|](j requires 0 <= j < |row| => row[j]);
    copy[i] := 0.0;
    r := copy[..];
  }

  /** `np.max(row)` */
  function Max(row: seq<real>): (m: real)
    requires |row| > 0
    ensures forall k :: 0 <= k < |row| ==> row[k] <= m
    ensures exists k :: 0 <= k < |row| && row[k] == m
  {
    if |row| == 1 then row[0]
    else
      var rest := Max(row[1..]);
      assert forall k :: 1 <= k < |row| ==> row[k] == row[1..][k - 1];
      if row[0] >= rest then row[0] else rest
  }

  /** The order `argsort` produces: by value, equal values by index. */
  predicate Before(row: seq<real>, a: nat, b: nat)
    requires a < |row| && b < |row|
  {
    row[a] < row[b] || (row[a] == row[b] && a < b)
  }

  predicate InRange(row: seq<real>, s: seq<nat>) {
    forall i :: 0 <= i < |s| ==> s[i] < |row|
  }

  predicate Ordered(row: seq<real>, s: seq<nat>)
    requires InRange(row, s)
  {
    forall i, j :: 0 <= i < j < |s| ==> Before(row, s[i], s[j])
  }

  /** Insert index `x` before the first index whose value is strictly larger. */
  function InsertIndex(row: seq<real>, x: nat, s: seq<nat>): (r: seq<nat>)
    requires x < |row| && InRange(row, s)
    ensures InRange(row, r) && |r| == |s| + 1
    ensures forall y :: y in r <==> y in s || y == x
  {
    if |s| == 0 then [x]
    else if row[x] < row[s[0]] then [x] + s
    else [s[0]] + InsertIndex(row, x, s[1..])
  }

  /** `np.argsort(row)` on the first `n` indices, ties in index order. */
  function ArgSortUpTo(row: seq<real>, n: nat): (s: seq<nat>)
    requires n <= |row|
    ensures InRange(row, s) && |s| == n
    ensures forall y: int :: y in s <==> 0 <= y < n
  {
    if n == 0 then []
    else
      var s := ArgSortUpTo(row, n - 1);
      var r := InsertIndex(row, n - 1, s);
      assert forall y :: y in r <==> y in s || y == n - 1;
      r
  }

  function ArgSort(row: seq<real>): (s: seq<nat>)
    ensures InRange(row, s) && |s| == |row|
    ensures forall y: int :: y in s <==> 0 <= y < |row|
  {
    ArgSortUpTo(row, |row|)
  }

  function Min(a: nat, b: nat): nat { if a <= b then a else b }

  /** `np.argsort(row)[-3:]` */
  function TopThree(row: seq<real>): (t: seq<nat>)
    ensures InRange(row, t) && |t| == Min(3, |row|)
  {
    var s := ArgSort(row);
    s[|s| - Min(3, |s|)..]
  }

  lemma {:induction false} InsertIndexOrdered(row: seq<real>, x: nat, s: seq<nat>)
    requires x < |row| && InRange(row, s) && Ordered(row, s)
    requires forall i :: 0 <= i < |s| ==> s[i] < x
    ensures Ordered(row, InsertIndex(row, x, s))
  {
    var r := InsertIndex(row, x, s);
    if |s| == 0 {
    } else if row[x] < row[s[0]] {
      forall j | 0 < j < |r| ensures Before(row, x, r[j]) {
        assert r[j] == s[j - 1];
        if j > 1 { assert Before(row, s[0], s[j - 1]); }
      }
    } else {
      InsertIndexOrdered(row, x, s[1..]);
      var t := InsertIndex(row, x, s[1..]);
      assert r == [s[0]] + t;
      forall j | 0 <= j < |t| ensures Before(row, s[0], t[j]) {
        assert t[j] in s[1..] || t[j] == x;
        if t[j] != x {
          var k :| 0 <= k < |s[1..]| && s[1..][k] == t[j];
          assert Before(row, s[0], s[k + 1]);
        }
      }
    }
  }

  /** `argsort` lists every index once, in `Before` order. */
  lemma {:induction false} ArgSortOrdered(row: seq<real>, n: nat)
    requires n <= |row|
    ensures Ordered(row, ArgSortUpTo(row, n))
  {
    if n > 0 {
      ArgSortOrdered(row, n - 1);
      var s := ArgSortUpTo(row, n - 1);
      forall i | 0 <= i < |s| ensures s[i] < n - 1 {
        assert s[i] in s;
      }
      InsertIndexOrdered(row, n - 1, s);
    }
  }

  /** `np.argsort(row)[-3:]` holds min(3, n) distinct indices of `row`, in
      ascending order of value, and no index left out has a larger value
      than any index taken: whichever way ties are broken, these are the
      three largest entries. */
  lemma TopThreeLargest(row: seq<real>)
    ensures var t := TopThree(row);
      && |t| == Min(3, |row|)
      && InRange(row, t)
      && (forall i, j :: 0 <= i < j < |t| ==> t[i] != t[j] && row[t[i]] <= row[t[j]])
      && (forall k, i :: 0 <= k < |row| && k !in t && 0 <= i < |t| ==> row[k] <= row[t[i]])
  {
    var s := ArgSort(row);
    ArgSortOrdered(row, |row|);
    var lo := |s| - Min(3, |s|);
    var t := s[lo..];
    forall q | lo <= q < |s| ensures s[q] in t {
      assert t[q - lo] == s[q];
    }
    forall k, i | 0 <= k < |row| && k !in t && 0 <= i < |t| ensures row[k] <= row[t[i]] {
      assert k in s;
      var p :| 0 <= p < |s| && s[p] == k;
      assert Before(row, s[p], s[lo + i]);
    }
    forall i, j | 0 <= i < j < |t| ensures t[i] != t[j] && row[t[i]] <= row[t[j]] {
      assert Before(row, s[lo + i], s[lo + j]);
    }
  }

  /** With at most three entries, `argsort(...)[-3:]` takes every index. */
  lemma TopThreeOfShortRow(row: seq<real>, k: nat)
    requires |row| <= 3 && k < |row|
    ensures k in TopThree(row)
  {
    var s := ArgSort(row);
    assert k in s;
    assert s[|s| - Min(3, |s|)..] == s;
  }

  /** The self-zeroed maximum is at least 0 and the largest entry at any
      other index, and it is 0 or one of those entries. */
  lemma SelfZeroedMax(row: seq<real>, i: nat)
    requires i < |row|
    ensures var m := Max(SelfZeroed(row, i));
      && 0.0 <= m
      && (forall j :: 0 <= j < |row| && j != i ==> row[j] <= m)
      && (m == 0.0 || exists j :: 0 <= j < |row| && j != i && row[j] == m)
  {
    var z := SelfZeroed(row, i);
    assert z[i] == 0.0;
    var k :| 0 <= k < |z| && z[k] == Max(z);
    if k != i { assert row[k] == z[k]; }
  }
}
