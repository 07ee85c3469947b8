/** Reassembly of a fragmented GoPro file: the chunk offsets of its `stco`
    table say which clusters must hold a marker and where, and every target
    cluster is taken from the next source cluster that holds them all. */
module GoProNew {
  import opened Bytes
  import opened IoFile

  const GOPRO_MARKER: seq<byte> := [0x00, 0x00, 0x00, 0x03, 0x46]

  const CLUSTER_SIZE: nat := 262144

  function ClusterOf(offset: nat): (r: nat) {
    offset / 262144
  }

  function ClusterStart(cluster: nat): (r: nat) {
    cluster * 262144
  }

  // ---------- marker lists

  predicate Ascending(offsets: seq<nat>) {
    forall i, j :: 0 <= i <= j < |offsets| ==> offsets[i] <= offsets[j]
  }

  /** The offsets that lie in cluster `c`, in their order. */
  function Bucket(offsets: seq<nat>, c: nat): (r: seq<nat>) {
    if offsets == [] then []
    else
      var last := offsets[|offsets| - 1];
      Bucket(offsets[..|offsets| - 1], c) + if ClusterOf(last) == c then [last] else []
  }

  function Buckets(offsets: seq<nat>, n: nat): (r: seq<seq<nat>>) {
    seq(n, c requires 0 <= c => Bucket(offsets, c))
  }

  lemma {:induction false} BucketMembers(offsets: seq<nat>, c: nat)
    ensures forall o :: o in Bucket(offsets, c) <==> o in offsets && ClusterOf(o) == c
  {
    hide ClusterOf;
    if offsets != [] {
      var n := |offsets| - 1;
      BucketMembers(offsets[..n], c);
      assert offsets == offsets[..n] + [offsets[n]];
    }
  }

  lemma BucketNone(offsets: seq<nat>, c: nat)
    requires forall o :: o in offsets ==> ClusterOf(o) != c
    ensures Bucket(offsets, c) == []
  {
    BucketMembers(offsets, c);
    if Bucket(offsets, c) != [] {
      assert Bucket(offsets, c)[0] in Bucket(offsets, c);
    }
  }

  lemma BucketSnoc(offsets: seq<nat>, o: nat, c: nat)
    ensures Bucket(offsets + [o], c) == Bucket(offsets, c) + if ClusterOf(o) == c then [o] else []
  {
    assert (offsets + [o])[..|offsets|] == offsets;
  }

  lemma {:induction false} BucketAll(offsets: seq<nat>, k: nat, c: nat)
    requires k <= |offsets|
    requires forall i :: 0 <= i < k ==> ClusterOf(offsets[i]) != c
    requires forall i :: k <= i < |offsets| ==> ClusterOf(offsets[i]) == c
    ensures Bucket(offsets, c) == offsets[k..]
  {
    var n := |offsets| - 1;
    if k == |offsets| {
      BucketNone(offsets, c);
    } else {
      BucketAll(offsets[..n], k, c);
      assert offsets[k..] == offsets[..n][k..] + [offsets[n]];
    }
  }

  /** The buckets are a partition that keeps the order: joined, they are the table again. */
  lemma {:induction false} BucketsJoin(offsets: seq<nat>, n: nat)
    requires Ascending(offsets) && n > 0
    requires forall i :: 0 <= i < |offsets| ==> ClusterOf(offsets[i]) < n
    ensures Concat(Buckets(offsets, n)) == offsets
    decreases n
  {
    hide Bucket, Concat;
    var k := Split(offsets, n - 1);
    var front := offsets[..k];
    if n == 1 {
      assert Buckets(front, 0) == [] && front == [];
      ConcatNone<nat>();
    } else {
      BucketsJoin(front, n - 1);
    }
    BucketAll(offsets, k, n - 1);
    forall c | 0 <= c < n - 1
      ensures Bucket(offsets, c) == Bucket(front, c)
    {
      BucketPrefix(offsets, k, c);
    }
    assert Buckets(offsets, n) == Buckets(front, n - 1) + [offsets[k..]];
    ConcatSnoc(Buckets(front, n - 1), offsets[k..]);
  }

  lemma ConcatNone<T>()
    ensures Concat<T>([]) == []
  {
  }

  /** In an ascending list the clusters below `c` come first. */
  lemma Split(offsets: seq<nat>, c: nat) returns (k: nat)
    requires Ascending(offsets)
    requires forall i :: 0 <= i < |offsets| ==> ClusterOf(offsets[i]) <= c
    ensures k <= |offsets| && (c == 0 ==> k == 0)
    ensures forall i :: 0 <= i < k ==> ClusterOf(offsets[i]) < c
    ensures forall i :: k <= i < |offsets| ==> ClusterOf(offsets[i]) == c
  {
    k := 0;
    while k < |offsets| && ClusterOf(offsets[k]) < c
      invariant k <= |offsets| && (c == 0 ==> k == 0)
      invariant forall i :: 0 <= i < k ==> ClusterOf(offsets[i]) < c
    {
      k := k + 1;
    }
  }

  lemma {:induction false} BucketPrefix(offsets: seq<nat>, k: nat, c: nat)
    requires k <= |offsets|
    requires forall i :: k <= i < |offsets| ==> ClusterOf(offsets[i]) != c
    ensures Bucket(offsets, c) == Bucket(offsets[..k], c)
  {
    if k < |offsets| {
      var n := |offsets| - 1;
      BucketPrefix(offsets[..n], k, c);
      assert offsets[..n][..k] == offsets[..k];
    } else {
      assert offsets[..k] == offsets;
    }
  }

  /** No offset lies in a later cluster than the last one, and no cluster is entered twice. */
  predicate Grouped(offsets: seq<nat>)
    requires offsets != []
  {
    && (forall i :: 0 <= i < |offsets| ==> ClusterOf(offsets[i]) <= ClusterOf(offsets[|offsets| - 1]))
    && (forall i, j :: 0 <= j < i < |offsets| && ClusterOf(offsets[i]) != ClusterOf(offsets[i - 1]) ==>
        ClusterOf(offsets[j]) != ClusterOf(offsets[i]))
  }

  lemma AscendingGrouped(offsets: seq<nat>)
    requires offsets != [] && Ascending(offsets)
    ensures Grouped(offsets) && RunsAscend(offsets)
  {
  }

  /** The list the loop holds for cluster `c`. */
  function ListOf(table: seq<seq<nat>>, prev: nat, current: seq<nat>, c: nat): (r: seq<nat>) {
    if c == prev then current else if c < |table| then table[c] else []
  }

  /** The loop has every bucket of the offsets done so far. */
  ghost predicate Bucketed(done: seq<nat>, table: seq<seq<nat>>, prev: nat, current: seq<nat>) {
    forall c :: 0 <= c < |table| || c == prev ==> ListOf(table, prev, current, c) == Bucket(done, c)
  }

  /** It has lost part of the bucket of `c`. */
  ghost predicate Spoiled(done: seq<nat>, table: seq<seq<nat>>, prev: nat, current: seq<nat>, c: nat) {
    c < |table| && |ListOf(table, prev, current, c)| < |Bucket(done, c)|
  }

  /** Leaving a cluster stores its list, and entering one starts an empty one:
      nothing is lost unless the cluster was entered before. */
  lemma BucketedStep(done: seq<nat>, table: seq<seq<nat>>, prev: nat, current: seq<nat>, o: nat)
    requires Bucketed(done, table, prev, current) && (ClusterOf(o) != prev ==> prev < |table|)
    ensures var c := ClusterOf(o);
      if c == prev then Bucketed(done + [o], table, c, current + [o])
      else if Bucket(done, c) == [] then Bucketed(done + [o], table[prev := current], c, [o])
      else c < |table| ==> Spoiled(done + [o], table[prev := current], c, [o], c)
  {
    hide Bucket, ClusterOf, Bucketed, Spoiled;
    var c := ClusterOf(o);
    if c == prev {
      BucketedOn(done, table, prev, current, o);
    } else {
      BucketSnoc(done, o, c);
      BucketedLeft(done, table, prev, current, o);
      if Bucket(done, c) != [] && c < |table| {
        SpoiledHere(done + [o], table[prev := current], c, [o]);
      }
    }
  }

  lemma BucketedOn(done: seq<nat>, table: seq<seq<nat>>, prev: nat, current: seq<nat>, o: nat)
    requires Bucketed(done, table, prev, current) && ClusterOf(o) == prev
    ensures Bucketed(done + [o], table, prev, current + [o])
  {
    hide Bucket, ClusterOf;
    forall c: nat | c < |table| || c == prev
      ensures ListOf(table, prev, current + [o], c) == Bucket(done + [o], c)
    {
      BucketSnoc(done, o, c);
      assert ListOf(table, prev, current, c) == Bucket(done, c);
      assert Bucket(done, c) + [] == Bucket(done, c);
    }
  }

  lemma BucketedLeft(done: seq<nat>, table: seq<seq<nat>>, prev: nat, current: seq<nat>, o: nat)
    requires Bucketed(done, table, prev, current) && ClusterOf(o) != prev < |table|
    ensures Bucket(done, ClusterOf(o)) == [] ==> Bucketed(done + [o], table[prev := current], ClusterOf(o), [o])
  {
    hide Bucket, ClusterOf;
    var table', c' := table[prev := current], ClusterOf(o);
    forall c: nat | Bucket(done, c') == [] && (c < |table| || c == c')
      ensures ListOf(table', c', [o], c) == Bucket(done + [o], c)
    {
      BucketSnoc(done, o, c);
      assert c != c' ==> ListOf(table, prev, current, c) == Bucket(done, c);
      assert Bucket(done, c) + [] == Bucket(done, c);
    }
  }

  lemma SpoiledHere(done: seq<nat>, table: seq<seq<nat>>, c: nat, current: seq<nat>)
    requires c < |table| && |current| < |Bucket(done, c)|
    ensures Spoiled(done, table, c, current, c)
  {
  }

  lemma SpoiledStep(done: seq<nat>, table: seq<seq<nat>>, prev: nat, current: seq<nat>, o: nat, c: nat)
    requires Spoiled(done, table, prev, current, c) && (ClusterOf(o) != prev ==> prev < |table|)
    ensures if ClusterOf(o) == prev then Spoiled(done + [o], table, prev, current + [o], c)
      else Spoiled(done + [o], table[prev := current], ClusterOf(o), [o], c)
  {
    BucketSnoc(done, o, c);
    hide Bucket, ClusterOf;
  }

  /** Leaving the last cluster, or one behind it, means that it is entered again, or is behind. */
  lemma LeftTooEarly(offsets: seq<nat>, i: nat)
    requires i < |offsets| && ClusterOf(offsets[i]) != (if i == 0 then 0 else ClusterOf(offsets[i - 1]))
    requires (if i == 0 then 0 else ClusterOf(offsets[i - 1])) >= ClusterOf(offsets[|offsets| - 1])
    ensures !Grouped(offsets)
  {
    hide ClusterOf;
    var last := ClusterOf(offsets[|offsets| - 1]);
    if i > 0 && ClusterOf(offsets[i - 1]) == last {
      var k := i;
      while ClusterOf(offsets[k]) != last
        invariant i <= k < |offsets| && forall m :: i <= m < k ==> ClusterOf(offsets[m]) != last
        decreases |offsets| - k
      {
        k := k + 1;
      }
      assert k > i && ClusterOf(offsets[k - 1]) != last;
      assert ClusterOf(offsets[k]) != ClusterOf(offsets[k - 1]) && ClusterOf(offsets[i - 1]) == ClusterOf(offsets[k]);
    }
  }

  /** Nothing left behind from the last cluster on: it is entered only once. */
  ghost predicate Ordered(done: seq<nat>, last: nat) {
    forall o :: o in done && ClusterOf(o) >= last ==> ClusterOf(o) == ClusterOf(done[|done| - 1])
  }

  /** A cluster entered again was left below the last one. */
  lemma EnteredAgain(done: seq<nat>, last: nat, o: nat)
    requires Ordered(done, last) && Bucket(done, ClusterOf(o)) != []
    requires done == [] || (ClusterOf(done[|done| - 1]) != ClusterOf(o) && ClusterOf(done[|done| - 1]) < last)
    ensures done != [] && ClusterOf(o) < last
    ensures exists j :: 0 <= j < |done| && ClusterOf(done[j]) == ClusterOf(o)
  {
    BucketMembers(done, ClusterOf(o));
    assert Bucket(done, ClusterOf(o))[0] in Bucket(done, ClusterOf(o));
  }

  /** The last stretch of the table that lies in cluster `c`. */
  function LastStretch(offsets: seq<nat>, c: nat): (r: seq<nat>) {
    if offsets == [] then []
    else
      var n := |offsets| - 1;
      if ClusterOf(offsets[n]) != c then LastStretch(offsets[..n], c)
      else if n > 0 && ClusterOf(offsets[n - 1]) == c then LastStretch(offsets[..n], c) + [offsets[n]]
      else [offsets[n]]
  }

  /** Offsets `i` to `j` lie in cluster `c`, the one before does not and none
      behind; there are none only if the table has nothing in the cluster. */
  predicate IsStretch(offsets: seq<nat>, c: nat, i: nat, j: nat) {
    && i <= j <= |offsets|
    && (forall k :: i <= k < j ==> ClusterOf(offsets[k]) == c)
    && (forall k :: j <= k < |offsets| ==> ClusterOf(offsets[k]) != c)
    && (i > 0 ==> i < j && ClusterOf(offsets[i - 1]) != c)
    && (i == j ==> j == 0)
  }

  lemma {:induction false} StretchOf(offsets: seq<nat>, c: nat) returns (i: nat, j: nat)
    ensures IsStretch(offsets, c, i, j) && LastStretch(offsets, c) == offsets[i..j]
  {
    hide ClusterOf, IsStretch;
    if offsets == [] {
      i, j := 0, 0;
      NoStretch(c);
    } else {
      var n := |offsets| - 1;
      i, j := StretchOf(offsets[..n], c);
      StretchNext(offsets, c, i, j);
      if ClusterOf(offsets[n]) == c {
        i, j := if n > 0 && ClusterOf(offsets[n - 1]) == c then i else n, n + 1;
      }
    }
  }

  lemma NoStretch(c: nat)
    ensures IsStretch([], c, 0, 0)
  {
  }

  lemma StretchNext(offsets: seq<nat>, c: nat, i: nat, j: nat)
    requires offsets != [] && IsStretch(offsets[..|offsets| - 1], c, i, j)
    ensures var n := |offsets| - 1;
      && offsets[..n][i..j] == offsets[i..j]
      && if ClusterOf(offsets[n]) != c then IsStretch(offsets, c, i, j)
         else if n > 0 && ClusterOf(offsets[n - 1]) == c then
           IsStretch(offsets, c, i, n + 1) && j == n && offsets[i..n] + [offsets[n]] == offsets[i..n + 1]
         else IsStretch(offsets, c, n, n + 1) && offsets[n..n + 1] == [offsets[n]]
  {
    hide ClusterOf;
    var n, front := |offsets| - 1, offsets[..|offsets| - 1];
    assert forall k :: 0 <= k < n ==> front[k] == offsets[k];
    if n > 0 && ClusterOf(offsets[n - 1]) == c {
      assert front[n - 1] == offsets[n - 1];
    }
  }

  /** Offset `i` leaves a cluster that is not before the last one: `at` throws. */
  predicate LeavesLate(offsets: seq<nat>, i: nat)
    requires i < |offsets|
  {
    var before, last := if i == 0 then 0 else ClusterOf(offsets[i - 1]), ClusterOf(offsets[|offsets| - 1]);
    ClusterOf(offsets[i]) != before >= last
  }

  ghost predicate Stretched(done: seq<nat>, table: seq<seq<nat>>, prev: nat, current: seq<nat>) {
    forall c :: 0 <= c < |table| || c == prev ==> ListOf(table, prev, current, c) == LastStretch(done, c)
  }

  lemma StretchedStart(table: seq<seq<nat>>)
    requires forall c :: 0 <= c < |table| ==> table[c] == []
    ensures Stretched([], table, 0, [])
  {
  }

  lemma StretchedStep(offsets: seq<nat>, i: nat, table: seq<seq<nat>>, prev: nat, current: seq<nat>)
    requires i < |offsets| && Stretched(offsets[..i], table, prev, current)
    requires prev == if i == 0 then 0 else ClusterOf(offsets[i - 1])
    requires i == 0 ==> current == []
    requires ClusterOf(offsets[i]) != prev ==> prev < |table|
    ensures var c := ClusterOf(offsets[i]);
      if c == prev then Stretched(offsets[..i + 1], table, c, current + [offsets[i]])
      else Stretched(offsets[..i + 1], table[prev := current], c, [offsets[i]])
  {
    var next, c := offsets[..i + 1], ClusterOf(offsets[i]);
    var table', current' := if c == prev then table else table[prev := current], if c == prev then current + [offsets[i]] else [offsets[i]];
    forall d | 0 <= d < |table'| || d == c
      ensures ListOf(table', c, current', d) == LastStretch(next, d)
    {
      StretchSnoc(offsets, i, d);
    }
  }

  lemma StretchSnoc(offsets: seq<nat>, i: nat, c: nat)
    requires i < |offsets|
    ensures LastStretch(offsets[..i + 1], c) ==
      if ClusterOf(offsets[i]) != c then LastStretch(offsets[..i], c)
      else if i > 0 && ClusterOf(offsets[i - 1]) == c then LastStretch(offsets[..i], c) + [offsets[i]] else [offsets[i]]
  {
    hide ClusterOf;
    assert offsets[..i + 1][..i] == offsets[..i];
  }

  lemma StretchedEnd(offsets: seq<nat>, table: seq<seq<nat>>, current: seq<nat>)
    requires Stretched(offsets, table, |table|, current)
    ensures table + [current] == seq(|table| + 1, c requires 0 <= c => LastStretch(offsets, c))
  {
    assert forall c :: 0 <= c <= |table| ==> (table + [current])[c] == ListOf(table, |table|, current, c);
  }

  /** `toArrayListMarkers`; None stands for the exception of `at`. The source has
      no table to offer for an empty list. Every cluster gets its last stretch;
      that is the partition into buckets exactly when no cluster is entered
      twice or lies behind the last. */
  method ToArrayListMarkers(offsets: seq<nat>) returns (r: Option<seq<seq<nat>>>)
    requires offsets != []
    ensures r == Some(Buckets(offsets, ClusterOf(offsets[|offsets| - 1]) + 1)) <==> Grouped(offsets)
    ensures r.Some? && RunsAscend(offsets) ==> WellBucketed(r.value)
    ensures r.None? <==> exists i :: 0 <= i < |offsets| && LeavesLate(offsets, i)
    ensures r.Some? ==> r.value == seq(ClusterOf(offsets[|offsets| - 1]) + 1, c requires 0 <= c => LastStretch(offsets, c))
  {
    hide Bucketed, Bucket, Spoiled, Ordered, Grouped, ClusterOf, Buckets, RunsAscend, WellPlaced, Collected, Stretched, LastStretch;
    var listMarkers, prev := [], 0;
    ghost var last, spoiled: Option<nat> := ClusterOf(offsets[|offsets| - 1]), None;
    var table: seq<seq<nat>> := seq(ClusterOf(offsets[|offsets| - 1]), _ => []);
    BucketedStart(table, last);
    CollectedStart(offsets, table);
    StretchedStart(table);
    assert offsets[..0] == [];
    for i := 0 to |offsets|
      invariant |table| == last && prev == if i == 0 then 0 else ClusterOf(offsets[i - 1])
      invariant Ordered(offsets[..i], last)
      invariant Stretched(offsets[..i], table, prev, listMarkers) && (i == 0 ==> listMarkers == [])
      invariant forall j :: 0 <= j < i ==> !LeavesLate(offsets, j)
      invariant RunsAscend(offsets) ==> Collected(offsets, i, table, prev, listMarkers)
      invariant spoiled.None? ==> Bucketed(offsets[..i], table, prev, listMarkers)
      invariant spoiled.None? ==> FreshUpTo(offsets, i)
      invariant spoiled.Some? ==> Spoiled(offsets[..i], table, prev, listMarkers, spoiled.value) && !Grouped(offsets)
    {
      var numCluster := ClusterOf(offsets[i]);
      assert offsets[..i + 1] == offsets[..i] + [offsets[i]];
      if numCluster != prev && prev >= |table| {
        LeftTooEarly(offsets, i);
        assert LeavesLate(offsets, i);
        return None;
      }
      StretchedStep(offsets, i, table, prev, listMarkers);
      OrderedStep(offsets, i, last);
      if RunsAscend(offsets) {
        CollectedStep(offsets, i, table, prev, listMarkers);
      }
      spoiled := AfterStep(offsets, i, last, table, prev, listMarkers, spoiled);
      if numCluster != prev {
        table := table[prev := listMarkers];
        listMarkers := [];
        assert listMarkers + [offsets[i]] == [offsets[i]];
      }
      listMarkers := listMarkers + [offsets[i]];
      prev := numCluster;
    }
    assert offsets[..|offsets|] == offsets;
    BucketedEnd(offsets, table, listMarkers, spoiled);
    StretchedEnd(offsets, table, listMarkers);
    if RunsAscend(offsets) {
      CollectedEnd(offsets, table, prev, listMarkers);
    }
    r := Some(table + [listMarkers]);
  }

  /** Within one cluster the offsets do not descend. Otherwise the comparison
      with a cluster reads behind its buffer, which the last offset sizes. */
  predicate RunsAscend(offsets: seq<nat>) {
    forall i :: 0 < i < |offsets| && ClusterOf(offsets[i - 1]) == ClusterOf(offsets[i]) ==> offsets[i - 1] <= offsets[i]
  }

  /** All lists collected are of their clusters, and end with their greatest offset. */
  ghost predicate Collected(offsets: seq<nat>, i: nat, table: seq<seq<nat>>, prev: nat, current: seq<nat>)
    requires i <= |offsets|
  {
    && (forall c :: 0 <= c < |table| ==> WellPlaced(table[c], c))
    && WellPlaced(current, prev) && (i == 0 ==> current == []) && (i > 0 ==> current != [] && current[|current| - 1] == offsets[i - 1])
  }

  lemma CollectedStart(offsets: seq<nat>, table: seq<seq<nat>>)
    requires forall c :: 0 <= c < |table| ==> table[c] == []
    ensures Collected(offsets, 0, table, 0, [])
  {
  }

  lemma CollectedStep(offsets: seq<nat>, i: nat, table: seq<seq<nat>>, prev: nat, current: seq<nat>)
    requires i < |offsets| && RunsAscend(offsets) && Collected(offsets, i, table, prev, current)
    requires prev == if i == 0 then 0 else ClusterOf(offsets[i - 1])
    requires ClusterOf(offsets[i]) != prev ==> prev < |table|
    ensures var c := ClusterOf(offsets[i]);
      if c == prev then Collected(offsets, i + 1, table, c, current + [offsets[i]])
      else Collected(offsets, i + 1, table[prev := current], c, [offsets[i]])
  {
    hide ClusterOf;
  }

  lemma CollectedEnd(offsets: seq<nat>, table: seq<seq<nat>>, prev: nat, current: seq<nat>)
    requires offsets != [] && Collected(offsets, |offsets|, table, prev, current) && prev == |table|
    ensures WellBucketed(table + [current])
  {
    hide WellPlaced;
  }

  /** No cluster was entered twice before offset `i`. */
  ghost predicate FreshUpTo(offsets: seq<nat>, i: nat) {
    forall m, j :: 0 <= j < m < i <= |offsets| && ClusterOf(offsets[m]) != ClusterOf(offsets[m - 1]) ==>
      ClusterOf(offsets[j]) != ClusterOf(offsets[m])
  }

  lemma OrderedStep(offsets: seq<nat>, i: nat, last: nat)
    requires i < |offsets| && Ordered(offsets[..i], last)
    requires var prev := if i == 0 then 0 else ClusterOf(offsets[i - 1]); ClusterOf(offsets[i]) != prev ==> prev < last
    ensures Ordered(offsets[..i + 1], last)
  {
    hide ClusterOf;
    assert offsets[..i + 1] == offsets[..i] + [offsets[i]];
  }

  /** The state after offset `i`, and the cluster that is spoiled then, if any. */
  lemma AfterStep(offsets: seq<nat>, i: nat, last: nat, table: seq<seq<nat>>, prev: nat, current: seq<nat>, before: Option<nat>)
    returns (after: Option<nat>)
    requires i < |offsets| && last == ClusterOf(offsets[|offsets| - 1]) == |table| && Ordered(offsets[..i], last)
    requires prev == if i == 0 then 0 else ClusterOf(offsets[i - 1])
    requires ClusterOf(offsets[i]) != prev ==> prev < |table|
    requires before.None? ==> Bucketed(offsets[..i], table, prev, current) && FreshUpTo(offsets, i)
    requires before.Some? ==> Spoiled(offsets[..i], table, prev, current, before.value) && !Grouped(offsets)
    ensures var c := ClusterOf(offsets[i]);
      var table' := if c == prev then table else table[prev := current];
      var current' := if c == prev then current + [offsets[i]] else [offsets[i]];
      && (after.None? ==> Bucketed(offsets[..i + 1], table', c, current') && FreshUpTo(offsets, i + 1))
      && (after.Some? ==> Spoiled(offsets[..i + 1], table', c, current', after.value) && !Grouped(offsets))
  {
    var done, o := offsets[..i], offsets[i];
    assert offsets[..i + 1] == done + [o];
    after := before;
    if before.Some? {
      SpoiledStep(done, table, prev, current, o, before.value);
    } else {
      BucketedStep(done, table, prev, current, o);
      if ClusterOf(o) != prev && Bucket(done, ClusterOf(o)) != [] {
        hide Bucketed, Spoiled, Bucket;
        EnteredAgain(done, last, o);
        after := Some(ClusterOf(o));
      } else {
        FreshStep(offsets, i, prev);
      }
    }
    hide Bucketed, Spoiled, Bucket, Ordered, ClusterOf;
  }

  lemma FreshStep(offsets: seq<nat>, i: nat, prev: nat)
    requires i < |offsets| && FreshUpTo(offsets, i) && prev == if i == 0 then 0 else ClusterOf(offsets[i - 1])
    requires ClusterOf(offsets[i]) == prev || Bucket(offsets[..i], ClusterOf(offsets[i])) == []
    ensures FreshUpTo(offsets, i + 1)
  {
    BucketMembers(offsets[..i], ClusterOf(offsets[i]));
    hide ClusterOf, Bucket;
    assert forall j :: 0 <= j < i ==> offsets[j] in offsets[..i];
  }

  lemma BucketedStart(table: seq<seq<nat>>, last: nat)
    requires forall c :: 0 <= c < |table| ==> table[c] == []
    ensures Bucketed([], table, 0, []) && Ordered([], last)
  {
  }

  lemma BucketedEnd(offsets: seq<nat>, table: seq<seq<nat>>, current: seq<nat>, spoiled: Option<nat>)
    requires offsets != [] && |table| == ClusterOf(offsets[|offsets| - 1])
    requires Ordered(offsets, |table|)
    requires spoiled.None? ==> Bucketed(offsets, table, |table|, current) && FreshUpTo(offsets, |offsets|)
    requires spoiled.Some? ==> Spoiled(offsets, table, |table|, current, spoiled.value) && !Grouped(offsets)
    ensures table + [current] == Buckets(offsets, |table| + 1) <==> Grouped(offsets)
  {
    var last, result := |table|, table + [current];
    if spoiled.None? {
      hide Bucket, ClusterOf;
      assert forall c :: 0 <= c <= last ==> result[c] == ListOf(table, last, current, c);
      assert result == Buckets(offsets, last + 1);
    } else {
      hide Bucket, ClusterOf, Grouped;
      assert result[spoiled.value] == ListOf(table, last, current, spoiled.value);
      assert Buckets(offsets, last + 1)[spoiled.value] == Bucket(offsets, spoiled.value);
    }
  }

  // ---------- placement

  /** The list belongs to cluster `level` and its last offset is its greatest. */
  predicate WellPlaced(list: seq<nat>, level: nat) {
    forall i :: 0 <= i < |list| ==> ClusterOf(list[i]) == level && list[i] <= list[|list| - 1]
  }

  predicate MarkerAt(media: seq<byte>, at: nat) {
    at + |GOPRO_MARKER| <= |media| && media[at..at + |GOPRO_MARKER|] == GOPRO_MARKER
  }

  /** Bytes that the comparison reads at the start of a candidate cluster. */
  function Span(list: seq<nat>, level: nat): nat
    requires list != [] && WellPlaced(list, level)
  {
    list[|list| - 1] - ClusterStart(level) + |GOPRO_MARKER|
  }

  /** Source cluster at `offset` can be target cluster `level`: it can be
      copied, and all markers of the list are where they must be. */
  ghost predicate Fits(media: seq<byte>, list: seq<nat>, level: nat, offset: nat)
    requires WellPlaced(list, level)
  {
    && offset + CLUSTER_SIZE <= |media|
    && forall i :: 0 <= i < |list| ==> MarkerAt(media, offset + list[i] - ClusterStart(level))
  }

  ghost predicate WellBucketed(table: seq<seq<nat>>) {
    forall i :: 0 <= i < |table| ==> WellPlaced(table[i], i)
  }

  /** An assignment of ever later source clusters (counted from the header) to
      the target clusters that respects every marker list. */
  ghost predicate Matching(media: seq<byte>, header: nat, table: seq<seq<nat>>, a: seq<nat>)
    requires WellBucketed(table)
  {
    && |a| == |table|
    && (forall i, j :: 0 <= i < j < |a| ==> a[i] < a[j])
    && forall i :: 0 <= i < |a| ==> Fits(media, table[i], i, header + ClusterStart(a[i]))
  }

  ghost predicate Matchable(media: seq<byte>, header: nat, table: seq<seq<nat>>)
    requires WellBucketed(table)
  {
    exists b :: Matching(media, header, table, b)
  }

  /** No matching starts earlier anywhere than `placed`, nor uses a cluster before `next` after it. */
  ghost predicate Earliest(media: seq<byte>, header: nat, table: seq<seq<nat>>, placed: seq<nat>, next: nat)
    requires WellBucketed(table)
  {
    forall b :: Matching(media, header, table, b) ==>
      (forall j :: 0 <= j < |placed| && j < |b| ==> placed[j] <= b[j]) && (|placed| < |b| ==> next <= b[|placed|])
  }

  /** The chosen source clusters, one after the other. */
  function Joined(media: seq<byte>, header: nat, placed: seq<nat>): (r: seq<byte>)
    requires forall i :: 0 <= i < |placed| ==> header + ClusterStart(placed[i]) + CLUSTER_SIZE <= |media|
    ensures |r| == ClusterStart(|placed|)
  {
    if placed == [] then []
    else
      var at := header + ClusterStart(placed[|placed| - 1]);
      Joined(media, header, placed[..|placed| - 1]) + media[at..at + CLUSTER_SIZE]
  }

  /** The part of a matching found for the first target clusters, all before
      source cluster `next`, and the target it gives. */
  ghost predicate Placed(media: seq<byte>, header: nat, table: seq<seq<nat>>, placed: seq<nat>, next: nat, target: seq<byte>)
    requires WellBucketed(table)
  {
    && |placed| <= |table|
    && (forall i, j :: 0 <= i < j < |placed| ==> placed[i] < placed[j])
    && next == (if placed == [] then 0 else placed[|placed| - 1] + 1)
    && (forall i :: 0 <= i < |placed| ==> Fits(media, table[i], i, header + ClusterStart(placed[i])))
    && target == Joined(media, header, placed)
  }

  lemma SkipCluster(media: seq<byte>, header: nat, table: seq<seq<nat>>, placed: seq<nat>, next: nat)
    requires WellBucketed(table) && |placed| < |table|
    requires Earliest(media, header, table, placed, next)
    requires !Fits(media, table[|placed|], |placed|, header + ClusterStart(next))
    ensures Earliest(media, header, table, placed, next + 1)
  {
    forall b | Matching(media, header, table, b)
      ensures next < b[|placed|]
    {
      assert Fits(media, table[|placed|], |placed|, header + ClusterStart(b[|placed|]));
    }
  }

  lemma TakeCluster(media: seq<byte>, header: nat, table: seq<seq<nat>>, placed: seq<nat>, first: nat, next: nat, target: seq<byte>)
    requires WellBucketed(table) && |placed| < |table|
    requires Earliest(media, header, table, placed, next)
    requires Placed(media, header, table, placed, first, target) && first <= next
    requires Fits(media, table[|placed|], |placed|, header + ClusterStart(next))
    ensures Earliest(media, header, table, placed + [next], next + 1)
    ensures header + ClusterStart(next) + CLUSTER_SIZE <= |media|
    ensures Placed(media, header, table, placed + [next], next + 1,
                   target + media[header + ClusterStart(next)..header + ClusterStart(next) + CLUSTER_SIZE])
  {
    hide Fits, ClusterStart, Earliest, Joined;
    EarliestTake(media, header, table, placed, next);
    FitsInside(media, table[|placed|], |placed|, header + ClusterStart(next));
    forall i | 0 <= i < |placed|
      ensures header + ClusterStart(placed[i]) + CLUSTER_SIZE <= |media|
    {
      FitsInside(media, table[i], i, header + ClusterStart(placed[i]));
    }
    JoinedSnoc(media, header, placed, next);
  }

  lemma JoinedSnoc(media: seq<byte>, header: nat, placed: seq<nat>, next: nat)
    requires forall i :: 0 <= i < |placed| ==> header + ClusterStart(placed[i]) + CLUSTER_SIZE <= |media|
    requires header + ClusterStart(next) + CLUSTER_SIZE <= |media|
    ensures Joined(media, header, placed + [next]) ==
      Joined(media, header, placed) + media[header + ClusterStart(next)..header + ClusterStart(next) + CLUSTER_SIZE]
  {
    assert (placed + [next])[..|placed|] == placed;
  }

  lemma EarliestTake(media: seq<byte>, header: nat, table: seq<seq<nat>>, placed: seq<nat>, next: nat)
    requires WellBucketed(table) && |placed| < |table|
    requires Earliest(media, header, table, placed, next)
    ensures Earliest(media, header, table, placed + [next], next + 1)
  {
    hide Fits, ClusterStart;
    forall b | Matching(media, header, table, b)
      ensures |placed| + 1 < |b| ==> next < b[|placed| + 1]
    {
      assert |placed| + 1 < |b| ==> b[|placed|] < b[|placed| + 1];
    }
  }

  /** When a read at the candidate fails, no cluster from there on fits. */
  lemma OutOfClusters(media: seq<byte>, header: nat, table: seq<seq<nat>>, placed: seq<nat>, next: nat)
    requires WellBucketed(table) && |placed| < |table|
    requires Earliest(media, header, table, placed, next)
    requires var offset, list := header + ClusterStart(next), table[|placed|];
      |media| < offset + CLUSTER_SIZE || (list != [] && |media| < offset + Span(list, |placed|))
    ensures !Matchable(media, header, table)
  {
    hide Fits, ClusterStart;
    forall b | Matching(media, header, table, b)
      ensures false
    {
      var level := |placed|;
      FitsInside(media, table[level], level, header + ClusterStart(b[level]));
      LaterStarts(next, b[level]);
    }
  }

  lemma FitsInside(media: seq<byte>, list: seq<nat>, level: nat, offset: nat)
    requires WellPlaced(list, level) && Fits(media, list, level, offset)
    ensures offset + CLUSTER_SIZE <= |media| && (list != [] ==> offset + Span(list, level) <= |media|)
  {
    if list != [] {
      assert MarkerAt(media, offset + list[|list| - 1] - ClusterStart(level));
    }
  }

  lemma LaterStarts(a: nat, b: nat)
    requires a <= b
    ensures ClusterStart(a) <= ClusterStart(b)
  {
  }

  lemma {:induction false} JoinedByte(media: seq<byte>, header: nat, placed: seq<nat>, level: nat, d: nat)
    requires forall i :: 0 <= i < |placed| ==> header + ClusterStart(placed[i]) + CLUSTER_SIZE <= |media|
    requires level < |placed| && d < CLUSTER_SIZE
    ensures ClusterStart(level) + d < |Joined(media, header, placed)|
    ensures Joined(media, header, placed)[ClusterStart(level) + d] == media[header + ClusterStart(placed[level]) + d]
  {
    if level < |placed| - 1 {
      JoinedByte(media, header, placed[..|placed| - 1], level, d);
    }
  }

  /** Every listed marker that lies inside one cluster is at its offset in the joined clusters. */
  lemma MarkersInPlace(media: seq<byte>, header: nat, table: seq<seq<nat>>, placed: seq<nat>, level: nat, i: nat)
    requires WellBucketed(table) && Matching(media, header, table, placed)
    requires level < |table| && i < |table[level]|
    requires table[level][i] + |GOPRO_MARKER| <= ClusterStart(level) + CLUSTER_SIZE
    ensures forall j :: 0 <= j < |placed| ==> header + ClusterStart(placed[j]) + CLUSTER_SIZE <= |media|
    ensures MarkerAt(Joined(media, header, placed), table[level][i])
  {
    var o, joined := table[level][i], Joined(media, header, placed);
    var at := header + ClusterStart(placed[level]) + o - ClusterStart(level);
    assert ClusterOf(o) == level && MarkerAt(media, at);
    forall k | 0 <= k < |GOPRO_MARKER|
      ensures o + k < |joined| && joined[o + k] == GOPRO_MARKER[k]
    {
      JoinedByte(media, header, placed, level, o - ClusterStart(level) + k);
      assert media[at..at + |GOPRO_MARKER|][k] == media[at + k];
    }
  }

  lemma FitsWhen(media: seq<byte>, list: seq<nat>, level: nat, offset: nat)
    requires WellPlaced(list, level)
    requires offset + CLUSTER_SIZE <= |media|
    requires forall i :: 0 <= i < |list| ==> MarkerAt(media, offset + list[i] - ClusterStart(level))
    ensures Fits(media, list, level, offset)
  {
  }

  lemma NotThisCluster(media: seq<byte>, header: nat, table: seq<seq<nat>>, placed: seq<nat>, next: nat)
    requires WellBucketed(table) && |placed| < |table|
    requires Earliest(media, header, table, placed, next)
    requires !forall i :: 0 <= i < |table[|placed|]| ==>
      MarkerAt(media, header + ClusterStart(next) + table[|placed|][i] - ClusterStart(|placed|))
    ensures Earliest(media, header, table, placed, next + 1)
    ensures ClusterStart(next + 1) == ClusterStart(next) + CLUSTER_SIZE
  {
    SkipCluster(media, header, table, placed, next);
  }

  lemma PlacementStart(media: seq<byte>, header: nat, table: seq<seq<nat>>)
    requires WellBucketed(table)
    ensures Placed(media, header, table, [], 0, []) && Earliest(media, header, table, [], 0)
    ensures ClusterStart(0) == 0
  {
  }

  lemma PlacedInside(media: seq<byte>, header: nat, table: seq<seq<nat>>, placed: seq<nat>, next: nat, target: seq<byte>)
    requires WellBucketed(table) && Placed(media, header, table, placed, next, target)
    ensures |target| == ClusterStart(|placed|) && ClusterStart(next + 1) == ClusterStart(next) + CLUSTER_SIZE
  {
  }

  lemma PrefixBucketed(table: seq<seq<nat>>, k: nat)
    requires WellBucketed(table) && k <= |table|
    ensures WellBucketed(table[..k])
  {
  }

  /** What was placed first for the shorter table is also first for one list more. */
  lemma LongerTable(media: seq<byte>, header: nat, table: seq<seq<nat>>, placed: seq<nat>, next: nat, target: seq<byte>)
    requires |placed| < |table| && WellBucketed(table[..|placed|]) && WellBucketed(table[..|placed| + 1])
    requires Placed(media, header, table[..|placed|], placed, next, target)
    requires Earliest(media, header, table[..|placed|], placed, next)
    ensures Placed(media, header, table[..|placed| + 1], placed, next, target)
    ensures Earliest(media, header, table[..|placed| + 1], placed, next)
  {
    hide Fits, Joined;
    var k := |placed|;
    var shorter, longer := table[..k], table[..k + 1];
    forall b | Matching(media, header, longer, b)
      ensures (forall j :: 0 <= j < k ==> placed[j] <= b[j]) && next <= b[k]
    {
      assert longer[..k] == shorter;
      PrefixMatching(media, header, longer, k, b);
      assert k > 0 ==> b[..k][k - 1] == b[k - 1] < b[k];
      assert forall j :: 0 <= j < k ==> b[..k][j] == b[j];
    }
  }

  lemma PrefixMatching(media: seq<byte>, header: nat, table: seq<seq<nat>>, k: nat, b: seq<nat>)
    requires k <= |table| && WellBucketed(table) && WellBucketed(table[..k]) && Matching(media, header, table, b)
    ensures Matching(media, header, table[..k], b[..k])
  {
    hide Fits;
    forall i | 0 <= i < k
      ensures Fits(media, table[..k][i], i, header + ClusterStart(b[..k][i]))
    {
      assert Fits(media, table[i], i, header + ClusterStart(b[i]));
    }
  }

  /** The placement stopped: the first lists are matched, by the earliest matching
      they have, whose clusters the target holds; with the next list they have none. */
  ghost predicate Stopped(media: seq<byte>, header: nat, table: seq<seq<nat>>, placed: seq<nat>, target: seq<byte>) {
    var k := |placed|;
    && k < |table| && WellBucketed(table[..k]) && WellBucketed(table[..k + 1])
    && Matching(media, header, table[..k], placed)
    && (forall b :: Matching(media, header, table[..k], b) ==> forall i :: 0 <= i < k ==> placed[i] <= b[i])
    && !Matchable(media, header, table[..k + 1])
    && target == Joined(media, header, placed)
  }

  lemma NoLongerPrefix(media: seq<byte>, header: nat, table: seq<seq<nat>>, placed: seq<nat>, next: nat, target: seq<byte>)
    requires |placed| < |table| && WellBucketed(table) && WellBucketed(table[..|placed|]) && WellBucketed(table[..|placed| + 1])
    requires Placed(media, header, table[..|placed|], placed, next, target)
    requires Earliest(media, header, table[..|placed|], placed, next)
    requires !Matchable(media, header, table[..|placed| + 1])
    ensures Stopped(media, header, table, placed, target)
    ensures !Matchable(media, header, table)
    ensures Placed(media, header, table, placed, next, target)
  {
    hide Fits, Joined, ClusterStart;
    var k := |placed|;
    forall b | Matching(media, header, table, b)
      ensures Matching(media, header, table[..k + 1], b[..k + 1])
    {
      PrefixMatching(media, header, table, k + 1, b);
    }
  }

  lemma PlacementEnd(media: seq<byte>, header: nat, table: seq<seq<nat>>, placed: seq<nat>, next: nat, target: seq<byte>)
    requires WellBucketed(table) && |placed| == |table|
    requires Placed(media, header, table, placed, next, target) && Earliest(media, header, table, placed, next)
    ensures Matching(media, header, table, placed)
    ensures forall b :: Matching(media, header, table, b) ==> forall i :: 0 <= i < |table| ==> placed[i] <= b[i]
  {
  }

  lemma MarkerInBuffer(media: seq<byte>, offset: nat, size: nat, at: nat)
    requires offset + size <= |media| && at + |GOPRO_MARKER| <= size
    ensures media[offset..offset + size][at..at + |GOPRO_MARKER|] == GOPRO_MARKER <==> MarkerAt(media, offset + at)
  {
    SliceOfSlice(media, offset, size, at, at + |GOPRO_MARKER|);
    assert offset + (at + |GOPRO_MARKER|) == offset + at + |GOPRO_MARKER|;
  }

  class GoProRawNew {
    const source: File

    constructor (source: File)
      ensures this.source == source
    {
      this.source := source;
    }

    /** `cmpWithFirstCluster`; None when the read throws. */
    method CmpWithFirstCluster(list: seq<nat>, headerOffset: nat, level: nat) returns (r: Option<bool>)
      requires source.Ready() && WellPlaced(list, level)
      modifies source`position
      ensures list == [] ==> r == Some(false)
      ensures list != [] && headerOffset + Span(list, level) > |source.media| ==> r == None
      ensures list != [] && headerOffset + Span(list, level) <= |source.media| ==>
        r == Some(forall i :: 0 <= i < |list| ==> MarkerAt(source.media, headerOffset + list[i] - ClusterStart(level)))
    {
      hide MarkerAt;
      if list == [] {
        return Some(false);
      }
      var clusterOffset := list[|list| - 1] - ClusterStart(level);
      source.SetPosition(headerOffset);
      var read := source.ReadData(clusterOffset + |GOPRO_MARKER|);
      if read.None? {
        return None;
      }
      var buff := read.value;
      for i := 0 to |list|
        invariant forall j :: 0 <= j < i ==> MarkerAt(source.media, headerOffset + list[j] - ClusterStart(level))
      {
        var at := list[i] - ClusterStart(level);
        MarkerInBuffer(source.media, headerOffset, |buff|, at);
        if buff[at..at + |GOPRO_MARKER|] != GOPRO_MARKER {
          assert !MarkerAt(source.media, headerOffset + list[i] - ClusterStart(level));
          return Some(false);
        }
      }
      return Some(true);
    }

    /** Copies one source cluster to its place in the target; false when the read throws. */
    method CopyCluster(offset: nat, level: nat, target: File) returns (ok: bool)
      requires source != target && source.Ready() && target.Ready()
      requires |target.media| == ClusterStart(level)
      modifies source`position, target`position, target`media, target`size
      ensures ok <==> offset + CLUSTER_SIZE <= |source.media|
      ensures target.media == if ok then old(target.media) + source.media[offset..offset + CLUSTER_SIZE] else old(target.media)
    {
      source.SetPosition(offset);
      var buff := source.ReadData(CLUSTER_SIZE);
      if buff.None? {
        return false;
      }
      target.SetPosition(ClusterStart(level));
      ok := target.WriteData(buff.value);
      OverwriteEnd(old(target.media), buff.value);
    }

    /** One target cluster: the search for its source cluster, from cluster `first` on. */
    method PlaceCluster(header: nat, list: seq<nat>, level: nat, first: nat, target: File, ghost table: seq<seq<nat>>, ghost placed: seq<nat>)
      returns (ok: bool, next: nat)
      requires source != target && source.Ready() && target.Ready()
      requires WellBucketed(table) && level == |placed| < |table| && list == table[level]
      requires Placed(source.media, header, table, placed, first, target.media)
      requires Earliest(source.media, header, table, placed, first)
      modifies source`position, target`position, target`media, target`size
      ensures ok ==> Placed(source.media, header, table, placed + [next], next + 1, target.media)
      ensures ok ==> Earliest(source.media, header, table, placed + [next], next + 1)
      ensures !ok ==> target.media == old(target.media) && !Matchable(source.media, header, table)
    {
      hide Fits, ClusterStart, Matching, Earliest, Placed;
      ghost var media := source.media;
      var offset := header + ClusterStart(first);
      next := first;
      PlacedInside(media, header, table, placed, first, target.media);
      while true
        invariant offset == header + ClusterStart(next) && first <= next
        invariant Earliest(media, header, table, placed, next)
        invariant target.media == old(target.media)
        decreases |media| - offset
      {
        if list != [] {
          var same := CmpWithFirstCluster(list, offset, level);
          if same.None? {
            OutOfClusters(media, header, table, placed, next);
            return false, next;
          }
          if same == Some(false) {
            NotThisCluster(media, header, table, placed, next);
            next, offset := next + 1, offset + CLUSTER_SIZE;
            continue;
          }
        }
        var copied := CopyCluster(offset, level, target);
        if !copied {
          OutOfClusters(media, header, table, placed, next);
          return false, next;
        }
        FitsWhen(media, list, level, offset);
        TakeCluster(media, header, table, placed, first, next, old(target.media));
        return true, next;
      }
    }

    /** The placement loop over an empty target. When it fails, it has placed the
        longest beginning of the table that has a matching, as early as possible. It succeeds exactly when some
        matching exists, and its own is then nowhere later than any other. */
    method PlaceClusters(header: nat, table: seq<seq<nat>>, target: File) returns (ok: bool, placed: seq<nat>, next: nat)
      requires source != target && source.Ready() && target.Ready()
      requires target.media == [] && WellBucketed(table)
      modifies source`position, target`position, target`media, target`size
      ensures ok <==> Matchable(source.media, header, table)
      ensures Placed(source.media, header, table, placed, next, target.media)
      ensures ok ==> Matching(source.media, header, table, placed) && |placed| == |table|
      ensures ok ==> forall b :: Matching(source.media, header, table, b) ==>
        forall i :: 0 <= i < |table| ==> placed[i] <= b[i]
      ensures !ok ==> Stopped(source.media, header, table, placed, target.media)
    {
      hide Placed, Matching, Earliest, WellBucketed, Stopped;
      ghost var media := source.media;
      placed, next, ok := [], 0, true;
      PrefixBucketed(table, 0);
      PlacementStart(media, header, table[..0]);
      for level := 0 to |table|
        invariant |placed| == level && WellBucketed(table[..level])
        invariant Placed(media, header, table[..level], placed, next, target.media)
        invariant Earliest(media, header, table[..level], placed, next)
      {
        PrefixBucketed(table, level + 1);
        LongerTable(media, header, table, placed, next, target.media);
        ghost var before := target.media;
        var chosen;
        ok, chosen := PlaceCluster(header, table[level], level, next, target, table[..level + 1], placed);
        if !ok {
          assert source.media == media && level == |placed|;
          NoLongerPrefix(media, header, table, placed, next, before);
          return;
        }
        placed, next := placed + [chosen], chosen + 1;
      }
      assert table[..|table|] == table;
      PlacementEnd(media, header, table, placed, next, target.media);
      assert Matching(source.media, header, table, placed);
    }

    /** From the offset table to the reassembled clusters, one trailing cluster
        included, up to where the moov block is written. `table` is None when
        making the marker lists throws. */
    method SaveByMarkers(header: nat, offsets: seq<nat>, target: File)
      returns (table: Option<seq<seq<nat>>>, found: bool, complete: bool, placed: seq<nat>)
      requires source != target && source.Ready() && target.Ready()
      requires target.media == [] && offsets != [] && RunsAscend(offsets)
      modifies source`position, target`position, target`media, target`size
      ensures table == Some(TableOf(offsets)) <==> Grouped(offsets)
      ensures table.None? ==> !found && target.media == []
      ensures table.None? <==> exists i :: 0 <= i < |offsets| && LeavesLate(offsets, i)
      ensures table.Some? ==> |table.value| == offsets[|offsets| - 1] / 262144 + 1
      ensures table.Some? ==> forall c :: 0 <= c < |table.value| ==> table.value[c] == LastStretch(offsets, c)
      ensures table.Some? && !found ==> Stopped(source.media, header, table.value, placed, target.media)
      ensures table.Some? ==> WellBucketed(table.value) && (found <==> Matchable(source.media, header, table.value))
      ensures found ==> table.Some? && Reassembled(source.media, header, table.value, placed, complete, target.media)
      ensures found && Grouped(offsets) ==> forall o :: o in offsets && o % 262144 + 5 <= 262144 ==>
        o + 5 <= |target.media| && target.media[o..o + 5] == [0x00, 0x00, 0x00, 0x03, 0x46]
      ensures complete ==> found
    {
      hide Matching, Fits, Placed, Bucket, MarkerAt, Buckets, WellBucketed, Joined, Reassembled, Stopped, Grouped, RunsAscend;
      hide LastStretch, LeavesLate, InOneCluster;
      found, complete, placed := false, false, [];
      table := ToArrayListMarkers(offsets);
      if table.None? {
        return;
      }
      var next;
      found, placed, next := PlaceClusters(header, table.value, target);
      if !found {
        return;
      }
      ghost var joined := target.media;
      PlacedInside(source.media, header, table.value, placed, next, joined);
      if Grouped(offsets) {
        MarkersAll(source.media, header, offsets, placed, next, joined);
      }
      complete := CopyCluster(header + ClusterStart(next), |table.value|, target);
      ReassembledHere(source.media, header, table.value, placed, next, joined, complete, target.media);
      forall o | o in offsets && o % 262144 + 5 <= 262144 && Grouped(offsets)
        ensures o + 5 <= |target.media| && target.media[o..o + 5] == [0x00, 0x00, 0x00, 0x03, 0x46]
      {
        WholeMarker(joined, o);
        MarkerKept(joined, target.media, o);
        WholeMarker(target.media, o);
      }
    }
  }

  /** The target holds the earliest matching's clusters and, if the source has
      one more whole cluster, that one. */
  ghost predicate Reassembled(media: seq<byte>, header: nat, table: seq<seq<nat>>, placed: seq<nat>, complete: bool, target: seq<byte>)
    requires WellBucketed(table)
  {
    && Matching(media, header, table, placed)
    && (forall b :: Matching(media, header, table, b) ==> forall i :: 0 <= i < |placed| ==> placed[i] <= b[i])
    && var last := header + ClusterStart(if placed == [] then 0 else placed[|placed| - 1] + 1);
       && (complete <==> last + CLUSTER_SIZE <= |media|)
       && target == Joined(media, header, placed) + if complete then media[last..last + CLUSTER_SIZE] else []
  }

  lemma ReassembledHere(media: seq<byte>, header: nat, table: seq<seq<nat>>, placed: seq<nat>, next: nat, joined: seq<byte>,
                        complete: bool, target: seq<byte>)
    requires WellBucketed(table) && Placed(media, header, table, placed, next, joined)
    requires Matching(media, header, table, placed)
    requires forall b :: Matching(media, header, table, b) ==> forall i :: 0 <= i < |table| ==> placed[i] <= b[i]
    requires var last := header + ClusterStart(next);
      && (complete <==> last + CLUSTER_SIZE <= |media|)
      && target == if complete then joined + media[last..last + CLUSTER_SIZE] else joined
    ensures Reassembled(media, header, table, placed, complete, target)
  {
    hide Fits, Joined;
    assert joined + [] == joined;
  }

  function TableOf(offsets: seq<nat>): (r: seq<seq<nat>>)
    requires offsets != []
  {
    Buckets(offsets, ClusterOf(offsets[|offsets| - 1]) + 1)
  }

  /** The marker at this offset does not cross a cluster boundary. */
  predicate InOneCluster(offset: nat) {
    offset + |GOPRO_MARKER| <= ClusterStart(ClusterOf(offset)) + CLUSTER_SIZE
  }

  lemma AllListed(offsets: seq<nat>)
    requires offsets != [] && Grouped(offsets)
    ensures forall o :: o in offsets ==> ClusterOf(o) < |TableOf(offsets)| && o in TableOf(offsets)[ClusterOf(o)]
  {
    hide Bucket;
    var table := TableOf(offsets);
    forall o | o in offsets
      ensures ClusterOf(o) < |table| && o in table[ClusterOf(o)]
    {
      BucketMembers(offsets, ClusterOf(o));
    }
  }

  lemma WholeMarker(media: seq<byte>, o: nat)
    ensures InOneCluster(o) <==> o % 262144 + 5 <= 262144
    ensures MarkerAt(media, o) <==> o + 5 <= |media| && media[o..o + 5] == [0x00, 0x00, 0x00, 0x03, 0x46]
  {
  }

  lemma MarkerKept(before: seq<byte>, after: seq<byte>, at: nat)
    requires before <= after && MarkerAt(before, at)
    ensures MarkerAt(after, at)
  {
    assert after[at..at + |GOPRO_MARKER|] == before[at..at + |GOPRO_MARKER|];
  }

  lemma MarkersAll(media: seq<byte>, header: nat, offsets: seq<nat>, placed: seq<nat>, next: nat, target: seq<byte>)
    requires offsets != [] && Grouped(offsets) && WellBucketed(TableOf(offsets))
    requires Matching(media, header, TableOf(offsets), placed)
    requires Placed(media, header, TableOf(offsets), placed, next, target)
    ensures forall o :: o in offsets && InOneCluster(o) ==> MarkerAt(target, o)
  {
    AllListed(offsets);
    hide Bucket, Buckets, Fits, MarkerAt, WellPlaced, ClusterStart, Joined;
    var table := TableOf(offsets);
    forall o | o in offsets && InOneCluster(o)
      ensures MarkerAt(target, o)
    {
      var list := table[ClusterOf(o)];
      var i :| 0 <= i < |list| && list[i] == o;
      MarkersInPlace(media, header, table, placed, ClusterOf(o), i);
    }
  }
}
