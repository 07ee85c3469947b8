/** Following a FAT32 cluster chain: which clusters are visited, when the walk
    ends, and the run list it leaves in the file handle. */
module FatChain {
  import opened Arithmetic
  import opened Bytes
  import opened ClusterRuns
  import opened FatTable

  // ---------- the chain

  /** The walk from `c` ends after at most `n` visited clusters. */
  ghost predicate Ends(area: FatArea, c: nat, n: nat)
    decreases n
  {
    c == END_CLUSTER || (n > 0 && (area.Next(c) == BAD_CLUSTER || Ends(area, area.Next(c), n - 1)))
  }

  /** The visited clusters. Only the marks 0x0FFFFFFF and 0x0FFFFFF7 stop the
      walk; the other end marks are visited like clusters. */
  ghost function Chain(area: FatArea, c: nat, n: nat): (r: seq<nat>)
    requires Ends(area, c, n)
    ensures |r| <= n
    decreases n
  {
    if c == END_CLUSTER then []
    else [c] + if area.Next(c) == BAD_CLUSTER then [] else Chain(area, area.Next(c), n - 1)
  }

  ghost function Orbit(area: FatArea, c: nat, k: nat): (r: nat)
  {
    if k == 0 then c else area.Next(Orbit(area, c, k - 1))
  }

  /** The walk from `c` gets as far as visiting its cluster number `k`. */
  ghost predicate Visits(area: FatArea, c: nat, k: nat)
  {
    && Orbit(area, c, k) != END_CLUSTER
    && (k > 0 ==> Visits(area, c, k - 1) && Orbit(area, c, k) != BAD_CLUSTER)
  }

  lemma {:induction false} Shift(area: FatArea, c: nat, k: nat)
    ensures Orbit(area, c, k + 1) == Orbit(area, area.Next(c), k)
    ensures Visits(area, c, k + 1) <==> c != END_CLUSTER && area.Next(c) != BAD_CLUSTER && Visits(area, area.Next(c), k)
  {
    hide FatArea.Next;
    if k > 0 {
      Shift(area, c, k - 1);
    } else {
      assert Orbit(area, c, 1) == area.Next(Orbit(area, c, 0));
    }
  }

  lemma {:induction false} EndsUnlessVisits(area: FatArea, c: nat, n: nat)
    ensures Ends(area, c, n) <==> !Visits(area, c, n)
    decreases n
  {
    hide FatArea.Next;
    if n > 0 {
      Shift(area, c, n - 1);
      EndsUnlessVisits(area, area.Next(c), n - 1);
    }
  }

  /** The chain is the orbit, up to where the walk gets. */
  lemma {:induction false} ChainIsOrbit(area: FatArea, c: nat, n: nat, k: nat)
    requires Ends(area, c, n)
    ensures Visits(area, c, k) <==> k < |Chain(area, c, n)|
    ensures k < |Chain(area, c, n)| ==> Chain(area, c, n)[k] == Orbit(area, c, k)
    decreases n
  {
    hide FatArea.Next;
    if k > 0 {
      Shift(area, c, k - 1);
      if c != END_CLUSTER && area.Next(c) != BAD_CLUSTER {
        ChainIsOrbit(area, area.Next(c), n - 1, k - 1);
      }
    }
  }

  // ---------- when the walk ends

  /** Some visited cluster had been visited before. */
  ghost predicate Revisits(area: FatArea, c: nat)
  {
    exists i: nat, j: nat :: i < j && Visits(area, c, j) && Orbit(area, c, i) == Orbit(area, c, j)
  }

  lemma {:induction false} VisitsEarlier(area: FatArea, c: nat, j: nat, k: nat)
    requires k <= j && Visits(area, c, j)
    ensures Visits(area, c, k)
  {
    hide FatArea.Next;
    if k < j {
      VisitsEarlier(area, c, j - 1, k);
    }
  }

  /** Once a cluster has come back, the walk repeats itself for ever. */
  lemma {:induction false} Periodic(area: FatArea, c: nat, i: nat, j: nat, k: nat)
    requires i < j <= k
    requires Visits(area, c, j) && Orbit(area, c, i) == Orbit(area, c, j)
    ensures Visits(area, c, k) && Orbit(area, c, k) == Orbit(area, c, k - (j - i))
  {
    hide FatArea.Next;
    if k > j {
      Periodic(area, c, i, j, k - 1);
      VisitsEarlier(area, c, k - 1, k - (j - i));
    }
  }

  ghost function Entries(area: FatArea): (r: nat) {
    area.sectors * area.bytesPerSector / 4
  }

  /** A visited cluster that has a successor has its entry in the table. */
  lemma EntryNumber(area: FatArea, c: nat)
    requires area.Valid() && area.Next(c) != BAD_CLUSTER
    ensures area.Cell(c) / 4 < Entries(area)
    ensures c < TWO_32 ==> c + 1 < TWO_32
  {
    hide FatArea.Cell, FatArea.Readable, Masked;
    CellInSector(area.Cell(c), area.bytesPerSector, area.SectorOf(c));
    MulMonotone(area.SectorOf(c) + 1, area.sectors, area.bytesPerSector);
    LastCluster(area, c);
  }

  lemma LastCluster(area: FatArea, c: nat)
    requires area.Cell(c) + 4 < TWO_32
    ensures c < TWO_32 ==> c + 1 < TWO_32
  {
  }

  /** Clusters that share an entry have the same successor. */
  lemma SameEntry(area: FatArea, c: nat, d: nat)
    requires area.Cell(c) / 4 == area.Cell(d) / 4
    ensures area.Next(c) == area.Next(d)
  {
    hide Masked, FatArea.Readable;
    assert area.Cell(c) == area.Cell(d);
  }

  /** A walk that visits more clusters than the table has entries, and one more, has been somewhere twice. */
  lemma LongWalkRevisits(area: FatArea, c: nat)
    requires area.Valid() && Visits(area, c, Entries(area) + 1)
    ensures Revisits(area, c)
  {
    hide Entries, FatArea.Cell, FatArea.Next, Orbit, Visits;
    var n := Entries(area);
    var cells := seq(n + 1, k requires 0 <= k => area.Cell(Orbit(area, c, k)) / 4);
    forall k | 0 <= k <= n
      ensures cells[k] < n
    {
      VisitsEarlier(area, c, n + 1, k + 1);
      StepOf(area, c, k);
      EntryNumber(area, Orbit(area, c, k));
    }
    var i, j := Pigeonhole(cells, n);
    SameEntry(area, Orbit(area, c, i), Orbit(area, c, j));
    VisitsEarlier(area, c, n + 1, j + 1);
    StepOf(area, c, i);
    StepOf(area, c, j);
  }

  lemma ChainStep(area: FatArea, c: nat, n: nat)
    requires Ends(area, c, n) && c != END_CLUSTER
    ensures n > 0
    ensures if area.Next(c) == BAD_CLUSTER then Chain(area, c, n) == [c]
      else Ends(area, area.Next(c), n - 1) && Chain(area, c, n) == [c] + Chain(area, area.Next(c), n - 1)
  {
    hide FatArea.Next;
  }

  lemma StepOf(area: FatArea, c: nat, k: nat)
    ensures Orbit(area, c, k + 1) == area.Next(Orbit(area, c, k))
    ensures Visits(area, c, k + 1) ==> area.Next(Orbit(area, c, k)) != BAD_CLUSTER
  {
  }

  /** The walk ends, after at most table entries + 1 clusters, exactly when it never revisits a cluster. */
  lemma EndsIffNoRevisit(area: FatArea, c: nat)
    requires area.Valid()
    ensures (exists n: nat :: Ends(area, c, n)) <==> !Revisits(area, c)
    ensures !Revisits(area, c) ==> Ends(area, c, Entries(area) + 1)
  {
    hide Entries, Orbit, Visits, Ends;
    EndsUnlessVisits(area, c, Entries(area) + 1);
    if Visits(area, c, Entries(area) + 1) {
      LongWalkRevisits(area, c);
    }
    if Revisits(area, c) {
      var i: nat, j: nat :| i < j && Visits(area, c, j) && Orbit(area, c, i) == Orbit(area, c, j);
      forall n: nat
        ensures !Ends(area, c, n)
      {
        if j <= n {
          Periodic(area, c, i, j, n);
        } else {
          VisitsEarlier(area, c, j, n);
        }
        EndsUnlessVisits(area, c, n);
      }
    }
  }

  // ---------- end marks

  /** An end-of-chain mark that the walk does not stop on. */
  predicate OtherMark(c: nat) {
    0x0FFFFFF8 <= c <= 0x0FFFFFFE
  }

  /** The table has no entries for these marks. */
  predicate BelowMarks(area: FatArea) {
    area.sectors * area.bytesPerSector <= 4 * 0x0FFFFFF8
  }

  lemma MarkOutside(area: FatArea, mark: nat)
    requires area.Valid() && OtherMark(mark) && BelowMarks(area)
    ensures area.Next(mark) == BAD_CLUSTER
  {
    assert area.Cell(mark) == 4 * mark;
    hide FatArea.Next, FatArea.Cell;
    if area.Next(mark) != BAD_CLUSTER {
      EntryNumber(area, mark);
    }
  }

  /** Such a mark is visited as if it were a cluster, and the walk ends behind
      it exactly when its own entry says so; a table without entries for marks does. */
  lemma MarkVisited(area: FatArea, mark: nat)
    requires area.Valid() && OtherMark(mark)
    ensures Ends(area, mark, 1) <==> area.Next(mark) == BAD_CLUSTER || area.Next(mark) == END_CLUSTER
    ensures Ends(area, mark, 1) ==> Chain(area, mark, 1) == [mark]
    ensures BelowMarks(area) ==> area.Next(mark) == BAD_CLUSTER
  {
    if BelowMarks(area) {
      MarkOutside(area, mark);
    }
    hide FatArea.Next, BelowMarks;
    assert Ends(area, mark, 1) <==> area.Next(mark) == BAD_CLUSTER || Ends(area, area.Next(mark), 0);
    assert area.Next(mark) == END_CLUSTER ==> Chain(area, area.Next(mark), 0) == [];
  }

  /** The clusters of the chain as its marks mean it: up to the first end mark of any kind. */
  ghost function DataClusters(area: FatArea, c: nat, n: nat): (r: seq<nat>)
    requires Ends(area, c, n)
    ensures |r| <= n && forall d :: d in r ==> !OtherMark(d)
    decreases n
  {
    if c == END_CLUSTER || OtherMark(c) then []
    else [c] + if area.Next(c) == BAD_CLUSTER then [] else DataClusters(area, area.Next(c), n - 1)
  }

  /** What stands behind the last data cluster. */
  ghost function Closing(area: FatArea, c: nat, n: nat): (r: nat)
    requires Ends(area, c, n)
  {
    var data := DataClusters(area, c, n);
    if data == [] then c else area.Next(data[|data| - 1])
  }

  lemma DataStep(area: FatArea, c: nat, n: nat)
    requires Ends(area, c, n) && c != END_CLUSTER && !OtherMark(c) && area.Next(c) != BAD_CLUSTER
    ensures n > 0 && Ends(area, area.Next(c), n - 1)
    ensures DataClusters(area, c, n) == [c] + DataClusters(area, area.Next(c), n - 1)
    ensures Closing(area, c, n) == Closing(area, area.Next(c), n - 1)
  {
    hide FatArea.Next;
  }

  /** Behind the data clusters the walk goes on from the mark that closes them, if it is one of these. */
  lemma {:induction false} ChainBehindData(area: FatArea, c: nat, n: nat)
    requires Ends(area, c, n)
    ensures var data, mark := DataClusters(area, c, n), Closing(area, c, n);
      && (OtherMark(mark) ==> Ends(area, mark, n - |data|))
      && Chain(area, c, n) == data + if OtherMark(mark) then Chain(area, mark, n - |data|) else []
    decreases n
  {
    hide FatArea.Next, Chain, DataClusters, Closing, Ends, OtherMark;
    if c == END_CLUSTER || OtherMark(c) || area.Next(c) == BAD_CLUSTER {
      NoMoreData(area, c, n);
    } else {
      ChainStep(area, c, n);
      DataStep(area, c, n);
      ChainBehindData(area, area.Next(c), n - 1);
    }
  }

  lemma NoMoreData(area: FatArea, c: nat, n: nat)
    requires Ends(area, c, n) && (c == END_CLUSTER || OtherMark(c) || area.Next(c) == BAD_CLUSTER)
    ensures var data, mark := DataClusters(area, c, n), Closing(area, c, n);
      && (OtherMark(mark) ==> Ends(area, mark, n - |data|))
      && Chain(area, c, n) == data + if OtherMark(mark) then Chain(area, mark, n - |data|) else []
  {
    hide FatArea.Next;
    if c == END_CLUSTER || OtherMark(c) {
      assert DataClusters(area, c, n) == [] && n - 0 == n;
    }
  }

  /** The visited clusters are the data clusters exactly unless one of the other
      end marks closes them. Where the table has no entry for the mark, the walk
      visits just this one cluster too many. */
  lemma MarkInChain(area: FatArea, c: nat, n: nat)
    requires area.Valid() && Ends(area, c, n)
    ensures Chain(area, c, n) == DataClusters(area, c, n) <==> !OtherMark(Closing(area, c, n))
    ensures BelowMarks(area) && OtherMark(Closing(area, c, n)) ==>
      Chain(area, c, n) == DataClusters(area, c, n) + [Closing(area, c, n)]
  {
    ChainBehindData(area, c, n);
    var mark, left := Closing(area, c, n), n - |DataClusters(area, c, n)|;
    if OtherMark(mark) {
      MarkVisited(area, mark);
      hide FatArea.Next, DataClusters, Closing, BelowMarks;
      ChainStep(area, mark, left);
    }
  }

  /** A table of one sector in which cluster 2 is closed by 0x0FFFFFF8. */
  function MarkedArea(): (r: FatArea)
    ensures r.Valid() && BelowMarks(r)
  {
    FatArea(Zeros(8) + [0xF8, 0xFF, 0xFF, 0x0F] + Zeros(500), {}, 512, 1)
  }

  /** The one-cluster file is followed as if it had two. */
  lemma MarkCounted()
    ensures Ends(MarkedArea(), 2, 2) && DataClusters(MarkedArea(), 2, 2) == [2]
    ensures Chain(MarkedArea(), 2, 2) == [2, 0x0FFFFFF8]
  {
    var area := MarkedArea();
    assert area.Cell(2) == 8 && area.SectorOf(2) == 0;
    assert area.Next(2) == 0x0FFFFFF8;
    MarkVisited(area, 0x0FFFFFF8);
    hide FatArea.Next;
    assert Chain(area, 2, 2) == [2] + Chain(area, 0x0FFFFFF8, 1);
    assert DataClusters(area, 2, 2) == [2] + DataClusters(area, 0x0FFFFFF8, 1);
  }

  // ---------- the file handle

  class FileHandle {
    var position: nat
    var clusterList: seq<ClusterEntry>

    constructor ()
      ensures position == 0 && clusterList == []
    {
      position, clusterList := 0, [];
    }

    method Add(entry: ClusterEntry)
      modifies this`clusterList
      ensures clusterList == old(clusterList) + [entry]
    {
      clusterList := clusterList + [entry];
    }

    method ClearList()
      modifies this`clusterList
      ensures clusterList == []
    {
      clusterList := [];
    }
  }

  /** After `visited`, the runs finished so far and the open run encode it. */
  ghost predicate Encoded(visited: seq<nat>, list: seq<ClusterEntry>, open: ClusterEntry) {
    && visited == Expand(list) + open.Clusters()
    && if open.count == 0 then list == [] else Canonical(list + [open])
  }

  lemma EncodedStep(visited: seq<nat>, list: seq<ClusterEntry>, open: ClusterEntry, cluster: nat)
    requires Encoded(visited, list, open) && (open.count == 0 ==> open.number == cluster)
    ensures if open.number + open.count == cluster
      then Encoded(visited + [cluster], list, open.(count := open.count + 1))
      else Encoded(visited + [cluster], list + [open], ClusterEntry(cluster, 1))
  {
    hide Expand, Canonical;
    if open.number + open.count == cluster {
      var longer := open.(count := open.count + 1);
      assert longer.Clusters() == open.Clusters() + [cluster];
      CanonicalGrow(list, open);
    } else {
      ExpandSnoc(list, open);
      assert ClusterEntry(cluster, 1).Clusters() == [cluster];
      CanonicalSnoc(list + [open], ClusterEntry(cluster, 1));
    }
  }

  lemma CanonicalGrow(list: seq<ClusterEntry>, open: ClusterEntry)
    requires if open.count == 0 then list == [] else Canonical(list + [open])
    ensures Canonical(list + [open.(count := open.count + 1)])
  {
    if list != [] {
      var runs, longer := list + [open], list + [open.(count := open.count + 1)];
      forall i | 0 <= i < |longer|
        ensures longer[i].count > 0 && longer[i].number == runs[i].number && (i < |list| ==> longer[i] == runs[i])
      {
        assert runs[i].count > 0;
      }
      forall i | 0 < i < |longer|
        ensures longer[i - 1].number + longer[i - 1].count != longer[i].number
      {
        assert runs[i - 1].number + runs[i - 1].count != runs[i].number;
      }
    }
  }

  lemma EncodedEnd(visited: seq<nat>, list: seq<ClusterEntry>, open: ClusterEntry)
    requires Encoded(visited, list, open)
    ensures var runs := if open.count > 0 then list + [open] else list;
      Expand(runs) == visited && Canonical(runs)
  {
    ExpandSnoc(list, open);
    assert open.count == 0 ==> open.Clusters() == [];
  }

  /** No lookup on the walk from `c` throws. */
  ghost predicate Followed(area: FatArea, c: nat, n: nat)
    requires Ends(area, c, n)
  {
    forall d :: d in Chain(area, c, n) ==> !area.Throws(d)
  }

  lemma FollowedStep(area: FatArea, c: nat, n: nat)
    requires Ends(area, c, n) && c != END_CLUSTER
    ensures area.Throws(c) ==> area.Next(c) == BAD_CLUSTER && !Followed(area, c, n)
    ensures area.Next(c) == BAD_CLUSTER ==> (Followed(area, c, n) <==> !area.Throws(c))
    ensures area.Next(c) != BAD_CLUSTER ==>
      n > 0 && Ends(area, area.Next(c), n - 1) && (Followed(area, c, n) <==> Followed(area, area.Next(c), n - 1))
  {
    hide FatArea.Readable, FatArea.SectorOf, Masked;
    ChainStep(area, c, n);
  }

  /** The run list is the canonical encoding of the visited clusters. `ok` is
      false when a lookup throws: the runs finished before stay in the list. */
  method ReadListClusters(handle: FileHandle, fatTable: FatTable, first: nat, ghost n: nat) returns (ok: bool)
    requires fatTable.Valid() && first < TWO_32
    requires Ends(fatTable.area, first, n)
    modifies handle`clusterList, fatTable.fatTable, fatTable.sectorArray
    ensures fatTable.Valid()
    ensures ok <==> Followed(fatTable.area, first, n)
    ensures ok ==> Expand(handle.clusterList) == Chain(fatTable.area, first, n)
    ensures ok ==> handle.clusterList == Encode(Chain(fatTable.area, first, n))
    ensures !ok ==> Expand(handle.clusterList) < Chain(fatTable.area, first, n)
    ensures !ok ==> var runs := Encode(Chain(fatTable.area, first, n));
      runs != [] && handle.clusterList == runs[..|runs| - 1]
    ensures Canonical(handle.clusterList)
  {
    hide Ends, Chain, Encoded, Canonical, Expand, Encode, FatArea.Next, FatArea.Valid, FatArea.Throws, Followed;
    handle.ClearList();
    var cluster: nat, entry := first, ClusterEntry(first, 0);
    ghost var area, visited: seq<nat>, left: nat := fatTable.area, [], n;
    EncodedStart(first);
    assert visited + Chain(area, first, n) == Chain(area, first, n);
    while cluster != END_CLUSTER
      invariant fatTable.Valid() && Ends(area, cluster, left)
      invariant Chain(area, first, n) == visited + Chain(area, cluster, left)
      invariant Followed(area, first, n) <==> Followed(area, cluster, left)
      invariant Encoded(visited, handle.clusterList, entry)
      invariant entry.count == 0 ==> entry.number == cluster
      invariant entry.number + entry.count < TWO_32 && cluster < TWO_32
      decreases left
    {
      EncodedStep(visited, handle.clusterList, entry, cluster);
      ChainStep(area, cluster, left);
      FollowedStep(area, cluster, left);
      visited := visited + [cluster];
      if U32(entry.number + entry.count) == cluster {
        entry := entry.(count := entry.count + 1);
      } else {
        handle.Add(entry);
        entry := ClusterEntry(cluster, 1);
      }
      ghost var current := cluster;
      var next := fatTable.NextCluster(cluster);
      if next.None? {
        assert visited + [] == visited;
        assert Chain(area, first, n) == visited;
        FinishedRuns(visited, handle.clusterList, entry);
        OpenRunLast(visited, handle.clusterList, entry);
        return false;
      }
      cluster := next.value;
      if cluster == BAD_CLUSTER {
        EncodedEnd(visited, handle.clusterList, entry);
        break;
      }
      EntryNumber(area, current);
      left := left - 1;
    }
    ChainEnd(area, left);
    assert visited + [] == visited;
    EncodedEnd(visited, handle.clusterList, entry);
    if entry.count > 0 {
      handle.Add(entry);
    }
    CanonicalIsEncode(handle.clusterList);
    ok := true;
  }

  /** The finished runs alone are canonical and encode all but the open run. */
  lemma FinishedRuns(visited: seq<nat>, list: seq<ClusterEntry>, open: ClusterEntry)
    requires Encoded(visited, list, open) && open.count > 0
    ensures Canonical(list) && Expand(list) < visited
  {
    hide Expand;
    assert |open.Clusters()| > 0;
    var runs := list + [open];
    assert forall i :: 0 <= i < |list| ==> list[i] == runs[i];
    forall i | 0 < i < |list|
      ensures list[i - 1].number + list[i - 1].count != list[i].number
    {
      assert runs[i - 1].number + runs[i - 1].count != runs[i].number;
    }
  }

  lemma OpenRunLast(visited: seq<nat>, list: seq<ClusterEntry>, open: ClusterEntry)
    requires Encoded(visited, list, open) && open.count > 0
    ensures Encode(visited) == list + [open] && list == Encode(visited)[..|Encode(visited)| - 1]
  {
    EncodedEnd(visited, list, open);
    hide *;
    CanonicalIsEncode(list + [open]);
  }

  lemma ChainEnd(area: FatArea, n: nat)
    ensures Ends(area, END_CLUSTER, n) && Chain(area, END_CLUSTER, n) == [] && Followed(area, END_CLUSTER, n)
  {
  }

  lemma EncodedStart(cluster: nat)
    ensures Encoded([], [], ClusterEntry(cluster, 0))
  {
  }
}
