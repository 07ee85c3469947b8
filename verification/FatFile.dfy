/** Reading a FAT32 file run by run. */
module FatFile {
  import opened Arithmetic
  import opened Bytes
  import opened ClusterRuns
  import opened FatChain
  import opened FatTable
  import opened IoFile

  /** The boot sector's geometry and the partition's first sector. */
  datatype Volume = Volume(bytesPerSector: nat, sectorsPerCluster: nat, dataSectors: nat, sectors: nat,
                           startSector: nat, countCluster: nat)
  {
    ghost predicate Valid() {
      bytesPerSector > 0 && sectorsPerCluster > 0
    }

    function ClusterSize(): (r: nat) {
      bytesPerSector * sectorsPerCluster
    }

    function RunSize(run: ClusterEntry): (r: nat) {
      run.count * ClusterSize()
    }

    /** `clusterSector`, counted from the start of the device; clusters 0 and 1
        lie before the data area. */
    function Sector(cluster: nat): (r: int) {
      (cluster - 2) * sectorsPerCluster + dataSectors + startSector
    }

    function Start(cluster: nat): (r: int) {
      Sector(cluster) * bytesPerSector
    }

    /** The guard of the read: the run must end before the volume's last sector. */
    predicate InRange(run: ClusterEntry) {
      Sector(run.number) + run.count * sectorsPerCluster < sectors
    }

    ghost predicate Readable(media: seq<byte>, run: ClusterEntry) {
      0 <= Start(run.number) && Start(run.number) + run.count * ClusterSize() <= |media|
    }

    lemma StartNext(cluster: nat)
      ensures Start(cluster + 1) == Start(cluster) + ClusterSize()
    {
      assert (cluster - 1) * sectorsPerCluster == (cluster - 2) * sectorsPerCluster + sectorsPerCluster;
      assert (Sector(cluster) + sectorsPerCluster) * bytesPerSector
        == Sector(cluster) * bytesPerSector + sectorsPerCluster * bytesPerSector;
    }
  }

  /** The runs that the guard lets through. */
  function Kept(v: Volume, runs: seq<ClusterEntry>): (r: seq<ClusterEntry>)
    ensures (forall i :: 0 <= i < |runs| ==> v.InRange(runs[i])) ==> r == runs
    ensures Total(r) <= Total(runs)
  {
    if runs == [] then []
    else if v.InRange(runs[0]) then [runs[0]] + Kept(v, runs[1..])
    else Kept(v, runs[1..])
  }

  /** The guard looks at each run alone, and the runs it lets through keep their order. */
  lemma {:induction false} KeptJoin(v: Volume, a: seq<ClusterEntry>, b: seq<ClusterEntry>)
    ensures Kept(v, a + b) == Kept(v, a) + Kept(v, b)
  {
    if a == [] {
      assert Kept(v, a) == [];
      hide *;
      assert a + b == b && [] + Kept(v, b) == Kept(v, b);
    } else {
      KeptFirst(v, a);
      KeptFirst(v, a + b);
      hide *;
      assert (a + b)[0] == a[0] && (a + b)[1..] == a[1..] + b;
      KeptJoin(v, a[1..], b);
      RegroupRuns(if v.InRange(a[0]) then [a[0]] else [], Kept(v, a[1..]), Kept(v, b));
    }
  }

  lemma RegroupRuns(a: seq<ClusterEntry>, b: seq<ClusterEntry>, c: seq<ClusterEntry>)
    ensures a + (b + c) == a + b + c
  {
  }

  lemma KeptFirst(v: Volume, runs: seq<ClusterEntry>)
    requires runs != []
    ensures Kept(v, runs) == (if v.InRange(runs[0]) then [runs[0]] else []) + Kept(v, runs[1..])
  {
    hide Volume.InRange;
  }

  /** No run has 2^32 sectors or more, as none has on a volume whose sectors are
      counted in 32 bits. */
  predicate ShortRuns(v: Volume, runs: seq<ClusterEntry>) {
    forall i :: 0 <= i < |runs| ==> runs[i].count * v.sectorsPerCluster < TWO_32
  }

  ghost predicate AllReadable(v: Volume, media: seq<byte>, runs: seq<ClusterEntry>) {
    forall i :: 0 <= i < |runs| ==> v.Readable(media, runs[i])
  }

  ghost function RunData(v: Volume, media: seq<byte>, run: ClusterEntry): (r: seq<byte>)
    requires v.Readable(media, run)
    ensures |r| == run.count * v.ClusterSize()
  {
    media[v.Start(run.number)..v.Start(run.number) + run.count * v.ClusterSize()]
  }

  ghost function RunsData(v: Volume, media: seq<byte>, runs: seq<ClusterEntry>): (r: seq<byte>)
    requires AllReadable(v, media, runs)
  {
    if runs == [] then [] else RunData(v, media, runs[0]) + RunsData(v, media, runs[1..])
  }

  ghost predicate ClustersReadable(v: Volume, media: seq<byte>, clusters: seq<nat>) {
    forall i :: 0 <= i < |clusters| ==> v.Readable(media, ClusterEntry(clusters[i], 1))
  }

  /** The clusters' data as if they were read one at a time. */
  ghost function ClustersData(v: Volume, media: seq<byte>, clusters: seq<nat>): (r: seq<byte>)
    requires ClustersReadable(v, media, clusters)
  {
    if clusters == [] then []
    else RunData(v, media, ClusterEntry(clusters[0], 1)) + ClustersData(v, media, clusters[1..])
  }

  /** A readable run is its first cluster followed by the readable rest. */
  lemma RunHead(v: Volume, media: seq<byte>, run: ClusterEntry)
    requires v.Readable(media, run) && run.count > 0
    ensures v.Readable(media, ClusterEntry(run.number, 1))
    ensures v.Readable(media, ClusterEntry(run.number + 1, run.count - 1))
    ensures RunData(v, media, run) ==
      RunData(v, media, ClusterEntry(run.number, 1)) + RunData(v, media, ClusterEntry(run.number + 1, run.count - 1))
  {
    v.StartNext(run.number);
    hide Volume.Start, Volume.ClusterSize;
    var from, size := v.Start(run.number), v.ClusterSize();
    Distribute(1, run.count - 1, size);
    assert 1 * size == size;
    hide RunData, Volume.Readable;
    HeadAndRest(v, media, run, from, size);
  }

  lemma HeadAndRest(v: Volume, media: seq<byte>, run: ClusterEntry, from: int, size: nat)
    requires v.Readable(media, run) && run.count > 0 && from == v.Start(run.number) && size == v.ClusterSize()
    requires v.Start(run.number + 1) == from + size && 1 * size == size
    requires run.count * size == size + (run.count - 1) * size && (run.count - 1) * size >= 0
    ensures v.Readable(media, ClusterEntry(run.number, 1))
    ensures v.Readable(media, ClusterEntry(run.number + 1, run.count - 1))
    ensures RunData(v, media, run) ==
      RunData(v, media, ClusterEntry(run.number, 1)) + RunData(v, media, ClusterEntry(run.number + 1, run.count - 1))
  {
    hide Volume.Start, Volume.ClusterSize;
  }

  lemma {:induction false} RunIsClusters(v: Volume, media: seq<byte>, run: ClusterEntry, rest: seq<nat>)
    requires v.Readable(media, run) && ClustersReadable(v, media, rest)
    ensures ClustersReadable(v, media, run.Clusters() + rest)
    ensures ClustersData(v, media, run.Clusters() + rest) == RunData(v, media, run) + ClustersData(v, media, rest)
    decreases run.count
  {
    hide Volume.Readable, RunData;
    if run.count == 0 {
      assert run.Clusters() + rest == rest;
    } else {
      var tail := ClusterEntry(run.number + 1, run.count - 1);
      RunHead(v, media, run);
      RunIsClusters(v, media, tail, rest);
      var all := run.Clusters() + rest;
      assert all == [run.number] + (tail.Clusters() + rest);
    }
  }

  /** Reading run by run gives the same bytes as reading cluster by cluster. */
  lemma {:induction false} RunsAreClusters(v: Volume, media: seq<byte>, runs: seq<ClusterEntry>)
    requires AllReadable(v, media, runs)
    ensures ClustersReadable(v, media, Expand(runs))
    ensures RunsData(v, media, runs) == ClustersData(v, media, Expand(runs))
  {
    hide Volume.Readable, RunData;
    if runs != [] {
      RunsAreClusters(v, media, runs[1..]);
      RunIsClusters(v, media, runs[0], Expand(runs[1..]));
    }
  }

  /** Byte `d` of the file's cluster number `k` is that byte of the cluster on
      the device: clusters are numbered from 2 and counted from the data area. */
  lemma ClusterByte(v: Volume, media: seq<byte>, clusters: seq<nat>, k: nat, d: nat)
    requires ClustersReadable(v, media, clusters) && k < |clusters| && d < v.bytesPerSector * v.sectorsPerCluster
    ensures var at := ((clusters[k] - 2) * v.sectorsPerCluster + v.dataSectors + v.startSector) * v.bytesPerSector + d;
      var index := k * (v.bytesPerSector * v.sectorsPerCluster) + d;
      && 0 <= at < |media| && index < |ClustersData(v, media, clusters)|
      && ClustersData(v, media, clusters)[index] == media[at]
  {
    assert v.ClusterSize() == v.bytesPerSector * v.sectorsPerCluster;
    assert v.Start(clusters[k]) == ((clusters[k] - 2) * v.sectorsPerCluster + v.dataSectors + v.startSector) * v.bytesPerSector;
    hide *;
    ByteOfCluster(v, media, clusters, k, d);
  }

  lemma {:induction false} ByteOfCluster(v: Volume, media: seq<byte>, clusters: seq<nat>, k: nat, d: nat)
    requires ClustersReadable(v, media, clusters) && k < |clusters| && d < v.ClusterSize()
    ensures k * v.ClusterSize() + d < |ClustersData(v, media, clusters)|
    ensures 0 <= v.Start(clusters[k]) + d < |media|
    ensures ClustersData(v, media, clusters)[k * v.ClusterSize() + d] == media[v.Start(clusters[k]) + d]
    decreases |clusters|
  {
    hide Volume.ClusterSize, Volume.Start;
    var size, rest := v.ClusterSize(), clusters[1..];
    assert v.Readable(media, ClusterEntry(clusters[0], 1)) && 1 * size == size;
    if k > 0 {
      ByteOfCluster(v, media, rest, k - 1, d);
      assert k * size == size + (k - 1) * size;
    }
  }

  // ---------- the program

  lemma SectorBytes(v: Volume, run: ClusterEntry)
    requires v.Valid() && run.count > 0
    ensures run.count * v.sectorsPerCluster * v.bytesPerSector == run.count * v.ClusterSize() > 0
    ensures 0 < run.count * v.sectorsPerCluster
    ensures (run.number + run.count - 2) * v.sectorsPerCluster ==
      (run.number - 2) * v.sectorsPerCluster + run.count * v.sectorsPerCluster
    ensures v.Start(run.number) >= 0 <==> v.Sector(run.number) >= 0
  {
    var n, s, b := run.count, v.sectorsPerCluster, v.bytesPerSector;
    assert n * s * b == n * (b * s);
    MulSpread(n, s);
    MulSpread(b, n * s);
    assert b * (n * s) == n * s * b;
    MulSpread(v.Sector(run.number), b);
  }

  class FatFileSystem {
    const reader: File
    const fatTable: FatTable
    const volume: Volume

    constructor (reader: File, fatTable: FatTable, volume: Volume)
      ensures this.reader == reader && this.fatTable == fatTable && this.volume == volume
    {
      this.reader, this.fatTable, this.volume := reader, fatTable, volume;
    }

    ghost predicate Valid()
      reads reader`transferSize, fatTable, fatTable.fatTable, fatTable.sectorArray
    {
      volume.Valid() && reader.Ready() && fatTable.Valid()
    }

    method ReadSectors(sector: int, count: nat) returns (r: Option<seq<byte>>)
      requires volume.bytesPerSector > 0 && reader.Ready()
      modifies reader`position
      ensures r == if sector < 0 then None
                   else ReadAt(reader.media, sector * volume.bytesPerSector, count * volume.bytesPerSector)
    {
      if sector < 0 {
        return None;
      }
      reader.SetPosition(sector * volume.bytesPerSector);
      r := reader.ReadData(count * volume.bytesPerSector);
    }

    /** One run; None when the read throws, otherwise whether the run was in range. */
    method ReadRun(run: ClusterEntry, data: array<byte>, memOffset: nat) returns (r: Option<bool>)
      requires volume.Valid() && reader.Ready() && run.count > 0
      requires run.count * volume.sectorsPerCluster < TWO_32
      requires volume.InRange(run) ==> memOffset + run.count * volume.ClusterSize() <= data.Length
      modifies reader`position, data
      ensures r == if !volume.InRange(run) then Some(false)
                   else if volume.Readable(reader.media, run) then Some(true) else None
      ensures r != Some(true) ==> data[..] == old(data[..])
      ensures r == Some(true) ==>
        var next := memOffset + run.count * volume.ClusterSize();
        data[..next] == old(data[..memOffset]) + RunData(volume, reader.media, run) && data[next..] == old(data[next..])
    {
      SectorBytes(volume, run);
      hide Volume.ClusterSize;
      var logicalSector := volume.Sector(run.number);
      var nextSector := volume.Sector(run.number + run.count);
      var sectorsToRead := U32(nextSector - logicalSector);
      if logicalSector + sectorsToRead < volume.sectors {
        var chunk := ReadSectors(logicalSector, sectorsToRead);
        if chunk.None? {
          return None;
        }
        forall i | 0 <= i < |chunk.value| {
          data[memOffset + i] := chunk.value[i];
        }
        return Some(true);
      }
      return Some(false);
    }

    /** The clusters of a file: those of the list it already has, else its chain. */
    ghost function FileClusters(list: seq<ClusterEntry>, first: nat, n: nat): (r: seq<nat>)
      requires list == [] ==> Ends(fatTable.area, first, n)
    {
      if list != [] then Expand(list) else Chain(fatTable.area, first, n)
    }

    /** The file's run list: the one it already has, else that of its chain. */
    ghost function FileRuns(list: seq<ClusterEntry>, first: nat, n: nat): (r: seq<ClusterEntry>)
      requires list == [] ==> Ends(fatTable.area, first, n)
    {
      if list != [] then list else Encode(Chain(fatTable.area, first, n))
    }

    /** The list is there already, or following the chain does not throw. */
    ghost predicate Fetched(list: seq<ClusterEntry>, first: nat, n: nat)
      requires list == [] ==> Ends(fatTable.area, first, n)
    {
      list != [] || Followed(fatTable.area, first, n)
    }

    /** `readSizeUsingTable`: fills an empty list only for a first cluster below
        the number of clusters. None when following the chain throws. */
    method ReadSizeUsingTable(handle: FileHandle, first: nat, ghost n: nat) returns (size: Option<nat>)
      requires Valid() && first < TWO_32
      requires handle.clusterList == [] ==> Ends(fatTable.area, first, n)
      modifies handle`clusterList, fatTable.fatTable, fatTable.sectorArray
      ensures Valid()
      ensures old(handle.clusterList) != [] || first >= volume.countCluster ==> handle.clusterList == old(handle.clusterList)
      ensures old(handle.clusterList) == [] && first < volume.countCluster && Fetched([], first, n) ==>
        Canonical(handle.clusterList) && Expand(handle.clusterList) == Chain(fatTable.area, first, n)
      ensures size ==
        if old(handle.clusterList) == [] && first >= volume.countCluster then Some(0)
        else if !Fetched(old(handle.clusterList), first, n) then None
        else Some(U32(|FileClusters(old(handle.clusterList), first, n)| * volume.ClusterSize()))
      ensures size.None? ==> var runs := FileRuns([], first, n); runs != [] && handle.clusterList == runs[..|runs| - 1]
    {
      if |handle.clusterList| == 0 && first < volume.countCluster {
        var ok := ReadListClusters(handle, fatTable, first, n);
        if !ok {
          return None;
        }
      }
      var runs, numClusters := handle.clusterList, 0;
      for i := 0 to |runs|
        invariant numClusters + Total(runs[i..]) == Total(runs)
      {
        numClusters := numClusters + runs[i].count;
      }
      RunCount(runs);
      size := Some(U32(numClusters * volume.ClusterSize()));
    }

    /** `ReadUsingFatTable`; `ok` is false when a read throws. Runs the guard
        rejects are skipped, and the data of the others close up. */
    method ReadUsingFatTable(handle: FileHandle, first: nat, data: array<byte>, bytesBefore: nat, ghost n: nat)
      returns (ok: bool, bytesRead: nat, memOffset: nat)
      requires Valid() && first < TWO_32 && bytesBefore < TWO_32 && Canonical(handle.clusterList)
      requires handle.clusterList == [] ==> Ends(fatTable.area, first, n)
      requires ShortRuns(volume, FileRuns(handle.clusterList, first, n)) && data != fatTable.fatTable
      requires Total(Kept(volume, FileRuns(handle.clusterList, first, n))) * volume.ClusterSize() <= data.Length < TWO_32
      modifies handle`clusterList, fatTable.fatTable, fatTable.sectorArray, reader`position, data
      ensures Valid() && Canonical(handle.clusterList)
      ensures !Fetched(old(handle.clusterList), first, n) ==> !ok && data[..] == old(data[..])
      ensures Fetched(old(handle.clusterList), first, n) ==>
        Expand(handle.clusterList) == FileClusters(old(handle.clusterList), first, n)
      ensures Fetched(old(handle.clusterList), first, n) ==> handle.clusterList == FileRuns(old(handle.clusterList), first, n)
      ensures Fetched(old(handle.clusterList), first, n) ==>
        (ok <==> AllReadable(volume, reader.media, Kept(volume, handle.clusterList)))
      ensures ok ==> Filled(volume, reader.media, Kept(volume, handle.clusterList), bytesBefore, old(data[..]),
                            bytesRead, memOffset, data[..])
      ensures !ok && Fetched(old(handle.clusterList), first, n) ==>
        FilledUpTo(volume, reader.media, Kept(volume, handle.clusterList), bytesBefore, old(data[..]), bytesRead, memOffset, data[..])
    {
      bytesRead, memOffset := bytesBefore, 0;
      if |handle.clusterList| == 0 {
        ok := ReadListClusters(handle, fatTable, first, n);
        if !ok {
          return;
        }
      }
      ok, bytesRead, memOffset := ReadRuns(handle.clusterList, data, bytesBefore);
    }

    /** The size from the table, then the read with the same handle, as the
        recovery of a file does for a size above 0. The size, the bytes stored and the bytes reported are one
        number exactly when the guard lets every run through and sectors have 512
        bytes, or there is nothing to read; but with a list still to be filled and
        a first cluster from the number of clusters on, the size is 0, and they
        agree exactly when nothing is read. */
    method SizeThenRead(handle: FileHandle, first: nat, data: array<byte>, ghost n: nat)
      returns (size: Option<nat>, ok: bool, bytesRead: nat, memOffset: nat)
      requires Valid() && first < TWO_32 && Canonical(handle.clusterList) && volume.bytesPerSector >= 512
      requires handle.clusterList == [] ==> Ends(fatTable.area, first, n)
      requires |FileClusters(handle.clusterList, first, n)| * volume.ClusterSize() <= data.Length < TWO_32
      requires data != fatTable.fatTable
      modifies handle`clusterList, fatTable.fatTable, fatTable.sectorArray, reader`position, data
      ensures Valid()
      ensures size ==
        if old(handle.clusterList) == [] && first >= volume.countCluster then Some(0)
        else if !Fetched(old(handle.clusterList), first, n) then None
        else Some(U32(|FileClusters(old(handle.clusterList), first, n)| * volume.ClusterSize()))
      ensures var runs := FileRuns(old(handle.clusterList), first, n);
        ok <==> Fetched(old(handle.clusterList), first, n) && AllReadable(volume, reader.media, Kept(volume, runs))
      ensures var runs := FileRuns(old(handle.clusterList), first, n);
        ok ==> size.Some? && Filled(volume, reader.media, Kept(volume, runs), 0, old(data[..]), bytesRead, memOffset, data[..])
      ensures var runs := FileRuns(old(handle.clusterList), first, n);
        ok ==> (size == Some(memOffset) && bytesRead == memOffset <==>
          if old(handle.clusterList) == [] && first >= volume.countCluster then Kept(volume, runs) == []
          else runs == [] || (AllInRange(volume, runs) && volume.bytesPerSector == 512))
    {
      ghost var list, runs := handle.clusterList, FileRuns(handle.clusterList, first, n);
      FileRunsFacts(list, first, n, data.Length);
      ok, bytesRead, memOffset := false, 0, 0;
      hide FileRuns, FileClusters, Kept, Total, ShortRuns, Filled, AllReadable, Expand, Canonical, Volume.ClusterSize, AllInRange, Fetched;
      size := ReadSizeUsingTable(handle, first, n);
      SameRuns(list, handle.clusterList, first, n);
      if size.None? {
        return;
      }
      ok, bytesRead, memOffset := ReadUsingFatTable(handle, first, data, 0, n);
      if ok {
        SizesAgree(volume, reader.media, runs, old(data[..]), bytesRead, memOffset, data[..]);
      }
    }

    lemma FileRunsFacts(list: seq<ClusterEntry>, first: nat, n: nat, room: nat)
      requires volume.Valid() && Canonical(list) && (list == [] ==> Ends(fatTable.area, first, n))
      requires |FileClusters(list, first, n)| * volume.ClusterSize() <= room < TWO_32
      ensures var runs := FileRuns(list, first, n);
        && Canonical(runs) && Expand(runs) == FileClusters(list, first, n) && ShortRuns(volume, runs)
        && Total(Kept(volume, runs)) * volume.ClusterSize() <= room
    {
      EncodeCanonical(FileClusters(list, first, n));
      var runs := FileRuns(list, first, n);
      RunCount(runs);
      MulMonotone(Total(Kept(volume, runs)), Total(runs), volume.ClusterSize());
      SmallRunsShort(volume, runs, room);
    }

    /** The list that the size computation leaves stands for the same runs. */
    lemma SameRuns(list: seq<ClusterEntry>, filled: seq<ClusterEntry>, first: nat, n: nat)
      requires list == [] ==> Ends(fatTable.area, first, n)
      requires list != [] || first >= volume.countCluster ==> filled == list
      requires list == [] && first < volume.countCluster && Fetched([], first, n) ==>
        Canonical(filled) && Expand(filled) == Chain(fatTable.area, first, n)
      ensures Fetched(list, first, n) ==>
        Fetched(filled, first, n) && FileRuns(filled, first, n) == FileRuns(list, first, n)
    {
      if list == [] && first < volume.countCluster && Fetched([], first, n) {
        CanonicalIsEncode(filled);
      }
    }

    /** The loop over the run list. */
    method ReadRuns(runs: seq<ClusterEntry>, data: array<byte>, bytesBefore: nat)
      returns (ok: bool, bytesRead: nat, memOffset: nat)
      requires volume.Valid() && reader.Ready() && bytesBefore < TWO_32 && NonEmptyRuns(runs)
      requires ShortRuns(volume, runs) && Total(Kept(volume, runs)) * volume.ClusterSize() <= data.Length < TWO_32
      modifies reader`position, data
      ensures ok <==> AllReadable(volume, reader.media, Kept(volume, runs))
      ensures ok ==> Filled(volume, reader.media, Kept(volume, runs), bytesBefore, old(data[..]),
                            bytesRead, memOffset, data[..])
      ensures !ok ==>
        FilledUpTo(volume, reader.media, Kept(volume, runs), bytesBefore, old(data[..]), bytesRead, memOffset, data[..])
    {
      hide FilledUpTo, ReadSoFar;
      hide Kept, Filled, Total, Volume.ClusterSize, Volume.Readable, Volume.InRange, RunsData, RunData, AllReadable;
      ghost var v, media, before, done := volume, reader.media, data[..], [];
      bytesRead, memOffset := bytesBefore, 0;
      NothingRead(v, media, runs, bytesBefore, before);
      for i := 0 to |runs|
        invariant ReadSoFar(v, media, runs, i, done, bytesBefore, before, bytesRead, memOffset, data[..])
      {
        ghost var now := data[..];
        ReadNext(v, media, runs, i, done, bytesBefore, before, bytesRead, memOffset, now);
        var kept := ReadRun(runs[i], data, memOffset);
        if kept.None? {
          assert data[..] == now;
          return false, bytesRead, memOffset;
        }
        if kept == Some(true) {
          var total := U32(bytesRead + runs[i].count * volume.sectorsPerCluster * 512);
          RunRead(v, media, runs, i, done, bytesBefore, before, bytesRead, memOffset, now, total, data[..]);
          done, bytesRead := done + [runs[i]], total;
          memOffset := memOffset + runs[i].count * volume.ClusterSize();
        } else {
          assert data[..] == now;
        }
      }
      AllRead(v, media, runs, done, bytesBefore, before, bytesRead, memOffset, data[..]);
      ok := true;
    }
  }

  /** The buffer after the data of `runs` were put one after the other at its
      start, and the two counters: one counts the bytes, the other counts
      sectors and takes each for 512 bytes. */
  ghost predicate Filled(v: Volume, media: seq<byte>, runs: seq<ClusterEntry>, bytesBefore: nat, before: seq<byte>,
                         bytesRead: nat, memOffset: nat, data: seq<byte>)
    requires AllReadable(v, media, runs)
  {
    && memOffset == Total(runs) * v.ClusterSize() <= |data| == |before|
    && bytesRead == U32(bytesBefore + Total(runs) * v.sectorsPerCluster * 512)
    && data[..memOffset] == RunsData(v, media, runs)
    && data[memOffset..] == before[memOffset..]
  }

  /** A read that threw: the data of the runs before the first one that is not on the device. */
  ghost predicate FilledUpTo(v: Volume, media: seq<byte>, runs: seq<ClusterEntry>, bytesBefore: nat, before: seq<byte>,
                             bytesRead: nat, memOffset: nat, data: seq<byte>) {
    exists k :: 0 <= k < |runs| && !v.Readable(media, runs[k]) && AllReadable(v, media, runs[..k])
      && Filled(v, media, runs[..k], bytesBefore, before, bytesRead, memOffset, data)
  }

  lemma FilledSoFar(v: Volume, media: seq<byte>, runs: seq<ClusterEntry>, done: seq<ClusterEntry>, bytesBefore: nat,
                    before: seq<byte>, bytesRead: nat, memOffset: nat, data: seq<byte>, next: ClusterEntry)
    requires done + [next] <= runs && AllReadable(v, media, done) && !v.Readable(media, next)
    requires Filled(v, media, done, bytesBefore, before, bytesRead, memOffset, data)
    ensures FilledUpTo(v, media, runs, bytesBefore, before, bytesRead, memOffset, data)
    ensures !AllReadable(v, media, runs)
  {
    hide Filled, Volume.Readable;
    assert runs[..|done|] == done && runs[|done|] == next;
  }

  /** After `i` runs, of which the guard let `done` through; the rest fits into the buffer. */
  ghost predicate ReadSoFar(v: Volume, media: seq<byte>, runs: seq<ClusterEntry>, i: nat, done: seq<ClusterEntry>,
                            bytesBefore: nat, before: seq<byte>, bytesRead: nat, memOffset: nat, data: seq<byte>) {
    && i <= |runs| && Kept(v, runs) == done + Kept(v, runs[i..]) && AllReadable(v, media, done)
    && Filled(v, media, done, bytesBefore, before, bytesRead, memOffset, data)
    && memOffset + Total(Kept(v, runs[i..])) * v.ClusterSize() <= |data|
  }

  lemma NothingRead(v: Volume, media: seq<byte>, runs: seq<ClusterEntry>, bytesBefore: nat, before: seq<byte>)
    requires bytesBefore < TWO_32 && Total(Kept(v, runs)) * v.ClusterSize() <= |before|
    ensures ReadSoFar(v, media, runs, 0, [], bytesBefore, before, bytesBefore, 0, before)
  {
    FilledStart(v, media, bytesBefore, before);
    hide Kept, Total, Filled, Volume.ClusterSize, AllReadable;
    assert runs[0..] == runs && [] + Kept(v, runs) == Kept(v, runs);
  }

  /** The next run fits if the guard lets it through; if it does not, nothing
      changes, and if the run is not on the device, the read throws. */
  lemma ReadNext(v: Volume, media: seq<byte>, runs: seq<ClusterEntry>, i: nat, done: seq<ClusterEntry>,
                 bytesBefore: nat, before: seq<byte>, bytesRead: nat, memOffset: nat, data: seq<byte>)
    requires i < |runs| && ReadSoFar(v, media, runs, i, done, bytesBefore, before, bytesRead, memOffset, data)
    ensures v.InRange(runs[i]) ==> memOffset + runs[i].count * v.ClusterSize() <= |data|
    ensures !v.InRange(runs[i]) ==> ReadSoFar(v, media, runs, i + 1, done, bytesBefore, before, bytesRead, memOffset, data)
    ensures v.InRange(runs[i]) && !v.Readable(media, runs[i]) ==>
      && !AllReadable(v, media, Kept(v, runs))
      && FilledUpTo(v, media, Kept(v, runs), bytesBefore, before, bytesRead, memOffset, data)
  {
    KeptStep(v, runs, i, done);
    RoomLeft(v, runs, i, memOffset, |data|);
    hide Kept, Total, Filled, FilledUpTo, Volume.ClusterSize, Volume.InRange, Volume.Readable, AllReadable;
    if v.InRange(runs[i]) && !v.Readable(media, runs[i]) {
      FilledSoFar(v, media, Kept(v, runs), done, bytesBefore, before, bytesRead, memOffset, data, runs[i]);
    }
  }

  lemma RunRead(v: Volume, media: seq<byte>, runs: seq<ClusterEntry>, i: nat, done: seq<ClusterEntry>,
                bytesBefore: nat, before: seq<byte>, bytesRead: nat, memOffset: nat, data: seq<byte>, bytesRead': nat, data': seq<byte>)
    requires i < |runs| && v.InRange(runs[i]) && v.Readable(media, runs[i])
    requires ReadSoFar(v, media, runs, i, done, bytesBefore, before, bytesRead, memOffset, data)
    requires memOffset + v.RunSize(runs[i]) <= |data| == |data'|
    requires data'[..memOffset + v.RunSize(runs[i])] == data[..memOffset] + RunData(v, media, runs[i])
    requires data'[memOffset + v.RunSize(runs[i])..] == data[memOffset + v.RunSize(runs[i])..]
    requires bytesRead' == U32(bytesRead + runs[i].count * v.sectorsPerCluster * 512)
    ensures ReadSoFar(v, media, runs, i + 1, done + [runs[i]], bytesBefore, before, bytesRead', memOffset + v.RunSize(runs[i]), data')
  {
    KeptMore(v, runs, i, done, memOffset, |data|);
    hide Kept, Total, Filled, Volume.ClusterSize, Volume.InRange, Volume.Readable, AllReadable, RunData, RunsData, Volume.RunSize;
    FilledStep(v, media, done, bytesBefore, before, bytesRead, memOffset, data, runs[i], bytesRead', data');
  }

  lemma KeptMore(v: Volume, runs: seq<ClusterEntry>, i: nat, done: seq<ClusterEntry>, memOffset: nat, room: nat)
    requires i < |runs| && v.InRange(runs[i]) && Kept(v, runs) == done + Kept(v, runs[i..])
    requires memOffset + Total(Kept(v, runs[i..])) * v.ClusterSize() <= room
    ensures Kept(v, runs) == done + [runs[i]] + Kept(v, runs[i + 1..])
    ensures memOffset + v.RunSize(runs[i]) + Total(Kept(v, runs[i + 1..])) * v.ClusterSize() <= room
  {
    KeptStep(v, runs, i, done);
    RoomLeft(v, runs, i, memOffset, room);
    hide Kept, Total, Volume.ClusterSize, Volume.InRange;
  }

  lemma AllRead(v: Volume, media: seq<byte>, runs: seq<ClusterEntry>, done: seq<ClusterEntry>,
                bytesBefore: nat, before: seq<byte>, bytesRead: nat, memOffset: nat, data: seq<byte>)
    requires ReadSoFar(v, media, runs, |runs|, done, bytesBefore, before, bytesRead, memOffset, data)
    ensures AllReadable(v, media, Kept(v, runs))
    ensures Filled(v, media, Kept(v, runs), bytesBefore, before, bytesRead, memOffset, data)
  {
    KeptEnd(v, runs, done);
  }

  lemma FilledStart(v: Volume, media: seq<byte>, bytesBefore: nat, before: seq<byte>)
    requires bytesBefore < TWO_32
    ensures AllReadable(v, media, []) && Filled(v, media, [], bytesBefore, before, bytesBefore, 0, before)
  {
  }

  lemma FilledStep(v: Volume, media: seq<byte>, runs: seq<ClusterEntry>, bytesBefore: nat, before: seq<byte>,
                   bytesRead: nat, memOffset: nat, data: seq<byte>, run: ClusterEntry, bytesRead': nat, data': seq<byte>)
    requires AllReadable(v, media, runs) && v.Readable(media, run)
    requires Filled(v, media, runs, bytesBefore, before, bytesRead, memOffset, data)
    requires memOffset + v.RunSize(run) <= |data| == |data'|
    requires data'[..memOffset + v.RunSize(run)] == data[..memOffset] + RunData(v, media, run)
    requires data'[memOffset + v.RunSize(run)..] == data[memOffset + v.RunSize(run)..]
    requires bytesRead' == U32(bytesRead + run.count * v.sectorsPerCluster * 512)
    ensures AllReadable(v, media, runs + [run])
    ensures Filled(v, media, runs + [run], bytesBefore, before,
                   bytesRead', memOffset + v.RunSize(run), data')
  {
    TotalSnoc(runs, run);
    RunsDataSnoc(v, media, runs, run);
    Distribute(Total(runs), run.count, v.ClusterSize());
    Distribute(Total(runs), run.count, v.sectorsPerCluster);
    hide Total, RunsData, RunData, Volume.ClusterSize, Volume.Readable, AllReadable;
    var next := memOffset + v.RunSize(run);
    assert data[next..] == data[memOffset..][next - memOffset..];
    assert before[next..] == before[memOffset..][next - memOffset..];
    AddModulo(bytesBefore + Total(runs) * v.sectorsPerCluster * 512, run.count * v.sectorsPerCluster * 512);
  }

  lemma AddModulo(x: nat, y: nat)
    ensures U32(U32(x) + y) == U32(x + y)
  {
  }

  lemma {:induction false} TotalSnoc(runs: seq<ClusterEntry>, run: ClusterEntry)
    ensures Total(runs + [run]) == Total(runs) + run.count
  {
    if runs != [] {
      TotalSnoc(runs[1..], run);
      assert (runs + [run])[1..] == runs[1..] + [run];
    }
  }

  lemma {:induction false} RunsDataSnoc(v: Volume, media: seq<byte>, runs: seq<ClusterEntry>, run: ClusterEntry)
    requires AllReadable(v, media, runs) && v.Readable(media, run)
    ensures AllReadable(v, media, runs + [run])
    ensures RunsData(v, media, runs + [run]) == RunsData(v, media, runs) + RunData(v, media, run)
  {
    hide RunData, Volume.Readable;
    if runs == [] {
      assert [run][1..] == [];
    } else {
      RunsDataSnoc(v, media, runs[1..], run);
      assert (runs + [run])[1..] == runs[1..] + [run];
    }
  }

  lemma KeptStep(v: Volume, runs: seq<ClusterEntry>, i: nat, done: seq<ClusterEntry>)
    requires i < |runs| && Kept(v, runs) == done + Kept(v, runs[i..])
    ensures Kept(v, runs) == (if v.InRange(runs[i]) then done + [runs[i]] else done) + Kept(v, runs[i + 1..])
    ensures v.InRange(runs[i]) ==> done + [runs[i]] <= Kept(v, runs)
  {
    hide Volume.InRange;
    var rest := runs[i..];
    assert rest[0] == runs[i] && rest[1..] == runs[i + 1..];
    assert Kept(v, rest) == (if v.InRange(runs[i]) then [runs[i]] else []) + Kept(v, runs[i + 1..]);
  }

  lemma RoomLeft(v: Volume, runs: seq<ClusterEntry>, i: nat, memOffset: nat, room: nat)
    requires i < |runs| && memOffset + Total(Kept(v, runs[i..])) * v.ClusterSize() <= room
    ensures v.InRange(runs[i]) ==>
      memOffset + runs[i].count * v.ClusterSize() + Total(Kept(v, runs[i + 1..])) * v.ClusterSize() <= room
    ensures v.InRange(runs[i]) ==> memOffset + runs[i].count * v.ClusterSize() <= room
    ensures memOffset + Total(Kept(v, runs[i + 1..])) * v.ClusterSize() <= room
  {
    hide Volume.ClusterSize, Volume.InRange;
    var rest := Kept(v, runs[i + 1..]);
    assert runs[i..][0] == runs[i] && runs[i..][1..] == runs[i + 1..];
    if v.InRange(runs[i]) {
      assert Kept(v, runs[i..]) == [runs[i]] + rest && ([runs[i]] + rest)[1..] == rest;
    }
    Distribute(runs[i].count, Total(rest), v.ClusterSize());
  }

  lemma KeptEnd(v: Volume, runs: seq<ClusterEntry>, done: seq<ClusterEntry>)
    requires Kept(v, runs) == done + Kept(v, runs[|runs|..])
    ensures Kept(v, runs) == done
  {
  }

  predicate AllInRange(v: Volume, runs: seq<ClusterEntry>) {
    forall i :: 0 <= i < |runs| ==> v.InRange(runs[i])
  }

  /** A list of non-empty runs keeps its number of clusters exactly when the guard rejects none. */
  lemma {:induction false} KeptTotal(v: Volume, runs: seq<ClusterEntry>)
    requires NonEmptyRuns(runs)
    ensures Total(Kept(v, runs)) == Total(runs) <==> AllInRange(v, runs)
  {
    hide Volume.InRange;
    if runs != [] {
      var rest := runs[1..];
      KeptTotal(v, rest);
      assert AllInRange(v, runs) <==> v.InRange(runs[0]) && AllInRange(v, rest) by {
        assert forall i :: 0 < i < |runs| ==> runs[i] == rest[i - 1];
      }
      assert v.InRange(runs[0]) ==> ([runs[0]] + Kept(v, rest))[1..] == Kept(v, rest);
    }
  }

  /** The filled part is chain length times cluster size exactly when the guard
      lets every run through, and it then holds the chain's clusters in order. */
  lemma WholeFile(v: Volume, media: seq<byte>, runs: seq<ClusterEntry>, before: seq<byte>,
                  bytesRead: nat, memOffset: nat, data: seq<byte>)
    requires v.Valid() && NonEmptyRuns(runs)
    requires AllReadable(v, media, Kept(v, runs))
    requires Filled(v, media, Kept(v, runs), 0, before, bytesRead, memOffset, data)
    ensures memOffset == |Expand(runs)| * v.ClusterSize() <==> AllInRange(v, runs)
    ensures memOffset <= |Expand(runs)| * v.ClusterSize()
    ensures AllInRange(v, runs) ==>
      ClustersReadable(v, media, Expand(runs)) && data[..memOffset] == ClustersData(v, media, Expand(runs))
  {
    if AllInRange(v, runs) {
      RunsAreClusters(v, media, runs);
    }
    RunCount(runs);
    KeptTotal(v, runs);
    SameBytes(v, Total(Kept(v, runs)), Total(runs));
    hide RunsData, Kept, AllReadable, Total, Expand, AllInRange, ClustersData, Volume.ClusterSize, NonEmptyRuns;
  }

  lemma SameBytes(v: Volume, kept: nat, all: nat)
    requires v.Valid() && kept <= all
    ensures kept * v.ClusterSize() <= all * v.ClusterSize()
    ensures kept * v.ClusterSize() == all * v.ClusterSize() <==> kept == all
  {
    var size := v.ClusterSize();
    assert size > 0 by {
      MulSpread(v.sectorsPerCluster, v.bytesPerSector);
    }
    hide Volume.ClusterSize;
    Distribute(kept, all - kept, size);
    MulSpread(all - kept, size);
  }

  lemma {:induction false} SmallRunsShort(v: Volume, runs: seq<ClusterEntry>, room: nat)
    requires v.Valid() && Total(runs) * v.ClusterSize() <= room < TWO_32
    ensures ShortRuns(v, runs)
  {
    if runs != [] {
      var rest, size := runs[1..], v.ClusterSize();
      Distribute(runs[0].count, Total(rest), size);
      SmallRunsShort(v, rest, room);
      SectorsWithin(v, runs[0]);
      assert forall i :: 0 < i < |runs| ==> runs[i] == rest[i - 1];
    }
  }

  lemma SectorsWithin(v: Volume, run: ClusterEntry)
    requires v.Valid()
    ensures run.count * v.sectorsPerCluster <= run.count * v.ClusterSize()
  {
    var sectors := run.count * v.sectorsPerCluster;
    assert run.count * v.ClusterSize() == sectors * v.bytesPerSector;
    MulMonotone(1, v.bytesPerSector, sectors);
  }

  /** For a list of runs: bytes reported, bytes stored and a given size are one
      number exactly in these cases, whether the size is the whole list's or 0. */
  lemma SizesAgree(v: Volume, media: seq<byte>, runs: seq<ClusterEntry>, before: seq<byte>,
                   bytesRead: nat, memOffset: nat, data: seq<byte>)
    requires v.Valid() && v.bytesPerSector >= 512 && NonEmptyRuns(runs)
    requires |Expand(runs)| * v.ClusterSize() <= |data| < TWO_32
    requires AllReadable(v, media, Kept(v, runs))
    requires Filled(v, media, Kept(v, runs), 0, before, bytesRead, memOffset, data)
    ensures bytesRead == memOffset == U32(|Expand(runs)| * v.ClusterSize()) <==>
      runs == [] || (AllInRange(v, runs) && v.bytesPerSector == 512)
    ensures bytesRead == memOffset == 0 <==> Kept(v, runs) == []
  {
    WholeFile(v, media, runs, before, bytesRead, memOffset, data);
    NothingStored(v, media, runs, before, bytesRead, memOffset, data);
    CountersAgree(v, media, Kept(v, runs), before, bytesRead, memOffset, data);
    TotalZero(runs);
    TotalZero(Kept(v, runs));
    KeptTotal(v, runs);
    hide Filled, RunsData, AllReadable, AllInRange, Kept, Expand, Total, Volume.ClusterSize, Volume.InRange;
  }

  lemma TotalZero(runs: seq<ClusterEntry>)
    requires NonEmptyRuns(runs) || runs == []
    ensures Total(runs) == 0 <==> runs == []
  {
  }

  lemma NothingStored(v: Volume, media: seq<byte>, runs: seq<ClusterEntry>, before: seq<byte>,
                      bytesRead: nat, memOffset: nat, data: seq<byte>)
    requires v.Valid() && NonEmptyRuns(runs) && AllReadable(v, media, Kept(v, runs))
    requires Filled(v, media, Kept(v, runs), 0, before, bytesRead, memOffset, data)
    ensures NonEmptyRuns(Kept(v, runs))
    ensures bytesRead == memOffset == 0 <==> Kept(v, runs) == []
  {
    KeptNonEmpty(v, runs);
    SameBytes(v, 0, Total(Kept(v, runs)));
    TotalZero(Kept(v, runs));
    hide RunsData, AllReadable, Kept, Total, Volume.ClusterSize;
  }

  lemma {:induction false} KeptNonEmpty(v: Volume, runs: seq<ClusterEntry>)
    requires NonEmptyRuns(runs)
    ensures NonEmptyRuns(Kept(v, runs))
  {
    if runs != [] {
      KeptNonEmpty(v, runs[1..]);
    }
  }

  /** A buffer of the size from the table holds whatever the read stores when the
      whole list is below 4 GiB; with every run in range, only then. */
  lemma TableSizeSuffices(v: Volume, runs: seq<ClusterEntry>)
    requires v.Valid() && NonEmptyRuns(runs)
    ensures Total(runs) * v.ClusterSize() < TWO_32 ==>
      Total(Kept(v, runs)) * v.ClusterSize() <= U32(Total(runs) * v.ClusterSize())
    ensures AllInRange(v, runs) ==>
      (Total(Kept(v, runs)) * v.ClusterSize() <= U32(Total(runs) * v.ClusterSize()) <==> Total(runs) * v.ClusterSize() < TWO_32)
  {
    KeptTotal(v, runs);
    MulMonotone(Total(Kept(v, runs)), Total(runs), v.ClusterSize());
    hide Total, Kept, Volume.ClusterSize, AllInRange;
  }

  /** A run of 65537 clusters of 64 KiB gets a buffer of one cluster. */
  lemma LargeRunOverruns()
    ensures var v, runs := Volume(512, 128, 32, 10000000, 63, 70000), [ClusterEntry(2, 65537)];
      && AllInRange(v, runs) && ShortRuns(v, runs)
      && U32(Total(runs) * v.ClusterSize()) == 65536 < Total(Kept(v, runs)) * v.ClusterSize()
  {
    var v, runs := Volume(512, 128, 32, 10000000, 63, 70000), [ClusterEntry(2, 65537)];
    assert v.ClusterSize() == 65536 && v.Sector(2) == 95;
    assert runs[1..] == [] && Total(runs) == 65537;
    assert v.InRange(runs[0]);
    hide Volume.ClusterSize, Volume.InRange;
    TableSizeSuffices(v, runs);
  }

  /** The guard compares a sector counted from the device with the volume's own
      size: it rejects exactly the runs whose last sector, counted from the start
      of the volume, is one of the last `startSector + 1`, or behind them. */
  lemma GuardShifted(v: Volume, run: ClusterEntry)
    ensures v.InRange(run) <==>
      (run.number - 2) * v.sectorsPerCluster + v.dataSectors + run.count * v.sectorsPerCluster < v.sectors - v.startSector
  {
  }

  /** A volume of 200 sectors behind 63 others, with 32 reserved ones: the run of
      cluster 107 ends in front of sector 138 of the volume and is skipped. */
  lemma RunInVolumeSkipped(media: seq<byte>)
    requires |media| == 263 * 512
    ensures var v, run := Volume(512, 1, 32, 200, 63, 168), ClusterEntry(107, 1);
      v.Readable(media, run) && (run.number - 2) * 1 + 32 + run.count * 1 == 138 && Kept(v, [run]) == []
  {
    var v, run := Volume(512, 1, 32, 200, 63, 168), ClusterEntry(107, 1);
    assert v.Sector(107) == 200 && v.ClusterSize() == 512 && v.Start(107) == 102400;
    hide Volume.Sector, Volume.ClusterSize, Volume.Start;
    assert !v.InRange(run);
    assert Kept(v, [run][1..]) == [];
  }

  /** A table of one sector in which cluster 2 is a file of its own. */
  function OneClusterArea(): (r: FatArea)
    ensures r.Valid()
  {
    FatArea(Zeros(8) + [0xFF, 0xFF, 0xFF, 0x0F] + Zeros(500), {}, 512, 1)
  }

  lemma OneClusterChain()
    ensures Ends(OneClusterArea(), 2, 2) && Chain(OneClusterArea(), 2, 2) == [2] && Followed(OneClusterArea(), 2, 2)
    ensures Encode([2]) == [ClusterEntry(2, 1)]
  {
    var area := OneClusterArea();
    assert area.Cell(2) == 8 && area.SectorOf(2) == 0;
    assert area.Next(2) == END_CLUSTER && !area.Throws(2);
    hide FatArea.Next, FatArea.Throws;
    assert Chain(area, 2, 2) == [2] + Chain(area, END_CLUSTER, 1);
    assert [2][..0] == [] && Encode([]) == [];
  }

  const TWO_CLUSTERS: Volume := Volume(512, 1, 1, 10, 0, 2)

  lemma MulKnown(x: int, y: int, k: int)
    requires y == k
    ensures x * y == x * k
  {
  }

  lemma OneClusterPlace(v: Volume)
    requires v == Volume(512, 1, 1, 10, 0, 2)
    ensures v.ClusterSize() == 512 && v.Start(2) == 512 && v.InRange(ClusterEntry(2, 1))
  {
    MulKnown(v.bytesPerSector, v.sectorsPerCluster, 1);
    MulKnown(2 - 2, v.sectorsPerCluster, 1);
    MulKnown(1, v.sectorsPerCluster, 1);
    MulKnown(v.Sector(2), v.bytesPerSector, 512);
  }

  lemma OneClusterKept(v: Volume)
    requires v == Volume(512, 1, 1, 10, 0, 2)
    ensures Kept(v, [ClusterEntry(2, 1)]) == [ClusterEntry(2, 1)] && Total([ClusterEntry(2, 1)]) == 1
    ensures v.Valid() && v.ClusterSize() == 512
  {
    OneClusterPlace(v);
    hide Volume.InRange, Volume.Sector, Volume.ClusterSize;
    OneKept(v, ClusterEntry(2, 1));
    assert v.bytesPerSector == 512 && v.sectorsPerCluster == 1;
    hide Kept, Total;
  }

  lemma OneKept(v: Volume, run: ClusterEntry)
    requires v.InRange(run)
    ensures Kept(v, [run]) == [run] && Total([run]) == run.count
  {
    hide Volume.InRange;
    assert [run][1..] == [] && Kept(v, [run][1..]) == [] && Total([run][1..]) == 0;
  }

  lemma OneClusterRead(v: Volume, media: seq<byte>)
    requires v == Volume(512, 1, 1, 10, 0, 2) && |media| == 2048
    ensures AllReadable(v, media, [ClusterEntry(2, 1)])
  {
    hide *;
    OneClusterPlace(v);
    MulKnown(1, v.ClusterSize(), 512);
    OneReadable(v, media, ClusterEntry(2, 1));
  }

  lemma OneReadable(v: Volume, media: seq<byte>, run: ClusterEntry)
    requires 0 <= v.Start(run.number) && v.Start(run.number) + run.count * v.ClusterSize() <= |media|
    ensures AllReadable(v, media, [run])
  {
    hide Volume.Start, Volume.ClusterSize;
  }

  lemma OneClusterFilled(v: Volume, media: seq<byte>, before: seq<byte>, bytesRead: nat, memOffset: nat, data: seq<byte>)
    requires v == Volume(512, 1, 1, 10, 0, 2) && AllReadable(v, media, [ClusterEntry(2, 1)])
    requires Filled(v, media, [ClusterEntry(2, 1)], 0, before, bytesRead, memOffset, data)
    ensures bytesRead == memOffset == 512
  {
    OneClusterKept(v);
    hide Total, RunsData, Volume.ClusterSize;
  }

  /** A volume of two clusters whose cluster 2 is a file of its own. */
  method TwoClusterVolume() returns (fs: FatFileSystem)
    ensures fresh(fs.reader) && fresh(fs.fatTable.fatTable) && fresh(fs.fatTable.sectorArray)
    ensures fs.Valid() && fs.volume == TWO_CLUSTERS && fs.fatTable.area == OneClusterArea() && |fs.reader.media| == 2048
  {
    hide OneClusterArea, FatTable.Valid;
    var reader := new File.Create(true);
    var _ := reader.WriteData(Zeros(2048));
    var table := new FatTable(OneClusterArea());
    fs := new FatFileSystem(reader, table, TWO_CLUSTERS);
  }

  lemma OneClusterFacts(fs: FatFileSystem, media: seq<byte>)
    requires fs.volume == TWO_CLUSTERS && fs.fatTable.area == OneClusterArea() && |media| == 2048
    ensures Ends(fs.fatTable.area, 2, 2) && fs.volume == Volume(512, 1, 1, 10, 0, 2) && Canonical([])
    ensures fs.FileRuns([], 2, 2) == [ClusterEntry(2, 1)] && fs.FileClusters([], 2, 2) == [2] && fs.Fetched([], 2, 2)
    ensures Kept(fs.volume, [ClusterEntry(2, 1)]) == [ClusterEntry(2, 1)] && fs.volume.ClusterSize() == 512
    ensures AllReadable(fs.volume, media, [ClusterEntry(2, 1)])
  {
    OneClusterChain();
    OneClusterKept(fs.volume);
    OneClusterRead(fs.volume, media);
    hide OneClusterArea, Kept, Total, AllReadable, Volume.ClusterSize;
  }

  /** A file in the first cluster of a volume of two: its size is 0, and all its bytes are read. */
  method LastClusterUnsized() returns (size: Option<nat>, ok: bool, bytesRead: nat, memOffset: nat)
    ensures size == Some(0) && ok && bytesRead == memOffset == 512
  {
    var fs := TwoClusterVolume();
    var handle := new FileHandle();
    var data := new byte[512];
    OneClusterFacts(fs, fs.reader.media);
    hide OneClusterArea, Ends, Chain, Followed, Encode, Kept, Total, AllReadable, Filled, Canonical, TWO_CLUSTERS, AllInRange;
    hide Volume.ClusterSize, FatFileSystem.FileRuns, FatFileSystem.FileClusters, FatFileSystem.Fetched;
    ghost var before := data[..];
    size, ok, bytesRead, memOffset := fs.SizeThenRead(handle, 2, data, 2);
    OneClusterFilled(fs.volume, fs.reader.media, before, bytesRead, memOffset, data[..]);
  }

  /** The two counters agree exactly on 512-byte sectors, or when nothing was read. */
  lemma CountersAgree(v: Volume, media: seq<byte>, runs: seq<ClusterEntry>, before: seq<byte>,
                      bytesRead: nat, memOffset: nat, data: seq<byte>)
    requires v.Valid() && v.bytesPerSector >= 512 && AllReadable(v, media, runs) && |data| < TWO_32
    requires Filled(v, media, runs, 0, before, bytesRead, memOffset, data)
    ensures bytesRead == memOffset <==> v.bytesPerSector == 512 || Total(runs) == 0
  {
    hide RunsData, AllReadable;
    SectorsOf(Total(runs), v.sectorsPerCluster, v.bytesPerSector);
    hide Total;
    BytesOf(Total(runs) * v.sectorsPerCluster, v.bytesPerSector);
  }

  lemma SectorsOf(clusters: nat, s: nat, b: nat)
    requires s > 0
    ensures clusters * (b * s) == clusters * s * b
    ensures clusters * s == 0 <==> clusters == 0
  {
    assert clusters * (b * s) == clusters * s * b;
    if clusters > 0 {
      MulSpread(clusters, s);
    }
  }

  lemma BytesOf(sectors: nat, b: nat)
    requires b >= 512
    ensures sectors * 512 <= sectors * b
    ensures sectors * 512 == sectors * b <==> b == 512 || sectors == 0
  {
    Distribute(512, b - 512, sectors);
    if b > 512 && sectors > 0 {
      MulSpread(b - 512, sectors);
    }
  }
}
