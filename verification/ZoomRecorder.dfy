/** De-interleaving a ZOOM Handy Recorder recording: of every three clusters the
    second belongs to the mono file and the other two to the stereo file. */
module ZoomRecorder {
  import opened Bytes
  import opened DefaultRaw
  import opened IoFile

  const CLUSTER_SIZE: nat := 32768
  const RIFF_HEADER_SIZE: nat := 8

  function Start(start: nat, i: nat): (r: nat) {
    start + i * 32768
  }

  predicate Mono(i: nat) {
    i % 3 == 1
  }

  /** The mono clusters, or the stereo clusters, among the first `n`, in their order. */
  function Picked(media: seq<byte>, start: nat, n: nat, mono: bool): (r: seq<byte>)
    requires Start(start, n) <= |media|
  {
    if n == 0 then []
    else
      var last := if Mono(n - 1) == mono then media[Start(start, n - 1)..Start(start, n)] else [];
      Picked(media, start, n - 1, mono) + last
  }

  /** How many of the first `n` clusters are picked. */
  function PickedCount(n: nat, mono: bool): (r: nat) {
    if mono then (n + 1) / 3 else n - (n + 1) / 3
  }

  lemma {:induction false} PickedLength(media: seq<byte>, start: nat, n: nat, mono: bool)
    requires Start(start, n) <= |media|
    ensures |Picked(media, start, n, mono)| == PickedCount(n, mono) * CLUSTER_SIZE
  {
    if n > 0 {
      PickedLength(media, start, n - 1, mono);
    }
  }

  lemma SamePrefix(front: seq<byte>, all: seq<byte>, k: nat)
    requires front <= all && (k + 1) * CLUSTER_SIZE <= |front|
    ensures all[k * CLUSTER_SIZE..(k + 1) * CLUSTER_SIZE] == front[k * CLUSTER_SIZE..(k + 1) * CLUSTER_SIZE]
  {
  }

  /** Every cluster is in exactly its own file, once, behind the earlier clusters of that file. */
  lemma {:induction false} PickedAt(media: seq<byte>, start: nat, n: nat, i: nat)
    requires Start(start, n) <= |media| && i < n
    ensures var k := PickedCount(i, Mono(i));
      (k + 1) * CLUSTER_SIZE <= |Picked(media, start, n, Mono(i))|
      && Picked(media, start, n, Mono(i))[k * CLUSTER_SIZE..(k + 1) * CLUSTER_SIZE] == media[Start(start, i)..Start(start, i + 1)]
  {
    var k, all := PickedCount(i, Mono(i)), Picked(media, start, n, Mono(i));
    var front := Picked(media, start, n - 1, Mono(i));
    PickedLength(media, start, n - 1, Mono(i));
    assert front <= all;
    if i < n - 1 {
      hide Picked;
      PickedAt(media, start, n - 1, i);
      SamePrefix(front, all, k);
    } else {
      assert all == front + media[Start(start, i)..Start(start, i + 1)];
      hide Picked;
      assert |front| == k * CLUSTER_SIZE;
    }
  }

  /** Rounds of three clusters after the first two clusters until the stereo header's size is reached. */
  function Rounds(stereoSize: nat): (r: nat)
    ensures stereoSize <= 32768 + 65536 * r
    ensures r > 0 ==> 32768 + 65536 * (r - 1) < stereoSize
  {
    if stereoSize <= 32768 then 0 else (stereoSize - 32768 + 65535) / 65536
  }

  function ClustersNeeded(stereoSize: nat): (r: nat) {
    2 + 3 * Rounds(stereoSize)
  }

  /** Where the copied clusters end: all needed ones when they lie on the device,
      else one fewer, the last mono cluster missing. */
  function ClustersCopied(media: seq<byte>, start: nat): (r: nat)
    requires start + RIFF_HEADER_SIZE <= |media|
  {
    var n := ClustersNeeded(RiffSize(media, start));
    if Start(start, n) <= |media| then n else n - 1
  }

  /** How many clusters an incomplete recording leaves in the two files: none
      without both headers, else all whole ones on the device, except that a
      single stereo cluster of a pair is not copied. */
  function ClustersLeft(media: seq<byte>, start: nat): (r: nat)
    ensures r > 0 ==> Start(start, r) <= |media|
  {
    if Start(start, 1) + RIFF_HEADER_SIZE > |media| then 0
    else
      var whole := (|media| - start) / 32768;
      if whole % 3 == 0 then whole - 1 else whole
  }

  /** The recording can be saved: the 32-bit running size can reach the header's
      size without wrapping around, and all clusters lie on the device, or the
      device ends exactly in front of the last one, a mono cluster. */
  predicate Complete(media: seq<byte>, start: nat) {
    && start + RIFF_HEADER_SIZE <= |media|
    && RiffSize(media, start) <= 0xFFFF_8000
    && var n := ClustersNeeded(RiffSize(media, start));
       Start(start, n) <= |media| || (n > 2 && Start(start, n - 1) == |media|)
  }

  function RiffSize(media: seq<byte>, offset: nat): (r: nat)
    requires offset + RIFF_HEADER_SIZE <= |media|
  {
    DWord(media, offset + 4)
  }

  /** The recording can be saved, told from the device: after `k` rounds, and no
      fewer, the stereo file has its size, and those rounds lie on the device,
      or all but the last mono cluster do. */
  lemma CompleteWhen(media: seq<byte>, start: nat, k: nat)
    requires start + RIFF_HEADER_SIZE <= |media|
    requires 32768 + 65536 * k >= RiffSize(media, start) && (k > 0 ==> 32768 + 65536 * (k - 1) < RiffSize(media, start))
    ensures Complete(media, start) <==>
      && RiffSize(media, start) <= 0x1_0000_0000 - 32768
      && (start + (2 + 3 * k) * 32768 <= |media| || (k > 0 && start + (1 + 3 * k) * 32768 == |media|))
  {
    hide RiffSize;
    assert k == Rounds(RiffSize(media, start));
    hide Rounds;
  }

  /** The size stands behind the four letters of the header, lowest byte first. */
  lemma RiffSizeBack(media: seq<byte>, offset: nat, size: nat)
    requires offset + RIFF_HEADER_SIZE <= |media| && size < 0x1_0000_0000
    requires media[offset + 4..offset + 8] == LittleEndian(size, 4)
    ensures RiffSize(media, offset) == size
  {
    DWordBack(media, offset + 4, size);
  }

  method ReadRiffStruct(device: File, offset: nat) returns (r: Option<nat>)
    requires device.Ready()
    modifies device`position
    ensures r == if offset + RIFF_HEADER_SIZE <= |device.media| then Some(RiffSize(device.media, offset)) else None
  {
    device.SetPosition(offset);
    var header := device.ReadData(RIFF_HEADER_SIZE);
    r := if header.Some? then Some(DWord(header.value, 4)) else None;
  }

  /** `setSize` */
  method SetSize(file: File, newSize: nat)
    modifies file`media, file`size
    ensures file.media == Resize(old(file.media), newSize) && file.size == newSize
  {
    file.media, file.size := Resize(file.media, newSize), newSize;
  }

  /** `SaveRawFile`. It throws (None) or runs into the end of the source (0)
      exactly when the recording is not complete. */
  method SaveRawFile(device: File, stereo: File, mono: File, start: nat) returns (r: Option<nat>)
    requires device != stereo && device != mono && stereo != mono
    requires device.Ready() && stereo.Ready() && mono.Ready()
    requires stereo.media == mono.media == [] && stereo.size == mono.size == 0 && |device.media| < TWO_64
    modifies device`position, stereo`position, stereo`media, stereo`size, mono`position, mono`media, mono`size
    ensures !Complete(device.media, start) ==> r == if EndsBetween(device.media, start) then Some(0) else None
    ensures !Complete(device.media, start) ==> Left(device.media, start, stereo.media, mono.media)
    ensures Complete(device.media, start) ==>
      var media, size, monoSize := device.media, RiffSize(device.media, start), RiffSize(device.media, Start(start, 1));
      var n := ClustersCopied(media, start);
      && r == Some(32768 + 65536 * Rounds(size))
      && stereo.media == Resize(Picked(media, start, n, false), size + RIFF_HEADER_SIZE)
      && mono.media == if monoSize < size then Resize(Picked(media, start, n, true), monoSize + RIFF_HEADER_SIZE)
                       else Picked(media, start, n, true)
  {
    hide Picked, Resize, DWord, Complete, Append;
    ghost var media := device.media;
    HeadersNeeded(media, start);
    hide Left, EndsBetween;
    var stereoHeader := ReadRiffStruct(device, start);
    var monoHeader := ReadRiffStruct(device, start + CLUSTER_SIZE);
    if stereoHeader.None? || monoHeader.None? {
      NothingLeft(media, start);
      return None;
    }
    var size, monoSize := stereoHeader.value, monoHeader.value;
    hide RiffSize;
    FirstCopies(media, start);
    var written := AppendToFile(device, stereo, start, CLUSTER_SIZE);
    var stereoSize := U32(written.value);
    written := AppendToFile(device, mono, start + CLUSTER_SIZE, CLUSTER_SIZE);
    if written.None? {
      OneLeft(media, start);
      return None;
    }
    FirstClusters(media, start);
    var stereoOffset := start + 2 * CLUSTER_SIZE;
    ghost var k := 0;
    while stereoSize < size
      invariant stereo.size == |stereo.media| && mono.size == |mono.media|
      invariant stereoOffset == Start(start, 2 + 3 * k) && stereoSize == U32(32768 + 65536 * k)
      invariant size <= 0xFFFF_8000 ==> k <= Rounds(size)
      invariant Start(start, 2 + 3 * k) <= |media| || (k > 0 && Start(start, 1 + 3 * k) == |media|)
      invariant stereo.media == Picked(media, start, Reached(media, start, k), false)
      invariant mono.media == Picked(media, start, Reached(media, start, k), true)
      decreases |media| - stereoOffset
    {
      RunningSize(size, k);
      RoundCopies(media, start, k);
      LeftBehind(media, start, k);
      if stereoOffset >= |device.media| {
        return Some(0);
      }
      written := AppendToFile(device, stereo, stereoOffset, CLUSTER_SIZE * 2);
      if written.None? {
        return None;
      }
      stereoSize := U32(stereoSize + written.value);
      var monoOffset := stereoOffset + CLUSTER_SIZE * 2;
      written := AppendToFile(device, mono, monoOffset, CLUSTER_SIZE);
      if written.None? {
        return None;
      }
      stereoOffset := monoOffset + CLUSTER_SIZE;
      k := k + 1;
    }
    RunningSize(size, k);
    AllCopied(media, start, k);
    SetSize(stereo, size + RIFF_HEADER_SIZE);
    if monoSize < size {
      SetSize(mono, monoSize + RIFF_HEADER_SIZE);
    }
    return Some(stereoSize);
  }

  /** The device ends with a whole cluster, in front of a pair of stereo
      clusters or of a mono cluster: the loop sees the end. Elsewhere a read throws. */
  predicate EndsBetween(media: seq<byte>, start: nat) {
    && start + 2 * 32768 <= |media| && (|media| - start) % 32768 == 0
    && (|media| - start) / 32768 % 3 != 0
  }

  /** What an incomplete recording leaves in the files. */
  ghost predicate Left(media: seq<byte>, start: nat, stereo: seq<byte>, mono: seq<byte>) {
    var n := ClustersLeft(media, start);
    if n == 0 then stereo == mono == [] else stereo == Picked(media, start, n, false) && mono == Picked(media, start, n, true)
  }

  lemma NothingLeft(media: seq<byte>, start: nat)
    requires Start(start, 1) + RIFF_HEADER_SIZE > |media|
    ensures Left(media, start, [], []) && !EndsBetween(media, start)
  {
  }

  lemma OneLeft(media: seq<byte>, start: nat)
    requires Start(start, 1) + RIFF_HEADER_SIZE <= |media| < Start(start, 2)
    ensures Left(media, start, media[start..start + 32768], []) && !EndsBetween(media, start)
  {
    assert Picked(media, start, 0, false) == [] && Picked(media, start, 0, true) == [];
    assert Picked(media, start, 1, false) == media[start..start + 32768];
    assert Picked(media, start, 1, true) == [];
  }

  /** What is left when the round after `k` others cannot be finished. */
  lemma LeftBehind(media: seq<byte>, start: nat, k: nat)
    requires Start(start, 1) + RIFF_HEADER_SIZE <= |media| < TWO_64
    requires Start(start, 2 + 3 * k) <= |media| || (k > 0 && Start(start, 1 + 3 * k) == |media|)
    ensures var at, n := Start(start, 2 + 3 * k), Reached(media, start, k);
      var stereo, mono := Picked(media, start, n, false), Picked(media, start, n, true);
      && (|media| <= at ==> Left(media, start, stereo, mono) && EndsBetween(media, start))
      && (|media| > at && |media| < Start(start, 5 + 3 * k) && |media| != Start(start, 4 + 3 * k) ==> !EndsBetween(media, start))
      && (at < |media| < Start(start, 4 + 3 * k) ==> Left(media, start, stereo + Append(media, at, 65536).1, mono))
      && (Start(start, 4 + 3 * k) < |media| < Start(start, 5 + 3 * k) ==>
          Left(media, start, stereo + Append(media, at, 65536).1, mono + Append(media, at + 65536, 32768).1))
  {
    hide Append, Picked;
    var at := Start(start, 2 + 3 * k);
    if |media| <= at {
      assert ClustersLeft(media, start) == Reached(media, start, k);
    } else if |media| < Start(start, 4 + 3 * k) {
      ClusterCopy(media, at, 65536);
      assert ClustersLeft(media, start) == 2 + 3 * k;
      assert Picked(media, start, 2 + 3 * k, false) + [] == Picked(media, start, 2 + 3 * k, false);
    } else if Start(start, 4 + 3 * k) < |media| < Start(start, 5 + 3 * k) {
      ClusterCopy(media, at, 65536);
      ClusterCopy(media, at + 65536, 32768);
      StereoOnly(media, start, k);
      assert ClustersLeft(media, start) == 4 + 3 * k;
      assert Picked(media, start, 2 + 3 * k, true) + [] == Picked(media, start, 2 + 3 * k, true);
    }
  }

  /** The clusters copied after `k` rounds, of which the last may lack its mono cluster. */
  function Reached(media: seq<byte>, start: nat, k: nat): (r: nat)
    requires Start(start, 2 + 3 * k) <= |media| || (k > 0 && Start(start, 1 + 3 * k) == |media|)
    ensures Start(start, r) <= |media|
  {
    if Start(start, 2 + 3 * k) <= |media| then 2 + 3 * k else 1 + 3 * k
  }

  /** Copying clusters that do not all lie on the device throws. */
  lemma ClusterCopy(media: seq<byte>, offset: nat, size: nat)
    requires size == 32768 || size == 65536
    requires offset < |media| < TWO_64 && (Inside(media, offset, size) || size < |media|)
    ensures Inside(media, offset, size) ==> Append(media, offset, size) == (Some(size), media[offset..offset + size])
    ensures !Inside(media, offset, size) ==> Append(media, offset, size) == (None, [])
  {
    if Inside(media, offset, size) {
      InsideAppended(media, offset, size);
    } else {
      assert ToWrite(media, offset, size) == |media| - size > 0;
      assert (|media| - offset) / 65536 == 0 && media[offset..offset + 0 * 65536] == [];
    }
  }

  lemma HeadersNeeded(media: seq<byte>, start: nat)
    ensures Complete(media, start) ==> Start(start, 2) <= |media|
  {
    hide DWord, RiffSize;
  }

  lemma FirstCopies(media: seq<byte>, start: nat)
    requires Start(start, 1) + RIFF_HEADER_SIZE <= |media| < TWO_64
    ensures Append(media, start, 32768) == (Some(32768), media[start..start + 32768])
    ensures if Start(start, 2) <= |media|
      then Append(media, start + 32768, 32768) == (Some(32768), media[start + 32768..start + 65536])
      else Append(media, start + 32768, 32768) == (None, [])
  {
    hide Append;
    ClusterCopy(media, start, 32768);
    ClusterCopy(media, start + 32768, 32768);
  }

  /** The running size wraps after 65536 rounds. While it is below a size that
      it can reach, it has not wrapped and more rounds are needed. */
  lemma RunningSize(size: nat, k: nat)
    ensures U32(U32(32768 + 65536 * k) + 65536) == U32(32768 + 65536 * (k + 1)) && U32(32768 + 65536 * k) <= 0xFFFF_8000
    ensures size <= 0xFFFF_8000 && k <= Rounds(size) ==> U32(32768 + 65536 * k) == 32768 + 65536 * k
    ensures size <= 0xFFFF_8000 && k <= Rounds(size) && U32(32768 + 65536 * k) < size ==> k < Rounds(size)
    ensures size <= 0xFFFF_8000 && k <= Rounds(size) && U32(32768 + 65536 * k) >= size ==> k == Rounds(size)
  {
  }

  /** A round that finds the source ended, or not long enough for its stereo
      clusters or for part of its mono cluster, shows the recording incomplete. */
  lemma RoundCopies(media: seq<byte>, start: nat, k: nat)
    requires start + RIFF_HEADER_SIZE <= |media| < TWO_64
    requires Start(start, 2 + 3 * k) <= |media| || (k > 0 && Start(start, 1 + 3 * k) == |media|)
    requires RiffSize(media, start) <= 0xFFFF_8000 ==> k < Rounds(RiffSize(media, start))
    ensures var at := Start(start, 2 + 3 * k);
      if |media| <= at || |media| < Start(start, 4 + 3 * k) || Start(start, 4 + 3 * k) < |media| < Start(start, 5 + 3 * k) then
        && !Complete(media, start)
        && (at < |media| < Start(start, 4 + 3 * k) ==> Append(media, at, 65536).0 == None)
        && (Start(start, 4 + 3 * k) <= |media| ==> Append(media, at, 65536).0 == Some(65536))
        && (Start(start, 4 + 3 * k) < |media| ==> Append(media, at + 65536, 32768).0 == None)
      else
        && Append(media, at, 65536) == (Some(65536), media[at..at + 65536])
        && Append(media, at + 65536, 32768).0.Some?
        && (Start(start, 5 + 3 * k) <= |media| || Start(start, 4 + 3 * k) == |media|)
        && Picked(media, start, Reached(media, start, k + 1), false) == Picked(media, start, 2 + 3 * k, false) + media[at..at + 65536]
        && Picked(media, start, Reached(media, start, k + 1), true)
          == Picked(media, start, 2 + 3 * k, true) + Append(media, at + 65536, 32768).1
  {
    hide Append, RiffSize, Rounds, Picked, Complete;
    if |media| < Start(start, 5 + 3 * k) && |media| != Start(start, 4 + 3 * k) {
      TooShort(media, start, k);
    }
    var at := Start(start, 2 + 3 * k);
    if at < |media| {
      ClusterCopy(media, at, 65536);
      if at + 65536 < |media| {
        ClusterCopy(media, at + 65536, 32768);
      }
      if at + 65536 == |media| {
        assert Append(media, at + 65536, 32768) == (Some(0), []) by {
          NothingThere(media, at + 65536);
        }
        StereoOnly(media, start, k);
      } else if at + 98304 <= |media| {
        NextClusters(media, start, k);
      }
    }
  }

  lemma NothingThere(media: seq<byte>, offset: nat)
    requires |media| <= offset
    ensures Append(media, offset, 32768) == (Some(0), [])
  {
  }

  lemma TooShort(media: seq<byte>, start: nat, k: nat)
    requires start + RIFF_HEADER_SIZE <= |media|
    requires RiffSize(media, start) <= 0xFFFF_8000 ==> k < Rounds(RiffSize(media, start))
    requires |media| < Start(start, 5 + 3 * k) && |media| != Start(start, 4 + 3 * k)
    ensures !Complete(media, start)
  {
    hide RiffSize, Rounds;
  }

  lemma AllCopied(media: seq<byte>, start: nat, k: nat)
    requires start + RIFF_HEADER_SIZE <= |media|
    requires Start(start, 2 + 3 * k) <= |media| || (k > 0 && Start(start, 1 + 3 * k) == |media|)
    requires RiffSize(media, start) <= 0xFFFF_8000 && k == Rounds(RiffSize(media, start))
    ensures Complete(media, start) && Reached(media, start, k) == ClustersCopied(media, start)
  {
    hide RiffSize, Rounds;
  }

  /** The stereo clusters of a round whose mono cluster is missing. */
  lemma StereoOnly(media: seq<byte>, start: nat, k: nat)
    requires Start(start, 4 + 3 * k) <= |media|
    ensures var at := Start(start, 2 + 3 * k);
      && Picked(media, start, 4 + 3 * k, false) == Picked(media, start, 2 + 3 * k, false) + media[at..at + 65536]
      && Picked(media, start, 4 + 3 * k, true) == Picked(media, start, 2 + 3 * k, true)
  {
    var at, n := Start(start, 2 + 3 * k), 2 + 3 * k;
    assert media[at..at + 65536] == media[at..at + 32768] + media[at + 32768..at + 65536];
    assert Picked(media, start, n + 1, false) == Picked(media, start, n, false) + media[at..at + 32768];
    assert Picked(media, start, n + 2, false) == Picked(media, start, n + 1, false) + media[at + 32768..at + 65536];
    assert Picked(media, start, n + 1, true) == Picked(media, start, n, true);
    assert Picked(media, start, n + 2, true) == Picked(media, start, n + 1, true);
  }

  lemma FirstClusters(media: seq<byte>, start: nat)
    requires Start(start, 2) <= |media|
    ensures Picked(media, start, 2, false) == media[start..start + 32768]
    ensures Picked(media, start, 2, true) == media[start + 32768..start + 65536]
  {
    assert Picked(media, start, 1, false) == media[start..start + 32768];
    assert Picked(media, start, 1, true) == [];
  }

  lemma NextClusters(media: seq<byte>, start: nat, k: nat)
    requires Start(start, 5 + 3 * k) <= |media|
    ensures var at := Start(start, 2 + 3 * k);
      && Picked(media, start, 5 + 3 * k, false) == Picked(media, start, 2 + 3 * k, false) + media[at..at + 65536]
      && Picked(media, start, 5 + 3 * k, true) == Picked(media, start, 2 + 3 * k, true) + media[at + 65536..at + 98304]
  {
    StereoOnly(media, start, k);
    var at := Start(start, 2 + 3 * k);
    assert Picked(media, start, 5 + 3 * k, true) == Picked(media, start, 4 + 3 * k, true) + media[at + 65536..at + 98304];
    assert Picked(media, start, 5 + 3 * k, false) == Picked(media, start, 4 + 3 * k, false);
  }
}
