/** Recovery of one file from an ext4 extent tree: the recursive walk that
    copies every leaf extent to its logical place in a sparse target. */
module ExtentTree {
  import opened Arithmetic
  import opened Bytes
  import opened IoFile

  const BLOCK_SIZE: nat := 4096
  const EXTENT_HEADER_MAGIC := 0xF30A
  const MAX_EXTENTS: nat := 340
  const BAD_SECTOR_MARKER: seq<byte> := [0x62, 0x61, 0x64, 0x20, 0x73, 0x65, 0x63, 0x74, 0x6F, 0x72]

  // ---------- the node on the disk

  datatype Extent = Extent(block: nat, len: nat, physical: nat) {
    /** Number of blocks; a length above 0x8000 marks an unwritten (all-zero) extent. */
    function Blocks(): (r: nat) {
      if len <= 0x8000 then len else len - 0x8000
    }

    predicate Covers(p: int) {
      block * BLOCK_SIZE <= p < (block + Blocks()) * BLOCK_SIZE
    }
  }

  predicate IsNode(b: seq<byte>) {
    |b| == BLOCK_SIZE
  }

  function Entries(b: seq<byte>): nat requires IsNode(b) { Word(b, 2) }

  function Depth(b: seq<byte>): nat requires IsNode(b) { Word(b, 6) }

  predicate IsValidExtent(b: seq<byte>)
    requires IsNode(b)
  {
    Word(b, 0) == EXTENT_HEADER_MAGIC && Word(b, 4) == MAX_EXTENTS && Entries(b) <= MAX_EXTENTS
  }

  function ExtentAt(b: seq<byte>, i: nat): Extent
    requires IsNode(b) && i < MAX_EXTENTS
  {
    var at := 12 + 12 * i;
    Extent(DWord(b, at), Word(b, at + 4), DWord(b, at + 8) + TWO_32 * Word(b, at + 6))
  }

  function ChildAt(b: seq<byte>, i: nat): nat
    requires IsNode(b) && i < MAX_EXTENTS
  {
    var at := 12 + 12 * i;
    DWord(b, at + 4) + TWO_32 * Word(b, at + 8)
  }

  function NodeAt(media: seq<byte>, volumeOffset: nat, n: nat): (r: Option<seq<byte>>)
    ensures r.Some? ==> IsNode(r.value)
  {
    ReadAt(media, volumeOffset + n * BLOCK_SIZE, BLOCK_SIZE)
  }

  /** The data of an extent; its address counts from the start of the device,
      not of the volume. None stands for the exception of a failed read. */
  function Payload(media: seq<byte>, e: Extent): (r: Option<seq<byte>>)
    ensures r.Some? ==> |r.value| == e.Blocks() * BLOCK_SIZE > 0
  {
    if e.len <= 0x8000 then ReadAt(media, e.physical * BLOCK_SIZE, e.Blocks() * BLOCK_SIZE)
    else Some(Zeros(e.Blocks() * BLOCK_SIZE))
  }

  predicate BadMarked(data: seq<byte>) {
    |BAD_SECTOR_MARKER| <= |data| && data[..|BAD_SECTOR_MARKER|] == BAD_SECTOR_MARKER
  }

  predicate Copyable(media: seq<byte>, e: Extent) {
    Payload(media, e).Some? && !BadMarked(Payload(media, e).value)
  }

  // ---------- the walk: which extents are copied, in which order

  /** `ok` is false when the walk ends in an exception. */
  datatype Walk = Walk(extents: seq<Extent>, ok: bool)

  function LeafWalk(media: seq<byte>, b: seq<byte>, i: nat): (w: Walk)
    requires IsNode(b) && i <= Entries(b) <= MAX_EXTENTS
    decreases Entries(b) - i
  {
    if i == Entries(b) then Walk([], true)
    else
      match Payload(media, ExtentAt(b, i))
      case None => Walk([], false)
      case Some(data) =>
        if BadMarked(data) then Walk([], true)
        else
          var rest := LeafWalk(media, b, i + 1);
          Walk([ExtentAt(b, i)] + rest.extents, rest.ok)
  }

  /** The tree below block `n` has at most `h` index levels. */
  ghost predicate Finite(media: seq<byte>, volumeOffset: nat, n: nat, h: nat)
    decreases h
  {
    match NodeAt(media, volumeOffset, n)
    case None => true
    case Some(b) =>
      IsValidExtent(b) && Depth(b) != 0 ==>
        h > 0 && forall i :: 0 <= i < Entries(b) ==> Finite(media, volumeOffset, ChildAt(b, i), h - 1)
  }

  ghost function TreeWalk(media: seq<byte>, volumeOffset: nat, n: nat, h: nat): (w: Walk)
    requires Finite(media, volumeOffset, n, h)
    decreases h, MAX_EXTENTS + 1
  {
    match NodeAt(media, volumeOffset, n)
    case None => Walk([], false)
    case Some(b) =>
      if !IsValidExtent(b) then Walk([], true)
      else if Depth(b) == 0 then LeafWalk(media, b, 0)
      else ChildrenWalk(media, volumeOffset, b, 0, h - 1)
  }

  ghost function ChildrenWalk(media: seq<byte>, volumeOffset: nat, b: seq<byte>, i: nat, h: nat): (w: Walk)
    requires IsNode(b) && i <= Entries(b) <= MAX_EXTENTS
    requires forall j :: i <= j < Entries(b) ==> Finite(media, volumeOffset, ChildAt(b, j), h)
    decreases h + 1, Entries(b) - i
  {
    if i == Entries(b) then Walk([], true)
    else
      var first := TreeWalk(media, volumeOffset, ChildAt(b, i), h);
      if !first.ok then first
      else
        var rest := ChildrenWalk(media, volumeOffset, b, i + 1, h);
        Walk(first.extents + rest.extents, rest.ok)
  }

  predicate Readable(media: seq<byte>, es: seq<Extent>) {
    forall k :: 0 <= k < |es| ==> Payload(media, es[k]).Some?
  }

  /** The target after the extents have been written one after the other. */
  function Image(media: seq<byte>, target: seq<byte>, es: seq<Extent>): (image: seq<byte>)
    requires Readable(media, es)
  {
    if es == [] then target
    else
      var last := es[|es| - 1];
      Overwrite(Image(media, target, es[..|es| - 1]), last.block * BLOCK_SIZE, Payload(media, last).value)
  }

  lemma {:induction false} ImageConcat(media: seq<byte>, target: seq<byte>, a: seq<Extent>, b: seq<Extent>)
    requires Readable(media, a) && Readable(media, b)
    ensures Readable(media, a + b)
    ensures Image(media, target, a + b) == Image(media, Image(media, target, a), b)
  {
    if b == [] {
      assert a + b == a;
    } else {
      assert (a + b)[..|a + b| - 1] == a + b[..|b| - 1];
      ImageConcat(media, target, a, b[..|b| - 1]);
    }
  }

  /** A run that ended with `ok` and left `target` did exactly what `walk` says. */
  ghost predicate Saved(media: seq<byte>, target0: seq<byte>, walk: Walk, ok: bool, target: seq<byte>) {
    ok == walk.ok && Readable(media, walk.extents) && target == Image(media, target0, walk.extents)
  }

  /** Part way through: `done` has been copied and `rest` is still to come. */
  ghost predicate Pending(media: seq<byte>, target0: seq<byte>, walk: Walk, done: seq<Extent>, rest: Walk, target: seq<byte>) {
    Readable(media, done) && target == Image(media, target0, done) && walk == Walk(done + rest.extents, rest.ok)
  }

  lemma PendingStart(media: seq<byte>, target0: seq<byte>, walk: Walk)
    ensures Pending(media, target0, walk, [], walk, target0)
  {
    assert [] + walk.extents == walk.extents;
  }

  lemma PendingStep(media: seq<byte>, target0: seq<byte>, walk: Walk, done: seq<Extent>, rest: Walk, target: seq<byte>,
                    es: seq<Extent>, rest': Walk)
    requires Pending(media, target0, walk, done, rest, target)
    requires Readable(media, es) && rest == Walk(es + rest'.extents, rest'.ok)
    ensures Pending(media, target0, walk, done + es, rest', Image(media, target, es))
  {
    hide Image;
    ImageConcat(media, target0, done, es);
    assert done + (es + rest'.extents) == done + es + rest'.extents;
  }

  lemma PendingEnd(media: seq<byte>, target0: seq<byte>, walk: Walk, done: seq<Extent>, ok: bool, target: seq<byte>)
    requires Pending(media, target0, walk, done, Walk([], ok), target)
    ensures Saved(media, target0, walk, ok, target)
  {
    assert done + [] == done;
  }

  // ---------- what the image holds

  /** The byte extent `e` puts at target address `p`: byte `p` of logical block
      `block + j` comes from the same place of physical block `physical + j`. */
  function SourceByte(media: seq<byte>, e: Extent, p: nat): byte
    requires Payload(media, e).Some? && e.Covers(p)
  {
    if e.len <= 0x8000 then media[e.physical * BLOCK_SIZE + (p - e.block * BLOCK_SIZE)] else 0
  }

  /** Extent `k` is the last one that covers address `p`. */
  predicate Decides(es: seq<Extent>, k: int, p: int) {
    0 <= k < |es| && es[k].Covers(p) && forall j :: k < j < |es| ==> !es[j].Covers(p)
  }

  predicate Uncovered(es: seq<Extent>, p: int) {
    forall k :: 0 <= k < |es| ==> !es[k].Covers(p)
  }

  function End(es: seq<Extent>, least: nat): (r: nat) {
    if es == [] then least
    else Max(End(es[..|es| - 1], least), (es[|es| - 1].block + es[|es| - 1].Blocks()) * BLOCK_SIZE)
  }

  lemma {:induction false} EndBounds(es: seq<Extent>, least: nat)
    ensures least <= End(es, least)
    ensures forall k :: 0 <= k < |es| ==> (es[k].block + es[k].Blocks()) * BLOCK_SIZE <= End(es, least)
    ensures End(es, least) == least ||
      exists k :: 0 <= k < |es| && End(es, least) == (es[k].block + es[k].Blocks()) * BLOCK_SIZE
  {
    if es != [] {
      EndBounds(es[..|es| - 1], least);
    }
  }

  lemma {:induction false} ImageLength(media: seq<byte>, target: seq<byte>, es: seq<Extent>)
    requires Readable(media, es)
    ensures |Image(media, target, es)| == End(es, |target|)
  {
    if es != [] {
      ImageLength(media, target, es[..|es| - 1]);
    }
  }

  /** Byte by byte: the last extent that covers an address decides it, and an
      address no extent covers keeps its old byte (zero in a gap). */
  lemma {:induction false} ImageByte(media: seq<byte>, target: seq<byte>, es: seq<Extent>, p: nat)
    requires Readable(media, es) && p < |Image(media, target, es)|
    ensures forall k :: Decides(es, k, p) ==> Image(media, target, es)[p] == SourceByte(media, es[k], p)
    ensures Uncovered(es, p) ==> Image(media, target, es)[p] == if p < |target| then target[p] else 0
  {
    hide Payload, Overwrite, SourceByte, Extent.Covers;
    if es != [] {
      var n := |es| - 1;
      var before := Image(media, target, es[..n]);
      assert forall k :: 0 <= k < n ==> es[..n][k] == es[k];
      LastByte(media, before, es[n], p);
      if !es[n].Covers(p) {
        if p < |before| {
          ImageByte(media, target, es[..n], p);
          assert forall k :: Decides(es, k, p) ==> Decides(es[..n], k, p);
        } else {
          NothingBeyond(media, target, es[..n], p);
        }
      }
    }
  }

  lemma LastByte(media: seq<byte>, before: seq<byte>, e: Extent, p: nat)
    requires Payload(media, e).Some? && p < |Overwrite(before, e.block * BLOCK_SIZE, Payload(media, e).value)|
    ensures var after := Overwrite(before, e.block * BLOCK_SIZE, Payload(media, e).value);
      after[p] == if e.Covers(p) then SourceByte(media, e, p) else if p < |before| then before[p] else 0
  {
    if e.Covers(p) {
      PayloadByte(media, e, p);
    }
    hide Payload, Overwrite, SourceByte;
  }

  lemma NothingBeyond(media: seq<byte>, target: seq<byte>, es: seq<Extent>, p: nat)
    requires Readable(media, es) && |Image(media, target, es)| <= p
    ensures Uncovered(es, p) && |target| <= p
  {
    ImageLength(media, target, es);
    EndBounds(es, |target|);
  }

  lemma PayloadByte(media: seq<byte>, e: Extent, p: nat)
    requires Payload(media, e).Some? && e.Covers(p)
    ensures Payload(media, e).value[p - e.block * BLOCK_SIZE] == SourceByte(media, e, p)
  {
  }

  lemma {:induction false} SomeDecides(es: seq<Extent>, p: nat) returns (k: int)
    requires !Uncovered(es, p)
    ensures Decides(es, k, p)
  {
    k := |es| - 1;
    while !es[k].Covers(p)
      invariant 0 <= k < |es| && forall j :: k < j < |es| ==> !es[j].Covers(p)
      invariant exists j :: 0 <= j <= k && es[j].Covers(p)
      decreases k
    {
      k := k - 1;
    }
  }

  predicate Apart(e: Extent, f: Extent) {
    e.block + e.Blocks() <= f.block || f.block + f.Blocks() <= e.block
  }

  /** When the extents do not overlap, only which extents there are matters, not their order. */
  lemma OrderIrrelevant(media: seq<byte>, target: seq<byte>, a: seq<Extent>, b: seq<Extent>)
    requires Readable(media, a) && Readable(media, b)
    requires forall i, j :: 0 <= i < j < |a| ==> Apart(a[i], a[j])
    requires forall e :: e in a <==> e in b
    ensures Image(media, target, a) == Image(media, target, b)
  {
    EndBounds(a, |target|);
    EndBounds(b, |target|);
    assert forall k :: 0 <= k < |a| ==> a[k] in b;
    assert forall k :: 0 <= k < |b| ==> b[k] in a;
    ImageLength(media, target, a);
    ImageLength(media, target, b);
    forall p | 0 <= p < End(a, |target|)
      ensures Image(media, target, a)[p] == Image(media, target, b)[p]
    {
      SameByte(media, target, a, b, p);
    }
  }

  lemma SameByte(media: seq<byte>, target: seq<byte>, a: seq<Extent>, b: seq<Extent>, p: nat)
    requires Readable(media, a) && Readable(media, b)
    requires forall i, j :: 0 <= i < j < |a| ==> Apart(a[i], a[j])
    requires forall e :: e in a <==> e in b
    requires p < |Image(media, target, a)| == |Image(media, target, b)|
    ensures Image(media, target, a)[p] == Image(media, target, b)[p]
  {
    ImageByte(media, target, a, p);
    ImageByte(media, target, b, p);
    if Uncovered(b, p) {
      assert forall k :: 0 <= k < |a| ==> a[k] in b;
    } else {
      var k := SomeDecides(b, p);
      assert b[k] in a;
      var i :| 0 <= i < |a| && a[i] == b[k];
      assert Decides(a, i, p);
    }
  }

  /** A leaf gives its entries in order, up to the first whose data cannot be
      read (an exception) or are marked bad (the rest of the leaf is dropped). */
  lemma {:induction false} LeafStopsAtFirstBad(media: seq<byte>, b: seq<byte>, i: nat)
    requires IsNode(b) && i <= Entries(b) <= MAX_EXTENTS
    ensures var k := i + |LeafWalk(media, b, i).extents|;
      && k <= Entries(b)
      && LeafWalk(media, b, i).extents == seq(k - i, j requires 0 <= j < k - i => ExtentAt(b, i + j))
      && (forall j :: i <= j < k ==> Copyable(media, ExtentAt(b, j)))
      && (k < Entries(b) ==> !Copyable(media, ExtentAt(b, k)))
      && (LeafWalk(media, b, i).ok <==> k == Entries(b) || Payload(media, ExtentAt(b, k)).Some?)
    decreases Entries(b) - i
  {
    hide ExtentAt, Payload, BadMarked;
    if i < Entries(b) && Copyable(media, ExtentAt(b, i)) {
      LeafStopsAtFirstBad(media, b, i + 1);
      assert LeafWalk(media, b, i).extents == [ExtentAt(b, i)] + LeafWalk(media, b, i + 1).extents;
    }
  }

  // ---------- nodes as they are written on the disk

  lemma ValidBytes(b: seq<byte>)
    requires IsNode(b)
    ensures IsValidExtent(b) <==> b[..2] == [0x0A, 0xF3] && b[4..6] == [0x54, 0x01] && b[2] as int + 256 * b[3] as int <= 340
  {
    assert b[..2] == [b[0], b[1]] && b[4..6] == [b[4], b[5]];
  }

  lemma HeaderBack(b: seq<byte>, entries: nat, depth: nat)
    requires IsNode(b) && entries <= 340 && depth < 0x1_0000
    requires b[..8] == [0x0A, 0xF3] + LittleEndian(entries, 2) + [0x54, 0x01] + LittleEndian(depth, 2)
    ensures IsValidExtent(b) && Entries(b) == entries && Depth(b) == depth
  {
    var head := b[..8];
    assert b[..2] == head[..2] == [0x0A, 0xF3] && b[4..6] == head[4..6] == [0x54, 0x01];
    assert b[2..4] == head[2..4] == LittleEndian(entries, 2) && b[6..8] == head[6..8] == LittleEndian(depth, 2);
    WordBack(b, 2, entries);
    WordBack(b, 6, depth);
    ValidBytes(b);
  }

  /** Fields of entry `i` of a leaf: logical block, length, high and low part of the physical block. */
  lemma ExtentBack(b: seq<byte>, i: nat, e: Extent)
    requires IsNode(b) && i < MAX_EXTENTS
    requires e.block < TWO_32 && e.len < 0x1_0000 && e.physical < TWO_32 * 0x1_0000
    requires b[12 + 12 * i..16 + 12 * i] == LittleEndian(e.block, 4)
    requires b[16 + 12 * i..18 + 12 * i] == LittleEndian(e.len, 2)
    requires b[18 + 12 * i..20 + 12 * i] == LittleEndian(e.physical / TWO_32, 2)
    requires b[20 + 12 * i..24 + 12 * i] == LittleEndian(e.physical % TWO_32, 4)
    ensures ExtentAt(b, i) == e
  {
    hide LittleEndian;
    var at := 12 + 12 * i;
    DWordBack(b, at, e.block);
    WordBack(b, at + 4, e.len);
    WordBack(b, at + 6, e.physical / TWO_32);
    DWordBack(b, at + 8, e.physical % TWO_32);
  }

  /** Fields of entry `i` of an index node: low and high part of the child's block. */
  lemma ChildBack(b: seq<byte>, i: nat, child: nat)
    requires IsNode(b) && i < MAX_EXTENTS && child < TWO_32 * 0x1_0000
    requires b[16 + 12 * i..20 + 12 * i] == LittleEndian(child % TWO_32, 4)
    requires b[20 + 12 * i..22 + 12 * i] == LittleEndian(child / TWO_32, 2)
    ensures ChildAt(b, i) == child
  {
    hide LittleEndian;
    var at := 12 + 12 * i;
    DWordBack(b, at + 4, child % TWO_32);
    WordBack(b, at + 8, child / TWO_32);
  }

  /** The bytes of one entry of a leaf, and of one of an index node. */
  predicate LeafEntry(media: seq<byte>, at: nat, e: Extent) {
    && at + 12 <= |media| && e.block < TWO_32 && e.len < 0x1_0000 && e.physical < TWO_32 * 0x1_0000
    && media[at..at + 4] == LittleEndian(e.block, 4) && media[at + 4..at + 6] == LittleEndian(e.len, 2)
    && media[at + 6..at + 8] == LittleEndian(e.physical / TWO_32, 2)
    && media[at + 8..at + 12] == LittleEndian(e.physical % TWO_32, 4)
  }

  predicate IndexEntry(media: seq<byte>, at: nat, child: nat) {
    && at + 12 <= |media| && child < TWO_32 * 0x1_0000
    && media[at + 4..at + 8] == LittleEndian(child % TWO_32, 4)
    && media[at + 8..at + 10] == LittleEndian(child / TWO_32, 2)
  }

  lemma ExtentOnMedia(media: seq<byte>, at: nat, i: nat, e: Extent)
    requires at + 4096 <= |media| && i < MAX_EXTENTS && LeafEntry(media, at + 12 + 12 * i, e)
    ensures ExtentAt(media[at..at + 4096], i) == e
  {
    hide LittleEndian, ExtentAt;
    SliceOfSlice(media, at, 4096, 12 + 12 * i, 16 + 12 * i);
    SliceOfSlice(media, at, 4096, 16 + 12 * i, 18 + 12 * i);
    SliceOfSlice(media, at, 4096, 18 + 12 * i, 20 + 12 * i);
    SliceOfSlice(media, at, 4096, 20 + 12 * i, 24 + 12 * i);
    ExtentBack(media[at..at + 4096], i, e);
  }

  lemma ChildOnMedia(media: seq<byte>, at: nat, i: nat, child: nat)
    requires at + 4096 <= |media| && i < MAX_EXTENTS && IndexEntry(media, at + 12 + 12 * i, child)
    ensures ChildAt(media[at..at + 4096], i) == child
  {
    hide LittleEndian, ChildAt;
    SliceOfSlice(media, at, 4096, 16 + 12 * i, 20 + 12 * i);
    SliceOfSlice(media, at, 4096, 20 + 12 * i, 22 + 12 * i);
    ChildBack(media[at..at + 4096], i, child);
  }

  /** Written extents can be copied when they lie on the medium and do not begin
      with the text "bad sector"; unwritten ones always. */
  lemma CopyableBytes(media: seq<byte>, e: Extent)
    ensures Payload(media, e).Some? <==> e.len > 0x8000 || (e.len > 0 && (e.physical + e.len) * 4096 <= |media|)
    ensures Copyable(media, e) <==>
      e.len > 0x8000 || (e.len > 0 && (e.physical + e.len) * 4096 <= |media| &&
        media[e.physical * 4096..e.physical * 4096 + 10] != [0x62, 0x61, 0x64, 0x20, 0x73, 0x65, 0x63, 0x74, 0x6F, 0x72])
  {
    if e.len > 0x8000 {
      assert Payload(media, e).value[0] == 0 != BAD_SECTOR_MARKER[0];
    } else if Payload(media, e).Some? {
      var data := Payload(media, e).value;
      SliceOfSlice(media, e.physical * 4096, e.len * 4096, 0, 10);
      assert data[..10] == data[0..10];
    }
  }

  // ---------- which extents a tree has, and in which order

  /** The extents of several walks, one after the other. */
  ghost function ExtentsOf(parts: seq<Walk>): (r: seq<Extent>) {
    Concat(seq(|parts|, j requires 0 <= j < |parts| => parts[j].extents))
  }

  lemma ExtentsOfCons(first: Walk, parts: seq<Walk>)
    ensures ExtentsOf([first] + parts) == first.extents + ExtentsOf(parts)
    ensures ExtentsOf([]) == []
  {
    var rest := seq(|parts|, j requires 0 <= j < |parts| => parts[j].extents);
    var all := seq(|[first] + parts|, j requires 0 <= j < |[first] + parts| => ([first] + parts)[j].extents);
    assert all[0] == first.extents && all[1..] == rest;
  }

  lemma {:induction false} PartOf(parts: seq<Walk>, j: nat, e: Extent)
    requires j < |parts| && e in parts[j].extents
    ensures e in ExtentsOf(parts)
  {
    ExtentsOfCons(parts[0], parts[1..]);
    assert parts == [parts[0]] + parts[1..];
    if j > 0 {
      PartOf(parts[1..], j - 1, e);
    }
  }

  lemma {:induction false} SomePart(parts: seq<Walk>, e: Extent) returns (j: nat)
    requires e in ExtentsOf(parts)
    ensures j < |parts| && e in parts[j].extents
  {
    if parts == [] {
      ExtentsOfCons(Walk([], true), []);
      assert false;
    } else {
      ExtentsOfCons(parts[0], parts[1..]);
      assert parts == [parts[0]] + parts[1..];
      j := 0;
      if e !in parts[0].extents {
        j := SomePart(parts[1..], e);
        j := j + 1;
      }
    }
  }

  /** The walks of the children come one after the other, up to the first that
      fails, which keeps what it has done; all of them if none does. */
  ghost predicate InOrder(media: seq<byte>, volumeOffset: nat, b: seq<byte>, i: nat, h: nat, w: Walk, parts: seq<Walk>)
    requires IsNode(b) && i <= Entries(b) <= MAX_EXTENTS
    requires forall j :: i <= j < Entries(b) ==> Finite(media, volumeOffset, ChildAt(b, j), h)
  {
    && |parts| <= Entries(b) - i
    && (forall j :: 0 <= j < |parts| ==> parts[j] == TreeWalk(media, volumeOffset, ChildAt(b, i + j), h))
    && (forall j :: 0 <= j < |parts| - 1 ==> parts[j].ok)
    && w.extents == ExtentsOf(parts)
    && (if w.ok then |parts| == Entries(b) - i && (parts != [] ==> parts[|parts| - 1].ok)
        else parts != [] && !parts[|parts| - 1].ok)
  }

  lemma {:induction false} ChildrenInOrder(media: seq<byte>, volumeOffset: nat, b: seq<byte>, i: nat, h: nat) returns (parts: seq<Walk>)
    requires IsNode(b) && i <= Entries(b) <= MAX_EXTENTS
    requires forall j :: i <= j < Entries(b) ==> Finite(media, volumeOffset, ChildAt(b, j), h)
    ensures InOrder(media, volumeOffset, b, i, h, ChildrenWalk(media, volumeOffset, b, i, h), parts)
    decreases Entries(b) - i
  {
    hide TreeWalk, Finite, ExtentsOf, ChildAt;
    ExtentsOfCons(Walk([], true), []);
    parts := [];
    if i < Entries(b) {
      var first := TreeWalk(media, volumeOffset, ChildAt(b, i), h);
      if first.ok {
        var rest := ChildrenInOrder(media, volumeOffset, b, i + 1, h);
        ExtentsOfCons(first, rest);
        parts := [first] + rest;
        assert forall j :: 0 < j < |parts| ==> parts[j] == rest[j - 1];
      } else {
        ExtentsOfCons(first, []);
        assert [first] + [] == [first];
        parts := [first];
      }
    }
  }

  /** The walk of an index node read from its bytes. */
  lemma IndexBack(media: seq<byte>, volumeOffset: nat, n: nat, children: seq<nat>, depth: nat, h: nat) returns (parts: seq<Walk>)
    requires var at := volumeOffset + n * 4096;
      && at + 4096 <= |media| && |children| <= 340 && 0 < depth < 0x1_0000
      && media[at..at + 8] == [0x0A, 0xF3] + LittleEndian(|children|, 2) + [0x54, 0x01] + LittleEndian(depth, 2)
      && forall i :: 0 <= i < |children| ==> IndexEntry(media, at + 12 + 12 * i, children[i])
    requires forall i :: 0 <= i < |children| ==> Finite(media, volumeOffset, children[i], h)
    ensures Finite(media, volumeOffset, n, h + 1)
    ensures |parts| <= |children| && forall i :: 0 <= i < |parts| ==> parts[i] == TreeWalk(media, volumeOffset, children[i], h)
    ensures forall i :: 0 <= i < |parts| - 1 ==> parts[i].ok
    ensures var w := TreeWalk(media, volumeOffset, n, h + 1);
      && w.extents == ExtentsOf(parts)
      && if w.ok then |parts| == |children| && forall i :: 0 <= i < |parts| ==> parts[i].ok
         else parts != [] && !parts[|parts| - 1].ok
  {
    var at := volumeOffset + n * 4096;
    var b := media[at..at + 4096];
    hide LittleEndian, IndexEntry, TreeWalk, Finite, ChildAt, IsValidExtent, Entries, Depth;
    SliceOfSlice(media, at, 4096, 0, 8);
    HeaderBack(b, |children|, depth);
    forall i | 0 <= i < |children|
      ensures ChildAt(b, i) == children[i]
    {
      ChildOnMedia(media, at, i, children[i]);
    }
    hide ExtentsOf;
    IndexWalk(media, volumeOffset, n, b, h);
    parts := ChildrenInOrder(media, volumeOffset, b, 0, h);
  }

  lemma IndexWalk(media: seq<byte>, volumeOffset: nat, n: nat, b: seq<byte>, h: nat)
    requires NodeAt(media, volumeOffset, n) == Some(b) && IsValidExtent(b) && Depth(b) != 0
    requires forall i :: 0 <= i < Entries(b) ==> Finite(media, volumeOffset, ChildAt(b, i), h)
    ensures Finite(media, volumeOffset, n, h + 1)
    ensures TreeWalk(media, volumeOffset, n, h + 1) == ChildrenWalk(media, volumeOffset, b, 0, h)
  {
  }

  /** The walk of a leaf read from its bytes: its extents before the first that
      cannot be read or is marked bad. */
  lemma LeafBack(media: seq<byte>, volumeOffset: nat, n: nat, extents: seq<Extent>, h: nat) returns (k: nat)
    requires var at := volumeOffset + n * 4096;
      && at + 4096 <= |media| && |extents| <= 340
      && media[at..at + 8] == [0x0A, 0xF3] + LittleEndian(|extents|, 2) + [0x54, 0x01] + LittleEndian(0, 2)
      && forall i :: 0 <= i < |extents| ==> LeafEntry(media, at + 12 + 12 * i, extents[i])
    ensures Finite(media, volumeOffset, n, h)
    ensures k <= |extents| && forall i :: 0 <= i < k ==> Copyable(media, extents[i])
    ensures k < |extents| ==> !Copyable(media, extents[k])
    ensures TreeWalk(media, volumeOffset, n, h)
      == Walk(extents[..k], k == |extents| || Payload(media, extents[k]).Some?)
  {
    var at := volumeOffset + n * 4096;
    var b := media[at..at + 4096];
    hide LittleEndian, LeafEntry, ExtentAt, IsValidExtent, Entries, Depth;
    SliceOfSlice(media, at, 4096, 0, 8);
    HeaderBack(b, |extents|, 0);
    forall i | 0 <= i < |extents|
      ensures ExtentAt(b, i) == extents[i]
    {
      ExtentOnMedia(media, at, i, extents[i]);
    }
    hide Copyable, Payload, LeafWalk, TreeWalk;
    LeafWalkAt(media, volumeOffset, n, b, h);
    k := LeafOf(media, b, extents);
  }

  lemma LeafOf(media: seq<byte>, b: seq<byte>, extents: seq<Extent>) returns (k: nat)
    requires IsNode(b) && Entries(b) == |extents| <= MAX_EXTENTS
    requires forall i :: 0 <= i < |extents| ==> ExtentAt(b, i) == extents[i]
    ensures k <= |extents| && forall i :: 0 <= i < k ==> Copyable(media, extents[i])
    ensures k < |extents| ==> !Copyable(media, extents[k])
    ensures LeafWalk(media, b, 0) == Walk(extents[..k], k == |extents| || Payload(media, extents[k]).Some?)
  {
    hide ExtentAt, Copyable, Payload, LeafWalk;
    LeafStopsAtFirstBad(media, b, 0);
    k := |LeafWalk(media, b, 0).extents|;
  }

  lemma LeafWalkAt(media: seq<byte>, volumeOffset: nat, n: nat, b: seq<byte>, h: nat)
    requires NodeAt(media, volumeOffset, n) == Some(b) && IsValidExtent(b) && Depth(b) == 0
    ensures Finite(media, volumeOffset, n, h) && TreeWalk(media, volumeOffset, n, h) == LeafWalk(media, b, 0)
  {
  }

  // ---------- which trees are finite

  /** Block `m` is named by a valid index node at block `n`. */
  ghost predicate IsChild(media: seq<byte>, volumeOffset: nat, n: nat, m: nat) {
    match NodeAt(media, volumeOffset, n)
    case None => false
    case Some(b) => IsValidExtent(b) && Depth(b) != 0 && exists i :: 0 <= i < Entries(b) && ChildAt(b, i) == m
  }

  /** The recursion depth that bounds the walk does not influence it. */
  lemma {:induction false} HeightIrrelevant(media: seq<byte>, volumeOffset: nat, n: nat, h: nat, h': nat)
    requires Finite(media, volumeOffset, n, h) && h <= h'
    ensures Finite(media, volumeOffset, n, h')
    ensures TreeWalk(media, volumeOffset, n, h) == TreeWalk(media, volumeOffset, n, h')
    decreases h, MAX_EXTENTS + 1
  {
    var node := NodeAt(media, volumeOffset, n);
    if node.Some? && IsValidExtent(node.value) && Depth(node.value) != 0 {
      ChildrenHeightIrrelevant(media, volumeOffset, node.value, 0, h - 1, h' - 1);
    }
  }

  lemma {:induction false} ChildrenHeightIrrelevant(media: seq<byte>, volumeOffset: nat, b: seq<byte>, i: nat, h: nat, h': nat)
    requires IsNode(b) && i <= Entries(b) <= MAX_EXTENTS && h <= h'
    requires forall j :: i <= j < Entries(b) ==> Finite(media, volumeOffset, ChildAt(b, j), h)
    ensures forall j :: i <= j < Entries(b) ==> Finite(media, volumeOffset, ChildAt(b, j), h')
    ensures ChildrenWalk(media, volumeOffset, b, i, h) == ChildrenWalk(media, volumeOffset, b, i, h')
    decreases h + 1, Entries(b) - i
  {
    if i < Entries(b) {
      HeightIrrelevant(media, volumeOffset, ChildAt(b, i), h, h');
      ChildrenHeightIrrelevant(media, volumeOffset, b, i + 1, h, h');
    }
  }

  /** Each block of the path is named by the index node before it. */
  ghost predicate IsPath(media: seq<byte>, volumeOffset: nat, path: seq<nat>) {
    path != [] && forall k :: 0 <= k < |path| - 1 ==> IsChild(media, volumeOffset, path[k], path[k + 1])
  }

  /** The walk from block `n` comes to block `m`. */
  ghost predicate Reaches(media: seq<byte>, volumeOffset: nat, n: nat, m: nat) {
    exists path :: IsPath(media, volumeOffset, path) && path[0] == n && path[|path| - 1] == m
  }

  /** Some path from block `n` visits a block twice. */
  ghost predicate Repeats(media: seq<byte>, volumeOffset: nat, n: nat) {
    exists path, i: nat, j: nat :: IsPath(media, volumeOffset, path) && path[0] == n && i < j < |path| && path[i] == path[j]
  }

  /** Depths that shrink from parent to child, as ext4 writes them, make a tree finite. */
  lemma {:induction false} ShrinkingDepthsFinite(media: seq<byte>, volumeOffset: nat, n: nat, h: nat)
    requires forall p, c :: Reaches(media, volumeOffset, n, p) && IsChild(media, volumeOffset, p, c) ==>
      DepthBelow(media, volumeOffset, c, Depth(NodeAt(media, volumeOffset, p).value))
    requires DepthBelow(media, volumeOffset, n, h + 1)
    ensures Finite(media, volumeOffset, n, h)
    decreases h
  {
    var node := NodeAt(media, volumeOffset, n);
    if node.Some? && IsValidExtent(node.value) && Depth(node.value) != 0 {
      assert IsPath(media, volumeOffset, [n]) && Reaches(media, volumeOffset, n, n);
      forall i | 0 <= i < Entries(node.value)
        ensures Finite(media, volumeOffset, ChildAt(node.value, i), h - 1)
      {
        var child := ChildAt(node.value, i);
        assert IsChild(media, volumeOffset, n, child);
        forall p | Reaches(media, volumeOffset, child, p)
          ensures Reaches(media, volumeOffset, n, p)
        {
          var path :| IsPath(media, volumeOffset, path) && path[0] == child && path[|path| - 1] == p;
          PathFrom(media, volumeOffset, n, path);
        }
        ShrinkingDepthsFinite(media, volumeOffset, child, h - 1);
      }
    }
  }

  /** If block `n` holds a valid node, the node's depth is below `bound`. */
  ghost predicate DepthBelow(media: seq<byte>, volumeOffset: nat, n: nat, bound: nat) {
    match NodeAt(media, volumeOffset, n)
    case None => true
    case Some(b) => IsValidExtent(b) ==> Depth(b) < bound
  }

  lemma PathFrom(media: seq<byte>, volumeOffset: nat, n: nat, path: seq<nat>)
    requires IsPath(media, volumeOffset, path) && IsChild(media, volumeOffset, n, path[0])
    ensures IsPath(media, volumeOffset, [n] + path) && Reaches(media, volumeOffset, n, path[|path| - 1])
  {
    hide IsChild;
    var longer := [n] + path;
    assert longer[0] == n && longer[|longer| - 1] == path[|path| - 1];
    assert forall k :: 0 < k < |longer| ==> longer[k] == path[k - 1];
  }

  /** A chain of index nodes that comes back to its start has no finite height. */
  lemma {:induction false} CycleNotFinite(media: seq<byte>, volumeOffset: nat, path: seq<nat>, h: nat)
    requires |path| >= 2 && path[0] == path[|path| - 1] && IsPath(media, volumeOffset, path)
    ensures !Finite(media, volumeOffset, path[0], h)
    decreases h
  {
    if Finite(media, volumeOffset, path[0], h) {
      var k := |path| - 1;
      FiniteAlong(media, volumeOffset, path, k, h);
      CycleNotFinite(media, volumeOffset, path, h - k);
    }
  }

  lemma {:induction false} FiniteAlong(media: seq<byte>, volumeOffset: nat, path: seq<nat>, k: nat, h: nat)
    requires IsPath(media, volumeOffset, path) && k < |path| && Finite(media, volumeOffset, path[0], h)
    ensures k <= h && Finite(media, volumeOffset, path[k], h - k)
  {
    if k > 0 {
      FiniteAlong(media, volumeOffset, path, k - 1, h);
      assert IsChild(media, volumeOffset, path[k - 1], path[k]);
    }
  }

  /** A tree higher than `h` starts with an index node on the media, and one of its children is higher than `h - 1`. */
  lemma HigherChild(media: seq<byte>, volumeOffset: nat, n: nat, h: nat) returns (child: nat)
    requires !Finite(media, volumeOffset, n, h)
    ensures n < |media|
    ensures h > 0 ==> IsChild(media, volumeOffset, n, child) && !Finite(media, volumeOffset, child, h - 1)
  {
    var b := NodeAt(media, volumeOffset, n).value;
    child := 0;
    if h > 0 {
      var i :| 0 <= i < Entries(b) && !Finite(media, volumeOffset, ChildAt(b, i), h - 1);
      child := ChildAt(b, i);
    }
  }

  /** It has a path of more than `h` index nodes, all on the media. */
  lemma {:induction false} LongPath(media: seq<byte>, volumeOffset: nat, n: nat, h: nat) returns (path: seq<nat>)
    requires !Finite(media, volumeOffset, n, h)
    ensures |path| == h + 1 && path[0] == n && IsPath(media, volumeOffset, path)
    ensures forall k :: 0 <= k <= h ==> path[k] < |media|
    decreases h
  {
    hide Finite, IsChild;
    var child := HigherChild(media, volumeOffset, n, h);
    path := [n];
    if h > 0 {
      var rest := LongPath(media, volumeOffset, child, h - 1);
      PathFrom(media, volumeOffset, n, rest);
      path := [n] + rest;
    }
  }

  lemma RepeatNotFinite(media: seq<byte>, volumeOffset: nat, n: nat, h: nat)
    requires Repeats(media, volumeOffset, n)
    ensures !Finite(media, volumeOffset, n, h)
  {
    hide Finite, IsChild;
    var path, i: nat, j: nat :| IsPath(media, volumeOffset, path) && path[0] == n && i < j < |path| && path[i] == path[j];
    if Finite(media, volumeOffset, n, h) {
      FiniteAlong(media, volumeOffset, path, i, h);
      var cycle := path[i..j + 1];
      assert forall k :: 0 <= k < |cycle| ==> cycle[k] == path[i + k];
      CycleNotFinite(media, volumeOffset, cycle, h - i);
    }
  }

  /** The recursion from block `n` ends exactly when no path from it visits a
      block twice, and is then never deeper than the media is long. */
  lemma FiniteIffNoRepeat(media: seq<byte>, volumeOffset: nat, n: nat)
    ensures (exists h: nat :: Finite(media, volumeOffset, n, h)) <==> !Repeats(media, volumeOffset, n)
    ensures !Repeats(media, volumeOffset, n) ==> Finite(media, volumeOffset, n, |media|)
  {
    hide Finite, IsPath;
    var bound: nat := |media|;
    if !Finite(media, volumeOffset, n, bound) {
      var path := LongPath(media, volumeOffset, n, bound);
      var i, j := Pigeonhole(path, bound);
      assert Repeats(media, volumeOffset, n);
    }
    if Repeats(media, volumeOffset, n) {
      forall h: nat
        ensures !Finite(media, volumeOffset, n, h)
      {
        RepeatNotFinite(media, volumeOffset, n, h);
      }
    }
  }

  // ---------- the extents of a whole tree

  /** Block `m` holds a leaf, and the walk of that leaf copies `e`. */
  ghost predicate LeafCopies(media: seq<byte>, volumeOffset: nat, m: nat, e: Extent) {
    match NodeAt(media, volumeOffset, m)
    case None => false
    case Some(b) => IsValidExtent(b) && Depth(b) == 0 && e in LeafWalk(media, b, 0).extents
  }

  /** Block `m` can be read, and if it holds a leaf, so can that leaf's data, up to a bad mark. */
  ghost predicate Sound(media: seq<byte>, volumeOffset: nat, m: nat) {
    match NodeAt(media, volumeOffset, m)
    case None => false
    case Some(b) => IsValidExtent(b) && Depth(b) == 0 ==> LeafWalk(media, b, 0).ok
  }

  lemma ReachesItself(media: seq<byte>, volumeOffset: nat, n: nat)
    ensures Reaches(media, volumeOffset, n, n)
  {
    assert IsPath(media, volumeOffset, [n]);
  }

  /** A block reached is the start itself, or reached from one of its children. */
  lemma ReachedFrom(media: seq<byte>, volumeOffset: nat, n: nat, m: nat)
    ensures Reaches(media, volumeOffset, n, m) <==>
      m == n || exists c :: IsChild(media, volumeOffset, n, c) && Reaches(media, volumeOffset, c, m)
  {
    hide IsChild;
    ReachesItself(media, volumeOffset, n);
    if path :| IsPath(media, volumeOffset, path) && path[0] == n && path[|path| - 1] == m {
      if |path| > 1 {
        assert IsPath(media, volumeOffset, path[1..]);
        assert IsChild(media, volumeOffset, n, path[1]) && Reaches(media, volumeOffset, path[1], m);
      }
    }
    if c :| IsChild(media, volumeOffset, n, c) && Reaches(media, volumeOffset, c, m) {
      var path :| IsPath(media, volumeOffset, path) && path[0] == c && path[|path| - 1] == m;
      PathFrom(media, volumeOffset, n, path);
    }
  }

  ghost predicate FromLeaves(media: seq<byte>, volumeOffset: nat, n: nat, w: Walk) {
    && (w.ok <==> forall m :: Reaches(media, volumeOffset, n, m) ==> Sound(media, volumeOffset, m))
    && (forall e :: e in w.extents ==> exists m :: Reaches(media, volumeOffset, n, m) && LeafCopies(media, volumeOffset, m, e))
    && (w.ok ==> forall m, e :: Reaches(media, volumeOffset, n, m) && LeafCopies(media, volumeOffset, m, e) ==> e in w.extents)
  }

  lemma ReachedByChild(media: seq<byte>, volumeOffset: nat, n: nat, b: seq<byte>, m: nat) returns (i: nat)
    requires NodeAt(media, volumeOffset, n) == Some(b) && IsValidExtent(b) && Depth(b) != 0
    requires Reaches(media, volumeOffset, n, m) && m != n
    ensures i < Entries(b) && Reaches(media, volumeOffset, ChildAt(b, i), m)
  {
    ReachedFrom(media, volumeOffset, n, m);
    hide Reaches, NodeAt, ChildAt;
    var c :| IsChild(media, volumeOffset, n, c) && Reaches(media, volumeOffset, c, m);
    i :| 0 <= i < Entries(b) && ChildAt(b, i) == c;
  }

  lemma ReachedBelow(media: seq<byte>, volumeOffset: nat, n: nat, b: seq<byte>, i: nat, m: nat)
    requires NodeAt(media, volumeOffset, n) == Some(b) && IsValidExtent(b) && Depth(b) != 0
    requires i < Entries(b) && Reaches(media, volumeOffset, ChildAt(b, i), m)
    ensures Reaches(media, volumeOffset, n, m)
  {
    ReachedFrom(media, volumeOffset, n, m);
    hide Reaches, NodeAt;
    assert IsChild(media, volumeOffset, n, ChildAt(b, i));
  }

  lemma IndexNotLeaf(media: seq<byte>, volumeOffset: nat, n: nat, b: seq<byte>)
    requires NodeAt(media, volumeOffset, n) == Some(b) && IsValidExtent(b) && Depth(b) != 0
    ensures Sound(media, volumeOffset, n) && forall e :: !LeafCopies(media, volumeOffset, n, e)
  {
  }

  lemma IndexFromLeaves(media: seq<byte>, volumeOffset: nat, n: nat, b: seq<byte>, h: nat, w: Walk, parts: seq<Walk>)
    requires NodeAt(media, volumeOffset, n) == Some(b) && IsValidExtent(b) && Depth(b) != 0
    requires forall i :: 0 <= i < Entries(b) ==> Finite(media, volumeOffset, ChildAt(b, i), h)
    requires forall i :: 0 <= i < Entries(b) ==> FromLeaves(media, volumeOffset, ChildAt(b, i), TreeWalk(media, volumeOffset, ChildAt(b, i), h))
    requires InOrder(media, volumeOffset, b, 0, h, w, parts)
    ensures FromLeaves(media, volumeOffset, n, w)
  {
    IndexNotLeaf(media, volumeOffset, n, b);
    hide NodeAt, ChildAt, Finite, TreeWalk, Reaches, LeafCopies, Sound, ExtentsOf, Entries, Depth, IsValidExtent;
    forall m | Reaches(media, volumeOffset, n, m) && w.ok
      ensures Sound(media, volumeOffset, m)
      ensures forall e :: LeafCopies(media, volumeOffset, m, e) ==> e in w.extents
    {
      if m != n {
        var i := ReachedByChild(media, volumeOffset, n, b, m);
        assert parts[i].ok && parts[i] == TreeWalk(media, volumeOffset, ChildAt(b, 0 + i), h);
        forall e | LeafCopies(media, volumeOffset, m, e)
          ensures e in w.extents
        {
          PartOf(parts, i, e);
        }
      }
    }
    if !w.ok {
      var i := |parts| - 1;
      assert parts[i] == TreeWalk(media, volumeOffset, ChildAt(b, 0 + i), h);
      var m :| Reaches(media, volumeOffset, ChildAt(b, i), m) && !Sound(media, volumeOffset, m);
      ReachedBelow(media, volumeOffset, n, b, i, m);
    }
    forall e | e in w.extents
      ensures exists m :: Reaches(media, volumeOffset, n, m) && LeafCopies(media, volumeOffset, m, e)
    {
      var i := SomePart(parts, e);
      assert parts[i] == TreeWalk(media, volumeOffset, ChildAt(b, 0 + i), h);
      var m :| Reaches(media, volumeOffset, ChildAt(b, i), m) && LeafCopies(media, volumeOffset, m, e);
      ReachedBelow(media, volumeOffset, n, b, i, m);
    }
  }

  lemma NoChildrenWalk(media: seq<byte>, volumeOffset: nat, n: nat, h: nat)
    requires Finite(media, volumeOffset, n, h)
    requires var node := NodeAt(media, volumeOffset, n);
      node.None? || !IsValidExtent(node.value) || Depth(node.value) == 0
    ensures TreeWalk(media, volumeOffset, n, h).ok <==> Sound(media, volumeOffset, n)
    ensures forall e :: e in TreeWalk(media, volumeOffset, n, h).extents <==> LeafCopies(media, volumeOffset, n, e)
  {
    hide LeafWalk;
  }

  /** What is no index node reaches itself alone. */
  lemma NoChildren(media: seq<byte>, volumeOffset: nat, n: nat, h: nat)
    requires Finite(media, volumeOffset, n, h)
    requires var node := NodeAt(media, volumeOffset, n);
      node.None? || !IsValidExtent(node.value) || Depth(node.value) == 0
    ensures FromLeaves(media, volumeOffset, n, TreeWalk(media, volumeOffset, n, h))
  {
    hide Reaches, LeafWalk, LeafCopies, Sound;
    assert forall c :: !IsChild(media, volumeOffset, n, c);
    NoChildrenWalk(media, volumeOffset, n, h);
    hide Finite, TreeWalk, IsChild, NodeAt, IsValidExtent, Depth;
    forall m
      ensures Reaches(media, volumeOffset, n, m) <==> m == n
    {
      ReachedFrom(media, volumeOffset, n, m);
    }
  }

  /** A walk yields only extents of leaves it reaches, and all of them if it ends
      normally, which it does exactly when everything it reaches is sound. */
  lemma {:induction false} ExtentsOfTree(media: seq<byte>, volumeOffset: nat, n: nat, h: nat)
    requires Finite(media, volumeOffset, n, h)
    ensures var w := TreeWalk(media, volumeOffset, n, h);
      && (w.ok <==> forall m :: Reaches(media, volumeOffset, n, m) ==> Sound(media, volumeOffset, m))
      && (forall e :: e in w.extents ==> exists m :: Reaches(media, volumeOffset, n, m) && LeafCopies(media, volumeOffset, m, e))
      && (w.ok ==> forall m, e :: Reaches(media, volumeOffset, n, m) && LeafCopies(media, volumeOffset, m, e) ==> e in w.extents)
    decreases h
  {
    var node := NodeAt(media, volumeOffset, n);
    if node.Some? && IsValidExtent(node.value) && Depth(node.value) != 0 {
      var b := node.value;
      forall i | 0 <= i < Entries(b)
        ensures Finite(media, volumeOffset, ChildAt(b, i), h - 1)
        ensures FromLeaves(media, volumeOffset, ChildAt(b, i), TreeWalk(media, volumeOffset, ChildAt(b, i), h - 1))
      {
        ExtentsOfTree(media, volumeOffset, ChildAt(b, i), h - 1);
      }
      IndexWalk(media, volumeOffset, n, b, h - 1);
      hide IsValidExtent, Depth, Entries, TreeWalk, Finite, FromLeaves;
      var parts := ChildrenInOrder(media, volumeOffset, b, 0, h - 1);
      IndexFromLeaves(media, volumeOffset, n, b, h - 1, ChildrenWalk(media, volumeOffset, b, 0, h - 1), parts);
    } else {
      NoChildren(media, volumeOffset, n, h);
    }
  }

  /** What a walk that ended normally left in the target: an extent of a leaf it
      reached, up to that leaf's first bad one, is at its logical place, unless
      another extent overlaps it. */
  lemma SavedByte(media: seq<byte>, volumeOffset: nat, n: nat, h: nat, target0: seq<byte>, target: seq<byte>, m: nat, e: Extent, d: nat)
    requires Finite(media, volumeOffset, n, h) && Saved(media, target0, TreeWalk(media, volumeOffset, n, h), true, target)
    requires Reaches(media, volumeOffset, n, m) && LeafCopies(media, volumeOffset, m, e)
    requires forall l, f :: Reaches(media, volumeOffset, n, l) && LeafCopies(media, volumeOffset, l, f) && f != e ==> Apart(e, f)
    requires d < (if e.len <= 0x8000 then e.len else e.len - 0x8000) * 4096
    ensures e.len <= 0x8000 ==> e.physical * 4096 + d < |media|
    ensures e.block * 4096 + d < |target|
    ensures target[e.block * 4096 + d] == if e.len <= 0x8000 then media[e.physical * 4096 + d] else 0
  {
    ExtentsOfTree(media, volumeOffset, n, h);
    hide Finite, TreeWalk, Reaches, LeafCopies, Sound, Image;
    OneCovers(media, target0, TreeWalk(media, volumeOffset, n, h).extents, e, d);
  }

  /** What no extent of a leaf reached covers is as it was. */
  lemma UnsavedByte(media: seq<byte>, volumeOffset: nat, n: nat, h: nat, target0: seq<byte>, target: seq<byte>, p: nat)
    requires Finite(media, volumeOffset, n, h) && Saved(media, target0, TreeWalk(media, volumeOffset, n, h), true, target)
    requires p < |target| && forall m, e :: Reaches(media, volumeOffset, n, m) && LeafCopies(media, volumeOffset, m, e) ==>
      !(e.block * 4096 <= p < (e.block + e.Blocks()) * 4096)
    ensures target[p] == if p < |target0| then target0[p] else 0
  {
    ExtentsOfTree(media, volumeOffset, n, h);
    hide Finite, TreeWalk, Reaches, LeafCopies, Sound, Image;
    var es := TreeWalk(media, volumeOffset, n, h).extents;
    assert forall k :: 0 <= k < |es| ==> es[k] in es;
    ImageByte(media, target0, es, p);
  }

  lemma OneCovers(media: seq<byte>, target0: seq<byte>, es: seq<Extent>, e: Extent, d: nat)
    requires Readable(media, es) && e in es && d < e.Blocks() * 4096
    requires forall f :: f in es && f != e ==> Apart(e, f)
    ensures Payload(media, e).Some? && e.block * 4096 + d < |Image(media, target0, es)|
    ensures e.len <= 0x8000 ==> e.physical * 4096 + d < |media|
    ensures Image(media, target0, es)[e.block * 4096 + d] == if e.len <= 0x8000 then media[e.physical * 4096 + d] else 0
  {
    hide Image;
    var i :| 0 <= i < |es| && es[i] == e;
    var p := e.block * 4096 + d;
    assert es[i].Covers(p);
    var k := SomeDecides(es, p);
    assert es[k] in es;
    assert es[k] == e;
    ImageLength(media, target0, es);
    EndBounds(es, |target0|);
    hide Extent.Blocks;
    ImageByte(media, target0, es, p);
  }

  /** One block: a valid index node of depth 1 whose only entry names block 0, itself. */
  function SelfReference(): (r: seq<byte>)
    ensures |r| == BLOCK_SIZE
  {
    [0x0A, 0xF3, 1, 0, 0x54, 1, 1, 0] + Zeros(4088)
  }

  /** On this medium the recursion from block 0 does not end. */
  lemma SelfReferenceNotFinite(h: nat)
    ensures !Finite(SelfReference(), 0, 0, h)
  {
    var media := SelfReference();
    assert media[0..0 + BLOCK_SIZE] == media;
    assert IsValidExtent(media) && Depth(media) == 1 && Entries(media) == 1 && ChildAt(media, 0) == 0;
    CycleNotFinite(media, 0, [0, 0], h);
  }

  // ---------- the program

  class Ext4Raw {
    const device: File
    const volumeOffset: nat

    constructor (device: File, volumeOffset: nat)
      ensures this.device == device && this.volumeOffset == volumeOffset
    {
      this.device, this.volumeOffset := device, volumeOffset;
    }

    /** `ok` is false when a read or a write throws. */
    method SaveToFile(blockNum: nat, target: File, ghost h: nat) returns (ok: bool)
      requires device != target && device.Ready() && target.Ready()
      requires Finite(device.media, volumeOffset, blockNum, h)
      modifies device`position, target`position, target`media, target`size
      ensures Saved(device.media, old(target.media), TreeWalk(device.media, volumeOffset, blockNum, h), ok, target.media)
      decreases h, 1
    {
      device.SetPosition(volumeOffset + blockNum * BLOCK_SIZE);
      var buffer := device.ReadData(BLOCK_SIZE);
      if buffer.None? {
        return false;
      }
      var b := buffer.value;
      if !IsValidExtent(b) {
        return true;
      }
      if Depth(b) == 0 {
        ok := SaveLeaf(b, target);
      } else {
        ok := SaveChildren(b, target, h - 1);
      }
    }

    /** Copies one extent; None when a read throws, Some(false) when its data are marked bad. */
    method SaveExtent(e: Extent, target: File) returns (r: Option<bool>)
      requires device != target && device.Ready() && target.Ready()
      modifies device`position, target`position, target`media, target`size
      ensures r == match Payload(device.media, e)
                   case None => None
                   case Some(data) => Some(!BadMarked(data))
      ensures target.media == if r == Some(true) then Image(device.media, old(target.media), [e]) else old(target.media)
    {
      var size := e.Blocks() * BLOCK_SIZE;
      var data;
      if e.len <= 0x8000 {
        device.SetPosition(e.physical * BLOCK_SIZE);
        var read := device.ReadData(size);
        if read.None? {
          return None;
        }
        data := read.value;
      } else {
        data := Zeros(size);
      }
      if BadMarked(data) {
        return Some(false);
      }
      target.SetPosition(e.block * BLOCK_SIZE);
      var _ := target.WriteData(data);
      return Some(true);
    }

    method SaveLeaf(b: seq<byte>, target: File) returns (ok: bool)
      requires device != target && device.Ready() && target.Ready()
      requires IsNode(b) && Entries(b) <= MAX_EXTENTS
      modifies device`position, target`position, target`media, target`size
      ensures Saved(device.media, old(target.media), LeafWalk(device.media, b, 0), ok, target.media)
    {
      hide Image, Pending, Saved, ExtentAt;
      ghost var media, target0, walk, done := device.media, target.media, LeafWalk(device.media, b, 0), [];
      PendingStart(media, target0, walk);
      for i := 0 to Entries(b)
        invariant device.media == media
        invariant Pending(media, target0, walk, done, LeafWalk(media, b, i), target.media)
      {
        ghost var before := target.media;
        var copied := SaveExtent(ExtentAt(b, i), target);
        if copied != Some(true) {
          PendingEnd(media, target0, walk, done, copied.Some?, before);
          return copied.Some?;
        }
        PendingStep(media, target0, walk, done, LeafWalk(media, b, i), before, [ExtentAt(b, i)], LeafWalk(media, b, i + 1));
        done := done + [ExtentAt(b, i)];
      }
      PendingEnd(media, target0, walk, done, true, target.media);
      return true;
    }

    method SaveChildren(b: seq<byte>, target: File, ghost h: nat) returns (ok: bool)
      requires device != target && device.Ready() && target.Ready()
      requires IsNode(b) && Entries(b) <= MAX_EXTENTS
      requires forall j :: 0 <= j < Entries(b) ==> Finite(device.media, volumeOffset, ChildAt(b, j), h)
      modifies device`position, target`position, target`media, target`size
      ensures Saved(device.media, old(target.media), ChildrenWalk(device.media, volumeOffset, b, 0, h), ok, target.media)
      decreases h + 1, 0
    {
      hide Image, Pending, ChildAt, TreeWalk, Finite;
      ghost var media, target0, walk, done := device.media, target.media, ChildrenWalk(device.media, volumeOffset, b, 0, h), [];
      PendingStart(media, target0, walk);
      for i := 0 to Entries(b)
        invariant device.media == media
        invariant Pending(media, target0, walk, done, ChildrenWalk(media, volumeOffset, b, i, h), target.media)
      {
        ghost var before, child := target.media, TreeWalk(media, volumeOffset, ChildAt(b, i), h);
        ok := SaveToFile(ChildAt(b, i), target, h);
        ghost var rest := if ok then ChildrenWalk(media, volumeOffset, b, i + 1, h) else Walk([], false);
        assert child.extents + [] == child.extents;
        PendingStep(media, target0, walk, done, ChildrenWalk(media, volumeOffset, b, i, h), before, child.extents, rest);
        done := done + child.extents;
        if !ok {
          PendingEnd(media, target0, walk, done, false, target.media);
          return;
        }
      }
      PendingEnd(media, target0, walk, done, true, target.media);
      return true;
    }
  }
}
