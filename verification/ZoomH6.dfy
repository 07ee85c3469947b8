/** Recovery of a ZOOM H6 recording: blocks of up to four WAV files follow each
    other in turn, and each file takes blocks until it has its size. */
module ZoomH6 {
  import opened Arithmetic
  import opened Bytes
  import opened IoFile
  import opened ZoomShares

  const BLOCK_SIZE: nat := 32768
  const MAX_ZOOM_FILES: nat := 4
  const RIFF_HEADER_SIZE: nat := 8
  const RIFF_NAME: seq<byte> := [0x52, 0x49, 0x46, 0x46]

  /** Sizes that the 32-bit test in `WriteBlock` handles. */
  predicate SizeOk(size: nat) {
    0 < size < TWO_32 - 32768
  }

  /** Sizes for which the test never cuts a block, because the sum wraps around. */
  predicate Uncut(size: nat) {
    TWO_32 - 32768 <= size < TWO_32
  }

  function BlocksFor(size: nat): (r: nat) {
    (size + 32767) / 32768
  }

  // ---------- one file

  class RiffFile {
    const file: File
    const size: nat
    var currentSize: nat
    var ready: bool

    constructor (file: File, fileSize: nat)
      ensures this.file == file && size == U32(fileSize + RIFF_HEADER_SIZE)
      ensures currentSize == 0 && !ready
    {
      this.file, size := file, U32(fileSize + RIFF_HEADER_SIZE);
      currentSize, ready := 0, false;
    }

    /** What holds of the file after it was given these blocks. */
    ghost predicate Taken(blocks: seq<seq<byte>>)
      reads this, file
    {
      file.Ready() && file.position == |file.media| && State(size, blocks, file.media, currentSize, ready)
    }

    /** A file that the test handles takes no block once it is full: the write of
        no bytes throws (None). */
    method WriteBlock(data: seq<byte>, ghost blocks: seq<seq<byte>>) returns (r: Option<nat>)
      requires Taken(blocks) && |data| == BLOCK_SIZE
      modifies this, file`position, file`media, file`size
      ensures Taken(if r.Some? then blocks + [data] else blocks)
      ensures r.None? <==> size == 0 || (SizeOk(size) && |blocks| == BlocksFor(size))
      ensures r.None? <==> old(currentSize) == size && U32(size + 32768) > size
      ensures r.Some? ==> currentSize == NextSize(size, old(currentSize)) && (currentSize == size ==> ready)
    {
      StateNext(size, blocks, file.media, currentSize, ready, data);
      hide State, BlocksFor, NextSize, SizeOk;
      var bytesToWrite := |data|;
      if U32(currentSize + |data|) > size {
        bytesToWrite := size - currentSize;
      }
      assert bytesToWrite == Written(size, currentSize);
      hide U32, Written;
      var ok := Append(data[..bytesToWrite]);
      if !ok {
        return None;
      }
      currentSize := U32(currentSize + bytesToWrite);
      if currentSize == size {
        ready := true;
      }
      return Some(bytesToWrite);
    }

    method Append(bytes: seq<byte>) returns (ok: bool)
      requires file.Ready() && file.position == |file.media|
      modifies file`position, file`media, file`size
      ensures ok <==> bytes != []
      ensures file.media == old(file.media) + bytes
      ensures file.position == |file.media|
    {
      hide Overwrite;
      OverwriteEnd(file.media, bytes);
      ok := file.WriteData(bytes);
    }
  }

  /** Contents, running size and mark after `blocks`. A file that the test handles
      holds a prefix of them, as long as its size allows, and is ready exactly
      when it has its size. A larger one holds them all, whole; it is ready from
      the block on that makes its running size 2^32 less one block, if that is
      its size, and never if it is larger. */
  ghost predicate State(size: nat, blocks: seq<seq<byte>>, media: seq<byte>, current: nat, ready: bool) {
    && current <= size < TWO_32
    && (forall i :: 0 <= i < |blocks| ==> |blocks[i]| == BLOCK_SIZE)
    && (SizeOk(size) ==>
        && |blocks| <= BlocksFor(size)
        && current == (if |blocks| < BlocksFor(size) then |blocks| * 32768 else size)
        && current == |media| && media <= Concat(blocks)
        && ready == (current == size))
    && (Uncut(size) ==>
        && current == U32(|blocks| * 32768)
        && media == Concat(blocks)
        && ready == (size == TWO_32 - 32768 && |blocks| >= BlocksFor(size)))
  }

  /** Bytes of the next block that `WriteBlock` writes. */
  function Written(size: nat, current: nat): (r: nat)
    requires current <= size
  {
    if U32(current + 32768) > size then size - current else 32768
  }

  /** One more block. */
  lemma StateNext(size: nat, blocks: seq<seq<byte>>, media: seq<byte>, current: nat, ready: bool, data: seq<byte>)
    requires State(size, blocks, media, current, ready) && |data| == BLOCK_SIZE
    ensures var n := Written(size, current);
      && n <= 32768 && U32(current + n) == NextSize(size, current)
      && (n == 0 <==> current == size && U32(size + 32768) > size)
      && (n == 0 <==> size == 0 || (SizeOk(size) && |blocks| == BlocksFor(size)))
      && (n > 0 ==> State(size, blocks + [data], media + data[..n], U32(current + n), ready || U32(current + n) == size))
  {
    NextStep(size, current);
    if SizeOk(size) {
      CutNext(size, blocks, media, current, ready, data);
    } else if Uncut(size) {
      UncutNext(size, blocks, media, current, ready, data);
    }
    hide NextSize, Written, Concat, BlocksFor, U32;
  }

  lemma CutNext(size: nat, blocks: seq<seq<byte>>, media: seq<byte>, current: nat, ready: bool, data: seq<byte>)
    requires SizeOk(size) && State(size, blocks, media, current, ready) && |data| == BLOCK_SIZE
    ensures var n := Written(size, current);
      && (n == 0 <==> |blocks| == BlocksFor(size))
      && (n > 0 ==> State(size, blocks + [data], media + data[..n], U32(current + n), ready || U32(current + n) == size))
  {
    BlockFits(size, current, |blocks|);
    ConcatLength(blocks);
    ConcatSnoc(blocks, data);
    hide Concat;
    PrefixGrows(media, Concat(blocks), data, Written(size, current));
  }

  lemma UncutNext(size: nat, blocks: seq<seq<byte>>, media: seq<byte>, current: nat, ready: bool, data: seq<byte>)
    requires Uncut(size) && State(size, blocks, media, current, ready) && |data| == BLOCK_SIZE
    ensures Written(size, current) == 32768
    ensures State(size, blocks + [data], media + data[..32768], U32(current + 32768), ready || U32(current + 32768) == size)
  {
    BlockUncut(size, |blocks|);
    ConcatSnoc(blocks, data);
    hide Concat, BlocksFor;
    assert data[..32768] == data;
  }

  /** The running size after one more block, by 32-bit arithmetic. */
  function NextSize(size: nat, current: nat): (r: nat) {
    if U32(current + 32768) > size then size else U32(current + 32768)
  }

  lemma NextStep(size: nat, current: nat)
    requires current <= size < TWO_32
    ensures var n := if U32(current + 32768) > size then size - current else 32768;
      && U32(current + n) == NextSize(size, current) <= size
      && (n == 0 <==> current == size && U32(size + 32768) > size)
    ensures TWO_32 - 32768 < size && current % 32768 == 0 ==> NextSize(size, current) % 32768 == 0 && NextSize(size, current) < size
  {
  }

  function SizeAfter(size: nat, blocks: nat): (r: nat) {
    if blocks == 0 then 0 else NextSize(size, SizeAfter(size, blocks - 1))
  }

  /** A file reaches its size exactly when the size is at most 2^32 minus one
      block; beyond that the test wraps around and the file is never ready. */
  lemma ReadyReachable(size: nat)
    requires 0 < size < TWO_32
    ensures (exists blocks :: SizeAfter(size, blocks) == size) <==> size <= TWO_32 - 32768
  {
    if size <= TWO_32 - 32768 {
      SizeGrows(size, BlocksFor(size));
    } else {
      forall blocks: nat
        ensures SizeAfter(size, blocks) != size
      {
        SizeWraps(size, blocks);
      }
    }
  }

  lemma {:induction false} SizeGrows(size: nat, blocks: nat)
    requires 0 < size <= TWO_32 - 32768 && blocks <= BlocksFor(size)
    ensures SizeAfter(size, blocks) == if blocks < BlocksFor(size) then blocks * 32768 else size
  {
    if blocks > 0 {
      SizeGrows(size, blocks - 1);
    }
  }

  lemma {:induction false} SizeWraps(size: nat, blocks: nat)
    requires TWO_32 - 32768 < size < TWO_32
    ensures SizeAfter(size, blocks) % 32768 == 0 && SizeAfter(size, blocks) < size
  {
    if blocks > 0 {
      SizeWraps(size, blocks - 1);
      NextStep(size, SizeAfter(size, blocks - 1));
      hide NextSize;
    }
  }

  lemma {:induction false} ConcatLength(blocks: seq<seq<byte>>)
    requires forall i :: 0 <= i < |blocks| ==> |blocks[i]| == BLOCK_SIZE
    ensures |Concat(blocks)| == |blocks| * 32768
  {
    if blocks != [] {
      ConcatLength(blocks[1..]);
    }
  }

  lemma PrefixGrows(media: seq<byte>, all: seq<byte>, data: seq<byte>, n: nat)
    requires media <= all && n <= |data| && (n > 0 ==> media == all)
    ensures media + data[..n] <= all + data
  {
  }

  lemma BlockFits(size: nat, current: nat, n: nat)
    requires SizeOk(size) && n <= BlocksFor(size)
    requires current == if n < BlocksFor(size) then n * 32768 else size
    ensures n == BlocksFor(size) ==> U32(current + 32768) > size
    ensures n < BlocksFor(size) ==> 0 < size - current && current <= size
    ensures n < BlocksFor(size) ==> U32(current + 32768) == current + 32768
    ensures n + 1 < BlocksFor(size) ==> current + 32768 <= size && current + 32768 == (n + 1) * 32768
    ensures n + 1 == BlocksFor(size) ==> current + 32768 >= size
  {
  }

  lemma BlockUncut(size: nat, n: nat)
    requires Uncut(size)
    ensures U32(n * 32768) <= size && U32(U32(n * 32768) + 32768) <= size
    ensures U32(U32(n * 32768) + 32768) == U32((n + 1) * 32768)
    ensures U32(n * 32768) == size <==> size == TWO_32 - 32768 && n % 131072 == 131071
    ensures U32((n + 1) * 32768) == size <==> size == TWO_32 - 32768 && (n + 1) % 131072 == 131071
    ensures BlocksFor(TWO_32 - 32768) == 131071
  {
  }

  /** Sizes that a file reaches. */
  predicate Reached(size: nat) {
    0 < size <= TWO_32 - 32768
  }

  /** A file is ready once it has its blocks, and one that the test handles takes no more. */
  lemma ReadyWhenFull(f: RiffFile, blocks: seq<seq<byte>>)
    requires f.Taken(blocks) && Reached(f.size)
    ensures f.ready <==> |blocks| >= BlocksFor(f.size)
    ensures SizeOk(f.size) ==> |blocks| <= BlocksFor(f.size)
    ensures BlocksFor(f.size) <= 131071 && (!SizeOk(f.size) ==> BlocksFor(f.size) == 131071)
  {
    if SizeOk(f.size) {
      BlockFits(f.size, f.currentSize, |blocks|);
    }
  }

  /** For a file of 2^32 less one block, "ready exactly when it has its size" is
      lost with the next block, and comes back every 131072 blocks. */
  lemma ReadyOnly(f: RiffFile, blocks: seq<seq<byte>>)
    requires f.Taken(blocks) && f.size == TWO_32 - 32768
    ensures (f.ready <==> f.currentSize == f.size) <==> |blocks| < 131071 || |blocks| % 131072 == 131071
    ensures |blocks| == 131072 ==> f.ready && f.currentSize == 0
  {
    BlockUncut(f.size, |blocks|);
  }

  // ---------- all files

  function Needs(files: seq<RiffFile>): (r: seq<nat>) {
    seq(|files|, k requires 0 <= k < |files| => BlocksFor(files[k].size))
  }

  /** No two of the files, and not the device, share an object. */
  ghost predicate Separate(device: File, files: seq<RiffFile>) {
    && (forall i, j :: 0 <= i < j < |files| ==> files[i] != files[j] && files[i].file != files[j].file)
    && forall i :: 0 <= i < |files| ==> files[i].file != device
  }

  /** Every file has taken its share of the blocks sent so far. */
  ghost predicate Dealt(files: seq<RiffFile>, sent: seq<seq<byte>>)
    reads files, set f | f in files :: f.file
  {
    forall k :: 0 <= k < |files| ==> files[k].Taken(Share(sent, |files|, k))
  }

  /** All sizes are ones that a file reaches. */
  predicate AllReached(files: seq<RiffFile>) {
    forall k :: 0 <= k < |files| ==> Reached(files[k].size)
  }

  /** After `t` blocks every file has had the blocks it needs. */
  predicate AllMet(files: seq<RiffFile>, t: nat)
    requires files != []
  {
    forall k :: 0 <= k < |files| ==> Received(t, |files|, k) >= BlocksFor(files[k].size)
  }

  /** No file that the test handles was given more. */
  predicate Within(files: seq<RiffFile>, t: nat)
    requires files != []
  {
    forall k :: 0 <= k < |files| && SizeOk(files[k].size) ==> Received(t, |files|, k) <= BlocksFor(files[k].size)
  }

  method IsAllReady(files: seq<RiffFile>) returns (r: bool)
    ensures r <==> forall k :: 0 <= k < |files| ==> files[k].ready
  {
    var nCount := 0;
    for i := 0 to |files|
      invariant nCount <= i && (nCount == i <==> forall k :: 0 <= k < i ==> files[k].ready)
    {
      if files[i].ready {
        nCount := nCount + 1;
      }
    }
    r := nCount == |files|;
  }

  predicate IsRiff(block: seq<byte>) {
    RIFF_NAME <= block
  }

  /** A first block; a zero size in its header is replaced by a guess. */
  function Patched(block: seq<byte>, guess: nat): (r: seq<byte>)
    requires |block| == BLOCK_SIZE
    ensures |r| == BLOCK_SIZE
  {
    if DWord(block, 4) == 0 then block[..4] + LittleEndian(U32(guess), 4) + block[8..] else block
  }

  /** Only a size field of zeros is replaced, and nothing else of the block. */
  lemma PatchedBytes(block: seq<byte>, guess: nat)
    requires |block| == BLOCK_SIZE
    ensures var patched := Patched(block, guess);
      && patched[..4] == block[..4] && patched[8..] == block[8..]
      && patched[4..8] == (if block[4..8] == [0, 0, 0, 0] then LittleEndian(guess % 0x1_0000_0000, 4) else block[4..8])
      && DWord(patched, 4) == if block[4..8] == [0, 0, 0, 0] then guess % 0x1_0000_0000 else DWord(block, 4)
  {
    var patched := Patched(block, guess);
    assert block[4..8] == [block[4], block[5], block[6], block[7]];
    hide LittleEndian;
    if block[4..8] == [0, 0, 0, 0] {
      assert patched[4..8] == LittleEndian(U32(guess), 4);
      DWordBack(patched, 4, U32(guess));
    }
  }

  /** The first bytes of a block on the device decide what it starts. */
  lemma OpensBytes(media: seq<byte>, start: nat, guess: nat, k: nat)
    ensures var at := start + k * 32768;
      if at + 32768 > |media| then !Opens(media, start, guess, k) && Fails(media, start, guess, k)
      else
        var size := if media[at + 4..at + 8] == [0, 0, 0, 0] then guess else DWord(media, at + 4);
        var riff := media[at..at + 4] == [0x52, 0x49, 0x46, 0x46];
        && (Opens(media, start, guess, k) <==> riff && (size + 8) % 0x1_0000_0000 != 0)
        && (Fails(media, start, guess, k) <==> riff && (size + 8) % 0x1_0000_0000 == 0)
  {
    var at := start + k * 32768;
    if at + 32768 <= |media| {
      var block := media[at..at + 32768];
      assert ReadAt(media, at, BLOCK_SIZE) == Some(block);
      hide Patched, DWord, IsRiff, ReadAt, U32;
      BlockFields(media, at);
      HeaderBytes(block, guess);
    }
  }

  lemma HeaderBytes(block: seq<byte>, guess: nat)
    requires |block| == BLOCK_SIZE
    ensures IsRiff(Patched(block, guess)) <==> block[..4] == [0x52, 0x49, 0x46, 0x46]
    ensures U32(DWord(Patched(block, guess), 4) + RIFF_HEADER_SIZE) ==
      ((if block[4..8] == [0, 0, 0, 0] then guess else DWord(block, 4)) + 8) % 0x1_0000_0000
  {
    hide Patched, DWord, IsRiff, LittleEndian;
    PatchedBytes(block, guess);
    RiffBytes(Patched(block, guess));
  }

  lemma BlockFields(media: seq<byte>, at: nat)
    requires at + 32768 <= |media|
    ensures var block := media[at..at + 32768];
      && block[..4] == media[at..at + 4] && block[4..8] == media[at + 4..at + 8] && block[8..] == media[at + 8..at + 32768]
      && DWord(block, 4) == DWord(media, at + 4)
  {
    var block := media[at..at + 32768];
    SliceOfSlice(media, at, 32768, 0, 4);
    SliceOfSlice(media, at, 32768, 4, 8);
    SliceOfSlice(media, at, 32768, 8, 32768);
    assert block[4] == media[at + 4] && block[5] == media[at + 5] && block[6] == media[at + 6] && block[7] == media[at + 7];
  }

  lemma RiffBytes(block: seq<byte>)
    requires |block| == BLOCK_SIZE
    ensures IsRiff(block) <==> block[..4] == [0x52, 0x49, 0x46, 0x46]
  {
  }

  /** File `k` was created from block `k`, with the size its header names. */
  ghost predicate Created(media: seq<byte>, start: nat, guess: nat, f: RiffFile, k: nat, block: seq<byte>)
    reads f, f.file
  {
    var at := start + k * 32768;
    && at + BLOCK_SIZE <= |media| && block == Patched(media[at..at + BLOCK_SIZE], guess) && IsRiff(block)
    && f.size == U32(DWord(block, 4) + RIFF_HEADER_SIZE)
    && f.Taken([block])
  }

  /** Block `k` starts a file that is not empty. */
  predicate Opens(media: seq<byte>, start: nat, guess: nat, k: nat) {
    var block := ReadAt(media, start + k * 32768, BLOCK_SIZE);
    && block.Some? && IsRiff(Patched(block.value, guess))
    && U32(DWord(Patched(block.value, guess), 4) + RIFF_HEADER_SIZE) > 0
  }

  /** Block `k` cannot be read, or starts an empty file, whose first write throws. */
  predicate Fails(media: seq<byte>, start: nat, guess: nat, k: nat) {
    match ReadAt(media, start + k * 32768, BLOCK_SIZE)
    case None => true
    case Some(block) => IsRiff(Patched(block, guess)) && !Opens(media, start, guess, k)
  }

  /** A created file has the size that its header names, or the guess, plus 8. */
  lemma CreatedSize(media: seq<byte>, start: nat, guess: nat, f: RiffFile, k: nat, block: seq<byte>)
    requires Created(media, start, guess, f, k, block)
    ensures var at := start + k * 32768;
      && at + 32768 <= |media|
      && f.size == ((if media[at + 4..at + 8] == [0, 0, 0, 0] then guess else DWord(media, at + 4)) + 8) % 0x1_0000_0000
      && block[8..] == media[at + 8..at + 32768]
  {
    var at := start + k * 32768;
    hide Patched, DWord, RiffFile.Taken, LittleEndian, IsRiff;
    BlockFields(media, at);
    PatchedBytes(media[at..at + 32768], guess);
  }

  /** `createZoomFiles`, its second loop: up to four files, one for each RIFF
      block in a row; None when a read or a write throws. */
  method CreateZoomFiles(device: File, start: nat, firstGuess: nat, otherGuess: nat)
    returns (r: Option<seq<RiffFile>>, ghost sent: seq<seq<byte>>)
    requires device.Ready()
    modifies device`position
    ensures |sent| <= MAX_ZOOM_FILES && forall k :: 0 <= k < |sent| ==>
      Opens(device.media, start, Guess(firstGuess, otherGuess, k), k)
    ensures r.None? ==> |sent| < MAX_ZOOM_FILES && Fails(device.media, start, Guess(firstGuess, otherGuess, |sent|), |sent|)
    ensures r.Some? ==> |sent| == |r.value| && Separate(device, r.value)
    ensures r.Some? ==> forall k :: 0 <= k < |sent| ==>
      Created(device.media, start, Guess(firstGuess, otherGuess, k), r.value[k], k, sent[k])
    ensures r.Some? && |sent| < MAX_ZOOM_FILES ==>
      var next := ReadAt(device.media, start + |sent| * 32768, BLOCK_SIZE);
      next.Some? && !IsRiff(Patched(next.value, Guess(firstGuess, otherGuess, |sent|)))
    ensures r.Some? && r.value != [] ==> Dealt(r.value, sent)
  {
    hide Created, RiffFile.Taken, Patched, U32, DWord, Share;
    var files: seq<RiffFile> := [];
    sent := [];
    for fileNumber := 0 to MAX_ZOOM_FILES
      invariant |sent| == |files| == fileNumber && Separate(device, files)
      invariant forall k :: 0 <= k < |sent| ==> Opens(device.media, start, Guess(firstGuess, otherGuess, k), k)
      invariant forall k :: 0 <= k < |files| ==> fresh(files[k]) && fresh(files[k].file)
      invariant forall k :: 0 <= k < |sent| ==>
        Created(device.media, start, Guess(firstGuess, otherGuess, k), files[k], k, sent[k])
    {
      device.SetPosition(start + fileNumber * 32768);
      var data := device.ReadData(BLOCK_SIZE);
      if data.None? {
        return None, sent;
      }
      var block := Patched(data.value, Guess(firstGuess, otherGuess, fileNumber));
      assert block[..4] == RIFF_NAME <==> IsRiff(block);
      if block[..4] != RIFF_NAME {
        break;
      }
      var created := CreateFile(block);
      if created.None? {
        return None, sent;
      }
      CreatedHere(device.media, start, Guess(firstGuess, otherGuess, fileNumber), created.value, fileNumber, data.value);
      files, sent := files + [created.value], sent + [block];
    }
    r := Some(files);
    if files != [] {
      forall k | 0 <= k < |files|
        ensures files[k].Taken([sent[k]])
      {
        CreatedGot(device.media, start, Guess(firstGuess, otherGuess, k), files[k], k, sent[k]);
      }
      FirstShares(files, sent);
    }
  }

  function Guess(first: nat, other: nat, k: nat): (r: nat)
    ensures k == 0 ==> r == first
    ensures k > 0 ==> r == other
  {
    if k == 0 then first else other
  }

  lemma CreatedHere(media: seq<byte>, start: nat, guess: nat, f: RiffFile, k: nat, data: seq<byte>)
    requires ReadAt(media, start + k * 32768, BLOCK_SIZE) == Some(data)
    requires IsRiff(Patched(data, guess)) && f.size == U32(DWord(Patched(data, guess), 4) + RIFF_HEADER_SIZE)
    requires f.Taken([Patched(data, guess)])
    ensures Created(media, start, guess, f, k, Patched(data, guess))
  {
    hide RiffFile.Taken, Patched;
  }

  lemma CreatedGot(media: seq<byte>, start: nat, guess: nat, f: RiffFile, k: nat, block: seq<byte>)
    requires Created(media, start, guess, f, k, block)
    ensures f.Taken([block])
  {
    hide RiffFile.Taken, Patched;
  }

  /** One new file with its first block; None when the write throws. */
  method CreateFile(block: seq<byte>) returns (r: Option<RiffFile>)
    requires |block| == BLOCK_SIZE
    ensures r.Some? <==> U32(DWord(block, 4) + RIFF_HEADER_SIZE) > 0
    ensures r.Some? ==> fresh(r.value) && fresh(r.value.file) && r.value.size == U32(DWord(block, 4) + RIFF_HEADER_SIZE)
    ensures r.Some? ==> r.value.Taken([block])
  {
    var file := new File.Create(true);
    var f := new RiffFile(file, DWord(block, 4));
    assert f.Taken([]) && (SizeOk(f.size) ==> BlocksFor(f.size) > 0);
    assert [] + [block] == [block];
    var written := f.WriteBlock(block, []);
    r := if written.Some? then Some(f) else None;
  }

  lemma FirstShares(files: seq<RiffFile>, sent: seq<seq<byte>>)
    requires files != [] && |sent| == |files|
    requires forall k :: 0 <= k < |files| ==> files[k].Taken([sent[k]])
    ensures Dealt(files, sent)
  {
    hide RiffFile.Taken;
    var n := |files|;
    forall k | 0 <= k < n
      ensures Share(sent, n, k) == [sent[k]]
    {
      DivModUnique(n, 1, 0, n);
      ReceivedClosed(n, n, k);
      ShareAt(sent, n, k, 0);
    }
  }

  /** The next block goes to the file whose turn it is. */
  method AppendFile(device: File, files: seq<RiffFile>, k: nat, data: seq<byte>, ghost sent: seq<seq<byte>>) returns (r: Option<nat>)
    requires Separate(device, files) && Dealt(files, sent) && files != [] && k == |sent| % |files|
    requires |data| == BLOCK_SIZE && k < |files|
    modifies files[k], files[k].file`position, files[k].file`media, files[k].file`size
    ensures Dealt(files, if r.Some? then sent + [data] else sent)
    ensures SizeOk(files[k].size) ==> (r.Some? <==> Received(|sent|, |files|, k) < BlocksFor(files[k].size))
    ensures r.None? ==> NextStuck(files, |sent|)
  {
    if SizeOk(files[k].size) {
      ReadyWhenFull(files[k], Share(sent, |files|, k));
    }
    SizeKnown(files[k], Share(sent, |files|, k));
    hide RiffFile.Taken, Share, BlocksFor, Received;
    r := files[k].WriteBlock(data, Share(sent, |files|, k));
    forall i | 0 <= i < |files| && i != k
      ensures files[i].Taken(Share(sent, |files|, i))
    {
      assert files[i] != files[k] && files[i].file != files[k].file;
    }
    if r.Some? {
      DealtNext(files, sent, data);
    }
  }

  /** The file whose turn it is takes no block: it is empty, or below the largest
      sizes and has all its blocks. */
  ghost predicate NextStuck(files: seq<RiffFile>, t: nat)
    requires files != []
  {
    var k := t % |files|;
    k < |files| && (files[k].size == 0 || (SizeOk(files[k].size) && NextIsFull(files, t)))
  }

  lemma SizeKnown(f: RiffFile, blocks: seq<seq<byte>>)
    requires f.Taken(blocks)
    ensures f.size == 0 || SizeOk(f.size) || Uncut(f.size)
  {
  }

  lemma DealtNext(files: seq<RiffFile>, sent: seq<seq<byte>>, data: seq<byte>)
    requires files != []
    requires forall i :: 0 <= i < |files| ==>
      files[i].Taken(if i == |sent| % |files| then Share(sent, |files|, i) + [data] else Share(sent, |files|, i))
    ensures Dealt(files, sent + [data])
  {
    hide RiffFile.Taken, Share;
    forall i | 0 <= i < |files|
      ensures files[i].Taken(Share(sent + [data], |files|, i))
    {
      ShareNext(sent, |files|, i, data);
      assert Share(sent, |files|, i) + [] == Share(sent, |files|, i);
    }
  }

  lemma AllReadyWhenMet(files: seq<RiffFile>, sent: seq<seq<byte>>)
    requires files != [] && Dealt(files, sent) && AllReached(files)
    ensures (forall k :: 0 <= k < |files| ==> files[k].ready) <==> AllMet(files, |sent|)
    ensures Within(files, |sent|)
  {
    hide BlocksFor, Received, RiffFile.Taken, Share;
    forall k | 0 <= k < |files|
      ensures files[k].ready <==> Received(|sent|, |files|, k) >= BlocksFor(files[k].size)
      ensures SizeOk(files[k].size) ==> Received(|sent|, |files|, k) <= BlocksFor(files[k].size)
    {
      ReadyWhenFull(files[k], Share(sent, |files|, k));
    }
  }

  lemma NeedsBound(size: nat)
    requires Reached(size)
    ensures BlocksFor(size) <= 131071 && (!SizeOk(size) ==> BlocksFor(size) == 131071)
  {
  }

  /** Until all have had what they need, none has had more. */
  lemma NoneAhead(files: seq<RiffFile>, t: nat)
    requires files != [] && AllReached(files) && Within(files, t) && !AllMet(files, t)
    ensures forall k :: 0 <= k < |files| ==> Received(t, |files|, k) <= Needs(files)[k]
    ensures AllReceived(t, |files|) != Needs(files)
  {
    hide BlocksFor, Received;
    var n := |files|;
    var j :| 0 <= j < n && Received(t, n, j) < BlocksFor(files[j].size);
    assert AllReceived(t, n)[j] != Needs(files)[j];
    NeedsBound(files[j].size);
    ReceivedClosed(t, n, j);
    forall k | 0 <= k < n
      ensures Received(t, n, k) <= BlocksFor(files[k].size)
    {
      NeedsBound(files[k].size);
      ReceivedClosed(t, n, k);
    }
  }

  /** When all have had what they need for the first time, each has had exactly that. */
  lemma FirstMet(files: seq<RiffFile>, t: nat)
    requires files != [] && AllReached(files) && Within(files, t) && AllMet(files, t) && t >= |files|
    requires t > |files| ==> !AllMet(files, t - 1)
    ensures AllReceived(t, |files|) == Needs(files)
  {
    hide BlocksFor, Received;
    var n := |files|;
    forall k | 0 <= k < n
      ensures Received(t, n, k) == BlocksFor(files[k].size)
    {
      NeedsBound(files[k].size);
      NextTurn(t - 1, n);
      ReceivedClosed(t, n, k);
      ReceivedClosed(t - 1, n, k);
      if Received(t, n, k) > BlocksFor(files[k].size) {
        AlreadyMet(files, t, k);
      }
    }
    assert forall k :: 0 <= k < n ==> AllReceived(t, n)[k] == Needs(files)[k];
  }

  lemma AlreadyMet(files: seq<RiffFile>, t: nat, k: nat)
    requires k < |files| <= t && AllReached(files) && Received(t, |files|, k) >= 131072
    ensures t > |files| && AllMet(files, t - 1)
  {
    hide BlocksFor, Received;
    var n := |files|;
    NextTurn(t - 1, n);
    ReceivedClosed(t, n, k);
    ReceivedClosed(t - 1, n, k);
    assert (t - 1) / n >= 131071;
    forall j | 0 <= j < n
      ensures Received(t - 1, n, j) >= BlocksFor(files[j].size)
    {
      NeedsBound(files[j].size);
      ReceivedClosed(t - 1, n, j);
    }
    if t == n {
      DivModUnique(n, 1, 0, n);
    }
  }

  lemma {:induction false} ConcatByte(blocks: seq<seq<byte>>, i: nat, j: nat)
    requires forall b :: 0 <= b < |blocks| ==> |blocks[b]| == BLOCK_SIZE
    requires i < |blocks| && j < 32768
    ensures i * 32768 + j < |Concat(blocks)| && Concat(blocks)[i * 32768 + j] == blocks[i][j]
  {
    if i > 0 {
      ConcatByte(blocks[1..], i - 1, j);
    }
  }

  /** The contents of the files in bytes: byte `j` of the `i`th block in file `k`
      is that byte of the block sent as number `k + i * n`. A ready file that the
      test handles has its size. */
  lemma FileByte(files: seq<RiffFile>, sent: seq<seq<byte>>, k: nat, i: nat, j: nat)
    requires files != [] && Dealt(files, sent) && k < |files| && files[k].size > 0
    requires j < 32768 && i * 32768 + j < |files[k].file.media|
    ensures k + i * |files| < |sent| && |sent[k + i * |files|]| == 32768
    ensures files[k].file.media[i * 32768 + j] == sent[k + i * |files|][j]
    ensures files[k].ready && files[k].size < 0x1_0000_0000 - 32768 ==> |files[k].file.media| == files[k].size
  {
    var blocks := Share(sent, |files|, k);
    HeldPrefix(files[k], blocks);
    hide RiffFile.Taken, Share, Concat;
    ConcatLength(blocks);
    assert i < |blocks|;
    ConcatByte(blocks, i, j);
    ShareAt(sent, |files|, k, i);
  }

  lemma HeldPrefix(f: RiffFile, blocks: seq<seq<byte>>)
    requires f.Taken(blocks) && f.size > 0
    ensures f.file.media <= Concat(blocks) && forall b :: 0 <= b < |blocks| ==> |blocks[b]| == BLOCK_SIZE
    ensures f.ready && SizeOk(f.size) ==> |f.file.media| == f.size
  {
  }

  datatype Outcome = Complete | SourceEnds | FileFull

  /** Blocks from `from` on are the device's, one after the other from `start`. */
  ghost predicate FromDevice(media: seq<byte>, start: nat, sent: seq<seq<byte>>, from: nat) {
    forall j :: from <= j < |sent| ==>
      var at := start + (j - from) * 32768;
      at + BLOCK_SIZE <= |media| && sent[j] == media[at..at + BLOCK_SIZE]
  }

  /** `saveZoomFiles`. A file that is too large is never ready, so the run then
      cannot complete. Otherwise it can complete only when the demands are
      balanced, and then it does, if the source has the blocks; with other demands
      some full file is given one more block, which throws, or the source ends first. */
  method SaveZoomFiles(device: File, start: nat, files: seq<RiffFile>, ghost first: seq<seq<byte>>)
    returns (outcome: Outcome, ghost sent: seq<seq<byte>>)
    requires device.Ready() && files != [] && Separate(device, files)
    requires |first| == |files| && Dealt(files, first)
    modifies device`position, files, set f | f in files :: f.file
    ensures Dealt(files, sent) && first <= sent && FromDevice(device.media, start, sent, |first|)
    ensures outcome == Complete ==> forall k :: 0 <= k < |files| ==> files[k].ready && files[k].size <= TWO_32 - 32768
    ensures outcome == SourceEnds ==> |device.media| < start + (|sent| - |files| + 1) * 32768
    ensures outcome == FileFull ==> NextStuck(files, |sent|) && start + (|sent| - |files| + 1) * 32768 <= |device.media|
    ensures AllReached(files) && outcome == Complete ==> Balanced(Needs(files)) && AllReceived(|sent|, |files|) == Needs(files)
    ensures AllReached(files) && outcome == FileFull ==> !Balanced(Needs(files)) && NextIsFull(files, |sent|)
    ensures AllReached(files) && Balanced(Needs(files)) && start + (Sum(Needs(files)) - |files|) * 32768 <= |device.media| ==>
      outcome == Complete
  {
    hide Dealt, Share, Balanced, FromDevice, Sum, Received, Needs, NextIsFull, NextStuck, AllReached, AllMet, Within, AllReceived;
    var n, fileCounter, position := |files|, 0, start;
    sent := first;
    SavingStarts(device.media, start, first);
    while true
      invariant first <= sent && position == start + (|sent| - n) * 32768 && fileCounter == |sent| % n
      invariant Dealt(files, sent) && FromDevice(device.media, start, sent, n)
      invariant AllReached(files) && |sent| > n ==> !AllMet(files, |sent| - 1)
      decreases |device.media| - position
    {
      WhileNotMet(files, sent);
      var allReady := IsAllReady(files);
      if allReady {
        SavingEnds(files, sent);
        return Complete, sent;
      }
      device.SetPosition(position);
      var data := device.ReadData(BLOCK_SIZE);
      if data.None? {
        return SourceEnds, sent;
      }
      var written := AppendFile(device, files, fileCounter, data.value, sent);
      if written.None? {
        return FileFull, sent;
      }
      SentNext(device.media, start, sent, n, data.value);
      NextTurn(|sent|, n);
      sent, position := sent + [data.value], position + BLOCK_SIZE;
      fileCounter := fileCounter + 1;
      if fileCounter >= n {
        fileCounter := 0;
      }
    }
  }

  lemma SavingEnds(files: seq<RiffFile>, sent: seq<seq<byte>>)
    requires files != [] && |sent| >= |files| && Dealt(files, sent)
    requires forall k :: 0 <= k < |files| ==> files[k].ready
    requires AllReached(files) ==> AllMet(files, |sent|) && Within(files, |sent|)
    requires AllReached(files) && |sent| > |files| ==> !AllMet(files, |sent| - 1)
    ensures forall k :: 0 <= k < |files| ==> files[k].size <= TWO_32 - 32768
    ensures AllReached(files) ==> Balanced(Needs(files)) && AllReceived(|sent|, |files|) == Needs(files)
  {
    ReadySizes(files, sent);
    hide AllMet, Within, AllReached, Dealt, Needs, Balanced, AllReceived;
    if AllReached(files) {
      FirstMet(files, |sent|);
      MetExactlyWhenBalanced(Needs(files));
    }
  }

  /** While some file is not ready: the turn goes to one that has room, if the
      demands are balanced, or to one that is full or takes any number of blocks. */
  lemma WhileNotMet(files: seq<RiffFile>, sent: seq<seq<byte>>)
    requires files != [] && Dealt(files, sent)
    ensures |sent| % |files| < |files|
    ensures AllReached(files) ==> Within(files, |sent|)
    ensures AllReached(files) ==> ((forall k :: 0 <= k < |files| ==> files[k].ready) <==> AllMet(files, |sent|))
    ensures AllReached(files) && !AllMet(files, |sent|) ==> |sent| < Sum(Needs(files))
    ensures AllReached(files) && !AllMet(files, |sent|) && NextStuck(files, |sent|) ==>
      !Balanced(Needs(files)) && NextIsFull(files, |sent|)
  {
    hide BlocksFor, Received, Dealt, AllReached, AllMet, Within, Needs, Balanced, Sum, AllReceived, NextStuck;
    TurnInRange(|sent|, |files|);
    if AllReached(files) {
      AllReadyWhenMet(files, sent);
      if !AllMet(files, |sent|) {
        NoneAhead(files, |sent|);
        StillWanted(files, |sent|);
        StuckIsFull(files, |sent|);
      }
    }
  }

  lemma TurnInRange(t: nat, n: nat)
    requires n > 0
    ensures t % n < n
  {
  }

  /** A ready file has a size that can be reached. */
  lemma ReadySizes(files: seq<RiffFile>, sent: seq<seq<byte>>)
    requires files != [] && Dealt(files, sent)
    ensures forall k :: 0 <= k < |files| && files[k].ready ==> files[k].size <= TWO_32 - 32768
  {
    hide Share, Concat, BlocksFor;
    forall k | 0 <= k < |files| && files[k].ready
      ensures files[k].size <= TWO_32 - 32768
    {
      assert files[k].Taken(Share(sent, |files|, k));
    }
  }

  /** The file whose turn it is has all its blocks. */
  ghost predicate NextIsFull(files: seq<RiffFile>, t: nat)
    requires files != []
  {
    var k := t % |files|;
    k < |files| && Received(t, |files|, k) == BlocksFor(files[k].size)
  }

  lemma StuckIsFull(files: seq<RiffFile>, t: nat)
    requires files != [] && AllReached(files) && t % |files| < |files|
    requires Balanced(Needs(files)) ==> Received(t, |files|, t % |files|) < BlocksFor(files[t % |files|].size)
    ensures NextStuck(files, t) ==> !Balanced(Needs(files)) && NextIsFull(files, t)
  {
    hide Received, BlocksFor, Balanced;
  }

  lemma SavingStarts(media: seq<byte>, start: nat, first: seq<seq<byte>>)
    requires first != []
    ensures FromDevice(media, start, first, |first|) && |first| % |first| == 0
  {
    DivModUnique(|first|, 1, 0, |first|);
  }

  lemma SentNext(media: seq<byte>, start: nat, sent: seq<seq<byte>>, from: nat, data: seq<byte>)
    requires FromDevice(media, start, sent, from) && from <= |sent|
    requires ReadAt(media, start + (|sent| - from) * 32768, BLOCK_SIZE) == Some(data)
    ensures FromDevice(media, start, sent + [data], from)
  {
  }

  /** While some file is not ready, there are blocks to come, and balanced demands put an open file next. */
  lemma StillWanted(files: seq<RiffFile>, t: nat)
    requires files != []
    requires forall k :: 0 <= k < |files| ==> Received(t, |files|, k) <= Needs(files)[k]
    requires AllReceived(t, |files|) != Needs(files)
    ensures t < Sum(Needs(files))
    ensures t % |files| < |files|
    ensures Balanced(Needs(files)) ==> Received(t, |files|, t % |files|) < BlocksFor(files[t % |files|].size)
  {
    hide Received, BlocksFor;
    SumReceived(t, |files|);
    SumLess(AllReceived(t, |files|), Needs(files));
    if Balanced(Needs(files)) {
      NextWantsOne(Needs(files), t);
    }
  }
}
