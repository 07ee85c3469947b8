/** Copying a range of the source device to the end of a file. */
module DefaultRaw {
  import opened Bytes
  import opened IoFile

  const BLOCK_SIZE: nat := 65536

  /** The whole range lies on the device. */
  predicate Inside(media: seq<byte>, offset: nat, size: nat) {
    offset + size <= |media|
  }

  function RoundUp(x: nat): (r: nat)
    ensures r % BLOCK_SIZE == 0 && x <= r < x + BLOCK_SIZE
  {
    (x + 65535) / 65536 * 65536
  }

  /** How many bytes the loop means to copy. For a range that leaves the device
      the source takes the write size, not the offset, from the device's size. */
  function ToWrite(media: seq<byte>, offset: nat, writeSize: nat): (r: nat) {
    if Inside(media, offset, writeSize) then writeSize else U64(|media| - writeSize)
  }

  /** Where the loop stops if every read succeeds: behind the block, counted by
      the write size, that reaches `toWrite`. Blocks end with the write size, so
      a larger `toWrite` is never reached. */
  function Goal(toWrite: nat, writeSize: nat): (r: Option<nat>) {
    if toWrite > writeSize then None
    else if RoundUp(toWrite) < writeSize then Some(RoundUp(toWrite))
    else Some(writeSize)
  }

  /** What `appendToFile` returns (None when a read throws) and appends. */
  function Append(media: seq<byte>, offset: nat, writeSize: nat): (r: (Option<nat>, seq<byte>)) {
    if offset >= |media| then (Some(0), [])
    else
      var goal := Goal(ToWrite(media, offset, writeSize), writeSize);
      if goal.Some? && Inside(media, offset, goal.value) then (goal, media[offset..offset + goal.value])
      else (None, media[offset..offset + (|media| - offset) / 65536 * 65536])
  }

  /** A range on the device is appended whole. */
  lemma InsideAppended(media: seq<byte>, offset: nat, writeSize: nat)
    requires offset < |media| && Inside(media, offset, writeSize)
    ensures Append(media, offset, writeSize) == (Some(writeSize), media[offset..offset + writeSize])
  {
  }

  /** Of a range that starts on the device and leaves it, the part on the device
      is appended exactly when the wrong difference, rounded up to whole blocks,
      happens to be its length. */
  lemma ClippedAppended(media: seq<byte>, offset: nat, writeSize: nat)
    requires offset < |media| < offset + writeSize && writeSize < TWO_64 && |media| < TWO_64
    ensures Append(media, offset, writeSize) == (Some(|media| - offset), media[offset..]) <==>
      writeSize <= |media| && RoundUp(|media| - writeSize) == |media| - offset
  {
    assert media[offset..offset + (|media| - offset)] == media[offset..];
    var toWrite := ToWrite(media, offset, writeSize);
    assert toWrite == if writeSize <= |media| then |media| - writeSize else TWO_64 + |media| - writeSize;
    hide ToWrite;
    assert Goal(toWrite, writeSize).Some? ==> toWrite <= Goal(toWrite, writeSize).value;
  }

  /** Sixty bytes from the middle of a hundred: nothing is appended, and the copy throws. */
  lemma ClippedThrows(media: seq<byte>)
    requires |media| == 100
    ensures Append(media, 50, 60) == (None, [])
  {
    assert media[50..50 + (|media| - 50) / 65536 * 65536] == [];
  }

  method AppendToFile(device: File, target: File, sourceOffset: nat, writeSize: nat) returns (r: Option<nat>)
    requires device != target && device.Ready() && target.Ready() && target.size == |target.media|
    modifies device`position, target`position, target`media, target`size
    ensures target.size == |target.media|
    ensures r == Append(device.media, sourceOffset, writeSize).0
    ensures target.media == old(target.media) + Append(device.media, sourceOffset, writeSize).1
  {
    ghost var media, start := device.media, target.media;
    if sourceOffset >= |device.media| {
      return Some(0);
    }
    var toWrite := writeSize;
    if sourceOffset + writeSize > |device.media| {
      toWrite := U64(|device.media| - writeSize);
    }
    ghost var goal := Goal(toWrite, writeSize);
    assert toWrite == ToWrite(media, sourceOffset, writeSize);
    hide Goal, RoundUp, ToWrite, Append, Overwrite, ReadAt;
    var curPos, readPos, targetOffset := 0, sourceOffset, target.size;
    LoopStart(media, sourceOffset, writeSize);
    while curPos < toWrite
      invariant readPos == sourceOffset + curPos <= |media| && targetOffset == target.size == |target.media|
      invariant target.media == start + media[sourceOffset..readPos]
      invariant curPos % BLOCK_SIZE == 0 || curPos == writeSize
      invariant if goal.Some? then curPos <= goal.value else curPos < writeSize
      decreases |media| - readPos
    {
      BlockStep(media, sourceOffset, writeSize, toWrite, curPos);
      var bytesToWrite := CalcBlockSize(curPos, writeSize, BLOCK_SIZE);
      hide CalcBlockSize;
      var ok := CopyBlock(device, target, readPos, targetOffset, bytesToWrite);
      if !ok {
        return None;
      }
      assert media[sourceOffset..readPos] + media[readPos..readPos + bytesToWrite] == media[sourceOffset..readPos + bytesToWrite];
      readPos := readPos + bytesToWrite;
      targetOffset, curPos := targetOffset + bytesToWrite, curPos + bytesToWrite;
    }
    LoopEnd(media, sourceOffset, writeSize, curPos);
    r := Some(curPos);
  }

  /** One block from the device to the end of the target; false when the read throws. */
  method CopyBlock(device: File, target: File, readPos: nat, targetOffset: nat, count: nat) returns (ok: bool)
    requires device != target && device.Ready() && target.Ready()
    requires targetOffset == target.size == |target.media| && count > 0
    modifies device`position, target`position, target`media, target`size
    ensures ok <==> readPos + count <= |device.media|
    ensures target.media == if ok then old(target.media) + device.media[readPos..readPos + count] else old(target.media)
    ensures target.size == |target.media|
  {
    device.SetPosition(readPos);
    var buffer := device.ReadData(count);
    if buffer.None? {
      return false;
    }
    hide Overwrite;
    target.SetPosition(targetOffset);
    OverwriteEnd(target.media, buffer.value);
    ok := target.WriteData(buffer.value);
  }

  lemma LoopStart(media: seq<byte>, offset: nat, writeSize: nat)
    requires offset < |media|
    ensures Goal(ToWrite(media, offset, writeSize), writeSize).None? ==> 0 < writeSize
  {
  }

  lemma LoopEnd(media: seq<byte>, offset: nat, writeSize: nat, curPos: nat)
    requires offset < |media| && offset + curPos <= |media|
    requires ToWrite(media, offset, writeSize) <= curPos && (curPos % BLOCK_SIZE == 0 || curPos == writeSize)
    requires var goal := Goal(ToWrite(media, offset, writeSize), writeSize);
      if goal.Some? then curPos <= goal.value else curPos < writeSize
    ensures Append(media, offset, writeSize) == (Some(curPos), media[offset..offset + curPos])
  {
    hide ToWrite;
    var toWrite := ToWrite(media, offset, writeSize);
    if RoundUp(toWrite) < writeSize && curPos % BLOCK_SIZE == 0 {
      assert RoundUp(toWrite) <= curPos;
    }
  }

  /** One round: the next block is not empty and stays within the goal; when it
      is not on the device, the blocks before it are all the whole ones there. */
  lemma BlockStep(media: seq<byte>, offset: nat, writeSize: nat, toWrite: nat, curPos: nat)
    requires offset + curPos <= |media| && offset < |media| && toWrite == ToWrite(media, offset, writeSize)
    requires curPos < toWrite && (curPos % BLOCK_SIZE == 0 || curPos == writeSize)
    requires if Goal(toWrite, writeSize).Some? then curPos <= Goal(toWrite, writeSize).value else curPos < writeSize
    ensures var n := CalcBlockSize(curPos, writeSize, BLOCK_SIZE);
      && 0 < n && (curPos + n == writeSize || (curPos + n) % BLOCK_SIZE == 0)
      && (Goal(toWrite, writeSize).Some? ==> curPos + n <= Goal(toWrite, writeSize).value)
      && (offset + curPos + n <= |media| ==>
          ReadAt(media, offset + curPos, n) == Some(media[offset + curPos..offset + curPos + n]))
      && (Goal(toWrite, writeSize).None? && offset + curPos + n <= |media| ==> curPos + n < writeSize)
      && (offset + curPos + n > |media| ==>
          ReadAt(media, offset + curPos, n) == None && Append(media, offset, writeSize) == (None, media[offset..offset + curPos]))
  {
  }
}
