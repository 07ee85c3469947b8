/** A physical drive whose transfers must be whole sectors: any other read is
    done through a window of whole sectors around it. */
module DiskDevice {
  import opened Arithmetic
  import opened Bytes
  import opened IoFile

  predicate IsMultiple(number: nat, multipleBy: nat)
    requires multipleBy > 0
  {
    number % multipleBy == 0
  }

  /** First byte and length of the sector window that an unaligned read fetches.
      A read that ends on a sector boundary still fetches the next sector. */
  function WindowStart(position: nat, sectorSize: nat): (r: nat)
    requires sectorSize > 0
  {
    position / sectorSize * sectorSize
  }

  function WindowSize(position: nat, size: nat, sectorSize: nat): (r: nat)
    requires sectorSize > 0
  {
    ((position % sectorSize + size) / sectorSize + 1) * sectorSize
  }

  /** The window is made of whole sectors, covers the request, and leaves less
      than a sector before it and at most a sector after it. */
  lemma WindowCovers(position: nat, size: nat, sectorSize: nat)
    requires sectorSize > 0
    ensures WindowStart(position, sectorSize) + position % sectorSize == position
    ensures WindowStart(position, sectorSize) % sectorSize == 0 && WindowSize(position, size, sectorSize) % sectorSize == 0
    ensures position + size < WindowStart(position, sectorSize) + WindowSize(position, size, sectorSize)
         <= position + size + sectorSize
  {
    var reach := position % sectorSize + size;
    assert reach == reach / sectorSize * sectorSize + reach % sectorSize;
    var q := reach / sectorSize + 1;
    DivModUnique(q * sectorSize, q, 0, sectorSize);
    DivModUnique(WindowStart(position, sectorSize), position / sectorSize, 0, sectorSize);
  }

  /** A drive of whole sectors holds the window of a request that lies on it
      exactly unless the request ends with the drive. */
  lemma WindowOnDrive(position: nat, size: nat, sectorSize: nat, drive: nat)
    requires sectorSize > 0 && IsMultiple(drive, sectorSize) && position + size <= drive
    ensures WindowStart(position, sectorSize) + WindowSize(position, size, sectorSize) <= drive <==> position + size < drive
  {
    WindowCovers(position, size, sectorSize);
    var d := drive / sectorSize;
    var q := WindowEnd(position, size, sectorSize);
    assert drive == d * sectorSize;
    Distribute(q, 1, sectorSize);
    if q < d {
      MulMonotone(q + 1, d, sectorSize);
    } else {
      MulMonotone(d, q, sectorSize);
    }
  }

  /** The window ends one sector behind the last sector boundary at or before the request's end. */
  lemma WindowEnd(position: nat, size: nat, sectorSize: nat) returns (q: nat)
    requires sectorSize > 0
    ensures q * sectorSize <= position + size < (q + 1) * sectorSize
    ensures WindowStart(position, sectorSize) + WindowSize(position, size, sectorSize) == (q + 1) * sectorSize
  {
    var start, reach := position / sectorSize, position % sectorSize + size;
    q := start + reach / sectorSize;
    Distribute(start, reach / sectorSize, sectorSize);
    Distribute(start, reach / sectorSize + 1, sectorSize);
    assert start + (reach / sectorSize + 1) == q + 1;
    assert position == start * sectorSize + position % sectorSize;
    assert reach == reach / sectorSize * sectorSize + reach % sectorSize;
    Distribute(reach / sectorSize, 1, sectorSize);
  }

  /** The last 511 bytes of a drive of one sector cannot be read. */
  lemma DriveEndUnread()
    ensures WindowStart(1, 512) + WindowSize(1, 511, 512) == 1024
  {
  }

  class DiskDevice {
    const engine: File
    const sectorSize: nat

    constructor (engine: File, sectorSize: nat)
      ensures this.engine == engine && this.sectorSize == sectorSize
    {
      this.engine, this.sectorSize := engine, sectorSize;
    }

    /** Some exactly when the bytes, or the sector window around an unaligned
        request, lie on the drive; then they are a direct slice of it. */
    method ReadData(size: nat) returns (r: Option<seq<byte>>)
      requires sectorSize > 0 && engine.Ready()
      modifies engine`position
      ensures var position := old(engine.position);
        if IsMultiple(position, sectorSize) && IsMultiple(size, sectorSize) then
          r == ReadAt(engine.media, position, size)
        else if WindowStart(position, sectorSize) + WindowSize(position, size, sectorSize) <= |engine.media| then
          r == Some(engine.media[position..position + size])
        else
          r == None
    {
      if IsMultiple(engine.position, sectorSize) && IsMultiple(size, sectorSize) {
        r := engine.ReadData(size);
      } else {
        r := ReadDataNotAligned(size);
      }
    }

    method ReadDataNotAligned(size: nat) returns (r: Option<seq<byte>>)
      requires sectorSize > 0 && engine.Ready()
      modifies engine`position
      ensures var position := old(engine.position);
        r == if WindowStart(position, sectorSize) + WindowSize(position, size, sectorSize) <= |engine.media|
             then Some(engine.media[position..position + size]) else None
      ensures r.Some? ==> (engine.position ==
        WindowStart(old(engine.position), sectorSize) + WindowSize(old(engine.position), size, sectorSize))
    {
      var position := engine.position;
      var dataStart := position % sectorSize;
      var bytesToRead := ((dataStart + size) / sectorSize + 1) * sectorSize;
      var alignOffset := position / sectorSize * sectorSize;
      WindowCovers(position, size, sectorSize);
      engine.SetPosition(alignOffset);
      assert alignOffset == WindowStart(position, sectorSize) && bytesToRead == WindowSize(position, size, sectorSize) > 0;
      var window := engine.ReadData(bytesToRead);
      if window.None? {
        return None;
      }
      r := Some(window.value[dataStart..dataStart + size]);
      SliceOfSlice(engine.media, alignOffset, bytesToRead, dataStart, dataStart + size);
      assert alignOffset + dataStart == position && alignOffset + (dataStart + size) == position + size;
    }
  }
}
