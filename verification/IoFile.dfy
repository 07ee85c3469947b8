/** The transfer layer: `IOEngine` moves a request in chunks of the transfer
    size over a device that may move fewer bytes than asked; `File` is the
    owner of one engine, and the two are one class here. */
module IoFile {
  import opened Bytes

  datatype IOErrorsType = OK | WrongParam | ReadError | WriteError

  datatype ReadWrite = READ | WRITE

  function CalcBlockSize(current: nat, size: nat, blockSize: nat): (bytes: nat)
    ensures current <= size ==> bytes <= blockSize && current + bytes <= size
    ensures current <= size ==> bytes == blockSize || current + bytes == size
    ensures current > size ==> bytes == 0
  {
    if current > size then 0 else if current + blockSize <= size then blockSize else size - current
  }

  /** The media and the caller's buffer after the first `k` of `count` bytes were moved. */
  ghost predicate Moved(mode: ReadWrite, media0: seq<byte>, data0: seq<byte>, position: nat, count: nat, k: nat,
                        media: seq<byte>, data: seq<byte>)
  {
    && k <= count <= |data0| == |data|
    && match mode
       case READ =>
         && media == media0
         && data[count..] == data0[count..]
         && (k > 0 ==> position + k <= |media| && data[..k] == media[position..position + k])
       case WRITE =>
         && data == data0
         && media == if k == 0 then media0 else Overwrite(media0, position, data[..k])
  }

  lemma MovedNothing(mode: ReadWrite, media: seq<byte>, data: seq<byte>, position: nat, count: nat)
    requires count <= |data|
    ensures Moved(mode, media, data, position, count, 0, media, data)
  {
  }

  lemma MovedRead(media0: seq<byte>, data0: seq<byte>, position: nat, count: nat, k: nat, chunk: nat, n: nat,
                  media: seq<byte>, data: seq<byte>, data': seq<byte>)
    requires Moved(READ, media0, data0, position, count, k, media, data)
    requires n <= chunk && k + chunk <= count && |data'| == |data|
    requires data'[..k] == data[..k] && data'[k + chunk..] == data[k + chunk..]
    requires n > 0 ==> position + k + n <= |media| && data'[k..k + n] == media[position + k..position + k + n]
    ensures Moved(READ, media0, data0, position, count, k + n, media, data')
  {
    assert data'[count..] == data'[k + chunk..][count - k - chunk..];
    assert data[count..] == data[k + chunk..][count - k - chunk..];
    assert data'[..k + n] == data'[..k] + data'[k..k + n];
  }

  lemma MovedWrite(media0: seq<byte>, data0: seq<byte>, position: nat, count: nat, k: nat, n: nat,
                   media: seq<byte>, data: seq<byte>)
    requires Moved(WRITE, media0, data0, position, count, k, media, data)
    requires 0 < n && k + n <= count
    ensures Moved(WRITE, media0, data0, position, count, k + n, Overwrite(media, position + k, data[k..k + n]), data)
  {
    assert data[..k + n] == data[..k] + data[k..k + n];
    OverwriteConcat(media0, position, data[..k], data[k..k + n]);
  }

  /** Reading back what a completed write stored returns the written bytes,
      however the two requests were cut into chunks. */
  lemma WriteThenRead(media0: seq<byte>, written: seq<byte>, position: nat, count: nat,
                      media: seq<byte>, buffer0: seq<byte>, buffer: seq<byte>)
    requires 0 < count
    requires Moved(WRITE, media0, written, position, count, count, media, written)
    requires Moved(READ, media, buffer0, position, count, count, media, buffer)
    ensures buffer[..count] == written[..count]
  {
    ReadBack(media0, position, written[..count]);
  }

  class File {
    var media: seq<byte>
    var position: nat
    var size: nat
    var transferSize: nat
    /** Whether the device reports errors only past the end of the media. */
    const reliable: bool

    constructor Create(reliable: bool)
      ensures media == [] && position == 0 && size == 0
      ensures this.reliable == reliable && transferSize == 65536
    {
      media, position, size, transferSize := [], 0, 0, 65536;
      this.reliable := reliable;
    }

    /** No device error other than reading past the end. */
    ghost predicate Ready()
      reads this`transferSize
    {
      reliable && transferSize > 0
    }

    method SetPosition(offset: nat)
      modifies this`position
      ensures position == offset
    {
      position := offset;
    }

    method SetTransferSize(newSize: nat)
      modifies this`transferSize
      ensures transferSize == newSize
    {
      transferSize := newSize;
    }

    /** `::ReadFile`: delivers any number of bytes up to `count`, none at the end, or fails. */
    method ReadDevice(data: array<byte>, at: nat, count: nat) returns (ok: bool, moved: nat)
      requires at + count <= data.Length
      modifies data
      ensures data[..at] == old(data[..at]) && data[at + count..] == old(data[at + count..])
      ensures moved <= count
      ensures moved > 0 ==> position + moved <= |media| && data[at..at + moved] == media[position..position + moved]
      ensures reliable && count > 0 && position < |media| ==> ok && moved > 0
    {
      var fault: bool := *;
      if !reliable && fault {
        return false, 0;
      }
      if position >= |media| || count == 0 {
        return true, 0;
      }
      var limit := if position + count <= |media| then count else |media| - position;
      moved :| 1 <= moved <= limit;
      forall i | at <= i < at + moved {
        data[i] := media[position + i - at];
      }
      ok := true;
    }

    /** `::WriteFile`: stores any number of bytes up to `count`, or fails. */
    method WriteDevice(data: array<byte>, at: nat, count: nat) returns (ok: bool, moved: nat)
      requires at + count <= data.Length
      modifies this`media
      ensures moved <= count && (!ok ==> moved == 0)
      ensures media == if moved == 0 then old(media) else Overwrite(old(media), position, data[at..at + moved])
      ensures reliable && count > 0 ==> ok && moved > 0
    {
      var fault: bool := *;
      if count == 0 || (!reliable && fault) {
        return false, 0;
      }
      moved :| 1 <= moved <= count;
      media := Overwrite(media, position, data[at..at + moved]);
      ok := true;
    }

    method ReadChunk(data: array<byte>, at: nat, count: nat) returns (result: IOErrorsType, moved: nat)
      requires at + count <= data.Length
      modifies data
      ensures data[..at] == old(data[..at]) && data[at + count..] == old(data[at + count..])
      ensures moved <= count
      ensures result == OK ==> 0 < moved
      ensures moved > 0 ==> position + moved <= |media| && data[at..at + moved] == media[position..position + moved]
      ensures result in {OK, ReadError}
      ensures reliable && count > 0 && position < |media| ==> result == OK
    {
      var ok;
      ok, moved := ReadDevice(data, at, count);
      result := if !ok || moved == 0 then ReadError else OK;
    }

    method WriteChunk(data: array<byte>, at: nat, count: nat) returns (result: IOErrorsType, moved: nat)
      requires at + count <= data.Length
      modifies this`media
      ensures moved <= count
      ensures result == OK ==> 0 < moved && media == Overwrite(old(media), position, data[at..at + moved])
      ensures result != OK ==> media == old(media)
      ensures result in {OK, WriteError}
      ensures reliable && count > 0 ==> result == OK
    {
      var ok;
      ok, moved := WriteDevice(data, at, count);
      result := if !ok || moved == 0 then WriteError else OK;
    }

    /** One round of the transfer loop: read or write one chunk, `at` bytes into the request. */
    method TransferChunk(data: array<byte>, at: nat, count: nat, mode: ReadWrite,
                         ghost media0: seq<byte>, ghost data0: seq<byte>) returns (result: IOErrorsType, moved: nat)
      requires at < count <= data.Length == |data0| && at <= position && transferSize > 0
      requires Moved(mode, media0, data0, position - at, count, at, media, data[..])
      modifies (if mode == WRITE then {this} else {})`media, if mode == READ then {data} else {}
      ensures result == OK || result == if mode == READ then ReadError else WriteError
      ensures result == OK ==> 0 < moved <= count - at
      ensures Moved(mode, media0, data0, position - at, count, if result == OK then at + moved else at, media, data[..])
      ensures reliable && (mode == READ ==> position < |media|) ==> result == OK
    {
      hide Moved;
      var chunk := CalcBlockSize(at, count, transferSize);
      ghost var data1, media1 := data[..], media;
      if mode == READ {
        result, moved := ReadChunk(data, at, chunk);
        MovedRead(media0, data0, position - at, count, at, chunk, if result == OK then moved else 0, media, data1, data[..]);
      } else {
        result, moved := WriteChunk(data, at, chunk);
        if result == OK {
          MovedWrite(media0, data0, position - at, count, at, moved, media1, data1);
        }
      }
    }

    /** The transfer loop. Whatever the outcome, the position tells how long a
        prefix of the request was moved; OK means all of it. */
    method ReadOrWriteData(data: array<byte>, count: nat, mode: ReadWrite) returns (result: IOErrorsType, moved: nat)
      requires count <= data.Length
      modifies this`position, (if mode == WRITE then {this} else {})`media, if mode == READ then {data} else {}
      ensures old(position) <= position
      ensures Moved(mode, old(media), old(data[..]), old(position), count, position - old(position), media, data[..])
      ensures result == WrongParam <==> count == 0 || transferSize == 0
      ensures result == WrongParam ==> position == old(position)
      ensures result == OK ==> moved == count && position == old(position) + count
      ensures result == OK || result == WrongParam || result == if mode == READ then ReadError else WriteError
      ensures Ready() && count > 0 && (mode == READ ==> old(position) + count <= |old(media)|) ==> result == OK
    {
      hide Moved;
      MovedNothing(mode, media, data[..], position, count);
      if count == 0 || transferSize == 0 {
        return WrongParam, 0;
      }
      var dataPos := 0;
      while dataPos < count
        invariant dataPos <= count && position == old(position) + dataPos
        invariant mode == READ ==> media == old(media)
        invariant Moved(mode, old(media), old(data[..]), old(position), count, dataPos, media, data[..])
      {
        SetPosition(position);
        result, moved := TransferChunk(data, dataPos, count, mode, old(media), old(data[..]));
        if result != OK {
          return;
        }
        dataPos := dataPos + moved;
        position := position + moved;
      }
      return OK, dataPos;
    }

    /** `File::ReadData`; None stands for the exception it throws. */
    method ReadData(count: nat) returns (r: Option<seq<byte>>)
      modifies this`position
      ensures r.Some? ==> r == ReadAt(media, old(position), count) && position == old(position) + count
      ensures Ready() ==> r == ReadAt(media, old(position), count)
    {
      var data := new byte[count];
      var result, moved := ReadOrWriteData(data, count, READ);
      assert data[..count] == data[..];
      r := if result == OK then Some(data[..]) else None;
    }

    /** `File::WriteData`; `ok` is false when it throws. `size` counts every byte written. */
    method WriteData(bytes: seq<byte>) returns (ok: bool)
      modifies this`position, this`media, this`size
      ensures ok ==> bytes != [] && media == Overwrite(old(media), old(position), bytes)
      ensures ok ==> position == old(position) + |bytes| && size == old(size) + |bytes|
      ensures bytes == [] ==> !ok && media == old(media) && position == old(position)
      ensures !ok ==> size == old(size)
      ensures Ready() && bytes != [] ==> ok
    {
      var data := new byte[|bytes|](i requires 0 <= i < |bytes| => bytes[i]);
      assert data[..] == bytes == data[..|bytes|];
      var result, moved := ReadOrWriteData(data, |bytes|, WRITE);
      ok := result == OK;
      if ok {
        size := size + moved;
      }
    }
  }
}
