/** Searching a device for the first sector at which a known file format starts. */
module SignatureFinder {
  import opened Bytes
  import opened IoFile

  const SECTOR_SIZE: nat := 512

  /** Alternative signatures expected at one offset. */
  datatype SignatureOffset = SignatureOffset(offset: nat, signatures: seq<seq<byte>>) {
    /** Every signature lies inside the first sector of a file. */
    predicate InSector() {
      forall i :: 0 <= i < |signatures| ==> offset + |signatures[i]| <= SECTOR_SIZE
    }

    /** One of the signatures stands at its place behind `at`. */
    predicate PresentAt(data: seq<byte>, at: nat)
      requires InSector() && at + SECTOR_SIZE <= |data|
    {
      exists i :: 0 <= i < |signatures| && SignatureAt(data, at + offset, signatures[i])
    }
  }

  predicate SignatureAt(data: seq<byte>, at: nat, signature: seq<byte>) {
    at + |signature| <= |data| && data[at..at + |signature|] == signature
  }

  /** A file format: every header must be present. */
  datatype FileStruct = FileStruct(headers: seq<SignatureOffset>) {
    predicate InSector() {
      forall i :: 0 <= i < |headers| ==> headers[i].InSector()
    }

    predicate MatchesAt(data: seq<byte>, at: nat)
      requires InSector() && at + SECTOR_SIZE <= |data|
    {
      forall i :: 0 <= i < |headers| ==> headers[i].PresentAt(data, at)
    }
  }

  predicate AllInSector(formats: seq<FileStruct>) {
    forall i :: 0 <= i < |formats| ==> formats[i].InSector()
  }

  /** `i` is the first format in the list that matches at `at`. */
  predicate FirstFormat(formats: seq<FileStruct>, data: seq<byte>, at: nat, i: nat)
    requires AllInSector(formats) && at + SECTOR_SIZE <= |data|
  {
    i < |formats| && formats[i].MatchesAt(data, at) && forall j :: 0 <= j < i ==> !formats[j].MatchesAt(data, at)
  }

  predicate NoFormat(formats: seq<FileStruct>, data: seq<byte>, at: nat)
    requires AllInSector(formats) && at + SECTOR_SIZE <= |data|
  {
    forall j :: 0 <= j < |formats| ==> !formats[j].MatchesAt(data, at)
  }

  /** A format matches where each of its headers has one of its signatures, byte by byte. */
  lemma MatchBytes(format: FileStruct, data: seq<byte>, at: nat)
    requires format.InSector() && at + 512 <= |data|
    ensures format.MatchesAt(data, at) <==>
      forall h :: h in format.headers ==>
        exists s :: s in h.signatures && data[at + h.offset..at + h.offset + |s|] == s
  {
    forall h | h in format.headers
      ensures h.PresentAt(data, at) <==> exists s :: s in h.signatures && data[at + h.offset..at + h.offset + |s|] == s
    {
    }
  }

  /** Only the sector itself matters for what matches at its start. */
  lemma SameSector(formats: seq<FileStruct>, a: seq<byte>, at: nat, b: seq<byte>, bt: nat)
    requires AllInSector(formats) && at + SECTOR_SIZE <= |a| && bt + SECTOR_SIZE <= |b|
    requires a[at..at + SECTOR_SIZE] == b[bt..bt + SECTOR_SIZE]
    ensures forall i :: 0 <= i < |formats| ==> (formats[i].MatchesAt(a, at) <==> formats[i].MatchesAt(b, bt))
    ensures forall i :: FirstFormat(formats, a, at, i) <==> FirstFormat(formats, b, bt, i)
    ensures NoFormat(formats, a, at) <==> NoFormat(formats, b, bt)
  {
    forall h: SignatureOffset | h.InSector()
      ensures h.PresentAt(a, at) <==> h.PresentAt(b, bt)
    {
      SameHeader(h, a, at, b, bt);
    }
  }

  lemma SameHeader(h: SignatureOffset, a: seq<byte>, at: nat, b: seq<byte>, bt: nat)
    requires h.InSector() && at + SECTOR_SIZE <= |a| && bt + SECTOR_SIZE <= |b|
    requires a[at..at + SECTOR_SIZE] == b[bt..bt + SECTOR_SIZE]
    ensures h.PresentAt(a, at) <==> h.PresentAt(b, bt)
  {
    forall i | 0 <= i < |h.signatures|
      ensures SignatureAt(a, at + h.offset, h.signatures[i]) <==> SignatureAt(b, bt + h.offset, h.signatures[i])
    {
      var s := h.signatures[i];
      SliceOfSlice(a, at, SECTOR_SIZE, h.offset, h.offset + |s|);
      SliceOfSlice(b, bt, SECTOR_SIZE, h.offset, h.offset + |s|);
      assert at + (h.offset + |s|) == at + h.offset + |s| && bt + (h.offset + |s|) == bt + h.offset + |s|;
    }
  }

  // ---------- the program

  method FindSignature(h: SignatureOffset, data: seq<byte>, at: nat, size: nat) returns (r: bool)
    requires h.InSector() && at + SECTOR_SIZE <= |data| && SECTOR_SIZE <= size
    ensures r <==> h.PresentAt(data, at)
  {
    for i := 0 to |h.signatures|
      invariant forall j :: 0 <= j < i ==> !SignatureAt(data, at + h.offset, h.signatures[j])
    {
      var signature := h.signatures[i];
      if size >= |signature| {
        var from := at + h.offset;
        if data[from..from + |signature|] == signature {
          assert SignatureAt(data, at + h.offset, h.signatures[i]);
          return true;
        }
      }
    }
    r := false;
  }

  method CompareWithAllHeaders(format: FileStruct, data: seq<byte>, at: nat, size: nat) returns (r: bool)
    requires format.InSector() && at + SECTOR_SIZE <= |data| && SECTOR_SIZE <= size
    ensures r <==> format.MatchesAt(data, at)
  {
    for i := 0 to |format.headers|
      invariant forall j :: 0 <= j < i ==> format.headers[j].PresentAt(data, at)
    {
      var found := FindSignature(format.headers[i], data, at, size);
      if !found {
        return false;
      }
    }
    r := true;
  }

  /** `HeaderBase::find` */
  method Find(formats: seq<FileStruct>, data: seq<byte>, at: nat, size: nat) returns (r: Option<nat>)
    requires AllInSector(formats) && at + SECTOR_SIZE <= |data| && SECTOR_SIZE <= size
    ensures r.Some? ==> FirstFormat(formats, data, at, r.value)
    ensures r.None? ==> NoFormat(formats, data, at)
  {
    for i := 0 to |formats|
      invariant forall j :: 0 <= j < i ==> !formats[j].MatchesAt(data, at)
    {
      var matches := CompareWithAllHeaders(formats[i], data, at, size);
      if matches {
        return Some(i);
      }
    }
    r := None;
  }

  /** Up to the next sector boundary. */
  function SectorsUp(size: nat): (r: nat)
    ensures size <= r < size + SECTOR_SIZE && r % SECTOR_SIZE == 0
    ensures forall x: nat :: x % SECTOR_SIZE == 0 && size <= x ==> r <= x
    ensures forall x: nat :: x % SECTOR_SIZE == 0 && x < size ==> x + SECTOR_SIZE <= r
  {
    (size + 511) / 512 * 512
  }

  /** `cmpHeader`: the first matching sector among those that begin in the first
      `size` bytes of the buffer, and its format. */
  method CmpHeader(formats: seq<FileStruct>, buffer: seq<byte>, size: nat) returns (r: Option<(nat, nat)>)
    requires AllInSector(formats) && size <= |buffer| && |buffer| % SECTOR_SIZE == 0
    ensures r.Some? ==> r.value.0 % SECTOR_SIZE == 0 && r.value.0 + SECTOR_SIZE <= SectorsUp(size) <= |buffer|
    ensures r.Some? ==> FirstFormat(formats, buffer, r.value.0, r.value.1)
    ensures forall p :: 0 <= p < (if r.Some? then r.value.0 else SectorsUp(size)) && p % SECTOR_SIZE == 0 ==>
      p + SECTOR_SIZE <= SectorsUp(size) <= |buffer| && NoFormat(formats, buffer, p)
  {
    ghost var full := SectorsUp(size);
    hide SectorsUp;
    var headerPos := 0;
    while headerPos < size
      invariant headerPos <= full <= |buffer| && headerPos % SECTOR_SIZE == 0
      invariant forall p :: 0 <= p < headerPos && p % SECTOR_SIZE == 0 ==>
        p + SECTOR_SIZE <= full && NoFormat(formats, buffer, p)
      decreases full - headerPos
    {
      var header := Find(formats, buffer, headerPos, |buffer|);
      if header.Some? {
        return Some((headerPos, header.value));
      }
      headerPos := headerPos + SECTOR_SIZE;
    }
    r := None;
  }

  /** Sector start `start + 512 k` matches no format. */
  ghost predicate NothingAt(formats: seq<FileStruct>, media: seq<byte>, start: nat, k: nat)
    requires AllInSector(formats)
  {
    start + 512 * k + SECTOR_SIZE <= |media| && NoFormat(formats, media, start + 512 * k)
  }

  /** What the search of one block found holds of the media the block was read from. */
  lemma BlockIsMedia(formats: seq<FileStruct>, media: seq<byte>, start: nat, k: nat, buffer: seq<byte>, size: nat, limit: nat)
    requires AllInSector(formats) && size <= |buffer| && limit <= size && limit % 512 == 0
    requires start + 512 * k + size <= |media| && buffer[..size] == media[start + 512 * k..start + 512 * k + size]
    requires forall p :: 0 <= p < limit && p % SECTOR_SIZE == 0 ==> p + SECTOR_SIZE <= size && NoFormat(formats, buffer, p)
    requires forall j :: 0 <= j < k ==> NothingAt(formats, media, start, j)
    ensures forall j :: 0 <= j < k + limit / 512 ==> NothingAt(formats, media, start, j)
    ensures forall i :: limit + SECTOR_SIZE <= size ==>
      (FirstFormat(formats, buffer, limit, i) <==> FirstFormat(formats, media, start + 512 * (k + limit / 512), i))
  {
    hide FirstFormat, NoFormat;
    forall j | k <= j < k + limit / 512
      ensures NothingAt(formats, media, start, j)
    {
      var p := 512 * (j - k);
      assert p % SECTOR_SIZE == 0 && NoFormat(formats, buffer, p);
      SectorIsMedia(formats, media, start + 512 * k, buffer, size, p);
    }
    if limit + SECTOR_SIZE <= size {
      SectorIsMedia(formats, media, start + 512 * k, buffer, size, limit);
    }
  }

  lemma SectorIsMedia(formats: seq<FileStruct>, media: seq<byte>, offset: nat, buffer: seq<byte>, size: nat, p: nat)
    requires AllInSector(formats) && size <= |buffer| && p + SECTOR_SIZE <= size
    requires offset + size <= |media| && buffer[..size] == media[offset..offset + size]
    ensures forall i :: FirstFormat(formats, buffer, p, i) <==> FirstFormat(formats, media, offset + p, i)
    ensures NoFormat(formats, buffer, p) <==> NoFormat(formats, media, offset + p)
  {
    SliceOfSlice(media, offset, size, p, p + SECTOR_SIZE);
    SliceOfSlice(buffer, 0, size, p, p + SECTOR_SIZE);
    SameSector(formats, buffer, p, media, offset + p);
  }

  /** The least sector from `start` on at which a format matches, with the first
      such format; None exactly when there is no such sector. */
  ghost predicate LinearSearch(formats: seq<FileStruct>, media: seq<byte>, start: nat, r: Option<(nat, nat)>)
    requires AllInSector(formats)
  {
    match r
    case None => forall k: nat :: start + 512 * k < |media| ==> NothingAt(formats, media, start, k)
    case Some(found) => exists k: nat :: FoundAt(formats, media, start, k, found)
  }

  ghost predicate FoundAt(formats: seq<FileStruct>, media: seq<byte>, start: nat, k: nat, found: (nat, nat))
    requires AllInSector(formats)
  {
    && found.0 == start + 512 * k
    && found.0 + SECTOR_SIZE <= |media|
    && FirstFormat(formats, media, found.0, found.1)
    && forall j :: 0 <= j < k ==> NothingAt(formats, media, start, j)
  }

  /** The linear search has one outcome. */
  lemma LinearSearchUnique(formats: seq<FileStruct>, media: seq<byte>, start: nat, r: Option<(nat, nat)>, s: Option<(nat, nat)>)
    requires AllInSector(formats) && LinearSearch(formats, media, start, r) && LinearSearch(formats, media, start, s)
    ensures r == s
  {
    forall k: nat, l: nat, f, g | FoundAt(formats, media, start, k, f) && FoundAt(formats, media, start, l, g)
      ensures f == g
    {
      FoundIsSomething(formats, media, start, k, f);
      FoundIsSomething(formats, media, start, l, g);
      assert k == l;
    }
    forall k: nat, f | FoundAt(formats, media, start, k, f)
      ensures !NothingAt(formats, media, start, k)
    {
      FoundIsSomething(formats, media, start, k, f);
    }
  }

  /** A search that found something, told from the formats: the sector and the
      format match, and no format matches at an earlier sector, nor an earlier one here. */
  lemma FoundBytes(formats: seq<FileStruct>, media: seq<byte>, start: nat, at: nat, i: nat)
    requires AllInSector(formats) && start <= at && (at - start) % 512 == 0
    ensures LinearSearch(formats, media, start, Some((at, i))) <==>
      && at + 512 <= |media| && i < |formats| && formats[i].MatchesAt(media, at)
      && (forall j :: 0 <= j < i ==> !formats[j].MatchesAt(media, at))
      && forall p, j :: start <= p < at && (p - start) % 512 == 0 && 0 <= j < |formats| ==> !formats[j].MatchesAt(media, p)
  {
    hide FileStruct.MatchesAt;
    var k := (at - start) / 512;
    assert at == start + 512 * k;
    if LinearSearch(formats, media, start, Some((at, i))) {
      forall p, j | start <= p < at && (p - start) % 512 == 0 && 0 <= j < |formats|
        ensures !formats[j].MatchesAt(media, p)
      {
        assert NothingAt(formats, media, start, (p - start) / 512);
      }
    }
    if && at + 512 <= |media| && FirstFormat(formats, media, at, i)
       && forall p, j :: start <= p < at && (p - start) % 512 == 0 && 0 <= j < |formats| ==> !formats[j].MatchesAt(media, p) {
      forall j | 0 <= j < k
        ensures NothingAt(formats, media, start, j)
      {
        assert start <= start + 512 * j < at && (start + 512 * j - start) % 512 == 0;
      }
      SearchFinds(formats, media, start, k, (at, i));
    }
  }

  lemma FoundIsSomething(formats: seq<FileStruct>, media: seq<byte>, start: nat, k: nat, f: (nat, nat))
    requires AllInSector(formats) && FoundAt(formats, media, start, k, f)
    ensures !NothingAt(formats, media, start, k)
  {
    assert formats[f.1].MatchesAt(media, f.0);
  }

  /** The media as the search sees them: a last partial sector is filled up with
      what the buffer still holds at that place, the block before or zeros. */
  function Padded(media: seq<byte>, start: nat, blockSize: nat): (r: seq<byte>)
    requires blockSize > 0 && blockSize % SECTOR_SIZE == 0
    ensures |media| <= |r| && r[..|media|] == media
    ensures start < |media| ==> |r| == start + SectorsUp(|media| - start)
    ensures start >= |media| ==> r == media
    ensures start < |media| && (|media| - start) % SECTOR_SIZE == 0 ==> r == media
  {
    if start >= |media| then media
    else
      var rest := |media| - start;
      media + seq(SectorsUp(rest) - rest, i requires 0 <= i < SectorsUp(rest) - rest =>
        if rest <= blockSize then 0 else media[|media| + i - blockSize])
  }

  /** The buffer after a block was read into it. */
  lemma BlockPadded(media: seq<byte>, start: nat, blockSize: nat, offset: nat, count: nat, before: seq<byte>)
    requires blockSize > 0 && blockSize % SECTOR_SIZE == 0 && |before| == blockSize
    requires start <= offset < |media| && count == CalcBlockSize(offset, |media|, blockSize)
    requires offset == start ==> before == Zeros(blockSize)
    requires offset > start ==> start + blockSize <= offset && before == media[offset - blockSize..offset]
    requires (offset - start) % SECTOR_SIZE == 0
    ensures 0 < count <= blockSize && SectorsUp(count) <= blockSize
    ensures offset + SectorsUp(count) <= |Padded(media, start, blockSize)|
    ensures var buffer := media[offset..offset + count] + before[count..];
      buffer[..SectorsUp(count)] == Padded(media, start, blockSize)[offset..offset + SectorsUp(count)]
    ensures offset + count == |media| ==> offset + SectorsUp(count) == |Padded(media, start, blockSize)|
    ensures offset + count < |media| ==> count == blockSize == SectorsUp(count)
  {
    if offset + count < |media| {
      WholeBlock(media, start, blockSize, offset, before);
      assert count == blockSize;
      hide SectorsUp, CalcBlockSize;
    } else {
      LastBlock(media, start, blockSize, offset, before);
      assert offset + count == |media|;
      hide Padded, SectorsUp, CalcBlockSize;
      assert media[offset..offset + count] == media[offset..];
      var padded := Padded(media, start, blockSize);
      assert padded[offset..offset + SectorsUp(count)] == padded[offset..];
    }
  }

  lemma WholeBlock(media: seq<byte>, start: nat, blockSize: nat, offset: nat, before: seq<byte>)
    requires blockSize > 0 && blockSize % SECTOR_SIZE == 0 && |before| == blockSize
    requires start <= offset && offset + blockSize < |media|
    ensures SectorsUp(blockSize) == blockSize
    ensures (media[offset..offset + blockSize] + before[blockSize..])[..blockSize]
      == Padded(media, start, blockSize)[offset..offset + blockSize]
  {
    var padded := Padded(media, start, blockSize);
    hide Padded;
    assert padded[offset..offset + blockSize] == padded[..|media|][offset..offset + blockSize];
  }

  lemma LastBlock(media: seq<byte>, start: nat, blockSize: nat, offset: nat, before: seq<byte>)
    requires blockSize > 0 && blockSize % SECTOR_SIZE == 0 && |before| == blockSize
    requires start <= offset < |media| <= offset + blockSize && (offset - start) % SECTOR_SIZE == 0
    requires offset == start ==> before == Zeros(blockSize)
    requires offset > start ==> start + blockSize <= offset && before == media[offset - blockSize..offset]
    ensures var count := |media| - offset;
      && SectorsUp(count) <= blockSize && offset + SectorsUp(count) == |Padded(media, start, blockSize)|
      && (media[offset..] + before[count..])[..SectorsUp(count)] == Padded(media, start, blockSize)[offset..]
  {
    var count, full := |media| - offset, SectorsUp(|media| - offset);
    LastFits(media, start, blockSize, offset);
    hide Padded, SectorsUp;
    var l, r := (media[offset..] + before[count..])[..full], Padded(media, start, blockSize)[offset..];
    assert |l| == |r| == full;
    forall i | 0 <= i < full
      ensures l[i] == r[i]
    {
      assert l[i] == if i < count then media[offset + i] else before[i];
      PaddedByte(media, start, blockSize, offset + i);
      if i >= count && offset > start {
        assert before[i] == media[offset - blockSize + i];
      }
    }
  }

  lemma LastFits(media: seq<byte>, start: nat, blockSize: nat, offset: nat)
    requires blockSize > 0 && blockSize % SECTOR_SIZE == 0
    requires start <= offset < |media| <= offset + blockSize && (offset - start) % SECTOR_SIZE == 0
    ensures SectorsUp(|media| - offset) <= blockSize
    ensures offset + SectorsUp(|media| - offset) == |Padded(media, start, blockSize)|
  {
    UpShifted(offset - start, |media| - offset);
    hide Padded;
  }

  lemma PaddedByte(media: seq<byte>, start: nat, blockSize: nat, p: nat)
    requires blockSize > 0 && blockSize % SECTOR_SIZE == 0 && start < |media| && p < |Padded(media, start, blockSize)|
    ensures Padded(media, start, blockSize)[p] ==
      if p < |media| then media[p] else if |media| - start <= blockSize then 0 else media[p - blockSize]
  {
  }

  lemma UpShifted(whole: nat, count: nat)
    requires whole % SECTOR_SIZE == 0
    ensures SectorsUp(whole + count) == whole + SectorsUp(count)
  {
  }

  /** `findHeader`: searching block by block finds what a linear search finds. */
  method FindHeader(device: File, start: nat, formats: seq<FileStruct>, blockSize: nat) returns (r: Option<(nat, nat)>)
    requires device.Ready() && AllInSector(formats)
    requires blockSize > 0 && blockSize % SECTOR_SIZE == 0
    modifies device`position
    ensures LinearSearch(formats, Padded(device.media, start, blockSize), start, r)
    ensures start < |device.media| && (|device.media| - start) % SECTOR_SIZE == 0 ==>
      LinearSearch(formats, device.media, start, r)
  {
    hide FirstFormat, NoFormat, Padded, SectorsUp, LinearSearch, CalcBlockSize;
    ghost var padded := Padded(device.media, start, blockSize);
    var media, offset, buffer := device.media, start, Zeros(blockSize);
    ghost var k: nat := 0;
    while offset < |media|
      invariant start <= offset && |buffer| == blockSize && device.media == media
      invariant offset == start ==> buffer == Zeros(blockSize) && k == 0
      invariant start < offset < |media| ==> start + blockSize <= offset && buffer == media[offset - blockSize..offset]
      invariant offset < |media| ==> offset == start + 512 * k
      invariant start < |media| <= offset ==> start + 512 * k == |padded|
      invariant forall j :: 0 <= j < k ==> NothingAt(formats, padded, start, j)
    {
      var bytesToRead := CalcBlockSize(offset, |media|, blockSize);
      BlockPadded(media, start, blockSize, offset, bytesToRead, buffer);
      var header;
      buffer, header := SearchBlock(device, formats, offset, bytesToRead, buffer, start, k, padded);
      if header.Some? {
        return Some((offset + header.value.0, header.value.1));
      }
      k := k + SectorsUp(bytesToRead) / 512;
      offset := offset + bytesToRead;
    }
    SearchEnds(formats, padded, start, k);
    r := None;
  }

  /** One block: read over the old one, and searched. */
  method SearchBlock(device: File, formats: seq<FileStruct>, offset: nat, count: nat, buffer: seq<byte>,
                     ghost start: nat, ghost k: nat, ghost padded: seq<byte>)
    returns (block: seq<byte>, header: Option<(nat, nat)>)
    requires device.Ready() && AllInSector(formats) && |buffer| % SECTOR_SIZE == 0 && offset == start + 512 * k
    requires 0 < count <= |buffer| && SectorsUp(count) <= |buffer| && offset + count <= |device.media|
    requires offset + SectorsUp(count) <= |padded|
    requires (device.media[offset..offset + count] + buffer[count..])[..SectorsUp(count)] == padded[offset..offset + SectorsUp(count)]
    requires forall j :: 0 <= j < k ==> NothingAt(formats, padded, start, j)
    modifies device`position
    ensures block == device.media[offset..offset + count] + buffer[count..]
    ensures header.Some? ==> LinearSearch(formats, padded, start, Some((offset + header.value.0, header.value.1)))
    ensures header.None? ==> forall j :: 0 <= j < k + SectorsUp(count) / 512 ==> NothingAt(formats, padded, start, j)
  {
    hide FirstFormat, NoFormat, SectorsUp, LinearSearch;
    device.SetPosition(offset);
    var read := device.ReadData(count);
    block := read.value + buffer[count..];
    header := CmpHeader(formats, block, count);
    ghost var limit := if header.Some? then header.value.0 else SectorsUp(count);
    BlockIsMedia(formats, padded, start, k, block, SectorsUp(count), limit);
    if header.Some? {
      SearchFinds(formats, padded, start, k + limit / 512, (offset + header.value.0, header.value.1));
    }
  }

  lemma SearchFinds(formats: seq<FileStruct>, media: seq<byte>, start: nat, k: nat, found: (nat, nat))
    requires AllInSector(formats) && FoundAt(formats, media, start, k, found)
    ensures LinearSearch(formats, media, start, Some(found))
  {
  }

  lemma SearchEnds(formats: seq<FileStruct>, media: seq<byte>, start: nat, k: nat)
    requires AllInSector(formats) && start + 512 * k >= |media| && forall j :: 0 <= j < k ==> NothingAt(formats, media, start, j)
    ensures LinearSearch(formats, media, start, None)
  {
  }

  /** With a partial last sector, the result is that of a linear search over the
      whole sectors exactly unless it is that last one. */
  lemma PartialSector(formats: seq<FileStruct>, media: seq<byte>, start: nat, blockSize: nat, r: Option<(nat, nat)>)
    requires AllInSector(formats) && blockSize > 0 && blockSize % SECTOR_SIZE == 0 && start < |media|
    requires LinearSearch(formats, Padded(media, start, blockSize), start, r)
    ensures var whole := start + (|media| - start) / 512 * 512;
      LinearSearch(formats, media[..whole], start, r) <==> !(r.Some? && r.value.0 == whole)
  {
    var n := (|media| - start) / 512;
    var padded, whole := Padded(media, start, blockSize), media[..start + n * 512];
    hide Padded, FirstFormat, NoFormat, NothingAt, SectorsUp;
    if r.Some? {
      var k: nat :| FoundAt(formats, padded, start, k, r.value);
      FoundInWhole(formats, media, start, blockSize, k, r.value);
    } else {
      NothingInWhole(formats, media, start, blockSize);
    }
  }

  lemma NothingInWhole(formats: seq<FileStruct>, media: seq<byte>, start: nat, blockSize: nat)
    requires AllInSector(formats) && blockSize > 0 && blockSize % SECTOR_SIZE == 0 && start < |media|
    requires LinearSearch(formats, Padded(media, start, blockSize), start, None)
    ensures LinearSearch(formats, media[..start + (|media| - start) / 512 * 512], start, None)
  {
    var n := (|media| - start) / 512;
    var padded, whole := Padded(media, start, blockSize), media[..start + n * 512];
    hide Padded, FirstFormat, NoFormat, NothingAt, SectorsUp;
    forall k: nat | start + 512 * k < |whole|
      ensures NothingAt(formats, whole, start, k)
    {
      SectorKept(media, start, blockSize, k);
      assert NothingAt(formats, padded, start, k);
      NothingInBoth(formats, padded, whole, start, k);
    }
  }

  lemma FoundInWhole(formats: seq<FileStruct>, media: seq<byte>, start: nat, blockSize: nat, k: nat, found: (nat, nat))
    requires AllInSector(formats) && blockSize > 0 && blockSize % SECTOR_SIZE == 0 && start < |media|
    requires FoundAt(formats, Padded(media, start, blockSize), start, k, found)
    ensures var n := (|media| - start) / 512;
      && (found.0 == start + n * 512 <==> k >= n)
      && (LinearSearch(formats, media[..start + n * 512], start, Some(found)) <==> k < n)
  {
    var n := (|media| - start) / 512;
    var padded, whole := Padded(media, start, blockSize), media[..start + n * 512];
    LastSector(media, start, blockSize, k);
    hide Padded, FirstFormat, NoFormat, NothingAt, SectorsUp, LinearSearch;
    if k < n {
      forall j | 0 <= j <= k
        ensures SectorsEqual(padded, whole, start, j)
      {
        SectorKept(media, start, blockSize, j);
      }
      FoundInBoth(formats, padded, whole, start, k, found);
      SearchFinds(formats, whole, start, k, found);
    } else {
      NotOnMedia(formats, whole, start, found);
    }
  }

  /** Sector `k` lies on both media and is the same. */
  predicate SectorsEqual(a: seq<byte>, b: seq<byte>, start: nat, k: nat) {
    var at := start + 512 * k;
    at + SECTOR_SIZE <= |a| && at + SECTOR_SIZE <= |b| && a[at..at + SECTOR_SIZE] == b[at..at + SECTOR_SIZE]
  }

  lemma FoundInBoth(formats: seq<FileStruct>, a: seq<byte>, b: seq<byte>, start: nat, k: nat, found: (nat, nat))
    requires AllInSector(formats) && FoundAt(formats, a, start, k, found)
    requires forall j :: 0 <= j <= k ==> SectorsEqual(a, b, start, j)
    ensures FoundAt(formats, b, start, k, found)
  {
    hide FirstFormat, NoFormat;
    forall j | 0 <= j < k
      ensures NothingAt(formats, b, start, j)
    {
      assert SectorsEqual(a, b, start, j) && NothingAt(formats, a, start, j);
      SameSector(formats, a, start + 512 * j, b, start + 512 * j);
    }
    assert SectorsEqual(a, b, start, k);
    SameSector(formats, a, start + 512 * k, b, start + 512 * k);
  }

  lemma NotOnMedia(formats: seq<FileStruct>, media: seq<byte>, start: nat, found: (nat, nat))
    requires AllInSector(formats) && found.0 + SECTOR_SIZE > |media|
    ensures !LinearSearch(formats, media, start, Some(found))
  {
  }

  lemma LastSector(media: seq<byte>, start: nat, blockSize: nat, k: nat)
    requires blockSize > 0 && blockSize % SECTOR_SIZE == 0 && start < |media|
    requires start + 512 * k + SECTOR_SIZE <= |Padded(media, start, blockSize)|
    ensures k <= (|media| - start) / 512
  {
  }

  lemma NothingInBoth(formats: seq<FileStruct>, a: seq<byte>, b: seq<byte>, start: nat, k: nat)
    requires AllInSector(formats) && SectorsEqual(a, b, start, k) && NothingAt(formats, a, start, k)
    ensures NothingAt(formats, b, start, k)
  {
    hide FirstFormat, NoFormat;
    SameSector(formats, a, start + 512 * k, b, start + 512 * k);
  }

  lemma SectorKept(media: seq<byte>, start: nat, blockSize: nat, k: nat)
    requires blockSize > 0 && blockSize % SECTOR_SIZE == 0 && start < |media| && k < (|media| - start) / 512
    ensures SectorsEqual(Padded(media, start, blockSize), media[..start + (|media| - start) / 512 * 512], start, k)
  {
    var padded, whole, at := Padded(media, start, blockSize), media[..start + (|media| - start) / 512 * 512], start + 512 * k;
    hide Padded;
    assert padded[at..at + SECTOR_SIZE] == padded[..|media|][at..at + SECTOR_SIZE] == whole[at..at + SECTOR_SIZE];
  }
}
