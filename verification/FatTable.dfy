/** The FAT32 allocation table: a cache filled sector by sector on demand,
    whose entries are masked to 28 bits in place when they are looked up. */
module FatTable {
  import opened Arithmetic
  import opened Bytes

  const BAD_CLUSTER: nat := 0x0FFFFFF7
  const END_CLUSTER: nat := 0x0FFFFFFF

  /** The table on the disk: `fat` holds the device from the first table sector
      on, `unreadable` the table sectors that the reader fails on. */
  datatype FatArea = FatArea(fat: seq<byte>, unreadable: set<nat>, bytesPerSector: nat, sectors: nat) {

    ghost predicate Valid() {
      bytesPerSector > 0 && bytesPerSector % 4 == 0 && sectors * bytesPerSector < TWO_32
    }

    predicate Readable(sector: nat) {
      sector !in unreadable && (sector + 1) * bytesPerSector <= |fat|
    }

    /** Byte address of a cluster's entry, as 32-bit arithmetic gives it. */
    function Cell(cluster: nat): (r: nat)
      ensures r % 4 == 0 && r < TWO_32
    {
      U32(cluster * 4)
    }

    function SectorOf(cluster: nat): (r: nat)
      requires bytesPerSector > 0
    {
      Div(Cell(cluster), bytesPerSector)
    }

    /** The cluster's entry lies in the table, in a sector that can be read. */
    predicate Present(cluster: nat) {
      && bytesPerSector > 0 && Cell(cluster) + 4 <= |fat|
      && SectorOf(cluster) < sectors && Readable(SectorOf(cluster))
    }

    /** A readable sector holds its entries whole. */
    lemma EntryInside(cluster: nat)
      requires Valid() && Readable(SectorOf(cluster))
      ensures Cell(cluster) + 4 <= |fat|
    {
      hide Cell;
      CellInSector(Cell(cluster), bytesPerSector, SectorOf(cluster));
    }

    /** Looking up this cluster makes the reader throw: its entry's sector is
        one of the table's, and cannot be read. */
    predicate Throws(cluster: nat) {
      bytesPerSector > 0 && SectorOf(cluster) < sectors && !Readable(SectorOf(cluster))
    }

    /** The 28-bit entry on the disk; a cluster outside the table counts as bad,
        and nothing follows one whose lookup throws. */
    function Next(cluster: nat): (r: nat)
      ensures r < 0x1000_0000
    {
      if Present(cluster) then Masked(fat, Cell(cluster)) else BAD_CLUSTER
    }
  }

  /** The entry of a cluster, four bytes for each, lowest byte first, of which
      28 bits count; one behind the table's last sector is the bad mark, and one
      in a sector that cannot be read makes the reader throw. */
  lemma NextBack(area: FatArea, cluster: nat, value: nat)
    requires area.bytesPerSector > 0 && cluster < 0x4000_0000
    ensures cluster * 4 / area.bytesPerSector >= area.sectors ==> area.Next(cluster) == 0x0FFFFFF7 && !area.Throws(cluster)
    ensures cluster * 4 / area.bytesPerSector < area.sectors ==>
      var sector := cluster * 4 / area.bytesPerSector;
      area.Throws(cluster) <==> (sector in area.unreadable || (sector + 1) * area.bytesPerSector > |area.fat|)
    ensures cluster * 4 / area.bytesPerSector < area.sectors && !area.Throws(cluster) &&
        value < 0x1_0000_0000 && cluster * 4 + 4 <= |area.fat| && area.fat[cluster * 4..cluster * 4 + 4] == LittleEndian(value, 4)
      ==> area.Next(cluster) == value % 0x1000_0000
  {
    assert area.Cell(cluster) == cluster * 4 && area.SectorOf(cluster) == cluster * 4 / area.bytesPerSector;
    hide FatArea.Cell, FatArea.SectorOf, LittleEndian, DWord;
    if value < 0x1_0000_0000 && cluster * 4 + 4 <= |area.fat| && area.fat[cluster * 4..cluster * 4 + 4] == LittleEndian(value, 4) {
      DWordBack(area.fat, cluster * 4, value);
    }
  }

  function Masked(fat: seq<byte>, at: nat): (r: nat)
    requires at + 4 <= |fat|
    ensures r < 0x1000_0000
  {
    DWord(fat, at) % 0x1000_0000
  }

  lemma CellInSector(cell: nat, size: nat, sector: nat)
    requires cell % 4 == 0 && size > 0 && size % 4 == 0 && sector == cell / size
    ensures sector * size <= cell && cell + 4 <= (sector + 1) * size
  {
    var r := cell % size;
    assert cell == sector * size + r;
    var q := size / 4;
    assert size == 4 * q;
    assert sector * size == 4 * (sector * q) by {
      assert sector * (4 * q) == 4 * (sector * q);
    }
    assert r % 4 == 0 && r <= size - 4;
    assert (sector + 1) * size == sector * size + size;
  }

  lemma SectorsApart(s: nat, t: nat, size: nat)
    requires s != t
    ensures (s + 1) * size <= t * size || (t + 1) * size <= s * size
  {
    if s < t {
      MulMonotone(s + 1, t, size);
    } else {
      MulMonotone(t + 1, s, size);
    }
  }

  // ---------- the cache

  /** A cached byte is the disk byte, except that the top nibble of an entry may have been cleared. */
  predicate Clean(cached: byte, onDisk: byte, at: nat) {
    cached == onDisk || (at % 4 == 3 && cached == onDisk % 16)
  }

  /** Every loaded sector was readable and is clean. */
  ghost predicate Cached(area: FatArea, table: seq<byte>, loaded: seq<bool>) {
    && |loaded| == area.sectors && |table| == area.sectors * area.bytesPerSector
    && forall s :: 0 <= s < |loaded| && loaded[s] ==> SectorClean(area, table, s)
  }

  ghost predicate SectorClean(area: FatArea, table: seq<byte>, s: nat) {
    && area.Readable(s) && (s + 1) * area.bytesPerSector <= |table|
    && forall j :: s * area.bytesPerSector <= j < (s + 1) * area.bytesPerSector ==> Clean(table[j], area.fat[j], j)
  }

  /** Loading sector `s` keeps the cache clean. */
  lemma LoadSector(area: FatArea, table: seq<byte>, loaded: seq<bool>, s: nat, table': seq<byte>)
    requires Cached(area, table, loaded) && s < area.sectors && area.Readable(s)
    requires |table'| == |table| && (s + 1) * area.bytesPerSector <= |table|
    requires forall j :: 0 <= j < |table| ==>
      table'[j] == if s * area.bytesPerSector <= j < (s + 1) * area.bytesPerSector then area.fat[j] else table[j]
    ensures Cached(area, table', loaded[s := true])
  {
    assert SectorClean(area, table', s);
    hide Clean, SectorClean, FatArea.Readable;
    forall t | 0 <= t < |loaded| && loaded[s := true][t]
      ensures SectorClean(area, table', t)
    {
      if t != s {
        OtherSector(area, table, s, t, table');
      }
    }
  }

  lemma OtherSector(area: FatArea, table: seq<byte>, s: nat, t: nat, table': seq<byte>)
    requires SectorClean(area, table, t) && s != t && |table'| == |table|
    requires forall j :: 0 <= j < |table| && !(s * area.bytesPerSector <= j < (s + 1) * area.bytesPerSector) ==> table'[j] == table[j]
    ensures SectorClean(area, table', t)
  {
    hide Clean;
    SectorsApart(s, t, area.bytesPerSector);
  }

  /** Masking an entry in place keeps the cache clean. */
  lemma MaskCell(area: FatArea, table: seq<byte>, loaded: seq<bool>, cell: nat)
    requires Cached(area, table, loaded) && cell % 4 == 0 && cell + 4 <= |table|
    ensures Cached(area, table[cell + 3 := table[cell + 3] % 16], loaded)
  {
    var table' := table[cell + 3 := table[cell + 3] % 16];
    forall t | 0 <= t < |loaded| && loaded[t]
      ensures SectorClean(area, table', t)
    {
      assert SectorClean(area, table, t);
    }
  }

  lemma LoadedClean(area: FatArea, table: seq<byte>, loaded: seq<bool>, s: nat)
    requires Cached(area, table, loaded) && s < |loaded| && loaded[s]
    ensures SectorClean(area, table, s) && area.Readable(s)
    ensures (s + 1) * area.bytesPerSector <= |table|
  {
  }

  /** The masked value of a clean entry does not depend on what was masked before. */
  lemma CleanEntry(area: FatArea, table: seq<byte>, cell: nat, s: nat)
    requires SectorClean(area, table, s) && cell % 4 == 0
    requires s * area.bytesPerSector <= cell && cell + 4 <= (s + 1) * area.bytesPerSector
    ensures Masked(table, cell) == Masked(area.fat, cell)
    ensures DWord(table[cell + 3 := table[cell + 3] % 16], cell) == Masked(table, cell)
  {
    assert Clean(table[cell], area.fat[cell], cell) && Clean(table[cell + 1], area.fat[cell + 1], cell + 1);
    assert Clean(table[cell + 2], area.fat[cell + 2], cell + 2) && Clean(table[cell + 3], area.fat[cell + 3], cell + 3);
    MaskByte(table, cell);
    MaskByte(area.fat, cell);
  }

  lemma MaskByte(b: seq<byte>, at: nat)
    requires at + 4 <= |b|
    ensures Masked(b, at) == b[at] as int + 0x100 * b[at + 1] as int + 0x1_0000 * b[at + 2] as int + 0x100_0000 * (b[at + 3] as int % 16)
  {
  }

  class FatTable {
    const area: FatArea
    const fatTable: array<byte>
    const sectorArray: array<bool>

    ghost predicate Valid()
      reads this, fatTable, sectorArray
    {
      area.Valid() && Cached(area, fatTable[..], sectorArray[..])
    }

    constructor (area: FatArea)
      requires area.Valid()
      ensures this.area == area && Valid() && fresh(fatTable) && fresh(sectorArray)
    {
      this.area := area;
      fatTable := new byte[area.sectors * area.bytesPerSector];
      sectorArray := new bool[area.sectors](_ => false);
    }

    /** Whatever was looked up before, the result is the entry on the disk; None when the reader throws. */
    method NextCluster(cluster: nat) returns (next: Option<nat>)
      requires Valid()
      modifies fatTable, sectorArray
      ensures Valid()
      ensures next == if area.Throws(cluster) then None else Some(area.Next(cluster))
    {
      assert sectorArray.Length == area.sectors && fatTable.Length == area.sectors * area.bytesPerSector;
      hide Cached, SectorClean, Masked, FatArea.Readable, DWord, FatArea.Cell;
      var cell := area.Cell(cluster);
      var sector := Div(cell, area.bytesPerSector);
      if sector >= sectorArray.Length {
        return Some(BAD_CLUSTER);
      }
      CellInSector(cell, area.bytesPerSector, sector);
      if area.Readable(sector) {
        area.EntryInside(cluster);
      }
      MulMonotone(sector + 1, area.sectors, area.bytesPerSector);
      if !sectorArray[sector] {
        var ok := ReadSector(sector);
        if !ok {
          return None;
        }
        sectorArray[sector] := true;
      }
      LoadedClean(area, fatTable[..], sectorArray[..], sector);
      CleanEntry(area, fatTable[..], cell, sector);
      MaskCell(area, fatTable[..], sectorArray[..], cell);
      ghost var masked := fatTable[..][cell + 3 := fatTable[cell + 3] % 16];
      fatTable[cell + 3] := fatTable[cell + 3] % 16;
      assert fatTable[..] == masked;
      next := Some(DWord(fatTable[..], cell));
    }

    /** `ok` is false when the reader throws. */
    method ReadSector(sector: nat) returns (ok: bool)
      requires Valid() && sector < area.sectors && (sector + 1) * area.bytesPerSector <= fatTable.Length
      modifies fatTable
      ensures ok <==> area.Readable(sector)
      ensures ok ==> Cached(area, fatTable[..], sectorArray[..][sector := true])
      ensures !ok ==> Valid()
    {
      ok := area.Readable(sector);
      if ok {
        ghost var before := fatTable[..];
        var from := sector * area.bytesPerSector;
        forall j | from <= j < (sector + 1) * area.bytesPerSector {
          fatTable[j] := area.fat[j];
        }
        LoadSector(area, before, sectorArray[..], sector, fatTable[..]);
      }
    }
  }
}
