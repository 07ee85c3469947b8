/** Names of a FAT32 directory: long names are assembled from the 13-unit
    pieces stored, last piece first, in front of a short entry. */
module FatDirectory {
  import opened Bytes

  const ENTRY_SIZE: nat := 32
  const ATTR_LONG_NAME: nat := 0x0F
  const DELETED: nat := 0xE5

  type Units = seq<nat>

  predicate IsEntry(e: seq<byte>) {
    |e| == ENTRY_SIZE
  }

  type Entry = e: seq<byte> | IsEntry(e) witness Zeros(32)

  function Attr(e: Entry): nat { e[11] }

  /** The three name fields of a long entry, joined. */
  function Pieces(e: Entry): (r: Units)
    ensures |r| == 13
  {
    [Word(e, 1), Word(e, 3), Word(e, 5), Word(e, 7), Word(e, 9),
     Word(e, 14), Word(e, 16), Word(e, 18), Word(e, 20), Word(e, 22), Word(e, 24),
     Word(e, 28), Word(e, 30)]
  }

  /** What a C string built from these units keeps. */
  function UpToNul(units: Units): (r: Units)
    ensures r <= units && 0 !in r
    ensures |r| < |units| ==> units[|r|] == 0
  {
    if units == [] || units[0] == 0 then [] else [units[0]] + UpToNul(units[1..])
  }

  function AppendString(current: Units, e: Entry): (r: Units) {
    UpToNul(Pieces(e)) + current
  }

  /** The thirteen units of a long entry lie at bytes 1-10, 14-25 and 28-31. */
  predicate HoldsUnits(e: Entry, units: Units)
    requires |units| == 13
  {
    && (forall i :: 0 <= i < 5 ==> units[i] == e[1 + 2 * i] as int + 256 * e[2 + 2 * i] as int)
    && (forall i :: 0 <= i < 6 ==> units[5 + i] == e[14 + 2 * i] as int + 256 * e[15 + 2 * i] as int)
    && (forall i :: 0 <= i < 2 ==> units[11 + i] == e[28 + 2 * i] as int + 256 * e[29 + 2 * i] as int)
  }

  lemma PiecesHeld(e: Entry, units: Units)
    requires |units| == 13
    ensures Pieces(e) == units <==> HoldsUnits(e, units)
  {
    var r := Pieces(e);
    forall i | 0 <= i < 13
      ensures r[i] == var at := if i < 5 then 1 + 2 * i else if i < 11 then 4 + 2 * i else 6 + 2 * i;
        e[at] as int + 256 * e[at + 1] as int
    {
    }
    if HoldsUnits(e, units) {
      forall i | 0 <= i < 13
        ensures r[i] == units[i]
      {
        if 5 <= i < 11 {
          assert units[5 + (i - 5)] == e[14 + 2 * (i - 5)] as int + 256 * e[15 + 2 * (i - 5)] as int;
        } else if 11 <= i {
          assert units[11 + (i - 11)] == e[28 + 2 * (i - 11)] as int + 256 * e[29 + 2 * (i - 11)] as int;
        }
      }
    }
  }

  /** `order_number ^ 0x40`: that bit is flipped, and no other. */
  function CountOf(order: nat): (r: nat)
    ensures r % 64 == order % 64 && r / 128 == order / 128 && r / 64 % 2 != order / 64 % 2
  {
    if order / 64 % 2 == 1 then order - 64 else order + 64
  }

  // ---------- a directory as FAT32 stores it

  function PieceCount(name: Units): (r: nat) {
    (|name| + 12) / 13
  }

  /** Piece `p` of a name: its units, then one NUL if the name ends inside the piece, then 0xFFFF. */
  function PieceOf(name: Units, p: nat): (r: Units)
    ensures |r| == 13
  {
    seq(13, i requires 0 <= i < 13 =>
      var at := 13 * p + i;
      if at < |name| then name[at] else if at == |name| then 0 else 0xFFFF)
  }

  /** The entries carry the name in descending pieces, the first one marked as
      the last piece, and a short entry follows. Other fields are free. */
  ghost predicate Stores(entries: seq<Entry>, name: Units) {
    var k := PieceCount(name);
    && 1 <= k < 64 && |entries| == k + 1
    && (forall j :: 0 <= j < k ==>
        && entries[j][0] == (if j == 0 then 0x40 + k else k - j)
        && entries[j][11] == 0x0F && HoldsUnits(entries[j], PieceOf(name, k - 1 - j)))
    && entries[k][11] != 0x0F
  }

  // ---------- the long-name loop

  /** The name assembled from the entries at `i`, of which up to `left` more may
      belong to it, and the place of the entry that ends it; None when the
      entries run past the end of the directory. */
  function Assemble(entries: seq<Entry>, i: nat, left: nat, name: Units): (r: Option<(Units, nat)>)
    ensures r.Some? ==> i <= r.value.1 < |entries|
    decreases left
  {
    if i >= |entries| then None
    else if left == 0 || Attr(entries[i]) != ATTR_LONG_NAME then Some((name, i))
    else Assemble(entries, i + 1, left - 1, AppendString(name, entries[i]))
  }

  function LongName(entries: seq<Entry>, i: nat): (r: Option<(Units, nat)>)
    requires i < |entries|
    ensures r.Some? ==> i < r.value.1 < |entries|
  {
    var count := CountOf(entries[i][0]);
    Assemble(entries, i + 1, if count > 0 then count - 1 else 0, AppendString([], entries[i]))
  }

  method ReadLongName(entries: seq<Entry>, i: nat) returns (r: Option<(Units, nat)>)
    requires i < |entries|
    ensures r == LongName(entries, i)
  {
    var name := AppendString([], entries[i]);
    var countEntries := CountOf(entries[i][0]);
    var current, iEntry := i + 1, 1;
    while iEntry < countEntries
      invariant i < current
      invariant 1 <= iEntry && (iEntry <= countEntries || iEntry == 1)
      invariant LongName(entries, i) ==
        Assemble(entries, current, if countEntries > iEntry then countEntries - iEntry else 0, name)
    {
      if current >= |entries| {
        return None;
      }
      if Attr(entries[current]) != ATTR_LONG_NAME {
        break;
      }
      name := AppendString(name, entries[current]);
      current, iEntry := current + 1, iEntry + 1;
    }
    r := if current >= |entries| then None else Some((name, current));
  }

  /** The texts of the long entries from `i` on, at most `left` of them, the
      last one first; the entry behind them is another one, if `left` allows more. */
  ghost predicate TextsFrom(entries: seq<Entry>, i: nat, left: nat, texts: seq<Units>) {
    var k := |texts|;
    && k <= left && (k > 0 ==> i + k <= |entries|) && (forall j :: i <= j < i + k ==> entries[j][11] == 0x0F)
    && (k < left && i + k < |entries| ==> entries[i + k][11] != 0x0F)
    && forall j :: 0 <= j < k ==> texts[j] == UpToNul(Pieces(entries[i + k - 1 - j]))
  }

  /** Of any directory the loop takes the long entries that follow, and puts the
      text of each in front of the earlier ones. The entry behind them ends the
      name, whatever it is. */
  lemma {:induction false} LoopTakes(entries: seq<Entry>, i: nat, left: nat, name: Units) returns (texts: seq<Units>)
    ensures TextsFrom(entries, i, left, texts)
    ensures Assemble(entries, i, left, name) ==
      if i + |texts| < |entries| then Some((Concat(texts) + name, i + |texts|)) else None
    decreases left
  {
    hide Pieces, UpToNul, Concat;
    if i >= |entries| || left == 0 || entries[i][11] != 0x0F {
      texts := [];
      assert Concat<nat>([]) + name == name by {
        NoTexts();
      }
    } else {
      var mine := UpToNul(Pieces(entries[i]));
      var later := LoopTakes(entries, i + 1, left - 1, AppendString(name, entries[i]));
      texts := later + [mine];
      ConcatSnoc(later, mine);
      InFront(Concat(later), mine, name);
      hide Assemble;
      assert forall j :: 0 <= j < |texts| ==> texts[j] == if j < |later| then later[j] else mine;
    }
  }

  /** A long name begins with its first entry, whose order number with bit 6
      flipped says how many there may be. */
  lemma LongNameTakes(entries: seq<Entry>, i: nat) returns (texts: seq<Units>)
    requires i < |entries|
    ensures var count := CountOf(entries[i][0]);
      TextsFrom(entries, i + 1, if count > 0 then count - 1 else 0, texts)
    ensures LongName(entries, i) ==
      if i + 1 + |texts| < |entries| then Some((Concat(texts) + UpToNul(Pieces(entries[i])), i + 1 + |texts|)) else None
  {
    var count := CountOf(entries[i][0]);
    LongNameIs(entries, i);
    hide *;
    texts := LoopTakes(entries, i + 1, if count > 0 then count - 1 else 0, AppendString([], entries[i]));
  }

  lemma LongNameIs(entries: seq<Entry>, i: nat)
    requires i < |entries|
    ensures var count := CountOf(entries[i][0]);
      LongName(entries, i) == Assemble(entries, i + 1, if count > 0 then count - 1 else 0, AppendString([], entries[i]))
    ensures AppendString([], entries[i]) == UpToNul(Pieces(entries[i]))
  {
    hide Assemble, CountOf, Pieces, UpToNul;
  }

  lemma NoTexts()
    ensures Concat<nat>([]) == []
  {
  }

  lemma InFront(a: Units, b: Units, c: Units)
    ensures a + (b + c) == a + b + c
  {
  }

  // ---------- round trip

  predicate NulFree(units: Units) {
    0 !in units
  }

  lemma {:induction false} UpToNulOf(units: Units, n: nat)
    requires n <= |units| && NulFree(units[..n]) && (n < |units| ==> units[n] == 0)
    ensures UpToNul(units) == units[..n]
  {
    if n > 0 {
      assert units[1..][..n - 1] == units[..n][1..];
      UpToNulOf(units[1..], n - 1);
    }
  }

  /** The name units that piece `p` holds, and the ones from it on. */
  function InPiece(name: Units, p: nat): (r: Units)
    requires 13 * p <= |name|
  {
    if |name| <= 13 * p + 13 then name[13 * p..] else name[13 * p..13 * p + 13]
  }

  /** A piece gives back its units exactly when none of them is NUL; otherwise it gives fewer. */
  lemma PieceBack(name: Units, p: nat)
    requires 13 * p <= |name|
    ensures NulFree(InPiece(name, p)) ==> UpToNul(PieceOf(name, p)) == InPiece(name, p)
    ensures !NulFree(InPiece(name, p)) ==> |UpToNul(PieceOf(name, p))| < |InPiece(name, p)|
    ensures |UpToNul(PieceOf(name, p))| <= |InPiece(name, p)|
  {
    var piece, mine := PieceOf(name, p), InPiece(name, p);
    var n := |mine|;
    assert piece[..n] == mine;
    if NulFree(mine) {
      UpToNulOf(piece, n);
    } else {
      var i :| 0 <= i < n && mine[i] == 0;
      UpToNulStops(piece, i);
    }
  }

  lemma {:induction false} UpToNulStops(units: Units, i: nat)
    requires i < |units| && units[i] == 0
    ensures |UpToNul(units)| <= i
  {
    if i > 0 {
      UpToNulStops(units[1..], i - 1);
    }
  }

  /** `tail` is what assembling the pieces from `p` on must have given. */
  predicate Assembled(name: Units, p: nat, tail: Units) {
    && 13 * p <= |name| && |tail| <= |name| - 13 * p
    && (if NulFree(name[13 * p..]) then tail == name[13 * p..] else |tail| < |name| - 13 * p)
  }

  lemma FirstPiece(name: Units)
    requires name != []
    ensures Assembled(name, PieceCount(name) - 1, UpToNul(PieceOf(name, PieceCount(name) - 1)))
  {
    PieceBack(name, PieceCount(name) - 1);
  }

  lemma EarlierPiece(name: Units, p: nat, tail: Units)
    requires Assembled(name, p + 1, tail)
    ensures Assembled(name, p, UpToNul(PieceOf(name, p)) + tail)
  {
    PieceBack(name, p);
    SplitAtPiece(name, p);
    hide PieceOf, UpToNul, InPiece, NulFree;
  }

  lemma SplitAtPiece(name: Units, p: nat)
    requires 13 * (p + 1) <= |name|
    ensures name[13 * p..] == InPiece(name, p) + name[13 * (p + 1)..] && |InPiece(name, p)| == 13
    ensures NulFree(name[13 * p..]) <==> NulFree(InPiece(name, p)) && NulFree(name[13 * (p + 1)..])
  {
    assert name[13 * p..] == InPiece(name, p) + name[13 * (p + 1)..];
  }

  lemma StoredAt(stored: seq<Entry>, name: Units, j: nat)
    requires Stores(stored, name) && j <= PieceCount(name)
    ensures |stored| == PieceCount(name) + 1 && name != []
    ensures Attr(stored[j]) == ATTR_LONG_NAME <==> j < PieceCount(name)
    ensures j < PieceCount(name) ==> Pieces(stored[j]) == PieceOf(name, PieceCount(name) - 1 - j)
    ensures CountOf(stored[0][0]) == PieceCount(name)
  {
    if j < PieceCount(name) {
      PiecesHeld(stored[j], PieceOf(name, PieceCount(name) - 1 - j));
    }
    hide HoldsUnits, Pieces, PieceOf;
  }

  /** The rest of the assembly, once the pieces from `p` on gave `tail`. */
  lemma {:induction false} AssembleStored(entries: seq<Entry>, from: nat, stored: seq<Entry>, name: Units, p: nat, tail: Units)
    requires Stores(stored, name) && p < PieceCount(name)
    requires from + |stored| <= |entries| && entries[from..from + |stored|] == stored
    requires Assembled(name, p, tail)
    ensures from + PieceCount(name) < |entries|
    ensures var r := Assemble(entries, from + PieceCount(name) - p, p, tail);
      r.Some? && r.value.1 == from + PieceCount(name) && Assembled(name, 0, r.value.0)
    decreases p
  {
    hide PieceCount, PieceOf, Pieces, UpToNul, Stores, Assembled, Attr;
    var k := PieceCount(name);
    var at := from + (k - p);
    StoredAt(stored, name, k - p);
    assert entries[at] == entries[from..from + |stored|][k - p];
    if p > 0 {
      EarlierPiece(name, p - 1, tail);
      AssembleStored(entries, from, stored, name, p - 1, AppendString(tail, entries[at]));
    }
  }

  /** Wherever a directory stores a name, the loop stops on its short entry, and
      it rebuilds the name exactly when the name has no NUL in it. */
  lemma NameBack(entries: seq<Entry>, from: nat, stored: seq<Entry>, name: Units)
    requires Stores(stored, name)
    requires from + |stored| <= |entries| && entries[from..from + |stored|] == stored
    ensures var r := LongName(entries, from);
      r.Some? && r.value.1 == from + PieceCount(name) && (r.value.0 == name <==> NulFree(name))
  {
    hide PieceOf, Pieces, UpToNul, Stores, Attr, CountOf, Assemble;
    StoredAt(stored, name, 0);
    assert entries[from] == entries[from..from + |stored|][0];
    FirstPiece(name);
    var last := UpToNul(PieceOf(name, PieceCount(name) - 1));
    assert AppendString([], entries[from]) == last + [] == last;
    AssembleStored(entries, from, stored, name, PieceCount(name) - 1, last);
    assert name[0..] == name;
  }

  // ---------- the whole directory

  /** A long name in 16-bit units, or an 8.3 name in bytes of its code page. */
  datatype Name = Wide(units: Units) | Narrow(chars: Units)

  /** What `addEntry` adds to the folder. */
  datatype Node = FolderNode(name: Name, cluster: nat) | FileNode(name: Name, size: nat, cluster: nat)

  const ATTR_DIRECTORY: nat := 0x10
  const ATTR_ARCHIVE: nat := 0x20
  /** Read-only, hidden and system together. */
  const ATTR_FILE: nat := 0x07

  /** `toDWORD` of the two halves of the first cluster's number. */
  function ClusterOf(e: Entry): (r: nat)
    ensures r < TWO_32
  {
    0x1_0000 * Word(e, 20) + Word(e, 26)
  }

  /** `addEntry`; only entries with one of four attribute bytes become a node. */
  function AddEntry(name: Name, e: Entry): (r: seq<Node>) {
    if Attr(e) == ATTR_DIRECTORY then [FolderNode(name, ClusterOf(e))]
    else if Attr(e) == ATTR_FILE || Attr(e) == ATTR_ARCHIVE || Attr(e) == 0 then [FileNode(name, DWord(e, 28), ClusterOf(e))]
    else []
  }

  function UpToSpace(chars: Units): (r: Units)
    ensures r <= chars && 0x20 !in r
    ensures |r| < |chars| ==> chars[|r|] == 0x20
  {
    if chars == [] || chars[0] == 0x20 then [] else [chars[0]] + UpToSpace(chars[1..])
  }

  function Lower(c: nat): (r: nat) {
    if 0x41 <= c <= 0x5A then c + 0x20 else c
  }

  /** The 8.3 name: blanks end either part, a dot is put only before an
      extension, and the node's constructor takes what precedes a NUL. */
  function ShortName(e: Entry): (r: Units) {
    var base, ext := UpToSpace(e[..8]), UpToSpace(e[8..11]);
    var joined := if ext != [] then base + [0x2E] + ext else base;
    UpToNul(seq(|joined|, i requires 0 <= i < |joined| => Lower(joined[i])))
  }

  /** The 8.3 name: both parts up to their first blank, a dot between them only
      if there is an extension, in lower case, up to the first NUL. */
  lemma ShortNameBack(e: Entry, base: seq<byte>, ext: seq<byte>)
    requires base <= e[..8] && 0x20 !in base && (|base| < 8 ==> e[|base|] == 0x20)
    requires ext <= e[8..11] && 0x20 !in ext && (|ext| < 3 ==> e[8 + |ext|] == 0x20)
    ensures var joined := if ext == [] then base else base + [0x2E] + ext;
      && |ShortName(e)| <= |joined| && 0 !in ShortName(e)
      && (forall i :: 0 <= i < |ShortName(e)| ==>
          ShortName(e)[i] == if 0x41 <= joined[i] <= 0x5A then joined[i] as int + 0x20 else joined[i] as int)
      && (|ShortName(e)| < |joined| ==> joined[|ShortName(e)|] == 0)
  {
    BlankEnds(e[..8], base);
    BlankEnds(e[8..11], ext);
    var joined := if ext == [] then base else base + [0x2E] + ext;
    var lowered: Units := seq(|joined|, i requires 0 <= i < |joined| => Lower(joined[i]));
    assert ShortName(e) == UpToNul(lowered);
  }

  lemma {:induction false} BlankEnds(chars: seq<byte>, text: seq<byte>)
    requires text <= chars && 0x20 !in text && (|text| < |chars| ==> chars[|text|] == 0x20)
    ensures UpToSpace(chars) == text
  {
    if text != [] {
      BlankEnds(chars[1..], text[1..]);
    }
  }

  /** An entry has no name exactly when it starts with NUL, as unused entries
      do, or both its parts are blank. */
  lemma NamelessEntry(e: Entry)
    ensures ShortName(e) == [] <==> e[0] == 0 || (e[0] == 0x20 && e[8] == 0x20)
  {
    var base, ext := UpToSpace(e[..8]), UpToSpace(e[8..11]);
    assert e[..8][0] == e[0] && e[8..11][0] == e[8];
    assert base == [] <==> e[0] == 0x20;
    assert ext == [] <==> e[8] == 0x20;
    var joined := if ext != [] then base + [0x2E] + ext else base;
    var lowered := seq(|joined|, i requires 0 <= i < |joined| => Lower(joined[i]));
    if joined != [] {
      assert joined[0] == if base == [] then 0x2E else e[0];
      assert lowered[0] == Lower(joined[0]);
    } else {
      assert lowered == [];
    }
  }

  /** What the scan from entry `i` registers; None when a long name runs past the end. */
  function Scan(entries: seq<Entry>, i: nat): (r: Option<seq<Node>>)
    decreases |entries| - i
  {
    if i >= |entries| then Some([])
    else if entries[i][0] == DELETED then Scan(entries, i + 1)
    else if Attr(entries[i]) == ATTR_LONG_NAME then
      match LongName(entries, i)
      case None => None
      case Some((name, at)) => Before(AddEntry(Wide(name), entries[at]), Scan(entries, at + 1))
    else Before(AddEntry(Narrow(ShortName(entries[i])), entries[i]), Scan(entries, i + 1))
  }

  /** `items` in front of what the rest of a scan gives. */
  function Before(items: seq<Node>, rest: Option<seq<Node>>): Option<seq<Node>> {
    match rest
    case None => None
    case Some(more) => Some(items + more)
  }

  lemma BeforeJoin(a: seq<Node>, b: seq<Node>, rest: Option<seq<Node>>)
    ensures Before(a, Before(b, rest)) == Before(a + b, rest)
    ensures Before([], rest) == rest
  {
    if rest.Some? {
      assert a + (b + rest.value) == a + b + rest.value && [] + rest.value == rest.value;
    }
  }

  method ReadFolder(entries: seq<Entry>, start: nat) returns (r: Option<seq<Node>>)
    ensures r == Scan(entries, start)
  {
    hide LongName, ShortName, Attr, AddEntry;
    var current, items := start, [];
    ghost var all := Scan(entries, start);
    BeforeJoin([], [], all);
    while current < |entries|
      invariant all == Before(items, Scan(entries, current))
      decreases |entries| - current
    {
      var e := entries[current];
      if e[0] == DELETED {
        current := current + 1;
      } else if Attr(e) == ATTR_LONG_NAME {
        var name := ReadLongName(entries, current);
        if name.None? {
          return None;
        }
        var added := AddEntry(Wide(name.value.0), entries[name.value.1]);
        BeforeJoin(items, added, Scan(entries, name.value.1 + 1));
        items := items + added;
        current := name.value.1 + 1;
      } else {
        BeforeJoin(items, AddEntry(Narrow(ShortName(e)), e), Scan(entries, current + 1));
        items := items + AddEntry(Narrow(ShortName(e)), e);
        current := current + 1;
      }
    }
    r := Some(items);
    assert items + [] == items;
  }

  /** One place of a directory: a deleted entry, a short entry alone, or a long name with its short entry. */
  datatype Slot = Deleted(entry: Entry) | Plain(entry: Entry) | Named(name: Units, stored: seq<Entry>) {
    ghost predicate Valid() {
      match this
      case Deleted(e) => e[0] == DELETED
      case Plain(e) => e[0] != DELETED && Attr(e) != ATTR_LONG_NAME
      case Named(name, stored) => Stores(stored, name) && NulFree(name)
    }

    function Entries(): seq<Entry> {
      match this
      case Deleted(e) => [e]
      case Plain(e) => [e]
      case Named(_, stored) => stored
    }

    ghost function Nodes(): seq<Node>
      requires Valid()
    {
      match this
      case Deleted(_) => []
      case Plain(e) => AddEntry(Narrow(ShortName(e)), e)
      case Named(name, stored) => AddEntry(Wide(name), stored[PieceCount(name)])
    }
  }

  function Layout(slots: seq<Slot>): seq<Entry> {
    if slots == [] then [] else slots[0].Entries() + Layout(slots[1..])
  }

  ghost function AllNodes(slots: seq<Slot>): seq<Node>
    requires forall k :: 0 <= k < |slots| ==> slots[k].Valid()
  {
    if slots == [] then [] else slots[0].Nodes() + AllNodes(slots[1..])
  }

  /** Scanning a stored directory hands exactly its undeleted entries to
      `addEntry`, in order, each under the name it was stored with. */
  lemma {:induction false} DirectoryBack(entries: seq<Entry>, i: nat, slots: seq<Slot>)
    requires forall k :: 0 <= k < |slots| ==> slots[k].Valid()
    requires i <= |entries| && entries[i..] == Layout(slots)
    ensures Scan(entries, i) == Some(AllNodes(slots))
    decreases |slots|
  {
    hide Slot.Nodes, Slot.Valid, Slot.Entries;
    if slots != [] {
      var n := |slots[0].Entries()|;
      SplitAt(entries, i, slots[0].Entries(), Layout(slots[1..]));
      SlotBack(entries, i, slots[0]);
      hide Scan;
      DirectoryBack(entries, i + n, slots[1..]);
    }
  }

  /** The entry that `addEntry` gets for a slot. */
  function Registered(slot: Slot): (r: Option<Entry>)
    requires slot.Named? ==> slot.stored != []
  {
    match slot
    case Deleted(_) => None
    case Plain(e) => Some(e)
    case Named(_, stored) => Some(stored[|stored| - 1])
  }

  /** A slot becomes a node, one, exactly when it is not deleted and its
      attribute byte is one of four, a folder for 0x10 and a file for the other
      three. All others are dropped: volume labels, but also read-only, hidden
      or archived combinations such as 0x21 and 0x12. */
  lemma SlotShown(slot: Slot)
    requires slot.Valid()
    ensures |slot.Nodes()| <= 1
    ensures slot.Nodes() != [] <==> Registered(slot).Some? && Registered(slot).value[11] in {0x10, 0x07, 0x20, 0}
    ensures slot.Nodes() != [] ==>
      var e, node := Registered(slot).value, slot.Nodes()[0];
      && (node.FolderNode? <==> e[11] == 0x10)
      && node.name == (if slot.Named? then Wide(slot.name) else Narrow(ShortName(e)))
      && node.cluster == e[26] as int + 0x100 * e[27] as int + 0x1_0000 * e[20] as int + 0x100_0000 * e[21] as int
      && (node.FileNode? ==>
          node.size == e[28] as int + 0x100 * e[29] as int + 0x1_0000 * e[30] as int + 0x100_0000 * e[31] as int)
  {
    hide ShortName, HoldsUnits;
    if slot.Named? {
      FirstByte(slot.stored, slot.name);
    }
  }

  /** A folder "Documents" in the root of a directory: one long entry and its short one. */
  lemma DocumentsBack(long: Entry, short: Entry)
    requires long == [0x41, 0x44, 0, 0x6F, 0, 0x63, 0, 0x75, 0, 0x6D, 0, 0x0F, 0, 0x1B, 0x65, 0, 0x6E, 0, 0x74, 0, 0x73, 0,
                      0, 0, 0xFF, 0xFF, 0, 0, 0xFF, 0xFF, 0xFF, 0xFF]
    requires short[..12] == [0x44, 0x4F, 0x43, 0x55, 0x4D, 0x45, 0x7E, 0x31, 0x20, 0x20, 0x20, 0x10]
    requires short[20..22] == [3, 0] && short[26..28] == [5, 0]
    ensures Scan([long, short], 0) == Some([FolderNode(Wide([0x44, 0x6F, 0x63, 0x75, 0x6D, 0x65, 0x6E, 0x74, 0x73]), 0x3_0005)])
    ensures Scan([short], 0) == Some([FolderNode(Narrow([0x64, 0x6F, 0x63, 0x75, 0x6D, 0x65, 0x7E, 0x31]), 0x3_0005)])
  {
    var name: Units := [0x44, 0x6F, 0x63, 0x75, 0x6D, 0x65, 0x6E, 0x74, 0x73];
    var named, plain := Named(name, [long, short]), Plain(short);
    DocumentsStored(long, short);
    DocumentsFields(short);
    DocumentsShort(short);
    hide Stores, ShortName, Scan;
    SlotShown(named);
    SlotShown(plain);
    hide Slot.Nodes;
    OneSlot(named);
    OneSlot(plain);
  }

  lemma DocumentsShort(short: Entry)
    requires short[..8] == [0x44, 0x4F, 0x43, 0x55, 0x4D, 0x45, 0x7E, 0x31] && short[8] == 0x20
    ensures ShortName(short) == [0x64, 0x6F, 0x63, 0x75, 0x6D, 0x65, 0x7E, 0x31]
  {
    ShortNameBack(short, short[..8], []);
    hide ShortName;
    assert |ShortName(short)| == 8;
  }

  lemma DocumentsStored(long: Entry, short: Entry)
    requires long == [0x41, 0x44, 0, 0x6F, 0, 0x63, 0, 0x75, 0, 0x6D, 0, 0x0F, 0, 0x1B, 0x65, 0, 0x6E, 0, 0x74, 0, 0x73, 0,
                      0, 0, 0xFF, 0xFF, 0, 0, 0xFF, 0xFF, 0xFF, 0xFF]
    requires short[11] == 0x10
    ensures Stores([long, short], [0x44, 0x6F, 0x63, 0x75, 0x6D, 0x65, 0x6E, 0x74, 0x73])
  {
    var name: Units := [0x44, 0x6F, 0x63, 0x75, 0x6D, 0x65, 0x6E, 0x74, 0x73];
    OnePiece(name);
    DocumentsPieces(long);
    PiecesHeld(long, PieceOf(name, 0));
    assert |long| > 11 && long[0] == 0x41 && long[11] == 0x0F;
    hide *;
    OneLong(long, short, name);
  }

  lemma OneLong(long: Entry, short: Entry, name: Units)
    requires PieceCount(name) == 1 && HoldsUnits(long, PieceOf(name, 0))
    requires long[0] == 0x41 && long[11] == 0x0F && short[11] != 0x0F
    ensures Stores([long, short], name)
  {
    hide PieceOf, HoldsUnits, PieceCount;
  }

  lemma OnePiece(name: Units)
    requires |name| == 9
    ensures PieceOf(name, 0) == name + [0, 0xFFFF, 0xFFFF, 0xFFFF] && PieceCount(name) == 1
  {
  }

  lemma DocumentsPieces(long: Entry)
    requires long == [0x41, 0x44, 0, 0x6F, 0, 0x63, 0, 0x75, 0, 0x6D, 0, 0x0F, 0, 0x1B, 0x65, 0, 0x6E, 0, 0x74, 0, 0x73, 0,
                      0, 0, 0xFF, 0xFF, 0, 0, 0xFF, 0xFF, 0xFF, 0xFF]
    ensures Pieces(long) == [0x44, 0x6F, 0x63, 0x75, 0x6D, 0x65, 0x6E, 0x74, 0x73, 0, 0xFFFF, 0xFFFF, 0xFFFF]
  {
  }

  lemma DocumentsFields(short: Entry)
    requires short[..12] == [0x44, 0x4F, 0x43, 0x55, 0x4D, 0x45, 0x7E, 0x31, 0x20, 0x20, 0x20, 0x10]
    requires short[20..22] == [3, 0] && short[26..28] == [5, 0]
    ensures short[..8] == [0x44, 0x4F, 0x43, 0x55, 0x4D, 0x45, 0x7E, 0x31] && short[8] == 0x20 && short[11] == 0x10
    ensures short[20] == 3 && short[21] == 0 && short[26] == 5 && short[27] == 0
  {
    assert short[..8] == short[..12][..8] && short[8] == short[..12][8] && short[11] == short[..12][11];
    assert short[20] == short[20..22][0] && short[21] == short[20..22][1];
    assert short[26] == short[26..28][0] && short[27] == short[26..28][1];
  }

  /** A directory of one slot. */
  lemma OneSlot(slot: Slot)
    requires slot.Valid()
    ensures Scan(slot.Entries(), 0) == Some(slot.Nodes())
  {
    hide Slot.Nodes, Slot.Entries;
    assert [slot][1..] == [];
    assert Layout([]) == [] && AllNodes([]) == [];
    assert Layout([slot]) == slot.Entries() + [] == slot.Entries() && AllNodes([slot]) == slot.Nodes() + [] == slot.Nodes();
    DirectoryBack(slot.Entries(), 0, [slot]);
  }

  /** Entries of one directory as a camera writes them: a volume label, a read-only file, a hidden folder. */
  lemma EntriesDropped(e: Entry)
    requires e[0] != DELETED && Attr(e) in {0x08, 0x21, 0x12}
    ensures Scan([e], 0) == Some([])
  {
    DirectoryBack([e], 0, [Plain(e)]);
    assert Layout([Plain(e)]) == [e] && AllNodes([Plain(e)]) == [] by {
      assert [Plain(e)][1..] == [];
    }
  }

  /** The scan does not stop at the first unused entry: an entry of zeros becomes a file without a name. */
  lemma UnusedEntryShown(e: Entry)
    requires forall i :: 0 <= i < |e| ==> e[i] == 0
    ensures Scan([e], 0) == Some([FileNode(Narrow([]), 0, 0)])
  {
    NamelessEntry(e);
    assert Attr(e) == 0 && ClusterOf(e) == 0 && DWord(e, 28) == 0;
    DirectoryBack([e], 0, [Plain(e)]);
    assert [Plain(e)][1..] == [];
    assert Layout([Plain(e)]) == [e];
    assert AddEntry(Narrow([]), e) == [FileNode(Narrow([]), 0, 0)];
    assert Plain(e).Nodes() == AddEntry(Narrow([]), e);
    assert AllNodes([]) == [];
    assert AllNodes([Plain(e)]) == [FileNode(Narrow([]), 0, 0)];
  }

  lemma SplitAt(entries: seq<Entry>, i: nat, a: seq<Entry>, b: seq<Entry>)
    requires i <= |entries| && entries[i..] == a + b
    ensures i + |a| <= |entries| && entries[i..i + |a|] == a && entries[i + |a|..] == b
  {
    assert |entries| == i + |a| + |b|;
    assert entries[i..i + |a|] == entries[i..][..|a|];
    assert entries[i + |a|..] == entries[i..][|a|..];
  }

  lemma SlotBack(entries: seq<Entry>, i: nat, slot: Slot)
    requires slot.Valid()
    requires i + |slot.Entries()| <= |entries| && entries[i..i + |slot.Entries()|] == slot.Entries()
    ensures Scan(entries, i) == Before(slot.Nodes(), Scan(entries, i + |slot.Entries()|))
  {
    hide ShortName, LongName, Stores, PieceCount, AddEntry;
    match slot
    case Deleted(e) =>
      assert entries[i] == entries[i..i + 1][0];
      BeforeJoin([], [], Scan(entries, i + 1));
    case Plain(e) =>
      assert entries[i] == entries[i..i + 1][0];
    case Named(name, stored) =>
      NameBack(entries, i, stored, name);
      StoredAt(stored, name, 0);
      FirstByte(stored, name);
      var k := PieceCount(name);
      assert entries[i] == stored[0] && entries[i + k] == stored[k];
  }

  lemma FirstByte(stored: seq<Entry>, name: Units)
    requires Stores(stored, name)
    ensures stored[0][0] != DELETED && PieceCount(name) > 0 && |stored| == PieceCount(name) + 1
  {
  }
}
