/** Greedy chaining of orphan ext4 extent nodes: starting from one node, the
    next is a node whose first logical offset is the running total. */
module ExtentChain {
  import opened Bytes

  const BLOCK_SIZE: nat := 4096

  datatype ExtentHandle = ExtentHandle(offset: nat, size: nat, entries: nat, firstOffset: nat)

  const NO_HANDLE := ExtentHandle(0, 0, 0, 0)

  /** One reported line, and the source offset it was taken from. */
  datatype Piece = Piece(target: nat, size: nat, block: nat, offset: nat)

  // ---------- the list of handles

  function Remove(list: seq<ExtentHandle>, offset: nat): (r: seq<ExtentHandle>)
    ensures |r| <= |list|
    ensures forall h :: h in r <==> h in list && h.offset != offset
    ensures (exists h :: h in list && h.offset == offset) ==> |r| < |list|
  {
    if list == [] then []
    else if list[0].offset == offset then Remove(list[1..], offset)
    else [list[0]] + Remove(list[1..], offset)
  }

  function FindByOffset(list: seq<ExtentHandle>, offset: nat): (h: ExtentHandle)
    ensures if exists g :: g in list && g.offset == offset then h in list && h.offset == offset else h == NO_HANDLE
  {
    if list == [] then NO_HANDLE
    else if list[0].offset == offset then list[0]
    else FindByOffset(list[1..], offset)
  }

  function FindByFirstOffset(list: seq<ExtentHandle>, firstOffset: nat): (r: seq<ExtentHandle>)
    ensures forall h :: h in r <==> h in list && h.firstOffset == firstOffset
  {
    if list == [] then []
    else if list[0].firstOffset == firstOffset then [list[0]] + FindByFirstOffset(list[1..], firstOffset)
    else FindByFirstOffset(list[1..], firstOffset)
  }

  /** Removing works element by element: the rest keeps its order and every copy. */
  lemma {:induction false} RemoveJoin(a: seq<ExtentHandle>, b: seq<ExtentHandle>, offset: nat)
    ensures Remove(a + b, offset) == Remove(a, offset) + Remove(b, offset)
  {
    if a == [] {
      assert a + b == b;
    } else {
      hide Remove;
      RemoveStep(a, offset);
      RemoveStep(a + b, offset);
      RemoveJoin(a[1..], b, offset);
      assert (a + b)[0] == a[0] && (a + b)[1..] == a[1..] + b;
      Regroup(if a[0].offset == offset then [] else [a[0]], Remove(a[1..], offset), Remove(b, offset));
    }
  }

  lemma Regroup(a: seq<ExtentHandle>, b: seq<ExtentHandle>, c: seq<ExtentHandle>)
    ensures a + (b + c) == a + b + c
  {
  }

  lemma RemoveStep(list: seq<ExtentHandle>, offset: nat)
    requires list != []
    ensures Remove(list, offset) == (if list[0].offset == offset then [] else [list[0]]) + Remove(list[1..], offset)
  {
  }

  /** So does finding by first offset. */
  lemma {:induction false} FindJoin(a: seq<ExtentHandle>, b: seq<ExtentHandle>, firstOffset: nat)
    ensures FindByFirstOffset(a + b, firstOffset) == FindByFirstOffset(a, firstOffset) + FindByFirstOffset(b, firstOffset)
  {
    if a == [] {
      assert a + b == b;
    } else {
      FindStep(a, firstOffset);
      FindStep(a + b, firstOffset);
      hide FindByFirstOffset;
      FindJoin(a[1..], b, firstOffset);
      assert (a + b)[0] == a[0] && (a + b)[1..] == a[1..] + b;
    }
  }

  lemma FindStep(list: seq<ExtentHandle>, firstOffset: nat)
    requires list != []
    ensures FindByFirstOffset(list, firstOffset) ==
      (if list[0].firstOffset == firstOffset then [list[0]] else []) + FindByFirstOffset(list[1..], firstOffset)
  {
  }

  lemma OneHandle(h: ExtentHandle, x: nat)
    ensures Remove([h], x) == if h.offset == x then [] else [h]
    ensures FindByFirstOffset([h], x) == if h.firstOffset == x then [h] else []
  {
    assert [h][1..] == [];
  }

  /** The earliest handle at the offset is found. */
  lemma {:induction false} FoundFirst(list: seq<ExtentHandle>, offset: nat) returns (k: nat)
    requires exists h :: h in list && h.offset == offset
    ensures k < |list| && list[k] == FindByOffset(list, offset) && list[k].offset == offset
    ensures forall j :: 0 <= j < k ==> list[j].offset != offset
  {
    if list[0].offset == offset {
      k := 0;
    } else {
      k := FoundFirst(list[1..], offset);
      k := k + 1;
    }
  }

  /** The first handle with the most entries. */
  function FindWithMaxEntries(list: seq<ExtentHandle>): (h: ExtentHandle)
    ensures list == [] ==> h == NO_HANDLE
    ensures list != [] ==> h in list && forall g :: g in list ==> g.entries <= h.entries
  {
    if list == [] then NO_HANDLE
    else
      var m := FindWithMaxEntries(list[..|list| - 1]);
      var last := list[|list| - 1];
      if |list| > 1 && m.entries >= last.entries then m else last
  }

  /** Among handles with equally many entries the earliest in the list is taken. */
  lemma {:induction false} MaxIsFirst(list: seq<ExtentHandle>) returns (k: nat)
    requires list != []
    ensures k < |list| && FindWithMaxEntries(list) == list[k]
    ensures forall j :: 0 <= j < k ==> list[j].entries < list[k].entries
  {
    var n := |list| - 1;
    k := n;
    if n > 0 {
      var m := FindWithMaxEntries(list[..n]);
      if m.entries >= list[n].entries {
        k := MaxIsFirst(list[..n]);
      } else {
        assert forall j :: 0 <= j < n ==> list[..n][j] in list[..n];
      }
    }
  }

  // ---------- one run

  ghost predicate Listed(list: seq<ExtentHandle>, offset: nat) {
    exists h :: h in list && h.offset == offset
  }

  /** The node picked after total `total` was reached; None ends the run. */
  function Successor(list: seq<ExtentHandle>, total: nat): (r: Option<ExtentHandle>)
    ensures r.Some? ==> r.value in list && r.value.firstOffset == total && r.value.entries > 0
    ensures r.Some? ==> forall h :: h in list && h.firstOffset == total ==> h.entries <= r.value.entries
    ensures r.None? ==> forall h :: h in list && h.firstOffset == total ==> h.entries == 0
  {
    var candidates := FindByFirstOffset(list, total);
    var best := FindWithMaxEntries(candidates);
    assert forall h :: h in candidates <==> h in list && h.firstOffset == total;
    if candidates == [] || best.entries == 0 then None else Some(best)
  }

  /** A node found by its first offset stands in the list, behind the ones found before it. */
  lemma {:induction false} FoundAt(list: seq<ExtentHandle>, firstOffset: nat, k: nat) returns (i: nat)
    requires k < |FindByFirstOffset(list, firstOffset)|
    ensures i < |list| && list[i] == FindByFirstOffset(list, firstOffset)[k]
    ensures forall j :: 0 <= j < i && list[j].firstOffset == firstOffset ==> list[j] in FindByFirstOffset(list, firstOffset)[..k]
  {
    FindStep(list, firstOffset);
    if list[0].firstOffset != firstOffset {
      i := FoundAt(list[1..], firstOffset, k);
      i := i + 1;
    } else if k == 0 {
      i := 0;
    } else {
      i := FoundAt(list[1..], firstOffset, k - 1);
      var found, rest := FindByFirstOffset(list, firstOffset), FindByFirstOffset(list[1..], firstOffset);
      hide FindByFirstOffset;
      assert found == [list[0]] + rest;
      assert found[..k] == [list[0]] + rest[..k - 1];
      i := i + 1;
    }
  }

  /** Of several nodes that start there with equally many entries the earliest in the list is picked. */
  lemma SuccessorIsFirst(list: seq<ExtentHandle>, total: nat) returns (i: nat)
    requires Successor(list, total).Some?
    ensures i < |list| && list[i] == Successor(list, total).value
    ensures forall j :: 0 <= j < i && list[j].firstOffset == total ==> list[j].entries < list[i].entries
  {
    var candidates := FindByFirstOffset(list, total);
    var k := MaxIsFirst(candidates);
    i := FoundAt(list, total, k);
    hide FindByFirstOffset;
    forall j | 0 <= j < i && list[j].firstOffset == total
      ensures list[j].entries < list[i].entries
    {
      var m :| 0 <= m < k && candidates[..k][m] == list[j];
    }
  }

  /** The pieces reported from `piece` on, `list` being what is left to pick from. */
  ghost function Run(list: seq<ExtentHandle>, piece: Piece): (r: seq<Piece>)
    requires piece.size > 0 ==> Listed(list, piece.offset)
    ensures r != [] && r[0] == piece
    decreases |list|
  {
    var rest := Remove(list, piece.offset);
    var total := U64(piece.target + piece.size);
    var next := Successor(rest, total);
    if piece.size == 0 || next.None? then [piece]
    else [piece] + Run(rest, PieceFor(rest, next.value.offset, total))
  }

  /** The piece for a picked source offset; the size is that of the first handle at this offset. */
  function PieceFor(list: seq<ExtentHandle>, offset: nat, target: nat): (p: Piece) {
    Piece(target, FindByOffset(list, offset).size, offset / BLOCK_SIZE, offset)
  }

  ghost function Remaining(list: seq<ExtentHandle>, picked: seq<Piece>): (r: seq<ExtentHandle>)
    decreases |picked|
  {
    if picked == [] then list else Remaining(Remove(list, picked[0].offset), picked[1..])
  }

  class Ext4Chain {
    var listExtents: seq<ExtentHandle>

    method Add(offset: nat, size: nat, entries: nat, firstOffset: nat)
      modifies this
      ensures listExtents == old(listExtents) + [ExtentHandle(offset, size, entries, firstOffset)]
    {
      listExtents := listExtents + [ExtentHandle(offset, size, entries, firstOffset)];
    }

    method SearchExtends(blockStart: nat) returns (report: seq<Piece>)
      modifies this
      ensures var start := U64(blockStart * BLOCK_SIZE);
        var first := Piece(0, FindByOffset(old(listExtents), start).size, blockStart, start);
        && report == Run(old(listExtents), first)
        && listExtents == Remaining(old(listExtents), report)
    {
      hide Remove, FindByOffset, FindByFirstOffset, FindWithMaxEntries, U64, Run, Remaining;
      var piece := PieceFor(listExtents, U64(blockStart * BLOCK_SIZE), 0).(block := blockStart);
      report := [];
      RemainingNone(listExtents);
      ghost var list0, all := listExtents, Run(listExtents, piece);
      assert report + all == all;
      while true
        invariant piece.size > 0 ==> Listed(listExtents, piece.offset)
        invariant all == report + Run(listExtents, piece)
        invariant listExtents == Remaining(list0, report)
        decreases |listExtents|
      {
        RunStep(listExtents, piece);
        RemainingSnoc(list0, report, piece);
        ghost var reported := report;
        report := report + [piece];
        listExtents := Remove(listExtents, piece.offset);
        var total := U64(piece.target + piece.size);
        if piece.size == 0 {
          return;
        }
        var candidates := FindByFirstOffset(listExtents, total);
        if candidates == [] {
          return;
        }
        var best := FindWithMaxEntries(candidates);
        if best.entries == 0 {
          return;
        }
        piece := PieceFor(listExtents, best.offset, total);
        assert all == report + Run(listExtents, piece);
      }
    }
  }

  lemma RunStep(list: seq<ExtentHandle>, piece: Piece)
    requires piece.size > 0 ==> Listed(list, piece.offset)
    ensures var rest, total := Remove(list, piece.offset), U64(piece.target + piece.size);
      Run(list, piece) ==
        match Successor(rest, total)
        case None => [piece]
        case Some(next) => if piece.size == 0 then [piece] else [piece] + Run(rest, PieceFor(rest, next.offset, total))
  {
    hide Remove, FindByOffset, Successor, U64;
  }

  lemma RemainingNone(list: seq<ExtentHandle>)
    ensures Remaining(list, []) == list
  {
  }

  lemma {:induction false} RemainingSnoc(list: seq<ExtentHandle>, picked: seq<Piece>, last: Piece)
    ensures Remaining(list, picked + [last]) == Remove(Remaining(list, picked), last.offset)
    decreases |picked|
  {
    if picked != [] {
      assert (picked + [last])[1..] == picked[1..] + [last];
      RemainingSnoc(Remove(list, picked[0].offset), picked[1..], last);
    }
  }

  lemma {:induction false} RemainingMembers(list: seq<ExtentHandle>, picked: seq<Piece>)
    ensures forall h :: h in Remaining(list, picked) <==> h in list && forall p :: p in picked ==> p.offset != h.offset
    decreases |picked|
  {
    if picked != [] {
      RemainingMembers(Remove(list, picked[0].offset), picked[1..]);
      assert forall p :: p in picked <==> p == picked[0] || p in picked[1..];
    }
  }

  // ---------- what a run guarantees

  /** Piece `i` was justified by the nodes left when it was picked: node `m` of
      them starts at the running total, none that does has more entries, and
      none in front of it as many. Its block follows from its offset, its size
      is that of the first node at this offset. */
  ghost predicate Justified(list: seq<ExtentHandle>, run: seq<Piece>, i: nat)
    requires i < |run|
  {
    var left := Remaining(list, run[..i]);
    && run[i].block == run[i].offset / 4096 && run[i].size == FindByOffset(left, run[i].offset).size
    && exists m :: 0 <= m < |left| && left[m].offset == run[i].offset && left[m].firstOffset == run[i].target
         && left[m].entries > 0
         && (forall g :: g in left && g.firstOffset == run[i].target ==> g.entries <= left[m].entries)
         && forall j :: 0 <= j < m && left[j].firstOffset == run[i].target ==> left[j].entries < left[m].entries
  }

  lemma {:induction false} RunJustified(list: seq<ExtentHandle>, piece: Piece, i: nat)
    requires piece.size > 0 ==> Listed(list, piece.offset)
    requires 0 < i < |Run(list, piece)|
    ensures Justified(list, Run(list, piece), i)
    decreases |list|
  {
    hide Remove, Successor, FindByOffset, U64;
    var rest, total := Remove(list, piece.offset), U64(piece.target + piece.size);
    var next := PieceFor(rest, Successor(rest, total).value.offset, total);
    var run, tail := Run(list, piece), Run(rest, next);
    assert run == [piece] + tail;
    assert run[..i][1..] == tail[..i - 1];
    if i == 1 {
      RemainingNone(rest);
      assert tail[..0] == [] && run[1] == next;
      var m := SuccessorIsFirst(rest, total);
      assert rest[m].offset == run[1].offset;
    } else {
      RunJustified(rest, next, i - 1);
    }
  }

  /** No source node is picked twice. */
  lemma RunDistinct(list: seq<ExtentHandle>, piece: Piece, i: nat, j: nat)
    requires piece.size > 0 ==> Listed(list, piece.offset)
    requires i < j < |Run(list, piece)|
    ensures Run(list, piece)[i].offset != Run(list, piece)[j].offset
  {
    var run := Run(list, piece);
    RunJustified(list, piece, j);
    RemainingMembers(list, run[..j]);
    assert run[i] in run[..j];
  }

  ghost predicate Exhausted(left: seq<ExtentHandle>, last: Piece) {
    last.size == 0 || forall h :: h in left && h.firstOffset == U64(last.target + last.size) ==> h.entries == 0
  }

  /** The run stops only at an empty piece or when no remaining node with entries starts at the total. */
  lemma {:induction false} RunStops(list: seq<ExtentHandle>, piece: Piece)
    requires piece.size > 0 ==> Listed(list, piece.offset)
    ensures var run := Run(list, piece);
      Exhausted(Remaining(list, run), run[|run| - 1])
    decreases |list|
  {
    hide Remove, Successor, FindByOffset, U64, Run;
    RunStep(list, piece);
    var rest, total := Remove(list, piece.offset), U64(piece.target + piece.size);
    var next := Successor(rest, total);
    if piece.size == 0 || next.None? {
      RemainingNone(rest);
      assert [piece][1..] == [];
    } else {
      var run, tail := Run(list, piece), Run(rest, PieceFor(rest, next.value.offset, total));
      hide Exhausted;
      RunStops(rest, PieceFor(rest, next.value.offset, total));
      assert run[1..] == tail && run[|tail|] == tail[|tail| - 1];
      assert Remaining(list, run) == Remaining(rest, tail);
    }
  }

  function Sizes(run: seq<Piece>): (r: nat) {
    if run == [] then 0 else run[0].size + Sizes(run[1..])
  }

  /** Each piece starts where the sizes before it add up to, modulo 2^64. */
  lemma {:induction false} RunTargets(list: seq<ExtentHandle>, piece: Piece, i: nat)
    requires piece.size > 0 ==> Listed(list, piece.offset)
    requires i < |Run(list, piece)| && piece.target < TWO_64
    ensures Run(list, piece)[i].target == U64(piece.target + Sizes(Run(list, piece)[..i]))
    decreases |list|
  {
    hide Remove, Successor, FindByOffset, U64;
    var run := Run(list, piece);
    if i == 0 {
      AddU64(piece.target, 0);
    } else {
      AddU64(piece.target + piece.size, Sizes(run[1..i]));
      var rest, total := Remove(list, piece.offset), U64(piece.target + piece.size);
      var next := PieceFor(rest, Successor(rest, total).value.offset, total);
      RunTargets(rest, next, i - 1);
      assert run[..i][1..] == run[1..i] == Run(rest, next)[..i - 1];
      assert run[i] == Run(rest, next)[i - 1];
    }
  }

  lemma AddU64(x: nat, y: nat)
    ensures U64(U64(x) + y) == U64(x + y)
    ensures x < TWO_64 ==> U64(x) == x
    ensures U64(x) <= x
  {
  }

  /** Exactly when the sizes before the last piece stay below 2^64 do the
      pieces tile: every one starts at the plain sum of the sizes before it. */
  lemma RunTiles(list: seq<ExtentHandle>, piece: Piece)
    requires piece.size > 0 ==> Listed(list, piece.offset)
    requires piece.target == 0
    ensures var run := Run(list, piece);
      Sizes(run[..|run| - 1]) < TWO_64 <==> forall i :: 0 <= i < |run| ==> run[i].target == Sizes(run[..i])
  {
    hide Run, U64, Sizes;
    var run := Run(list, piece);
    AddU64(Sizes(run[..|run| - 1]), 0);
    forall i | 0 <= i < |run|
      ensures run[i].target == U64(Sizes(run[..i]))
      ensures Sizes(run[..i]) <= Sizes(run[..|run| - 1])
      ensures Sizes(run[..i]) < TWO_64 ==> U64(Sizes(run[..i])) == Sizes(run[..i])
    {
      AddU64(Sizes(run[..i]), 0);
      RunTargets(list, piece, i);
      PrefixSizes(run, i, |run| - 1);
    }
  }

  lemma {:induction false} SizesMonotone(run: seq<Piece>, i: nat)
    requires i <= |run|
    ensures Sizes(run) == Sizes(run[..i]) + Sizes(run[i..])
  {
    if i > 0 {
      SizesMonotone(run[1..], i - 1);
      assert run[..i][1..] == run[1..][..i - 1] && run[1..][i - 1..] == run[i..];
    }
  }

  function SumOf(list: seq<ExtentHandle>): (r: nat) {
    if list == [] then 0 else list[0].size + SumOf(list[1..])
  }

  lemma {:induction false} RemoveTakesSize(list: seq<ExtentHandle>, offset: nat)
    ensures SumOf(Remove(list, offset)) + FindByOffset(list, offset).size <= SumOf(list)
    ensures SumOf(Remove(list, offset)) <= SumOf(list)
  {
    if list != [] {
      RemoveTakesSize(list[1..], offset);
      assert ([list[0]] + Remove(list[1..], offset))[1..] == Remove(list[1..], offset);
    }
  }

  lemma {:induction false} SizesWithinList(list: seq<ExtentHandle>, piece: Piece)
    requires piece.size == FindByOffset(list, piece.offset).size
    ensures Sizes(Run(list, piece)) <= SumOf(list)
    decreases |list|
  {
    hide SumOf, Remove, Successor, FindByOffset, U64;
    var rest, total := Remove(list, piece.offset), U64(piece.target + piece.size);
    RemoveTakesSize(list, piece.offset);
    RunStep(list, piece);
    if piece.size > 0 && Successor(rest, total).Some? {
      var next := PieceFor(rest, Successor(rest, total).value.offset, total);
      SizesWithinList(rest, next);
      assert Run(list, piece)[1..] == Run(rest, next);
    } else {
      assert Sizes([piece][1..]) == 0;
    }
  }

  /** Whenever the listed sizes add up to less than 2^64, the pieces tile. */
  lemma SmallListTiles(list: seq<ExtentHandle>, piece: Piece)
    requires piece.target == 0 && piece.size == FindByOffset(list, piece.offset).size
    requires SumOf(list) < TWO_64
    ensures var run := Run(list, piece);
      forall i :: 0 <= i < |run| ==> run[i].target == Sizes(run[..i])
  {
    hide Run, Sizes, SumOf, FindByOffset;
    var run := Run(list, piece);
    SizesWithinList(list, piece);
    assert run[..|run|] == run;
    PrefixSizes(run, |run| - 1, |run|);
    RunTiles(list, piece);
  }

  /** Three nodes whose first two sizes add up to 2^64. */
  const WRAPPING: seq<ExtentHandle> :=
    [ExtentHandle(4096, TWO_64 - 4096, 1, 0), ExtentHandle(8192, 4096, 1, TWO_64 - 4096), ExtentHandle(12288, 4096, 1, 0)]

  /** Their third piece is reported at target 0, over the first. */
  lemma WrappingOverlaps()
    ensures Run(WRAPPING, PieceFor(WRAPPING, 4096, 0)) ==
      [Piece(0, TWO_64 - 4096, 1, 4096), Piece(TWO_64 - 4096, 4096, 2, 8192), Piece(0, 4096, 3, 12288)]
  {
    WrappingPicks();
    WrappingTail();
    hide Remove, Successor, PieceFor, Run;
    RunStep(WRAPPING, Piece(0, TWO_64 - 4096, 1, 4096));
  }

  lemma WrappingTail()
    ensures Run(WRAPPING[1..], Piece(TWO_64 - 4096, 4096, 2, 8192)) ==
      [Piece(TWO_64 - 4096, 4096, 2, 8192), Piece(0, 4096, 3, 12288)]
  {
    WrappingPicks();
    hide Remove, Successor, PieceFor, Run;
    RunStep(WRAPPING[2..], Piece(0, 4096, 3, 12288));
    RunStep(WRAPPING[1..], Piece(TWO_64 - 4096, 4096, 2, 8192));
  }

  lemma WrappingPicks()
    ensures Remove(WRAPPING, 4096) == WRAPPING[1..] && Remove(WRAPPING[1..], 8192) == WRAPPING[2..]
    ensures Remove(WRAPPING[2..], 12288) == []
    ensures Successor(WRAPPING[1..], TWO_64 - 4096) == Some(WRAPPING[1])
    ensures Successor(WRAPPING[2..], 0) == Some(WRAPPING[2]) && Successor([], 4096) == None
    ensures PieceFor(WRAPPING, 4096, 0) == Piece(0, TWO_64 - 4096, 1, 4096) && Listed(WRAPPING, 4096)
    ensures PieceFor(WRAPPING[1..], 8192, TWO_64 - 4096) == Piece(TWO_64 - 4096, 4096, 2, 8192) && Listed(WRAPPING[1..], 8192)
    ensures PieceFor(WRAPPING[2..], 12288, 0) == Piece(0, 4096, 3, 12288) && Listed(WRAPPING[2..], 12288)
  {
    assert WRAPPING == [WRAPPING[0]] + WRAPPING[1..] && WRAPPING[1..] == [WRAPPING[1]] + WRAPPING[2..];
    assert WRAPPING[2..] == [WRAPPING[2]];
    OneHandle(WRAPPING[2], 0);
    OneHandle(WRAPPING[2], 12288);
    assert WRAPPING[0] in WRAPPING && WRAPPING[1] in WRAPPING[1..] && WRAPPING[2] in WRAPPING[2..];
  }

  /** In a tiling run every address below the total lies in exactly one piece. */
  lemma {:induction false} TiledOnce(run: seq<Piece>, x: nat) returns (k: nat)
    requires forall i :: 0 <= i < |run| ==> run[i].target == Sizes(run[..i])
    requires x < Sizes(run)
    ensures k < |run| && run[k].target <= x < run[k].target + run[k].size
    ensures forall i :: 0 <= i < |run| && run[i].target <= x < run[i].target + run[i].size ==> i == k
  {
    k := 0;
    while k + 1 < |run| && Sizes(run[..k + 1]) <= x
      invariant k < |run| && Sizes(run[..k]) <= x
    {
      k := k + 1;
    }
    EndOf(run, k);
    forall i | 0 <= i < |run| && run[i].target <= x < run[i].target + run[i].size
      ensures i == k
    {
      EndOf(run, i);
      if i < k {
        PrefixSizes(run, i + 1, k);
      } else if k < i {
        PrefixSizes(run, k + 1, i);
      }
    }
  }

  lemma PrefixSizes(run: seq<Piece>, a: nat, b: nat)
    requires a <= b <= |run|
    ensures Sizes(run[..a]) <= Sizes(run[..b])
  {
    SizesMonotone(run[..b], a);
    assert run[..b][..a] == run[..a];
  }

  lemma EndOf(run: seq<Piece>, k: nat)
    requires k < |run|
    ensures Sizes(run[..k + 1]) == Sizes(run[..k]) + run[k].size
    ensures k + 1 == |run| ==> Sizes(run[..k + 1]) == Sizes(run)
  {
    SizesMonotone(run[..k + 1], k);
    assert run[..k + 1][..k] == run[..k] && run[..k + 1][k..] == [run[k]];
    assert k + 1 == |run| ==> run[..k + 1] == run;
  }
}
