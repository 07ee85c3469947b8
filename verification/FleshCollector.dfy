/** Merging flash dump pages into one image: each page names its place by a
    marker, and a page flagged as final is never replaced by an unflagged one. */
module FleshCollector {
  import opened Bytes
  import opened IoFile

  const DUMP_PAGE: nat := 18592
  const IMAGE_PAGE: nat := 16384
  const MARKER_OFFSET: nat := 1024
  const NO_MARKER: nat := 0xFFFF_FFFF
  const FINAL_FLAG: nat := 0x10
  /** 128 GiB */
  const MAX_IMAGE_SIZE: nat := 0x20_0000_0000

  predicate IsDumpPage(page: seq<byte>) {
    |page| == DUMP_PAGE
  }

  type Page = p: seq<byte> | IsDumpPage(p) witness Zeros(18592)

  // ---------- markers

  /** `x << k` */
  function ShiftLeft(x: nat, k: nat): (r: nat) {
    if k == 0 then x else 2 * ShiftLeft(x, k - 1)
  }

  /** `a | b` */
  function BitOr(a: nat, b: nat): (r: nat)
    decreases a + b
  {
    if a == 0 && b == 0 then 0
    else 2 * BitOr(a / 2, b / 2) + if a % 2 == 1 || b % 2 == 1 then 1 else 0
  }

  function JoinMarker(m1: byte, m2: byte, m3: byte): (r: nat)
    ensures r == m1 as int * 0x8000 + m2 as int * 0x80 + m3 as int % 0x80
  {
    JoinIsSum(m1, m2, m3);
    BitOr(BitOr(ShiftLeft(m1, 15), ShiftLeft(m2, 7)), m3 as int % 0x80)
  }

  /** The three fields are 8, 8 and 7 bits wide and do not overlap, so joining them is adding them up. */
  lemma JoinIsSum(m1: byte, m2: byte, m3: byte)
    ensures BitOr(BitOr(ShiftLeft(m1, 15), ShiftLeft(m2, 7)), m3 as int % 0x80)
      == m1 as int * 0x8000 + m2 as int * 0x80 + m3 as int % 0x80
  {
    ShiftBy7(m1);
    ShiftBy15(m1);
    ShiftBy7(m2);
    ShiftBy15(1);
    ShiftBy7(1);
    ShiftBy7(m1 as int * 256 + m2 as int);
    hide ShiftLeft, BitOr;
    OrDisjoint(m1, 15, ShiftLeft(m2, 7));
    OrDisjoint(m1 as int * 256 + m2 as int, 7, m3 as int % 0x80);
  }

  lemma ShiftBy7(x: nat)
    ensures ShiftLeft(x, 7) == 128 * x
  {
    assert ShiftLeft(x, 1) == 2 * x;
    assert ShiftLeft(x, 3) == 8 * x;
    assert ShiftLeft(x, 5) == 32 * x;
  }

  lemma ShiftBy15(x: nat)
    ensures ShiftLeft(x, 15) == 32768 * x
  {
    ShiftBy7(x);
    assert ShiftLeft(x, 9) == 512 * x;
    assert ShiftLeft(x, 11) == 2048 * x;
    assert ShiftLeft(x, 13) == 8192 * x;
  }

  lemma {:induction false} OrZero(x: nat)
    ensures BitOr(x, 0) == x
  {
    if x > 0 {
      OrZero(x / 2);
    }
  }

  /** Bits below a shifted number only add to it. */
  lemma {:induction false} OrDisjoint(x: nat, k: nat, y: nat)
    requires y < ShiftLeft(1, k)
    ensures BitOr(ShiftLeft(x, k), y) == ShiftLeft(x, k) + y
    decreases k
  {
    if k == 0 {
      OrZero(x);
    } else {
      var half := ShiftLeft(x, k - 1);
      OrDisjoint(x, k - 1, y / 2);
      assert ShiftLeft(x, k) == 2 * half && 2 * half / 2 == half && 2 * half % 2 == 0;
    }
  }

  function Marker(page: Page): (r: nat) {
    if page[MARKER_OFFSET] == page[MARKER_OFFSET + 1] == page[MARKER_OFFSET + 2] == page[MARKER_OFFSET + 3] == 0xFF
    then NO_MARKER
    else JoinMarker(page[MARKER_OFFSET], page[MARKER_OFFSET + 1], page[MARKER_OFFSET + 2])
  }

  /** A page's number from its bytes: 8, 8 and 7 bits, the first byte highest. */
  lemma MarkerBytes(page: Page)
    ensures page[1024..1028] == [0xFF, 0xFF, 0xFF, 0xFF] ==> Marker(page) == 0xFFFF_FFFF
    ensures page[1024..1028] != [0xFF, 0xFF, 0xFF, 0xFF] ==>
      Marker(page) == page[1024] as int * 0x8000 + page[1025] as int * 0x80 + page[1026] as int % 0x80
  {
    assert page[1024..1028] == [page[1024], page[1025], page[1026], page[1027]];
  }

  predicate Final(page: Page) {
    page[MARKER_OFFSET + 3] == FINAL_FLAG
  }

  predicate Accepted(page: Page) {
    Marker(page) * IMAGE_PAGE < MAX_IMAGE_SIZE
  }

  /** The size test rejects exactly the pages whose marker bytes are all 0xFF. */
  lemma OnlyBlankRejected(page: Page)
    ensures Accepted(page) <==> page[MARKER_OFFSET..MARKER_OFFSET + 4] != [0xFF, 0xFF, 0xFF, 0xFF]
  {
    var m := page[MARKER_OFFSET..MARKER_OFFSET + 4];
    assert m == [page[MARKER_OFFSET], page[MARKER_OFFSET + 1], page[MARKER_OFFSET + 2], page[MARKER_OFFSET + 3]];
  }

  lemma MarkerAccepted(page: Page)
    ensures Marker(page) * 16384 < MAX_IMAGE_SIZE <==> Marker(page) != NO_MARKER
  {
  }

  // ---------- payload

  /** Byte `i` of the image page comes from sector `i / 1024` of the dump page,
      whose sectors are 128 bytes longer. */
  function Payload(page: Page): (r: seq<byte>)
    ensures |r| == IMAGE_PAGE
  {
    seq(16384, i requires 0 <= i < 16384 => page[i / 1024 * 1152 + i % 1024])
  }

  method DumpToImage(dumpPage: Page, imagePage: array<byte>)
    requires imagePage.Length == IMAGE_PAGE
    modifies imagePage
    ensures imagePage[..] == Payload(dumpPage)
    ensures forall i :: 0 <= i < 16384 ==> imagePage[i] == dumpPage[i / 1024 * 1152 + i % 1024]
  {
    for i := 0 to 16
      invariant forall k :: 0 <= k < 1024 * i ==> imagePage[k] == Payload(dumpPage)[k]
    {
      forall j | 0 <= j < 1024 {
        imagePage[1024 * i + j] := dumpPage[1152 * i + j];
      }
    }
  }

  // ---------- what the image must hold

  /** Page `k` decides image page `m`: it is the last final page for `m`, or,
      when no page for `m` is final, the last page for `m`. */
  ghost predicate Decides(pages: seq<Page>, k: int, m: nat) {
    && 0 <= k < |pages| && Marker(pages[k]) == m
    && if Final(pages[k]) then forall j :: k < j < |pages| && Marker(pages[j]) == m ==> !Final(pages[j])
       else forall j :: 0 <= j < |pages| && Marker(pages[j]) == m ==> j <= k && !Final(pages[j])
  }

  predicate Seen(pages: seq<Page>, m: nat) {
    exists j :: 0 <= j < |pages| && Marker(pages[j]) == m
  }

  predicate SeenFinal(pages: seq<Page>, m: nat) {
    exists j :: 0 <= j < |pages| && Marker(pages[j]) == m && Final(pages[j])
  }

  function At(m: nat): nat { m * 16384 }

  /** The image holds at page `m` what `page` carries. */
  ghost predicate Holds(image: seq<byte>, m: nat, page: Page) {
    At(m) + IMAGE_PAGE <= |image| && image[At(m)..At(m) + IMAGE_PAGE] == Payload(page)
  }

  /** The image after all of `pages`: decided pages hold their payload, every other byte is as before. */
  ghost predicate Merged(before: seq<byte>, pages: seq<Page>, image: seq<byte>) {
    && |before| <= |image|
    && (forall k, m :: Decides(pages, k, m) && m != NO_MARKER ==> Holds(image, m, pages[k]))
    && (forall p :: 0 <= p < |image| && !Seen(pages, p / 16384) ==> image[p] == if p < |before| then before[p] else 0)
    && EndsAt(before, pages, |image|)
  }

  /** The image ends where it did before, or with one of the pages. */
  ghost predicate EndsAt(before: seq<byte>, pages: seq<Page>, size: nat) {
    size == |before| || exists m :: m != NO_MARKER && Seen(pages, m) && size == At(m) + IMAGE_PAGE
  }

  /** So its length is the furthest of these ends. */
  lemma ImageLength(before: seq<byte>, pages: seq<Page>, image: seq<byte>)
    requires Merged(before, pages, image)
    ensures |before| <= |image| && EndsAt(before, pages, |image|)
    ensures forall m :: m != NO_MARKER && Seen(pages, m) ==> At(m) + IMAGE_PAGE <= |image|
  {
    hide Seen;
    forall m | m != NO_MARKER && Seen(pages, m)
      ensures At(m) + IMAGE_PAGE <= |image|
    {
      var k := SomeDecides(pages, m);
      assert Holds(image, m, pages[k]);
    }
  }

  /** The image in the pages' own bytes: a page whose four marker bytes are not
      all 0xFF, and that is the last flagged one of its number, or the last of
      all when none is flagged, has its sixteen kilobytes at its number. */
  lemma ImageBytes(before: seq<byte>, pages: seq<Page>, image: seq<byte>, k: nat, sector: nat, d: nat)
    requires Merged(before, pages, image) && k < |pages| && sector < 16 && d < 1024
    requires pages[k][1024..1028] != [0xFF, 0xFF, 0xFF, 0xFF]
    requires forall j :: 0 <= j < |pages| && Marker(pages[j]) == Marker(pages[k]) ==>
      if pages[k][1027] == 0x10 then j > k ==> pages[j][1027] != 0x10 else j <= k && pages[j][1027] != 0x10
    ensures var page := pages[k];
      var at := (page[1024] as int * 0x8000 + page[1025] as int * 0x80 + page[1026] as int % 0x80) * 16384 + sector * 1024 + d;
      at < |image| && image[at] == page[sector * 1152 + d]
  {
    MarkerBytes(pages[k]);
    var m := Marker(pages[k]);
    hide Merged, Marker;
    assert Decides(pages, k, m);
    hide Decides;
    MergedHolds(before, pages, image, k, m);
    HeldByte(image, m, pages[k], sector, d);
  }

  lemma HeldByte(image: seq<byte>, m: nat, page: Page, sector: nat, d: nat)
    requires Holds(image, m, page) && sector < 16 && d < 1024
    ensures var at := m * 16384 + sector * 1024 + d;
      at < |image| && image[at] == page[sector * 1152 + d]
  {
    assert image[At(m)..At(m) + IMAGE_PAGE][sector * 1024 + d] == Payload(page)[sector * 1024 + d];
  }

  lemma MergedHolds(before: seq<byte>, pages: seq<Page>, image: seq<byte>, k: nat, m: nat)
    requires Merged(before, pages, image) && Decides(pages, k, m) && m != NO_MARKER
    ensures Holds(image, m, pages[k])
  {
  }

  ghost predicate Recorded(pages: seq<Page>, imageMap: map<nat, bool>) {
    forall m :: m in imageMap <==> m != NO_MARKER && SeenFinal(pages, m)
  }

  lemma InMap(pages: seq<Page>, imageMap: map<nat, bool>, m: nat)
    requires Recorded(pages, imageMap)
    ensures m in imageMap <==> m != NO_MARKER && SeenFinal(pages, m)
  {
  }

  /** Every image page that was seen has a page that decides it. */
  lemma SomeDecides(pages: seq<Page>, m: nat) returns (k: int)
    requires Seen(pages, m)
    ensures Decides(pages, k, m)
  {
    k := |pages| - 1;
    if SeenFinal(pages, m) {
      while !(Marker(pages[k]) == m && Final(pages[k]))
        invariant 0 <= k < |pages|
        invariant exists j :: 0 <= j <= k && Marker(pages[j]) == m && Final(pages[j])
        invariant forall j :: k < j < |pages| && Marker(pages[j]) == m ==> !Final(pages[j])
        decreases k
      {
        k := k - 1;
      }
    } else {
      while Marker(pages[k]) != m
        invariant 0 <= k < |pages|
        invariant exists j :: 0 <= j <= k && Marker(pages[j]) == m
        invariant forall j :: k < j < |pages| ==> Marker(pages[j]) != m
        decreases k
      {
        k := k - 1;
      }
    }
  }

  // ---------- one page

  predicate Writes(pages: seq<Page>, page: Page) {
    Final(page) || !SeenFinal(pages, Marker(page))
  }

  lemma DecidesNext(pages: seq<Page>, page: Page, k: int, m: nat)
    ensures Decides(pages + [page], k, m) <==>
      if m == Marker(page) && Writes(pages, page) then k == |pages| else Decides(pages, k, m)
  {
    hide Marker, Final;
    var more := pages + [page];
    assert more[|pages|] == page;
    assert forall j :: 0 <= j < |pages| ==> more[j] == pages[j];
  }

  lemma HoldsStill(image: seq<byte>, at: nat, data: seq<byte>, m: nat, page: Page)
    requires Holds(image, m, page) && |data| == IMAGE_PAGE && at != m
    ensures Holds(Overwrite(image, At(at), data), m, page)
  {
    hide Payload;
    var image' := Overwrite(image, At(at), data);
    assert forall p :: At(m) <= p < At(m) + IMAGE_PAGE ==> image'[p] == image[p];
  }

  lemma MergedNext(before: seq<byte>, pages: seq<Page>, image: seq<byte>, page: Page)
    requires Merged(before, pages, image)
    ensures var image' := if Marker(page) != NO_MARKER && Writes(pages, page)
                          then Overwrite(image, At(Marker(page)), Payload(page)) else image;
      Merged(before, pages + [page], image')
  {
    var here, more := Marker(page), pages + [page];
    var image' := if here != NO_MARKER && Writes(pages, page) then Overwrite(image, At(here), Payload(page)) else image;
    hide Marker, Final, Payload, Overwrite, Writes;
    forall k, m | Decides(more, k, m) && m != NO_MARKER
      ensures Holds(image', m, more[k])
    {
      DecidesNext(pages, page, k, m);
      if m == here && Writes(pages, page) {
        WrittenHolds(image, m, page);
      } else {
        assert more[k] == pages[k];
        if here != NO_MARKER && Writes(pages, page) {
          HoldsStill(image, here, Payload(page), m, pages[k]);
        }
      }
    }
    EndsNext(before, pages, image, page);
    forall p | 0 <= p < |image'| && !Seen(more, p / 16384)
      ensures image'[p] == if p < |before| then before[p] else 0
    {
      NotSeenBefore(pages, page, p / 16384);
    }
  }

  lemma EndsNext(before: seq<byte>, pages: seq<Page>, image: seq<byte>, page: Page)
    requires EndsAt(before, pages, |image|)
    ensures EndsAt(before, pages + [page], |image|)
    ensures Marker(page) != NO_MARKER ==>
      EndsAt(before, pages + [page], |Overwrite(image, At(Marker(page)), Payload(page))|)
  {
    hide Marker, Payload;
    var more := pages + [page];
    assert more[|pages|] == page && forall j :: 0 <= j < |pages| ==> more[j] == pages[j];
    assert Seen(more, Marker(page));
    assert forall m :: Seen(pages, m) ==> Seen(more, m);
  }

  lemma WrittenHolds(image: seq<byte>, m: nat, page: Page)
    ensures Holds(Overwrite(image, At(m), Payload(page)), m, page)
  {
    hide Payload;
    var image', data := Overwrite(image, At(m), Payload(page)), Payload(page);
    assert image'[At(m)..At(m) + IMAGE_PAGE] == data;
  }

  lemma NotSeenBefore(pages: seq<Page>, page: Page, m: nat)
    requires !Seen(pages + [page], m)
    ensures !Seen(pages, m) && Marker(page) != m
  {
    hide Marker;
    var more := pages + [page];
    assert more[|pages|] == page;
    assert forall j :: 0 <= j < |pages| ==> more[j] == pages[j];
  }

  lemma RecordedNext(pages: seq<Page>, imageMap: map<nat, bool>, page: Page)
    requires Recorded(pages, imageMap)
    ensures Recorded(pages + [page],
      if Marker(page) != NO_MARKER && Final(page) && Marker(page) !in imageMap then imageMap[Marker(page) := true] else imageMap)
  {
    hide Marker, Final;
    var more := pages + [page];
    assert more[|pages|] == page;
    forall m: nat
      ensures SeenFinal(more, m) <==> SeenFinal(pages, m) || (Marker(page) == m && Final(page))
    {
      if SeenFinal(pages, m) {
        var j :| 0 <= j < |pages| && Marker(pages[j]) == m && Final(pages[j]);
        assert more[j] == pages[j];
      }
      if Marker(page) == m && Final(page) {
        assert Marker(more[|pages|]) == m && Final(more[|pages|]);
      }
    }
  }

  // ---------- the program

  /** The pages of a dump file; a rest shorter than a page does not count. */
  function DumpPages(media: seq<byte>): (r: seq<Page>)
    ensures |r| == |media| / 18592
    ensures forall i :: 0 <= i < |r| ==> r[i] == media[i * 18592..i * 18592 + 18592]
  {
    seq(|media| / 18592, i requires 0 <= i < |media| / 18592 => PageAt(media, i))
  }

  function PageAt(media: seq<byte>, i: nat): (r: Page)
    requires i < |media| / 18592
  {
    media[i * 18592..i * 18592 + 18592]
  }

  class FleshCollector {
    var imageMap: map<nat, bool>

    constructor ()
      ensures imageMap == map[]
    {
      imageMap := map[];
    }

    /** What the image and the record of final pages must be after `pages`. */
    ghost predicate After(before: seq<byte>, pages: seq<Page>, image: seq<byte>)
      reads this
    {
      Merged(before, pages, image) && Recorded(pages, imageMap)
    }

    method AddPage(page: Page, image: File, ghost before: seq<byte>, ghost pages: seq<Page>)
      requires image.Ready() && After(before, pages, image.media)
      modifies this, image`position, image`media, image`size
      ensures After(before, pages + [page], image.media)
    {
      MarkerAccepted(page);
      InMap(pages, imageMap, Marker(page));
      hide Merged, Payload, Recorded, SeenFinal, Marker, Final, Overwrite;
      MergedNext(before, pages, image.media, page);
      RecordedNext(pages, imageMap, page);
      var marker := Marker(page);
      var imageOffset := marker * IMAGE_PAGE;
      if imageOffset < MAX_IMAGE_SIZE {
        if marker !in imageMap {
          if Final(page) {
            imageMap := imageMap[marker := true];
          }
          WritePage(page, image, imageOffset);
        } else if Final(page) {
          WritePage(page, image, imageOffset);
        }
      }
    }

    method WritePage(page: Page, image: File, imageOffset: nat)
      requires image.Ready()
      modifies image`position, image`media, image`size
      ensures image.media == Overwrite(old(image.media), imageOffset, Payload(page))
    {
      hide Payload, Overwrite;
      var imagePage := new byte[IMAGE_PAGE];
      DumpToImage(page, imagePage);
      image.SetPosition(imageOffset);
      var _ := image.WriteData(imagePage[..]);
    }

    /** One dump file, page by page; false when its last page is cut short and the read throws. */
    method AddDump(dump: File, image: File, ghost before: seq<byte>, ghost pages: seq<Page>) returns (ok: bool)
      requires dump != image && dump.Ready() && image.Ready() && After(before, pages, image.media)
      modifies this, dump`position, image`position, image`media, image`size
      ensures ok <==> |dump.media| % DUMP_PAGE == 0
      ensures After(before, pages + DumpPages(dump.media), image.media)
    {
      hide Merged;
      var dumpOffset, i := 0, 0;
      ghost var all := DumpPages(dump.media);
      assert pages + all[..0] == pages;
      while dumpOffset < |dump.media|
        invariant dumpOffset == i * 18592 && i <= |all|
        invariant After(before, pages + all[..i], image.media)
      {
        dump.SetPosition(dumpOffset);
        var dumpPage := dump.ReadData(DUMP_PAGE);
        if dumpPage.None? {
          assert i == |all| && all[..i] == all;
          return false;
        }
        assert dumpPage.value == PageAt(dump.media, i) == all[i];
        AddPage(dumpPage.value, image, before, pages + all[..i]);
        assert pages + all[..i] + [all[i]] == pages + all[..i + 1];
        dumpOffset, i := dumpOffset + DUMP_PAGE, i + 1;
      }
      assert all[..i] == all;
      ok := true;
    }

    /** All dump files, in their order, into one image. When it ends early, the
        pages added are those up to the cut one. */
    method SaveImage(dumps: seq<File>, image: File) returns (ok: bool, ghost pages: seq<Page>)
      requires image.Ready() && imageMap == map[]
      requires forall d :: d in dumps ==> d != image && d.Ready()
      modifies this, dumps`position, image`position, image`media, image`size
      ensures After(old(image.media), pages, image.media)
      ensures pages <= AllPages(dumps)
      ensures ok ==> pages == AllPages(dumps)
      ensures !ok ==> exists i :: 0 <= i < |dumps| && pages == AllPages(dumps[..i + 1]) && FirstCut(dumps, i)
      ensures ok <==> forall d :: d in dumps ==> |d.media| % DUMP_PAGE == 0
    {
      hide Merged, DumpPages;
      ghost var before := image.media;
      MergedStart(before);
      pages := [];
      for i := 0 to |dumps|
        invariant After(before, pages, image.media) && pages == AllPages(dumps[..i])
        invariant forall d :: d in dumps[..i] ==> |d.media| % DUMP_PAGE == 0
      {
        assert dumps[i] in dumps;
        AllPagesSplit(dumps, i);
        ok := AddDump(dumps[i], image, before, pages);
        pages := pages + DumpPages(dumps[i].media);
        assert dumps[..i + 1] == dumps[..i] + [dumps[i]];
        assert forall j :: 0 <= j < i ==> dumps[j] in dumps[..i];
        if !ok {
          assert FirstCut(dumps, i);
          return;
        }
      }
      assert dumps[..|dumps|] == dumps;
      ok := true;
    }
  }

  /** Dump `i` is the first one whose last page is cut short. */
  predicate FirstCut(dumps: seq<File>, i: nat)
    requires i < |dumps|
    reads dumps`media
  {
    |dumps[i].media| % DUMP_PAGE != 0 && forall j :: 0 <= j < i ==> |dumps[j].media| % DUMP_PAGE == 0
  }

  lemma MergedStart(before: seq<byte>)
    ensures Merged(before, [], before) && Recorded([], map[])
  {
  }

  function AllPages(dumps: seq<File>): (r: seq<Page>)
    reads dumps`media
  {
    if dumps == [] then [] else AllPages(dumps[..|dumps| - 1]) + DumpPages(dumps[|dumps| - 1].media)
  }

  lemma {:induction false} AllPagesSplit(dumps: seq<File>, i: nat)
    requires i < |dumps|
    ensures AllPages(dumps[..i + 1]) == AllPages(dumps[..i]) + DumpPages(dumps[i].media)
    ensures AllPages(dumps[..i + 1]) <= AllPages(dumps)
    decreases |dumps|
  {
    hide DumpPages;
    assert dumps[..i + 1][..i] == dumps[..i];
    if i + 1 < |dumps| {
      var front := dumps[..|dumps| - 1];
      AllPagesSplit(front, i);
      assert front[..i + 1] == dumps[..i + 1];
    } else {
      assert dumps[..i + 1] == dumps;
    }
  }
}
