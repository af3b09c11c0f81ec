/** The heap's pages byte by byte: what each change of a table stores, and where, in numbers. */
module HeapBytes {
  import opened Bytes
  import opened BitmapSpec
  import opened TupleSpec
  import opened StoreSpec
  import opened PoolRuns
  import opened HeapLayout
  import opened HeapSpec

  /** Both links of a data page at their end. */
  const NO_LINKS: seq<byte> := [0xFF, 0xFF, 0xFF, 0xFF, 0xFF, 0xFF, 0xFF, 0xFF]

  function WordBytes(c: int): seq<byte>
    requires 0 <= c < 0x8000_0000
  {
    [c % 0x100, c / 0x100 % 0x100, c / 0x1_0000 % 0x100, c / 0x100_0000 % 0x100]
  }

  /** The root page of a new table: the stamp 1, then two empty lists. */
  lemma RootPageBytes(page: Page)
    requires |page| >= 12
    ensures RootPage(page) == [1, 0, 0, 0] + NO_LINKS + page[12..]
  {
    Int32Bytes(STAMP);
    Int32Bytes(NO_PAGE);
    var stamped := PutWord(page, STAMP_OFFSET, STAMP);
    SpliceParts(page, STAMP_OFFSET, EncodeInt32(STAMP));
    SpliceParts(stamped, ROOT_FREE_OFFSET, EncodeInt32(NO_PAGE));
    SpliceParts(PutWord(stamped, ROOT_FREE_OFFSET, NO_PAGE), ROOT_FULL_OFFSET, EncodeInt32(NO_PAGE));
  }

  /** The pages of a new table: the root page, and zeros. */
  ghost predicate NewPages(h: Layout, mem: Memory) {
    && h.pageSize >= 12 && At(h, mem, 0) == [1, 0, 0, 0] + NO_LINKS + Zeros(h.pageSize - 12)
    && forall c: int :: c != 0 ==> At(h, mem, c) == Zeros(h.pageSize)
  }

  lemma StampedZeros(h: Layout, mem: Memory)
    requires h.pageSize >= 12 && At(h, mem, 0) == RootPage(Zeros(h.pageSize))
    requires forall c: int :: c != 0 ==> At(h, mem, c) == Zeros(h.pageSize)
    ensures NewPages(h, mem)
  {
    RootPageBytes(Zeros(h.pageSize));
    assert Zeros(h.pageSize)[12..] == Zeros(h.pageSize - 12);
  }

  /** A page added to the empty free list: its number stands in bytes 4 to 7 of the root page, and its
      own links are at their end. */
  lemma AddPageBytes(h: Layout, mem: Memory, ls: Lists, c: int)
    requires h.Ok() && PagesSized(h, mem) && 0 < c < 0x8000_0000
    ensures var mem' := AddPage(h, mem, ls, c).0;
            && At(h, mem', 0) == At(h, mem, 0)[..4] + WordBytes(c) + At(h, mem, 0)[8..]
            && At(h, mem', c) == NO_LINKS + At(h, mem, c)[8..]
            && forall k: Key :: k != Key(h.disk, 0) && k != Key(h.disk, c) ==> mem'[k] == mem[k]
  {
    Int32Bytes(c);
    Int32Bytes(NO_PAGE);
    SpliceParts(At(h, mem, 0), ROOT_FREE_OFFSET, EncodeInt32(c));
    var freed := PutWord(At(h, mem, c), FREE_OFFSET, NO_PAGE);
    SpliceParts(At(h, mem, c), FREE_OFFSET, EncodeInt32(NO_PAGE));
    SpliceParts(freed, FULL_OFFSET, EncodeInt32(NO_PAGE));
  }

  /** Taking page c off the head of the free list: the root page takes over c's own free link. */
  lemma UnlinkHeadBytes(h: Layout, mem: Memory, c: int)
    requires h.Ok() && PagesSized(h, mem)
    ensures var mem' := UnlinkHead(h, mem, c);
            && At(h, mem', 0) == At(h, mem, 0)[..4] + At(h, mem, c)[..4] + At(h, mem, 0)[8..]
            && forall k: Key :: k != Key(h.disk, 0) ==> mem'[k] == mem[k]
  {
    WordCopied(At(h, mem, c), FREE_OFFSET);
    SpliceParts(At(h, mem, 0), ROOT_FREE_OFFSET, At(h, mem, c)[..4]);
  }

  /** Appending page c to the full list: its number stands where the list ended, in bytes 8 to 11 of the
      root page if the list was empty, else in bytes 4 to 7 of its last page. */
  lemma AppendFullBytes(h: Layout, mem: Memory, full: seq<int>, c: int)
    requires h.Ok() && PagesSized(h, mem) && 0 < c < 0x8000_0000
    ensures var mem' := AppendFull(h, mem, full, c);
            var (last, at) := if full == [] then (0, 8) else (full[|full| - 1], 4);
            && At(h, mem', last) == At(h, mem, last)[..at] + WordBytes(c) + At(h, mem, last)[at + 4..]
            && forall k: Key :: k != Key(h.disk, last) ==> mem'[k] == mem[k]
  {
    Int32Bytes(c);
    var (last, at) := FullEnd(full);
    SpliceParts(At(h, mem, last), at, EncodeInt32(c));
  }

  /** Neither changes another page; so the moved page itself stays as it is, byte for byte. */
  lemma MovedPageStays(h: Layout, mem: Memory, ls: Lists)
    requires CanMove(h, mem, ls) && Partition(ls)
    ensures At(h, MoveToFull(h, mem, ls).0, ls.free[0]) == At(h, mem, ls.free[0])
    ensures MoveToFull(h, mem, ls).1 == Lists(ls.free[1..], ls.full + [ls.free[0]], ls.data)
    ensures forall k: Key :: k != Key(h.disk, 0) && (ls.full == [] || k != Key(h.disk, ls.full[|ls.full| - 1])) ==>
                               MoveToFull(h, mem, ls).0[k] == mem[k]
    ensures LinksOnly(h, mem, MoveToFull(h, mem, ls).0, ls.full)
  {
    var c := ls.free[0];
    assert c in ls.free && c in ls.data;
    UnlinkKeepsFullList(h, mem, ls, c);
    UnlinkHeadBytes(h, mem, c);
    AppendFullBytes(h, UnlinkHead(h, mem, c), ls.full, c);
    PatchInside(At(h, mem, 0), At(h, mem, c)[..4], 4, 4, 12);
    assert ls.full != [] ==> ls.full[|ls.full| - 1] in ls.full;
  }

  // ---------------------------------------------------------------- one insert

  /** The page an insert fills, as it is before the tuple: the head of the free list, or, when no page is
      free, a page of zeros with its links at their end. */
  ghost function Base(h: Layout, t: Table): Page
    requires h.Ok()
  {
    if t.ls.free == [] then NO_LINKS + Zeros(h.pageSize - 8) else At(h, t.mem, t.ls.free[0])
  }

  function Target(ls: Lists, cursor: int): int {
    if ls.free == [] then cursor else ls.free[0]
  }

  /** Slot i is the first whose bit is clear. */
  ghost predicate FirstClear(h: Layout, page: Page, i: nat) {
    && Sized(h, page) && i < h.Slots()
    && !SlotMap(h, page)[i] && forall j :: 0 <= j < i ==> SlotMap(h, page)[j]
  }

  /** Page c, which held `base`, has the tuple in slot i and every other byte but the slot's bit as
      before; it has left the front of the free list for the end of the full list iff that was its last
      slot. */
  ghost predicate Took(h: Layout, base: Page, c: int, i: nat, cells: seq<Cell>, free: seq<int>, full: seq<int>, mem: Memory, ls: Lists)
    requires FirstClear(h, base, i) && TypesOf(cells) == h.types && free != []
  {
    && At(h, mem, c) == PutRow(h, base, i, cells)
    && (if CountFree(SlotMap(h, base)) == 1 then ls.free == free[1..] && ls.full == full + [c]
        else ls.free == free && ls.full == full)
  }

  /** No page changes but the root page, page c, and the last page of the full list. */
  ghost predicate OthersStay(h: Layout, a: Memory, b: Memory, c: int, full: seq<int>) {
    forall k: Key :: k == Key(h.disk, 0) || k == Key(h.disk, c) || (full != [] && k == Key(h.disk, full[|full| - 1])) || b[k] == a[k]
  }

  /** The pages agree outside the bytes from lo to hi. */
  ghost predicate SameOutside(a: Page, b: Page, lo: nat, hi: nat)
    requires lo <= hi
  {
    hi <= |a| == |b| && a[..lo] == b[..lo] && a[hi..] == b[hi..]
  }

  /** Of the root page only the two list words may change, of the full list's last page only its full link. */
  ghost predicate LinksOnly(h: Layout, a: Memory, b: Memory, full: seq<int>) {
    && SameOutside(At(h, a, 0), At(h, b, 0), 4, 12)
    && (full != [] ==> SameOutside(At(h, a, full[|full| - 1]), At(h, b, full[|full| - 1]), 4, 8))
  }

  /** What one insert stores and where. */
  lemma InsertLands(h: Layout, a: Table, b: Table, cursor: int, cells: seq<Cell>, i: nat)
    requires Inserts(h, a, b, cursor, cells) && FirstClear(h, Base(h, a), i)
    ensures var c := Target(a.ls, cursor);
            && Took(h, Base(h, a), c, i, cells, if a.ls.free == [] then [c] else a.ls.free, a.ls.full, b.mem, b.ls)
            && OthersStay(h, a.mem, b.mem, c, a.ls.full) && LinksOnly(h, a.mem, b.mem, a.ls.full)
  {
    var c := Target(a.ls, cursor);
    var (mid, mids) := WithFreePage(h, a.mem, a.ls, cursor);
    BaseIs(h, a, cursor, mid, mids);
    HeapOkFillable(h, mid, mids, cells);
    FillLands(h, mid, mids, cells, c, Base(h, a), i, b.mem, b.ls);
  }

  lemma PatchInside(a: Page, w: seq<byte>, at: nat, lo: nat, hi: nat)
    requires lo <= at && at + |w| <= hi <= |a|
    ensures SameOutside(a, a[..at] + w + a[at + |w|..], lo, hi)
  {
  }

  lemma FreshBase(h: Layout, mem: Memory, ls: Lists, c: int)
    requires HeapOk(h, mem, ls) && ls.free == [] && Fresh(ls, c)
    ensures var (mid, mids) := AddPage(h, mem, ls, c);
            && At(h, mid, c) == NO_LINKS + Zeros(h.pageSize - 8)
            && mids.free == [c] && mids.full == ls.full
            && OthersStay(h, mem, mid, c, ls.full) && LinksOnly(h, mem, mid, ls.full)
  {
    AddPageBytes(h, mem, ls, c);
    PatchInside(At(h, mem, 0), WordBytes(c), 4, 4, 12);
    assert Zeros(h.pageSize)[8..] == Zeros(h.pageSize - 8);
    if ls.full != [] {
      assert ls.full[|ls.full| - 1] in ls.full;
    }
  }

  lemma BaseIs(h: Layout, a: Table, cursor: int, mid: Memory, mids: Lists)
    requires TableOk(h, a) && (a.ls.free == [] ==> Fresh(a.ls, cursor))
    requires (mid, mids) == WithFreePage(h, a.mem, a.ls, cursor)
    ensures At(h, mid, Target(a.ls, cursor)) == Base(h, a)
    ensures mids.free == (if a.ls.free == [] then [Target(a.ls, cursor)] else a.ls.free) && mids.full == a.ls.full
    ensures OthersStay(h, a.mem, mid, Target(a.ls, cursor), a.ls.full) && LinksOnly(h, a.mem, mid, a.ls.full)
  {
    if a.ls.free == [] {
      FreshBase(h, a.mem, a.ls, cursor);
    }
  }

  lemma StoreLands(h: Layout, mem: Memory, c: int, cells: seq<Cell>, i: nat)
    requires FirstClear(h, At(h, mem, c), i) && TypesOf(cells) == h.types
    ensures var page := At(h, mem, c);
            && StoreTuple(h, mem, c, cells) == Put(h, mem, c, PutRow(h, page, i, cells))
            && (CountFree(SlotMap(h, PutRow(h, page, i, cells))) > 0 <==> CountFree(SlotMap(h, page)) != 1)
  {
    var bits := SlotMap(h, At(h, mem, c));
    FirstFreeUnique(bits, Some(i));
    PutRowReads(h, At(h, mem, c), i, cells);
    CountFreeSet(bits, i, true);
  }

  lemma FillLands(h: Layout, mem: Memory, ls: Lists, cells: seq<Cell>, c: int, page: Page, i: nat, mem': Memory, ls': Lists)
    requires HeapOk(h, mem, ls) && Fillable(h, mem, ls, cells) && c == ls.free[0]
    requires page == At(h, mem, c) && FirstClear(h, page, i) && (mem', ls') == FillHead(h, mem, ls, cells)
    ensures Took(h, page, c, i, cells, ls.free, ls.full, mem', ls') && OthersStay(h, mem, mem', c, ls.full)
    ensures LinksOnly(h, mem, mem', ls.full)
  {
    StoreLands(h, mem, c, cells, i);
    var stored := StoreTuple(h, mem, c, cells);
    assert c in ls.free;
    assert At(h, stored, 0) == At(h, mem, 0) && (ls.full != [] ==> ls.full[|ls.full| - 1] in ls.full);
    if !HasSpace(h, stored, c) {
      MovedPageStays(h, stored, ls);
    }
  }

  /** In numbers: the bytes of the tuple stand at 8 + ceil(slots / 8) + i * size, i the first slot whose
      bit was clear. */
  lemma InsertBytes(h: Layout, a: Table, b: Table, cursor: int, cells: seq<Cell>)
    requires Inserts(h, a, b, cursor, cells)
    ensures Stands(h, Base(h, a), At(h, b.mem, Target(a.ls, cursor)), cells)
  {
    var page := Base(h, a);
    BaseHasSpace(h, a, cursor, cells);
    var i := FirstFree(SlotMap(h, page)).value;
    InsertLands(h, a, b, cursor, cells, i);
    PutRowStands(h, page, cells);
  }

  lemma PutRowStands(h: Layout, page: Page, cells: seq<Cell>)
    requires Sized(h, page) && TypesOf(cells) == h.types && FirstFree(SlotMap(h, page)).Some?
    ensures Stands(h, page, PutRow(h, page, FirstFree(SlotMap(h, page)).value, cells), cells)
  {
    var i := FirstFree(SlotMap(h, page)).value;
    PutRowBytesAre(h, page, i, cells, 0);
    assert StandsAt(h, page, PutRow(h, page, i, cells), cells, i);
  }

  lemma BaseHasSpace(h: Layout, a: Table, cursor: int, cells: seq<Cell>)
    requires TableOk(h, a) && TypesOf(cells) == h.types && (a.ls.free == [] ==> Fresh(a.ls, cursor))
    ensures Sized(h, Base(h, a)) && FirstFree(SlotMap(h, Base(h, a))).Some?
  {
    var (mid, mids) := WithFreePage(h, a.mem, a.ls, cursor);
    BaseIs(h, a, cursor, mid, mids);
    HeapOkFillable(h, mid, mids, cells);
    FirstFreeNoneIffFull(SlotMap(h, Base(h, a)));
  }

  /** Page `after` has the tuple where page `before` had its first clear slot. */
  ghost predicate Stands(h: Layout, before: Page, after: Page, cells: seq<Cell>) {
    exists i: nat :: StandsAt(h, before, after, cells, i)
  }

  ghost predicate StandsAt(h: Layout, before: Page, after: Page, cells: seq<Cell>, i: nat) {
    && Sized(h, before) && FirstClear(h, before, i)
    && var at := 8 + (h.Slots() + 7) / 8 + i * TotalSize(h.types);
       at + |Encode(cells)| <= |after| && after[at..at + |Encode(cells)|] == Encode(cells)
  }
}
