/** How much of its file a table takes: packed data pages, and one page skipped for each. */
module HeapSpace {
  import opened Bytes
  import opened BitmapSpec
  import opened FileSpec
  import opened FileRuns
  import opened TupleSpec
  import opened PoolRuns
  import opened HeapLayout
  import opened HeapSpec

  /** How many blocks of d hold n things. */
  function CeilDiv(n: nat, d: nat): nat
    requires d > 0
  {
    if n == 0 then 0 else if n <= d then 1 else 1 + CeilDiv(n - d, d)
  }

  /** That is n / d, rounded up. */
  lemma {:induction false} CeilDivRoundsUp(n: nat, d: nat, q: nat)
    requires d > 0
    ensures CeilDiv(n, d) == q <==> (q - 1) * d < n <= q * d || (n == 0 && q == 0)
  {
    if n > d {
      CeilDivRoundsUp(n - d, d, if q > 0 then q - 1 else 0);
      assert (q - 1) * d == (q - 2) * d + d && q * d == (q - 1) * d + d;
    } else if q > 1 {
      assert (q - 1) * d == (q - 2) * d + d && (q - 2) * d >= 0;
    }
  }

  /** The slots of this many pages. */
  function SlotsOf(slots: nat, pages: nat): nat {
    if pages == 0 then 0 else SlotsOf(slots, pages - 1) + slots
  }

  lemma {:induction false} SlotsOfIsProduct(slots: nat, pages: nat)
    ensures SlotsOf(slots, pages) == pages * slots
  {
    if pages > 0 {
      SlotsOfIsProduct(slots, pages - 1);
    }
  }

  /** The slots of page c that hold a tuple. */
  ghost function TakenIn(h: Layout, mem: Memory, c: int): nat
    requires h.Ok() && PagesSized(h, mem)
  {
    CountTaken(SlotMap(h, At(h, mem, c)))
  }

  /** A table that only ever had inserts: one free page at most, and never an empty one. */
  ghost predicate Packed(h: Layout, t: Table) {
    && TableOk(h, t) && |t.ls.free| <= 1
    && (t.ls.free != [] ==> TakenIn(h, t.mem, t.ls.free[0]) > 0)
  }

  /** The slots that hold a tuple, in all pages. */
  ghost function Used(h: Layout, t: Table): nat
    requires TableOk(h, t)
  {
    SlotsOf(h.Slots(), |t.ls.full|) + if t.ls.free == [] then 0 else TakenIn(h, t.mem, t.ls.free[0])
  }

  /** The file of such a table: the root, and two pages for each data page. */
  function PagesTaken(ls: Lists): nat {
    1 + 2 * (|ls.free| + |ls.full|)
  }

  lemma FreeSlotsLeft(h: Layout, mem: Memory, c: int)
    requires h.Ok() && PagesSized(h, mem)
    ensures HasSpace(h, mem, c) <==> TakenIn(h, mem, c) < h.Slots()
  {
    FreePlusTaken(SlotMap(h, At(h, mem, c)));
  }

  /** Storing a tuple takes one slot of its page. */
  lemma StoreTakesOne(h: Layout, mem: Memory, ls: Lists, cells: seq<Cell>)
    requires HeapOk(h, mem, ls) && ls.free != [] && TypesOf(cells) == h.types
    ensures Sized(h, At(h, mem, ls.free[0]))
    ensures HeapOkButHead(h, StoreTuple(h, mem, ls.free[0], cells), ls)
    ensures TakenIn(h, StoreTuple(h, mem, ls.free[0], cells), ls.free[0]) == TakenIn(h, mem, ls.free[0]) + 1
  {
    StoreTupleKeeps(h, mem, ls, cells);
    var page := At(h, mem, ls.free[0]);
    var bits := SlotMap(h, page);
    FirstFreeNoneIffFull(bits);
    var i := FirstFree(bits).value;
    PutRowReads(h, page, i, cells);
    CountFreeSet(bits, i, true);
    FreePlusTaken(bits);
    FreePlusTaken(bits[i := true]);
  }

  lemma DataPages(n: nat, slots: nat, full: nat, free: nat, taken: nat)
    requires slots > 0 && n == SlotsOf(slots, full) + taken && free <= 1
    requires if free == 0 then taken == 0 else 0 < taken < slots
    ensures free + full == CeilDiv(n, slots)
  {
    SlotsOfIsProduct(slots, full);
    SlotsOfIsProduct(slots, full + 1);
    CeilDivRoundsUp(n, slots, free + full);
  }

  /** A packed table has as few data pages as its tuples need. */
  lemma PackedPageCount(h: Layout, t: Table)
    requires Packed(h, t)
    ensures |t.ls.free| + |t.ls.full| == CeilDiv(Used(h, t), h.Slots())
    ensures PagesTaken(t.ls) == 1 + 2 * CeilDiv(Used(h, t), h.Slots())
  {
    if t.ls.free == [] {
      DataPages(Used(h, t), h.Slots(), |t.ls.full|, 0, 0);
    } else {
      assert t.ls.free[0] in t.ls.free;
      FreeSlotsLeft(h, t.mem, t.ls.free[0]);
      DataPages(Used(h, t), h.Slots(), |t.ls.full|, 1, TakenIn(h, t.mem, t.ls.free[0]));
    }
  }

  /** When no page is free, the next tuple needs one more. */
  lemma NextNeedsPage(h: Layout, t: Table)
    requires Packed(h, t) && t.ls.free == []
    ensures CeilDiv(Used(h, t) + 1, h.Slots()) == |t.ls.full| + 1
  {
    if h.Slots() == 1 {
      DataPages(Used(h, t) + 1, 1, |t.ls.full| + 1, 0, 0);
    } else {
      DataPages(Used(h, t) + 1, h.Slots(), |t.ls.full|, 1, 1);
    }
  }

  /** The head has room left: it stays. */
  lemma HeadStays(h: Layout, mem: Memory, ls: Lists)
    requires HeapOk(h, mem, ls) && |ls.free| == 1 && TakenIn(h, mem, ls.free[0]) > 0
    ensures Packed(h, Table(mem, ls))
    ensures Used(h, Table(mem, ls)) == SlotsOf(h.Slots(), |ls.full|) + TakenIn(h, mem, ls.free[0])
  {
  }

  lemma MovedShape(h: Layout, mem: Memory, ls: Lists)
    requires CanMove(h, mem, ls) && |ls.free| == 1
    ensures var ls' := MoveToFull(h, mem, ls).1; ls'.free == [] && |ls'.full| == |ls.full| + 1
  {
  }

  /** The head is full: it moves, and all its slots count. */
  lemma HeadMoves(h: Layout, mem: Memory, ls: Lists)
    requires HeapOkButHead(h, mem, ls) && |ls.free| == 1 && !HasSpace(h, mem, ls.free[0])
    ensures CanMove(h, mem, ls) && TakenIn(h, mem, ls.free[0]) == h.Slots()
    ensures var (mem', ls') := MoveToFull(h, mem, ls);
            && ls'.free == [] && |ls'.full| == |ls.full| + 1 && Packed(h, Table(mem', ls'))
            && Used(h, Table(mem', ls')) == SlotsOf(h.Slots(), |ls.full|) + h.Slots()
  {
    MoveToFullKeeps(h, mem, ls);
    MovedShape(h, mem, ls);
    FreePlusTaken(SlotMap(h, At(h, mem, ls.free[0])));
  }

  /** Filling the only free page takes one slot more. */
  lemma FillPacks(h: Layout, mem: Memory, ls: Lists, cells: seq<Cell>)
    requires HeapOk(h, mem, ls) && |ls.free| == 1 && TypesOf(cells) == h.types
    ensures Fillable(h, mem, ls, cells)
    ensures var (mem', ls') := FillHead(h, mem, ls, cells);
            && Packed(h, Table(mem', ls'))
            && Used(h, Table(mem', ls')) == SlotsOf(h.Slots(), |ls.full|) + TakenIn(h, mem, ls.free[0]) + 1
            && |ls'.free| + |ls'.full| == |ls.full| + 1
  {
    FillHeadKeeps(h, mem, ls, cells);
    StoreTakesOne(h, mem, ls, cells);
    var stored := StoreTuple(h, mem, ls.free[0], cells);
    if HasSpace(h, stored, ls.free[0]) {
      HeadStays(h, stored, ls);
    } else {
      HeadMoves(h, stored, ls);
    }
  }

  /** A packed table stays packed, and an insert takes one slot; it takes a page more exactly when no
      page was free. */
  lemma InsertPacks(h: Layout, a: Table, b: Table, cursor: int, cells: seq<Cell>)
    requires Inserts(h, a, b, cursor, cells) && Packed(h, a)
    ensures Packed(h, b) && Used(h, b) == Used(h, a) + 1
    ensures PagesTaken(b.ls) == PagesTaken(a.ls) + if a.ls.free == [] then 2 else 0
  {
    if a.ls.free == [] {
      AddPageKeeps(h, a.mem, a.ls, cursor);
      var (mem, ls) := AddPage(h, a.mem, a.ls, cursor);
      NewPage(h, At(h, a.mem, cursor));
      FreePlusTaken(SlotMap(h, At(h, mem, cursor)));
      NewPageSlots(h, a.mem, a.ls, cursor);
      FillPacks(h, mem, ls, cells);
    } else {
      FillPacks(h, a.mem, a.ls, cells);
    }
  }

  lemma NewPageSlots(h: Layout, mem: Memory, ls: Lists, c: int)
    requires HeapOk(h, mem, ls) && ls.free == [] && Fresh(ls, c)
    ensures PagesSized(h, AddPage(h, mem, ls, c).0) && TakenIn(h, AddPage(h, mem, ls, c).0, c) == 0
  {
    AddPageKeeps(h, mem, ls, c);
    var page := Zeros(h.pageSize);
    ZeroPageIsEmpty(h);
    FreePlusTaken(SlotMap(h, page));
    PutLinkKeepsSlots(h, page, FREE_OFFSET, NO_PAGE);
    PutLinkKeepsSlots(h, PutWord(page, FREE_OFFSET, NO_PAGE), FULL_OFFSET, NO_PAGE);
  }

  // ---------------------------------------------------------------- whole runs

  /** The page counts of the file along a run: an insert takes the cursor after the last page, and
      the file then reaches up to it. */
  ghost predicate IsFileRun(ts: seq<Table>, cursors: seq<int>, pages: seq<nat>) {
    && |pages| == |ts| == |cursors| + 1 && pages[0] == PagesTaken(ts[0].ls)
    && forall i {:trigger cursors[i]} :: 0 <= i < |cursors| ==>
         && cursors[i] == pages[i] + 1
         && pages[i + 1] == if ts[i].ls.free == [] then cursors[i] + 1 else pages[i]
  }

  lemma RunPacks(h: Layout, ts: seq<Table>, cursors: seq<int>, rows: seq<seq<Cell>>, pages: seq<nat>, n: nat)
    requires IsRun(h, ts, cursors, rows) && IsFileRun(ts, cursors, pages) && n <= |rows|
    requires Packed(h, ts[0])
    ensures Packed(h, ts[n]) && Used(h, ts[n]) == Used(h, ts[0]) + n && pages[n] == PagesTaken(ts[n].ls)
  {
    var i := 0;
    while i < n
      invariant i <= n && Packed(h, ts[i])
      invariant Used(h, ts[i]) == Used(h, ts[0]) + i && pages[i] == PagesTaken(ts[i].ls)
    {
      var j := i + 1;
      StepPacks(h, ts, cursors, rows, pages, i, j);
      i := j;
    }
  }

  lemma StepPacks(h: Layout, ts: seq<Table>, cursors: seq<int>, rows: seq<seq<Cell>>, pages: seq<nat>, i: nat, j: nat)
    requires IsRun(h, ts, cursors, rows) && IsFileRun(ts, cursors, pages) && j == i + 1 <= |rows|
    requires Packed(h, ts[i]) && pages[i] == PagesTaken(ts[i].ls)
    ensures Packed(h, ts[j]) && Used(h, ts[j]) == Used(h, ts[i]) + 1
    ensures pages[j] == PagesTaken(ts[j].ls)
  {
    assert Inserts(h, ts[i], ts[i + 1], cursors[i], rows[i]);
    InsertPacks(h, ts[i], ts[i + 1], cursors[i], rows[i]);
  }

  lemma EmptyIsPacked(h: Layout, t: Table)
    requires TableOk(h, t) && t.ls == EMPTY
    ensures Packed(h, t) && Used(h, t) == 0
  {
  }

  /** The root page of a new table is all its file. */
  ghost predicate StartsEmpty(ts: seq<Table>) {
    ts != [] && ts[0].ls == EMPTY
  }

  /** After n inserts into a new table its file has exactly 1 + 2 * ceil(n / slots) pages. */
  lemma PagesAfterInserts(h: Layout, ts: seq<Table>, cursors: seq<int>, rows: seq<seq<Cell>>, pages: seq<nat>, n: nat)
    requires IsRun(h, ts, cursors, rows) && StartsEmpty(ts)
    requires IsFileRun(ts, cursors, pages) && n <= |rows|
    ensures pages[n] == 1 + 2 * CeilDiv(n, h.Slots())
  {
    EmptyIsPacked(h, ts[0]);
    RunPacks(h, ts, cursors, rows, pages, n);
    PackedPageCount(h, ts[n]);
  }

  /** Every page `extend` answers before the n-th insert can be pinned. */
  ghost predicate ExtendsFit(ts: seq<Table>, cursors: seq<int>, pageSize: nat, maxSize: nat, n: nat)
    requires n <= |cursors| <= |ts|
  {
    forall i {:trigger cursors[i]} :: 0 <= i < n && ts[i].ls.free == [] ==> 0 <= cursors[i] && Fits(pageSize, maxSize, cursors[i])
  }

  /** The cursors fit iff the file they lead to does. */
  lemma ExtendsFitIff(ts: seq<Table>, cursors: seq<int>, pages: seq<nat>, pageSize: nat, maxSize: nat, n: nat)
    requires IsFileRun(ts, cursors, pages) && n <= |cursors| && pages[0] * pageSize < maxSize
    ensures ExtendsFit(ts, cursors, pageSize, maxSize, n) <==> pages[n] * pageSize < maxSize
  {
    var i := 0;
    while i < n
      invariant i <= n
      invariant ExtendsFit(ts, cursors, pageSize, maxSize, i) <==> pages[i] * pageSize < maxSize
    {
      assert cursors[i] == pages[i] + 1;
      if ts[i].ls.free == [] {
        MulMonotone(pages[i], pages[i + 1], pageSize);
      }
      i := i + 1;
    }
  }

  /** A file may hold the pages that n tuples need. */
  predicate RoomFor(h: Layout, maxSize: nat, n: nat)
    requires h.Ok()
  {
    Fits(h.pageSize, maxSize, 2 * CeilDiv(n, h.Slots()))
  }

  /** A run of inserts into a new table fits a disk iff 1 + 2 * ceil(n / slots) pages stay below the
      maximum size: then, and only then, every fresh page on the way can be pinned. */
  lemma RunFitsIff(h: Layout, ts: seq<Table>, cursors: seq<int>, rows: seq<seq<Cell>>, pages: seq<nat>, maxSize: nat)
    requires IsRun(h, ts, cursors, rows) && StartsEmpty(ts)
    requires IsFileRun(ts, cursors, pages) && h.pageSize < maxSize
    ensures ExtendsFit(ts, cursors, h.pageSize, maxSize, |rows|)
            <==> RoomFor(h, maxSize, |rows|)
  {
    ExtendsFitIff(ts, cursors, pages, h.pageSize, maxSize, |rows|);
    PagesAfterInserts(h, ts, cursors, rows, pages, |rows|);
  }

  lemma {:induction false} CeilDivMonotone(m: nat, n: nat, d: nat)
    requires d > 0 && m <= n
    ensures CeilDiv(m, d) <= CeilDiv(n, d)
  {
    if m > d {
      CeilDivMonotone(m - d, n - d, d);
    }
  }

  /** In a file with room for more tuples than a packed table holds, a fresh page fits when it is needed. */
  lemma NextFits(h: Layout, t: Table, maxSize: nat, total: nat)
    requires Packed(h, t) && t.ls.free == [] && Used(h, t) < total && RoomFor(h, maxSize, total)
    ensures Fits(h.pageSize, maxSize, PagesTaken(t.ls) + 1)
  {
    NextNeedsPage(h, t);
    CeilDivMonotone(Used(h, t) + 1, total, h.Slots());
    MulLe(PagesTaken(t.ls) + 2, 2 * CeilDiv(total, h.Slots()) + 1, h.pageSize);
  }
}
