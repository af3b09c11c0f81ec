/** The imperative heap table of organizers/src/heap.cpp, over the buffer manager. */
module Heaps {
  import opened Bytes
  import opened BitmapSpec
  import opened Bitmaps
  import opened FileRuns
  import opened StoreSpec
  import opened PosixDiskManagers
  import opened TupleSpec
  import opened Tuples
  import opened BufferPages
  import opened BufferManagers
  import PoolSpec
  import opened PoolRuns
  import PoolCounts
  import opened HeapLayout
  import HeapSpec
  import HeapBytes

  const ROOT_PAGE := HeapSpec.ROOT_PAGE
  const HEAP_DISK_SUFFIX := ".heap"

  /** Load a page's bitmap, find its first free slot, set its bit, and store the bitmap back. */
  method TakeSlot(h: Layout, bytes: array<byte>) returns (slot: nat, bitmap: Bitmap)
    requires Sized(h, bytes[..]) && CountFree(SlotMap(h, bytes[..])) > 0
    modifies bytes
    ensures Some(slot) == FirstFree(SlotMap(h, old(bytes[..])))
    ensures slot < h.Slots() && bytes[..] == TakenSlot(h, old(bytes[..]), slot)
    ensures fresh(bitmap) && fresh(bitmap.bitmap) && bitmap.Valid() && bitmap.numBits == h.Slots()
    ensures bitmap.Contents() == SlotMap(h, old(bytes[..]))[slot := true]
  {
    ghost var page := bytes[..];
    RegionsDisjoint(h, 0, h.Slots());
    FirstFreeNoneIffFull(SlotMap(h, page));
    bitmap := new Bitmap(h.Slots());
    bitmap.Deserialize(bytes, BITMAP_OFFSET);
    assert bitmap.bitmap[..] == BitmapOf(h, page);
    var freeBits := bitmap.GetNumFreeBits();
    assert freeBits > 0;
    var found := bitmap.GetFirstFreeBit();
    slot := found.value;
    bitmap.SetBitVal(slot, true);
    bitmap.Serialize(bytes, BITMAP_OFFSET);
  }

  /** The tuple part of an insert on one page buffer: take the first free slot, write the tuple into
      it, and count the slots left. */
  method FillSlot(h: Layout, bytes: array<byte>, tuple: Tuple) returns (left: nat)
    requires Sized(h, bytes[..]) && TypesOf(tuple.cells) == h.types
    requires CountFree(SlotMap(h, bytes[..])) > 0
    modifies bytes
    ensures FirstFree(SlotMap(h, old(bytes[..]))).Some?
    ensures bytes[..] == PutRow(h, old(bytes[..]), FirstFree(SlotMap(h, old(bytes[..]))).value, tuple.cells)
    ensures left == CountFree(SlotMap(h, bytes[..]))
    ensures HeapBytes.Stands(h, old(bytes[..]), bytes[..], tuple.cells)
  {
    ghost var page := bytes[..];
    var slot, bitmap := TakeSlot(h, bytes);
    PutRowReads(h, page, slot, tuple.cells);
    HeapBytes.PutRowStands(h, page, tuple.cells);
    RegionsDisjoint(h, slot, slot + 1);
    var size := tuple.Size();
    var at := BITMAP_OFFSET + bitmap.numBytes + slot * size;
    assert at == h.SlotOffset(slot);
    tuple.Serialize(bytes, at);
    assert bytes[..] == PutRow(h, page, slot, tuple.cells);
    left := bitmap.GetNumFreeBits();
  }

  /** A pin and the matching unpin leave every page's pin count as it was. */
  lemma PinsRestored(pins: Pins, k: Key)
    ensures PinDown(PinUp(pins, k), k) == pins
  {
  }

  lemma PinUpSize(pins: Pins, k: Key)
    ensures |PinUp(pins, k)| <= |pins| + 1
  {
    assert PinUp(pins, k).Keys == pins.Keys + {k};
  }

  /** Create a disk under a pool that runs; the new disk's pages read as zeros and nobody holds them. */
  method CreateDisk(pool: BufferManager, name: string, ghost l: Ledger) returns (id: int)
    requires pool.Valid() && Linked(pool.s, l) && FullName(name) !in pool.s.store.files
    requires forall d :: d in pool.s.store.disks ==> pool.s.store.disks[d] != FullName(name)
    modifies pool`s, pool.dm, pool.dm.fs
    ensures pool.Valid() && Linked(pool.s, l) && id == old(pool.s).store.nextId
    ensures Resolve(pool.s.store, id) == Ok(FullName(name)) && pool.s.store.maxSize == old(pool.s).store.maxSize
    ensures forall k: Key :: k.disk == id ==> View(pool.s)[k] == Zeros(pool.dm.pageSize) && PinCount(l, k) == 0
    ensures forall k: Key :: k.disk != id ==> View(pool.s)[k] == View(old(pool.s))[k]
    ensures GrewTo(old(pool.s).store, pool.s.store, id, 0)
  {
    CreateLinked(pool.s, l, name);
    var created := pool.dm.Create(name);
    id := created.value;
    CreatePageCounts(pool.s.store, name);
    pool.NoteRegistry();
  }

  lemma MulAtLeast(size: nat, n: nat)
    requires size >= 12
    ensures n * size >= 12 * n
  {
    assert n * size == 12 * n + n * (size - 12);
  }

  /** A write session on a page nobody held leaves the ledger as it was. */
  lemma SessionLeavesLedger(l: Ledger, k: Key)
    requires k !in l.pins && k !in l.wrote && k !in l.marked
    ensures var written := LedgerStep(l, OpPin(k), true).(wrote := l.wrote + {k});
            var marked := LedgerStep(written, OpSetDirty(k), true);
            PinCount(marked, k) == 1 && k in marked.marked && LedgerStep(marked, OpUnpin(k), true) == l
  {
    PinsRestored(l.pins, k);
    assert l.wrote + {k} - {k} == l.wrote && l.marked + {k} - {k} == l.marked;
  }

  class Heap {
    const dm: PosixDiskManager
    const pool: BufferManager
    const diskId: int
    const cols: seq<CellType>
    const pageSize: nat

    /** A table on a new disk: create the disk, stamp the root page, and set both lists to empty. */
    constructor (dm: PosixDiskManager, pool: BufferManager, tableName: string, cols: seq<CellType>, pageSize: nat, ghost l: Ledger)
      requires pool.Valid() && pool.dm == dm && dm.pageSize == pageSize && Linked(pool.s, l)
      requires Layout(0, pageSize, cols).Ok() && |l.pins| < |pool.memPool|
      requires Fits(pageSize, dm.maxDiskByteSize, ROOT_PAGE)
      requires FullName(tableName + HEAP_DISK_SUFFIX) !in pool.s.store.files
      requires forall id :: id in pool.s.store.disks ==> pool.s.store.disks[id] != FullName(tableName + HEAP_DISK_SUFFIX)
      modifies pool, pool.Repr
      ensures this.dm == dm && this.pool == pool && this.cols == cols && this.pageSize == pageSize
      ensures Valid(HeapSpec.Table(View(pool.s), HeapSpec.EMPTY), l)
      ensures diskId == old(pool.s).store.nextId
      ensures Resolve(pool.s.store, diskId) == Ok(FullName(tableName + HEAP_DISK_SUFFIX))
      ensures HeapSpec.TableRows(Lay(), HeapSpec.Table(View(pool.s), HeapSpec.EMPTY)) == multiset{}
      ensures HeapBytes.NewPages(Lay(), View(pool.s))
      ensures forall k: Key :: k.disk != diskId ==> View(pool.s)[k] == View(old(pool.s))[k]
      ensures GrewTo(old(pool.s).store, pool.s.store, diskId, 1) && pool.s.store.maxSize == old(pool.s).store.maxSize
    {
      var id := CreateDisk(pool, tableName + HEAP_DISK_SUFFIX, l);
      this.dm, this.pool, this.diskId, this.cols, this.pageSize := dm, pool, id, cols, pageSize;
      new;
      MakeTable(l, |l.pins| + 1);
    }

    ghost function Lay(): Layout {
      Layout(diskId, pageSize, cols)
    }

    ghost function K(c: int): Key {
      Key(diskId, c)
    }

    /** The pool is well formed and the clients' ledger, this table's pins included, agrees with it. */
    ghost predicate Tracks(l: Ledger)
      reads pool`s, pool`memPoolMap, pool.Repr
    {
      pool.Valid() && pool.dm.pageSize == pageSize && Linked(pool.s, l)
    }

    /** Same disks and files, and every file has as many pages as before. */
    ghost predicate Steady(a: Pool, b: Pool) {
      SameRegistry(a.store, b.store) && SameCounts(a.store, b.store)
    }

    ghost function FilePages(p: Pool): nat {
      Pages(p.store, diskId)
    }

    /** A page inside the table's file. */
    ghost predicate Inside(p: Pool, c: int) {
      0 <= c < FilePages(p)
    }

    method PinPage(c: int, ghost l: Ledger, ghost cap: nat) returns (page: BufferPage, ghost l': Ledger)
      requires Tracks(l) && InRange(pool.s.store, K(c)) && |l.pins| < cap <= |pool.memPool|
      modifies pool, pool.Repr
      ensures Tracks(l') && l' == LedgerStep(l, OpPin(K(c)), true)
      ensures |l'.pins| <= cap
      ensures View(pool.s) == View(old(pool.s)) && SameRegistry(old(pool.s).store, pool.s.store)
      ensures Reaches(old(pool.s).store, pool.s.store, K(c))
      ensures pool.Holds(page, K(c))
    {
      PinUpSize(l.pins, K(c));
      PoolCounts.PinSucceedsIffFrameSpare(pool.s, l, K(c));
      PoolCounts.StepPageCounts(pool.s, OpPin(K(c)));
      StepLinked(pool.s, l, OpPin(K(c)));
      var r := pool.Pin(diskId, c);
      page := r.value;
      l' := LedgerStep(l, OpPin(K(c)), true);
    }

    /** Pin a page of the table's file: no file grows. */
    method PinInside(c: int, ghost l: Ledger, ghost cap: nat) returns (page: BufferPage, ghost l': Ledger)
      requires Tracks(l) && Inside(pool.s, c) && |l.pins| < cap <= |pool.memPool|
      modifies pool, pool.Repr
      ensures Tracks(l') && l' == LedgerStep(l, OpPin(K(c)), true) && |l'.pins| <= cap
      ensures View(pool.s) == View(old(pool.s)) && Steady(old(pool.s), pool.s)
      ensures pool.Holds(page, K(c))
    {
      InsideInRange(pool.s.store, K(c));
      page, l' := PinPage(c, l, cap);
    }

    method UnpinPage(c: int, ghost l: Ledger) returns (ghost l': Ledger)
      requires Tracks(l) && Allowed(pool.s.store, l, OpUnpin(K(c)))
      modifies pool, pool.Repr
      ensures Tracks(l') && l' == LedgerStep(l, OpUnpin(K(c)), true)
      ensures View(pool.s) == View(old(pool.s)) && Steady(old(pool.s), pool.s)
    {
      assert KeyLinked(pool.s, l, K(c));
      StepLinked(pool.s, l, OpUnpin(K(c)));
      var r := pool.Unpin(diskId, c);
      l' := LedgerStep(l, OpUnpin(K(c)), true);
    }

    method MarkDirty(c: int, ghost l: Ledger) returns (ghost l': Ledger)
      requires Tracks(l)
      modifies pool, pool.Repr
      ensures Tracks(l') && l' == LedgerStep(l, OpSetDirty(K(c)), true)
      ensures View(pool.s) == View(old(pool.s)) && Steady(old(pool.s), pool.s)
    {
      StepLinked(pool.s, l, OpSetDirty(K(c)));
      var r := pool.SetDirty(diskId, c);
      l' := LedgerStep(l, OpSetDirty(K(c)), true);
    }

    /** Store a word through a held page. */
    method StoreWord(page: BufferPage, c: int, at: nat, v: int32)
      requires pool.Valid() && pool.Holds(page, K(c)) && at + 4 <= pool.dm.pageSize
      modifies page.bytes, pool`s
      ensures pool.Valid() && pool.s == Step(old(pool.s), OpWrite(K(c), PutWord(View(old(pool.s))[K(c)], at, v)))
    {
      pool.HeldPage(page, K(c));
      var stored := page.StoreInt32(at, v);
      pool.NoteWrite(page, K(c));
    }

    method StoreLink(page: BufferPage, c: int, at: nat, v: int32, ghost l: Ledger) returns (ghost l': Ledger)
      requires Tracks(l) && pool.Holds(page, K(c)) && K(c) in l.pins && at + 4 <= pageSize
      modifies pool, pool.Repr
      ensures Tracks(l') && l' == l.(wrote := l.wrote + {K(c)})
      ensures View(pool.s) == View(old(pool.s))[K(c) := PutWord(View(old(pool.s))[K(c)], at, v)]
      ensures Steady(old(pool.s), pool.s) && pool.Holds(page, K(c))
    {
      pool.HeldPage(page, K(c));
      assert KeyLinked(pool.s, l, K(c));
      ghost var bytes := PutWord(View(pool.s)[K(c)], at, v);
      StepLinked(pool.s, l, OpWrite(K(c), bytes));
      StoreWord(page, c, at, v);
      l' := LedgerStep(l, OpWrite(K(c), bytes), true);
    }

    /** Store a tuple through a held page. */
    method StoreRow(page: BufferPage, c: int, tuple: Tuple) returns (left: nat)
      requires pool.Valid() && pool.Holds(page, K(c)) && pool.dm.pageSize == pageSize
      requires Lay().Ok() && TypesOf(tuple.cells) == cols
      requires Sized(Lay(), View(pool.s)[K(c)]) && CountFree(SlotMap(Lay(), View(pool.s)[K(c)])) > 0
      modifies page.bytes, pool`s
      ensures FirstFree(SlotMap(Lay(), View(old(pool.s))[K(c)])).Some?
      ensures var before := View(old(pool.s))[K(c)];
              var after := PutRow(Lay(), before, FirstFree(SlotMap(Lay(), before)).value, tuple.cells);
              && pool.Valid() && pool.s == Step(old(pool.s), OpWrite(K(c), after))
              && left == CountFree(SlotMap(Lay(), after))
    {
      ghost var before := View(pool.s)[K(c)];
      pool.HeldPage(page, K(c));
      left := FillSlot(Layout(diskId, pageSize, cols), page.bytes, tuple);
      ghost var after := PutRow(Lay(), before, FirstFree(SlotMap(Lay(), before)).value, tuple.cells);
      assert page.bytes[..] == after;
      pool.NoteWrite(page, K(c));
    }

    method StoreTuple(page: BufferPage, c: int, tuple: Tuple, ghost l: Ledger) returns (left: nat, ghost l': Ledger)
      requires Tracks(l) && pool.Holds(page, K(c)) && K(c) in l.pins
      requires Lay().Ok() && TypesOf(tuple.cells) == cols
      requires Sized(Lay(), View(pool.s)[K(c)]) && CountFree(SlotMap(Lay(), View(pool.s)[K(c)])) > 0
      modifies pool, pool.Repr
      ensures Tracks(l') && l' == l.(wrote := l.wrote + {K(c)})
      ensures View(pool.s) == HeapSpec.StoreTuple(Lay(), View(old(pool.s)), c, tuple.cells)
      ensures Sized(Lay(), View(pool.s)[K(c)]) && left == CountFree(SlotMap(Lay(), View(pool.s)[K(c)]))
      ensures Steady(old(pool.s), pool.s) && pool.Holds(page, K(c))
    {
      pool.HeldPage(page, K(c));
      assert KeyLinked(pool.s, l, K(c));
      ghost var before := View(pool.s)[K(c)];
      FirstFreeNoneIffFull(SlotMap(Lay(), before));
      ghost var after := PutRow(Lay(), before, FirstFree(SlotMap(Lay(), before)).value, tuple.cells);
      StepLinked(pool.s, l, OpWrite(K(c), after));
      left := StoreRow(page, c, tuple);
      l' := LedgerStep(l, OpWrite(K(c), after), true);
    }

    /** Load a link word of a held page. */
    method LoadLink(page: BufferPage, c: int, at: nat) returns (v: int32)
      requires pool.Valid() && pool.Holds(page, K(c)) && pool.dm.pageSize == pageSize && at + 4 <= pageSize
      ensures |View(pool.s)[K(c)]| == pageSize && v == Word(View(pool.s)[K(c)], at)
    {
      pool.HeldPage(page, K(c));
      var r := page.LoadInt32(at);
      v := r.value;
    }

    /** After a pin that only reads, the unpin is allowed. */
    lemma ReadOnlyUnpin(l: Ledger, k: Key)
      requires Linked(pool.s, l)
      ensures Allowed(pool.s.store, LedgerStep(l, OpPin(k), true), OpUnpin(k))
      ensures LedgerStep(LedgerStep(l, OpPin(k), true), OpUnpin(k), true).pins == l.pins
    {
      assert KeyLinked(pool.s, l, k);
      PinsRestored(l.pins, k);
    }

    method FindFreePage(ghost l: Ledger, ghost cap: nat) returns (r: Option<int>, ghost l': Ledger)
      requires Tracks(l) && Inside(pool.s, ROOT_PAGE) && |l.pins| < cap <= |pool.memPool| && pageSize >= 12
      modifies pool, pool.Repr
      ensures Tracks(l') && l'.pins == l.pins
      ensures View(pool.s) == View(old(pool.s)) && Steady(old(pool.s), pool.s)
      ensures |View(pool.s)[K(ROOT_PAGE)]| == pageSize
      ensures var word := Word(View(pool.s)[K(ROOT_PAGE)], ROOT_FREE_OFFSET);
              r == if word == NO_PAGE then None else Some(word)
    {
      ReadOnlyUnpin(l, K(ROOT_PAGE));
      var rootPage;
      rootPage, l' := PinInside(ROOT_PAGE, l, cap);
      var freeList := LoadLink(rootPage, ROOT_PAGE, ROOT_FREE_OFFSET);
      l' := UnpinPage(ROOT_PAGE, l');
      if freeList == NO_PAGE {
        return None, l';
      }
      return Some(freeList), l';
    }

    /** Mark a held page dirty and give it back. */
    method MarkDirtyAndUnpin(c: int, ghost l0: Ledger, ghost l: Ledger) returns (ghost l': Ledger)
      requires Tracks(l) && l.pins == PinUp(l0.pins, K(c))
      modifies pool, pool.Repr
      ensures Tracks(l') && l'.pins == l0.pins
      ensures View(pool.s) == View(old(pool.s)) && Steady(old(pool.s), pool.s)
    {
      PinsRestored(l0.pins, K(c));
      l' := MarkDirty(c, l);
      l' := UnpinPage(c, l');
    }

    /** A held page has its word set, is marked dirty and given back. */
    method SetLinkAndUnpin(page: BufferPage, c: int, at: nat, v: int32, ghost l0: Ledger, ghost l: Ledger) returns (ghost l': Ledger)
      requires Tracks(l) && pool.Holds(page, K(c)) && at + 4 <= pageSize
      requires l.pins == PinUp(l0.pins, K(c))
      modifies pool, pool.Repr
      ensures Tracks(l') && l'.pins == l0.pins
      ensures |View(old(pool.s))[K(c)]| == pageSize
      ensures View(pool.s) == View(old(pool.s))[K(c) := PutWord(View(old(pool.s))[K(c)], at, v)]
      ensures Steady(old(pool.s), pool.s)
    {
      pool.HeldPage(page, K(c));
      l' := StoreLink(page, c, at, v, l);
      l' := MarkDirtyAndUnpin(c, l0, l');
    }

    /** Pin a page and look at one of its links; give the page back unless the link ends the list. */
    method ProbeEnd(c: int, at: nat, ghost l: Ledger, ghost cap: nat) returns (page: BufferPage, next: int32, ghost l': Ledger)
      requires Tracks(l) && Inside(pool.s, c) && |l.pins| < cap <= |pool.memPool| && at + 4 <= pageSize
      modifies pool, pool.Repr
      ensures Tracks(l') && View(pool.s) == View(old(pool.s)) && Steady(old(pool.s), pool.s)
      ensures |View(pool.s)[K(c)]| == pageSize && next == Word(View(pool.s)[K(c)], at)
      ensures next == NO_PAGE ==> pool.Holds(page, K(c)) && l'.pins == PinUp(l.pins, K(c))
      ensures next != NO_PAGE ==> l'.pins == l.pins
    {
      ReadOnlyUnpin(l, K(c));
      page, l' := PinInside(c, l, cap);
      next := LoadLink(page, c, at);
      if next != NO_PAGE {
        l' := UnpinPage(c, l');
      }
    }

    /** The i-th page of the full list answers the next one, or keeps hold of the last. */
    method WalkStep(ghost full: seq<int>, ghost i: nat, ghost first: int, c: int, ghost l: Ledger, ghost cap: nat)
      returns (page: BufferPage, next: int32, ghost l': Ledger)
      requires Tracks(l) && |l.pins| < cap <= |pool.memPool| && pageSize >= 12
      requires HeapSpec.PagesSized(Lay(), View(pool.s))
      requires HeapSpec.Chain(Lay(), View(pool.s), first, full, FULL_OFFSET)
      requires forall b :: b in full ==> Inside(pool.s, b)
      requires i < |full| && c == full[i]
      modifies pool, pool.Repr
      ensures Tracks(l') && View(pool.s) == View(old(pool.s)) && Steady(old(pool.s), pool.s)
      ensures next == (if i + 1 < |full| then full[i + 1] else NO_PAGE) && (next == NO_PAGE <==> i + 1 == |full|)
      ensures next == NO_PAGE ==> pool.Holds(page, K(c)) && l'.pins == PinUp(l.pins, K(c))
      ensures next != NO_PAGE ==> l'.pins == l.pins
    {
      assert c in full && (i + 1 < |full| ==> full[i + 1] in full);
      HeapSpec.ChainLinks(Lay(), View(pool.s), first, full, FULL_OFFSET, i);
      page, next, l' := ProbeEnd(c, FULL_OFFSET, l, cap);
    }

    /** Follow the full links from the first page of the list to its last, which stays held. */
    method WalkFullList(first: int, ghost full: seq<int>, ghost l: Ledger, ghost cap: nat)
      returns (curPageCursor: int, curPage: BufferPage, ghost l': Ledger)
      requires Tracks(l) && |l.pins| < cap <= |pool.memPool| && pageSize >= 12
      requires HeapSpec.PagesSized(Lay(), View(pool.s)) && full != []
      requires HeapSpec.Chain(Lay(), View(pool.s), first, full, FULL_OFFSET)
      requires forall b :: b in full ==> Inside(pool.s, b)
      modifies pool, pool.Repr
      ensures Tracks(l') && View(pool.s) == View(old(pool.s)) && Steady(old(pool.s), pool.s)
      ensures curPageCursor == full[|full| - 1] && pool.Holds(curPage, K(curPageCursor))
      ensures l'.pins == PinUp(l.pins, K(curPageCursor))
    {
      ghost var s0 := pool.s;
      curPageCursor := first;
      l' := l;
      ghost var i := 0;
      while true
        invariant Tracks(l') && l'.pins == l.pins
        invariant View(pool.s) == View(s0) && Steady(s0, pool.s)
        invariant i < |full| && curPageCursor == full[i]
        decreases |full| - i
      {
        var next;
        curPage, next, l' := WalkStep(full, i, first, curPageCursor, l', cap);
        if next == NO_PAGE {
          break;
        }
        curPageCursor := next;
        i := i + 1;
      }
    }

    /** The page whose link ends the full list, held, and the offset of that link: the root page when
        the list is empty, else its last page. One page is held at a time. */
    method FindFullEnd(ghost full: seq<int>, ghost l: Ledger, ghost cap: nat)
      returns (curPageCursor: int, fullListOffset: nat, curPage: BufferPage, ghost l': Ledger)
      requires Tracks(l) && Inside(pool.s, ROOT_PAGE) && |l.pins| < cap <= |pool.memPool| && pageSize >= 12
      requires HeapSpec.PagesSized(Lay(), View(pool.s))
      requires HeapSpec.Chain(Lay(), View(pool.s), Word(HeapSpec.At(Lay(), View(pool.s), ROOT_PAGE), ROOT_FULL_OFFSET), full, FULL_OFFSET)
      requires forall b :: b in full ==> Inside(pool.s, b)
      modifies pool, pool.Repr
      ensures Tracks(l') && View(pool.s) == View(old(pool.s)) && Steady(old(pool.s), pool.s)
      ensures (curPageCursor, fullListOffset) == HeapSpec.FullEnd(full) && pool.Holds(curPage, K(curPageCursor))
      ensures l'.pins == PinUp(l.pins, K(curPageCursor))
    {
      curPageCursor, fullListOffset := ROOT_PAGE, ROOT_FULL_OFFSET;
      assert full != [] ==> full[0] in full;
      var link;
      curPage, link, l' := ProbeEnd(ROOT_PAGE, ROOT_FULL_OFFSET, l, cap);
      if link != NO_PAGE {
        curPageCursor, curPage, l' := WalkFullList(link, full, l', cap);
        fullListOffset := FULL_OFFSET;
      }
    }

    /** Link page c at the end of the full list. */
    method AppendToFullPages(c: int, ghost full: seq<int>, ghost l: Ledger, ghost cap: nat) returns (ghost l': Ledger)
      requires Tracks(l) && Inside(pool.s, ROOT_PAGE) && |l.pins| < cap <= |pool.memPool| && Lay().Ok()
      requires HeapSpec.PagesSized(Lay(), View(pool.s)) && 0 < c < 0x8000_0000
      requires HeapSpec.Chain(Lay(), View(pool.s), Word(HeapSpec.At(Lay(), View(pool.s), ROOT_PAGE), ROOT_FULL_OFFSET), full, FULL_OFFSET)
      requires forall b :: b in full ==> Inside(pool.s, b)
      modifies pool, pool.Repr
      ensures Tracks(l') && l'.pins == l.pins && Steady(old(pool.s), pool.s)
      ensures View(pool.s) == HeapSpec.AppendFull(Lay(), View(old(pool.s)), full, c)
    {
      var curPageCursor, fullListOffset, curPage;
      curPageCursor, fullListOffset, curPage, l' := FindFullEnd(full, l, cap);
      l' := SetLinkAndUnpin(curPage, curPageCursor, fullListOffset, c, l, l');
    }

    /** The root page and these pages are inside the file. */
    ghost predicate Placed(p: Pool, pages: seq<int>) {
      Inside(p, ROOT_PAGE) && forall c :: c in pages ==> Inside(p, c)
    }

    /** Move the root's free link on to the head page's own free link. */
    method UnlinkHeadPage(page: BufferPage, c: int, ghost l: Ledger, ghost cap: nat) returns (ghost l': Ledger)
      requires Tracks(l) && Inside(pool.s, ROOT_PAGE) && |l.pins| < cap <= |pool.memPool| && Lay().Ok()
      requires HeapSpec.PagesSized(Lay(), View(pool.s)) && pool.Holds(page, K(c))
      modifies pool, pool.Repr
      ensures Tracks(l') && l'.pins == l.pins && Steady(old(pool.s), pool.s)
      ensures View(pool.s) == HeapSpec.UnlinkHead(Lay(), View(old(pool.s)), c)
    {
      var next := LoadLink(page, c, FREE_OFFSET);
      l' := SetRootLink(ROOT_FREE_OFFSET, next, l, cap);
    }

    /** Take the filled head page off the free list and append it to the full list. */
    method MoveHeadToFull(page: BufferPage, c: int, ghost lists: HeapSpec.Lists, ghost l: Ledger, ghost cap: nat) returns (ghost l': Ledger)
      requires Tracks(l) && Placed(pool.s, lists.full) && |l.pins| < cap <= |pool.memPool|
      requires HeapSpec.CanMove(Lay(), View(pool.s), lists) && c == lists.free[0] && pool.Holds(page, K(c))
      modifies pool, pool.Repr
      ensures Tracks(l') && l'.pins == l.pins && Steady(old(pool.s), pool.s)
      ensures View(pool.s) == HeapSpec.MoveToFull(Lay(), View(old(pool.s)), lists).0
    {
      HeapSpec.UnlinkKeepsFullList(Lay(), View(pool.s), lists, c);
      l' := UnlinkHeadPage(page, c, l, cap);
      l' := AppendToFullPages(c, lists.full, l', cap);
    }

    /** The head page goes to the full list when its last slot was taken. */
    method MoveIfFull(page: BufferPage, c: int, left: nat, ghost lists: HeapSpec.Lists, ghost l: Ledger, ghost cap: nat)
      returns (ghost l': Ledger)
      requires Tracks(l) && Placed(pool.s, lists.full) && |l.pins| < cap <= |pool.memPool| && pool.Holds(page, K(c))
      requires HeapSpec.CanMove(Lay(), View(pool.s), lists) && c == lists.free[0]
      requires Sized(Lay(), View(pool.s)[K(c)]) && left == CountFree(SlotMap(Lay(), View(pool.s)[K(c)]))
      modifies pool, pool.Repr
      ensures Tracks(l') && l'.pins == l.pins && Steady(old(pool.s), pool.s)
      ensures View(pool.s) == if HeapSpec.HasSpace(Lay(), View(old(pool.s)), c) then View(old(pool.s))
                              else HeapSpec.MoveToFull(Lay(), View(old(pool.s)), lists).0
    {
      l' := l;
      if left == 0 {
        l' := MoveHeadToFull(page, c, lists, l, cap);
      }
    }

    /** Write the tuple into the held page at the head of the free list, and move it when it is full. */
    method FillPage(page: BufferPage, c: int, tuple: Tuple, ghost lists: HeapSpec.Lists, ghost l: Ledger, ghost cap: nat)
      returns (ghost l': Ledger)
      requires Tracks(l) && Placed(pool.s, lists.full) && |l.pins| < cap <= |pool.memPool|
      requires HeapSpec.Fillable(Lay(), View(pool.s), lists, tuple.cells) && c == lists.free[0] && pool.Holds(page, K(c)) && K(c) in l.pins
      modifies pool, pool.Repr
      ensures Tracks(l') && l'.pins == l.pins && Steady(old(pool.s), pool.s)
      ensures View(pool.s) == HeapSpec.FillHead(Lay(), View(old(pool.s)), lists, tuple.cells).0
    {
      var left;
      left, l' := StoreTuple(page, c, tuple, l);
      l' := MoveIfFull(page, c, left, lists, l', cap);
    }

    /** Whether `extend`'s cursor can be pinned: the grown file stays below the maximum size. */
    ghost predicate RoomForPage(p: Pool) {
      var c := FilePages(p) + 1;
      InRange(p.store, K(c)) && c < 0x8000_0000
    }

    /** `extend` answers a cursor and changes nothing. */
    method ExtendDisk(ghost l: Ledger) returns (c: int)
      requires Tracks(l) && pool.dm == dm && Resolve(pool.s.store, diskId).Ok?
      modifies dm.fs
      ensures Tracks(l) && c == FilePages(pool.s) + 1
    {
      PoolCounts.ExtendIsFresh(pool.s, diskId);
      var r := dm.Extend(diskId);
      c := r.value;
    }

    /** Store a word in the root page. */
    method SetRootLink(at: nat, v: int32, ghost l: Ledger, ghost cap: nat) returns (ghost l': Ledger)
      requires Tracks(l) && Inside(pool.s, ROOT_PAGE) && |l.pins| < cap <= |pool.memPool| && at + 4 <= pageSize
      modifies pool, pool.Repr
      ensures Tracks(l') && l'.pins == l.pins && Steady(old(pool.s), pool.s)
      ensures |View(old(pool.s))[K(ROOT_PAGE)]| == pageSize
      ensures View(pool.s) == View(old(pool.s))[K(ROOT_PAGE) := PutWord(View(old(pool.s))[K(ROOT_PAGE)], at, v)]
    {
      var rootPage;
      rootPage, l' := PinInside(ROOT_PAGE, l, cap);
      l' := SetLinkAndUnpin(rootPage, ROOT_PAGE, at, v, l, l');
    }

    /** Set both links of a held page to the end. */
    method ClearLinks(page: BufferPage, c: int, ghost l: Ledger) returns (ghost l': Ledger)
      requires Tracks(l) && pool.Holds(page, K(c)) && K(c) in l.pins && pageSize >= 12
      modifies pool, pool.Repr
      ensures Tracks(l') && l'.pins == l.pins && Steady(old(pool.s), pool.s) && pool.Holds(page, K(c))
      ensures |View(old(pool.s))[K(c)]| == pageSize
      ensures View(pool.s) == View(old(pool.s))[K(c) := PutWord(PutWord(View(old(pool.s))[K(c)], FREE_OFFSET, NO_PAGE), FULL_OFFSET, NO_PAGE)]
    {
      pool.HeldPage(page, K(c));
      ghost var before := View(pool.s)[K(c)];
      ghost var freed := PutWord(before, FREE_OFFSET, NO_PAGE);
      PutTwice(View(pool.s), K(c), freed, PutWord(freed, FULL_OFFSET, NO_PAGE));
      l' := StoreLink(page, c, FREE_OFFSET, NO_PAGE, l);
      l' := StoreLink(page, c, FULL_OFFSET, NO_PAGE, l');
    }

    /** The table's file has two pages more, the fresh one and one before it that `extend` skipped; no
        other file has grown. */
    ghost predicate Extended(a: Pool, b: Pool) {
      && SameRegistry(a.store, b.store)
      && GrewTo(a.store, b.store, diskId, FilePages(a) + 2)
    }

    /** What an insert does to the files: they grow only when no page was free. */
    ghost predicate Grew(a: Pool, b: Pool, free: seq<int>) {
      if free == [] then Extended(a, b) else Steady(a, b)
    }

    /** Pinning the page `extend` answered is all that grows a file while a free page is made. */
    lemma PinExtends(a: Pool, b: Pool, c: Pool, cursor: int)
      requires Steady(a, b) && cursor == FilePages(a) + 1
      requires SameRegistry(b.store, c.store) && Reaches(b.store, c.store, K(cursor))
      ensures Extended(a, c)
    {
      assert Pages(b.store, diskId) == Pages(a.store, diskId);
    }

    lemma ReachesThenSteady(a: Pool, b: Pool, c: Pool, k: Key)
      requires 0 <= k.page && SameRegistry(a.store, b.store) && Reaches(a.store, b.store, k) && Steady(b, c)
      ensures SameRegistry(a.store, c.store) && Reaches(a.store, c.store, k)
    {
    }

    lemma GrewBy(a: Pool, b: Pool, free: seq<int>)
      requires Grew(a, b, free)
      ensures FilePages(b) == FilePages(a) + if free == [] then 2 else 0
    {
    }

    lemma GrewThenSteady(a: Pool, b: Pool, c: Pool, free: seq<int>)
      requires Grew(a, b, free) && Steady(b, c)
      ensures Grew(a, c, free)
    {
    }

    lemma SteadyThenGrew(a: Pool, b: Pool, c: Pool, free: seq<int>)
      requires Steady(a, b) && Grew(b, c, free)
      ensures Grew(a, c, free)
    {
    }

    /** Pin a page and set both its links to the end. */
    method PinFresh(c: int, ghost l: Ledger, ghost cap: nat) returns (page: BufferPage, ghost l': Ledger)
      requires Tracks(l) && InRange(pool.s.store, K(c)) && |l.pins| < cap <= |pool.memPool| && pageSize >= 12
      modifies pool, pool.Repr
      ensures Tracks(l') && l'.pins == PinUp(l.pins, K(c)) && pool.Holds(page, K(c))
      ensures SameRegistry(old(pool.s).store, pool.s.store) && Reaches(old(pool.s).store, pool.s.store, K(c))
      ensures |View(old(pool.s))[K(c)]| == pageSize
      ensures View(pool.s) == View(old(pool.s))[K(c) := PutWord(PutWord(View(old(pool.s))[K(c)], FREE_OFFSET, NO_PAGE), FULL_OFFSET, NO_PAGE)]
    {
      ghost var s0 := pool.s;
      page, l' := PinPage(c, l, cap);
      ghost var s1 := pool.s;
      l' := ClearLinks(page, c, l');
      ReachesThenSteady(s0, s1, pool.s, K(c));
    }

    /** The two stores that put a fresh page at the head of the empty free list. */
    lemma AddedPage(mem: Memory, rooted: Memory, made: Memory, lists: HeapSpec.Lists, c: int)
      requires Lay().Ok() && HeapSpec.PagesSized(Lay(), mem) && 0 < c < 0x8000_0000
      requires |mem[K(ROOT_PAGE)]| == pageSize && rooted == mem[K(ROOT_PAGE) := PutWord(mem[K(ROOT_PAGE)], ROOT_FREE_OFFSET, c)]
      requires |rooted[K(c)]| == pageSize
      requires made == rooted[K(c) := PutWord(PutWord(rooted[K(c)], FREE_OFFSET, NO_PAGE), FULL_OFFSET, NO_PAGE)]
      ensures made == HeapSpec.AddPage(Lay(), mem, lists, c).0
    {
      assert K(c) != K(ROOT_PAGE);
    }

    /** A fresh page at the head of the empty free list, held, its links set. */
    method MakeFreePage(ghost lists: HeapSpec.Lists, ghost l: Ledger, ghost cap: nat) returns (page: BufferPage, c: int, ghost l': Ledger)
      requires Tracks(l) && pool.dm == dm && Inside(pool.s, ROOT_PAGE) && Lay().Ok()
      requires HeapSpec.PagesSized(Lay(), View(pool.s))
      requires |l.pins| < cap <= |pool.memPool| && RoomForPage(pool.s)
      modifies pool, pool.Repr
      ensures Tracks(l') && l'.pins == PinUp(l.pins, K(c)) && pool.Holds(page, K(c))
      ensures Extended(old(pool.s), pool.s) && c == FilePages(old(pool.s)) + 1 < 0x8000_0000
      ensures View(pool.s) == HeapSpec.AddPage(Lay(), View(old(pool.s)), lists, c).0
    {
      c := ExtendDisk(l);
      ghost var s0 := pool.s;
      l' := SetRootLink(ROOT_FREE_OFFSET, c, l, cap);
      ghost var s1 := pool.s;
      SameInRange(s0.store, s1.store, K(c));
      page, l' := PinFresh(c, l', cap);
      PinExtends(s0, s1, pool.s, c);
      AddedPage(View(s0), View(s1), View(pool.s), lists, c);
    }

    /** What an insert needs of its table before it starts: which page it will fill, and how memory
        looks once that page is at the head of the free list. */
    ghost predicate Ready(p: Pool, lists: HeapSpec.Lists, target: int, mid: Memory) {
      && Lay().Ok() && HeapSpec.PagesSized(Lay(), View(p)) && Placed(p, lists.full)
      && if lists.free == [] then
           && Word(HeapSpec.At(Lay(), View(p), ROOT_PAGE), ROOT_FREE_OFFSET) == NO_PAGE
           && RoomForPage(p) && target == FilePages(p) + 1
           && mid == HeapSpec.AddPage(Lay(), View(p), lists, target).0
         else
           && Word(HeapSpec.At(Lay(), View(p), ROOT_PAGE), ROOT_FREE_OFFSET) == target == lists.free[0]
           && 0 < target && Inside(p, target) && mid == View(p)
    }

    lemma RoomStays(a: Pool, b: Pool)
      requires Steady(a, b)
      ensures RoomForPage(b) == RoomForPage(a) && FilePages(b) == FilePages(a)
    {
      SameInRange(a.store, b.store, K(FilePages(a) + 1));
    }

    lemma ReadyStays(a: Pool, b: Pool, lists: HeapSpec.Lists, target: int, mid: Memory)
      requires Ready(a, lists, target, mid) && Steady(a, b) && View(b) == View(a)
      ensures Ready(b, lists, target, mid)
    {
      RoomStays(a, b);
    }

    /** Pin the page offered, or else a fresh one. */
    method PinOffered(offered: Option<int>, ghost lists: HeapSpec.Lists, ghost target: int, ghost mid: Memory, ghost l: Ledger, ghost cap: nat)
      returns (page: BufferPage, c: int, ghost l': Ledger)
      requires Tracks(l) && pool.dm == dm && Ready(pool.s, lists, target, mid) && |l.pins| < cap <= |pool.memPool|
      requires offered == if lists.free == [] then None else Some(target)
      modifies pool, pool.Repr
      ensures Tracks(l') && l'.pins == PinUp(l.pins, K(c)) && pool.Holds(page, K(c))
      ensures c == target && View(pool.s) == mid
      ensures Grew(old(pool.s), pool.s, lists.free)
    {
      if offered.None? {
        page, c, l' := MakeFreePage(lists, l, cap);
      } else {
        c := offered.value;
        assert c != ROOT_PAGE;
        page, l' := PinInside(c, l, cap);
      }
    }

    /** The page an insert fills, held: the head of the free list, or else a fresh page. */
    method GetFreePage(ghost lists: HeapSpec.Lists, ghost target: int, ghost mid: Memory, ghost l: Ledger, ghost cap: nat)
      returns (page: BufferPage, c: int, ghost l': Ledger)
      requires Tracks(l) && pool.dm == dm && Ready(pool.s, lists, target, mid) && |l.pins| < cap <= |pool.memPool|
      modifies pool, pool.Repr
      ensures Tracks(l') && l'.pins == PinUp(l.pins, K(c)) && pool.Holds(page, K(c))
      ensures c == target && View(pool.s) == mid
      ensures Grew(old(pool.s), pool.s, lists.free)
    {
      var offered;
      ghost var s0 := pool.s;
      offered, l' := FindFreePage(l, cap);
      ghost var s1 := pool.s;
      ReadyStays(s0, s1, lists, target, mid);
      page, c, l' := PinOffered(offered, lists, target, mid, l', cap);
      SteadyThenGrew(s0, s1, pool.s, lists.free);
    }

    /** A held page takes the tuple, moves to the full list if that filled it, and is given back. */
    method FillAndRelease(page: BufferPage, c: int, tuple: Tuple, ghost lists: HeapSpec.Lists, ghost l0: Ledger, ghost l: Ledger, ghost cap: nat)
      returns (ghost l': Ledger)
      requires Tracks(l) && HeapSpec.Fillable(Lay(), View(pool.s), lists, tuple.cells) && c == lists.free[0]
      requires Placed(pool.s, lists.full) && |l0.pins| + 2 <= cap <= |pool.memPool|
      requires pool.Holds(page, K(c)) && l.pins == PinUp(l0.pins, K(c))
      modifies pool, pool.Repr
      ensures Tracks(l') && l'.pins == l0.pins && Steady(old(pool.s), pool.s)
      ensures View(pool.s) == HeapSpec.FillHead(Lay(), View(old(pool.s)), lists, tuple.cells).0
    {
      PinUpSize(l0.pins, K(c));
      l' := FillPage(page, c, tuple, lists, l, cap);
      l' := MarkDirtyAndUnpin(c, l0, l');
    }

    /** The root page and the table's data pages are inside its file. */
    ghost predicate DataInside(p: Pool, data: set<int>) {
      Inside(p, ROOT_PAGE) && forall c :: c in data ==> Inside(p, c)
    }

    lemma DataStaysInside(a: Pool, b: Pool, data: set<int>, more: set<int>, c: int)
      requires DataInside(a, data) && FilePages(a) <= FilePages(b) && Inside(b, c)
      requires more <= data + {c}
      ensures DataInside(b, more)
    {
    }

    /** The table's invariant: t is its pages as the pool's clients see them, well formed, and all
        inside its file. */
    ghost predicate Valid(t: HeapSpec.Table, l: Ledger)
      reads pool`s, pool`memPoolMap, pool.Repr
    {
      && Tracks(l) && pool.dm == dm && View(pool.s) == t.mem
      && HeapSpec.TableOk(Lay(), t) && DataInside(pool.s, t.ls.data)
    }

    /** Whatever was done to the pool, a table stays valid if its own pages kept their content and its
        file did not shrink. */
    lemma StaysValid(before: Pool, t: HeapSpec.Table, l': Ledger)
      requires Tracks(l') && pool.dm == dm
      requires View(before) == t.mem && HeapSpec.TableOk(Lay(), t) && DataInside(before, t.ls.data)
      requires FilePages(before) <= FilePages(pool.s)
      requires forall k: Key :: k.disk == diskId ==> View(pool.s)[k] == View(before)[k]
      ensures Valid(HeapSpec.Table(View(pool.s), t.ls), l')
      ensures HeapSpec.TableRows(Lay(), HeapSpec.Table(View(pool.s), t.ls)) == HeapSpec.TableRows(Lay(), t)
    {
      HeapSpec.TableOfSamePages(Lay(), t, View(pool.s));
    }

    /** The maximum size bounds the next page's number too. */
    lemma RoomIfFits(l: Ledger, c: nat)
      requires Tracks(l) && pageSize >= 12 && Inside(pool.s, ROOT_PAGE)
      requires pool.dm == dm && c == FilePages(pool.s) + 1 && Fits(pageSize, dm.maxDiskByteSize, c)
      ensures RoomForPage(pool.s)
    {
      MulAtLeast(pageSize, c + 1);
    }

    lemma TargetInside(a: Pool, b: Pool, lists: HeapSpec.Lists, target: int, mid: Memory)
      requires Ready(a, lists, target, mid) && Grew(a, b, lists.free)
      ensures Inside(b, target)
    {
      GrewBy(a, b, lists.free);
    }

    lemma PlacedStays(a: Pool, b: Pool, free: seq<int>, pages: seq<int>)
      requires Placed(a, pages) && Grew(a, b, free)
      ensures Placed(b, pages)
    {
      assert FilePages(a) <= FilePages(b);
    }

    /** The body of an insert: find or make a free page, fill it, give it back. */
    method InsertStages(tuple: Tuple, ghost lists: HeapSpec.Lists, ghost mid: Memory, ghost mids: HeapSpec.Lists, ghost l: Ledger, ghost cap: nat)
      returns (ghost l': Ledger)
      requires Tracks(l) && pool.dm == dm && TypesOf(tuple.cells) == cols && |l.pins| + 2 <= cap <= |pool.memPool|
      requires mids.free != [] && mids.full == lists.full && Ready(pool.s, lists, mids.free[0], mid)
      requires HeapSpec.Fillable(Lay(), mid, mids, tuple.cells)
      modifies pool, pool.Repr
      ensures Tracks(l') && l'.pins == l.pins && View(pool.s) == HeapSpec.FillHead(Lay(), mid, mids, tuple.cells).0
      ensures Grew(old(pool.s), pool.s, lists.free) && Inside(pool.s, mids.free[0])
    {
      var page, c;
      ghost var s0 := pool.s;
      page, c, l' := GetFreePage(lists, mids.free[0], mid, l, cap);
      ghost var s1 := pool.s;
      PlacedStays(s0, s1, lists.free, mids.full);
      l' := FillAndRelease(page, c, tuple, mids, l, l', cap);
      GrewThenSteady(s0, s1, pool.s, lists.free);
      TargetInside(s0, pool.s, lists, mids.free[0], mid);
    }

    method InsertInto(tuple: Tuple, ghost t: HeapSpec.Table, ghost l: Ledger, ghost cap: nat) returns (ghost l': Ledger)
      requires Valid(t, l) && TypesOf(tuple.cells) == cols
      requires |l.pins| + 2 <= cap <= |pool.memPool|
      requires t.ls.free == [] ==> RoomForPage(pool.s)
      modifies pool, pool.Repr
      ensures Tracks(l') && l'.pins == l.pins
      ensures t.ls.free == [] ==> HeapSpec.Fresh(t.ls, FilePages(old(pool.s)) + 1)
      ensures View(pool.s) == HeapSpec.Insert(Lay(), t.mem, t.ls, FilePages(old(pool.s)) + 1, tuple.cells).0
      ensures Grew(old(pool.s), pool.s, t.ls.free) && Inside(pool.s, HeapBytes.Target(t.ls, FilePages(old(pool.s)) + 1))
    {
      HeapSpec.RootFreeWord(Lay(), t.mem, t.ls);
      ghost var mid, mids, end, ends :=
        HeapSpec.InsertStages(Lay(), t.mem, t.ls, FilePages(pool.s) + 1, tuple.cells);
      l' := InsertStages(tuple, t.ls, mid, mids, l, cap);
    }

    /** Insert a tuple. Two frames that hold no pinned page are enough, however long the lists are;
        every pin is given back. The table makes one abstract insert, with the cursor `extend` answers
        as the fresh page; the tuple's bytes stand in the first clear slot of the page it goes to. */
    method InsertTuple(tuple: Tuple, ghost t: HeapSpec.Table, ghost l: Ledger, ghost cap: nat) returns (ghost t': HeapSpec.Table, ghost l': Ledger)
      requires Valid(t, l) && TypesOf(tuple.cells) == cols
      requires |l.pins| + 2 <= cap <= |pool.memPool|
      requires t.ls.free == [] ==> RoomForPage(pool.s)
      modifies pool, pool.Repr
      ensures Valid(t', l') && l'.pins == l.pins
      ensures HeapSpec.Inserts(Lay(), t, t', FilePages(old(pool.s)) + 1, tuple.cells)
      ensures var c := HeapBytes.Target(t.ls, FilePages(old(pool.s)) + 1);
              HeapBytes.Stands(Lay(), HeapBytes.Base(Lay(), t), View(pool.s)[K(c)], tuple.cells)
      ensures Grew(old(pool.s), pool.s, t.ls.free)
    {
      ghost var s0, cursor := pool.s, FilePages(pool.s) + 1;
      l' := InsertInto(tuple, t, l, cap);
      t' := HeapSpec.After(Lay(), t, cursor, tuple.cells);
      HeapBytes.InsertBytes(Lay(), t, t', cursor, tuple.cells);
      DataStaysInside(s0, pool.s, t.ls.data, t'.ls.data, HeapBytes.Target(t.ls, cursor));
    }

    /** Write the three words of a held root page. */
    method StampRoot(page: BufferPage, ghost l: Ledger) returns (ghost l': Ledger)
      requires Tracks(l) && pool.Holds(page, K(ROOT_PAGE)) && K(ROOT_PAGE) in l.pins && pageSize >= 12
      modifies pool, pool.Repr
      ensures Tracks(l') && l' == l.(wrote := l.wrote + {K(ROOT_PAGE)}) && Steady(old(pool.s), pool.s)
      ensures |View(old(pool.s))[K(ROOT_PAGE)]| == pageSize
      ensures View(pool.s) == View(old(pool.s))[K(ROOT_PAGE) := HeapSpec.RootPage(View(old(pool.s))[K(ROOT_PAGE)])]
    {
      pool.HeldPage(page, K(ROOT_PAGE));
      ghost var mem, k := View(pool.s), K(ROOT_PAGE);
      ghost var stamped := PutWord(mem[k], STAMP_OFFSET, STAMP);
      ghost var freed := PutWord(stamped, ROOT_FREE_OFFSET, NO_PAGE);
      PutTwice(mem, k, stamped, freed);
      PutTwice(mem, k, freed, HeapSpec.RootPage(mem[k]));
      l' := StoreLink(page, ROOT_PAGE, STAMP_OFFSET, STAMP, l);
      l' := StoreLink(page, ROOT_PAGE, ROOT_FREE_OFFSET, NO_PAGE, l');
      l' := StoreLink(page, ROOT_PAGE, ROOT_FULL_OFFSET, NO_PAGE, l');
    }

    /** Set up the root page of a new disk. No client held it, so the ledger ends as it began. */
    method InitRoot(ghost l: Ledger, ghost cap: nat)
      requires Tracks(l) && InRange(pool.s.store, K(ROOT_PAGE)) && |l.pins| < cap <= |pool.memPool| && pageSize >= 12
      requires PinCount(l, K(ROOT_PAGE)) == 0
      modifies pool, pool.Repr
      ensures Tracks(l) && SameRegistry(old(pool.s).store, pool.s.store)
      ensures Reaches(old(pool.s).store, pool.s.store, K(ROOT_PAGE))
      ensures |View(old(pool.s))[K(ROOT_PAGE)]| == pageSize
      ensures View(pool.s) == View(old(pool.s))[K(ROOT_PAGE) := HeapSpec.RootPage(View(old(pool.s))[K(ROOT_PAGE)])]
    {
      assert KeyLinked(pool.s, l, K(ROOT_PAGE));
      SessionLeavesLedger(l, K(ROOT_PAGE));
      var rootPage;
      ghost var l';
      rootPage, l' := PinPage(ROOT_PAGE, l, cap);
      l' := StampRoot(rootPage, l');
      l' := MarkDirty(ROOT_PAGE, l');
      l' := UnpinPage(ROOT_PAGE, l');
    }

    /** Once its root page is written, a disk of zeros is an empty table. */
    lemma ZerosMakeTable(mem: Memory, made: Memory)
      requires Lay().Ok() && forall k: Key :: k.disk == diskId ==> mem[k] == Zeros(pageSize)
      requires |mem[K(ROOT_PAGE)]| == pageSize && made == mem[K(ROOT_PAGE) := HeapSpec.RootPage(mem[K(ROOT_PAGE)])]
      ensures HeapSpec.TableOk(Lay(), HeapSpec.Table(made, HeapSpec.EMPTY))
      ensures HeapSpec.TableRows(Lay(), HeapSpec.Table(made, HeapSpec.EMPTY)) == multiset{} && HeapBytes.NewPages(Lay(), made)
      ensures forall k: Key :: k.disk != diskId ==> made[k] == mem[k]
    {
      assert forall c: int :: HeapSpec.At(Lay(), mem, c) == Zeros(pageSize);
      HeapSpec.NewTableOk(Lay(), mem);
      HeapBytes.StampedZeros(Lay(), made);
    }

    /** A disk of zeros becomes an empty table. */
    method MakeTable(ghost l: Ledger, ghost cap: nat)
      requires Tracks(l) && pool.dm == dm && Lay().Ok() && |l.pins| < cap <= |pool.memPool|
      requires InRange(pool.s.store, K(ROOT_PAGE))
      requires forall k: Key :: k.disk == diskId ==> View(pool.s)[k] == Zeros(pageSize) && PinCount(l, k) == 0
      modifies pool, pool.Repr
      ensures Valid(HeapSpec.Table(View(pool.s), HeapSpec.EMPTY), l)
      ensures HeapSpec.TableRows(Lay(), HeapSpec.Table(View(pool.s), HeapSpec.EMPTY)) == multiset{}
      ensures HeapBytes.NewPages(Lay(), View(pool.s))
      ensures forall k: Key :: k.disk != diskId ==> View(pool.s)[k] == View(old(pool.s))[k]
      ensures SameRegistry(old(pool.s).store, pool.s.store)
      ensures Reaches(old(pool.s).store, pool.s.store, K(ROOT_PAGE))
    {
      ghost var mem := View(pool.s);
      InitRoot(l, cap);
      ZerosMakeTable(mem, View(pool.s));
    }
  }
}
