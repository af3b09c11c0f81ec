/** Clients of the heap: two tables over one pool, and whole runs of inserts from a new disk to its
    file. */
module HeapRuns {
  import opened Bytes
  import opened FileRuns
  import opened StoreSpec
  import opened PosixDisks
  import opened PosixDiskManagers
  import opened TupleSpec
  import opened Tuples
  import opened BufferPages
  import opened BitmapTrackers
  import opened Replacement
  import opened BufferManagers
  import PoolSpec
  import opened PoolRuns
  import PoolCounts
  import opened HeapLayout
  import HeapSpec
  import opened HeapSpace
  import opened Heaps
  import Durability

  /** Inserting into one table keeps the other: it stays valid, with the tuples it had. */
  method InsertBeside(heap: Heap, other: Heap, tuple: Tuple, ghost t: HeapSpec.Table, ghost u: HeapSpec.Table, ghost l: Ledger)
    returns (ghost t': HeapSpec.Table, ghost u': HeapSpec.Table, ghost l': Ledger)
    requires heap.Valid(t, l) && other.Valid(u, l) && heap.pool == other.pool && heap.diskId != other.diskId
    requires TypesOf(tuple.cells) == heap.cols && |l.pins| + 2 <= |heap.pool.memPool|
    requires t.ls.free == [] ==> heap.RoomForPage(heap.pool.s)
    modifies heap.pool, heap.pool.Repr
    ensures heap.Valid(t', l') && other.Valid(u', l') && l'.pins == l.pins
    ensures HeapSpec.TableRows(heap.Lay(), t') == HeapSpec.TableRows(heap.Lay(), t) + multiset{tuple.cells}
    ensures HeapSpec.TableRows(other.Lay(), u') == HeapSpec.TableRows(other.Lay(), u) && u'.ls == u.ls
  {
    ghost var s0 := heap.pool.s;
    t', l' := heap.InsertTuple(tuple, t, l, |l.pins| + 2);
    HeapSpec.InsertsGains(heap.Lay(), t, t', heap.FilePages(s0) + 1, tuple.cells);
    HeapSpec.InsertsOwnDisk(heap.Lay(), t, t', heap.FilePages(s0) + 1, tuple.cells);
    other.StaysValid(s0, u, l');
    u' := HeapSpec.Table(View(other.pool.s), u.ls);
  }

  /** A table of n tuples, these, in a file of exactly the pages they need. */
  ghost predicate Exact(h: Layout, pages: nat, t: HeapSpec.Table, n: nat, rows: Rows) {
    Packed(h, t) && pages == PagesTaken(t.ls) && Used(h, t) == n && HeapSpec.TableRows(h, t) == rows
  }

  ghost predicate Stores(heap: Heap, t: HeapSpec.Table, l: Ledger, n: nat, rows: Rows)
    reads heap.pool`s, heap.pool`memPoolMap, heap.pool.Repr
  {
    heap.Valid(t, l) && Exact(heap.Lay(), heap.FilePages(heap.pool.s), t, n, rows)
  }

  lemma ExactAfter(h: Layout, a: HeapSpec.Table, b: HeapSpec.Table, cursor: int, pages: nat, pages': nat,
                   n: nat, n': nat, rows: Rows, rows': Rows, cells: seq<Cell>)
    requires HeapSpec.Inserts(h, a, b, cursor, cells) && Exact(h, pages, a, n, rows)
    requires pages' == pages + if a.ls.free == [] then 2 else 0
    requires n' == n + 1 && rows' == rows + multiset{cells}
    ensures Exact(h, pages', b, n', rows')
  {
    InsertPacks(h, a, b, cursor, cells);
    HeapSpec.InsertsGains(h, a, b, cursor, cells);
  }

  /** The disk has room for so many tuples of this table. */
  ghost predicate HasRoomFor(heap: Heap, total: nat) {
    heap.Lay().Ok() && RoomFor(heap.Lay(), heap.dm.maxDiskByteSize, total)
  }

  lemma NextPageFits(heap: Heap, t: HeapSpec.Table, total: nat, c: nat)
    requires c == PagesTaken(t.ls) + 1
    requires heap.Lay().Ok() && Packed(heap.Lay(), t) && t.ls.free == [] && Used(heap.Lay(), t) < total
    requires HasRoomFor(heap, total)
    ensures Fits(heap.pageSize, heap.dm.maxDiskByteSize, c)
  {
    NextFits(heap.Lay(), t, heap.dm.maxDiskByteSize, total);
  }

  /** Nothing outside disk `disk` has changed: same registry, and the other disks' pages as they were. */
  ghost predicate OthersKept(disk: int, a: Pool, b: Pool) {
    SameRegistry(a.store, b.store) && forall k: Key :: k.disk != disk ==> View(b)[k] == View(a)[k]
  }

  /** What the first i inserts of these tuples make of a table's rows. */
  ghost function RowsAfter(rows: Rows, tuples: seq<Tuple>, i: nat): Rows
    requires i <= |tuples|
  {
    if i == 0 then rows else RowsAfter(rows, tuples, i - 1) + multiset{tuples[i - 1].cells}
  }

  /** The rows of these tuples. */
  ghost function RowsOf(tuples: seq<Tuple>): Rows {
    multiset(CellsOf(tuples))
  }

  function CellsOf(tuples: seq<Tuple>): seq<seq<Cell>> {
    seq(|tuples|, i requires 0 <= i < |tuples| => tuples[i].cells)
  }

  lemma {:induction false} RowsAfterAdds(rows: Rows, tuples: seq<Tuple>, i: nat)
    requires i <= |tuples|
    ensures RowsAfter(rows, tuples, i) == rows + multiset(CellsOf(tuples)[..i])
  {
    if i > 0 {
      RowsAfterAdds(rows, tuples, i - 1);
      assert CellsOf(tuples)[..i] == CellsOf(tuples)[..i - 1] + [tuples[i - 1].cells];
    }
  }

  lemma AllRows(tuples: seq<Tuple>)
    ensures RowsAfter(multiset{}, tuples, |tuples|) == RowsOf(tuples)
  {
    RowsAfterAdds(multiset{}, tuples, |tuples|);
    assert CellsOf(tuples)[..|tuples|] == CellsOf(tuples);
  }

  ghost predicate AllOfTypes(tuples: seq<Tuple>, cols: seq<CellType>) {
    forall i :: 0 <= i < |tuples| ==> TypesOf(tuples[i].cells) == cols
  }

  /** What a run of inserts starts from and how far it may go: the pool, the clients' pins, the bound on
      held pages, the table's tuples, how many tuples the disk must have room for, and what to insert. */
  datatype Plan = Plan(start: Pool, pins: Pins, cap: nat, n: nat, rows: Rows, total: nat, tuples: seq<Tuple>)

  ghost predicate Sound(heap: Heap, p: Plan) {
    && |p.pins| + 2 <= p.cap <= |heap.pool.memPool| && HasRoomFor(heap, p.total)
    && p.n + |p.tuples| <= p.total && AllOfTypes(p.tuples, heap.cols)
  }

  /** The run after its first i inserts. */
  ghost predicate Inserted(heap: Heap, p: Plan, i: nat, t: HeapSpec.Table, l: Ledger)
    requires i <= |p.tuples|
    reads heap.pool`s, heap.pool`memPoolMap, heap.pool.Repr
  {
    && Sound(heap, p) && l.pins == p.pins && Stores(heap, t, l, p.n + i, RowsAfter(p.rows, p.tuples, i))
    && OthersKept(heap.diskId, p.start, heap.pool.s)
  }

  /** What the next insert asks for, the plan gives. */
  lemma NextAllowed(heap: Heap, p: Plan, i: nat, t: HeapSpec.Table, l: Ledger)
    requires i < |p.tuples| && Inserted(heap, p, i, t, l)
    ensures TypesOf(p.tuples[i].cells) == heap.cols && |l.pins| + 2 <= p.cap <= |heap.pool.memPool|
    ensures t.ls.free == [] ==> heap.RoomForPage(heap.pool.s)
  {
    if t.ls.free == [] {
      var c := PagesTaken(t.ls) + 1;
      NextPageFits(heap, t, p.total, c);
      heap.RoomIfFits(l, c);
    }
  }

  lemma RowsNext(rows: Rows, tuples: seq<Tuple>, i: nat, j: nat)
    requires j == i + 1 <= |tuples|
    ensures RowsAfter(rows, tuples, j) == RowsAfter(rows, tuples, i) + multiset{tuples[i].cells}
  {
  }

  lemma OthersKeptByInsert(h: Layout, start: Pool, a: Pool, b: Pool, t: HeapSpec.Table, t': HeapSpec.Table, cursor: int, cells: seq<Cell>)
    requires OthersKept(h.disk, start, a) && SameRegistry(a.store, b.store)
    requires View(a) == t.mem && View(b) == t'.mem && HeapSpec.Inserts(h, t, t', cursor, cells)
    ensures OthersKept(h.disk, start, b)
  {
    HeapSpec.InsertsOwnDisk(h, t, t', cursor, cells);
  }

  /** From an insert that kept the plan so far, the plan is kept one tuple further. */
  lemma NextKept(heap: Heap, p: Plan, i: nat, j: nat, a: Pool, b: Pool, t: HeapSpec.Table, t': HeapSpec.Table, cursor: int, cells: seq<Cell>)
    requires j == i + 1 <= |p.tuples| && cells == p.tuples[i].cells && cursor == heap.FilePages(a) + 1
    requires HeapSpec.Inserts(heap.Lay(), t, t', cursor, cells)
    requires heap.Grew(a, b, t.ls.free) && View(a) == t.mem && View(b) == t'.mem && OthersKept(heap.diskId, p.start, a)
    requires Exact(heap.Lay(), heap.FilePages(a), t, p.n + i, RowsAfter(p.rows, p.tuples, i))
    ensures Exact(heap.Lay(), heap.FilePages(b), t', p.n + j, RowsAfter(p.rows, p.tuples, j))
    ensures OthersKept(heap.diskId, p.start, b)
  {
    heap.GrewBy(a, b, t.ls.free);
    RowsNext(p.rows, p.tuples, i, j);
    OthersKeptByInsert(heap.Lay(), p.start, a, b, t, t', cursor, cells);
    var pages, pages', n, n' := heap.FilePages(a), heap.FilePages(b), p.n + i, p.n + j;
    ExactAfter(heap.Lay(), t, t', cursor, pages, pages', n, n', RowsAfter(p.rows, p.tuples, i), RowsAfter(p.rows, p.tuples, j), cells);
  }

  /** The next insert of the run. */
  method InsertNext(heap: Heap, tuple: Tuple, ghost p: Plan, ghost i: nat, ghost t: HeapSpec.Table, ghost l: Ledger)
    returns (ghost j: nat, ghost t': HeapSpec.Table, ghost l': Ledger)
    requires i < |p.tuples| && tuple == p.tuples[i] && Inserted(heap, p, i, t, l)
    modifies heap.pool, heap.pool.Repr
    ensures j == i + 1 && Inserted(heap, p, j, t', l')
  {
    ghost var before := heap.pool.s;
    NextAllowed(heap, p, i, t, l);
    t', l' := heap.InsertTuple(tuple, t, l, p.cap);
    j := i + 1;
    NextKept(heap, p, i, j, before, heap.pool.s, t, t', heap.FilePages(before) + 1, tuple.cells);
  }

  /** A whole run of inserts: on a disk with room for all of them none fails for want of space, and
      the table gains exactly the tuples, in exactly the pages they need; no page of another disk
      changes. */
  method InsertAll(heap: Heap, tuples: seq<Tuple>, ghost p: Plan, ghost t: HeapSpec.Table, ghost l: Ledger)
    returns (ghost t': HeapSpec.Table, ghost l': Ledger)
    requires tuples == p.tuples && Inserted(heap, p, 0, t, l)
    modifies heap.pool, heap.pool.Repr
    ensures Inserted(heap, p, |tuples|, t', l')
  {
    t', l' := t, l;
    ghost var j: nat := 0;
    for i := 0 to |tuples|
      invariant i == j && Inserted(heap, p, j, t', l')
    {
      j, t', l' := InsertNext(heap, tuples[i], p, j, t', l');
    }
  }

  // ---------------------------------------------------------------- from a new disk to its file

  /** Frames for a pool, each with a buffer of its own. */
  method MakeFrames(pageSize: nat, n: nat) returns (frames: seq<BufferPage>)
    ensures |frames| == n
    ensures forall i :: 0 <= i < n ==> fresh(frames[i]) && fresh(frames[i].bytes) && frames[i].bytes.Length == pageSize
    ensures forall i, j :: 0 <= i < j < n ==> frames[i] != frames[j] && frames[i].bytes != frames[j].bytes
  {
    frames := [];
    for k := 0 to n
      invariant |frames| == k
      invariant forall i :: 0 <= i < k ==> fresh(frames[i]) && fresh(frames[i].bytes) && frames[i].bytes.Length == pageSize
      invariant forall i, j :: 0 <= i < j < k ==> frames[i] != frames[j] && frames[i].bytes != frames[j].bytes
    {
      var bytes := new byte[pageSize](_ => 0);
      var frame := new BufferPage(bytes);
      frames := frames + [frame];
    }
  }

  /** A pool of n frames over a disk manager, with nothing cached and nobody holding a page. */
  method MakePool(dm: PosixDiskManager, n: nat) returns (pool: BufferManager)
    requires dm.Valid() && dm.maxDiskByteSize < TWO_TO_32 && DistinctNames(dm.Abs())
    ensures fresh(pool) && fresh(pool.Repr - {dm, dm.fs})
    ensures pool.Valid() && pool.dm == dm && |pool.memPool| == n && pool.s.store == dm.Abs() == old(dm.Abs())
    ensures Linked(pool.s, NO_PINS) && View(pool.s) == Durability.OnDisk(dm.Abs())
  {
    var tracker := new BitmapTracker(n);
    var frames := MakeFrames(dm.pageSize, n);
    var alg := new DumbAlg();
    pool := new BufferManager(dm, alg, tracker, frames);
    EmptyPoolLinked(pool.s);
  }

  /** The file name of a table is not taken yet. */
  ghost predicate IsNewTable(st: Store, name: string) {
    && FullName(name + HEAP_DISK_SUFFIX) !in st.files
    && forall id :: id in st.disks ==> st.disks[id] != FullName(name + HEAP_DISK_SUFFIX)
  }

  /** A new table on a disk with room for so many tuples. */
  method MakeTableOn(dm: PosixDiskManager, pool: BufferManager, name: string, cols: seq<CellType>, ghost total: nat)
    returns (heap: Heap, ghost t: HeapSpec.Table)
    requires pool.Valid() && pool.dm == dm && Linked(pool.s, NO_PINS) && |pool.memPool| > 0
    requires Layout(0, dm.pageSize, cols).Ok() && RoomFor(Layout(0, dm.pageSize, cols), dm.maxDiskByteSize, total)
    requires IsNewTable(pool.s.store, name)
    modifies pool, pool.Repr
    ensures heap.pool == pool && heap.dm == dm && heap.cols == cols && heap.pageSize == dm.pageSize
    ensures Stores(heap, t, NO_PINS, 0, multiset{}) && HasRoomFor(heap, total)
    ensures Resolve(pool.s.store, heap.diskId) == Ok(FullName(name + HEAP_DISK_SUFFIX))
    ensures forall k: Key :: k.disk != heap.diskId ==> View(pool.s)[k] == View(old(pool.s))[k]
  {
    MulLe(1, 2 * CeilDiv(total, Layout(0, dm.pageSize, cols).Slots()) + 1, dm.pageSize);
    heap := new Heap(dm, pool, name, cols, dm.pageSize, NO_PINS);
    t := HeapSpec.Table(View(pool.s), HeapSpec.EMPTY);
    EmptyIsPacked(heap.Lay(), t);
  }

  /** The files alone, with no cache in front, hold a well-formed table of these tuples. */
  ghost predicate FilesHold(st: Store, h: Layout, rows: Rows) {
    exists ls :: Durability.HoldsAs(st, h, ls, rows)
  }

  /** These files hold n tuples in the pages they need and, on other disks, the pages given. */
  ghost predicate Saved(st: Store, h: Layout, n: nat, rows: Rows, others: Memory) {
    && FilesHold(st, h, rows) && h.Slots() > 0
    && Pages(st, h.disk) == 1 + 2 * CeilDiv(n, h.Slots())
    && forall k: Key :: k.disk != h.disk ==> PageOf(st, k) == others[k]
  }

  /** A flush with no page held leaves on disk what the clients saw, page by page. */
  lemma FlushedPages(s: Pool, l: Ledger)
    requires Linked(s, l) && l.pins == map[]
    ensures forall k: Key :: PageOf(PoolSpec.FreeAvail(s).store, k) == View(s)[k]
  {
    forall k: Key
      ensures PageOf(PoolSpec.FreeAvail(s).store, k) == View(s)[k]
    {
      assert KeyLinked(s, l, k);
      DroppedPagesAreOnDisk(s, l, k);
    }
  }

  lemma FlushHolds(s: Pool, l: Ledger, h: Layout, t: HeapSpec.Table, rows: Rows)
    requires Linked(s, l) && View(s) == t.mem && HeapSpec.TableOk(h, t) && l.pins == map[] && HeapSpec.TableRows(h, t) == rows
    ensures FilesHold(PoolSpec.FreeAvail(s).store, h, rows)
  {
    Durability.FlushedTableIsOnDisk(s, l, h, t);
  }

  lemma FlushSaves(s: Pool, start: Pool, l: Ledger, h: Layout, t: HeapSpec.Table, n: nat, rows: Rows)
    requires Linked(s, l) && View(s) == t.mem && HeapSpec.TableOk(h, t) && l.pins == map[]
    requires Exact(h, Pages(s.store, h.disk), t, n, rows) && OthersKept(h.disk, start, s)
    ensures Saved(PoolSpec.FreeAvail(s).store, h, n, rows, View(start))
    ensures SameRegistry(start.store, PoolSpec.FreeAvail(s).store)
  {
    FlushHolds(s, l, h, t, rows);
    PackedPageCount(h, t);
    PoolCounts.FreeAvailKeepsPageCounts(s);
    FreeAvailKeeps(s);
    FlushedPages(s, l);
  }

  method Flush(pool: BufferManager, dm: PosixDiskManager)
    requires pool.Valid() && pool.dm == dm
    modifies pool, pool.Repr
    ensures dm.Abs() == PoolSpec.FreeAvail(old(pool.s)).store
  {
    pool.FreeAvailPages();
  }

  /** Flush a table nobody holds a page of. */
  method FlushTable(heap: Heap, ghost p: Plan, ghost n: nat, ghost rows: Rows, ghost t: HeapSpec.Table, ghost l: Ledger)
    requires Stores(heap, t, l, n, rows) && l.pins == map[] && OthersKept(heap.diskId, p.start, heap.pool.s)
    modifies heap.pool, heap.pool.Repr
    ensures Saved(heap.dm.Abs(), heap.Lay(), n, rows, View(p.start)) && SameRegistry(p.start.store, heap.dm.Abs())
  {
    FlushSaves(heap.pool.s, p.start, l, heap.Lay(), t, n, rows);
    Flush(heap.pool, heap.dm);
  }

  /** Insert any tuples there is room for, and flush. */
  method FillTable(heap: Heap, tuples: seq<Tuple>, ghost t: HeapSpec.Table, ghost l: Ledger)
    requires Stores(heap, t, l, 0, multiset{}) && AllOfTypes(tuples, heap.cols)
    requires l.pins == map[] && 2 <= |heap.pool.memPool| && HasRoomFor(heap, |tuples|)
    modifies heap.pool, heap.pool.Repr
    ensures Saved(heap.dm.Abs(), heap.Lay(), |tuples|, RowsOf(tuples), View(old(heap.pool.s)))
    ensures SameRegistry(old(heap.pool.s).store, heap.dm.Abs())
  {
    ghost var p := Plan(heap.pool.s, map[], 2, 0, multiset{}, |tuples|, tuples);
    ghost var t', l' := InsertAll(heap, tuples, p, t, l);
    AllRows(tuples);
    FlushTable(heap, p, |tuples|, RowsOf(tuples), t', l');
  }

  /** The whole stack: make a pool and a table on a new disk, insert any tuples the disk has room for,
      through as few as two frames, and flush. The new table's file then holds a well-formed table of
      exactly those tuples, in exactly the pages they need, and every other file's pages are as they
      were. */
  method FillNewDisk(dm: PosixDiskManager, n: nat, name: string, cols: seq<CellType>, tuples: seq<Tuple>) returns (id: int)
    requires dm.Valid() && dm.maxDiskByteSize < TWO_TO_32 && DistinctNames(dm.Abs()) && IsNewTable(dm.Abs(), name)
    requires n >= 2 && AllOfTypes(tuples, cols)
    requires Layout(0, dm.pageSize, cols).Ok() && RoomFor(Layout(0, dm.pageSize, cols), dm.maxDiskByteSize, |tuples|)
    modifies dm, dm.fs
    ensures Resolve(dm.Abs(), id) == Ok(name + ".heap" + ".disk")
    ensures FilesHold(dm.Abs(), Layout(id, dm.pageSize, cols), RowsOf(tuples))
    ensures Pages(dm.Abs(), id) == 1 + 2 * CeilDiv(|tuples|, Layout(id, dm.pageSize, cols).Slots())
    ensures forall k: Key :: k.disk != id ==> PageOf(dm.Abs(), k) == PageOf(old(dm.Abs()), k)
  {
    var pool := MakePool(dm, n);
    var heap;
    ghost var t;
    heap, t := MakeTableOn(dm, pool, name, cols, |tuples|);
    FillTable(heap, tuples, t, NO_PINS);
    id := heap.diskId;
  }
}
