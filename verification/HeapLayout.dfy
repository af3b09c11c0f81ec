/** Where things are in a heap page (the layout macros of organizers/src/heap.cpp). */
module HeapLayout {
  import opened Bytes
  import opened BitmapSpec
  import opened FileSpec
  import opened TupleSpec

  const STAMP: int32 := 1
  const STAMP_OFFSET := 0
  const ROOT_FREE_OFFSET := 4
  const ROOT_FULL_OFFSET := 8
  const FREE_OFFSET := 0
  const FULL_OFFSET := 4
  const BITMAP_OFFSET := 8
  const NO_PAGE: int32 := -1

  // ---------------------------------------------------------------- geometry

  /** n slots, their bitmap and the two link words fit a page. */
  predicate SlotsFit(pageSize: nat, tupleSize: nat, n: nat) {
    BITMAP_OFFSET + Ceil8(n) + n * tupleSize <= pageSize
  }

  function SlotCount(pageSize: nat, tupleSize: nat): nat
    requires pageSize >= 8
  {
    (8 * (pageSize - 8)) / (8 * tupleSize + 1)
  }

  /** SlotCount is the largest number of slots that fits, for every page and tuple size. */
  lemma SlotCountIsLargest(pageSize: nat, tupleSize: nat, n: nat)
    requires pageSize >= 8
    ensures SlotsFit(pageSize, tupleSize, n) <==> n <= SlotCount(pageSize, tupleSize)
  {
    var room, per := 8 * (pageSize - 8), 8 * tupleSize + 1;
    assert SlotsFit(pageSize, tupleSize, n) <==> n * per <= room by {
      assert n * per == 8 * (n * tupleSize) + n;
    }
    LargestMultiple(room, per, n);
  }

  lemma LargestMultiple(room: nat, per: nat, n: nat)
    requires per > 0
    ensures n * per <= room <==> n <= room / per
  {
    var q := room / per;
    assert room == q * per + room % per;
    if n <= q {
      MulLe(n, q, per);
    } else {
      MulMonotone(q, n, per);
    }
  }

  datatype Layout = Layout(disk: int, pageSize: nat, types: seq<CellType>) {
    function TupleSize(): nat {
      TotalSize(types)
    }

    function Slots(): nat
      requires pageSize >= 8
    {
      SlotCount(pageSize, TupleSize())
    }

    /** The root page has room for its three words and a data page for at least one tuple. */
    predicate Ok() {
      pageSize >= 12 && Slots() >= 1
    }

    function BitmapBytes(): nat
      requires pageSize >= 8
    {
      Ceil8(Slots())
    }

    function SlotOffset(i: nat): nat
      requires pageSize >= 8
    {
      BITMAP_OFFSET + BitmapBytes() + i * TupleSize()
    }
  }

  lemma SlotsInOrder(base: nat, size: nat, i: nat, j: nat, n: nat)
    requires i < j <= n
    ensures base + i * size + size <= base + j * size <= base + n * size
    ensures base <= base + i * size
  {
    MulMonotone(i, j, size);
    MulLe(j, n, size);
    MulLe(0, i, size);
  }

  /** The link words, the bitmap bytes and all tuple slots are pairwise disjoint and inside the page. */
  lemma RegionsDisjoint(h: Layout, i: nat, j: nat)
    requires h.pageSize >= 8 && i < j <= h.Slots()
    ensures FULL_OFFSET + 4 <= BITMAP_OFFSET && BITMAP_OFFSET + h.BitmapBytes() <= h.SlotOffset(i)
    ensures h.SlotOffset(i) + h.TupleSize() <= h.SlotOffset(j)
    ensures h.SlotOffset(j) <= h.pageSize
  {
    SlotCountIsLargest(h.pageSize, h.TupleSize(), h.Slots());
    SlotsInOrder(BITMAP_OFFSET + h.BitmapBytes(), h.TupleSize(), i, j, h.Slots());
  }

  // ---------------------------------------------------------------- reading a data page

  ghost predicate Sized(h: Layout, page: Page) {
    h.Ok() && |page| == h.pageSize
  }

  function BitmapOf(h: Layout, page: Page): (b: seq<byte>)
    requires Sized(h, page)
    ensures |b| == h.BitmapBytes()
  {
    RegionsDisjoint(h, 0, h.Slots());
    page[BITMAP_OFFSET..BITMAP_OFFSET + h.BitmapBytes()]
  }

  /** Which slots hold a tuple. */
  function SlotMap(h: Layout, page: Page): (bits: seq<bool>)
    requires Sized(h, page)
    ensures |bits| == h.Slots()
  {
    Bits(BitmapOf(h, page), h.Slots())
  }

  function SlotBytes(h: Layout, page: Page, i: nat): (b: seq<byte>)
    requires Sized(h, page) && i < h.Slots()
    ensures |b| == h.TupleSize()
  {
    RegionsDisjoint(h, i, i + 1);
    page[h.SlotOffset(i)..h.SlotOffset(i) + h.TupleSize()]
  }

  function RowAt(h: Layout, page: Page, i: nat): (cells: seq<Cell>)
    requires Sized(h, page) && i < h.Slots()
    ensures TypesOf(cells) == h.types
  {
    Decode(h.types, SlotBytes(h, page, i))
  }

  /** What every slot would decode to, taken or not. */
  function SlotRows(h: Layout, page: Page): (rows: seq<seq<Cell>>)
    requires Sized(h, page)
    ensures |rows| == h.Slots()
  {
    seq(h.Slots(), i requires 0 <= i < h.Slots() => RowAt(h, page, i))
  }

  type Rows = multiset<seq<Cell>>

  /** The tuples in the taken slots. */
  ghost function TakenRows(bits: seq<bool>, rows: seq<seq<Cell>>): Rows
    requires |bits| == |rows|
  {
    if bits == [] then multiset{}
    else
      var n := |bits| - 1;
      TakenRows(bits[..n], rows[..n]) + if bits[n] then multiset{rows[n]} else multiset{}
  }

  lemma RowsAssoc(a: Rows, b: Rows, c: Rows)
    ensures a + (b + c) == a + b + c
  {
  }

  lemma LastSwap(a: Rows, b: Rows, c: Rows)
    ensures a + b + c == a + c + b
  {
  }

  /** Taking a clear slot adds exactly its tuple. */
  lemma {:induction false} TakenRowsAdd(bits: seq<bool>, rows: seq<seq<Cell>>, i: nat, cells: seq<Cell>)
    requires i < |bits| == |rows| && !bits[i]
    ensures TakenRows(bits[i := true], rows[i := cells]) == TakenRows(bits, rows) + multiset{cells}
  {
    var n := |bits| - 1;
    if i == n {
      assert bits[i := true][..n] == bits[..n] && rows[i := cells][..n] == rows[..n];
    } else {
      TakenRowsAdd(bits[..n], rows[..n], i, cells);
      assert bits[i := true][..n] == bits[..n][i := true] && rows[i := cells][..n] == rows[..n][i := cells];
      LastSwap(TakenRows(bits[..n], rows[..n]), multiset{cells}, if bits[n] then multiset{rows[n]} else multiset{});
    }
  }

  lemma {:induction false} NoneTakenNoRows(bits: seq<bool>, rows: seq<seq<Cell>>)
    requires |bits| == |rows| && forall i :: 0 <= i < |bits| ==> !bits[i]
    ensures TakenRows(bits, rows) == multiset{}
  {
    if bits != [] {
      NoneTakenNoRows(bits[..|bits| - 1], rows[..|bits| - 1]);
    }
  }

  ghost function PageRows(h: Layout, page: Page): Rows
    requires Sized(h, page)
  {
    TakenRows(SlotMap(h, page), SlotRows(h, page))
  }

  /** Same slots taken, same tuples in them. */
  ghost predicate SameSlots(h: Layout, a: Page, b: Page) {
    && Sized(h, a) && Sized(h, b)
    && SlotMap(h, a) == SlotMap(h, b) && SlotRows(h, a) == SlotRows(h, b)
  }

  // ---------------------------------------------------------------- writing a data page

  /** A link write leaves slots and the other link alone. */
  lemma PutLinkKeepsSlots(h: Layout, page: Page, at: nat, v: int32)
    requires Sized(h, page) && (at == FREE_OFFSET || at == FULL_OFFSET)
    ensures SameSlots(h, page, PutWord(page, at, v))
    ensures Word(PutWord(page, at, v), at) == v
    ensures Word(PutWord(page, at, v), 4 - at) == Word(page, 4 - at)
  {
    WordAfterPut(page, at, v, at);
    WordAfterPut(page, at, v, 4 - at);
    RegionsDisjoint(h, 0, h.Slots());
    SpliceRead(page, at, EncodeInt32(v), BITMAP_OFFSET, h.BitmapBytes());
    forall i | 0 <= i < h.Slots()
      ensures RowAt(h, page, i) == RowAt(h, PutWord(page, at, v), i)
    {
      PutLinkKeepsRow(h, page, at, v, i);
    }
  }

  lemma PutLinkKeepsRow(h: Layout, page: Page, at: nat, v: int32, i: nat)
    requires Sized(h, page) && (at == FREE_OFFSET || at == FULL_OFFSET) && i < h.Slots()
    ensures RowAt(h, page, i) == RowAt(h, PutWord(page, at, v), i)
  {
    RegionsDisjoint(h, i, i + 1);
    SpliceRead(page, at, EncodeInt32(v), h.SlotOffset(i), h.TupleSize());
  }

  /** Set the slot's bit. */
  function TakenSlot(h: Layout, page: Page, i: nat): (r: Page)
    requires Sized(h, page) && i < h.Slots()
    ensures |r| == |page|
  {
    RegionsDisjoint(h, 0, h.Slots());
    Splice(page, BITMAP_OFFSET, SetBit(BitmapOf(h, page), i, true))
  }

  /** Set the slot's bit and write the tuple into the slot. */
  function PutRow(h: Layout, page: Page, i: nat, cells: seq<Cell>): (r: Page)
    requires Sized(h, page) && i < h.Slots() && TypesOf(cells) == h.types
    ensures |r| == |page|
  {
    RegionsDisjoint(h, i, i + 1);
    EncodeSize(cells);
    Splice(TakenSlot(h, page, i), h.SlotOffset(i), Encode(cells))
  }

  lemma PutRowReads(h: Layout, page: Page, i: nat, cells: seq<Cell>)
    requires Sized(h, page) && i < h.Slots() && TypesOf(cells) == h.types
    ensures SlotMap(h, PutRow(h, page, i, cells)) == SlotMap(h, page)[i := true]
    ensures Word(PutRow(h, page, i, cells), FREE_OFFSET) == Word(page, FREE_OFFSET)
    ensures Word(PutRow(h, page, i, cells), FULL_OFFSET) == Word(page, FULL_OFFSET)
  {
    RegionsDisjoint(h, i, i + 1);
    RegionsDisjoint(h, 0, h.Slots());
    EncodeSize(cells);
    var bits := SetBit(BitmapOf(h, page), i, true);
    var mid := Splice(page, BITMAP_OFFSET, bits);
    SpliceRead(page, BITMAP_OFFSET, bits, BITMAP_OFFSET, h.BitmapBytes());
    SpliceRead(mid, h.SlotOffset(i), Encode(cells), BITMAP_OFFSET, h.BitmapBytes());
    SetBitRefines(BitmapOf(h, page), h.Slots(), i, true);
    SpliceRead(page, BITMAP_OFFSET, bits, FREE_OFFSET, 4);
    SpliceRead(mid, h.SlotOffset(i), Encode(cells), FREE_OFFSET, 4);
    SpliceRead(page, BITMAP_OFFSET, bits, FULL_OFFSET, 4);
    SpliceRead(mid, h.SlotOffset(i), Encode(cells), FULL_OFFSET, 4);
  }

  lemma TakenSlotKeepsBytes(h: Layout, page: Page, i: nat, j: nat)
    requires Sized(h, page) && i < h.Slots() && j < h.Slots()
    ensures SlotBytes(h, TakenSlot(h, page, i), j) == SlotBytes(h, page, j)
  {
    RegionsDisjoint(h, j, j + 1);
    SpliceRead(page, BITMAP_OFFSET, SetBit(BitmapOf(h, page), i, true), h.SlotOffset(j), h.TupleSize());
  }

  lemma SlotWritten(h: Layout, page: Page, i: nat, b: seq<byte>, j: nat)
    requires Sized(h, page) && i < h.Slots() && |b| == h.TupleSize() && j < h.Slots()
    ensures h.SlotOffset(i) + |b| <= |page|
    ensures SlotBytes(h, Splice(page, h.SlotOffset(i), b), j) == if j == i then b else SlotBytes(h, page, j)
  {
    RegionsDisjoint(h, i, i + 1);
    RegionsDisjoint(h, j, j + 1);
    if j < i {
      RegionsDisjoint(h, j, i);
    } else if i < j {
      RegionsDisjoint(h, i, j);
    }
    SpliceRead(page, h.SlotOffset(i), b, h.SlotOffset(j), h.TupleSize());
  }

  lemma PutRowBytes(h: Layout, page: Page, i: nat, cells: seq<Cell>, j: nat)
    requires Sized(h, page) && i < h.Slots() && TypesOf(cells) == h.types && j < h.Slots()
    ensures SlotBytes(h, PutRow(h, page, i, cells), j) == if j == i then Encode(cells) else SlotBytes(h, page, j)
  {
    EncodeSize(cells);
    TakenSlotKeepsBytes(h, page, i, j);
    SlotWritten(h, TakenSlot(h, page, i), i, Encode(cells), j);
  }

  lemma PutRowRows(h: Layout, page: Page, i: nat, cells: seq<Cell>, j: nat)
    requires Sized(h, page) && i < h.Slots() && TypesOf(cells) == h.types && j < h.Slots()
    ensures RowAt(h, PutRow(h, page, i, cells), j) == if j == i then cells else RowAt(h, page, j)
  {
    PutRowBytes(h, page, i, cells, j);
    TupleRoundTrip(cells);
  }

  /** Page b is page a with one more tuple, in slot i. */
  ghost predicate OneMoreRow(h: Layout, a: Page, b: Page, i: nat, cells: seq<Cell>) {
    && Sized(h, a) && Sized(h, b) && i < h.Slots() && !SlotMap(h, a)[i]
    && SlotMap(h, b) == SlotMap(h, a)[i := true]
    && SlotRows(h, b) == SlotRows(h, a)[i := cells]
  }

  lemma PutRowIsOneMore(h: Layout, page: Page, i: nat, cells: seq<Cell>)
    requires Sized(h, page) && i < h.Slots() && TypesOf(cells) == h.types && !SlotMap(h, page)[i]
    ensures OneMoreRow(h, page, PutRow(h, page, i, cells), i, cells)
    ensures PageRows(h, PutRow(h, page, i, cells)) == PageRows(h, page) + multiset{cells}
  {
    PutRowReads(h, page, i, cells);
    forall j | 0 <= j < h.Slots()
      ensures SlotRows(h, PutRow(h, page, i, cells))[j] == SlotRows(h, page)[i := cells][j]
    {
      PutRowRows(h, page, i, cells, j);
    }
    TakenRowsAdd(SlotMap(h, page), SlotRows(h, page), i, cells);
  }

  /** A page of zeros, once its links are set, holds no tuple and has every slot free. */
  lemma ZeroPageIsEmpty(h: Layout)
    requires h.Ok()
    ensures Sized(h, Zeros(h.pageSize))
    ensures CountFree(SlotMap(h, Zeros(h.pageSize))) == h.Slots()
    ensures PageRows(h, Zeros(h.pageSize)) == multiset{}
  {
    var page := Zeros(h.pageSize);
    ZeroBytesAllClear(BitmapOf(h, page), h.Slots());
    NoneTakenNoRows(SlotMap(h, page), SlotRows(h, page));
  }

  // ---------------------------------------------------------------- byte by byte

  /** The layout in numbers: n slots of t bytes go in iff two link words, n bits in whole bytes and n * t
      bytes do; slot i starts where the i slots before it end. */
  lemma LayoutInNumbers(h: Layout, n: nat, i: nat)
    requires h.pageSize >= 8
    ensures n <= h.Slots() <==> 8 + (n + 7) / 8 + n * TotalSize(h.types) <= h.pageSize
    ensures h.SlotOffset(i) == 8 + (h.Slots() + 7) / 8 + i * TotalSize(h.types)
  {
    SlotCountIsLargest(h.pageSize, h.TupleSize(), n);
  }

  /** Slot i is taken iff the bit of weight 2 to the i % 8 is set in byte 8 + i / 8, and its tuple is what
      the bytes from 8 + ceil(slots / 8) + i * size on decode to. */
  lemma SlotInNumbers(h: Layout, page: Page, i: nat)
    requires Sized(h, page) && i < h.Slots()
    ensures var at, size := 8 + (h.Slots() + 7) / 8 + i * TotalSize(h.types), TotalSize(h.types);
            && 8 + i / 8 < 8 + (h.Slots() + 7) / 8 <= at && at + size <= |page|
            && (SlotMap(h, page)[i] <==> page[8 + i / 8] / Pow2(i % 8) % 2 == 1)
            && RowAt(h, page, i) == Decode(h.types, page[at..at + size])
  {
    RegionsDisjoint(h, i, i + 1);
    BitPosition(BitmapOf(h, page), i);
  }

  /** Every byte of a page that has taken a tuple: the tuple's bytes in its slot, the slot's bit, and
      all others as before. */
  lemma PutRowBytesAre(h: Layout, page: Page, i: nat, cells: seq<Cell>, k: nat)
    requires Sized(h, page) && i < h.Slots() && TypesOf(cells) == h.types && k < |page|
    ensures var at, b := 8 + (h.Slots() + 7) / 8 + i * TotalSize(h.types), Encode(cells);
            && 8 + i / 8 < at && at + |b| <= |page|
            && PutRow(h, page, i, cells)[at..at + |b|] == b
            && PutRow(h, page, i, cells)[k]
               == if at <= k < at + |b| then b[k - at]
                  else if k == 8 + i / 8 && page[k] / Pow2(i % 8) % 2 == 0 then page[k] + Pow2(i % 8)
                  else page[k]
  {
    RegionsDisjoint(h, i, i + 1);
    EncodeSize(cells);
    SetBitStores(BitmapOf(h, page), i, true);
    SpliceRead(TakenSlot(h, page, i), h.SlotOffset(i), Encode(cells), h.SlotOffset(i), |Encode(cells)|);
  }
}
