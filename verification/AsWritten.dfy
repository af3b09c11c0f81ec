/** Exact conditions under which the code as it is written does what the rest of this project proves of
    its purpose. Each lemma keeps one departure and says for which inputs it is harmless, if any. */
module AsWritten {
  import opened Bytes
  import opened BitmapSpec
  import opened TupleSpec
  import opened StoreSpec
  import opened PoolSpec
  import opened PoolRuns
  import opened HeapLayout
  import opened PosixDisks
  import FileSpec
  import H = HeapSpec
  import S = HeapSpace
  import PoolCounts

  // ---------------------------------------------------------------- posix_disk.cpp

  /** The two `unsigned int` offsets of a page are its true offsets exactly when its end is below 2^32. */
  lemma OffsetsExactIff(pageSize: nat, c: nat)
    ensures Wrap32(c * pageSize) == c * pageSize && Wrap32(Wrap32(c * pageSize) + pageSize) == (c + 1) * pageSize
            <==> NoWrap(pageSize, c)
  {
    FileSpec.PagesDisjoint(pageSize, c, c + 1);
  }

  /** Past that, page numbers come round again: two of them name the same bytes. */
  lemma WrappedPagesAlias(pageSize: nat, c: nat)
    requires pageSize > 0 && TWO_TO_32 % pageSize == 0
    ensures Wrap32((c + TWO_TO_32 / pageSize) * pageSize) == Wrap32(c * pageSize)
  {
    var n := TWO_TO_32 / pageSize;
    assert TWO_TO_32 == n * pageSize;
    assert (c + n) * pageSize == c * pageSize + n * pageSize;
    assert (c * pageSize + TWO_TO_32) % TWO_TO_32 == (c * pageSize) % TWO_TO_32;
  }

  // ---------------------------------------------------------------- bitmap.cpp

  /** The byte count the constructor stores: it rounds up on an odd number of bits. */
  function WrittenNumBytes(n: nat): nat {
    n / 8 + if n % 2 != 0 then 1 else 0
  }

  /** The stored count is the bytes the bits need exactly when the bits end on a byte or are odd in
      number, and the n / 8 bytes allocated hold the bits exactly when they end on a byte. */
  lemma BitmapBytesIff(n: nat)
    ensures WrittenNumBytes(n) == Ceil8(n) <==> n % 8 == 0 || n % 2 == 1
    ensures (forall i :: 0 <= i < n ==> i / 8 < n / 8) <==> n % 8 == 0
    ensures WrittenNumBytes(n) <= n / 8 <==> n % 2 == 0
  {
    assert n % 8 == 0 ==> n % 2 == 0;
    if n % 8 != 0 {
      assert (n - 1) / 8 == n / 8;
    }
  }

  // ---------------------------------------------------------------- heap.cpp

  /** The slot count an insert computes: the page's bytes after the links, plus 57. */
  function WrittenSlotCount(pageSize: nat): nat {
    pageSize + 49
  }

  /** It fits the page only when a tuple has no bytes, and then from a page size of 17 on. */
  lemma WrittenSlotCountFitsIff(pageSize: nat, tupleSize: nat)
    ensures SlotsFit(pageSize, tupleSize, WrittenSlotCount(pageSize)) <==> tupleSize == 0 && pageSize >= 17
  {
    if tupleSize > 0 {
      MulAtLeast(WrittenSlotCount(pageSize), tupleSize);
    } else {
      assert Ceil8(WrittenSlotCount(pageSize)) == 7 + pageSize / 8;
    }
  }

  lemma MulAtLeast(n: nat, d: nat)
    requires d > 0
    ensures n * d >= n
  {
    assert n * d == n + n * (d - 1);
  }

  /** With every size cut down to a truth value a tuple's size is its number of cells, which is right
      exactly when every column is one byte wide. */
  lemma {:induction false} BoolSizesIff(tys: seq<CellType>)
    ensures TotalSize(tys) >= |tys|
    ensures TotalSize(tys) == |tys| <==> forall i :: 0 <= i < |tys| ==> tys[i] == UInt8
  {
    if tys != [] {
      var n := |tys| - 1;
      BoolSizesIff(tys[..n]);
      assert forall i :: 0 <= i < n ==> tys[..n][i] == tys[i];
    }
  }

  const ROOT := H.ROOT_PAGE

  /** Some lists make a well-formed table of these pages. */
  ghost predicate WellFormed(h: Layout, mem: Memory) {
    exists ls :: H.HeapOk(h, mem, ls)
  }

  /** In a well-formed table the page the root's free word names has a free slot and ends its full
      link. */
  lemma OfferedPage(h: Layout, mem: Memory, ls: H.Lists)
    requires H.HeapOk(h, mem, ls)
    ensures var v := Word(H.At(h, mem, ROOT), ROOT_FREE_OFFSET);
            && (v == NO_PAGE <==> ls.free == [])
            && (v != NO_PAGE ==> v != ROOT && H.HasSpace(h, mem, v) && Word(H.At(h, mem, v), FULL_OFFSET) == NO_PAGE)
  {
    H.RootFreeWord(h, mem, ls);
    assert ls.free != [] ==> ls.free[0] in ls.free;
  }

  /** A page with a free slot that is on no free list is a page of zeros. */
  lemma SpaceWithoutList(h: Layout, mem: Memory, ls: H.Lists, c: int)
    requires H.HeapOk(h, mem, ls) && ls.free == [] && c != ROOT && H.HasSpace(h, mem, c)
    ensures H.At(h, mem, c) == Zeros(h.pageSize)
  {
  }

  /** A new data page c, with the number v where the root's free link belongs. */
  ghost function AddPageAs(h: Layout, mem: Memory, c: int, v: int32): Memory
    requires h.Ok() && H.PagesSized(h, mem)
  {
    var rooted := H.Put(h, mem, ROOT, PutWord(H.At(h, mem, ROOT), ROOT_FREE_OFFSET, v));
    H.Put(h, rooted, c, PutWord(PutWord(H.At(h, mem, c), FREE_OFFSET, NO_PAGE), FULL_OFFSET, NO_PAGE))
  }

  /** Storing the disk's id as the head of the free list leaves a well-formed table, by any lists,
      exactly when the id happens to be the new page's number. */
  lemma DiskIdAsFreeHeadIff(h: Layout, mem: Memory, ls: H.Lists, c: int, diskId: int32)
    requires H.HeapOk(h, mem, ls) && ls.free == [] && H.Fresh(ls, c)
    ensures WellFormed(h, AddPageAs(h, mem, c, diskId)) <==> diskId == c
  {
    var mem' := AddPageAs(h, mem, c, diskId);
    if diskId == c {
      H.AddPageKeeps(h, mem, ls, c);
      assert mem' == H.AddPage(h, mem, ls, c).0;
    } else {
      forall ls' | H.HeapOk(h, mem', ls')
        ensures false
      {
        WrongHead(h, mem, ls, c, diskId, ls');
      }
    }
  }

  /** The root's free word names neither the new page nor any other page that could be offered. */
  lemma WrongHead(h: Layout, mem: Memory, ls: H.Lists, c: int, v: int32, ls': H.Lists)
    requires H.HeapOk(h, mem, ls) && ls.free == [] && H.Fresh(ls, c) && v != c
    ensures !H.HeapOk(h, AddPageAs(h, mem, c, v), ls')
  {
    var mem' := AddPageAs(h, mem, c, v);
    if H.HeapOk(h, mem', ls') {
      RootWordAs(h, mem, c, v);
      OfferedPage(h, mem', ls');
      if v == NO_PAGE {
        H.NewPage(h, H.At(h, mem, c));
        ZeroPageReadsZero(h.pageSize, FULL_OFFSET);
        SpaceWithoutList(h, mem', ls', c);
      } else {
        NoOtherPageOffered(h, mem, ls, v);
      }
    }
  }

  /** With no page on the free list, no page could be on it. */
  lemma NoOtherPageOffered(h: Layout, mem: Memory, ls: H.Lists, v: int)
    requires H.HeapOk(h, mem, ls) && ls.free == [] && v != ROOT
    ensures !(H.HasSpace(h, mem, v) && Word(H.At(h, mem, v), FULL_OFFSET) == NO_PAGE)
  {
    ZeroPageReadsZero(h.pageSize, FULL_OFFSET);
    if H.HasSpace(h, mem, v) {
      SpaceWithoutList(h, mem, ls, v);
    }
  }

  lemma RootWordAs(h: Layout, mem: Memory, c: int, v: int32)
    requires h.Ok() && H.PagesSized(h, mem) && c != ROOT
    ensures |H.At(h, AddPageAs(h, mem, c, v), ROOT)| == h.pageSize
    ensures Word(H.At(h, AddPageAs(h, mem, c, v), ROOT), ROOT_FREE_OFFSET) == v
  {
    assert |H.At(h, mem, ROOT)| == h.pageSize && |H.At(h, mem, c)| == h.pageSize;
    H.RootWords(H.At(h, mem, ROOT), ROOT_FREE_OFFSET, v);
  }

  /** A new page at the head of the free list whose own links are not set. */
  ghost function AddPageUnlinked(h: Layout, mem: Memory, c: int32): Memory
    requires h.Ok() && H.PagesSized(h, mem)
  {
    H.Put(h, mem, ROOT, PutWord(H.At(h, mem, ROOT), ROOT_FREE_OFFSET, c))
  }

  /** No lists make a well-formed table of that, whatever the table and the page: the links of a page
      of zeros read as page 0, the root. */
  lemma UnsetLinksNeverWellFormed(h: Layout, mem: Memory, ls: H.Lists, c: int)
    requires H.HeapOk(h, mem, ls) && ls.free == [] && H.Fresh(ls, c)
    ensures !WellFormed(h, AddPageUnlinked(h, mem, c))
  {
    var mem' := AddPageUnlinked(h, mem, c);
    assert |H.At(h, mem, ROOT)| == h.pageSize;
    H.RootWords(H.At(h, mem, ROOT), ROOT_FREE_OFFSET, c);
    ZeroPageReadsZero(h.pageSize, FULL_OFFSET);
    forall ls' | H.HeapOk(h, mem', ls')
      ensures false
    {
      OfferedPage(h, mem', ls');
    }
  }

  /** The head of the free list takes the tuple and, if that fills it, is appended to the full list
      without being taken off the free list. */
  ghost function WrittenFill(h: Layout, mem: Memory, ls: H.Lists, cells: seq<Cell>): Memory
    requires H.Fillable(h, mem, ls, cells)
  {
    var stored := H.StoreTuple(h, mem, ls.free[0], cells);
    if H.HasSpace(h, stored, ls.free[0]) then stored else H.AppendFull(h, stored, ls.full, ls.free[0])
  }

  /** That leaves a well-formed table, by any lists, exactly when the page had more than one free slot
      before the insert. */
  lemma WrittenFillIff(h: Layout, mem: Memory, ls: H.Lists, cells: seq<Cell>)
    requires H.HeapOk(h, mem, ls) && ls.free != [] && TypesOf(cells) == h.types
    ensures H.Fillable(h, mem, ls, cells)
    ensures WellFormed(h, WrittenFill(h, mem, ls, cells)) <==> CountFree(SlotMap(h, H.At(h, mem, ls.free[0]))) > 1
  {
    H.FillHeadKeeps(h, mem, ls, cells);
    S.StoreTakesOne(h, mem, ls, cells);
    var c := ls.free[0];
    var stored := H.StoreTuple(h, mem, c, cells);
    FreePlusTaken(SlotMap(h, H.At(h, mem, c)));
    FreePlusTaken(SlotMap(h, H.At(h, stored, c)));
    if !H.HasSpace(h, stored, c) {
      FilledHeadStaysOffered(h, stored, ls);
      forall ls' | H.HeapOk(h, WrittenFill(h, mem, ls, cells), ls')
        ensures false
      {
        OfferedPage(h, WrittenFill(h, mem, ls, cells), ls');
      }
    }
  }

  /** The root still offers the page, which has no free slot for the next insert. */
  lemma FilledHeadStaysOffered(h: Layout, mem: Memory, ls: H.Lists)
    requires H.HeapOkButHead(h, mem, ls) && !H.HasSpace(h, mem, ls.free[0])
    ensures 0 < ls.free[0] < 0x8000_0000
    ensures var mem' := H.AppendFull(h, mem, ls.full, ls.free[0]);
            && H.PagesSized(h, mem')
            && Word(H.At(h, mem', ROOT), ROOT_FREE_OFFSET) == ls.free[0]
            && !H.HasSpace(h, mem', ls.free[0])
  {
    H.RootFreeWord(h, mem, ls);
    H.HeadCanMove(h, mem, ls);
    H.AppendPages(h, mem, ls.full, ls.free[0]);
    assert |H.At(h, mem, ROOT)| == h.pageSize;
    H.RootWords(H.At(h, mem, ROOT), ROOT_FULL_OFFSET, ls.free[0]);
  }

  // ---------------------------------------------------------------- bitmap_tracker.cpp

  /** `pin` when the tracker's exception for `no free frame` escapes it: it never evicts. */
  predicate WrittenPinSucceeds(s: Pool, k: Key)
    requires |s.frames| == |s.taken|
  {
    Cached(s, k) || FirstFree(s.taken).Some?
  }

  /** So it succeeds exactly when the page is cached or fewer pages are cached than there are frames,
      pinned or not; and it fails where it should succeed exactly when the page is not cached, no
      frame is free, and one could be evicted. */
  lemma WrittenPinSucceedsIff(s: Pool, k: Key)
    requires TableOk(s)
    ensures WrittenPinSucceeds(s, k) <==> Cached(s, k) || |PoolCounts.Entries(s.table)| < |s.frames|
    ensures PinSucceeds(s, k) && !WrittenPinSucceeds(s, k)
            <==> !Cached(s, k) && FirstFree(s.taken).None? && exists f :: 0 <= f < |s.frames| && Evictable(s, f)
  {
    PoolCounts.EntriesEqualTakenBits(s);
    FreePlusTaken(s.taken);
    FirstFreeNoneIffFull(s.taken);
  }

  // ---------------------------------------------------------------- two ids for one file

  /** Why the pool needs loaded ids to name distinct files: a write through one id to a page it has
      cached is seen through another id for the same file, as it is on plain files, exactly when it
      stores what that id already shows, whether it has the page cached or not. */
  lemma AliasedPagesAgreeIff(s: Pool, a: int, b: int, c: int, data: Page)
    requires PoolOk(s) && a != b && Cached(s, Key(a, c)) && |data| == s.store.pageSize
    requires a in s.store.disks && b in s.store.disks && s.store.disks[a] == s.store.disks[b]
    ensures PoolOk(ClientWrite(s, Key(a, c), data))
    ensures Logical(ClientWrite(s, Key(a, c), data), Key(b, c)) == data <==> data == Logical(s, Key(b, c))
  {
    var f := Find(s.table, Key(a, c)).value;
    FrameFieldsKeep(s, f, s.frames[f].(bytes := data));
    assert Find(s.table, Key(b, c)) != Some(f);
  }
}
