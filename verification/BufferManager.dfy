/** The imperative buffer manager: frames, tracker, replacement and the pool itself. */
module BufferPages {
  import opened Bytes
  import opened StoreSpec
  import opened PoolSpec

  datatype BufferError = CacheDiskNotFound | CachePageNotFound | OutOfPages | OutOfPageBounds

  class BufferPage {
    var diskId: int
    var diskPageCursor: int
    var bufferPageCursor: nat
    var pinCount: nat
    var pageSize: nat
    var dirty: bool
    var initialized: bool
    const bytes: array<byte>

    ghost function Value(): Frame
      reads this, bytes
    {
      Frame(Key(diskId, diskPageCursor), pinCount, dirty, bytes[..])
    }

    constructor (bytes: array<byte>)
      ensures this.bytes == bytes
    {
      this.bytes := bytes;
      diskId, diskPageCursor, bufferPageCursor, pinCount, pageSize := 0, 0, 0, 0, 0;
      dirty, initialized := false, false;
    }

    method Init(pageSize: nat, diskId: int, diskPageCursor: int, bufferPageCursor: nat, pinCount: nat, dirty: bool)
      modifies this
      ensures Value() == Frame(Key(diskId, diskPageCursor), pinCount, dirty, old(bytes[..]))
      ensures initialized && this.pageSize == pageSize && this.bufferPageCursor == bufferPageCursor
    {
      this.pageSize := pageSize;
      this.diskId := diskId;
      this.diskPageCursor := diskPageCursor;
      this.bufferPageCursor := bufferPageCursor;
      this.pinCount := pinCount;
      this.dirty := dirty;
      this.initialized := true;
    }

    /** A usable page: set up by `pin`, with a buffer of the page size. */
    ghost predicate Ready()
      reads this
    {
      initialized && pageSize == bytes.Length
    }

    /** A frame of the pool as its abstract value; once taken, it is usable. */
    ghost predicate Shows(fr: Frame, taken: bool)
      reads this, bytes
    {
      Value() == fr && (taken ==> Ready())
    }

    /** The offset a pointer into the page stands for; only its start is checked. */
    method ToPtr(offset: nat) returns (r: Result<nat, BufferError>)
      requires Ready()
      ensures r == if offset < bytes.Length then Ok(offset) else Err(OutOfPageBounds)
    {
      if offset >= pageSize {
        return Err(OutOfPageBounds);
      }
      return Ok(offset);
    }

    method LoadInt32(offset: nat) returns (r: Result<int32, BufferError>)
      requires Ready() && (offset < bytes.Length ==> offset + 4 <= bytes.Length)
      ensures r == if offset < bytes.Length then Ok(Word(bytes[..], offset)) else Err(OutOfPageBounds)
    {
      var p := ToPtr(offset);
      if p.Err? {
        return Err(p.error);
      }
      assert bytes[offset..offset + 4] == bytes[..][offset..offset + 4];
      return Ok(DecodeInt32(bytes[p.value..p.value + 4]));
    }

    method StoreInt32(offset: nat, v: int32) returns (r: Result<(), BufferError>)
      requires Ready() && (offset < bytes.Length ==> offset + 4 <= bytes.Length)
      modifies bytes
      ensures offset < bytes.Length ==> r.Ok? && bytes[..] == PutWord(old(bytes[..]), offset, v)
      ensures offset >= bytes.Length ==> r == Err(OutOfPageBounds) && bytes[..] == old(bytes[..])
    {
      var p := ToPtr(offset);
      if p.Err? {
        return Err(p.error);
      }
      CopyInto(bytes, p.value, EncodeInt32(v));
      return Ok(());
    }

    /** `memcpy`: elements of any width, one checked pointer at a time. */
    method Memcpy(offset: nat, elements: seq<seq<byte>>, width: nat) returns (r: Result<(), BufferError>)
      requires Ready() && width > 0 && forall i :: 0 <= i < |elements| ==> |elements[i]| == width
      modifies bytes
      ensures |Concat(elements)| == |elements| * width
      ensures offset + |elements| * width <= bytes.Length ==>
                r == Ok(()) && bytes[..] == Splice(old(bytes[..]), offset, Concat(elements))
      ensures offset + |elements| * width > bytes.Length ==> r == Err(OutOfPageBounds) && bytes[..] == old(bytes[..])
    {
      ConcatSize(elements, width);
      if offset + |elements| * width > pageSize {
        return Err(OutOfPageBounds);
      }
      ghost var before := bytes[..];
      for i := 0 to |elements|
        invariant Ready() && offset + |Concat(elements[..i])| <= |before| && |Concat(elements[..i])| == i * width
        invariant bytes[..] == Splice(before, offset, Concat(elements[..i]))
      {
        ConcatStep(elements, width, i);
        SpliceSplice(before, offset, Concat(elements[..i]), elements[i]);
        var p := ToPtr(offset + i * width);
        CopyInto(bytes, p.value, elements[i]);
      }
      assert elements[..|elements|] == elements;
      return Ok(());
    }
  }

  lemma ConcatStep(elements: seq<seq<byte>>, width: nat, i: nat)
    requires i < |elements| && forall j :: 0 <= j < |elements| ==> |elements[j]| == width
    ensures Concat(elements[..i + 1]) == Concat(elements[..i]) + elements[i]
    ensures |Concat(elements[..i])| == i * width && |Concat(elements[..i + 1])| == (i + 1) * width
    ensures i * width + width == (i + 1) * width <= |elements| * width
  {
    assert elements[..i + 1][..i] == elements[..i];
    ConcatSize(elements[..i], width);
    ConcatSize(elements[..i + 1], width);
    MulLe(i + 1, |elements|, width);
  }
}

module BitmapTrackers {
  import opened Bytes
  import opened BitmapSpec
  import opened Bitmaps

  /** Frame allocation as a bitmap: a set bit is a taken frame. */
  class BitmapTracker {
    const bitmap: Bitmap

    ghost predicate Valid() {
      bitmap.Valid()
    }

    ghost function Taken(): (taken: seq<bool>)
      requires Valid()
      reads bitmap.bitmap
      ensures |taken| == bitmap.numBits
    {
      bitmap.Contents()
    }

    constructor (numPages: nat)
      ensures Valid() && fresh(bitmap) && fresh(bitmap.bitmap) && bitmap.numBits == numPages
      ensures forall f :: 0 <= f < numPages ==> !Taken()[f]
    {
      bitmap := new Bitmap(numPages);
    }

    method GetNumFreePages() returns (n: nat)
      requires Valid()
      ensures n == CountFree(Taken())
    {
      n := bitmap.GetNumFreeBits();
    }

    method GetNumTakenPages() returns (n: nat)
      requires Valid()
      ensures n == CountTaken(Taken())
    {
      n := bitmap.GetNumTakenBits();
    }

    method GetNextFreePage() returns (r: Option<nat>)
      requires Valid()
      ensures r == FirstFree(Taken())
    {
      r := bitmap.GetFirstFreeBit();
    }

    method SetPageStatus(cursor: nat, val: bool)
      requires Valid() && cursor < bitmap.numBits
      modifies bitmap.bitmap
      ensures Taken() == old(Taken())[cursor := val]
    {
      bitmap.SetBitVal(cursor, val);
    }

    method GetPageStatus(cursor: nat) returns (v: bool)
      requires Valid() && cursor < bitmap.numBits
      ensures v == Taken()[cursor]
    {
      v := bitmap.GetBitVal(cursor);
    }
  }
}

module Replacement {
  import opened Bytes
  import opened BitmapTrackers
  import opened BufferPages

  /** The replacement algorithm: the first frame that is taken and not pinned. It keeps no history,
      so its pin and unpin notifications do nothing. */
  class DumbAlg {
    constructor () {
    }

    method GetVictim(tracker: BitmapTracker, memPool: seq<BufferPage>) returns (r: Result<nat, BufferError>)
      requires tracker.Valid() && tracker.bitmap.numBits == |memPool|
      ensures r.Ok? ==> r.value < |memPool| && tracker.Taken()[r.value] && memPool[r.value].pinCount == 0
      ensures r.Err? ==> r.error == OutOfPages
      ensures forall g :: 0 <= g < (if r.Ok? then r.value else |memPool|) ==>
                            !(tracker.Taken()[g] && memPool[g].pinCount == 0)
    {
      var cursor := 0;
      for i := 0 to |memPool|
        invariant cursor == i
        invariant forall g :: 0 <= g < i ==> !(tracker.Taken()[g] && memPool[g].pinCount == 0)
      {
        var taken := tracker.GetPageStatus(cursor);
        if taken && memPool[cursor].pinCount == 0 {
          return Ok(cursor);
        }
        cursor := cursor + 1;
      }
      return Err(OutOfPages);
    }
  }
}

module BufferManagers {
  import opened Bytes
  import opened BitmapSpec
  import opened StoreSpec
  import opened PosixDisks
  import opened PosixDiskManagers
  import opened BitmapTrackers
  import opened BufferPages
  import opened Replacement
  import PoolSpec
  import opened PoolRuns

  type Pool = PoolSpec.Pool

  /** An object of frame i: the frame or its buffer. */
  ghost predicate OfFrame(o: object, memPool: seq<BufferPage>, i: nat) {
    i < |memPool| && (o == memPool[i] || o == memPool[i].bytes)
  }

  /** Which frame each frame object and each buffer belongs to. */
  lemma AssignSlots(memPool: seq<BufferPage>) returns (slots: map<object, nat>)
    requires forall i, j :: 0 <= i < j < |memPool| ==> memPool[i] != memPool[j] && memPool[i].bytes != memPool[j].bytes
    ensures forall i :: 0 <= i < |memPool| ==>
              && memPool[i] in slots && slots[memPool[i]] == i
              && memPool[i].bytes in slots && slots[memPool[i].bytes] == i
    ensures forall o :: o in slots ==> OfFrame(o, memPool, slots[o])
  {
    slots := map[];
    for i := 0 to |memPool|
      invariant forall j :: 0 <= j < i ==>
                  && memPool[j] in slots && slots[memPool[j]] == j
                  && memPool[j].bytes in slots && slots[memPool[j].bytes] == j
      invariant forall o :: o in slots ==> OfFrame(o, memPool, slots[o])
    {
      slots := slots[memPool[i] := i][memPool[i].bytes := i];
    }
  }

  class BufferManager {
    const dm: PosixDiskManager
    const replacementAlg: DumbAlg
    const tracker: BitmapTracker
    const memPool: seq<BufferPage>
    var memPoolMap: PoolSpec.Table

    ghost var s: Pool
    ghost const slotOf: map<object, nat>

    ghost const Repr: set<object>

    /** Frames and their buffers are pairwise distinct objects of the right size: each knows its slot,
        and no buffer is the allocation bitmap. */
    ghost predicate Wired() {
      && tracker.Valid() && tracker.bitmap.numBits == |memPool|
      && dm.maxDiskByteSize < TWO_TO_32
      && tracker.bitmap.bitmap !in slotOf
      && this !in Repr && dm in Repr && dm.fs in Repr && tracker.bitmap.bitmap in Repr
      && (forall i :: 0 <= i < |memPool| ==> InSlot(memPool[i], i))
    }

    ghost predicate InSlot(page: BufferPage, i: nat) {
      && page in slotOf && slotOf[page] == i
      && page.bytes in slotOf && slotOf[page.bytes] == i
      && page.bytes.Length == dm.pageSize
      && page in Repr && page.bytes in Repr
    }

    /** The objects hold what the abstract pool says. */
    ghost predicate Matches(p: Pool)
      requires Wired()
      reads this`memPoolMap, Repr
    {
      && |p.frames| == |memPool|
      && p.taken == tracker.Taken()
      && p.table == memPoolMap
      && p.store == dm.Abs()
      && (forall i :: 0 <= i < |memPool| ==> memPool[i].Shows(p.frames[i], p.taken[i]))
    }

    ghost predicate Valid()
      reads this`s, this`memPoolMap, Repr
    {
      Wired() && Matches(s) && PoolSpec.PoolOk(s)
    }

    /** A pool of numPages frames: the buffers are allocated, nothing is cached. */
    constructor (dm: PosixDiskManager, replacementAlg: DumbAlg, tracker: BitmapTracker, memPool: seq<BufferPage>)
      requires dm.Valid() && dm.maxDiskByteSize < TWO_TO_32
      requires tracker.Valid() && tracker.bitmap.numBits == |memPool|
      requires forall f :: 0 <= f < |memPool| ==> !tracker.Taken()[f]
      requires forall i :: 0 <= i < |memPool| ==> memPool[i].bytes.Length == dm.pageSize
      requires forall i :: 0 <= i < |memPool| ==> memPool[i].bytes != tracker.bitmap.bitmap
      requires forall i, j :: 0 <= i < j < |memPool| ==> memPool[i] != memPool[j] && memPool[i].bytes != memPool[j].bytes
      ensures Valid() && this.dm == dm && this.tracker == tracker && this.memPool == memPool
      ensures s.table == map[] && s.store == dm.Abs()
      ensures forall f :: 0 <= f < |s.taken| ==> !s.taken[f]
      ensures forall o :: o in Repr ==>
                || o == dm || o == dm.fs || o == tracker.bitmap.bitmap
                || exists i :: OfFrame(o, memPool, i)
    {
      this.replacementAlg := replacementAlg;
      this.dm, this.tracker, this.memPool, this.memPoolMap := dm, tracker, memPool, map[];
      ghost var slots := AssignSlots(memPool);
      this.slotOf := slots;
      this.Repr := {dm, dm.fs, tracker.bitmap.bitmap} + slots.Keys;
      new;
      ghost var frames: seq<PoolSpec.Frame> := [];
      for i := 0 to |memPool|
        invariant |frames| == i && forall j :: 0 <= j < i ==> frames[j] == memPool[j].Value()
      {
        frames := frames + [memPool[i].Value()];
      }
      s := PoolSpec.Pool(frames, tracker.Taken(), map[], dm.Abs());
    }

    method AddPageMemPoolMap(diskId: int, diskPageCursor: int, cursor: nat)
      requires tracker.Valid() && cursor < tracker.bitmap.numBits
      modifies this`memPoolMap, tracker.bitmap.bitmap
      ensures memPoolMap == PoolSpec.AddEntry(old(memPoolMap), Key(diskId, diskPageCursor), cursor)
      ensures tracker.Taken() == old(tracker.Taken())[cursor := true]
    {
      if diskId !in memPoolMap {
        memPoolMap := memPoolMap[diskId := map[]];
      }
      tracker.SetPageStatus(cursor, true);
      var pages: map<int, nat> := memPoolMap[diskId];
      memPoolMap := memPoolMap[diskId := pages[diskPageCursor := cursor]];
    }

    method GetPageMemPoolMap(diskId: int, diskPageCursor: int) returns (r: Result<nat, BufferError>)
      ensures match PoolSpec.Find(memPoolMap, Key(diskId, diskPageCursor))
              case Some(f) => r == Ok(f)
              case None => r == Err(if diskId in memPoolMap then CachePageNotFound else CacheDiskNotFound)
    {
      if diskId !in memPoolMap {
        return Err(CacheDiskNotFound);
      }
      if diskPageCursor !in memPoolMap[diskId] {
        return Err(CachePageNotFound);
      }
      return Ok(memPoolMap[diskId][diskPageCursor]);
    }

    /** The replacement algorithm's choice is the pool's victim. */
    method GetVictim() returns (r: Result<nat, BufferError>)
      requires Valid()
      ensures match PoolSpec.Victim(s)
              case Some(f) => r == Ok(f)
              case None => r == Err(OutOfPages)
    {
      assert forall i :: 0 <= i < |memPool| ==> memPool[i].Shows(s.frames[i], s.taken[i]);
      r := replacementAlg.GetVictim(tracker, memPool);
      PoolSpec.VictimUnique(s, match r case Ok(f) => Some(f) case Err(_) => None);
    }

    /** The write-back of an eviction; its result is ignored. */
    method WriteBack(victim: nat)
      requires Valid() && PoolSpec.Evictable(s, victim)
      modifies dm.fs
      ensures dm.Abs() == PoolSpec.Evict(s, victim).store
    {
      var page := memPool[victim];
      assert page.Shows(s.frames[victim], s.taken[victim]);
      assert PoolSpec.FrameOk(s.store, s.frames[victim]);
      if page.dirty {
        var ignored := dm.Write(page.diskId, page.diskPageCursor, page.bytes);
      }
    }

    /** The inner map is erased only when its last page goes. */
    method EraseEntry(diskId: int, diskPageCursor: int)
      requires diskId in memPoolMap
      modifies this`memPoolMap
      ensures memPoolMap == PoolSpec.RemoveEntry(old(memPoolMap), Key(diskId, diskPageCursor))
    {
      memPoolMap := memPoolMap[diskId := memPoolMap[diskId] - {diskPageCursor}];
      if |memPoolMap[diskId]| == 0 {
        memPoolMap := memPoolMap - {diskId};
      }
    }

    /** Write the victim back, clear its bit and erase its entry; no frame changes. */
    method Drop(victim: nat)
      requires Valid() && PoolSpec.Evictable(s, victim) && s.frames[victim].key.disk in s.table
      modifies this`memPoolMap, dm.fs, tracker.bitmap.bitmap
      ensures dm.Abs() == PoolSpec.Evict(s, victim).store && tracker.Taken() == s.taken[victim := false]
      ensures memPoolMap == PoolSpec.RemoveEntry(s.table, s.frames[victim].key)
    {
      var page := memPool[victim];
      assert page.Shows(s.frames[victim], s.taken[victim]);
      var diskId, diskPageCursor := page.diskId, page.diskPageCursor;
      WriteBack(victim);
      tracker.SetPageStatus(victim, false);
      EraseEntry(diskId, diskPageCursor);
    }

    method RemovePageMemPoolMap(victim: nat)
      requires Valid() && PoolSpec.Evictable(s, victim)
      modifies this, dm.fs, tracker.bitmap.bitmap
      ensures Valid() && s == PoolSpec.Evict(old(s), victim)
    {
      ghost var evicted := PoolSpec.Evicted(s, victim);
      Drop(victim);
      s := evicted;
    }

    /** The frame object that holds a cached page. */
    ghost predicate Holds(page: BufferPage, k: Key)
      requires Valid()
      reads this`s, this`memPoolMap, Repr
    {
      PoolSpec.Cached(s, k) && page == memPool[PoolSpec.Find(s.table, k).value]
    }

    /** Set the frame up and read the page into its buffer; the read must succeed. */
    method ReadInto(slot: nat, diskId: int, diskPageCursor: int)
      requires Valid() && slot < |memPool| && InRange(s.store, Key(diskId, diskPageCursor))
      modifies memPool[slot], memPool[slot].bytes, dm.fs
      ensures memPool[slot].Value() == PoolSpec.Frame(Key(diskId, diskPageCursor), 1, false, PageOf(s.store, Key(diskId, diskPageCursor)))
      ensures memPool[slot].Ready() && dm.Abs() == ReadPage(s.store, diskId, diskPageCursor).0
    {
      ReadPageKeeps(s.store, Key(diskId, diskPageCursor), Key(diskId, diskPageCursor));
      var page := memPool[slot];
      page.Init(dm.pageSize, diskId, diskPageCursor, slot, 1, false);
      var read := dm.Read(diskId, diskPageCursor, page.bytes);
      assert read.Ok?;
    }

    /** The tail of a miss: fill the frame and enter it in the map. */
    method LoadInto(slot: nat, diskId: int, diskPageCursor: int) returns (page: BufferPage)
      requires Valid() && slot < |memPool| && !s.taken[slot]
      requires InRange(s.store, Key(diskId, diskPageCursor)) && PoolSpec.Find(s.table, Key(diskId, diskPageCursor)).None?
      modifies this, memPool[slot], memPool[slot].bytes, dm.fs, tracker.bitmap.bitmap
      ensures Valid() && s == PoolSpec.Fill(old(s), slot, Key(diskId, diskPageCursor))
      ensures page == memPool[slot]
    {
      ghost var filled := PoolSpec.Filled(s, slot, Key(diskId, diskPageCursor));
      ReadInto(slot, diskId, diskPageCursor);
      AddPageMemPoolMap(diskId, diskPageCursor, slot);
      s := filled;
      return memPool[slot];
    }

    /** While it is held, the page object's buffer is the page's content. */
    lemma HeldPage(page: BufferPage, k: Key)
      requires Valid() && Holds(page, k)
      ensures page.Ready() && page.bytes[..] == View(s)[k] && page.bytes.Length == dm.pageSize
      ensures page.bytes in Repr
    {
      var f := PoolSpec.Find(s.table, k).value;
      assert InSlot(memPool[f], f) && memPool[f].Shows(s.frames[f], s.taken[f]);
    }

    /** The frame for a page that is not cached: a free one, else the victim's after its eviction. */
    method MakeRoom() returns (r: Result<nat, BufferError>)
      requires Valid()
      modifies this, dm.fs, tracker.bitmap.bitmap
      ensures Valid()
      ensures match PoolSpec.Slot(old(s))
              case Some((ready, f)) => r == Ok(f) && s == ready
              case None => r == Err(OutOfPages) && s == old(s)
    {
      var free := tracker.GetNextFreePage();
      if free.Some? {
        return Ok(free.value);
      }
      var victim := GetVictim();
      if victim.Err? {
        return Err(victim.error);
      }
      RemovePageMemPoolMap(victim.value);
      return Ok(victim.value);
    }

    /** `pin` when the page is not cached. */
    method PinMiss(diskId: int, diskPageCursor: int) returns (r: Result<BufferPage, BufferError>)
      requires Valid() && InRange(s.store, Key(diskId, diskPageCursor))
      requires PoolSpec.Find(s.table, Key(diskId, diskPageCursor)).None?
      modifies this, Repr
      ensures Valid()
      ensures match PoolSpec.Slot(old(s))
              case Some((ready, f)) => r == Ok(memPool[f]) && s == PoolSpec.Fill(ready, f, Key(diskId, diskPageCursor))
              case None => r == Err(OutOfPages) && s == old(s)
    {
      var slot := MakeRoom();
      if slot.Err? {
        return Err(slot.error);
      }
      var page := LoadInto(slot.value, diskId, diskPageCursor);
      return Ok(page);
    }

    method Pin(diskId: int, diskPageCursor: int) returns (r: Result<BufferPage, BufferError>)
      requires Valid() && InRange(s.store, Key(diskId, diskPageCursor))
      modifies this, Repr
      ensures Valid() && s == Step(old(s), OpPin(Key(diskId, diskPageCursor)))
      ensures r.Ok? == PoolSpec.PinSucceeds(old(s), Key(diskId, diskPageCursor))
      ensures if r.Ok? then Holds(r.value, Key(diskId, diskPageCursor)) else r.error == OutOfPages
    {
      ghost var k := Key(diskId, diskPageCursor);
      PoolSpec.PinFrame(s, k);
      var found := GetPageMemPoolMap(diskId, diskPageCursor);
      if found.Ok? {
        var page := memPool[found.value];
        assert page.Shows(s.frames[found.value], s.taken[found.value]);
        SetFrame(found.value, page.pinCount + 1, page.dirty);
        r := Ok(page);
      } else {
        r := PinMiss(diskId, diskPageCursor);
      }
    }

    /** Setting the pin count and the dirty flag of one frame. */
    method SetFrame(f: nat, pinCount: nat, dirty: bool)
      requires Valid() && f < |memPool| && s.taken[f]
      modifies this`s, memPool[f]
      ensures Valid()
      ensures s == old(s).(frames := old(s).frames[f := old(s).frames[f].(pins := pinCount, dirty := dirty)])
    {
      var page := memPool[f];
      assert page.Shows(s.frames[f], s.taken[f]);
      ghost var fr := s.frames[f].(pins := pinCount, dirty := dirty);
      PoolSpec.FrameFieldsKeep(s, f, fr);
      page.pinCount := pinCount;
      page.dirty := dirty;
      s := s.(frames := s.frames[f := fr]);
    }

    /** Throws, changing nothing, when the page is not cached; asserts the pin count otherwise. */
    method Unpin(diskId: int, diskPageCursor: int) returns (r: Result<(), BufferError>)
      requires Valid()
      requires PoolSpec.Cached(s, Key(diskId, diskPageCursor)) ==> PoolSpec.PinsOf(s, Key(diskId, diskPageCursor)) > 0
      modifies this`s, memPool
      ensures Valid() && s == Step(old(s), OpUnpin(Key(diskId, diskPageCursor)))
      ensures r.Ok? == PoolSpec.Cached(old(s), Key(diskId, diskPageCursor))
    {
      var found := GetPageMemPoolMap(diskId, diskPageCursor);
      if found.Err? {
        return Err(found.error);
      }
      var page := memPool[found.value];
      assert page.Shows(s.frames[found.value], s.taken[found.value]);
      SetFrame(found.value, page.pinCount - 1, page.dirty);
      return Ok(());
    }

    method SetDirty(diskId: int, diskPageCursor: int) returns (r: Result<(), BufferError>)
      requires Valid()
      modifies this`s, memPool
      ensures Valid() && s == Step(old(s), OpSetDirty(Key(diskId, diskPageCursor)))
      ensures r.Ok? == PoolSpec.Cached(old(s), Key(diskId, diskPageCursor))
    {
      var found := GetPageMemPoolMap(diskId, diskPageCursor);
      if found.Err? {
        return Err(found.error);
      }
      var page := memPool[found.value];
      assert page.Shows(s.frames[found.value], s.taken[found.value]);
      SetFrame(found.value, page.pinCount, true);
      return Ok(());
    }

    /** One turn of the flush: evict the first victim if there is one. */
    method FreeOne() returns (freed: bool)
      requires Valid()
      modifies this, dm.fs, tracker.bitmap.bitmap
      ensures Valid() && freed == PoolSpec.Victim(old(s)).Some?
      ensures s == if freed then PoolSpec.Evict(old(s), PoolSpec.Victim(old(s)).value) else old(s)
      ensures PoolSpec.FreeAvail(s) == PoolSpec.FreeAvail(old(s)) && (!freed ==> s == PoolSpec.FreeAvail(s))
      ensures freed ==> CountTaken(s.taken) < CountTaken(old(s).taken)
    {
      var victim := GetVictim();
      if victim.Err? {
        return false;
      }
      PoolSpec.FreeAvailUnfolds(s, victim.value);
      RemovePageMemPoolMap(victim.value);
      return true;
    }

    /** Evicts victims until none is left. */
    method FreeAvailPages()
      requires Valid()
      modifies this, dm.fs, tracker.bitmap.bitmap
      ensures Valid() && s == Step(old(s), OpFreeAvail)
    {
      ghost var flushed := PoolSpec.FreeAvail(s);
      var more := true;
      while more
        invariant Valid()
        invariant PoolSpec.FreeAvail(s) == flushed
        invariant !more ==> s == flushed
        decreases more, CountTaken(s.taken)
      {
        more := FreeOne();
      }
    }

    /** A client has stored through the page it holds: the abstract pool follows the buffer. */
    ghost method NoteWrite(page: BufferPage, k: Key)
      requires Wired() && PoolSpec.PoolOk(s)
      requires PoolSpec.Cached(s, k) && |s.frames| == |memPool| && page == memPool[PoolSpec.Find(s.table, k).value]
      requires Matches(PoolSpec.ClientWrite(s, k, page.bytes[..]))
      modifies this`s
      ensures Valid() && s == Step(old(s), OpWrite(k, page.bytes[..]))
    {
      var f := PoolSpec.Find(s.table, k).value;
      PoolSpec.FrameFieldsKeep(s, f, s.frames[f].(bytes := page.bytes[..]));
      s := PoolSpec.ClientWrite(s, k, page.bytes[..]);
    }

    /** The registry has changed under the pool, which caches nothing of what changed. */
    ghost method NoteRegistry()
      requires Wired() && Matches(s.(store := dm.Abs())) && PoolSpec.PoolOk(s.(store := dm.Abs()))
      modifies this`s
      ensures Valid() && s == old(s).(store := dm.Abs())
    {
      s := s.(store := dm.Abs());
    }
  }
}
