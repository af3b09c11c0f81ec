/** The page cache of buffer_manager/src as a state machine on values: frames, their allocation bits,
    the two-level map and the disk behind it. */
module PoolSpec {
  import opened Bytes
  import opened BitmapSpec
  import opened StoreSpec

  datatype Frame = Frame(key: Key, pins: nat, dirty: bool, bytes: Page)

  /** Disk id, then disk page, to frame. */
  type Table = map<int, map<int, nat>>

  datatype Pool = Pool(frames: seq<Frame>, taken: seq<bool>, table: Table, store: Store)

  // ---------------------------------------------------------------- the two-level map

  function Find(t: Table, k: Key): Option<nat> {
    if k.disk in t && k.page in t[k.disk] then Some(t[k.disk][k.page]) else None
  }

  function AddEntry(t: Table, k: Key, f: nat): Table {
    var inner := if k.disk in t then t[k.disk] else map[];
    t[k.disk := inner[k.page := f]]
  }

  /** The inner map goes with its last entry. */
  function RemoveEntry(t: Table, k: Key): Table
    requires k.disk in t
  {
    var inner := t[k.disk] - {k.page};
    if |inner| == 0 then t - {k.disk} else t[k.disk := inner]
  }

  ghost predicate NoEmptyInner(t: Table) {
    forall d :: d in t ==> t[d] != map[]
  }

  lemma AddEntryFinds(t: Table, k: Key, f: nat)
    requires NoEmptyInner(t)
    ensures NoEmptyInner(AddEntry(t, k, f))
    ensures forall other: Key :: Find(AddEntry(t, k, f), other) == if other == k then Some(f) else Find(t, other)
  {
    assert k.page in AddEntry(t, k, f)[k.disk];
  }

  lemma RemoveEntryFinds(t: Table, k: Key)
    requires NoEmptyInner(t) && k.disk in t
    ensures NoEmptyInner(RemoveEntry(t, k))
    ensures forall other: Key :: Find(RemoveEntry(t, k), other) == if other == k then None else Find(t, other)
  {
    var inner := t[k.disk] - {k.page};
    forall other: Key
      ensures Find(RemoveEntry(t, k), other) == if other == k then None else Find(t, other)
    {
      if |inner| == 0 && other.disk == k.disk && other.page != k.page {
        assert other.page !in inner;
      }
    }
  }

  // ---------------------------------------------------------------- invariant

  /** The map is a bijection between its keys and the taken frames, each frame knowing its own key. */
  ghost predicate TableOk(s: Pool) {
    && |s.frames| == |s.taken|
    && (forall k: Key :: Find(s.table, k).Some? ==>
          var f := Find(s.table, k).value; f < |s.frames| && s.taken[f] && s.frames[f].key == k)
    && (forall f {:trigger Find(s.table, s.frames[f].key)} :: 0 <= f < |s.frames| && s.taken[f] ==>
          Find(s.table, s.frames[f].key) == Some(f))
    && NoEmptyInner(s.table)
  }

  /** Every cached page is a whole page inside its loaded file. */
  ghost predicate FrameOk(st: Store, fr: Frame) {
    InRange(st, fr.key) && |fr.bytes| == st.pageSize && fr.key.page < Pages(st, fr.key.disk)
  }

  /** Enough to write any frame back, even when its disk is no longer loaded. */
  ghost predicate Shaped(s: Pool) {
    && TableOk(s)
    && (forall f :: 0 <= f < |s.frames| && s.taken[f] ==>
          0 <= s.frames[f].key.page && |s.frames[f].bytes| == s.store.pageSize)
  }

  ghost predicate PoolOk(s: Pool) {
    && TableOk(s)
    && StoreOk(s.store)
    && (forall f :: 0 <= f < |s.frames| && s.taken[f] ==> FrameOk(s.store, s.frames[f]))
  }

  function Cached(s: Pool, k: Key): bool {
    Find(s.table, k).Some? && Find(s.table, k).value < |s.frames|
  }

  function FrameFor(s: Pool, k: Key): Frame
    requires Cached(s, k)
  {
    s.frames[Find(s.table, k).value]
  }

  function PinsOf(s: Pool, k: Key): nat {
    if Cached(s, k) then FrameFor(s, k).pins else 0
  }

  /** What (disk, page) logically holds: the frame if cached, else the disk. */
  function Logical(s: Pool, k: Key): Page {
    if Cached(s, k) then FrameFor(s, k).bytes else PageOf(s.store, k)
  }

  // ---------------------------------------------------------------- victim selection

  predicate Evictable(s: Pool, f: nat)
    requires |s.frames| == |s.taken|
  {
    f < |s.frames| && s.taken[f] && s.frames[f].pins == 0
  }

  predicate IsVictim(s: Pool, r: Option<nat>)
    requires |s.frames| == |s.taken|
  {
    match r
    case Some(f) => Evictable(s, f) && forall g :: 0 <= g < f ==> !Evictable(s, g)
    case None => forall g :: 0 <= g < |s.frames| ==> !Evictable(s, g)
  }

  function VictimFrom(s: Pool, i: nat): (r: Option<nat>)
    requires |s.frames| == |s.taken| && i <= |s.frames|
    requires forall g :: 0 <= g < i ==> !Evictable(s, g)
    ensures IsVictim(s, r)
    decreases |s.frames| - i
  {
    if i == |s.frames| then None else if Evictable(s, i) then Some(i) else VictimFrom(s, i + 1)
  }

  function Victim(s: Pool): (r: Option<nat>)
    requires |s.frames| == |s.taken|
    ensures IsVictim(s, r)
  {
    VictimFrom(s, 0)
  }

  lemma VictimUnique(s: Pool, r: Option<nat>)
    requires |s.frames| == |s.taken| && IsVictim(s, r)
    ensures r == Victim(s)
  {
    var v := Victim(s);
    assert r.Some? && v.Some? ==> !(r.value < v.value) && !(v.value < r.value);
  }

  // ---------------------------------------------------------------- operations

  /** `remove_page_mem_pool_map`: write back if dirty, clear the bit, drop the entry. */
  function Evict(s: Pool, f: nat): Pool
    requires Shaped(s) && Evictable(s, f)
  {
    var fr := s.frames[f];
    assert Find(s.table, fr.key) == Some(f);
    var store := if fr.dirty then WritePage(s.store, fr.key.disk, fr.key.page, fr.bytes).0 else s.store;
    Pool(s.frames, s.taken[f := false], RemoveEntry(s.table, fr.key), store)
  }

  /** The tail of `pin` on a miss: initialise the frame, read the page, set the bit, add the entry. */
  function Fill(s: Pool, f: nat, k: Key): Pool
    requires PoolOk(s) && f < |s.frames| && !s.taken[f] && InRange(s.store, k)
  {
    ReadPageKeeps(s.store, k, k);
    var (store, page) := ReadPage(s.store, k.disk, k.page);
    Pool(s.frames[f := Frame(k, 1, false, page.value)], s.taken[f := true], AddEntry(s.table, k, f), store)
  }

  /** The frame a miss will use: the first free one, else the victim after its eviction. */
  function Slot(s: Pool): (r: Option<(Pool, nat)>)
    requires PoolOk(s)
    ensures r.Some? ==> PoolOk(r.value.0) && r.value.1 < |r.value.0.frames| && !r.value.0.taken[r.value.1]
    ensures r.Some? ==> SameRegistry(s.store, r.value.0.store)
  {
    match FirstFree(s.taken)
    case Some(f) => Some((s, f))
    case None =>
      match Victim(s)
      case Some(f) => EvictKeeps(s, f); Some((Evict(s, f), f))
      case None => None
  }

  function Pin(s: Pool, k: Key): Pool
    requires PoolOk(s) && InRange(s.store, k)
  {
    match Find(s.table, k)
    case Some(f) => s.(frames := s.frames[f := s.frames[f].(pins := s.frames[f].pins + 1)])
    case None =>
      match Slot(s)
      case Some((ready, f)) => Fill(ready, f, k)
      case None => s
  }

  /** Whether `pin` returns a page; otherwise it throws OUT_OF_PAGES. */
  predicate PinSucceeds(s: Pool, k: Key)
    requires |s.frames| == |s.taken|
  {
    Cached(s, k) || FirstFree(s.taken).Some? || Victim(s).Some?
  }

  /** Throws and changes nothing when the page is not cached; the pin count must not be zero. */
  function Unpin(s: Pool, k: Key): Pool
    requires TableOk(s)
  {
    match Find(s.table, k)
    case Some(f) => s.(frames := s.frames[f := s.frames[f].(pins := if s.frames[f].pins > 0 then s.frames[f].pins - 1 else 0)])
    case None => s
  }

  function SetDirty(s: Pool, k: Key): Pool
    requires TableOk(s)
  {
    match Find(s.table, k)
    case Some(f) => s.(frames := s.frames[f := s.frames[f].(dirty := true)])
    case None => s
  }

  /** A client stores through the page reference it holds. */
  function ClientWrite(s: Pool, k: Key, bytes: Page): Pool
    requires TableOk(s)
  {
    match Find(s.table, k)
    case Some(f) => s.(frames := s.frames[f := s.frames[f].(bytes := bytes)])
    case None => s
  }

  /** `free_avail_pages`: evict until no victim is left. */
  function FreeAvail(s: Pool): Pool
    requires Shaped(s)
    decreases CountTaken(s.taken)
  {
    match Victim(s)
    case Some(f) =>
      EvictShaped(s, f);
      EvictFreesOne(s, f);
      FreeAvail(Evict(s, f))
    case None => s
  }

  // ---------------------------------------------------------------- structure is kept

  lemma EvictShaped(s: Pool, f: nat)
    requires Shaped(s) && Evictable(s, f)
    ensures Shaped(Evict(s, f)) && SameRegistry(s.store, Evict(s, f).store)
    ensures forall k: Key :: Find(Evict(s, f).table, k) == if k == s.frames[f].key then None else Find(s.table, k)
  {
    assert Find(s.table, s.frames[f].key) == Some(f);
    RemoveEntryFinds(s.table, s.frames[f].key);
  }

  lemma EvictKeeps(s: Pool, f: nat)
    requires PoolOk(s) && Evictable(s, f)
    ensures PoolOk(Evict(s, f)) && SameRegistry(s.store, Evict(s, f).store)
    ensures forall k: Key :: Find(Evict(s, f).table, k) == if k == s.frames[f].key then None else Find(s.table, k)
  {
    var fr := s.frames[f];
    var e := Evict(s, f);
    EvictShaped(s, f);
    WritePageUpdates(s.store, fr.key, fr.bytes, fr.key);
    forall g | 0 <= g < |e.frames| && e.taken[g]
      ensures FrameOk(e.store, e.frames[g])
    {
      WritePageUpdates(s.store, fr.key, fr.bytes, s.frames[g].key);
    }
  }

  lemma EvictFreesOne(s: Pool, f: nat)
    requires Shaped(s) && Evictable(s, f)
    ensures CountTaken(Evict(s, f).taken) == CountTaken(s.taken) - 1
  {
    CountFreeSet(s.taken, f, false);
    FreePlusTaken(s.taken);
    FreePlusTaken(s.taken[f := false]);
  }

  lemma FillKeeps(s: Pool, f: nat, k: Key)
    requires PoolOk(s) && f < |s.frames| && !s.taken[f] && InRange(s.store, k) && Find(s.table, k).None?
    ensures PoolOk(Fill(s, f, k)) && SameRegistry(s.store, Fill(s, f, k).store)
    ensures forall other: Key :: Find(Fill(s, f, k).table, other) == if other == k then Some(f) else Find(s.table, other)
  {
    var e := Fill(s, f, k);
    AddEntryFinds(s.table, k, f);
    ReadPageKeeps(s.store, k, k);
    forall g | 0 <= g < |e.frames| && e.taken[g]
      ensures FrameOk(e.store, e.frames[g])
    {
      ReadPageKeeps(s.store, k, s.frames[g].key);
    }
  }

  lemma FrameFieldsKeep(s: Pool, f: nat, fr: Frame)
    requires PoolOk(s) && f < |s.frames| && s.taken[f]
    requires fr.key == s.frames[f].key && |fr.bytes| == |s.frames[f].bytes|
    ensures PoolOk(s.(frames := s.frames[f := fr]))
  {
  }

  lemma PinKeeps(s: Pool, k: Key)
    requires PoolOk(s) && InRange(s.store, k)
    ensures PoolOk(Pin(s, k)) && SameRegistry(s.store, Pin(s, k).store)
    ensures Cached(Pin(s, k), k) <==> PinSucceeds(s, k)
  {
    match Find(s.table, k)
    case Some(f) => FrameFieldsKeep(s, f, s.frames[f].(pins := s.frames[f].pins + 1));
    case None =>
      match FirstFree(s.taken)
      case Some(f) => FillKeeps(s, f, k);
      case None =>
        match Victim(s)
        case None =>
        case Some(f) =>
          EvictKeeps(s, f);
          FillKeeps(Evict(s, f), f, k);
  }

  lemma FreeAvailUnfolds(s: Pool, f: nat)
    requires PoolOk(s) && Victim(s) == Some(f)
    ensures PoolOk(Evict(s, f)) && FreeAvail(s) == FreeAvail(Evict(s, f))
    ensures CountTaken(Evict(s, f).taken) < CountTaken(s.taken)
  {
    EvictKeeps(s, f);
    EvictFreesOne(s, f);
  }

  /** Where a pinned page is: its old frame on a hit, the slot on a miss. */
  lemma PinFrame(s: Pool, k: Key)
    requires PoolOk(s) && InRange(s.store, k)
    ensures PinSucceeds(s, k) == (Find(s.table, k).Some? || Slot(s).Some?)
    ensures Find(s.table, k).Some? ==> Find(Pin(s, k).table, k) == Find(s.table, k)
    ensures Find(s.table, k).None? && Slot(s).Some? ==>
              Find(Pin(s, k).table, k) == Some(Slot(s).value.1) && Slot(s).value.1 < |Pin(s, k).frames|
  {
    match FirstFree(s.taken)
    case Some(f) => AddEntryFinds(s.table, k, f);
    case None =>
      match Victim(s)
      case None =>
      case Some(f) =>
        EvictKeeps(s, f);
        AddEntryFinds(Evict(s, f).table, k, f);
  }

  lemma Evicted(s: Pool, f: nat) returns (e: Pool)
    requires PoolOk(s) && Evictable(s, f)
    ensures e == Evict(s, f) && PoolOk(e)
    ensures s.frames[f].key.disk in s.table
    ensures e.frames == s.frames && e.taken == s.taken[f := false] && e.table == RemoveEntry(s.table, s.frames[f].key)
  {
    EvictKeeps(s, f);
    assert Find(s.table, s.frames[f].key) == Some(f);
    e := Evict(s, f);
  }

  lemma Filled(s: Pool, f: nat, k: Key) returns (e: Pool)
    requires PoolOk(s) && f < |s.frames| && !s.taken[f] && InRange(s.store, k) && Find(s.table, k).None?
    ensures e == Fill(s, f, k) && PoolOk(e)
    ensures e.frames == s.frames[f := Frame(k, 1, false, PageOf(s.store, k))]
    ensures e.taken == s.taken[f := true] && e.table == AddEntry(s.table, k, f)
    ensures e.store == ReadPage(s.store, k.disk, k.page).0
  {
    FillKeeps(s, f, k);
    ReadPageKeeps(s.store, k, k);
    e := Fill(s, f, k);
  }

  // ---------------------------------------------------------------- the whole effect of each operation

  /** On a cached page: that page's frame alone changes, and in it the one field. */
  lemma HitExactly(s: Pool, k: Key, f: nat, bytes: Page)
    requires PoolOk(s) && Find(s.table, k) == Some(f)
    ensures f < |s.frames| && InRange(s.store, k)
    ensures var fr := s.frames[f];
            && Pin(s, k) == s.(frames := s.frames[f := Frame(k, fr.pins + 1, fr.dirty, fr.bytes)])
            && (fr.pins > 0 ==> Unpin(s, k) == s.(frames := s.frames[f := Frame(k, fr.pins - 1, fr.dirty, fr.bytes)]))
            && SetDirty(s, k) == s.(frames := s.frames[f := Frame(k, fr.pins, true, fr.bytes)])
            && ClientWrite(s, k, bytes) == s.(frames := s.frames[f := Frame(k, fr.pins, fr.dirty, bytes)])
  {
    assert FrameOk(s.store, s.frames[f]);
  }

  /** On a page that is not cached only `pin` does anything. */
  lemma MissUnchanged(s: Pool, k: Key, bytes: Page)
    requires PoolOk(s) && Find(s.table, k).None?
    ensures Unpin(s, k) == s && SetDirty(s, k) == s && ClientWrite(s, k, bytes) == s
  {
  }

  /** Frame f holds page k, freshly read: pinned once and clean. */
  ghost predicate Loaded(s: Pool, e: Pool, f: nat, k: Key)
    requires f < |s.frames| == |s.taken|
  {
    && e.frames == s.frames[f := Frame(k, 1, false, PageOf(s.store, k))] && e.taken == s.taken[f := true]
    && Find(e.table, k) == Some(f)
  }

  /** While a frame is free a miss takes the first free one: nothing is evicted or written back, and
      every other page stays where it is. */
  lemma MissTakesFirstFree(s: Pool, k: Key, f: nat)
    requires PoolOk(s) && InRange(s.store, k) && Find(s.table, k).None?
    requires f < |s.taken| && !s.taken[f] && forall g :: 0 <= g < f ==> s.taken[g]
    ensures Loaded(s, Pin(s, k), f, k)
    ensures forall other: Key :: other != k ==> Find(Pin(s, k).table, other) == Find(s.table, other)
    ensures forall other: Key :: PageOf(Pin(s, k).store, other) == PageOf(s.store, other)
  {
    FirstFreeUnique(s.taken, Some(f));
    FillKeeps(s, f, k);
    ReadPageKeeps(s.store, k, k);
    forall other: Key {
      ReadPageKeeps(s.store, k, other);
    }
  }

  /** With every frame taken it takes the first unpinned one: exactly the page there is forgotten, and
      written back iff it was dirty; every other page stays where it is. */
  lemma MissEvictsFirstUnpinned(s: Pool, k: Key, f: nat)
    requires PoolOk(s) && InRange(s.store, k) && Find(s.table, k).None?
    requires forall g :: 0 <= g < |s.taken| ==> s.taken[g]
    requires f < |s.frames| && s.frames[f].pins == 0 && forall g :: 0 <= g < f ==> s.frames[g].pins > 0
    ensures var e, gone := Pin(s, k), s.frames[f];
            && e.frames == s.frames[f := Frame(k, 1, false, PageOf(e.store, k))] && e.taken == s.taken
            && Find(e.table, k) == Some(f) && gone.key != k && Find(e.table, gone.key) == None
            && (forall other: Key :: other != k && other != gone.key ==> Find(e.table, other) == Find(s.table, other))
            && (DistinctNames(s.store) ==> forall other: Key ::
                  PageOf(e.store, other) == if other == gone.key && gone.dirty then gone.bytes else PageOf(s.store, other))
  {
    FirstFreeUnique(s.taken, None);
    VictimUnique(s, Some(f));
    assert Find(s.table, s.frames[f].key) == Some(f);
    var mid := Evicted(s, f);
    EvictKeeps(s, f);
    var e := Filled(mid, f, k);
    FillKeeps(mid, f, k);
    ReadPageKeeps(mid.store, k, k);
    forall other: Key | DistinctNames(s.store)
      ensures PageOf(e.store, other) == if other == s.frames[f].key && s.frames[f].dirty then s.frames[f].bytes else PageOf(s.store, other)
    {
      ReadPageKeeps(mid.store, k, other);
      WritePageUpdates(s.store, s.frames[f].key, s.frames[f].bytes, other);
    }
  }
}
