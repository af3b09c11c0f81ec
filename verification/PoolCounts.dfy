/** Counting frames: map entries against allocation bits, pins against frames, and pages against the
    file, which is where `extend` gets a fresh cursor from. */
module PoolCounts {
  import opened Bytes
  import opened BitmapSpec
  import opened FileSpec
  import opened FileRuns
  import opened StoreSpec
  import opened PoolSpec
  import opened PoolRuns

  // ---------------------------------------------------------------- entries and bits

  ghost function Entries(t: Table): set<Key> {
    set d, p | d in t && p in t[d] :: Key(d, p)
  }

  lemma EntriesAreFound(t: Table, k: Key)
    ensures k in Entries(t) <==> Find(t, k).Some?
  {
    assert k == Key(k.disk, k.page);
  }

  /** The keys of the chosen frames. */
  ghost function KeysOf(s: Pool, chosen: seq<bool>): set<Key>
    requires |chosen| <= |s.frames|
  {
    set f | 0 <= f < |chosen| && chosen[f] :: s.frames[f].key
  }

  /** One key a frame: as many keys as frames chosen, whichever taken frames these are. */
  lemma {:induction false} KeysOfCount(s: Pool, chosen: seq<bool>)
    requires TableOk(s) && |chosen| <= |s.frames|
    requires forall f :: 0 <= f < |chosen| && chosen[f] ==> s.taken[f]
    ensures |KeysOf(s, chosen)| == CountTaken(chosen)
  {
    if chosen != [] {
      var n := |chosen| - 1;
      KeysOfCount(s, chosen[..n]);
      KeysOfOneMore(s, chosen, n);
    }
  }

  lemma KeysOfOneMore(s: Pool, chosen: seq<bool>, n: nat)
    requires TableOk(s) && n < |chosen| == n + 1 <= |s.frames|
    requires forall f :: 0 <= f < |chosen| && chosen[f] ==> s.taken[f]
    ensures KeysOf(s, chosen) == KeysOf(s, chosen[..n]) + if chosen[n] then {s.frames[n].key} else {}
    ensures chosen[n] ==> s.frames[n].key !in KeysOf(s, chosen[..n])
  {
    assert forall f :: 0 <= f < n ==> chosen[..n][f] == chosen[f];
    if chosen[n] {
      assert Find(s.table, s.frames[n].key) == Some(n);
    }
  }

  /** The two-level map has as many entries as the bitmap has bits set. */
  lemma EntriesEqualTakenBits(s: Pool)
    requires TableOk(s)
    ensures |Entries(s.table)| == CountTaken(s.taken)
  {
    forall k: Key
      ensures k in Entries(s.table) <==> k in KeysOf(s, s.taken)
    {
      EntriesAreFound(s.table, k);
    }
    assert Entries(s.table) == KeysOf(s, s.taken);
    KeysOfCount(s, s.taken);
  }

  /** The structure of the pool at the end of every run, by clients of any kind: one key a frame, every
      key its frame's own, a bit set exactly where a key leads, no empty inner map, and as many entries
      as bits set. */
  lemma RunKeepsStructure(s: Pool, ops: seq<Op>)
    requires PoolOk(s) && OpsOk(s.store, ops)
    ensures var e := PoolRun(s, ops);
            && |e.frames| == |e.taken|
            && (forall a: Key, b: Key :: Find(e.table, a).Some? && Find(e.table, a) == Find(e.table, b) ==> a == b)
            && (forall f :: 0 <= f < |e.frames| ==> (e.taken[f] <==> Find(e.table, e.frames[f].key) == Some(f)))
            && (forall k: Key :: Cached(e, k) ==> FrameFor(e, k).key == k)
            && NoEmptyInner(e.table)
            && |Entries(e.table)| == CountTaken(e.taken)
  {
    EntriesEqualTakenBits(PoolRun(s, ops));
  }

  // ---------------------------------------------------------------- when pin fails

  /** `pin` throws OUT_OF_PAGES exactly when the page is not cached and every frame is taken and
      pinned, and then changes nothing; otherwise exactly that page gains one pin. */
  lemma PinFailsIffAllPinned(s: Pool, k: Key)
    requires PoolOk(s) && InRange(s.store, k)
    ensures !PinSucceeds(s, k) <==>
            !Cached(s, k) && forall f :: 0 <= f < |s.frames| ==> s.taken[f] && s.frames[f].pins > 0
    ensures !PinSucceeds(s, k) ==> Pin(s, k) == s
    ensures PinSucceeds(s, k) ==>
              forall other: Key :: PinsOf(Pin(s, k), other) == PinsOf(s, other) + if other == k then 1 else 0
  {
    if !PinSucceeds(s, k) {
      forall f | 0 <= f < |s.frames|
        ensures s.taken[f] && s.frames[f].pins > 0
      {
        assert !Evictable(s, f);
      }
    } else {
      PinAddsOne(s, k);
    }
  }

  lemma PinAddsOne(s: Pool, k: Key)
    requires PoolOk(s) && InRange(s.store, k) && PinSucceeds(s, k)
    ensures forall other: Key :: PinsOf(Pin(s, k), other) == PinsOf(s, other) + if other == k then 1 else 0
  {
    match Find(s.table, k)
    case Some(f) => assert forall other: Key :: other != k ==> Find(s.table, other) != Some(f);
    case None =>
      match FirstFree(s.taken)
      case Some(f) => FillPins(s, f, k);
      case None =>
        match Victim(s)
        case Some(f) =>
          EvictKeeps(s, f);
          EvictPins(s, f);
          FillPins(Evict(s, f), f, k);
  }

  /** Evicting an unpinned page changes no pin count. */
  lemma EvictPins(s: Pool, f: nat)
    requires PoolOk(s) && Evictable(s, f)
    ensures forall k: Key :: PinsOf(Evict(s, f), k) == PinsOf(s, k)
  {
    EvictKeeps(s, f);
    assert Find(s.table, s.frames[f].key) == Some(f);
  }

  lemma FillPins(s: Pool, f: nat, k: Key)
    requires PoolOk(s) && f < |s.frames| && !s.taken[f] && InRange(s.store, k) && Find(s.table, k).None?
    ensures forall other: Key :: PinsOf(Fill(s, f, k), other) == PinsOf(s, other) + if other == k then 1 else 0
  {
    FillKeeps(s, f, k);
    FillPages(s, f, k);
  }

  /** Which frames hold a pinned page. */
  function HeldFrames(s: Pool): (held: seq<bool>)
    requires |s.frames| == |s.taken|
    ensures |held| == |s.frames|
    ensures forall f :: 0 <= f < |held| ==> held[f] == (s.taken[f] && s.frames[f].pins > 0)
  {
    seq(|s.frames|, f requires 0 <= f < |s.frames| => s.taken[f] && s.frames[f].pins > 0)
  }

  /** Each page held occupies one frame, so the ledger counts the frames that cannot be reused. */
  lemma HeldFramesAreHeldPages(s: Pool, l: Ledger)
    requires Linked(s, l)
    ensures CountTaken(HeldFrames(s)) == |l.pins|
  {
    forall k: Key
      ensures k in KeysOf(s, HeldFrames(s)) <==> k in l.pins.Keys
    {
      assert KeyLinked(s, l, k);
    }
    assert KeysOf(s, HeldFrames(s)) == l.pins.Keys;
    KeysOfCount(s, HeldFrames(s));
  }

  /** A client that counts its own pins knows when `pin` succeeds. */
  lemma PinSucceedsIffFrameSpare(s: Pool, l: Ledger, k: Key)
    requires Linked(s, l)
    ensures PinSucceeds(s, k) <==> Cached(s, k) || |l.pins| < |s.frames|
  {
    var held := HeldFrames(s);
    HeldFramesAreHeldPages(s, l);
    FreePlusTaken(held);
    FirstFreeNoneIffFull(held);
    if !PinSucceeds(s, k) {
      forall f | 0 <= f < |held|
        ensures held[f]
      {
        assert !Evictable(s, f);
      }
      assert FirstFree(held).None?;
    } else if !Cached(s, k) {
      var f := if FirstFree(s.taken).Some? then FirstFree(s.taken).value else Victim(s).value;
      assert !held[f];
    }
  }

  // ---------------------------------------------------------------- fresh pages

  /** Cached pages are inside their files, so a write-back never grows one. */
  lemma EvictKeepsPageCounts(s: Pool, f: nat)
    requires PoolOk(s) && Evictable(s, f)
    ensures SameCounts(s.store, Evict(s, f).store)
  {
    assert FrameOk(s.store, s.frames[f]);
    forall id: int
      ensures Pages(Evict(s, f).store, id) == Pages(s.store, id)
    {
      WritePageUpdates(s.store, s.frames[f].key, s.frames[f].bytes, Key(id, 0));
    }
  }

  lemma {:induction false} FreeAvailKeepsPageCounts(s: Pool)
    requires PoolOk(s)
    ensures SameCounts(s.store, FreeAvail(s).store)
    decreases CountTaken(s.taken)
  {
    if Victim(s).Some? {
      var f := Victim(s).value;
      EvictKeepsPageCounts(s, f);
      EvictKeeps(s, f);
      EvictFreesOne(s, f);
      FreeAvailKeepsPageCounts(Evict(s, f));
    }
  }

  /** A pin that succeeds makes its page part of the file, and grows no other file. */
  lemma PinPageCounts(s: Pool, k: Key)
    requires PoolOk(s) && DistinctNames(s.store) && InRange(s.store, k)
    ensures if PinSucceeds(s, k) then Reaches(s.store, Pin(s, k).store, k) else SameCounts(s.store, Pin(s, k).store)
  {
    match Find(s.table, k)
    case Some(f) => assert FrameOk(s.store, FrameFor(s, k));
    case None =>
      match FirstFree(s.taken)
      case Some(f) => ReadPageCounts(s.store, k);
      case None =>
        match Victim(s)
        case None =>
        case Some(f) =>
          EvictKeeps(s, f);
          EvictKeepsPageCounts(s, f);
          ReadPageCounts(Evict(s, f).store, k);
  }

  lemma StepPageCounts(s: Pool, op: Op)
    requires PoolOk(s) && DistinctNames(s.store) && OpOk(s.store, op)
    ensures if op.OpPin? && PinSucceeds(s, op.k) then Reaches(s.store, Step(s, op).store, op.k)
            else SameCounts(s.store, Step(s, op).store)
  {
    match op
    case OpPin(k) => PinPageCounts(s, k);
    case OpFreeAvail => FreeAvailKeepsPageCounts(s);
    case _ =>
  }

  /** No operation shrinks a file, even one that several ids name. */
  lemma StepPagesGrow(s: Pool, op: Op, id: int)
    requires PoolOk(s) && OpOk(s.store, op)
    ensures Pages(s.store, id) <= Pages(Step(s, op).store, id)
  {
    match op
    case OpPin(k) => PinPagesGrow(s, k, id);
    case OpFreeAvail => FreeAvailKeepsPageCounts(s);
    case _ =>
  }

  lemma PinPagesGrow(s: Pool, k: Key, id: int)
    requires PoolOk(s) && InRange(s.store, k)
    ensures Pages(s.store, id) <= Pages(Pin(s, k).store, id)
  {
    if Find(s.table, k).None? {
      match FirstFree(s.taken)
      case Some(f) => ReadPageKeeps(s.store, k, Key(id, 0));
      case None =>
        match Victim(s)
        case None =>
        case Some(f) =>
          EvictKeeps(s, f);
          EvictKeepsPageCounts(s, f);
          ReadPageKeeps(Evict(s, f).store, k, Key(id, 0));
    }
  }

  /** Over every run, by clients of any kind, no file ever shrinks. */
  lemma {:induction false} RunPagesMonotone(s: Pool, ops: seq<Op>, id: int)
    requires PoolOk(s) && OpsOk(s.store, ops)
    ensures Pages(s.store, id) <= Pages(PoolRun(s, ops).store, id)
    decreases |ops|
  {
    if ops != [] {
      StepPagesGrow(s, ops[0], id);
      RestOk(s, ops);
      RunPagesMonotone(Step(s, ops[0]), ops[1..], id);
    }
  }

  /** The cursor `extend` answers is past the root, past every page of the file and past every cached
      page, although the file has not grown; and that page logically holds zeros. */
  lemma ExtendIsFresh(s: Pool, id: int)
    requires PoolOk(s) && Resolve(s.store, id).Ok?
    ensures Extend(s.store, id).Ok?
    ensures var c := Extend(s.store, id).value;
            && c == Pages(s.store, id) + 1 && c > 0
            && (forall k: Key :: Cached(s, k) && k.disk == id ==> k.page < c)
            && Logical(s, Key(id, c)) == Zeros(s.store.pageSize)
  {
    var name := s.store.disks[id];
    var file := s.store.files[name];
    assert FileOk(s.store.pageSize, s.store.maxSize, file);
    var c := PageCount(s.store.pageSize, file) + 1;
    forall k: Key | Cached(s, k) && k.disk == id
      ensures k.page < c
    {
      assert FrameOk(s.store, FrameFor(s, k));
    }
    InsideIffBelowCount(s.store.pageSize, file, c);
  }

  /** `extend` checks less than the pin that follows: the page it answers can be read exactly when the
      file stays below the maximum with two more pages. */
  lemma ExtendedPageFitsIff(st: Store, id: int)
    requires StoreOk(st) && Resolve(st, id).Ok?
    ensures Extend(st, id).Ok?
    ensures InRange(st, Key(id, Extend(st, id).value))
            <==> |st.files[st.disks[id]]| + 2 * st.pageSize < st.maxSize
  {
    var file := st.files[st.disks[id]];
    assert FileOk(st.pageSize, st.maxSize, file);
    var n := PageCount(st.pageSize, file);
    assert |file| == n * st.pageSize;
    PagesDisjoint(st.pageSize, n, n + 1);
    PagesDisjoint(st.pageSize, n + 1, n + 2);
  }

  /** Pinning the new page puts it inside the file, so however the run goes on, a later `extend` on
      the same disk answers a strictly larger cursor. */
  lemma ExtendThenPinIncreases(s: Pool, id: int, ops: seq<Op>)
    requires PoolOk(s) && Extend(s.store, id).Ok?
    requires OpsOk(s.store, ops) && ops != []
    requires ops[0] == OpPin(Key(id, Extend(s.store, id).value)) && Succeeds(s, ops[0])
    ensures var end := PoolRun(s, ops);
            && Extend(end.store, id).Ok?
            && Extend(end.store, id).value > Extend(s.store, id).value
  {
    var k := ops[0].k;
    var p := Pin(s, k);
    PinKeeps(s, k);
    RestOk(s, ops);
    PinFrameKey(s, k);
    RunPagesMonotone(p, ops[1..], id);
    ExtendIsFresh(PoolRun(p, ops[1..]), id);
  }

  /** A page just pinned is inside its file. */
  lemma PinFrameKey(s: Pool, k: Key)
    requires PoolOk(s) && InRange(s.store, k) && PinSucceeds(s, k)
    ensures k.page < Pages(Pin(s, k).store, k.disk)
  {
    PinKeeps(s, k);
    assert FrameOk(Pin(s, k).store, FrameFor(Pin(s, k), k));
  }
}
