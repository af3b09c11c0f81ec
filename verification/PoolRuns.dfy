/** The page cache against plain memory: what a disciplined client sees over any run. */
module PoolRuns {
  import opened Bytes
  import opened BitmapSpec
  import opened FileRuns
  import opened StoreSpec
  import opened PoolSpec

  // ---------------------------------------------------------------- the client's side

  type pos = n: nat | 0 < n witness 1

  /** What the clients of the pool did: outstanding pins per page, and, for pages still pinned, those
      written and those marked dirty since they were first pinned. */
  datatype Ledger = Ledger(pins: Pins, wrote: set<Key>, marked: set<Key>)

  const NO_PINS: Ledger := Ledger(map[], {}, {})

  function PinCount(l: Ledger, k: Key): nat {
    if k in l.pins then l.pins[k] else 0
  }

  type Pins = map<Key, pos>

  function PinUp(pins: Pins, k: Key): Pins {
    pins[k := if k in pins then pins[k] + 1 else 1]
  }

  function PinDown(pins: Pins, k: Key): Pins {
    if k in pins && pins[k] > 1 then pins[k := pins[k] - 1] else pins - {k}
  }

  datatype Op =
    | OpPin(k: Key)
    | OpUnpin(k: Key)
    | OpSetDirty(k: Key)
    | OpWrite(k: Key, bytes: Page)
    | OpFreeAvail

  function LedgerStep(l: Ledger, op: Op, ok: bool): Ledger {
    match op
    case OpPin(k) => if ok then l.(pins := PinUp(l.pins, k)) else l
    case OpUnpin(k) =>
      if PinCount(l, k) > 1 then l.(pins := PinDown(l.pins, k))
      else Ledger(PinDown(l.pins, k), l.wrote - {k}, l.marked - {k})
    case OpSetDirty(k) => if k in l.pins then l.(marked := l.marked + {k}) else l
    case OpWrite(k, _) => l.(wrote := l.wrote + {k})
    case OpFreeAvail => l
  }

  /** The client's rules, decided from its own ledger: pin pages of loaded disks in range; write only
      pages held; unpin only pages held; and before the last unpin, mark what was written. */
  ghost predicate Allowed(st: Store, l: Ledger, op: Op) {
    match op
    case OpPin(k) => InRange(st, k)
    case OpUnpin(k) => PinCount(l, k) > 0 && (PinCount(l, k) == 1 && k in l.wrote ==> k in l.marked)
    case OpSetDirty(k) => true
    case OpWrite(k, bytes) => PinCount(l, k) > 0 && |bytes| == st.pageSize
    case OpFreeAvail => true
  }

  function Step(s: Pool, op: Op): Pool
    requires PoolOk(s) && (op.OpPin? ==> InRange(s.store, op.k))
  {
    match op
    case OpPin(k) => Pin(s, k)
    case OpUnpin(k) => Unpin(s, k)
    case OpSetDirty(k) => SetDirty(s, k)
    case OpWrite(k, bytes) => ClientWrite(s, k, bytes)
    case OpFreeAvail => FreeAvail(s)
  }

  predicate Succeeds(s: Pool, op: Op)
    requires |s.frames| == |s.taken|
  {
    op.OpPin? ==> PinSucceeds(s, op.k)
  }

  // ---------------------------------------------------------------- runs of any client

  /** All the pool asks of an operation: a pinned page lies in a loaded disk's range, and a store fills
      its page. Clients may forget dirty marks, unpin what others hold, or use two ids for one file. */
  ghost predicate OpOk(st: Store, op: Op) {
    match op
    case OpPin(k) => InRange(st, k)
    case OpWrite(_, bytes) => |bytes| == st.pageSize
    case _ => true
  }

  ghost predicate OpsOk(st: Store, ops: seq<Op>) {
    forall i :: 0 <= i < |ops| ==> OpOk(st, ops[i])
  }

  lemma StepOk(s: Pool, op: Op)
    requires PoolOk(s) && OpOk(s.store, op)
    ensures PoolOk(Step(s, op)) && SameRegistry(s.store, Step(s, op).store)
  {
    match op
    case OpPin(k) => PinKeeps(s, k);
    case OpFreeAvail => FreeAvailKeeps(s);
    case _ =>
  }

  /** A flush unmaps exactly the pages nobody has pinned and leaves every frame as it is. */
  lemma {:induction false} FreeAvailKeeps(s: Pool)
    requires PoolOk(s)
    ensures PoolOk(FreeAvail(s)) && SameRegistry(s.store, FreeAvail(s).store) && FreeAvail(s).frames == s.frames
    ensures forall k: Key :: Find(FreeAvail(s).table, k)
                             == if PinsOf(s, k) > 0 then Find(s.table, k) else None
    decreases CountTaken(s.taken)
  {
    match Victim(s)
    case None =>
      forall k: Key
        ensures Find(s.table, k) == if PinsOf(s, k) > 0 then Find(s.table, k) else None
      {
        if Find(s.table, k).Some? {
          assert !Evictable(s, Find(s.table, k).value);
        }
      }
    case Some(f) =>
      EvictKeeps(s, f);
      EvictFreesOne(s, f);
      FreeAvailKeeps(Evict(s, f));
  }

  lemma RestOk(s: Pool, ops: seq<Op>)
    requires PoolOk(s) && OpsOk(s.store, ops) && ops != []
    ensures PoolOk(Step(s, ops[0])) && OpsOk(Step(s, ops[0]).store, ops[1..])
    ensures SameRegistry(s.store, Step(s, ops[0]).store)
  {
    var e := Step(s, ops[0]);
    StepOk(s, ops[0]);
    forall i | 0 <= i < |ops[1..]|
      ensures OpOk(e.store, ops[1..][i])
    {
      assert OpOk(s.store, ops[i + 1]);
      if ops[i + 1].OpPin? {
        SameInRange(s.store, e.store, ops[i + 1].k);
      }
    }
  }

  /** The pool after a run. */
  ghost function PoolRun(s: Pool, ops: seq<Op>): (e: Pool)
    requires PoolOk(s) && OpsOk(s.store, ops)
    ensures PoolOk(e) && SameRegistry(s.store, e.store)
    decreases |ops|
  {
    if ops == [] then s
    else
      RestOk(s, ops);
      PoolRun(Step(s, ops[0]), ops[1..])
  }

  /** A run is its operations one after the other. */
  lemma {:induction false} PoolRunSplits(s: Pool, a: seq<Op>, op: Op)
    requires PoolOk(s) && OpsOk(s.store, a + [op])
    ensures OpsOk(s.store, a) && OpOk(PoolRun(s, a).store, op)
    ensures PoolRun(s, a + [op]) == Step(PoolRun(s, a), op)
    decreases |a|
  {
    assert OpOk(s.store, (a + [op])[|a|]);
    assert forall i :: 0 <= i < |a| ==> (a + [op])[i] == a[i];
    RestOk(s, a + [op]);
    if a == [] {
      assert a + [op] == [op] && [op][1..] == [];
    } else {
      assert (a + [op])[0] == a[0] && (a + [op])[1..] == a[1..] + [op];
      PoolRunSplits(Step(s, a[0]), a[1..], op);
    }
  }

  // ---------------------------------------------------------------- pin stability

  /** The page is pinned in every state of the run. */
  ghost predicate HeldThroughout(s: Pool, ops: seq<Op>, k: Key)
    requires PoolOk(s) && OpsOk(s.store, ops)
    decreases |ops|
  {
    && PinsOf(s, k) > 0
    && (ops == [] || (RestOk(s, ops); HeldThroughout(Step(s, ops[0]), ops[1..], k)))
  }

  lemma StepStable(s: Pool, op: Op, k: Key)
    requires PoolOk(s) && OpOk(s.store, op) && PinsOf(s, k) > 0
    ensures Find(Step(s, op).table, k) == Find(s.table, k)
    ensures Find(s.table, k).value < |Step(s, op).frames| == |s.frames|
    ensures var f := Find(s.table, k).value;
            Step(s, op).frames[f].bytes
            == if op.OpWrite? && op.k == k then op.bytes else s.frames[f].bytes
  {
    match op
    case OpPin(other) => PinStable(s, other, k);
    case OpUnpin(other) =>
    case OpSetDirty(other) =>
    case OpWrite(other, bytes) =>
    case OpFreeAvail => FreeAvailKeeps(s);
  }

  lemma PinStable(s: Pool, other: Key, k: Key)
    requires PoolOk(s) && InRange(s.store, other) && PinsOf(s, k) > 0
    ensures Find(Pin(s, other).table, k) == Find(s.table, k)
    ensures |Pin(s, other).frames| == |s.frames|
    ensures var f := Find(s.table, k).value; Pin(s, other).frames[f].bytes == s.frames[f].bytes
  {
    match Find(s.table, other)
    case Some(f) =>
    case None =>
      match FirstFree(s.taken)
      case Some(f) => FillKeeps(s, f, other);
      case None =>
        match Victim(s)
        case None =>
        case Some(f) =>
          EvictKeeps(s, f);
          FillKeeps(Evict(s, f), f, other);
  }

  /** From a pin to the matching unpin the page stays in its frame, and the frame's bytes are those
      its client last wrote: no pinning, evicting or freeing of other pages reaches them, whatever
      rules the clients keep. */
  lemma {:induction false} PinnedPageStays(s: Pool, ops: seq<Op>, k: Key)
    requires PoolOk(s) && OpsOk(s.store, ops) && HeldThroughout(s, ops, k)
    ensures Find(PoolRun(s, ops).table, k) == Find(s.table, k)
    ensures Cached(s, k) && Cached(PoolRun(s, ops), k)
    ensures FrameFor(PoolRun(s, ops), k).bytes == LastWritten(FrameFor(s, k).bytes, k, ops)
    decreases |ops|
  {
    if ops != [] {
      StepStable(s, ops[0], k);
      RestOk(s, ops);
      PinnedPageStays(Step(s, ops[0]), ops[1..], k);
    }
  }

  function LastWritten(bytes: Page, k: Key, ops: seq<Op>): Page
    decreases |ops|
  {
    if ops == [] then bytes
    else LastWritten(if ops[0].OpWrite? && ops[0].k == k then ops[0].bytes else bytes, k, ops[1..])
  }

  // ---------------------------------------------------------------- the reference

  /** Uncached pages: every (disk, page) holds a page, a write replaces it. */
  type Memory = m: imap<Key, Page> | HasAllPages(m) ghost witness imap k: Key :: []

  ghost predicate HasAllPages(m: imap<Key, Page>) {
    forall k: Key :: k in m
  }

  lemma PutTwice(m: Memory, k: Key, a: Page, b: Page)
    ensures m[k := a][k] == a && m[k := a][k := b] == m[k := b]
  {
  }

  lemma PutSame(m: Memory, k: Key)
    ensures m[k := m[k]] == m
  {
  }

  ghost function View(s: Pool): Memory {
    imap k: Key :: Logical(s, k)
  }

  ghost function MemoryStep(m: Memory, op: Op): Memory {
    if op.OpWrite? then m[op.k := op.bytes] else m
  }

  // ---------------------------------------------------------------- the inductive core

  /** Pool and ledger agree on the pins of a page; only a held page is being written or marked; a
      marked page is dirty; and a clean frame not being written equals its disk page. So every
      unpinned clean frame equals its disk page. */
  ghost predicate KeyLinked(s: Pool, l: Ledger, k: Key) {
    && PinsOf(s, k) == PinCount(l, k)
    && (k in l.wrote || k in l.marked ==> k in l.pins)
    && (k in l.marked ==> Cached(s, k) && FrameFor(s, k).dirty)
    && (Cached(s, k) && !FrameFor(s, k).dirty && k !in l.wrote ==> FrameFor(s, k).bytes == PageOf(s.store, k))
  }

  ghost predicate Linked(s: Pool, l: Ledger) {
    && PoolOk(s)
    && DistinctNames(s.store)
    && (forall k: Key :: KeyLinked(s, l, k))
  }

  lemma EvictPages(s: Pool, f: nat, k: Key)
    requires PoolOk(s) && DistinctNames(s.store) && Evictable(s, f)
    requires !s.frames[f].dirty ==> s.frames[f].bytes == PageOf(s.store, s.frames[f].key)
    ensures PageOf(Evict(s, f).store, k) == if k == s.frames[f].key then s.frames[f].bytes else PageOf(s.store, k)
  {
    var fr := s.frames[f];
    WritePageUpdates(s.store, fr.key, fr.bytes, k);
  }

  /** Eviction is invisible: what the frame held is on disk before the frame goes. */
  lemma EvictLinked(s: Pool, l: Ledger, f: nat)
    requires Linked(s, l) && Evictable(s, f)
    ensures PoolOk(Evict(s, f)) && Linked(Evict(s, f), l)
    ensures View(Evict(s, f)) == View(s)
  {
    EvictKeeps(s, f);
    assert KeyLinked(s, l, s.frames[f].key);
    forall k: Key
      ensures Logical(Evict(s, f), k) == Logical(s, k)
      ensures KeyLinked(Evict(s, f), l, k)
    {
      assert KeyLinked(s, l, k);
      EvictPages(s, f, k);
    }
  }

  lemma FillPages(s: Pool, f: nat, k: Key)
    requires PoolOk(s) && f < |s.frames| && !s.taken[f] && InRange(s.store, k) && Find(s.table, k).None?
    ensures Fill(s, f, k).frames == s.frames[f := Frame(k, 1, false, PageOf(s.store, k))]
    ensures forall other: Key :: PageOf(Fill(s, f, k).store, other) == PageOf(s.store, other)
  {
    forall other: Key {
      ReadPageKeeps(s.store, k, other);
    }
    ReadPageKeeps(s.store, k, k);
  }

  lemma FillLinked(s: Pool, l: Ledger, f: nat, k: Key)
    requires Linked(s, l) && f < |s.frames| && !s.taken[f] && InRange(s.store, k) && Find(s.table, k).None?
    ensures PoolOk(Fill(s, f, k)) && Linked(Fill(s, f, k), LedgerStep(l, OpPin(k), true))
    ensures View(Fill(s, f, k)) == View(s)
  {
    FillKeeps(s, f, k);
    FillPages(s, f, k);
    forall other: Key
      ensures Logical(Fill(s, f, k), other) == Logical(s, other)
      ensures KeyLinked(Fill(s, f, k), LedgerStep(l, OpPin(k), true), other)
    {
      assert KeyLinked(s, l, other);
      assert PageOf(Fill(s, f, k).store, other) == PageOf(s.store, other);
    }
  }

  // ---------------------------------------------------------------- one step

  lemma PinLinked(s: Pool, l: Ledger, k: Key)
    requires Linked(s, l) && InRange(s.store, k)
    ensures PoolOk(Pin(s, k)) && Linked(Pin(s, k), LedgerStep(l, OpPin(k), PinSucceeds(s, k)))
    ensures View(Pin(s, k)) == View(s)
    ensures SameRegistry(s.store, Pin(s, k).store)
  {
    match Find(s.table, k)
    case Some(f) => RepinLinked(s, l, k, f);
    case None =>
      match FirstFree(s.taken)
      case Some(f) =>
        FillKeeps(s, f, k);
        FillLinked(s, l, f, k);
      case None =>
        match Victim(s)
        case None =>
        case Some(f) =>
          EvictKeeps(s, f);
          EvictLinked(s, l, f);
          FillKeeps(Evict(s, f), f, k);
          FillLinked(Evict(s, f), l, f, k);
  }

  lemma RepinLinked(s: Pool, l: Ledger, k: Key, f: nat)
    requires Linked(s, l) && InRange(s.store, k) && Find(s.table, k) == Some(f)
    ensures PoolOk(Pin(s, k)) && Linked(Pin(s, k), LedgerStep(l, OpPin(k), true))
    ensures View(Pin(s, k)) == View(s)
  {
    assert KeyLinked(s, l, k);
    var fr := s.frames[f].(pins := s.frames[f].pins + 1);
    RepinKey(s, l, k, f);
    OneActElsewhere(l, OpPin(k), k);
    PutSame(View(s), k);
    OneFrameLinked(s, l, k, f, fr, LedgerStep(l, OpPin(k), true));
  }

  lemma RepinKey(s: Pool, l: Ledger, k: Key, f: nat)
    requires Linked(s, l) && InRange(s.store, k) && Find(s.table, k) == Some(f)
    ensures var e := s.(frames := s.frames[f := s.frames[f].(pins := s.frames[f].pins + 1)]);
            Pin(s, k) == e && KeyLinked(e, LedgerStep(l, OpPin(k), true), k)
  {
    assert KeyLinked(s, l, k);
  }

  /** Changing a cached page's frame, but not its key, changes the answers for that page alone. */
  lemma OneFrameChange(s: Pool, k: Key, f: nat, fr: Frame)
    requires PoolOk(s) && Find(s.table, k) == Some(f) && fr.key == k && |fr.bytes| == s.store.pageSize
    ensures var e := s.(frames := s.frames[f := fr]);
            && PoolOk(e)
            && Cached(e, k) && FrameFor(e, k) == fr
            && (forall other: Key :: Cached(e, other) == Cached(s, other))
            && (forall other: Key :: other != k && Cached(s, other) ==> FrameFor(e, other) == FrameFor(s, other))
  {
    assert forall other: Key :: other != k ==> Find(s.table, other) != Some(f);
  }

  lemma OneFrameView(s: Pool, k: Key, f: nat, fr: Frame)
    requires PoolOk(s) && Find(s.table, k) == Some(f) && fr.key == k && |fr.bytes| == s.store.pageSize
    ensures View(s.(frames := s.frames[f := fr])) == View(s)[k := fr.bytes]
  {
    OneFrameChange(s, k, f, fr);
  }

  /** Two ledgers differ in what they say of one page at most. */
  ghost predicate SameElsewhere(l: Ledger, l': Ledger, k: Key) {
    forall other: Key :: other != k ==>
      && PinCount(l', other) == PinCount(l, other) && (other in l'.pins <==> other in l.pins)
      && (other in l'.wrote <==> other in l.wrote) && (other in l'.marked <==> other in l.marked)
  }

  lemma OneActElsewhere(l: Ledger, op: Op, k: Key)
    requires op == OpPin(k) || op == OpUnpin(k) || op == OpSetDirty(k) || (op.OpWrite? && op.k == k)
    ensures SameElsewhere(l, LedgerStep(l, op, true), k)
  {
  }

  /** So only that page's part of the link needs looking at. */
  lemma OneFrameLinked(s: Pool, l: Ledger, k: Key, f: nat, fr: Frame, l': Ledger)
    requires Linked(s, l) && Find(s.table, k) == Some(f) && fr.key == k && |fr.bytes| == s.store.pageSize
    requires SameElsewhere(l, l', k)
    requires KeyLinked(s.(frames := s.frames[f := fr]), l', k)
    ensures Linked(s.(frames := s.frames[f := fr]), l')
    ensures View(s.(frames := s.frames[f := fr])) == View(s)[k := fr.bytes]
  {
    OneFrameChange(s, k, f, fr);
    OneFrameView(s, k, f, fr);
    var e := s.(frames := s.frames[f := fr]);
    forall other: Key
      ensures KeyLinked(e, l', other)
    {
      assert KeyLinked(s, l, other);
    }
  }

  lemma UnpinLinked(s: Pool, l: Ledger, k: Key)
    requires Linked(s, l) && Allowed(s.store, l, OpUnpin(k))
    ensures PoolOk(Unpin(s, k)) && Linked(Unpin(s, k), LedgerStep(l, OpUnpin(k), true))
    ensures View(Unpin(s, k)) == View(s)
  {
    assert KeyLinked(s, l, k);
    var f := Find(s.table, k).value;
    OneActElsewhere(l, OpUnpin(k), k);
    PutSame(View(s), k);
    OneFrameLinked(s, l, k, f, s.frames[f].(pins := s.frames[f].pins - 1), LedgerStep(l, OpUnpin(k), true));
  }

  lemma SetDirtyLinked(s: Pool, l: Ledger, k: Key)
    requires Linked(s, l)
    ensures PoolOk(SetDirty(s, k)) && Linked(SetDirty(s, k), LedgerStep(l, OpSetDirty(k), true))
    ensures View(SetDirty(s, k)) == View(s)
  {
    assert KeyLinked(s, l, k);
    OneActElsewhere(l, OpSetDirty(k), k);
    PutSame(View(s), k);
    match Find(s.table, k)
    case Some(f) => OneFrameLinked(s, l, k, f, s.frames[f].(dirty := true), LedgerStep(l, OpSetDirty(k), true));
    case None =>
  }

  lemma WriteLinked(s: Pool, l: Ledger, k: Key, bytes: Page)
    requires Linked(s, l) && Allowed(s.store, l, OpWrite(k, bytes))
    ensures PoolOk(ClientWrite(s, k, bytes)) && Linked(ClientWrite(s, k, bytes), LedgerStep(l, OpWrite(k, bytes), true))
    ensures View(ClientWrite(s, k, bytes)) == View(s)[k := bytes]
  {
    assert KeyLinked(s, l, k);
    var f := Find(s.table, k).value;
    OneActElsewhere(l, OpWrite(k, bytes), k);
    OneFrameLinked(s, l, k, f, s.frames[f].(bytes := bytes), LedgerStep(l, OpWrite(k, bytes), true));
  }

  // ---------------------------------------------------------------- free_avail_pages

  /** Leaves cached exactly the pages that were pinned, in their frames, unchanged; every page keeps
      its content; and a page that was dropped has it on disk. */
  lemma {:induction false} FreeAvailLinked(s: Pool, l: Ledger)
    requires Linked(s, l)
    ensures PoolOk(FreeAvail(s)) && Linked(FreeAvail(s), l)
    ensures View(FreeAvail(s)) == View(s)
    ensures SameRegistry(s.store, FreeAvail(s).store) && FreeAvail(s).frames == s.frames
    ensures forall k: Key :: Find(FreeAvail(s).table, k)
                             == if PinsOf(s, k) > 0 then Find(s.table, k) else None
    decreases CountTaken(s.taken)
  {
    FreeAvailKeeps(s);
    match Victim(s)
    case None =>
    case Some(f) =>
      EvictKeeps(s, f);
      EvictFreesOne(s, f);
      EvictLinked(s, l, f);
      FreeAvailLinked(Evict(s, f), l);
  }

  lemma DroppedPagesAreOnDisk(s: Pool, l: Ledger, k: Key)
    requires Linked(s, l) && PinsOf(s, k) == 0
    ensures !Cached(FreeAvail(s), k) && PageOf(FreeAvail(s).store, k) == Logical(s, k)
  {
    FreeAvailLinked(s, l);
    assert View(FreeAvail(s))[k] == View(s)[k];
  }

  // ---------------------------------------------------------------- runs

  lemma StepLinked(s: Pool, l: Ledger, op: Op)
    requires Linked(s, l) && Allowed(s.store, l, op)
    ensures PoolOk(Step(s, op)) && Linked(Step(s, op), LedgerStep(l, op, Succeeds(s, op)))
    ensures View(Step(s, op)) == MemoryStep(View(s), op)
    ensures SameRegistry(s.store, Step(s, op).store)
  {
    match op
    case OpPin(k) => PinLinked(s, l, k);
    case OpUnpin(k) => UnpinLinked(s, l, k);
    case OpSetDirty(k) => SetDirtyLinked(s, l, k);
    case OpWrite(k, bytes) => WriteLinked(s, l, k, bytes);
    case OpFreeAvail => FreeAvailLinked(s, l);
  }

  /** The client keeps its rules all along the run, seeing which pins succeed. */
  ghost predicate Disciplined(s: Pool, l: Ledger, ops: seq<Op>)
    requires Linked(s, l)
    decreases |ops|
  {
    ops == [] ||
    (Allowed(s.store, l, ops[0]) &&
     (StepLinked(s, l, ops[0]);
      Disciplined(Step(s, ops[0]), LedgerStep(l, ops[0], Succeeds(s, ops[0])), ops[1..])))
  }

  ghost function Run(s: Pool, l: Ledger, ops: seq<Op>): (r: (Pool, Ledger))
    requires Linked(s, l) && Disciplined(s, l, ops)
    ensures Linked(r.0, r.1)
    decreases |ops|
  {
    if ops == [] then (s, l)
    else
      StepLinked(s, l, ops[0]);
      Run(Step(s, ops[0]), LedgerStep(l, ops[0], Succeeds(s, ops[0])), ops[1..])
  }

  ghost function MemoryRun(m: Memory, ops: seq<Op>): Memory
    decreases |ops|
  {
    if ops == [] then m else MemoryRun(MemoryStep(m, ops[0]), ops[1..])
  }

  /** The cache is invisible: over every disciplined run, every (disk, page) holds exactly what plain
      uncached pages would hold after the same writes. */
  lemma {:induction false} CacheRefinesMemory(s: Pool, l: Ledger, ops: seq<Op>)
    requires Linked(s, l) && Disciplined(s, l, ops)
    ensures View(Run(s, l, ops).0) == MemoryRun(View(s), ops)
    ensures SameRegistry(s.store, Run(s, l, ops).0.store)
    decreases |ops|
  {
    if ops != [] {
      StepLinked(s, l, ops[0]);
      CacheRefinesMemory(Step(s, ops[0]), LedgerStep(l, ops[0], Succeeds(s, ops[0])), ops[1..]);
    }
  }

  /** A run by the clients' rules is one of the runs of any client. */
  lemma {:induction false} DisciplinedRunIsPoolRun(s: Pool, l: Ledger, ops: seq<Op>)
    requires Linked(s, l) && Disciplined(s, l, ops)
    ensures OpsOk(s.store, ops) && PoolRun(s, ops) == Run(s, l, ops).0
    decreases |ops|
  {
    if ops != [] {
      StepLinked(s, l, ops[0]);
      var e := Step(s, ops[0]);
      DisciplinedRunIsPoolRun(e, LedgerStep(l, ops[0], Succeeds(s, ops[0])), ops[1..]);
      forall i | 0 <= i < |ops|
        ensures OpOk(s.store, ops[i])
      {
        if i > 0 {
          assert OpOk(e.store, ops[1..][i - 1]);
          if ops[i].OpPin? {
            SameInRange(s.store, e.store, ops[i].k);
          }
        }
      }
    }
  }

  /** After a disciplined run that gives every pin back, flushing leaves exactly the uncached result
      on disk, whatever was evicted on the way. */
  lemma FlushedRunIsOnDisk(s: Pool, l: Ledger, ops: seq<Op>, k: Key)
    requires Linked(s, l) && Disciplined(s, l, ops)
    requires PinCount(Run(s, l, ops).1, k) == 0
    ensures PageOf(FreeAvail(Run(s, l, ops).0).store, k) == MemoryRun(View(s), ops)[k]
  {
    var (end, led) := Run(s, l, ops);
    CacheRefinesMemory(s, l, ops);
    assert KeyLinked(end, led, k);
    DroppedPagesAreOnDisk(end, led, k);
    assert View(end)[k] == MemoryRun(View(s), ops)[k];
  }

  /** The pool as constructed, over any directory of well-formed files with distinct names loaded. */
  lemma EmptyPoolLinked(s: Pool)
    requires StoreOk(s.store) && DistinctNames(s.store)
    requires |s.frames| == |s.taken| && s.table == map[]
    requires forall f :: 0 <= f < |s.taken| ==> !s.taken[f]
    ensures Linked(s, NO_PINS)
    ensures forall k: Key :: View(s)[k] == PageOf(s.store, k)
  {
    forall k: Key
      ensures KeyLinked(s, NO_PINS, k)
    {
    }
  }

  // ---------------------------------------------------------------- the dirty mark is needed

  lemma {:induction false} FreeAvailWritesBack(s: Pool, k: Key)
    requires PoolOk(s) && DistinctNames(s.store)
    ensures PoolOk(FreeAvail(s)) && DistinctNames(FreeAvail(s).store)
    ensures PageOf(FreeAvail(s).store, k)
            == if Cached(s, k) && FrameFor(s, k).pins == 0 && FrameFor(s, k).dirty then FrameFor(s, k).bytes
               else PageOf(s.store, k)
    decreases CountTaken(s.taken)
  {
    match Victim(s)
    case None =>
      if Cached(s, k) {
        assert !Evictable(s, Find(s.table, k).value);
      }
    case Some(f) =>
      EvictKeeps(s, f);
      EvictFreesOne(s, f);
      WritePageUpdates(s.store, s.frames[f].key, s.frames[f].bytes, k);
      FreeAvailWritesBack(Evict(s, f), k);
  }

  /** What the discipline is for: flushing after the last unpin keeps the page's content if and only
      if the frame was marked dirty or the client left the disk's bytes in it. */
  lemma LastUnpinKeepsContentIff(s: Pool, k: Key)
    requires PoolOk(s) && DistinctNames(s.store) && PinsOf(s, k) == 1
    ensures PoolOk(Unpin(s, k))
    ensures PageOf(FreeAvail(Unpin(s, k)).store, k) == Logical(s, k)
            <==> FrameFor(s, k).dirty || FrameFor(s, k).bytes == PageOf(s.store, k)
  {
    var f := Find(s.table, k).value;
    OneFrameChange(s, k, f, s.frames[f].(pins := 0));
    FreeAvailWritesBack(Unpin(s, k), k);
  }

  // ---------------------------------------------------------------- a new disk under the pool

  /** Creating a disk under a name no loaded id has: the pool and its clients notice nothing, and every
      page of the new disk reads as zeros. */
  lemma CreateLinked(s: Pool, l: Ledger, prefix: string)
    requires Linked(s, l) && FullName(prefix) !in s.store.files
    requires forall id :: id in s.store.disks ==> s.store.disks[id] != FullName(prefix)
    ensures var (store, r) := Create(s.store, prefix);
            && r == Ok(s.store.nextId)
            && Linked(s.(store := store), l)
            && (forall k: Key :: k.disk == r.value ==>
                  View(s.(store := store))[k] == Zeros(s.store.pageSize) && PinCount(l, k) == 0)
            && (forall k: Key :: k.disk != r.value ==> View(s.(store := store))[k] == View(s)[k])
  {
    var e := s.(store := Create(s.store, prefix).0);
    CreateKeepsPool(s, prefix);
    forall k: Key
      ensures KeyLinked(e, l, k)
      ensures k.disk != s.store.nextId ==> Logical(e, k) == Logical(s, k)
      ensures k.disk == s.store.nextId ==> Logical(e, k) == Zeros(s.store.pageSize) && PinCount(l, k) == 0
    {
      assert KeyLinked(s, l, k);
      CreatePages(s.store, prefix, k);
      assert Cached(s, k) ==> FrameOk(s.store, FrameFor(s, k));
    }
  }

  lemma CreatePages(st: Store, prefix: string, k: Key)
    requires StoreOk(st) && FullName(prefix) !in st.files
    requires forall id :: id in st.disks ==> st.disks[id] != FullName(prefix)
    ensures PageOf(Create(st, prefix).0, k) == PageOf(st, k)
    ensures k.disk == st.nextId ==> PageOf(st, k) == Zeros(st.pageSize)
  {
    NewFileIsZeros(st.pageSize, k.page);
  }

  lemma CreateKeepsPool(s: Pool, prefix: string)
    requires PoolOk(s) && FullName(prefix) !in s.store.files && DistinctNames(s.store)
    requires forall id :: id in s.store.disks ==> s.store.disks[id] != FullName(prefix)
    ensures PoolOk(s.(store := Create(s.store, prefix).0)) && DistinctNames(Create(s.store, prefix).0)
  {
    var store := Create(s.store, prefix).0;
    assert FileOk(s.store.pageSize, s.store.maxSize, []);
    forall f | 0 <= f < |s.frames| && s.taken[f]
      ensures FrameOk(store, s.frames[f])
    {
      assert FrameOk(s.store, s.frames[f]);
    }
  }
}
