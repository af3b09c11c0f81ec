/** The layers together: what is left on disk when a table has been used through the cache. */
module Durability {
  import opened Bytes
  import opened BitmapSpec
  import opened FileRuns
  import opened StoreSpec
  import opened PoolSpec
  import opened PoolRuns
  import opened HeapLayout
  import opened HeapSpec
  import H = HeapSpec

  /** The pages the files hold, with no cache in front. */
  ghost function OnDisk(st: Store): Memory {
    imap k: Key :: PageOf(st, k)
  }

  /** The files alone hold a well-formed table with these lists and tuples. */
  ghost predicate HoldsAs(st: Store, h: Layout, ls: Lists, rows: Rows) {
    H.TableOk(h, H.Table(OnDisk(st), ls)) && TableRows(h, H.Table(OnDisk(st), ls)) == rows
  }

  lemma FlushedDisk(s: Pool, l: Ledger, disk: int)
    requires Linked(s, l) && forall c: int :: PinCount(l, Key(disk, c)) == 0
    ensures forall c: int :: PageOf(FreeAvail(s).store, Key(disk, c)) == Logical(s, Key(disk, c))
  {
    forall c: int
      ensures PageOf(FreeAvail(s).store, Key(disk, c)) == Logical(s, Key(disk, c))
    {
      assert KeyLinked(s, l, Key(disk, c));
      DroppedPagesAreOnDisk(s, l, Key(disk, c));
    }
  }

  lemma HeldOnDisk(st: Store, h: Layout, t: H.Table)
    requires H.TableOk(h, t) && forall c: int :: PageOf(st, Key(h.disk, c)) == At(h, t.mem, c)
    ensures HoldsAs(st, h, t.ls, TableRows(h, t))
  {
    assert forall c: int :: At(h, OnDisk(st), c) == PageOf(st, Key(h.disk, c));
    TableOfSamePages(h, t, OnDisk(st));
  }

  /** Once nobody holds a page of its disk, flushing the pool leaves the whole table, every tuple of
      it, in the table's file. */
  lemma FlushedTableIsOnDisk(s: Pool, l: Ledger, h: Layout, t: H.Table)
    requires Linked(s, l) && View(s) == t.mem && H.TableOk(h, t)
    requires forall c: int :: PinCount(l, Key(h.disk, c)) == 0
    ensures PoolOk(FreeAvail(s))
    ensures HoldsAs(FreeAvail(s).store, h, t.ls, TableRows(h, t))
  {
    FreeAvailKeeps(s);
    FlushedDisk(s, l, h.disk);
    HeldOnDisk(FreeAvail(s).store, h, t);
  }

  // ---------------------------------------------------------------- a disk unloaded under the pool

  /** The heap's destructor unloads its disk and leaves the pool as it is. */
  function Unloaded(s: Pool, id: int): Pool {
    s.(store := Unload(s.store, id).0)
  }

  /** The pages are cached under a dead id from then on: whatever is written back, the file stays. */
  lemma {:induction false} UnnamedFileStays(s: Pool, name: string)
    requires Shaped(s) && name in s.store.files && forall id :: id in s.store.disks ==> s.store.disks[id] != name
    ensures SameRegistry(s.store, FreeAvail(s).store)
    ensures name in FreeAvail(s).store.files && FreeAvail(s).store.files[name] == s.store.files[name]
    decreases CountTaken(s.taken)
  {
    match Victim(s)
    case None =>
    case Some(f) =>
      EvictShaped(s, f);
      EvictFreesOne(s, f);
      UnnamedFileStays(Evict(s, f), name);
  }

  /** Unload a disk under the pool, flush, and load its file again. */
  function Reloaded(s: Pool, id: int, prefix: string): (Store, Result<int, DiskError>)
    requires Shaped(Unloaded(s, id))
  {
    Load(FreeAvail(Unloaded(s, id)).store, prefix)
  }

  lemma ReloadedIsOnDisk(s: Pool, id: int, prefix: string)
    requires PoolOk(s) && DistinctNames(s.store) && Resolve(s.store, id) == Ok(FullName(prefix))
    ensures Shaped(Unloaded(s, id))
    ensures Reloaded(s, id, prefix).1 == Ok(s.store.nextId)
    ensures forall c: int :: PageOf(Reloaded(s, id, prefix).0, Key(s.store.nextId, c)) == PageOf(s.store, Key(id, c))
  {
    UnnamedFileStays(Unloaded(s, id), FullName(prefix));
  }

  /** The new id then shows everything the clients had stored iff no page of the disk was cached with
      other bytes than its file's: every write that had not reached the file by the unload is lost. */
  lemma ReloadKeepsPagesIff(s: Pool, id: int, prefix: string)
    requires PoolOk(s) && DistinctNames(s.store) && Resolve(s.store, id) == Ok(FullName(prefix))
    ensures Shaped(Unloaded(s, id)) && Reloaded(s, id, prefix).1.Ok?
    ensures var (store, r) := Reloaded(s, id, prefix);
            (forall c: int :: PageOf(store, Key(r.value, c)) == Logical(s, Key(id, c)))
            <==> forall c: int :: Cached(s, Key(id, c)) ==> FrameFor(s, Key(id, c)).bytes == PageOf(s.store, Key(id, c))
  {
    ReloadedIsOnDisk(s, id, prefix);
  }

  /** For clients that keep the rules and hold no page of the disk, only dirty pages can be lost. */
  lemma OnlyDirtyPagesAreLost(s: Pool, l: Ledger, id: int, prefix: string)
    requires Linked(s, l) && Resolve(s.store, id) == Ok(FullName(prefix))
    requires forall c: int :: PinCount(l, Key(id, c)) == 0
    ensures Shaped(Unloaded(s, id)) && Reloaded(s, id, prefix).1.Ok?
    ensures var (store, r) := Reloaded(s, id, prefix);
            (forall c: int :: PageOf(store, Key(r.value, c)) == Logical(s, Key(id, c)))
            <==> forall c: int :: Cached(s, Key(id, c)) && FrameFor(s, Key(id, c)).dirty ==>
                   FrameFor(s, Key(id, c)).bytes == PageOf(s.store, Key(id, c))
  {
    ReloadKeepsPagesIff(s, id, prefix);
    assert forall c: int :: KeyLinked(s, l, Key(id, c));
  }

  /** Flushing before the disk is unloaded loses nothing. */
  lemma FlushBeforeUnload(s: Pool, l: Ledger, id: int, prefix: string)
    requires Linked(s, l) && Resolve(s.store, id) == Ok(FullName(prefix))
    requires forall c: int :: PinCount(l, Key(id, c)) == 0
    ensures Shaped(Unloaded(FreeAvail(s), id)) && Reloaded(FreeAvail(s), id, prefix).1.Ok?
    ensures var (store, r) := Reloaded(FreeAvail(s), id, prefix);
            forall c: int :: PageOf(store, Key(r.value, c)) == Logical(s, Key(id, c))
  {
    FreeAvailKeeps(s);
    FlushedDisk(s, l, id);
    ReloadedIsOnDisk(FreeAvail(s), id, prefix);
  }
}
