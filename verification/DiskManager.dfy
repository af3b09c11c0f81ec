/** The registry of disk_manager/src/impl/posix_disk_manager.cpp over a directory of paged files. */
module StoreSpec {
  import opened Bytes
  import opened FileSpec
  import opened FileRuns

  /** The directory is a map from full file names to bytes; the registry maps ids to full names. */
  datatype Store = Store(
    pageSize: nat, maxSize: nat,
    disks: map<int, string>, nextId: int,
    files: map<string, seq<byte>>)

  datatype Key = Key(disk: int, page: int)

  function FullName(prefix: string): string {
    prefix + ".disk"
  }

  lemma FullNameInjective(a: string, b: string)
    requires FullName(a) == FullName(b)
    ensures a == b
  {
    assert |a| == |b|;
    assert a == FullName(a)[..|a|] && b == FullName(b)[..|b|];
  }

  ghost predicate StoreOk(st: Store) {
    && 0 < st.pageSize && 0 < st.maxSize
    && (forall id :: id in st.disks ==> id < st.nextId)
    && (forall name :: name in st.files ==> FileOk(st.pageSize, st.maxSize, st.files[name]))
  }

  // ---------------------------------------------------------------- registry operations

  /** Opening the file behind an id: the id must be loaded and its file must exist. */
  function Resolve(st: Store, id: int): Result<string, DiskError> {
    if id !in st.disks || st.disks[id] !in st.files then Err(DiskNotFound) else Ok(st.disks[id])
  }

  function Load(st: Store, prefix: string): (Store, Result<int, DiskError>) {
    if FullName(prefix) !in st.files then (st, Err(DiskNotFound))
    else (st.(disks := st.disks[st.nextId := FullName(prefix)], nextId := st.nextId + 1), Ok(st.nextId))
  }

  function Create(st: Store, prefix: string): (Store, Result<int, DiskError>) {
    if FullName(prefix) in st.files then (st, Err(DiskAlreadyExists))
    else Load(st.(files := st.files[FullName(prefix) := []]), prefix)
  }

  function Unload(st: Store, id: int): (Store, Result<(), DiskError>) {
    if id !in st.disks then (st, Err(DiskNotFound))
    else (st.(disks := st.disks - {id}), Ok(()))
  }

  function Destroy(st: Store, id: int): (Store, Result<(), DiskError>) {
    match Resolve(st, id)
    case Err(e) => (st, Err(e))
    case Ok(name) => Unload(st.(files := st.files - {name}), id)
  }

  function ReadPage(st: Store, id: int, c: nat): (Store, Result<Page, DiskError>) {
    match Resolve(st, id)
    case Err(e) => (st, Err(e))
    case Ok(name) =>
      var (file, r) := ReadFile(st.pageSize, st.maxSize, st.files[name], c);
      (st.(files := st.files[name := file]), r)
  }

  function WritePage(st: Store, id: int, c: nat, data: Page): (Store, Result<(), DiskError>)
    requires |data| == st.pageSize
  {
    match Resolve(st, id)
    case Err(e) => (st, Err(e))
    case Ok(name) =>
      var (file, r) := WriteFile(st.pageSize, st.maxSize, st.files[name], c, data);
      (st.(files := st.files[name := file]), r)
  }

  /** `extend` answers the page count plus one and changes nothing: the file grows when the page is
      first read. */
  function Extend(st: Store, id: int): Result<int, DiskError>
    requires st.pageSize > 0
  {
    match Resolve(st, id)
    case Err(e) => Err(e)
    case Ok(name) =>
      if |st.files[name]| > st.maxSize then Err(DiskExceedsMaxSize)
      else Ok(PageCount(st.pageSize, st.files[name]) + 1)
  }

  /** The names and bytes of all files but one are the same. */
  ghost predicate OtherFilesKept(a: Store, b: Store, name: string) {
    forall other :: other != name ==>
      (other in b.files <==> other in a.files) && (other in a.files && other in b.files ==> b.files[other] == a.files[other])
  }

  /** All ids but one are loaded as before, for the same names. */
  ghost predicate OtherIdsKept(a: Store, b: Store, id: int) {
    forall other :: other != id ==>
      (other in b.disks <==> other in a.disks) && (other in a.disks && other in b.disks ==> b.disks[other] == a.disks[other])
  }

  /** Loading needs the file to exist; it hands out the next id and touches no file. */
  lemma LoadExactly(st: Store, prefix: string)
    ensures var (after, r) := Load(st, prefix);
            && after.files == st.files && OtherIdsKept(st, after, st.nextId)
            && if prefix + ".disk" in st.files then
                 r == Ok(st.nextId) && after.nextId == st.nextId + 1
                 && st.nextId in after.disks && after.disks[st.nextId] == prefix + ".disk"
               else r == Err(DiskNotFound) && after == st
  {
  }

  /** Creating needs the file not to exist; it adds an empty one and loads it. */
  lemma CreateExactly(st: Store, prefix: string)
    ensures var (after, r) := Create(st, prefix);
            && OtherFilesKept(st, after, prefix + ".disk") && OtherIdsKept(st, after, st.nextId)
            && if prefix + ".disk" in st.files then r == Err(DiskAlreadyExists) && after == st
               else
                 && r == Ok(st.nextId) && after.nextId == st.nextId + 1
                 && prefix + ".disk" in after.files && after.files[prefix + ".disk"] == []
                 && st.nextId in after.disks && after.disks[st.nextId] == prefix + ".disk"
  {
  }

  /** Unloading needs the id to be loaded; it forgets that id alone and touches no file. */
  lemma UnloadExactly(st: Store, id: int)
    ensures var (after, r) := Unload(st, id);
            && after.files == st.files && after.nextId == st.nextId && OtherIdsKept(st, after, id) && id !in after.disks
            && r == if id in st.disks then Ok(()) else Err(DiskNotFound)
  {
  }

  /** Destroying needs the id to be loaded and its file to exist; it removes that file and that id
      alone, and else changes nothing. */
  lemma DestroyExactly(st: Store, id: int)
    ensures var (after, r) := Destroy(st, id);
            if id in st.disks && st.disks[id] in st.files then
              && r == Ok(()) && after.nextId == st.nextId
              && OtherFilesKept(st, after, st.disks[id]) && st.disks[id] !in after.files
              && OtherIdsKept(st, after, id) && id !in after.disks
            else r == Err(DiskNotFound) && after == st
  {
  }

  // ---------------------------------------------------------------- pages through the registry

  function PageOf(st: Store, k: Key): (p: Page)
    ensures |p| == st.pageSize
  {
    match Resolve(st, k.disk)
    case Ok(name) => PageAt(st.pageSize, st.files[name], k.page)
    case Err(_) => Zeros(st.pageSize)
  }

  ghost predicate InRange(st: Store, k: Key) {
    Resolve(st, k.disk).Ok? && 0 <= k.page && Fits(st.pageSize, st.maxSize, k.page)
  }

  /** How many whole pages the file behind an id has. */
  function Pages(st: Store, id: int): nat {
    match Resolve(st, id)
    case Ok(name) => if st.pageSize == 0 then 0 else PageCount(st.pageSize, st.files[name])
    case Err(_) => 0
  }

  ghost predicate DistinctNames(st: Store) {
    forall a, b :: a in st.disks && b in st.disks && a != b ==> st.disks[a] != st.disks[b]
  }

  /** Same ids, names and files; only file contents may differ. */
  ghost predicate SameRegistry(a: Store, b: Store) {
    && a.pageSize == b.pageSize && a.maxSize == b.maxSize
    && a.disks == b.disks && a.nextId == b.nextId && a.files.Keys == b.files.Keys
  }

  lemma SameInRange(a: Store, b: Store, k: Key)
    requires SameRegistry(a, b)
    ensures InRange(b, k) == InRange(a, k)
  {
    assert forall name :: name in a.files <==> name in a.files.Keys;
    assert forall name :: name in b.files <==> name in b.files.Keys;
  }

  lemma ReadPageKeeps(st: Store, k: Key, other: Key)
    requires StoreOk(st) && InRange(st, k)
    ensures var (after, r) := ReadPage(st, k.disk, k.page);
            && StoreOk(after) && SameRegistry(st, after)
            && r == Ok(PageOf(st, k))
            && PageOf(after, other) == PageOf(st, other)
            && Pages(st, other.disk) <= Pages(after, other.disk)
            && (k.page < Pages(st, k.disk) ==> Pages(after, other.disk) == Pages(st, other.disk))
            && Pages(after, k.disk) == (if k.page < Pages(st, k.disk) then Pages(st, k.disk) else k.page + 1)
  {
    InsideIffBelowCount(st.pageSize, st.files[st.disks[k.disk]], k.page);
    AlignedSize(st.pageSize, k.page + 1);
    var name := st.disks[k.disk];
    var file := st.files[name];
    ReadFileKeeps(st.pageSize, st.maxSize, file, k.page, k.page);
    ReadFileKeeps(st.pageSize, st.maxSize, file, k.page, other.page);
    CountMonotone(st.pageSize, file, ReadFile(st.pageSize, st.maxSize, file, k.page).0);
  }

  /** When a page operation fails, and that it then changes nothing. */
  lemma PageOperationFails(st: Store, id: int, c: nat, data: Page)
    requires StoreOk(st) && |data| == st.pageSize
    ensures var read, write := ReadPage(st, id, c), WritePage(st, id, c, data);
            if id !in st.disks || st.disks[id] !in st.files then
              read == (st, Err(DiskNotFound)) && write == (st, Err(DiskNotFound))
            else if (c + 1) * st.pageSize >= st.maxSize then
              read == (st, Err(DiskExceedsMaxSize)) && write == (st, Err(DiskExceedsMaxSize))
            else read.1.Ok? && write.1.Ok?
  {
    if Resolve(st, id).Ok? {
      var name := st.disks[id];
      OperationLimits(st.pageSize, st.maxSize, st.files[name], c, data);
      assert st.files[name := st.files[name]] == st.files;
    }
  }

  /** No file has grown. */
  ghost predicate SameCounts(a: Store, b: Store) {
    forall id: int {:trigger Pages(b, id)} :: Pages(b, id) == Pages(a, id)
  }

  /** One file has grown, to this many pages. */
  ghost predicate GrewTo(a: Store, b: Store, disk: int, pages: nat) {
    && Pages(b, disk) == pages
    && forall id: int {:trigger Pages(b, id)} :: id != disk ==> Pages(b, id) == Pages(a, id)
  }

  /** A page is part of its file, which has grown exactly up to it if it did not reach that far. */
  ghost predicate Reaches(a: Store, b: Store, k: Key)
    requires 0 <= k.page
  {
    if k.page < Pages(a, k.disk) then SameCounts(a, b) else GrewTo(a, b, k.disk, k.page + 1)
  }

  /** A read grows the file it reads from, exactly as far as the page, and no other file. */
  lemma ReadPageCounts(st: Store, k: Key)
    requires StoreOk(st) && InRange(st, k) && DistinctNames(st)
    ensures Reaches(st, ReadPage(st, k.disk, k.page).0, k)
  {
    ReadPageKeeps(st, k, k);
    forall id: int | id != k.disk
      ensures Pages(ReadPage(st, k.disk, k.page).0, id) == Pages(st, id)
    {
    }
  }

  /** A page inside its file is in range. */
  lemma InsideInRange(st: Store, k: Key)
    requires StoreOk(st) && 0 <= k.page < Pages(st, k.disk)
    ensures InRange(st, k)
  {
    InsideIffBelowCount(st.pageSize, st.files[st.disks[k.disk]], k.page);
  }

  lemma CountMonotone(pageSize: nat, a: seq<byte>, b: seq<byte>)
    requires pageSize > 0 && |a| <= |b|
    ensures PageCount(pageSize, a) <= PageCount(pageSize, b)
  {
    var x, y := |a| / pageSize, |b| / pageSize;
    if y < x {
      MulMonotone(y, x, pageSize);
    }
  }

  lemma WritePageUpdates(st: Store, k: Key, data: Page, other: Key)
    requires StoreOk(st) && InRange(st, k) && |data| == st.pageSize
    ensures var (after, r) := WritePage(st, k.disk, k.page, data);
            && StoreOk(after) && SameRegistry(st, after) && r.Ok?
            && PageOf(after, k) == data
            && (DistinctNames(st) ==> PageOf(after, other) == if other == k then data else PageOf(st, other))
            && Pages(st, other.disk) <= Pages(after, other.disk)
            && (k.page < Pages(st, k.disk) ==> Pages(after, other.disk) == Pages(st, other.disk))
  {
    InsideIffBelowCount(st.pageSize, st.files[st.disks[k.disk]], k.page);
    var name := st.disks[k.disk];
    var file := st.files[name];
    WriteFileUpdates(st.pageSize, st.maxSize, file, k.page, data, k.page);
    WriteFileUpdates(st.pageSize, st.maxSize, file, k.page, data, other.page);
    CountMonotone(st.pageSize, file, WriteFile(st.pageSize, st.maxSize, file, k.page, data).0);
  }

  /** Two ids loaded for one name see each other's writes. */
  lemma AliasSeesWrites(st: Store, a: int, b: int, c: nat, data: Page)
    requires StoreOk(st) && |data| == st.pageSize
    requires a in st.disks && b in st.disks && st.disks[a] == st.disks[b]
    ensures var (after, w) := WritePage(st, a, c, data);
            var r := ReadPage(after, b, c).1;
            (w.Ok? ==> r == Ok(data)) && (w.Err? ==> r == Err(w.error))
  {
    if InRange(st, Key(a, c)) {
      WritePageUpdates(st, Key(a, c), data, Key(a, c));
      ReadPageKeeps(WritePage(st, a, c, data).0, Key(b, c), Key(b, c));
    }
  }

  /** A new disk has no page yet, and no other disk's file changes. */
  lemma CreatePageCounts(st: Store, prefix: string)
    requires StoreOk(st) && FullName(prefix) !in st.files
    requires forall id :: id in st.disks ==> st.disks[id] != FullName(prefix)
    ensures GrewTo(st, Create(st, prefix).0, st.nextId, 0)
  {
  }

  // ---------------------------------------------------------------- two ids for one name

  /** Loading a name twice gives two ids, and each reads what was written through the other. */
  lemma LoadedTwiceIsShared(st: Store, prefix: string, c: nat, data: Page)
    requires StoreOk(st) && FullName(prefix) in st.files
    requires |data| == st.pageSize && Fits(st.pageSize, st.maxSize, c)
    ensures var (one, a) := Load(st, prefix);
            var (two, b) := Load(one, prefix);
            && a.Ok? && b.Ok? && a.value != b.value
            && ReadPage(WritePage(two, a.value, c, data).0, b.value, c).1 == Ok(data)
            && ReadPage(WritePage(two, b.value, c, data).0, a.value, c).1 == Ok(data)
  {
    var two := Load(Load(st, prefix).0, prefix).0;
    var a, b := st.nextId, st.nextId + 1;
    WriteInRange(two, Key(a, c), data);
    WriteInRange(two, Key(b, c), data);
    AliasSeesWrites(two, a, b, c, data);
    AliasSeesWrites(two, b, a, c, data);
  }

  lemma WriteInRange(st: Store, k: Key, data: Page)
    requires StoreOk(st) && InRange(st, k) && |data| == st.pageSize
    ensures WritePage(st, k.disk, k.page, data).1.Ok?
  {
  }

  // ---------------------------------------------------------------- runs of the registry

  datatype StoreOp =
    | DiskCreate(prefix: string)
    | DiskLoad(prefix: string)
    | DiskUnload(id: int)
    | DiskDestroy(id: int)
    | DiskRead(id: int, c: nat)
    | DiskWrite(id: int, c: nat, data: Page)

  ghost predicate StoreOpOk(st: Store, op: StoreOp) {
    op.DiskWrite? ==> |op.data| == st.pageSize
  }

  /** The state after one operation, and the id it handed out if it did. */
  function StoreStep(st: Store, op: StoreOp): (Store, Option<int>)
    requires StoreOpOk(st, op)
  {
    match op
    case DiskCreate(prefix) => var (s, r) := Create(st, prefix); (s, if r.Ok? then Some(r.value) else None)
    case DiskLoad(prefix) => var (s, r) := Load(st, prefix); (s, if r.Ok? then Some(r.value) else None)
    case DiskUnload(id) => (Unload(st, id).0, None)
    case DiskDestroy(id) => (Destroy(st, id).0, None)
    case DiskRead(id, c) => (ReadPage(st, id, c).0, None)
    case DiskWrite(id, c, data) => (WritePage(st, id, c, data).0, None)
  }

  ghost predicate StoreOpsOk(st: Store, ops: seq<StoreOp>) {
    forall i :: 0 <= i < |ops| ==> StoreOpOk(st, ops[i])
  }

  lemma StoreStepKeeps(st: Store, op: StoreOp)
    requires StoreOk(st) && StoreOpOk(st, op)
    ensures var (after, handed) := StoreStep(st, op);
            && StoreOk(after) && after.pageSize == st.pageSize && after.maxSize == st.maxSize
            && after.nextId == (if handed.Some? then st.nextId + 1 else st.nextId)
            && (handed.Some? ==> handed.value == st.nextId && handed.value in after.disks)
            && (forall id :: id in after.disks && id < st.nextId ==> id in st.disks && after.disks[id] == st.disks[id])
  {
    match op
    case DiskCreate(prefix) => assert FileOk(st.pageSize, st.maxSize, []);
    case DiskLoad(prefix) =>
    case DiskUnload(id) =>
    case DiskDestroy(id) =>
    case DiskRead(id, c) =>
      if Resolve(st, id).Ok? {
        ReadFileKeeps(st.pageSize, st.maxSize, st.files[st.disks[id]], c, c);
      }
    case DiskWrite(id, c, data) =>
      if Resolve(st, id).Ok? {
        WriteFileUpdates(st.pageSize, st.maxSize, st.files[st.disks[id]], c, data, c);
      }
  }

  /** The operation is on the file of this name. */
  predicate Names(st: Store, op: StoreOp, name: string) {
    match op
    case DiskCreate(prefix) => FullName(prefix) == name
    case DiskLoad(_) => false
    case DiskUnload(_) => false
    case DiskDestroy(id) => id in st.disks && st.disks[id] == name
    case DiskRead(id, _) => id in st.disks && st.disks[id] == name
    case DiskWrite(id, _, _) => id in st.disks && st.disks[id] == name
  }

  predicate Drops(op: StoreOp, id: int) {
    op == DiskUnload(id) || op == DiskDestroy(id)
  }

  /** The frame of every operation: a file it is not on stays as it is, there or not, and an id stays
      loaded, for the same name, until it is itself unloaded or destroyed. */
  lemma StoreStepFrame(st: Store, op: StoreOp, name: string, id: int)
    requires StoreOk(st) && StoreOpOk(st, op)
    ensures var after := StoreStep(st, op).0;
            && (!Names(st, op, name) ==>
                  (name in after.files <==> name in st.files) && (name in st.files ==> after.files[name] == st.files[name]))
            && (id in st.disks && !Drops(op, id) ==> id in after.disks && after.disks[id] == st.disks[id])
  {
    match op
    case DiskCreate(prefix) => CreateExactly(st, prefix);
    case DiskLoad(prefix) => LoadExactly(st, prefix);
    case DiskUnload(d) => UnloadExactly(st, d);
    case DiskDestroy(d) => DestroyExactly(st, d);
    case DiskRead(_, _) =>
    case DiskWrite(_, _, _) =>
  }

  /** The state a run ends in and the ids it handed out, in order. */
  function StoreRun(st: Store, ops: seq<StoreOp>): (r: (Store, seq<int>))
    requires StoreOk(st) && StoreOpsOk(st, ops)
    ensures StoreOk(r.0) && r.0.pageSize == st.pageSize
    decreases |ops|
  {
    if ops == [] then (st, [])
    else
      StoreStepKeeps(st, ops[0]);
      var (after, handed) := StoreStep(st, ops[0]);
      var (end, ids) := StoreRun(after, ops[1..]);
      (end, if handed.Some? then [handed.value] + ids else ids)
  }

  /** A run is its operations one after the other. */
  lemma {:induction false} StoreRunSplits(st: Store, a: seq<StoreOp>, op: StoreOp)
    requires StoreOk(st) && StoreOpsOk(st, a + [op])
    ensures StoreOpsOk(st, a) && StoreOpOk(StoreRun(st, a).0, op)
    ensures var (mid, ids) := StoreRun(st, a);
            var (end, handed) := StoreStep(mid, op);
            StoreRun(st, a + [op]) == (end, if handed.Some? then ids + [handed.value] else ids)
    decreases |a|
  {
    assert StoreOpOk(st, (a + [op])[|a|]);
    assert forall i :: 0 <= i < |a| ==> (a + [op])[i] == a[i];
    if a == [] {
      StoreStepKeeps(st, op);
      assert a + [op] == [op] && [op][1..] == [];
      var (end, handed) := StoreStep(st, op);
      assert StoreRun(end, []) == (end, []);
      if handed.Some? {
        assert [handed.value] + [] == [] + [handed.value];
      }
    } else {
      StoreStepKeeps(st, a[0]);
      assert (a + [op])[0] == a[0] && (a + [op])[1..] == a[1..] + [op];
      var (next, first) := StoreStep(st, a[0]);
      StoreRunSplits(next, a[1..], op);
      var (mid, ids) := StoreRun(next, a[1..]);
      var last := StoreStep(mid, op).1;
      if first.Some? && last.Some? {
        assert [first.value] + (ids + [last.value]) == [first.value] + ids + [last.value];
      }
    }
  }

  /** Over any run the ids handed out are consecutive from the counter, so none is reused; an id from
      before the run keeps its name while it stays loaded; and an id that is not loaded never
      resolves again. */
  lemma {:induction false} IdsAreNeverReused(st: Store, ops: seq<StoreOp>)
    requires StoreOk(st) && StoreOpsOk(st, ops)
    ensures var (end, ids) := StoreRun(st, ops);
            && end.nextId == st.nextId + |ids|
            && (forall i :: 0 <= i < |ids| ==> ids[i] == st.nextId + i)
            && (forall id :: id in end.disks && id < st.nextId ==> id in st.disks && end.disks[id] == st.disks[id])
    decreases |ops|
  {
    if ops != [] {
      StoreStepKeeps(st, ops[0]);
      IdsAreNeverReused(StoreStep(st, ops[0]).0, ops[1..]);
    }
  }

  /** No operation of the run is on the file of this name. */
  ghost predicate LeavesAlone(st: Store, ops: seq<StoreOp>, name: string)
    requires StoreOk(st) && StoreOpsOk(st, ops)
    decreases |ops|
  {
    ops == [] || (!Names(st, ops[0], name) && (StoreStepKeeps(st, ops[0]); LeavesAlone(StoreStep(st, ops[0]).0, ops[1..], name)))
  }

  /** Over any run: a file that no operation is on keeps its bytes, whatever happens to the others. */
  lemma {:induction false} FileLeftAlone(st: Store, ops: seq<StoreOp>, name: string)
    requires StoreOk(st) && StoreOpsOk(st, ops) && LeavesAlone(st, ops, name)
    ensures var end := StoreRun(st, ops).0;
            (name in end.files <==> name in st.files) && (name in st.files ==> end.files[name] == st.files[name])
    decreases |ops|
  {
    if ops != [] {
      StoreStepKeeps(st, ops[0]);
      StoreStepFrame(st, ops[0], name, st.nextId);
      FileLeftAlone(StoreStep(st, ops[0]).0, ops[1..], name);
    }
  }

  /** Over any run: an id stays loaded, for the same name, unless it is itself unloaded or destroyed. */
  lemma {:induction false} LoadedUntilDropped(st: Store, ops: seq<StoreOp>, id: int)
    requires StoreOk(st) && StoreOpsOk(st, ops) && id in st.disks
    requires forall i :: 0 <= i < |ops| ==> !Drops(ops[i], id)
    ensures var end := StoreRun(st, ops).0; id in end.disks && end.disks[id] == st.disks[id]
    decreases |ops|
  {
    if ops != [] {
      assert !Drops(ops[0], id);
      StoreStepKeeps(st, ops[0]);
      StoreStepFrame(st, ops[0], "", id);
      assert forall i :: 0 <= i < |ops[1..]| ==> ops[1..][i] == ops[i + 1];
      LoadedUntilDropped(StoreStep(st, ops[0]).0, ops[1..], id);
    }
  }

  lemma UnloadedNeverResolves(st: Store, id: int, ops: seq<StoreOp>)
    requires StoreOk(st) && id < st.nextId
    requires StoreOpsOk(st, ops)
    ensures Resolve(StoreRun(Unload(st, id).0, ops).0, id) == Err(DiskNotFound)
  {
    IdsAreNeverReused(Unload(st, id).0, ops);
  }

  /** An operation that would make the file `name` exist again. */
  predicate Recreates(op: StoreOp, name: string) {
    op.DiskCreate? && FullName(op.prefix) == name
  }

  lemma {:induction false} AbsentUntilRecreated(st: Store, name: string, ops: seq<StoreOp>)
    requires StoreOk(st) && StoreOpsOk(st, ops) && name !in st.files
    requires forall i :: 0 <= i < |ops| ==> !Recreates(ops[i], name)
    ensures name !in StoreRun(st, ops).0.files
    decreases |ops|
  {
    if ops != [] {
      StoreStepKeeps(st, ops[0]);
      assert !Recreates(ops[0], name);
      assert forall i :: 0 <= i < |ops[1..]| ==> ops[1..][i] == ops[i + 1];
      AbsentUntilRecreated(StoreStep(st, ops[0]).0, name, ops[1..]);
    }
  }

  /** Destroying a disk through one id makes page operations through every other id for the same
      name answer DISK_NOT_FOUND, through any later run that does not create the file again. */
  lemma DestroyedForAllAliases(st: Store, a: int, b: int, ops: seq<StoreOp>, c: nat, data: Page)
    requires StoreOk(st) && StoreOpsOk(st, ops) && |data| == st.pageSize
    requires Resolve(st, a).Ok? && b in st.disks && st.disks[a] == st.disks[b]
    requires forall i :: 0 <= i < |ops| ==> !Recreates(ops[i], st.disks[a])
    ensures Destroy(st, a).1.Ok?
    ensures var end := StoreRun(Destroy(st, a).0, ops).0;
            && ReadPage(end, b, c).1 == Err(DiskNotFound)
            && WritePage(end, b, c, data).1 == Err(DiskNotFound)
            && Extend(end, b) == Err(DiskNotFound)
  {
    var gone := Destroy(st, a).0;
    AbsentUntilRecreated(gone, st.disks[a], ops);
    IdsAreNeverReused(gone, ops);
  }

  /** Creating the file again revives the other id, on a file of zeros. */
  lemma RecreatedReadsZeros(st: Store, a: int, b: int, prefix: string, c: nat)
    requires StoreOk(st) && Resolve(st, a).Ok? && st.disks[a] == FullName(prefix) && a != b
    requires b in st.disks && st.disks[b] == st.disks[a] && Fits(st.pageSize, st.maxSize, c)
    ensures ReadPage(Create(Destroy(st, a).0, prefix).0, b, c).1 == Ok(Zeros(st.pageSize))
  {
    var revived := Create(Destroy(st, a).0, prefix).0;
    assert FileOk(st.pageSize, st.maxSize, []);
    assert revived.files[FullName(prefix)] == [];
    ReadPageKeeps(revived, Key(b, c), Key(b, c));
    NewFileIsZeros(st.pageSize, c);
  }
}
