/** The paged disk file of disk_manager/src/impl/posix_disk.cpp as numbered pages over one flat
    byte sequence that grows with zeros on demand. */
module FileSpec {
  import opened Bytes

  // ---------------------------------------------------------------- page arithmetic

  lemma PagesDisjoint(pageSize: nat, a: nat, b: nat)
    requires a < b
    ensures (a + 1) * pageSize <= b * pageSize
    ensures a * pageSize + pageSize == (a + 1) * pageSize
  {
  }

  ghost predicate Aligned(pageSize: nat, file: seq<byte>)
    requires pageSize > 0
  {
    |file| % pageSize == 0
  }

  lemma AlignedSize(pageSize: nat, c: nat)
    requires pageSize > 0
    ensures (c * pageSize) % pageSize == 0
    ensures (c * pageSize) / pageSize == c
  {
    DivModUnique(c * pageSize, pageSize, c, 0);
  }

  function PageCount(pageSize: nat, file: seq<byte>): nat
    requires pageSize > 0
  {
    |file| / pageSize
  }

  /** In an aligned file a page is inside exactly when its number is below the page count. */
  lemma InsideIffBelowCount(pageSize: nat, file: seq<byte>, c: nat)
    requires pageSize > 0 && Aligned(pageSize, file)
    ensures (c + 1) * pageSize <= |file| <==> c < PageCount(pageSize, file)
  {
    var n := PageCount(pageSize, file);
    assert |file| == n * pageSize;
    if c < n {
      PagesDisjoint(pageSize, c, n);
    } else {
      PagesDisjoint(pageSize, n, c + 1);
    }
  }

  // ---------------------------------------------------------------- pages of a file

  /** The bytes a read of page c yields: those stored, or zeros past the end of the file. */
  function PageAt(pageSize: nat, file: seq<byte>, c: int): (p: Page)
    ensures |p| == pageSize
  {
    if 0 <= c && (c + 1) * pageSize <= |file| then
      PagesDisjoint(pageSize, c, c + 1);
      file[c * pageSize..(c + 1) * pageSize]
    else Zeros(pageSize)
  }

  /** `truncate` to a larger size: the file is extended with zeros. */
  function Grow(file: seq<byte>, size: nat): (r: seq<byte>)
    ensures |r| == if |file| < size then size else |file|
  {
    if |file| < size then file + Zeros(size - |file|) else file
  }

  /** `truncate` to any size. */
  function Resize(file: seq<byte>, size: nat): (r: seq<byte>)
    ensures |r| == size
  {
    if size < |file| then file[..size] else Grow(file, size)
  }

  /** Resizing keeps the bytes that stay inside and adds zeros. */
  lemma ResizeBytes(file: seq<byte>, size: nat, i: nat)
    requires i < size
    ensures Resize(file, size)[i] == if i < |file| then file[i] else 0
    ensures |file| <= size ==> Resize(file, size) == Grow(file, size)
  {
  }

  function PagesFrom(pageSize: nat, file: seq<byte>, n: nat): (pages: seq<Page>)
    ensures |pages| == n && forall c :: 0 <= c < n ==> pages[c] == PageAt(pageSize, file, c)
  {
    seq(n, c => PageAt(pageSize, file, c))
  }

  /** An aligned file is its pages in order, one after the other. */
  lemma FileIsItsPages(pageSize: nat, file: seq<byte>)
    requires pageSize > 0 && Aligned(pageSize, file)
    ensures Concat(PagesFrom(pageSize, file, PageCount(pageSize, file))) == file
  {
    var n := PageCount(pageSize, file);
    PagesMakePrefix(pageSize, file, n);
    assert n * pageSize == |file|;
    assert file[..n * pageSize] == file;
  }

  lemma {:induction false} PagesMakePrefix(pageSize: nat, file: seq<byte>, n: nat)
    requires pageSize > 0 && Aligned(pageSize, file) && n <= PageCount(pageSize, file)
    ensures n * pageSize <= |file| && Concat(PagesFrom(pageSize, file, n)) == file[..n * pageSize]
  {
    if n > 0 {
      PagesMakePrefix(pageSize, file, n - 1);
      InsideIffBelowCount(pageSize, file, n - 1);
      PagesDisjoint(pageSize, n - 1, n);
      assert PagesFrom(pageSize, file, n)[..n - 1] == PagesFrom(pageSize, file, n - 1);
    }
  }

  function Overwrite(pageSize: nat, file: seq<byte>, c: nat, data: Page): (r: seq<byte>)
    requires |data| == pageSize
  {
    PagesDisjoint(pageSize, c, c + 1);
    Splice(Grow(file, (c + 1) * pageSize), c * pageSize, data)
  }

  /** Growing an aligned file to a page boundary changes no page. */
  lemma GrowKeepsPages(pageSize: nat, file: seq<byte>, n: nat, c: int)
    requires pageSize > 0 && Aligned(pageSize, file)
    ensures PageAt(pageSize, Grow(file, n * pageSize), c) == PageAt(pageSize, file, c)
    ensures Aligned(pageSize, Grow(file, n * pageSize))
  {
    AlignedSize(pageSize, n);
    var grown := Grow(file, n * pageSize);
    if c >= 0 {
      InsideIffBelowCount(pageSize, file, c);
      InsideIffBelowCount(pageSize, grown, c);
      var m := PageCount(pageSize, file);
      assert |file| == m * pageSize;
      if m <= c < PageCount(pageSize, grown) {
        PagesDisjoint(pageSize, c, c + 1);
        if m < c {
          PagesDisjoint(pageSize, m, c);
        }
        GrownTail(file, n * pageSize, c * pageSize, pageSize);
      }
    }
  }

  lemma GrownTail(file: seq<byte>, size: nat, lo: nat, len: nat)
    requires |file| <= lo && lo + len <= |Grow(file, size)|
    ensures Grow(file, size)[lo..lo + len] == Zeros(len)
  {
  }

  /** A page write is a map update on pages: the written page reads back, every other page keeps its
      bytes even when the file had to grow. */
  lemma OverwriteUpdatesOnePage(pageSize: nat, file: seq<byte>, c: nat, data: Page, other: int)
    requires pageSize > 0 && Aligned(pageSize, file) && |data| == pageSize
    ensures Aligned(pageSize, Overwrite(pageSize, file, c, data))
    ensures PageAt(pageSize, Overwrite(pageSize, file, c, data), other)
            == if other == c then data else PageAt(pageSize, file, other)
  {
    var grown := Grow(file, (c + 1) * pageSize);
    GrowKeepsPages(pageSize, file, c + 1, other);
    PagesDisjoint(pageSize, c, c + 1);
    if other == c {
      SpliceRead(grown, c * pageSize, data, c * pageSize, pageSize);
    } else if 0 <= other && (other + 1) * pageSize <= |grown| {
      PagesDisjoint(pageSize, other, other + 1);
      if other < c {
        PagesDisjoint(pageSize, other, c);
      } else {
        PagesDisjoint(pageSize, c, other);
      }
      SpliceRead(grown, c * pageSize, data, other * pageSize, pageSize);
    }
  }
}

/** One file under a run of page reads and writes. */
module FileRuns {
  import opened Bytes
  import opened FileSpec

  datatype DiskError = DiskAlreadyExists | DiskNotFound | DiskExceedsMaxSize | ReadDiskError | UnknownError

  /** The check of `prepare_rw`: an operation may not bring the file up to the maximum size. */
  predicate Fits(pageSize: nat, maxSize: nat, c: nat) {
    (c + 1) * pageSize < maxSize
  }

  function ReadFile(pageSize: nat, maxSize: nat, file: seq<byte>, c: nat): (seq<byte>, Result<Page, DiskError>) {
    if !Fits(pageSize, maxSize, c) then (file, Err(DiskExceedsMaxSize))
    else
      var grown := Grow(file, (c + 1) * pageSize);
      (grown, Ok(PageAt(pageSize, grown, c)))
  }

  function WriteFile(pageSize: nat, maxSize: nat, file: seq<byte>, c: nat, data: Page): (seq<byte>, Result<(), DiskError>)
    requires |data| == pageSize
  {
    if !Fits(pageSize, maxSize, c) then (file, Err(DiskExceedsMaxSize))
    else (Overwrite(pageSize, file, c, data), Ok(()))
  }

  ghost predicate FileOk(pageSize: nat, maxSize: nat, file: seq<byte>) {
    pageSize > 0 && Aligned(pageSize, file) && |file| < maxSize
  }

  lemma ReadFileKeeps(pageSize: nat, maxSize: nat, file: seq<byte>, c: nat, other: int)
    requires FileOk(pageSize, maxSize, file)
    ensures var (after, r) := ReadFile(pageSize, maxSize, file, c);
            && FileOk(pageSize, maxSize, after)
            && PageAt(pageSize, after, other) == PageAt(pageSize, file, other)
            && r == (if Fits(pageSize, maxSize, c) then Ok(PageAt(pageSize, file, c)) else Err(DiskExceedsMaxSize))
            && (r.Ok? ==> c < PageCount(pageSize, after))
  {
    if Fits(pageSize, maxSize, c) {
      GrowKeepsPages(pageSize, file, c + 1, other);
      GrowKeepsPages(pageSize, file, c + 1, c);
      InsideIffBelowCount(pageSize, Grow(file, (c + 1) * pageSize), c);
    }
  }

  lemma WriteFileUpdates(pageSize: nat, maxSize: nat, file: seq<byte>, c: nat, data: Page, other: int)
    requires FileOk(pageSize, maxSize, file) && |data| == pageSize
    ensures var (after, r) := WriteFile(pageSize, maxSize, file, c, data);
            && FileOk(pageSize, maxSize, after)
            && r == (if Fits(pageSize, maxSize, c) then Ok(()) else Err(DiskExceedsMaxSize))
            && PageAt(pageSize, after, other)
               == if r.Ok? && other == c then data else PageAt(pageSize, file, other)
  {
    if Fits(pageSize, maxSize, c) {
      OverwriteUpdatesOnePage(pageSize, file, c, data, other);
    }
  }

  /** When an operation on a page succeeds, and how long the file is then; a failure changes nothing. */
  lemma OperationLimits(pageSize: nat, maxSize: nat, file: seq<byte>, c: nat, data: Page)
    requires FileOk(pageSize, maxSize, file) && |data| == pageSize
    ensures var end := (c + 1) * pageSize;
            var read, write := ReadFile(pageSize, maxSize, file, c), WriteFile(pageSize, maxSize, file, c, data);
            && (end >= maxSize ==> read == (file, Err(DiskExceedsMaxSize)) && write == (file, Err(DiskExceedsMaxSize)))
            && (end < maxSize ==> read.1.Ok? && write.1.Ok? && |read.0| == |write.0| == if |file| < end then end else |file|)
  {
  }

  // ---------------------------------------------------------------- runs

  datatype FileOp = Read(c: nat) | Write(c: nat, data: Page)

  ghost predicate WellSized(pageSize: nat, ops: seq<FileOp>) {
    forall i :: 0 <= i < |ops| && ops[i].Write? ==> |ops[i].data| == pageSize
  }

  type Answer = Result<Page, DiskError>

  /** One operation: the file after it and what it answers (a write answers with what it stored). */
  function FileStep(pageSize: nat, maxSize: nat, file: seq<byte>, op: FileOp): (seq<byte>, Answer)
    requires op.Write? ==> |op.data| == pageSize
  {
    match op
    case Read(c) => ReadFile(pageSize, maxSize, file, c)
    case Write(c, data) =>
      var (after, r) := WriteFile(pageSize, maxSize, file, c, data);
      (after, match r case Ok(_) => Ok(data) case Err(e) => Err(e))
  }

  function RunFile(pageSize: nat, maxSize: nat, file: seq<byte>, ops: seq<FileOp>): (seq<byte>, seq<Answer>)
    requires WellSized(pageSize, ops)
    decreases |ops|
  {
    if ops == [] then (file, [])
    else
      var (after, answer) := FileStep(pageSize, maxSize, file, ops[0]);
      var (end, answers) := RunFile(pageSize, maxSize, after, ops[1..]);
      (end, [answer] + answers)
  }

  /** A run is its operations one after the other. */
  lemma {:induction false} FileRunSplits(pageSize: nat, maxSize: nat, file: seq<byte>, a: seq<FileOp>, op: FileOp)
    requires WellSized(pageSize, a + [op])
    ensures WellSized(pageSize, a) && (op.Write? ==> |op.data| == pageSize)
    ensures var (mid, answers) := RunFile(pageSize, maxSize, file, a);
            var (end, answer) := FileStep(pageSize, maxSize, mid, op);
            RunFile(pageSize, maxSize, file, a + [op]) == (end, answers + [answer])
    decreases |a|
  {
    assert (a + [op])[|a|] == op;
    assert forall i :: 0 <= i < |a| ==> (a + [op])[i] == a[i];
    if a == [] {
      assert a + [op] == [op] && [op][1..] == [];
      var (end, answer) := FileStep(pageSize, maxSize, file, op);
      assert RunFile(pageSize, maxSize, end, []) == (end, []) && [answer] + [] == [] + [answer];
    } else {
      assert (a + [op])[0] == a[0] && (a + [op])[1..] == a[1..] + [op];
      var (next, first) := FileStep(pageSize, maxSize, file, a[0]);
      FileRunSplits(pageSize, maxSize, next, a[1..], op);
      var (mid, rest) := RunFile(pageSize, maxSize, next, a[1..]);
      var last := FileStep(pageSize, maxSize, mid, op).1;
      assert [first] + (rest + [last]) == [first] + rest + [last];
    }
  }

  /** The reference: numbered pages, zeros until written, no file and no growth. */
  type PageMap = m: imap<int, Page> | HasAllNumbers(m) ghost witness imap c: int :: []

  ghost predicate HasAllNumbers(m: imap<int, Page>) {
    forall c: int :: c in m
  }

  ghost function PagesOf(pageSize: nat, file: seq<byte>): PageMap {
    imap c: int :: PageAt(pageSize, file, c)
  }

  ghost function MapStep(pageSize: nat, maxSize: nat, pages: PageMap, op: FileOp): (PageMap, Answer) {
    if !Fits(pageSize, maxSize, op.c) then (pages, Err(DiskExceedsMaxSize))
    else
      match op
      case Read(c) => (pages, Ok(pages[c]))
      case Write(c, data) => (pages[c := data], Ok(data))
  }

  ghost function RunMap(pageSize: nat, maxSize: nat, pages: PageMap, ops: seq<FileOp>): (PageMap, seq<Answer>)
    decreases |ops|
  {
    if ops == [] then (pages, [])
    else
      var (after, answer) := MapStep(pageSize, maxSize, pages, ops[0]);
      var (end, answers) := RunMap(pageSize, maxSize, after, ops[1..]);
      (end, [answer] + answers)
  }

  /** The flat file cannot be told from the page map: same answers and same pages over every run,
      and the size stays a multiple of the page size and below the maximum. */
  lemma {:induction false} FileRefinesPageMap(pageSize: nat, maxSize: nat, file: seq<byte>, ops: seq<FileOp>)
    requires FileOk(pageSize, maxSize, file) && WellSized(pageSize, ops)
    ensures FileOk(pageSize, maxSize, RunFile(pageSize, maxSize, file, ops).0)
    ensures RunMap(pageSize, maxSize, PagesOf(pageSize, file), ops)
            == (PagesOf(pageSize, RunFile(pageSize, maxSize, file, ops).0), RunFile(pageSize, maxSize, file, ops).1)
    decreases |ops|
  {
    if ops != [] {
      StepRefines(pageSize, maxSize, file, ops[0]);
      FileRefinesPageMap(pageSize, maxSize, FileStep(pageSize, maxSize, file, ops[0]).0, ops[1..]);
    }
  }

  lemma StepRefines(pageSize: nat, maxSize: nat, file: seq<byte>, op: FileOp)
    requires FileOk(pageSize, maxSize, file) && (op.Write? ==> |op.data| == pageSize)
    ensures FileOk(pageSize, maxSize, FileStep(pageSize, maxSize, file, op).0)
    ensures MapStep(pageSize, maxSize, PagesOf(pageSize, file), op)
            == (PagesOf(pageSize, FileStep(pageSize, maxSize, file, op).0), FileStep(pageSize, maxSize, file, op).1)
  {
    match op
    case Read(c) => ReadStepRefines(pageSize, maxSize, file, c);
    case Write(c, data) => WriteStepRefines(pageSize, maxSize, file, c, data);
  }

  lemma ReadStepRefines(pageSize: nat, maxSize: nat, file: seq<byte>, c: nat)
    requires FileOk(pageSize, maxSize, file)
    ensures var (after, r) := ReadFile(pageSize, maxSize, file, c);
            && FileOk(pageSize, maxSize, after)
            && PagesOf(pageSize, after) == PagesOf(pageSize, file)
            && r == (if Fits(pageSize, maxSize, c) then Ok(PagesOf(pageSize, file)[c]) else Err(DiskExceedsMaxSize))
  {
    ReadFileKeeps(pageSize, maxSize, file, c, c);
    forall other: int {
      ReadFileKeeps(pageSize, maxSize, file, c, other);
    }
  }

  lemma WriteStepRefines(pageSize: nat, maxSize: nat, file: seq<byte>, c: nat, data: Page)
    requires FileOk(pageSize, maxSize, file) && |data| == pageSize
    ensures var (after, r) := WriteFile(pageSize, maxSize, file, c, data);
            && FileOk(pageSize, maxSize, after)
            && (r.Err? ==> r == Err(DiskExceedsMaxSize))
            && r.Ok? == Fits(pageSize, maxSize, c)
            && PagesOf(pageSize, after)
               == if r.Ok? then PagesOf(pageSize, file)[c := data] else PagesOf(pageSize, file)
  {
    WriteFileUpdates(pageSize, maxSize, file, c, data, c);
    forall other: int {
      WriteFileUpdates(pageSize, maxSize, file, c, data, other);
    }
  }

  /** A new file is a page map of zeros. */
  lemma NewFileIsZeros(pageSize: nat, c: int)
    ensures PagesOf(pageSize, [])[c] == Zeros(pageSize)
  {
    if pageSize == 0 {
      assert PageAt(0, [], c) == Zeros(0);
    } else if c >= 0 {
      PagesDisjoint(pageSize, c, c + 1);
      MulMonotone(-1, c, pageSize);
    }
  }
}
