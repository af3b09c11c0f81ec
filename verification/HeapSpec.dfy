/** The heap table of organizers/src/heap.cpp over plain pages: its two page lists, its inserts, and
    what every run of inserts keeps. */
module HeapSpec {
  import opened Bytes
  import opened BitmapSpec
  import opened TupleSpec
  import opened StoreSpec
  import opened PoolRuns
  import opened HeapLayout

  /** The page lists the link words spell, and every data page handed out so far. */
  datatype Lists = Lists(free: seq<int>, full: seq<int>, data: set<int>)

  const ROOT_PAGE := 0

  ghost function At(h: Layout, mem: Memory, c: int): Page {
    mem[Key(h.disk, c)]
  }

  ghost function Put(h: Layout, mem: Memory, c: int, page: Page): Memory {
    mem[Key(h.disk, c) := page]
  }

  ghost predicate PagesSized(h: Layout, mem: Memory) {
    forall c: int :: |At(h, mem, c)| == h.pageSize
  }

  // ---------------------------------------------------------------- linked lists of pages

  /** Following links at byte offset `at` from `link` visits exactly `list` and then stops. */
  ghost predicate Chain(h: Layout, mem: Memory, link: int, list: seq<int>, at: nat)
    requires PagesSized(h, mem) && at + 4 <= h.pageSize
    decreases |list|
  {
    if list == [] then link == NO_PAGE
    else link == list[0] && Chain(h, mem, Word(At(h, mem, list[0]), at), list[1..], at)
  }

  ghost predicate NoDup(s: seq<int>) {
    forall i, j :: 0 <= i < j < |s| ==> s[i] != s[j]
  }

  lemma {:induction false} ChainFrame(h: Layout, mem: Memory, mem': Memory, link: int, list: seq<int>, at: nat)
    requires PagesSized(h, mem) && PagesSized(h, mem') && at + 4 <= h.pageSize
    requires forall c :: c in list ==> Word(At(h, mem', c), at) == Word(At(h, mem, c), at)
    ensures Chain(h, mem', link, list, at) == Chain(h, mem, link, list, at)
    decreases |list|
  {
    if list != [] {
      assert list[0] in list;
      ChainFrame(h, mem, mem', Word(At(h, mem, list[0]), at), list[1..], at);
    }
  }

  /** Redirecting the last link to a page whose own link ends the list appends that page. */
  lemma {:induction false} ChainAppend(h: Layout, mem: Memory, mem': Memory, link: int, list: seq<int>, at: nat, c: int)
    requires PagesSized(h, mem) && PagesSized(h, mem') && at + 4 <= h.pageSize
    requires list != [] && NoDup(list) && Chain(h, mem, link, list, at)
    requires forall b :: b in list && b != list[|list| - 1] ==> Word(At(h, mem', b), at) == Word(At(h, mem, b), at)
    requires Word(At(h, mem', list[|list| - 1]), at) == c && Word(At(h, mem', c), at) == NO_PAGE
    ensures Chain(h, mem', link, list + [c], at)
    decreases |list|
  {
    var rest := list[1..];
    assert (list + [c])[1..] == rest + [c];
    if rest == [] {
      assert Chain(h, mem', NO_PAGE, [], at);
      assert Chain(h, mem', c, [c], at);
    } else {
      assert list[0] in list && list[0] != list[|list| - 1];
      assert forall b :: b in rest ==> b in list;
      ChainAppend(h, mem, mem', Word(At(h, mem, list[0]), at), rest, at, c);
    }
  }

  /** Every page reached has the link its successor, or the end. */
  lemma {:induction false} ChainLinks(h: Layout, mem: Memory, link: int, list: seq<int>, at: nat, i: nat)
    requires PagesSized(h, mem) && at + 4 <= h.pageSize
    requires Chain(h, mem, link, list, at) && i < |list|
    ensures Word(At(h, mem, list[i]), at) == if i + 1 < |list| then list[i + 1] else NO_PAGE
    decreases |list|
  {
    if i > 0 {
      ChainLinks(h, mem, Word(At(h, mem, list[0]), at), list[1..], at, i - 1);
    } else if |list| > 1 {
      assert list[1..][0] == list[1];
    }
  }

  // ---------------------------------------------------------------- invariant

  /** Together the two lists hold every data page once and nothing else, the root least of all. */
  ghost predicate Partition(ls: Lists) {
    && NoDup(ls.free) && NoDup(ls.full)
    && (forall c :: c in ls.free ==> c !in ls.full)
    && (forall c :: c in ls.data <==> c in ls.free || c in ls.full)
    && (forall c :: c in ls.data ==> 0 < c < 0x8000_0000)
  }

  /** The two lists are what the root's words and the pages' words spell. */
  ghost predicate ListsOk(h: Layout, mem: Memory, ls: Lists) {
    && h.Ok() && PagesSized(h, mem)
    && Word(At(h, mem, ROOT_PAGE), STAMP_OFFSET) == STAMP
    && Chain(h, mem, Word(At(h, mem, ROOT_PAGE), ROOT_FREE_OFFSET), ls.free, FREE_OFFSET)
    && Chain(h, mem, Word(At(h, mem, ROOT_PAGE), ROOT_FULL_OFFSET), ls.full, FULL_OFFSET)
    && Partition(ls)
  }

  ghost predicate HasSpace(h: Layout, mem: Memory, c: int)
    requires h.Ok() && PagesSized(h, mem)
  {
    CountFree(SlotMap(h, At(h, mem, c))) > 0
  }

  /** A page on the free list has a free slot and ends its full link, so it can be appended to the
      full list; one on the full list has none. Other pages have never been written. */
  ghost predicate PagesOk(h: Layout, mem: Memory, ls: Lists)
    requires h.Ok() && PagesSized(h, mem)
  {
    && (forall c :: c in ls.free ==> HasSpace(h, mem, c) && Word(At(h, mem, c), FULL_OFFSET) == NO_PAGE)
    && (forall c :: c in ls.full ==> !HasSpace(h, mem, c))
    && (forall c: int :: c !in ls.data && c != ROOT_PAGE ==> At(h, mem, c) == Zeros(h.pageSize))
  }

  ghost predicate HeapOk(h: Layout, mem: Memory, ls: Lists) {
    ListsOk(h, mem, ls) && PagesOk(h, mem, ls)
  }

  // ---------------------------------------------------------------- contents

  ghost function ListRows(h: Layout, mem: Memory, list: seq<int>): Rows
    requires h.Ok() && PagesSized(h, mem)
  {
    if list == [] then multiset{}
    else ListRows(h, mem, list[..|list| - 1]) + PageRows(h, At(h, mem, list[|list| - 1]))
  }

  /** Every tuple of the table. */
  ghost function Contents(h: Layout, mem: Memory, ls: Lists): Rows
    requires h.Ok() && PagesSized(h, mem)
  {
    ListRows(h, mem, ls.free) + ListRows(h, mem, ls.full)
  }

  lemma {:induction false} ListRowsFrame(h: Layout, mem: Memory, mem': Memory, list: seq<int>)
    requires h.Ok() && PagesSized(h, mem) && PagesSized(h, mem')
    requires forall c :: c in list ==> PageRows(h, At(h, mem', c)) == PageRows(h, At(h, mem, c))
    ensures ListRows(h, mem', list) == ListRows(h, mem, list)
  {
    if list != [] {
      ListRowsFrame(h, mem, mem', list[..|list| - 1]);
    }
  }

  lemma ListRowsSnoc(h: Layout, mem: Memory, list: seq<int>, c: int, longer: seq<int>)
    requires h.Ok() && PagesSized(h, mem) && longer == list + [c]
    ensures ListRows(h, mem, longer) == ListRows(h, mem, list) + PageRows(h, At(h, mem, c))
  {
    assert longer[..|longer| - 1] == list;
  }

  lemma LastApart(a: seq<int>, b: seq<int>) returns (front: seq<int>, c: int)
    requires b != []
    ensures |front| < |b| && b == front + [c] && a + b == (a + front) + [c]
  {
    front, c := b[..|b| - 1], b[|b| - 1];
  }

  lemma {:induction false} ListRowsConcat(h: Layout, mem: Memory, a: seq<int>, b: seq<int>)
    requires h.Ok() && PagesSized(h, mem)
    ensures ListRows(h, mem, a + b) == ListRows(h, mem, a) + ListRows(h, mem, b)
    decreases |b|
  {
    if b == [] {
      assert a + b == a;
    } else {
      var front, c := LastApart(a, b);
      ListRowsConcat(h, mem, a, front);
      ListRowsSnoc(h, mem, front, c, b);
      ListRowsSnoc(h, mem, a + front, c, a + b);
      RowsAssoc(ListRows(h, mem, a), ListRows(h, mem, front), PageRows(h, At(h, mem, c)));
    }
  }

  // ---------------------------------------------------------------- a new data page

  /** Put page c at the head of the empty free list, with both its links set to the end. */
  ghost function AddPage(h: Layout, mem: Memory, ls: Lists, c: int): (Memory, Lists)
    requires h.Ok() && PagesSized(h, mem) && 0 < c < 0x8000_0000
  {
    var rooted := Put(h, mem, ROOT_PAGE, PutWord(At(h, mem, ROOT_PAGE), ROOT_FREE_OFFSET, c));
    (Put(h, rooted, c, PutWord(PutWord(At(h, mem, c), FREE_OFFSET, NO_PAGE), FULL_OFFSET, NO_PAGE)),
     Lists([c], ls.full, ls.data + {c}))
  }

  /** A root word changes alone. */
  lemma RootWords(page: Page, at: nat, v: int32)
    requires |page| >= 12 && (at == ROOT_FREE_OFFSET || at == ROOT_FULL_OFFSET)
    ensures Word(PutWord(page, at, v), at) == v
    ensures Word(PutWord(page, at, v), STAMP_OFFSET) == Word(page, STAMP_OFFSET)
    ensures Word(PutWord(page, at, v), 12 - at) == Word(page, 12 - at)
  {
    WordAfterPut(page, at, v, at);
    WordAfterPut(page, at, v, STAMP_OFFSET);
    WordAfterPut(page, at, v, 12 - at);
  }

  /** What a new page holds once its links are set. */
  lemma NewPage(h: Layout, page: Page)
    requires h.Ok() && page == Zeros(h.pageSize)
    ensures var made := PutWord(PutWord(page, FREE_OFFSET, NO_PAGE), FULL_OFFSET, NO_PAGE);
            && Sized(h, made)
            && CountFree(SlotMap(h, made)) > 0 && PageRows(h, made) == multiset{}
            && Word(made, FREE_OFFSET) == NO_PAGE && Word(made, FULL_OFFSET) == NO_PAGE
  {
    ZeroPageIsEmpty(h);
    PutLinkKeepsSlots(h, page, FREE_OFFSET, NO_PAGE);
    PutLinkKeepsSlots(h, PutWord(page, FREE_OFFSET, NO_PAGE), FULL_OFFSET, NO_PAGE);
  }

  /** Memory differs at these two pages at most. */
  ghost predicate SameBut(h: Layout, mem: Memory, mem': Memory, a: int, b: int) {
    forall c: int :: c != a && c != b ==> At(h, mem', c) == At(h, mem, c)
  }

  lemma AddPageKeeps(h: Layout, mem: Memory, ls: Lists, c: int)
    requires HeapOk(h, mem, ls) && ls.free == [] && c !in ls.data && 0 < c < 0x8000_0000
    ensures var (mem', ls') := AddPage(h, mem, ls, c);
            HeapOk(h, mem', ls') && Contents(h, mem', ls') == Contents(h, mem, ls)
  {
    var mem' := AddPage(h, mem, ls, c).0;
    NewPage(h, At(h, mem, c));
    RootWords(At(h, mem, ROOT_PAGE), ROOT_FREE_OFFSET, c);
    forall b: int
      ensures |At(h, mem', b)| == h.pageSize
      ensures b != ROOT_PAGE && b != c ==> At(h, mem', b) == At(h, mem, b)
    {
      assert |At(h, mem, b)| == h.pageSize && |At(h, mem, ROOT_PAGE)| == h.pageSize;
    }
    NewPageJoins(h, mem, mem', ls, c);
    assert forall b :: b in ls.full ==> b in ls.data;
    NewPageRows(h, mem, mem', ls, c);
  }

  /** An empty page, its links at the end, joins an empty free list. */
  lemma NewPageJoins(h: Layout, mem: Memory, mem': Memory, ls: Lists, c: int)
    requires HeapOk(h, mem, ls) && ls.free == [] && c !in ls.data && 0 < c < 0x8000_0000
    requires PagesSized(h, mem') && SameBut(h, mem, mem', ROOT_PAGE, c)
    requires Word(At(h, mem', ROOT_PAGE), STAMP_OFFSET) == Word(At(h, mem, ROOT_PAGE), STAMP_OFFSET)
    requires Word(At(h, mem', ROOT_PAGE), ROOT_FREE_OFFSET) == c
    requires Word(At(h, mem', ROOT_PAGE), ROOT_FULL_OFFSET) == Word(At(h, mem, ROOT_PAGE), ROOT_FULL_OFFSET)
    requires Word(At(h, mem', c), FREE_OFFSET) == NO_PAGE && Word(At(h, mem', c), FULL_OFFSET) == NO_PAGE
    requires HasSpace(h, mem', c)
    ensures HeapOk(h, mem', Lists([c], ls.full, ls.data + {c}))
  {
    assert forall b :: b in ls.full ==> b in ls.data && At(h, mem', b) == At(h, mem, b);
    ChainFrame(h, mem, mem', Word(At(h, mem, ROOT_PAGE), ROOT_FULL_OFFSET), ls.full, FULL_OFFSET);
    assert [c][1..] == [];
    assert Chain(h, mem', c, [c], FREE_OFFSET);
  }

  lemma NewPageRows(h: Layout, mem: Memory, mem': Memory, ls: Lists, c: int)
    requires h.Ok() && PagesSized(h, mem) && PagesSized(h, mem') && ls.free == []
    requires forall b :: b in ls.full ==> At(h, mem', b) == At(h, mem, b)
    requires PageRows(h, At(h, mem', c)) == multiset{}
    ensures Contents(h, mem', Lists([c], ls.full, ls.data + {c})) == Contents(h, mem, ls)
  {
    ListRowsFrame(h, mem, mem', ls.full);
    ListRowsOne(h, mem', c);
  }

  lemma ListRowsOne(h: Layout, mem: Memory, c: int)
    requires h.Ok() && PagesSized(h, mem)
    ensures ListRows(h, mem, [c]) == PageRows(h, At(h, mem, c))
  {
    assert [c][..0] == [];
    assert ListRows(h, mem, []) == multiset{};
  }

  // ---------------------------------------------------------------- writing the tuple

  /** Store a tuple in the first free slot of page c. */
  ghost function StoreTuple(h: Layout, mem: Memory, c: int, cells: seq<Cell>): Memory
    requires Sized(h, At(h, mem, c)) && TypesOf(cells) == h.types
  {
    match FirstFree(SlotMap(h, At(h, mem, c)))
    case Some(i) => Put(h, mem, c, PutRow(h, At(h, mem, c), i, cells))
    case None => mem
  }

  /** HeapOk, except that the head of the free list may have filled up. */
  ghost predicate HeapOkButHead(h: Layout, mem: Memory, ls: Lists) {
    && ListsOk(h, mem, ls) && ls.free != []
    && (forall c :: c in ls.free ==> Word(At(h, mem, c), FULL_OFFSET) == NO_PAGE)
    && (forall c :: c in ls.free && c != ls.free[0] ==> HasSpace(h, mem, c))
    && (forall c :: c in ls.full ==> !HasSpace(h, mem, c))
    && (forall c: int :: c !in ls.data && c != ROOT_PAGE ==> At(h, mem, c) == Zeros(h.pageSize))
  }

  /** Only page c changes, and its links stay: the lists are as before. */
  lemma OnePageKeepsLists(h: Layout, mem: Memory, ls: Lists, c: int, page: Page)
    requires ListsOk(h, mem, ls) && c in ls.data && |page| == h.pageSize
    requires Word(page, FREE_OFFSET) == Word(At(h, mem, c), FREE_OFFSET)
    requires Word(page, FULL_OFFSET) == Word(At(h, mem, c), FULL_OFFSET)
    ensures ListsOk(h, Put(h, mem, c, page), ls)
  {
    var mem' := Put(h, mem, c, page);
    assert forall b: int :: b != c ==> At(h, mem', b) == At(h, mem, b);
    ChainFrame(h, mem, mem', Word(At(h, mem, ROOT_PAGE), ROOT_FREE_OFFSET), ls.free, FREE_OFFSET);
    ChainFrame(h, mem, mem', Word(At(h, mem, ROOT_PAGE), ROOT_FULL_OFFSET), ls.full, FULL_OFFSET);
  }

  lemma HeadIsSized(h: Layout, mem: Memory, c: int)
    requires h.Ok() && PagesSized(h, mem)
    ensures Sized(h, At(h, mem, c))
  {
  }

  lemma StoreTupleKeeps(h: Layout, mem: Memory, ls: Lists, cells: seq<Cell>)
    requires HeapOk(h, mem, ls) && ls.free != [] && TypesOf(cells) == h.types
    ensures Sized(h, At(h, mem, ls.free[0])) && CountFree(SlotMap(h, At(h, mem, ls.free[0]))) > 0
    ensures HeapOkButHead(h, StoreTuple(h, mem, ls.free[0], cells), ls)
    ensures Contents(h, StoreTuple(h, mem, ls.free[0], cells), ls) == Contents(h, mem, ls) + multiset{cells}
  {
    HeadIsSized(h, mem, ls.free[0]);
    var page := At(h, mem, ls.free[0]);
    assert ls.free[0] in ls.free && HasSpace(h, mem, ls.free[0]);
    FirstFreeNoneIffFull(SlotMap(h, page));
    var i := FirstFree(SlotMap(h, page)).value;
    PutRowReads(h, page, i, cells);
    PutRowIsOneMore(h, page, i, cells);
    HeadChanges(h, mem, ls, PutRow(h, page, i, cells));
    HeadGains(h, mem, ls, PutRow(h, page, i, cells), multiset{cells});
  }

  /** The head page of the free list changes and keeps its links. */
  lemma HeadChanges(h: Layout, mem: Memory, ls: Lists, page: Page)
    requires HeapOk(h, mem, ls) && ls.free != [] && |page| == h.pageSize
    requires Word(page, FREE_OFFSET) == Word(At(h, mem, ls.free[0]), FREE_OFFSET)
    requires Word(page, FULL_OFFSET) == Word(At(h, mem, ls.free[0]), FULL_OFFSET)
    ensures HeapOkButHead(h, Put(h, mem, ls.free[0], page), ls)
  {
    OnePageKeepsLists(h, mem, ls, ls.free[0], page);
    assert forall b: int :: b != ls.free[0] ==> At(h, Put(h, mem, ls.free[0], page), b) == At(h, mem, b);
    HeadDistinct(ls.free);
  }

  /** It gains some tuples: so does the table. */
  lemma HeadGains(h: Layout, mem: Memory, ls: Lists, page: Page, gain: Rows)
    requires h.Ok() && PagesSized(h, mem) && Partition(ls) && ls.free != [] && |page| == h.pageSize
    requires PageRows(h, page) == PageRows(h, At(h, mem, ls.free[0])) + gain
    ensures PagesSized(h, Put(h, mem, ls.free[0], page))
    ensures Contents(h, Put(h, mem, ls.free[0], page), ls) == Contents(h, mem, ls) + gain
  {
    var c := ls.free[0];
    var mem' := Put(h, mem, c, page);
    assert forall b: int :: b != c ==> At(h, mem', b) == At(h, mem, b);
    HeadDistinct(ls.free);
    HeadRows(h, mem, mem', ls.free);
    ListRowsFrame(h, mem, mem', ls.full);
  }

  lemma HeadDistinct(list: seq<int>)
    requires NoDup(list) && list != []
    ensures list[0] !in list[1..] && NoDup(list[1..])
    ensures forall c :: c in list <==> c == list[0] || c in list[1..]
  {
    assert forall i :: 0 <= i < |list| - 1 ==> list[1..][i] == list[i + 1];
    assert list == [list[0]] + list[1..];
  }

  /** Only the head of a list changed: the rest of the list holds what it held. */
  lemma HeadRows(h: Layout, mem: Memory, mem': Memory, list: seq<int>)
    requires h.Ok() && PagesSized(h, mem) && PagesSized(h, mem') && list != []
    requires forall c :: c in list[1..] ==> PageRows(h, At(h, mem', c)) == PageRows(h, At(h, mem, c))
    ensures ListRows(h, mem', list) == PageRows(h, At(h, mem', list[0])) + ListRows(h, mem, list[1..])
    ensures ListRows(h, mem, list) == PageRows(h, At(h, mem, list[0])) + ListRows(h, mem, list[1..])
  {
    assert list == [list[0]] + list[1..];
    ListRowsConcat(h, mem, [list[0]], list[1..]);
    ListRowsConcat(h, mem', [list[0]], list[1..]);
    ListRowsOne(h, mem, list[0]);
    ListRowsOne(h, mem', list[0]);
    ListRowsFrame(h, mem, mem', list[1..]);
  }

  // ---------------------------------------------------------------- moving a full page

  /** Take the head off the free list: the root's word moves on to the head's own link. */
  ghost function UnlinkHead(h: Layout, mem: Memory, c: int): Memory
    requires h.Ok() && PagesSized(h, mem)
  {
    Put(h, mem, ROOT_PAGE, PutWord(At(h, mem, ROOT_PAGE), ROOT_FREE_OFFSET, Word(At(h, mem, c), FREE_OFFSET)))
  }

  lemma UnlinkHeadKeeps(h: Layout, mem: Memory, ls: Lists)
    requires ListsOk(h, mem, ls) && ls.free != []
    ensures var rest := Lists(ls.free[1..], ls.full, ls.data - {ls.free[0]});
            ListsOk(h, UnlinkHead(h, mem, ls.free[0]), rest)
    ensures forall b: int :: b != ROOT_PAGE ==> At(h, UnlinkHead(h, mem, ls.free[0]), b) == At(h, mem, b)
  {
    var mem' := UnlinkHead(h, mem, ls.free[0]);
    var next := Word(At(h, mem, ls.free[0]), FREE_OFFSET);
    RootWords(At(h, mem, ROOT_PAGE), ROOT_FREE_OFFSET, next);
    HeadDistinct(ls.free);
    assert forall b: int :: b != ROOT_PAGE ==> At(h, mem', b) == At(h, mem, b);
    assert forall b :: b in ls.free[1..] || b in ls.full ==> b in ls.data;
    ChainFrame(h, mem, mem', next, ls.free[1..], FREE_OFFSET);
    ChainFrame(h, mem, mem', Word(At(h, mem, ROOT_PAGE), ROOT_FULL_OFFSET), ls.full, FULL_OFFSET);
  }

  /** The page whose link ends the full list, and where in it that link is. */
  function FullEnd(full: seq<int>): (int, nat) {
    if full == [] then (ROOT_PAGE, ROOT_FULL_OFFSET) else (full[|full| - 1], FULL_OFFSET)
  }

  /** `append_to_full_pages`: one link word changes. */
  ghost function AppendFull(h: Layout, mem: Memory, full: seq<int>, c: int): Memory
    requires h.Ok() && PagesSized(h, mem) && 0 < c < 0x8000_0000
  {
    var (last, at) := FullEnd(full);
    Put(h, mem, last, PutWord(At(h, mem, last), at, c))
  }

  /** No page but the end page changes, and in it no byte outside the four of its link. */
  lemma AppendChangesOneWord(h: Layout, mem: Memory, full: seq<int>, c: int, k: Key, i: nat)
    requires h.Ok() && PagesSized(h, mem) && 0 < c < 0x8000_0000
    requires i < |mem[k]| && (k != Key(h.disk, FullEnd(full).0) || i < FullEnd(full).1 || FullEnd(full).1 + 4 <= i)
    ensures |AppendFull(h, mem, full, c)[k]| == |mem[k]| && AppendFull(h, mem, full, c)[k][i] == mem[k][i]
  {
    assert |At(h, mem, FullEnd(full).0)| == h.pageSize;
  }

  lemma AppendFullKeeps(h: Layout, mem: Memory, ls: Lists, c: int)
    requires ListsOk(h, mem, ls) && c !in ls.data && 0 < c < 0x8000_0000
    requires Word(At(h, mem, c), FULL_OFFSET) == NO_PAGE
    ensures ListsOk(h, AppendFull(h, mem, ls.full, c), Lists(ls.free, ls.full + [c], ls.data + {c}))
    ensures forall b: int :: b != ROOT_PAGE ==> SameSlots(h, At(h, mem, b), At(h, AppendFull(h, mem, ls.full, c), b))
    ensures forall b: int :: b != ROOT_PAGE && b !in ls.full ==>
                               At(h, AppendFull(h, mem, ls.full, c), b) == At(h, mem, b)
  {
    AppendPages(h, mem, ls.full, c);
    AppendChains(h, mem, ls, c);
    AppendPartition(ls, c);
  }

  lemma AppendPartition(ls: Lists, c: int)
    requires Partition(ls) && c !in ls.data && 0 < c < 0x8000_0000
    ensures Partition(Lists(ls.free, ls.full + [c], ls.data + {c}))
  {
    assert forall b :: b in ls.full + [c] <==> b in ls.full || b == c;
  }

  lemma AppendPages(h: Layout, mem: Memory, full: seq<int>, c: int)
    requires h.Ok() && PagesSized(h, mem) && 0 < c < 0x8000_0000 && ROOT_PAGE !in full
    ensures PagesSized(h, AppendFull(h, mem, full, c))
    ensures forall b: int :: b != FullEnd(full).0 ==> At(h, AppendFull(h, mem, full, c), b) == At(h, mem, b)
    ensures forall b: int :: b != ROOT_PAGE ==> SameSlots(h, At(h, mem, b), At(h, AppendFull(h, mem, full, c), b))
    ensures full != [] ==> var last := full[|full| - 1];
                           && Word(At(h, AppendFull(h, mem, full, c), last), FULL_OFFSET) == c
                           && Word(At(h, AppendFull(h, mem, full, c), last), FREE_OFFSET) == Word(At(h, mem, last), FREE_OFFSET)
  {
    var (last, at) := FullEnd(full);
    assert |At(h, mem, last)| == h.pageSize;
    assert forall b: int :: b != last ==> At(h, AppendFull(h, mem, full, c), b) == At(h, mem, b);
    if full != [] {
      PutLinkKeepsSlots(h, At(h, mem, last), FULL_OFFSET, c);
    }
  }

  lemma AppendChains(h: Layout, mem: Memory, ls: Lists, c: int)
    requires ListsOk(h, mem, ls) && c !in ls.data && 0 < c < 0x8000_0000
    requires Word(At(h, mem, c), FULL_OFFSET) == NO_PAGE
    ensures var mem' := AppendFull(h, mem, ls.full, c);
            && PagesSized(h, mem')
            && Word(At(h, mem', ROOT_PAGE), STAMP_OFFSET) == STAMP
            && Chain(h, mem', Word(At(h, mem', ROOT_PAGE), ROOT_FREE_OFFSET), ls.free, FREE_OFFSET)
            && Chain(h, mem', Word(At(h, mem', ROOT_PAGE), ROOT_FULL_OFFSET), ls.full + [c], FULL_OFFSET)
  {
    var mem' := AppendFull(h, mem, ls.full, c);
    AppendFullChain(h, mem, ls, c);
    AppendPages(h, mem, ls.full, c);
    assert forall b :: b in ls.free || b in ls.full ==> b in ls.data;
    if ls.full == [] {
      RootWords(At(h, mem, ROOT_PAGE), ROOT_FULL_OFFSET, c);
    }
    ChainFrame(h, mem, mem', Word(At(h, mem, ROOT_PAGE), ROOT_FREE_OFFSET), ls.free, FREE_OFFSET);
  }

  lemma AppendFullChain(h: Layout, mem: Memory, ls: Lists, c: int)
    requires ListsOk(h, mem, ls) && c !in ls.data && 0 < c < 0x8000_0000
    requires Word(At(h, mem, c), FULL_OFFSET) == NO_PAGE
    ensures var mem' := AppendFull(h, mem, ls.full, c);
            && PagesSized(h, mem')
            && Chain(h, mem', Word(At(h, mem', ROOT_PAGE), ROOT_FULL_OFFSET), ls.full + [c], FULL_OFFSET)
  {
    AppendPages(h, mem, ls.full, c);
    var mem' := AppendFull(h, mem, ls.full, c);
    assert forall b :: b in ls.full ==> b in ls.data;
    if ls.full == [] {
      RootWords(At(h, mem, ROOT_PAGE), ROOT_FULL_OFFSET, c);
      assert ls.full + [c] == [c] && [c][1..] == [];
      assert Chain(h, mem', NO_PAGE, [], FULL_OFFSET);
      assert Chain(h, mem', c, [c], FULL_OFFSET);
    } else {
      ChainAppend(h, mem, mem', Word(At(h, mem, ROOT_PAGE), ROOT_FULL_OFFSET), ls.full, FULL_OFFSET, c);
    }
  }

  /** The head can be moved: the full list is well linked and does not hold the root. */
  ghost predicate CanMove(h: Layout, mem: Memory, ls: Lists) {
    && h.Ok() && PagesSized(h, mem) && ls.free != [] && 0 < ls.free[0] < 0x8000_0000
    && ROOT_PAGE !in ls.full
    && Chain(h, mem, Word(At(h, mem, ROOT_PAGE), ROOT_FULL_OFFSET), ls.full, FULL_OFFSET)
  }

  lemma HeadCanMove(h: Layout, mem: Memory, ls: Lists)
    requires ListsOk(h, mem, ls) && ls.free != []
    ensures CanMove(h, mem, ls)
  {
    assert ls.free[0] in ls.free;
  }

  /** The root's free word does not matter to the full list. */
  lemma UnlinkKeepsFullList(h: Layout, mem: Memory, ls: Lists, c: int)
    requires CanMove(h, mem, ls)
    ensures CanMove(h, UnlinkHead(h, mem, c), ls)
  {
    var mem' := UnlinkHead(h, mem, c);
    RootWords(At(h, mem, ROOT_PAGE), ROOT_FREE_OFFSET, Word(At(h, mem, c), FREE_OFFSET));
    assert forall b: int :: b != ROOT_PAGE ==> At(h, mem', b) == At(h, mem, b);
    ChainFrame(h, mem, mem', Word(At(h, mem, ROOT_PAGE), ROOT_FULL_OFFSET), ls.full, FULL_OFFSET);
  }

  ghost function MoveToFull(h: Layout, mem: Memory, ls: Lists): (Memory, Lists)
    requires CanMove(h, mem, ls)
  {
    var c := ls.free[0];
    UnlinkKeepsFullList(h, mem, ls, c);
    (AppendFull(h, UnlinkHead(h, mem, c), ls.full, c), Lists(ls.free[1..], ls.full + [c], ls.data))
  }

  lemma MoveToFullKeeps(h: Layout, mem: Memory, ls: Lists)
    requires HeapOkButHead(h, mem, ls) && !HasSpace(h, mem, ls.free[0])
    ensures CanMove(h, mem, ls)
    ensures var (mem', ls') := MoveToFull(h, mem, ls);
            && HeapOk(h, mem', ls') && Contents(h, mem', ls') == Contents(h, mem, ls)
            && forall b: int :: b != ROOT_PAGE ==> SameSlots(h, At(h, mem, b), At(h, mem', b))
  {
    MovedLists(h, mem, ls);
    var mem' := MoveToFull(h, mem, ls).0;
    MovedPagesOk(h, mem, mem', ls);
    MovedRows(h, mem, mem', ls);
  }

  lemma MovedLists(h: Layout, mem: Memory, ls: Lists)
    requires HeapOkButHead(h, mem, ls)
    ensures CanMove(h, mem, ls)
    ensures var (mem', ls') := MoveToFull(h, mem, ls);
            && ListsOk(h, mem', ls')
            && (forall b: int :: b != ROOT_PAGE ==> SameSlots(h, At(h, mem, b), At(h, mem', b)))
            && (forall b: int :: b != ROOT_PAGE && b !in ls.full ==> At(h, mem', b) == At(h, mem, b))
  {
    var c := ls.free[0];
    HeadCanMove(h, mem, ls);
    UnlinkHeadKeeps(h, mem, ls);
    AppendAfterUnlink(h, mem, UnlinkHead(h, mem, c), ls.free[1..], ls.full, ls.data, c);
  }

  /** Appending the page that was just unlinked. */
  lemma AppendAfterUnlink(h: Layout, mem: Memory, mid: Memory, free: seq<int>, full: seq<int>, data: set<int>, c: int)
    requires ListsOk(h, mid, Lists(free, full, data - {c})) && c in data && 0 < c < 0x8000_0000
    requires forall b: int :: b != ROOT_PAGE ==> At(h, mid, b) == At(h, mem, b)
    requires PagesSized(h, mem) && Word(At(h, mem, c), FULL_OFFSET) == NO_PAGE
    ensures var mem' := AppendFull(h, mid, full, c);
            && ListsOk(h, mem', Lists(free, full + [c], data))
            && (forall b: int :: b != ROOT_PAGE ==> SameSlots(h, At(h, mem, b), At(h, mem', b)))
            && (forall b: int :: b != ROOT_PAGE && b !in full ==> At(h, mem', b) == At(h, mem, b))
  {
    AppendFullKeeps(h, mid, Lists(free, full, data - {c}), c);
    assert data - {c} + {c} == data;
  }

  lemma MovedPagesOk(h: Layout, mem: Memory, mem': Memory, ls: Lists)
    requires HeapOkButHead(h, mem, ls) && !HasSpace(h, mem, ls.free[0]) && PagesSized(h, mem')
    requires forall b: int :: b != ROOT_PAGE ==> SameSlots(h, At(h, mem, b), At(h, mem', b))
    requires forall b: int :: b != ROOT_PAGE && b !in ls.full ==> At(h, mem', b) == At(h, mem, b)
    ensures PagesOk(h, mem', Lists(ls.free[1..], ls.full + [ls.free[0]], ls.data))
  {
    HeadDistinct(ls.free);
    assert forall b :: b in ls.full + [ls.free[0]] <==> b in ls.full || b == ls.free[0];
    assert forall b :: b in ls.free || b in ls.full ==> b in ls.data;
  }

  lemma MovedRows(h: Layout, mem: Memory, mem': Memory, ls: Lists)
    requires ListsOk(h, mem, ls) && ls.free != [] && PagesSized(h, mem')
    requires forall b: int :: b != ROOT_PAGE ==> SameSlots(h, At(h, mem, b), At(h, mem', b))
    ensures Contents(h, mem', Lists(ls.free[1..], ls.full + [ls.free[0]], ls.data)) == Contents(h, mem, ls)
  {
    var c := ls.free[0];
    HeadDistinct(ls.free);
    assert forall b :: b in ls.free || b in ls.full ==> b in ls.data;
    forall b: int | b != ROOT_PAGE
      ensures PageRows(h, At(h, mem', b)) == PageRows(h, At(h, mem, b))
    {
      assert SameSlots(h, At(h, mem, b), At(h, mem', b));
    }
    HeadRows(h, mem, mem', ls.free);
    ListRowsFrame(h, mem, mem', ls.free[1..]);
    ListRowsFrame(h, mem, mem', ls.full);
    ListRowsConcat(h, mem', ls.full, [c]);
    ListRowsOne(h, mem', c);
    RowsRotate(PageRows(h, At(h, mem, c)), ListRows(h, mem, ls.free[1..]), ListRows(h, mem, ls.full));
  }

  lemma RowsRotate(a: Rows, b: Rows, c: Rows)
    ensures a + b + c == b + (c + a)
  {
  }

  // ---------------------------------------------------------------- insert_tuple

  /** What the root's free word says. */
  lemma RootFreeWord(h: Layout, mem: Memory, ls: Lists)
    requires ListsOk(h, mem, ls)
    ensures Word(At(h, mem, ROOT_PAGE), ROOT_FREE_OFFSET) == if ls.free == [] then NO_PAGE else ls.free[0]
    ensures ls.free != [] ==> ls.free[0] in ls.data && 0 < ls.free[0]
  {
    assert ls.free != [] ==> ls.free[0] in ls.free;
  }

  /** The table an insert fills: as it is, or with the fresh page at the head of the free list. */
  ghost function WithFreePage(h: Layout, mem: Memory, ls: Lists, cursor: int): (r: (Memory, Lists))
    requires HeapOk(h, mem, ls) && (ls.free == [] ==> Fresh(ls, cursor))
    ensures HeapOk(h, r.0, r.1) && r.1.free != []
    ensures r.1.free[0] == (if ls.free == [] then cursor else ls.free[0]) && r.1.full == ls.full
  {
    if ls.free == [] then
      AddPageKeeps(h, mem, ls, cursor);
      AddPage(h, mem, ls, cursor)
    else (mem, ls)
  }

  /** A cursor `extend` may answer: no page of the table yet. */
  ghost predicate Fresh(ls: Lists, c: int) {
    c !in ls.data && 0 < c < 0x8000_0000
  }

  /** One insert; `cursor` is used only when no page is free. */
  ghost function Insert(h: Layout, mem: Memory, ls: Lists, cursor: int, cells: seq<Cell>): (Memory, Lists)
    requires HeapOk(h, mem, ls) && TypesOf(cells) == h.types && (ls.free == [] ==> Fresh(ls, cursor))
  {
    var (mem1, ls1) := WithFreePage(h, mem, ls, cursor);
    HeapOkFillable(h, mem1, ls1, cells);
    FillHead(h, mem1, ls1, cells)
  }

  /** The head of the free list has a free slot for the tuple, and can be moved once it has it. */
  ghost predicate Fillable(h: Layout, mem: Memory, ls: Lists, cells: seq<Cell>) {
    && TypesOf(cells) == h.types && ls.free != []
    && Sized(h, At(h, mem, ls.free[0])) && CountFree(SlotMap(h, At(h, mem, ls.free[0]))) > 0
    && CanMove(h, StoreTuple(h, mem, ls.free[0], cells), ls)
  }

  lemma HeapOkFillable(h: Layout, mem: Memory, ls: Lists, cells: seq<Cell>)
    requires HeapOk(h, mem, ls) && ls.free != [] && TypesOf(cells) == h.types
    ensures Fillable(h, mem, ls, cells)
  {
    StoreTupleKeeps(h, mem, ls, cells);
    HeadCanMove(h, StoreTuple(h, mem, ls.free[0], cells), ls);
  }

  /** The head of the free list takes the tuple and, if that fills it, moves to the full list. */
  ghost function FillHead(h: Layout, mem: Memory, ls: Lists, cells: seq<Cell>): (Memory, Lists)
    requires Fillable(h, mem, ls, cells)
  {
    var stored := StoreTuple(h, mem, ls.free[0], cells);
    if HasSpace(h, stored, ls.free[0]) then (stored, ls) else MoveToFull(h, stored, ls)
  }

  lemma FillHeadKeeps(h: Layout, mem: Memory, ls: Lists, cells: seq<Cell>)
    requires HeapOk(h, mem, ls) && ls.free != [] && TypesOf(cells) == h.types
    ensures Fillable(h, mem, ls, cells)
    ensures var (mem', ls') := FillHead(h, mem, ls, cells);
            && HeapOk(h, mem', ls')
            && Contents(h, mem', ls') == Contents(h, mem, ls) + multiset{cells}
            && ls'.data == ls.data
  {
    HeapOkFillable(h, mem, ls, cells);
    StoreTupleKeeps(h, mem, ls, cells);
    var stored := StoreTuple(h, mem, ls.free[0], cells);
    if !HasSpace(h, stored, ls.free[0]) {
      MoveToFullKeeps(h, stored, ls);
    }
  }

  /** An insert keeps the invariant and adds exactly its tuple to the table; the data pages grow by
      the fresh page when there was no free one, and otherwise stay. */
  lemma InsertAddsOne(h: Layout, mem: Memory, ls: Lists, cursor: int, cells: seq<Cell>)
    requires HeapOk(h, mem, ls) && TypesOf(cells) == h.types && (ls.free == [] ==> Fresh(ls, cursor))
    ensures var (mem', ls') := Insert(h, mem, ls, cursor, cells);
            && HeapOk(h, mem', ls')
            && Contents(h, mem', ls') == Contents(h, mem, ls) + multiset{cells}
            && ls'.data == (if ls.free == [] then ls.data + {cursor} else ls.data)
  {
    if ls.free == [] {
      AddPageKeeps(h, mem, ls, cursor);
      var (mem1, ls1) := AddPage(h, mem, ls, cursor);
      FillHeadKeeps(h, mem1, ls1, cells);
    } else {
      FillHeadKeeps(h, mem, ls, cells);
    }
  }

  /** The stages of one insert: memory and lists with a free page, then at the end. */
  lemma InsertStages(h: Layout, mem: Memory, ls: Lists, cursor: int, cells: seq<Cell>)
    returns (mid: Memory, mids: Lists, end: Memory, ends: Lists)
    requires HeapOk(h, mem, ls) && TypesOf(cells) == h.types && (ls.free == [] ==> Fresh(ls, cursor))
    ensures mids.free != [] && mids.full == ls.full
    ensures mids.free[0] == (if ls.free == [] then cursor else ls.free[0])
    ensures if ls.free == [] then 0 < cursor < 0x8000_0000 && mid == AddPage(h, mem, ls, cursor).0 else mid == mem
    ensures Fillable(h, mid, mids, cells) && (end, ends) == FillHead(h, mid, mids, cells) == Insert(h, mem, ls, cursor, cells)
    ensures HeapOk(h, end, ends) && ends.data == if ls.free == [] then ls.data + {cursor} else ls.data
  {
    var filled := WithFreePage(h, mem, ls, cursor);
    mid, mids := filled.0, filled.1;
    HeapOkFillable(h, mid, mids, cells);
    InsertAddsOne(h, mem, ls, cursor, cells);
    var after := Insert(h, mem, ls, cursor, cells);
    end, ends := after.0, after.1;
  }

  /** Nothing an insert does reaches another disk. */
  lemma InsertOwnDisk(h: Layout, mem: Memory, ls: Lists, cursor: int, cells: seq<Cell>, k: Key)
    requires HeapOk(h, mem, ls) && TypesOf(cells) == h.types && (ls.free == [] ==> Fresh(ls, cursor))
    requires k.disk != h.disk
    ensures Insert(h, mem, ls, cursor, cells).0[k] == mem[k]
  {
  }

  /** Slot i of page c holds this tuple. */
  ghost predicate Holds(h: Layout, mem: Memory, c: int, i: nat, cells: seq<Cell>)
    requires h.Ok() && PagesSized(h, mem)
  {
    i < h.Slots() && SlotMap(h, At(h, mem, c))[i] && RowAt(h, At(h, mem, c), i) == cells
  }

  lemma FreePageKeepsRow(h: Layout, mem: Memory, ls: Lists, cursor: int, c: int, i: nat, row: seq<Cell>)
    requires HeapOk(h, mem, ls) && (ls.free == [] ==> Fresh(ls, cursor))
    requires c in ls.data && Holds(h, mem, c, i, row)
    ensures var (mem1, ls1) := WithFreePage(h, mem, ls, cursor); c in ls1.data && Holds(h, mem1, c, i, row)
  {
    if ls.free == [] {
      AddPageElsewhere(h, mem, ls, cursor, c);
    }
  }

  lemma AddPageElsewhere(h: Layout, mem: Memory, ls: Lists, cursor: int, c: int)
    requires h.Ok() && PagesSized(h, mem) && 0 < cursor < 0x8000_0000 && c != ROOT_PAGE && c != cursor
    ensures At(h, AddPage(h, mem, ls, cursor).0, c) == At(h, mem, c)
    ensures c in AddPage(h, mem, ls, cursor).1.data <==> c in ls.data
  {
  }

  /** Every tuple already in the table stays in its slot, even when its page is moved to the full
      list by this very insert. */
  lemma InsertKeepsRowsInPlace(h: Layout, mem: Memory, ls: Lists, cursor: int, cells: seq<Cell>, c: int, i: nat, row: seq<Cell>)
    requires HeapOk(h, mem, ls) && TypesOf(cells) == h.types && (ls.free == [] ==> Fresh(ls, cursor))
    requires c in ls.data && Holds(h, mem, c, i, row)
    ensures PagesSized(h, Insert(h, mem, ls, cursor, cells).0)
    ensures Holds(h, Insert(h, mem, ls, cursor, cells).0, c, i, row)
  {
    FreePageKeepsRow(h, mem, ls, cursor, c, i, row);
    var filled := WithFreePage(h, mem, ls, cursor);
    FillHeadKeepsRow(h, filled.0, filled.1, cells, c, i, row);
  }

  lemma FillHeadKeepsRow(h: Layout, mem: Memory, ls: Lists, cells: seq<Cell>, c: int, i: nat, row: seq<Cell>)
    requires HeapOk(h, mem, ls) && ls.free != [] && TypesOf(cells) == h.types
    requires c in ls.data && Holds(h, mem, c, i, row)
    ensures Fillable(h, mem, ls, cells)
    ensures PagesSized(h, FillHead(h, mem, ls, cells).0)
    ensures Holds(h, FillHead(h, mem, ls, cells).0, c, i, row)
  {
    FillHeadKeeps(h, mem, ls, cells);
    StoreTupleKeeps(h, mem, ls, cells);
    StoreKeepsRow(h, mem, ls.free[0], cells, c, i, row);
    var stored := StoreTuple(h, mem, ls.free[0], cells);
    if !HasSpace(h, stored, ls.free[0]) {
      MoveToFullKeeps(h, stored, ls);
      SameRow(h, At(h, stored, c), At(h, MoveToFull(h, stored, ls).0, c), i);
    }
  }

  lemma SameRow(h: Layout, a: Page, b: Page, i: nat)
    requires SameSlots(h, a, b) && i < h.Slots()
    ensures RowAt(h, a, i) == RowAt(h, b, i)
  {
    assert SlotRows(h, a)[i] == SlotRows(h, b)[i];
  }

  lemma StoreKeepsRow(h: Layout, mem: Memory, target: int, cells: seq<Cell>, c: int, i: nat, row: seq<Cell>)
    requires h.Ok() && PagesSized(h, mem) && TypesOf(cells) == h.types && Holds(h, mem, c, i, row)
    requires Sized(h, At(h, mem, target)) && PagesSized(h, StoreTuple(h, mem, target, cells))
    ensures Holds(h, StoreTuple(h, mem, target, cells), c, i, row)
  {
    var page := At(h, mem, target);
    match FirstFree(SlotMap(h, page))
    case None =>
    case Some(slot) =>
      if c == target {
        PutRowReads(h, page, slot, cells);
        PutRowRows(h, page, slot, cells, i);
      }
  }

  // ---------------------------------------------------------------- runs of inserts

  /** A table as the constructor leaves it on a new disk: stamped root, both lists empty. */
  function RootPage(page: Page): (r: Page)
    requires |page| >= 12
    ensures |r| == |page|
  {
    PutWord(PutWord(PutWord(page, STAMP_OFFSET, STAMP), ROOT_FREE_OFFSET, NO_PAGE), ROOT_FULL_OFFSET, NO_PAGE)
  }

  ghost function NewTable(h: Layout, mem: Memory): Memory
    requires h.Ok() && PagesSized(h, mem)
  {
    Put(h, mem, ROOT_PAGE, RootPage(At(h, mem, ROOT_PAGE)))
  }

  const EMPTY: Lists := Lists([], [], {})

  lemma NewTableOk(h: Layout, mem: Memory)
    requires h.Ok() && PagesSized(h, mem)
    requires forall c: int :: c != ROOT_PAGE ==> At(h, mem, c) == Zeros(h.pageSize)
    ensures HeapOk(h, NewTable(h, mem), EMPTY) && Contents(h, NewTable(h, mem), EMPTY) == multiset{}
  {
    var page := At(h, mem, ROOT_PAGE);
    var stamped := PutWord(page, STAMP_OFFSET, STAMP);
    WordAfterPut(page, STAMP_OFFSET, STAMP, STAMP_OFFSET);
    RootWords(stamped, ROOT_FREE_OFFSET, NO_PAGE);
    RootWords(PutWord(stamped, ROOT_FREE_OFFSET, NO_PAGE), ROOT_FULL_OFFSET, NO_PAGE);
    assert forall c: int :: c != ROOT_PAGE ==> At(h, NewTable(h, mem), c) == At(h, mem, c);
  }

  datatype Table = Table(mem: Memory, ls: Lists)

  ghost predicate TableOk(h: Layout, t: Table) {
    HeapOk(h, t.mem, t.ls)
  }

  ghost function TableRows(h: Layout, t: Table): Rows {
    if TableOk(h, t) then Contents(h, t.mem, t.ls) else multiset{}
  }

  /** A table depends only on the pages of its own disk. */
  lemma TableOfSamePages(h: Layout, t: Table, mem: Memory)
    requires TableOk(h, t) && forall c: int :: At(h, mem, c) == At(h, t.mem, c)
    ensures TableOk(h, Table(mem, t.ls)) && TableRows(h, Table(mem, t.ls)) == TableRows(h, t)
  {
    ChainFrame(h, t.mem, mem, Word(At(h, t.mem, ROOT_PAGE), ROOT_FREE_OFFSET), t.ls.free, FREE_OFFSET);
    ChainFrame(h, t.mem, mem, Word(At(h, t.mem, ROOT_PAGE), ROOT_FULL_OFFSET), t.ls.full, FULL_OFFSET);
    SamePagesOk(h, t, mem);
    ListRowsFrame(h, t.mem, mem, t.ls.free);
    ListRowsFrame(h, t.mem, mem, t.ls.full);
  }

  lemma SamePagesOk(h: Layout, t: Table, mem: Memory)
    requires TableOk(h, t) && PagesSized(h, mem) && forall c: int :: At(h, mem, c) == At(h, t.mem, c)
    ensures PagesOk(h, mem, t.ls)
  {
    forall c: int
      ensures HasSpace(h, mem, c) == HasSpace(h, t.mem, c)
    {
      assert At(h, mem, c) == At(h, t.mem, c);
    }
  }

  /** One insert from table a to table b. */
  ghost predicate Inserts(h: Layout, a: Table, b: Table, cursor: int, cells: seq<Cell>) {
    && TableOk(h, a) && TypesOf(cells) == h.types && (a.ls.free == [] ==> Fresh(a.ls, cursor))
    && (b.mem, b.ls) == Insert(h, a.mem, a.ls, cursor, cells)
  }

  /** A run of inserts, table by table. */
  ghost predicate IsRun(h: Layout, ts: seq<Table>, cursors: seq<int>, rows: seq<seq<Cell>>) {
    && |ts| == |rows| + 1 && |cursors| == |rows|
    && TableOk(h, ts[0])
    && forall i {:trigger rows[i]} :: 0 <= i < |rows| ==> Inserts(h, ts[i], ts[i + 1], cursors[i], rows[i])
  }

  /** Slot `slot` of data page c holds this tuple. */
  ghost predicate StoredAt(h: Layout, t: Table, c: int, slot: nat, row: seq<Cell>) {
    h.Ok() && PagesSized(h, t.mem) && c in t.ls.data && Holds(h, t.mem, c, slot, row)
  }

  /** The table an insert makes. */
  lemma After(h: Layout, t: Table, cursor: int, cells: seq<Cell>) returns (t': Table)
    requires TableOk(h, t) && TypesOf(cells) == h.types && (t.ls.free == [] ==> Fresh(t.ls, cursor))
    ensures Inserts(h, t, t', cursor, cells) && TableOk(h, t')
    ensures t'.mem == Insert(h, t.mem, t.ls, cursor, cells).0
    ensures t'.ls.data <= t.ls.data + {if t.ls.free == [] then cursor else t.ls.free[0]}
  {
    InsertAddsOne(h, t.mem, t.ls, cursor, cells);
    var after := Insert(h, t.mem, t.ls, cursor, cells);
    t' := Table(after.0, after.1);
  }

  /** One insert seen from outside: the table stays well formed, gains the tuple, loses no data page
      and moves no tuple. */
  lemma InsertsGains(h: Layout, a: Table, b: Table, cursor: int, cells: seq<Cell>)
    requires Inserts(h, a, b, cursor, cells)
    ensures TableOk(h, b) && TableRows(h, b) == TableRows(h, a) + multiset{cells}
    ensures b.ls.data == if a.ls.free == [] then a.ls.data + {cursor} else a.ls.data
  {
    InsertAddsOne(h, a.mem, a.ls, cursor, cells);
  }

  /** An insert reaches no page of another disk. */
  lemma InsertsOwnDisk(h: Layout, a: Table, b: Table, cursor: int, cells: seq<Cell>)
    requires Inserts(h, a, b, cursor, cells)
    ensures forall k: Key :: k.disk != h.disk ==> b.mem[k] == a.mem[k]
  {
    forall k: Key | k.disk != h.disk
      ensures b.mem[k] == a.mem[k]
    {
      InsertOwnDisk(h, a.mem, a.ls, cursor, cells, k);
    }
  }

  lemma InsertsKeepsPlace(h: Layout, a: Table, b: Table, cursor: int, cells: seq<Cell>, c: int, slot: nat, row: seq<Cell>)
    requires Inserts(h, a, b, cursor, cells) && StoredAt(h, a, c, slot, row)
    ensures StoredAt(h, b, c, slot, row)
  {
    InsertAddsOne(h, a.mem, a.ls, cursor, cells);
    InsertKeepsRowsInPlace(h, a.mem, a.ls, cursor, cells, c, slot, row);
  }

  lemma StepGains(h: Layout, ts: seq<Table>, cursors: seq<int>, rows: seq<seq<Cell>>, k: nat)
    requires IsRun(h, ts, cursors, rows) && k < |rows|
    ensures TableOk(h, ts[k + 1]) && TableRows(h, ts[k + 1]) == TableRows(h, ts[k]) + multiset{rows[k]}
  {
    assert Inserts(h, ts[k], ts[k + 1], cursors[k], rows[k]);
    InsertsGains(h, ts[k], ts[k + 1], cursors[k], rows[k]);
  }

  lemma PrefixGains(start: Rows, rows: seq<seq<Cell>>, k: nat)
    requires k < |rows|
    ensures start + multiset(rows[..k]) + multiset{rows[k]} == start + multiset(rows[..k + 1])
  {
    assert rows[..k + 1] == rows[..k] + [rows[k]];
  }

  /** Over every run of inserts, after each of them, the table is well formed and holds what it held
      plus exactly the tuples inserted so far. */
  lemma RunAddsAll(h: Layout, ts: seq<Table>, cursors: seq<int>, rows: seq<seq<Cell>>, i: nat)
    requires IsRun(h, ts, cursors, rows) && i <= |rows|
    ensures TableOk(h, ts[i])
    ensures TableRows(h, ts[i]) == TableRows(h, ts[0]) + multiset(rows[..i])
  {
    var start := TableRows(h, ts[0]);
    for k := 0 to i
      invariant TableOk(h, ts[k]) && TableRows(h, ts[k]) == start + multiset(rows[..k])
    {
      StepGains(h, ts, cursors, rows, k);
      PrefixGains(start, rows, k);
    }
  }

  /** From a new disk: the tables of every run hold exactly the tuples inserted. */
  lemma RunFromNewDisk(h: Layout, mem: Memory, ts: seq<Table>, cursors: seq<int>, rows: seq<seq<Cell>>, i: nat)
    requires h.Ok() && PagesSized(h, mem) && forall c: int :: c != ROOT_PAGE ==> At(h, mem, c) == Zeros(h.pageSize)
    requires IsRun(h, ts, cursors, rows) && ts[0] == Table(NewTable(h, mem), EMPTY) && i <= |rows|
    ensures TableOk(h, ts[i]) && TableRows(h, ts[i]) == multiset(rows[..i])
  {
    NewTableOk(h, mem);
    RunAddsAll(h, ts, cursors, rows, i);
  }

  lemma StepKeepsPlace(h: Layout, ts: seq<Table>, cursors: seq<int>, rows: seq<seq<Cell>>,
                       k: nat, c: int, slot: nat, row: seq<Cell>)
    requires IsRun(h, ts, cursors, rows) && 0 < k <= |rows| && StoredAt(h, ts[k - 1], c, slot, row)
    ensures StoredAt(h, ts[k], c, slot, row)
  {
    assert Inserts(h, ts[k - 1], ts[k], cursors[k - 1], rows[k - 1]);
    InsertsKeepsPlace(h, ts[k - 1], ts[k], cursors[k - 1], rows[k - 1], c, slot, row);
  }

  /** A tuple never moves: the slot that holds it at one point of a run holds it ever after. */
  lemma RunKeepsRowsInPlace(h: Layout, ts: seq<Table>, cursors: seq<int>, rows: seq<seq<Cell>>,
                            i: nat, j: nat, c: int, slot: nat, row: seq<Cell>)
    requires IsRun(h, ts, cursors, rows) && i <= j <= |rows|
    requires StoredAt(h, ts[i], c, slot, row)
    ensures StoredAt(h, ts[j], c, slot, row)
  {
    var k := i;
    while k < j
      invariant i <= k <= j && StoredAt(h, ts[k], c, slot, row)
    {
      StepKeepsPlace(h, ts, cursors, rows, k + 1, c, slot, row);
      k := k + 1;
    }
  }
}
