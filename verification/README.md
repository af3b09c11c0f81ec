# lewsql storage, modelled and verified

lewsql is the storage half of a small database. A heap table keeps fixed-width tuples in pages, a
buffer pool caches pages in frames, a disk manager lays numbered pages over flat files, and a packed
bitmap serves both the pool and the heap. A lexer stands beside them. This project models these layers
in Dafny and proves what each keeps over every run and how they compose. `dafny verify dfyconfig.toml`
checks all of it.

## Structure

| file | part |
|---|---|
| Bytes.dfy | bytes, buffers, little-endian words |
| Bitmap.dfy | packed bitmap: boolean-sequence meaning, class |
| Tuple.dfy | cells and tuples: codec, class |
| Disk.dfy, DiskManager.dfy | one paged file; the registry of files: states and runs |
| PosixDisk.dfy | the classes over them |
| Pool.dfy, PoolRuns.dfy, PoolCounts.dfy | the page cache as a state machine; runs; counting |
| BufferManager.dfy | frame, tracker, replacement and pool classes |
| HeapLayout.dfy, HeapSpec.dfy | page layout; page lists, inserts and runs over plain pages |
| HeapSpace.dfy | how many pages a table's file has |
| Heap.dfy | the heap class over the pool |
| HeapBytes.dfy | pages and inserts byte by byte |
| Durability.dfy | heap, pool and disk together |
| HeapRuns.dfy | clients: two tables over one pool; whole runs from a new disk to its file |
| Lexer.dfy | character stream and lexer |
| AsWritten.dfy | the code's departures from its purpose, with exact conditions |

Each layer exists twice. A class with the source's fields and methods changes state in place, and each
of its methods is proved equal to an operation on values; the laws are lemmas about these operations and
their runs. A file is a byte sequence and the directory a map from names to files.

What these operations do is also said apart from their definitions: the whole effect of each operation of
the pool (`PoolSpec.HitExactly`, `MissTakesFirstFree`, `MissEvictsFirstUnpinned`) and of the registry
(`StoreSpec.CreateExactly` to `DestroyExactly`), and every byte of what the bitmap, the tuples, the pages
and the files hold, in numbers.

What a client may do with the pool is fixed by a *ledger* of its own actions: it pins pages of loaded
disks in range, writes and unpins only pages it holds, and marks a page dirty before the last unpin if
it wrote to it (`PoolRuns.Allowed`). `PoolRuns.LastUnpinKeepsContentIff` says what the last rule is for.
The ledger is for what pages *contain*. The pool's structure, where pinned pages stand, when a pin
fails and how files grow are proved of runs by any clients (`PoolRuns.OpOk`).
Loaded ids name distinct files; `AsWritten.AliasedPagesAgreeIff` says why. The heap class threads the
ledger and the abstract table through its methods as ghost values, and is proved to follow the rules.

An insert requires two frames beyond those already pinned. Every pin of the heap goes through
`Heap.PinPage`, whose contract keeps the held pages within a bound `cap` that the caller of an insert
chooses, two above those held before: so two pages at once is a bound in pools of every size.

## Repairs

In these places the code as written does not do what it is evidently for. The model does the latter.
AsWritten.dfy keeps the former and says exactly for which inputs, if any, it does no harm; a table is
called well formed there when any lists at all satisfy the heap's invariant.

- `library/src/bitmap.cpp:10-14` rounds the byte count up on odd bit counts and allocates `num_bits / 8`
  bytes. Modelled: ceil(num_bits / 8) in both places.
- `organizers/src/heap.cpp:108` stores the disk id as head of the free list. Modelled: the new page.
- `organizers/src/heap.cpp:104-111` leaves a new page's links zero, which reads as page 0. Modelled: -1.
- `organizers/src/heap.cpp:139-143` appends a filled page to the full list and leaves it on the free
  list. Modelled: the free head moves on to that page's free link.
- `organizers/src/heap.cpp:120` computes a slot count that fits no page. Modelled: the largest that fits.
- `organizers/src/types/type.h:24` returns sizes as `bool`. Modelled: 1, 2 and 4.
- `buffer_manager/src/buffer_page_tracker/bitmap_tracker.cpp:15` throws another exception than the one
  `pin` catches. Modelled: no free frame means evict.
- The bodies of `pin`, `unpin`, `set_dirty`, `remove_page_mem_pool_map`, `free_avail_pages` and
  `get_victim` are commented out in the source. Modelled: the algorithm written there, the pool's
  memory being a fixed sequence of frames.

One oddity is kept: `extend` answers the page count plus one and grows nothing, so each time one page
number is skipped and the file grows when the new page is first read.

## Model

| member | source | states |
|---|---|---|
| `PoolRuns.CacheRefinesMemory` | buffer_manager/src/buffer_manager.cpp:119-163 | over every disciplined run of pins, unpins, dirty marks, client writes and flushes, with whatever evictions these cause, every (disk, page) logically holds exactly what uncached pages would hold after the same writes; the registry is untouched |
| `PoolRuns.FlushedRunIsOnDisk` | buffer_manager/src/buffer_manager.cpp:90-103 | after such a run, a flush leaves on disk exactly the uncached result for every page nobody holds |
| `PoolCounts.RunKeepsStructure` | buffer_manager/src/buffer_manager.cpp:9-73 | at the end of every run, by clients that keep no rules and with two ids for one file included: two keys never share a frame, a frame's bit is set iff the map leads from the frame's own key to it, no inner map is empty, and there are as many map entries as bits set |
| `PoolRuns.PinnedPageStays` | buffer_manager/src/buffer_manager.cpp:119-163 | in every run, whatever its clients do: as long as a page is pinned it stays in the same frame and the frame's bytes are the ones last stored through it |
| `PoolRuns.DisciplinedRunIsPoolRun` | buffer_manager/src/buffer_manager.cpp:90-172 | a run of clients that keep the rules is one of these runs, so its pool is the same and what holds of every run holds of it |
| `PoolRuns.LastUnpinKeepsContentIff` | buffer_manager/src/buffer_manager.cpp:105-117 | flushing after the last unpin keeps the page's content iff the frame was marked dirty or its bytes are the disk's |
| `PoolCounts.PinFailsIffAllPinned` | buffer_manager/src/buffer_manager.cpp:119-163 | in every well-formed pool: `pin` fails iff the page is not cached and every frame is taken and pinned, and then the pool is unchanged; otherwise the pin count of exactly that page rises by one |
| `HeapSpec.RunFromNewDisk` | organizers/src/heap.cpp:24-42 | after any number of inserts into a new table the list invariant holds and the table's tuples are exactly the multiset of those inserted |
| `HeapSpec.RunKeepsRowsInPlace` | organizers/src/heap.cpp:97-149 | a tuple never moves: the slot that holds it after some insert of a run holds it after every later one, page moves included |
| `Heaps.Heap.InsertTuple` | organizers/src/heap.cpp:97-149 | over the pool: one call makes exactly one abstract insert on the pages clients see, keeps the invariant and restores every pin count; for any bound `cap` of at least two pages more than are held, in a pool of any size, no pin on the way brings the held pages above `cap`; the file grows by two pages iff no page was free, and no other file grows; the tuple's bytes stand at 8 + ceil(slots/8) + i * t of the page it goes to, i the first clear slot there |
| `Durability.FlushedTableIsOnDisk` | buffer_manager/src/buffer_manager.cpp:90-103 | heap, pool and disk together: when nobody holds a page of the table's disk, flushing the pool leaves the well-formed table with all its tuples in the table's file |
| `Durability.ReloadKeepsPagesIff` | organizers/src/heap.h:29-31 | a disk unloaded while its pages are cached, as the heap's destructor does, then a flush, then the file loaded again: the new id shows everything the clients had stored iff no cached page of the disk differed from its file |
| `Durability.OnlyDirtyPagesAreLost` | organizers/src/heap.h:29-31 | for clients that keep the rules and hold no page of the disk: iff every dirty page of it already equalled its disk page |
| `Durability.FlushBeforeUnload` | buffer_manager/src/buffer_manager.cpp:90-103 | a flush before the unload loses nothing: the new id shows every page as the clients left it |
| `Durability.UnnamedFileStays` | buffer_manager/src/buffer_manager.cpp:22-52 | a file no loaded id names keeps its bytes through a flush, whatever is cached |
| `HeapRuns.FillNewDisk` | organizers/src/heap.cpp:24-149 | the whole stack from nothing: a pool of any two or more frames, a table on a new disk, any tuples the disk has room for, a flush; the id answered names the table's own file, the files alone hold a well-formed table of exactly those tuples in exactly 1 + 2 * ceil(n / slots) pages, and every page of every other id is as it was |
| `HeapSpace.PagesAfterInserts` | organizers/src/heap.cpp:97-149 | after n inserts into a new table its file has exactly 1 + 2 * ceil(n / slots) pages |
| `HeapSpace.RunFitsIff` | organizers/src/heap.cpp:104-117 | all the fresh pages of a run of n inserts can be pinned iff that many pages stay below the maximum size |
| `FileRuns.FileRefinesPageMap` | disk_manager/src/impl/posix_disk.cpp:120-183 | a flat file that grows with zeros cannot be told from a map of numbered pages defaulting to zeros: same answers and same pages over every run of reads and writes, size aligned and below the maximum |
| `StoreSpec.IdsAreNeverReused` | disk_manager/src/impl/posix_disk_manager.cpp:24-96 | over every run of registry and page operations handed-out ids are consecutive, an id keeps its name while loaded, and one not loaded stays so |
| `LexerSpec.LexDecomposes` | compiler/src/lexer/lexer.cpp:6-30 | the tokens of any text without byte 0xFF, with the whitespace between them, make up the text; every token is non-empty and free of whitespace and two tokens are always separated |
| `LexerSpec.LexOfJoin` | compiler/src/lexer/lexer.cpp:6-30 | any text put together from tokens and separating whitespace lexes back to those tokens |
| `LexerSpec.WhitespaceCharacters` | compiler/src/lexer/lexer.cpp:22-24 | whitespace is space, tab, newline and carriage return; the newline is 10 and the unreadable byte is a `char` of -1 |
| `PoolSpec.AddEntryFinds` | buffer_manager/src/buffer_manager.cpp:9-20 | adding an entry changes the look-up of its key alone and leaves no inner map empty |
| `PoolSpec.RemoveEntryFinds` | buffer_manager/src/buffer_manager.cpp:45-51 | removing an entry changes the look-up of its key alone; an inner map goes with its last entry |
| `PoolSpec.Victim` | buffer_manager/src/replacement/dumb_alg.cpp:10-25 | the victim is the least frame that is taken and unpinned; there is none iff no frame is |
| `PoolSpec.VictimUnique` | buffer_manager/src/replacement/dumb_alg.cpp:10-25 | that description has one answer |
| `PoolSpec.EvictKeeps` | buffer_manager/src/buffer_manager.cpp:22-52 | an eviction keeps the pool's structure and forgets exactly the victim's key |
| `PoolSpec.EvictFreesOne` | buffer_manager/src/buffer_manager.cpp:90-103 | an eviction lowers the number of taken frames by one: the measure of `free_avail_pages` |
| `PoolSpec.FillKeeps` | buffer_manager/src/buffer_manager.cpp:154-158 | loading a page into a free frame keeps the structure, cached pages staying inside their files, and adds exactly its key |
| `PoolSpec.PinKeeps` | buffer_manager/src/buffer_manager.cpp:119-163 | `pin` keeps the structure, and the page is cached afterwards iff the pin succeeds |
| `PoolSpec.PinFrame` | buffer_manager/src/buffer_manager.cpp:119-163 | a hit leaves the page where it is, and `pin` fails iff there is neither a hit nor a slot for a miss; which slot, the next two rows say |
| `PoolSpec.MissTakesFirstFree` | buffer_manager/src/buffer_manager.cpp:137-158 | while a frame is free, a miss puts the page, pinned once and clean, in the first clear index of the allocation bits; every other page stays cached where it is, and nothing is written back |
| `PoolSpec.MissEvictsFirstUnpinned` | buffer_manager/src/buffer_manager.cpp:143-158 | with every frame taken, a miss uses the first unpinned one: exactly the page there is forgotten, and its file page changes iff it was dirty; every other page stays cached where it is |
| `PoolSpec.HitExactly` | buffer_manager/src/buffer_manager.cpp:105-172 | on a cached page `pin`, `unpin`, `set_dirty` and a client's store each change one field of that page's frame and nothing else of the pool |
| `PoolSpec.MissUnchanged` | buffer_manager/src/buffer_manager.cpp:105-172 | on a page not cached `unpin`, `set_dirty` and a store change nothing |
| `PoolRuns.EvictLinked` | buffer_manager/src/buffer_manager.cpp:22-52 | an eviction is invisible: no page changes its logical content, and unpinned clean frames still equal their disk pages |
| `PoolRuns.FillLinked` | buffer_manager/src/buffer_manager.cpp:154-158 | loading a page into a free frame is invisible too, and counts as one pin by the client |
| `PoolRuns.PinLinked` | buffer_manager/src/buffer_manager.cpp:119-163 | `pin` changes no logical content and keeps frames, pins and disk in agreement with what the clients did |
| `PoolRuns.UnpinLinked` | buffer_manager/src/buffer_manager.cpp:105-117 | an `unpin` by a client that marked what it wrote changes no logical content and keeps the invariant |
| `PoolRuns.SetDirtyLinked` | buffer_manager/src/buffer_manager.cpp:165-172 | `set_dirty`, on a cached page or not, changes no logical content and keeps the invariant |
| `PoolRuns.WriteLinked` | buffer_manager/src/buffer_page.h:32-57 | a client's store through a held page changes that page's logical content to what was stored and no other's |
| `PoolRuns.FreeAvailLinked` | buffer_manager/src/buffer_manager.cpp:90-103 | `free_avail_pages` leaves cached exactly the pinned pages, in their frames, and changes no logical content |
| `PoolRuns.DroppedPagesAreOnDisk` | buffer_manager/src/buffer_manager.cpp:90-103 | the disk bytes of every page it dropped equal the page's logical content |
| `PoolRuns.FreeAvailWritesBack` | buffer_manager/src/buffer_manager.cpp:90-103 | without any assumption on clients: it writes back exactly the unpinned dirty frames |
| `PoolRuns.StepLinked` | buffer_manager/src/buffer_manager.cpp:90-172 | each of the five operations keeps the invariant and acts on logical contents as on plain pages |
| `PoolRuns.StepStable` | buffer_manager/src/buffer_manager.cpp:90-172 | no single operation, allowed or not, moves a pinned page or changes its bytes, but for a store to it |
| `PoolRuns.StepOk` | buffer_manager/src/buffer_manager.cpp:90-172 | every operation, by clients that keep no rules, keeps the pool's structure and the registry |
| `PoolRuns.PoolRunSplits` | buffer_manager/src/buffer_manager.cpp:90-172 | a run does its operations one after the other, each on the pool the earlier ones left |
| `PoolRuns.FreeAvailKeeps` | buffer_manager/src/buffer_manager.cpp:90-103 | `free_avail_pages` unmaps exactly the pages nobody has pinned and changes no frame, in every well-formed pool |
| `PoolRuns.EmptyPoolLinked` | buffer_manager/src/buffer_manager.cpp:9-20 | a pool with nothing cached satisfies the invariant and shows the disk |
| `PoolRuns.CreateLinked` | disk_manager/src/impl/posix_disk_manager.cpp:24-32 | creating a disk under a running pool disturbs no other page, and the new disk's pages all read as zeros, unpinned |
| `PoolCounts.EntriesEqualTakenBits` | buffer_manager/src/buffer_manager.cpp:9-52 | the map has as many entries as the allocation bitmap has bits set |
| `PoolCounts.HeldFramesAreHeldPages` | buffer_manager/src/buffer_manager.cpp:105-163 | the frames that cannot be evicted are as many as the distinct pages clients hold |
| `PoolCounts.PinSucceedsIffFrameSpare` | buffer_manager/src/buffer_manager.cpp:119-163 | so a client that counts pins knows: `pin` succeeds iff the page is cached or fewer pages are held than there are frames |
| `PoolCounts.StepPageCounts` | disk_manager/src/impl/posix_disk.cpp:120-140 | where loaded ids name distinct files: a pin that succeeds makes its file reach exactly up to its page if it did not before; nothing else changes the length of any file |
| `PoolCounts.RunPagesMonotone` | disk_manager/src/impl/posix_disk.cpp:120-140 | over every run, two ids for one file included, no file shrinks |
| `PoolCounts.ExtendIsFresh` | disk_manager/src/impl/posix_disk_manager.cpp:128-137 | the cursor `extend` answers is the page count plus one: never the root page, a page of the file or a cached page, and its page holds zeros |
| `PoolCounts.ExtendThenPinIncreases` | disk_manager/src/impl/posix_disk_manager.cpp:128-137 | once that page has been pinned, any later `extend`, whatever any client did in between, answers a larger cursor |
| `BufferPages.BufferPage.Init` | buffer_manager/src/buffer_manager.cpp:154 | sets every field of the frame and leaves its bytes |
| `BufferPages.BufferPage.ToPtr` | buffer_manager/src/buffer_page.h:32-41 | an offset at or past the page size is refused |
| `BufferPages.BufferPage.LoadInt32` | buffer_manager/src/buffer_page.h:32-41 | reads the little-endian word at an offset, or is refused |
| `BufferPages.BufferPage.StoreInt32` | buffer_manager/src/buffer_page.h:32-41 | changes the four bytes of the word and no other, or is refused and changes nothing |
| `BufferPages.BufferPage.Memcpy` | buffer_manager/src/buffer_page.h:43-57 | elements of any width: a copy that would pass the end of the page is refused whole; otherwise they replace the page's bytes from the offset on, one after the other (`Bytes.ConcatPlaces`) |
| `Bytes.ConcatPlaces` | buffer_manager/src/buffer_page.h:43-57 | element i starts at i times the width |
| `BitmapTrackers.BitmapTracker.GetNumFreePages` | buffer_manager/src/buffer_page_tracker/bitmap_tracker.cpp:5-7 | counts the frames not taken |
| `BitmapTrackers.BitmapTracker.GetNumTakenPages` | buffer_manager/src/buffer_page_tracker/bitmap_tracker.cpp:9-11 | counts the frames taken |
| `BitmapTrackers.BitmapTracker.GetNextFreePage` | buffer_manager/src/buffer_page_tracker/bitmap_tracker.cpp:14-16 | the least free frame, or none |
| `BitmapTrackers.BitmapTracker.SetPageStatus` | buffer_manager/src/buffer_page_tracker/bitmap_tracker.cpp:18-20 | changes one frame's status |
| `BitmapTrackers.BitmapTracker.GetPageStatus` | buffer_manager/src/buffer_page_tracker/bitmap_tracker.cpp:22-24 | answers one frame's status |
| `Replacement.DumbAlg.GetVictim` | buffer_manager/src/replacement/dumb_alg.cpp:10-25 | the scan answers the first taken, unpinned frame and fails only when there is none |
| `BufferManagers.BufferManager.AddPageMemPoolMap` | buffer_manager/src/buffer_manager.cpp:9-20 | enters the key in the two-level map and sets the frame's bit |
| `BufferManagers.BufferManager.GetPageMemPoolMap` | buffer_manager/src/buffer_manager.cpp:54-73 | answers the key's frame, or which level of the map lacks it |
| `BufferManagers.BufferManager.RemovePageMemPoolMap` | buffer_manager/src/buffer_manager.cpp:22-52 | writes a dirty victim back and drops it: exactly the abstract eviction |
| `BufferManagers.BufferManager.Pin` | buffer_manager/src/buffer_manager.cpp:119-163 | makes the abstract pin; answers the object that holds the page, or OUT_OF_PAGES |
| `BufferManagers.BufferManager.HeldPage` | buffer_manager/src/buffer_manager.cpp:119-163 | the buffer of the object a pin answered is the page's logical content while the page is cached |
| `BufferManagers.BufferManager.Unpin` | buffer_manager/src/buffer_manager.cpp:105-117 | makes the abstract unpin; throws, changing nothing, iff the page is not cached |
| `BufferManagers.BufferManager.SetDirty` | buffer_manager/src/buffer_manager.cpp:165-172 | marks the page's frame; throws, changing nothing, iff the page is not cached |
| `BufferManagers.BufferManager.FreeAvailPages` | buffer_manager/src/buffer_manager.cpp:90-103 | the loop ends and makes the abstract flush |
| `BufferManagers.BufferManager.constructor` | buffer_manager/src/buffer_manager.h:19-26 | nothing cached; the pool owns the frames, their buffers, the bitmap and the disk manager's objects and no other |
| `HeapLayout.SlotCountIsLargest` | organizers/src/heap.cpp:18-21 | for every page and tuple size, n slots fit iff n is at most floor(8(P-8)/(8t+1)) |
| `HeapLayout.RegionsDisjoint` | organizers/src/heap.cpp:18-21 | link words, bitmap and all tuple slots are pairwise disjoint and inside the page |
| `HeapLayout.LayoutInNumbers` | organizers/src/heap.cpp:18-21 | n slots of t bytes fit iff 8 + ceil(n/8) + n * t is at most the page size; slot i starts at 8 + ceil(slots/8) + i * t |
| `HeapLayout.SlotInNumbers` | organizers/src/heap.cpp:123-137 | slot i is taken iff the bit of weight 2^(i mod 8) is set in byte 8 + i/8, and its tuple is what the bytes at 8 + ceil(slots/8) + i * t decode to |
| `HeapLayout.PutRowBytesAre` | organizers/src/heap.cpp:123-137 | every byte of a page that has taken a tuple: the tuple's bytes at 8 + ceil(slots/8) + i * t, the slot's bit in byte 8 + i/8, every other byte as before |
| `HeapLayout.PutLinkKeepsSlots` | organizers/src/heap.cpp:89 | a link write changes no slot's bit or tuple and not the other link |
| `HeapLayout.PutRowReads` | organizers/src/heap.cpp:123-137 | storing a tuple sets one slot bit and leaves both links |
| `HeapLayout.PutRowRows` | organizers/src/heap.cpp:133-137 | the slot reads back as the tuple stored, every other slot as before |
| `HeapLayout.PutRowIsOneMore` | organizers/src/heap.cpp:123-137 | the page's tuples gain exactly that tuple |
| `HeapLayout.ZeroPageIsEmpty` | organizers/src/heap.cpp:117-125 | a page of zeros holds no tuple and has every slot free |
| `HeapSpec.ChainAppend` | organizers/src/heap.cpp:58-92 | redirecting the last link of an acyclic list appends a page to it |
| `HeapSpec.ChainLinks` | organizers/src/heap.cpp:71-82 | each page's link word is its successor, or -1 at the end |
| `HeapSpec.AddPageKeeps` | organizers/src/heap.cpp:104-111 | a fresh page at the head of the empty free list keeps the invariant and the tuples |
| `HeapSpec.StoreTupleKeeps` | organizers/src/heap.cpp:123-137 | the head of the free list has a free slot, so the insert's asserts hold; storing in it adds exactly that tuple |
| `HeapSpec.UnlinkHeadKeeps` | organizers/src/heap.cpp:139-143 | taking the head off the free list keeps both lists well formed and touches the root page only |
| `HeapSpec.AppendFullKeeps` | organizers/src/heap.cpp:58-92 | the full list becomes itself plus the page; no slot of any page changes |
| `HeapSpec.AppendChangesOneWord` | organizers/src/heap.cpp:58-92 | of all pages only the end page changes, and in it only the four bytes of its link |
| `HeapSpec.MoveToFullKeeps` | organizers/src/heap.cpp:139-143 | moving a filled head restores the invariant, changes no tuple and no slot |
| `HeapSpec.RootFreeWord` | organizers/src/heap.cpp:46-56 | the root's free word is the head of the free list, never page 0, or -1 |
| `HeapSpec.InsertAddsOne` | organizers/src/heap.cpp:97-149 | an insert keeps the invariant and adds exactly its tuple; the data pages grow by the fresh page iff none was free |
| `HeapSpec.InsertKeepsRowsInPlace` | organizers/src/heap.cpp:97-149 | every tuple already there stays in its slot |
| `HeapSpec.NewTableOk` | organizers/src/heap.cpp:34-41 | the constructor's root page on a disk of zeros is an empty well-formed table |
| `HeapBytes.RootPageBytes` | organizers/src/heap.cpp:34-41 | the constructor's root page starts with the bytes 1, 0, 0, 0 and eight times 0xFF, and keeps the rest |
| `HeapBytes.AddPageBytes` | organizers/src/heap.cpp:104-111 | adding a page puts its number, least significant byte first, in bytes 4 to 7 of the root page, and 0xFF in the page's own first eight bytes; no other byte changes |
| `HeapBytes.UnlinkHeadBytes` | organizers/src/heap.cpp:139-143 | taking a page off the free list copies its bytes 0 to 3 to bytes 4 to 7 of the root page; no other byte changes |
| `HeapBytes.AppendFullBytes` | organizers/src/heap.cpp:58-92 | appending a page puts its number in bytes 8 to 11 of the root page if the full list was empty, else in bytes 4 to 7 of its last page; no other byte changes |
| `HeapBytes.InsertLands` | organizers/src/heap.cpp:97-149 | one insert, whole: the page it fills takes the tuple in the first clear slot and keeps every other byte but the slot's bit; it moves to the end of the full list iff that was its last slot; of the root page only the list words change, of the full list's last page only its full link, and no other page |
| `HeapBytes.InsertBytes` | organizers/src/heap.cpp:123-137 | so the tuple's bytes stand at 8 + ceil(slots/8) + i * t of that page, i the first clear slot |
| `HeapSpec.RunAddsAll` | organizers/src/heap.cpp:97-149 | after every insert of any run the table is well formed and holds what it held plus the tuples inserted so far |
| `HeapSpec.InsertsOwnDisk` | organizers/src/heap.cpp:97-149 | an insert changes no page of another disk |
| `HeapSpec.TableOfSamePages` | organizers/src/heap.cpp:97-149 | a table depends on the pages of its own disk only |
| `HeapSpace.InsertPacks` | organizers/src/heap.cpp:97-149 | a table that only had inserts has at most one free page and no empty one; an insert takes one slot, and a page more iff none was free |
| `HeapSpace.PackedPageCount` | organizers/src/heap.cpp:97-149 | so it has ceil(tuples / slots) data pages |
| `HeapSpace.CeilDivRoundsUp` | organizers/src/heap.cpp:97-149 | the quotient meant is the one rounded up |
| `Heaps.TakeSlot` | organizers/src/heap.cpp:123-129 | takes the first free slot: sets its bit in the page, answers the slot and the bitmap |
| `Heaps.FillSlot` | organizers/src/heap.cpp:119-140 | and writes the tuple there, at 8 + ceil(slots/8) + i * t, answering how many slots are left |
| `Heaps.Heap.constructor` | organizers/src/heap.cpp:24-42 | on a new disk, named after the table: an empty well-formed table, the root page 1, 0, 0, 0 and eight times 0xFF and then zeros, the disk's other pages zeros, no other page changed, no pin left behind |
| `Heaps.Heap.FindFreePage` | organizers/src/heap.cpp:46-56 | answers the root's free word, -1 as none; pages and pins are as before |
| `Heaps.Heap.WalkFullList` | organizers/src/heap.cpp:71-82 | the walk ends on the last page of the full list, whatever its length, holding it and no other |
| `Heaps.Heap.AppendToFullPages` | organizers/src/heap.cpp:58-92 | makes the abstract append; every pin is given back |
| `Heaps.Heap.MoveHeadToFull` | organizers/src/heap.cpp:139-143 | makes the abstract move |
| `Heaps.Heap.GetFreePage` | organizers/src/heap.cpp:100-117 | answers the head of the free list or a fresh page, held, with the root updated |
| `Heaps.Heap.PinPage` | organizers/src/heap.cpp:46-117 | every pin of the heap: within the bound on held pages, and growing at most its own file |
| `Heaps.Heap.StaysValid` | organizers/src/heap.cpp:97-149 | a table stays valid through anything that keeps its pages' content and does not shrink its file |
| `HeapRuns.InsertBeside` | organizers/src/heap.cpp:97-149 | an insert into one table over a pool keeps every other table over it valid, with the tuples it had |
| `HeapRuns.InsertAll` | organizers/src/heap.cpp:97-149 | a whole run of inserts: none fails for want of space on a disk with room for all, the table gains exactly the tuples in exactly the pages they need, and pages of other disks stay |
| `FileSpec.GrowKeepsPages` | disk_manager/src/impl/posix_disk.cpp:132-135 | growing a file changes no page |
| `FileSpec.OverwriteUpdatesOnePage` | disk_manager/src/impl/posix_disk.cpp:142-158 | a page write changes that page and no other, even when the file grows |
| `FileSpec.FileIsItsPages` | disk_manager/src/impl/posix_disk.cpp:120-170 | a file is its pages in order, one after the other |
| `FileSpec.ResizeBytes` | disk_manager/src/impl/posix_disk.cpp:172-183 | resizing keeps the bytes that stay inside and adds zeros |
| `FileRuns.ReadFileKeeps` | disk_manager/src/impl/posix_disk.cpp:160-170 | a read answers the page, changes no page, and fails iff the page would reach the maximum size |
| `FileRuns.WriteFileUpdates` | disk_manager/src/impl/posix_disk.cpp:142-158 | a write changes exactly its page, and fails, changing nothing, under the same condition |
| `FileRuns.OperationLimits` | disk_manager/src/impl/posix_disk.cpp:120-140 | both fail, changing nothing, iff (c + 1) * page size reaches the maximum, and else the file ends at least there |
| `FileRuns.FileRunSplits` | disk_manager/src/impl/posix_disk.cpp:142-170 | a run does its operations one after the other |
| `PosixDisks.PosixDisk.Init` | disk_manager/src/impl/posix_disk.cpp:53-73 | opens a file that exists, or creates one that does not, as asked, and else says which |
| `PosixDisks.PosixDisk.PrepareRw` | disk_manager/src/impl/posix_disk.cpp:120-140 | in 32-bit arithmetic and for any cursor: checks the bound, grows the file to the size computed and seeks to the offset computed; the seek fails, the file already grown, iff that offset is 2^32 - 1 |
| `PosixDisks.PosixDisk.PreparedIff` | disk_manager/src/impl/posix_disk.cpp:120-140 | in numbers, for any cursor: DISK_EXCEEDS_MAX_SIZE iff (c + 1) * size mod 2^32 reaches the maximum, else the file is grown to that and the seek fails iff c * size mod 2^32 is 0xFFFFFFFF |
| `PosixDisks.PosixDisk.Write` | disk_manager/src/impl/posix_disk.cpp:142-158 | for any cursor: the page's bytes stand at the 32-bit offset, in a file grown as far as that takes; it fails exactly where the preparation does |
| `PosixDisks.PosixDisk.Read` | disk_manager/src/impl/posix_disk.cpp:160-170 | for any cursor: the bytes at the 32-bit offset, or READ_DISK_ERROR where the wrapped size left the file too short; the buffer then starts with the bytes there were and keeps the rest |
| `PosixDisks.PosixDisk.ChunkBytes` | disk_manager/src/impl/posix_disk.cpp:160-170 | a read stores the bytes from its offset on, a page of them or as many as there are |
| `PosixDisks.PosixDisk.PageOperations` | disk_manager/src/impl/posix_disk.cpp:120-170 | where the page's offsets do not wrap the two are the abstract page operations, no seek fails and no read is short |
| `PosixDisks.PosixDisk.Truncate` | disk_manager/src/impl/posix_disk.cpp:172-183 | cuts the file off, or extends it with zeros |
| `StoreSpec.ReadPageKeeps` | disk_manager/src/impl/posix_disk_manager.cpp:87-96 | a read through an id answers the page and changes none; afterwards the page is inside the file |
| `StoreSpec.ReadPageCounts` | disk_manager/src/impl/posix_disk_manager.cpp:87-96 | and grows that file exactly up to the page, no other file |
| `StoreSpec.PageOperationFails` | disk_manager/src/impl/posix_disk_manager.cpp:76-96 | page operations answer DISK_NOT_FOUND iff the id is not loaded or its file is gone, DISK_EXCEEDS_MAX_SIZE iff the page would reach the maximum, and then change nothing |
| `StoreSpec.WritePageUpdates` | disk_manager/src/impl/posix_disk_manager.cpp:76-85 | a write through an id changes exactly its page, provided loaded ids name distinct files |
| `StoreSpec.AliasSeesWrites` | disk_manager/src/impl/posix_disk_manager.cpp:76-96 | two ids for one name see each other's writes |
| `StoreSpec.LoadedTwiceIsShared` | disk_manager/src/impl/posix_disk_manager.cpp:56-96 | a name loaded twice gives two ids, each reading what the other wrote |
| `StoreSpec.UnloadedNeverResolves` | disk_manager/src/impl/posix_disk_manager.cpp:68-74 | an unloaded id answers DISK_NOT_FOUND for ever |
| `StoreSpec.DestroyedForAllAliases` | disk_manager/src/impl/posix_disk_manager.cpp:44-54 | destroying a disk through one id makes every page operation through another id for it answer DISK_NOT_FOUND until the file is created again |
| `StoreSpec.RecreatedReadsZeros` | disk_manager/src/impl/posix_disk_manager.cpp:24-32 | creating it again revives the other id, on a file of zeros |
| `StoreSpec.FullNameInjective` | disk_manager/src/impl/posix_disk_manager.cpp:20-22 | different names have different files |
| `StoreSpec.CreateExactly` | disk_manager/src/impl/posix_disk_manager.cpp:24-32 | creating fails, changing nothing, iff `prefix.disk` exists; else it adds that file, empty, and the next id for it, and keeps every other file and id |
| `StoreSpec.LoadExactly` | disk_manager/src/impl/posix_disk_manager.cpp:56-66 | loading fails, changing nothing, iff the file does not exist; else it adds the next id, and keeps every file and every other id |
| `StoreSpec.UnloadExactly` | disk_manager/src/impl/posix_disk_manager.cpp:68-74 | unloading forgets that id and keeps every file and every other id; it fails iff the id is not loaded |
| `StoreSpec.DestroyExactly` | disk_manager/src/impl/posix_disk_manager.cpp:44-54 | destroying removes the id's file and the id, and keeps every other file, with its bytes, and every other id; it fails, changing nothing, iff the id or its file is missing |
| `StoreSpec.StoreStepFrame` | disk_manager/src/impl/posix_disk_manager.cpp:24-96 | no operation touches a file other than the one it is on; an id stays loaded, for its name, until it is itself unloaded or destroyed |
| `StoreSpec.FileLeftAlone` | disk_manager/src/impl/posix_disk_manager.cpp:24-96 | over every run: a file no operation is on keeps its bytes, whatever becomes of the others |
| `StoreSpec.LoadedUntilDropped` | disk_manager/src/impl/posix_disk_manager.cpp:24-96 | over every run: an id stays loaded, for its name, unless it is itself unloaded or destroyed |
| `StoreSpec.StoreRunSplits` | disk_manager/src/impl/posix_disk_manager.cpp:24-96 | a run does its operations one after the other, and collects the ids in order |
| `PosixDiskManagers.PosixDiskManager.Create` | disk_manager/src/impl/posix_disk_manager.cpp:24-32 | creates and loads, or answers DISK_ALREADY_EXISTS |
| `PosixDiskManagers.PosixDiskManager.Load` | disk_manager/src/impl/posix_disk_manager.cpp:56-66 | hands out the next id, or answers DISK_NOT_FOUND |
| `PosixDiskManagers.PosixDiskManager.Unload` | disk_manager/src/impl/posix_disk_manager.cpp:68-74 | forgets the id, or answers DISK_NOT_FOUND |
| `PosixDiskManagers.PosixDiskManager.Destroy` | disk_manager/src/impl/posix_disk_manager.cpp:44-54 | removes the id's file, no other, and the id, or answers DISK_NOT_FOUND and changes nothing (`StoreSpec.DestroyExactly`) |
| `PosixDiskManagers.PosixDiskManager.Write` | disk_manager/src/impl/posix_disk_manager.cpp:76-85 | makes the abstract page write |
| `PosixDiskManagers.PosixDiskManager.Read` | disk_manager/src/impl/posix_disk_manager.cpp:87-96 | makes the abstract page read |
| `PosixDiskManagers.PosixDiskManager.DiskByteSize` | disk_manager/src/impl/posix_disk_manager.cpp:148-156 | answers the size of the id's file |
| `PosixDiskManagers.PosixDiskManager.Extend` | disk_manager/src/impl/posix_disk_manager.cpp:128-137 | answers the page count plus one and changes nothing |
| `BitmapSpec.SetBitRefines` | library/src/bitmap.cpp:55-61 | a set changes the addressed bit and no other, in its byte or elsewhere |
| `BitmapSpec.BitPosition` | library/src/bitmap.cpp:5-7 | bit i is the one of weight 2^(i mod 8) in byte i/8 |
| `BitmapSpec.SetBitStores` | library/src/bitmap.cpp:55-61 | a set that changes the bit adds or takes that weight, and any other leaves the byte |
| `BitmapSpec.Ceil8Least` | library/src/bitmap.cpp:9-16 | the byte count meant is the least with room for the bits |
| `BitmapSpec.FreePlusTaken` | library/src/bitmap.cpp:37-39 | free plus taken is the number of bits |
| `BitmapSpec.CountFreeOccurrences` | library/src/bitmap.cpp:26-35 | the free count is how often a clear bit occurs |
| `BitmapSpec.CountFreeSet` | library/src/bitmap.cpp:26-61 | the free count moves by one iff the bit flips |
| `BitmapSpec.FirstFreeNoneIffFull` | library/src/bitmap.cpp:41-49 | there is no first free bit iff the free count is 0 |
| `BitmapSpec.FirstFreeUnique` | library/src/bitmap.cpp:41-49 | only the least clear bit answers to `first free` |
| `BitmapSpec.ZeroBytesAllClear` | library/src/bitmap.cpp:9-16 | zeroed bytes are a bitmap with every bit clear |
| `Bitmaps.Bitmap.constructor` | library/src/bitmap.cpp:9-16 | every bit clear, in ceil(num_bits/8) bytes |
| `Bitmaps.Bitmap.GetNumFreeBits` | library/src/bitmap.cpp:26-35 | counts the clear bits |
| `Bitmaps.Bitmap.GetNumTakenBits` | library/src/bitmap.cpp:37-39 | counts the set bits |
| `Bitmaps.Bitmap.GetFirstFreeBit` | library/src/bitmap.cpp:41-49 | the least clear bit, or none |
| `Bitmaps.Bitmap.GetBitVal` | library/src/bitmap.cpp:51-53 | reads bit i: whether byte i/8 has weight 2^(i mod 8) |
| `Bitmaps.Bitmap.SetBitVal` | library/src/bitmap.cpp:55-61 | changes one bit; byte i/8 then has weight 2^(i mod 8) or not, as asked |
| `Bitmaps.SerializeThenDeserialize` | library/src/bitmap.cpp:18-24 | writing out and reading in restores every bit and touches no other byte |
| `TupleSpec.CellRoundTrip` | organizers/src/types/uint32_t_type.cpp:7-20 | a cell's bytes read back as the cell |
| `TupleSpec.CellBytes` | organizers/src/types/uint32_t_type.cpp:7-9 | a cell is stored as one, two or four bytes, these, the least significant first |
| `TupleSpec.TupleRoundTrip` | organizers/src/tuple.cpp:3-20 | a tuple's bytes, as many as its size, read back cell by cell as the tuple |
| `TupleSpec.TupleRoundTripBack` | organizers/src/tuple.cpp:3-20 | and bytes of a tuple's size are stored by exactly the tuple they read back as |
| `TupleSpec.EncodeAppend` | organizers/src/tuple.cpp:3-10 | a tuple is stored as its cells, in order, with nothing between them |
| `TupleSpec.EncodeInjective` | organizers/src/tuple.cpp:3-10 | for one list of column types, different tuples have different bytes |
| `TupleSpec.EncodeNotInjectiveAcrossTypes` | organizers/src/tuple.cpp:3-10 | without the type list they need not |
| `TupleSpec.EncodePlacesCell` | organizers/src/tuple.cpp:3-10 | each cell stands at the sum of the earlier sizes |
| `Tuples.Tuple.Serialize` | organizers/src/tuple.cpp:3-10 | writes exactly the tuple's bytes at the destination and nothing outside |
| `Tuples.Tuple.Size` | organizers/src/tuple.cpp:12-20 | the number of bytes `serialize` writes, which is the sum of the column widths |
| `Bytes.WordAfterPut` | organizers/src/heap.cpp:36-38 | a link word reads back as stored, -1 included, and a store leaves disjoint words |
| `Bytes.Int32Bytes` | organizers/src/heap.cpp:36-38 | a link word is stored least significant byte first, in two's complement; so -1 as four times 0xFF |
| `Bytes.LittleEndianByte` | organizers/src/types/uint32_t_type.cpp:7-9 | byte i of a stored number is its digit of weight 256^i |
| `Bytes.LittleEndianRoundTrip` | organizers/src/types/uint32_t_type.cpp:7-16 | a stored unsigned word reads back |
| `Lexers.CharStream.GetNextChar` | compiler/src/char_stream/char_stream.cpp:12-32 | consumes one byte; the position goes up by one iff a byte was got and the line iff it was a newline; so they count, of the bytes consumed, those not 0xFF and the newlines |
| `Lexers.CharStream.PeekNextChar` | compiler/src/char_stream/char_stream.cpp:34-47 | the next byte, none at the end or at byte 0xFF |
| `Lexers.CharStream.IsEndOfStream` | compiler/src/char_stream/char_stream.cpp:59-67 | whether every byte has been consumed |
| `Lexers.Lexer.SkipWhitespace` | compiler/src/lexer/lexer.cpp:26-30 | consumes exactly the leading whitespace; fails iff the byte after it is 0xFF |
| `Lexers.Lexer.HasNextToken` | compiler/src/lexer/lexer.cpp:6-9 | skips whitespace and answers whether anything is left |
| `Lexers.Lexer.GetNextToken` | compiler/src/lexer/lexer.cpp:11-20 | the maximal run of non-whitespace after leading whitespace; fails iff byte 0xFF cuts it |
| `Lexers.Lexer.NextToken` | compiler/src/lexer/lexer.cpp:6-20 | one turn of the has-next, get-next loop yields the first of the remaining tokens, or none at the end |
| `Lexers.Lexer.LexAll` | compiler/src/lexer/lexer.cpp:6-30 | the loop ends, fails iff the text has byte 0xFF, else yields its tokens; the position then plus the occurrences of 0xFF is the length of the input, and the line is the occurrences of the newline |
| `AsWritten.BitmapBytesIff` | library/src/bitmap.cpp:9-16 | the byte count as written is right iff num_bits is odd or a multiple of 8, the allocation iff it is a multiple of 8 |
| `AsWritten.WrittenSlotCountFitsIff` | organizers/src/heap.cpp:120-123 | the slot count as written fits a page iff a tuple has no bytes and the page has at least 17 |
| `AsWritten.BoolSizesIff` | organizers/src/types/type.h:24 | sizes returned as `bool` give a tuple's size iff every column is one byte wide |
| `AsWritten.DiskIdAsFreeHeadIff` | organizers/src/heap.cpp:104-111 | with the disk id as head of the free list, some lists make a well-formed table iff the id equals the new page's number |
| `AsWritten.UnsetLinksNeverWellFormed` | organizers/src/heap.cpp:104-117 | with a new page's links not set, no lists ever make a well-formed table |
| `AsWritten.WrittenFillIff` | organizers/src/heap.cpp:123-143 | with a filled page only appended, some lists make a well-formed table after the insert iff the page had more than one free slot before it |
| `AsWritten.WrittenPinSucceedsIff` | buffer_manager/src/buffer_page_tracker/bitmap_tracker.cpp:14-16 | with the tracker's exception escaping `pin`, it succeeds iff the page is cached or fewer pages are cached than there are frames; it wrongly fails iff the page is not cached, no frame is free and one could be evicted |
| `PoolCounts.ExtendedPageFitsIff` | disk_manager/src/impl/posix_disk_manager.cpp:128-137 | `extend` always answers; its page can be pinned iff two more pages stay below the maximum size |
| `AsWritten.OffsetsExactIff` | disk_manager/src/impl/posix_disk.cpp:122-123 | the 32-bit offsets of a page are the true ones iff the page ends below 2^32 |
| `AsWritten.WrappedPagesAlias` | disk_manager/src/impl/posix_disk.cpp:122-123 | beyond that, for page sizes that divide 2^32, page numbers 2^32 / size apart name the same bytes |
| `AsWritten.AliasedPagesAgreeIff` | buffer_manager/src/buffer_manager.cpp:119-163 | with two ids for one file and the page cached under the first, a write through the first shows through the second, cached there or not, iff it changes nothing there |

## Left out

- POSIX details: file descriptors, errno, `fsync` failures and other seek failures than the one of `PosixDisk.PrepareRw`, moving and closing of `PosixDisk`. Calls are taken to succeed within the bounds the code checks.
- The result of the write-back in an eviction and of `truncate`, which the code ignores: in range they succeed, as proved.
- Integer widths of ids, pin counts and page counts: unbounded here. Page offsets are 32-bit in `PosixDisk`.
- PosixDiskManagers.PosixDiskManager.Write: asks for a cursor that is not negative and whose offsets do not wrap, because otherwise the file is no sequence of pages any more; `PosixDisk.Write` says what happens then, `AsWritten.OffsetsExactIff` when.
- PosixDiskManagers.PosixDiskManager.Read: likewise.
- BufferManagers.BufferManager.Pin: asks that the page lies below the maximum disk size, since the code only asserts that the read succeeded.
- Heaps.Heap.InsertTuple: asks for two spare frames, and for room for one page when none is free (`HeapSpace.RunFitsIff` says when a whole run has it); so an exception out of `pin` in the middle of an insert, which leaves pages pinned, is not modelled. The tuple must have the table's column types, which the code does not check.
- Heaps.Heap.FindFreePage: asks for one spare frame, for the same reason.
- Heaps.Heap.WalkFullList: asks for one spare frame, for the same reason.
- Heaps.Heap.AppendToFullPages: asks for one spare frame, for the same reason.
- Heaps.Heap.MoveHeadToFull: asks for one spare frame, for the same reason.
- Heaps.Heap.GetFreePage: asks for one spare frame, for the same reason.
- Heaps.Heap.PinPage: asks for one spare frame, for the same reason.
- HeapRuns.InsertAll: asks for two spare frames and a disk with room for all the tuples, for the same reason.
- HeapRuns.FillNewDisk: likewise.
- Heaps.Heap.constructor: a new disk only. Reopening one resets both lists in the code, so no property of an existing table holds.
- PoolRuns.CacheRefinesMemory: loaded ids name distinct files, and disks are neither unloaded nor destroyed while the pool runs; creating one is `PoolRuns.CreateLinked`, unloading one `Durability.ReloadKeepsPagesIff`.
- Durability.ReloadKeepsPagesIff: about the pool as a value; the pool's class asks that the disks of cached pages stay loaded, so the heap's destructor is not one of the heap class's methods.
- BufferPages.BufferPage.LoadInt32: asks that a word that starts inside the page ends there; `to_ptr` checks only the start, and what lies past the page is not part of this model.
- BufferPages.BufferPage.StoreInt32: likewise.
- BufferManagers.BufferManager.constructor: takes the frames as objects; how the pool's memory is carved up (`BufferPageAllocator`) is unfinished in the source.
- Lexers.CharStream: the column counter, which is never advanced, and `put_back_char`, which nothing calls; byte 0xFF is unreadable because `char` is taken to be signed.
- `exists`, `is_loaded`, `num_loaded_disks`, `clear_bits`: one-line members that add nothing.
- `get_next_tuple`, `delete_tuple`, `Tuple::deserailize`, `is_valid_tuple`, the bool and array types: stubs in the source.
- Punctuation splitting, which the driver expects of the lexer and the lexer does not do.
- Logging, printing operators, `Result` plumbing, the SQL grammar text and the repository's own unit-test framework.
