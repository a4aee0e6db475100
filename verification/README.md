# Verified models of the lab kernels

A Dafny model of seven parts of the lab kernels and their tools, with proofs of what each part is for:

- the **buddy page allocator** (`lab2/kern/mm/buddy_pmm.c`) and the **circular list** it is built on
  (`lab2/libs/list.h`);
- the **SLOB heap and kmalloc** (`lab4/kern/mm/kmalloc.c`);
- the **skew heap** with parent pointers (`lab6/libs/skew_heap.h`) and the comparator the stride scheduler uses it
  with (`lab6/kern/schedule/default_sched_stride.c`);
- the **SFS image builder** (`lab8/tools/mksfs.c`);
- the **format engine** and **number printing and parsing** (`lab2/libs/printfmt.c`, `lab2/libs/string.c`);
- the search of the **flattened devicetree** for the memory node (`lab2/kern/driver/dtb.c`, against section 5.4 of the
  Devicetree Specification);
- the **random number generator** (`lab5/libs/rand.c`).

`dafny verify dfyconfig.toml` checks everything.

## How it is organised

Each imperative part is a class (or methods over heap objects or arrays) whose methods change the fields the source
changes. Their contracts tie the new state to a value, and lemmas about the value say what the source promises.

| files | contents |
|---|---|
| `Bits`, `Cycle`, `Wrappers` | powers of two, `&` and `^` on numbers; stepping round a cycle; optional values and lists without duplicates |
| `BuddyLayout`, `BuddyTheory`, `BuddyAllocator` | tilings of the region and what one step does to them; what coalescing implies; the allocator |
| `CircularList`, `FreeLists` | the linked list; the allocator's sixteen lists through the page descriptors |
| `SlobRing`, `SlobHeap`, `KmallocTheory`, `KmallocSearch`, `Kmalloc` | the address-ordered ring; who owns which unit; effects of single calls; which block a search finds and where the next one starts; the allocator |
| `SkewTree`, `SkewHeap`, `Stride` | heaps as trees, with their amortised cost; the pointer version; the comparator and rounds of the scheduler |
| `SfsBlockMap`, `SfsImage`, `SfsFreeMap`, `SfsTree`, `SfsNeed`, `SfsReader`, `SfsBuilder` | block maps; the builder's state; the free map; host trees and what the builder knows of them; the blocks they need and what stops the builder; the finished image as a reader finds it; the builder |
| `Numbers`, `PrintFmt`, `PrintMeaning`, `PrintPieces` | digits and `strtol`; the engine; what its conversions print, by the characters; formats written piece by piece |
| `Devicetree` | bytes, tokens and trees, read and written |
| `Lcg` | the generator |

The main results, in words:

- **Buddy.** In every state reached by allocations and matching frees the region is tiled by aligned blocks, each
  allocated or on exactly one of the lists that the links in the page descriptors form; no two free buddies remain.
  Although flags and orders inside blocks are outdated, the merge test succeeds exactly when the buddy is one free
  block of that order, an allocation fails exactly when no aligned run of its size is free anywhere, and the free
  blocks depend on the live allocations alone. An allocation takes the first block of the lowest order that has one
  and lists its upper halves, a release lists what comes of joining, and no list changes otherwise. All this holds
  unless the region is a single page whose successor happens to be flagged (`InitMemmap`, `TopMergeTest`).
- **SLOB and kmalloc.** The free list has one descent; the reinsertion search ends at the one right gap from any
  start; two-sided joining keeps the list. `slob_alloc` asks for at most one page, exactly when nothing fits, and
  fails only if that page is refused. It serves the first block large enough from the address on where the last call
  served or took back one, going round (`SearchGoesOn`). Live blocks, descriptors, big-block pages and free blocks
  never overlap, no word of a block handed out is written, units are conserved, and `kfree` gives back exactly what
  `kmalloc` took. `slob_alloc` and `kmalloc` fail exactly when a page they had to ask for was refused. A request for
  no bytes would be the exception: it can hand out the static arena, and does not even take it off a list of nothing
  else (`NoBytesTakeArena`, `ArenaHandedOutTwice`). `find_order` does not always take enough pages (`OrderIsEnough`
  says exactly when it does).
- **Skew heap.** Merge, insertion and removal of any node keep the node set, heap order and all links, and any m
  operations from the empty heap make O(m log m) merge calls. The stride comparator orders a set of processes exactly
  if some base has them all less than half the range ahead; rounds of the scheduler keep them within one pass,
  although the picked root is advanced before it is removed. So over any number of rounds every process gets its share
  (`FairShare`).
- **SFS.** A finished image, read from its blocks alone, gives back the host tree: the names, of which 252 characters
  have room, kinds, contents and link targets, each file the bytes its size says and then zeros. Every block below the
  next one is written exactly once and owned once, the free map and its count are right, and every written inode has
  the links it should have, which are as many as the entries that name it. Building succeeds exactly when nothing in
  the tree is trouble and the blocks it needs, tables included, are there.
- **Formats.** Every format written from pieces is read back as those pieces, a literal precision of 0 excepted, which
  is taken for the padding flag (`ReadBackExactly`); every terminated format ends without reading past its NUL;
  `vsnprintf` stores what fits and returns the length of all of it. What every conversion prints is said by its
  characters, and `strtol` reads numbers back, negative ones and pointers exactly if no blanks follow their sign or
  prefix.
- **Devicetree.** The walk over a well-formed structure block, such as the standard has it written, stays on token
  boundaries; what it finds is stated for every tree, as the numbers its bytes are in base 256. A memory node without
  a wide `reg` passes its mark down its first children to its heir, and the `reg` returned is the first memory node's
  exactly if the heir of the first one that has an heir is a memory node.
- **Generator.** The period is exactly 2^48, and every state lies on the one cycle. The comment in `rand.c` promises
  numbers from 0; the code, followed here, returns exactly those from 1 to `RAND_MAX`.

## Model

| member | source | states |
|---|---|---|
| BuddyLayout.OrderOfIsLeast | lab2/kern/mm/buddy_pmm.c:36-45 | the order of a request is the least whose block holds it |
| BuddyLayout.Laminar | lab2/kern/mm/buddy_pmm.c:196-206 | aligned blocks of two orders are disjoint or nested, the reason the merge test cannot be misled |
| BuddyLayout.BuddyFacts | lab2/kern/mm/buddy_pmm.c:199-216 | flipping one bit of a head gives the sibling, both ways, and the lower of the two heads the block they halve |
| BuddyLayout.SplitKeeps | lab2/kern/mm/buddy_pmm.c:143-162 | halving a block in hand keeps the tiling, the lists and the live blocks |
| BuddyLayout.JoinKeeps | lab2/kern/mm/buddy_pmm.c:206-222 | joining a block with its free buddy keeps them too |
| BuddyTheory.MergeTestIsExact | lab2/kern/mm/buddy_pmm.c:204-206 | despite outdated flags and orders inside blocks, the test holds if and only if the buddy is one free block of that order within the region |
| BuddyTheory.TopMergeTest | lab2/kern/mm/buddy_pmm.c:197-206 | one order past the region the test misfires exactly on a one-page region whose successor page carries the flag |
| BuddyTheory.RunIsInOneBlock | lab2/kern/mm/buddy_pmm.c:196-231 | with everything coalesced, any aligned run of free pages lies inside one listed block |
| BuddyTheory.Canonical | lab2/kern/mm/buddy_pmm.c:119-232 | two states with the same live allocations have the same free blocks, whatever their histories |
| BuddyTheory.AllFreedIsOneBlock | lab2/kern/mm/buddy_pmm.c:196-231 | with nothing allocated the whole region is the one free block, in whatever order things were freed |
| BuddyAllocator.BlocksApart | lab2/kern/mm/buddy_pmm.c:119-172 | a live block is aligned, large enough, inside the region, and overlaps no other live or free block |
| BuddyAllocator.Allocator.GetOrder | lab2/kern/mm/buddy_pmm.c:36-45 | the loop computes that order |
| BuddyAllocator.Allocator.NrFreePages | lab2/kern/mm/buddy_pmm.c:48-55 | the counters and the live blocks, each rounded up to its order, add up to the whole region |
| BuddyAllocator.Allocator.Init | lab2/kern/mm/buddy_pmm.c:57-64 | all lists, counters and orders are empty, whatever the links held |
| BuddyAllocator.Allocator.InitMemmap | lab2/kern/mm/buddy_pmm.c:66-118 | the largest power-of-two prefix becomes one listed block, and the result is sound if and only if it is not a single page followed by a flagged one |
| BuddyAllocator.Allocator.Carve | lab2/kern/mm/buddy_pmm.c:142-162 | splitting down to the requested order lists every upper half and keeps all invariants |
| BuddyAllocator.Allocator.AllocPages | lab2/kern/mm/buddy_pmm.c:119-178 | fails if and only if no aligned run of the rounded size is free; otherwise the page served is the first of the lowest list from the order of the request on that is not empty, the lists below it down to that order get one upper half each, and no other list changes |
| BuddyAllocator.Allocator.MergeUp | lab2/kern/mm/buddy_pmm.c:196-227 | merging goes on exactly until the top order or a buddy that is not one free block |
| BuddyAllocator.Allocator.FreePages | lab2/kern/mm/buddy_pmm.c:180-232 | exactly that block stops being live; each list from its order on gives up the other half around the page until one does not have it, what comes of it is put in front there, and no other list changes |
| BuddyAllocator.Allocator.AllocFree | lab2/kern/mm/buddy_pmm.c:119-232 | allocating and freeing leaves the same blocks free |
| CircularList.Init | lab2/libs/list.h:40-43 | an entry alone is a cycle of one |
| CircularList.AddAfter | lab2/libs/list.h:53-82 | the cycle is the old one with the entry behind the given one |
| CircularList.AddBefore | lab2/libs/list.h:66-69 | ... or in front of it |
| CircularList.Link | lab2/libs/list.h:141-146 | the four link writes insert between two neighbours, also when they are the same entry |
| CircularList.Del | lab2/libs/list.h:91-94 | the others keep their order, and the removed entry its own links |
| CircularList.DelInit | lab2/libs/list.h:102-106 | the removed entry becomes a list of its own |
| CircularList.Empty | lab2/libs/list.h:112-115 | true exactly when only the head is left |
| CircularList.Next | lab2/libs/list.h:121-124 | the first entry, or the head of an empty list |
| FreeLists.Lists.InitHead | lab2/kern/mm/buddy_pmm.c:59-60 | one head is linked to itself and the others are left alone |
| FreeLists.Lists.Add | lab2/kern/mm/buddy_pmm.c:106-160 | the links of a page that is on no list put it in front of one list, and the fifteen others stay as they are |
| FreeLists.Lists.Del | lab2/kern/mm/buddy_pmm.c:139-208 | the links take a page off the list it is on, wherever it stands there, and leave all others in order |
| FreeLists.Lists.IsEmpty | lab2/kern/mm/buddy_pmm.c:133 | the head links to itself exactly if the list has no pages |
| FreeLists.Lists.First | lab2/kern/mm/buddy_pmm.c:135-136 | the page found behind the head is the first one of the list |
| SlobRing.OneDescent | lab4/kern/mm/kmalloc.c:170-172 | going round the list the address drops exactly once |
| SlobRing.GapIsUnique | lab4/kern/mm/kmalloc.c:170-172 | the stop condition holds at exactly one block, for any block that overlaps none |
| SlobRing.CoalesceKeeps | lab4/kern/mm/kmalloc.c:174-188 | joining on either or both sides keeps one address-ordered cycle of blocks that neither overlap nor touch |
| SlobRing.FragmentKeeps | lab4/kern/mm/kmalloc.c:131-137 | cutting the front off a block keeps that list |
| SlobRing.UnlinkKeeps | lab4/kern/mm/kmalloc.c:129-130 | so does taking a whole block |
| SlobHeap.ReturnEffect | lab4/kern/mm/kmalloc.c:158-194 | exactly the returned units become free, the total grows by them, and the arena stays a block of its own |
| SlobHeap.TakeEffect | lab4/kern/mm/kmalloc.c:117-141 | exactly the units taken stop being free, and the arena is not among them |
| KmallocSearch.OneUnitIsNext | lab4/kern/mm/kmalloc.c:108-117 | a search for one unit, which no bytes amount to, always stops at the first block it looks at |
| KmallocSearch.NoBytesTakeArena | lab4/kern/mm/kmalloc.c:97-141 | so a request for no bytes is given the static arena if and only if the block behind slobfree is the arena, and takes it off the list if and only if slobfree is another block besides |
| KmallocSearch.ArenaHandedOutTwice | lab4/kern/mm/kmalloc.c:76-136 | with the arena alone on the list, as in the beginning, such a request is given the arena, writes nothing, and the next one is given it again |
| KmallocSearch.NextFitByAddress | lab4/kern/mm/kmalloc.c:107-117 | the block a search finds is, by addresses alone, the first one large enough above the block slobfree points to, going round |
| KmallocSearch.SearchGoesOn | lab4/kern/mm/kmalloc.c:107-193 | after a call that served or took back a block the next one is served the first block large enough from that address on, going round |
| KmallocSearch.TakenStarts | lab4/kern/mm/kmalloc.c:129-136 | the block before the one served, where slobfree is left, is the last one of the list below it, going round, whether the block is cut or unlinked |
| KmallocSearch.ListDetermined | lab4/kern/mm/kmalloc.c:158-194 | the free units determine the list, its lengths and its links |
| KmallocSearch.HeapDetermined | lab4/kern/mm/kmalloc.c:97-194 | so what is handed out and the pages taken determine the list, whatever happened before |
| KmallocTheory.PageSource.Alloc | lab4/kern/mm/kmalloc.c:80-86 | the page source hands out runs nobody holds, clear of the arena, or fails |
| KmallocTheory.FindOrder | lab4/kern/mm/kmalloc.c:220-226 | the loop computes the order the two lemmas below are about |
| KmallocTheory.OrderForIsLeast | lab4/kern/mm/kmalloc.c:220-226 | it is the least order whose shifted size is within a page |
| KmallocTheory.OrderIsEnough | lab4/kern/mm/kmalloc.c:220-226 | its pages hold the size if and only if the size is not just above a power-of-two number of pages |
| KmallocTheory.OrderNotEnough | lab4/kern/mm/kmalloc.c:220-226 | 8193 bytes get two pages |
| KmallocTheory.SmallIsNotBig | lab4/kern/mm/kmalloc.c:266-294 | a small block that happens to start a page is never mistaken for a big one |
| KmallocTheory.BigIsUnique | lab4/kern/mm/kmalloc.c:274-289 | no two big blocks have the same address |
| KmallocTheory.AllDisjoint | lab4/kern/mm/kmalloc.c:97-294 | where every big block describes pages of its own, free blocks, live blocks, descriptors and big-block pages are pairwise disjoint |
| Kmalloc.Slob.NothingOverlaps | lab4/kern/mm/kmalloc.c:97-294 | every reachable state is such a one, and free and live units add up to the pages lent and the arena |
| Kmalloc.Slob.constructor | lab4/kern/mm/kmalloc.c:76-78 | the list starts with the arena alone, and everything every call keeps holds from the beginning |
| Kmalloc.Slob.FindGap | lab4/kern/mm/kmalloc.c:168-172 | wherever it starts, the search ends, at the one block after which the returned one belongs |
| Kmalloc.Slob.SlobFree | lab4/kern/mm/kmalloc.c:158-194 | exactly the block's units become free, no other word outside the free blocks changes, and slobfree is the last block of the list below it, going round |
| Kmalloc.Slob.SlobAlloc | lab4/kern/mm/kmalloc.c:97-156 | terminates; serves the first block large enough behind where the last search ended, or, if there is none, asks for exactly one page and serves the first behind where that was joined in; leaves slobfree at the last block below the one served, and where it was if nothing is served; fails if and only if the page is refused; units are conserved |
| Kmalloc.Slob.AllocBlock | lab4/kern/mm/kmalloc.c:228-244 | the same block and the same failure above the big-block list, whose descriptors stay meaningful |
| Kmalloc.Slob.AllocBig | lab4/kern/mm/kmalloc.c:240-258 | a big block gets pages nobody held and a descriptor, found by the same search, at the head of the list; nothing changes hands if and only if the page for the descriptor or the pages are refused, and these are all that is asked for |
| Kmalloc.Slob.Kmalloc | lab4/kern/mm/kmalloc.c:228-264 | a small block is large enough, a big one has the pages of the order of its size; either is disjoint from everything; it fails exactly when what had to be asked for was refused, and then hands out nothing; no word of a live block is written |
| Kmalloc.Slob.Kfree | lab4/kern/mm/kmalloc.c:266-294 | exactly what the address stands for goes back: the small block before it, or the pages there and their descriptor; the next search starts there |
| Kmalloc.Slob.AllocFree | lab4/kern/mm/kmalloc.c:228-294 | kfree of what kmalloc returned restores who holds what, and the list, if no page was added to it |
| SkewTree.MergeNodes | lab6/libs/skew_heap.h:29-59 | merging keeps every node exactly once |
| SkewTree.MergeOrdered | lab6/libs/skew_heap.h:29-59 | for a total preorder it keeps heap order, with a minimum of both heaps at the root |
| SkewTree.MergeTop | lab6/libs/skew_heap.h:37-58 | of two roots that compare equal the second heap's comes out on top |
| SkewTree.RemoveCorrect | lab6/libs/skew_heap.h:69-85 | removing any node leaves a heap of exactly the others |
| SkewTree.RemoveRootCorrect | lab6/libs/skew_heap.h:69-85 | the root may be removed whatever it compares to, as long as what lies below it is ordered |
| SkewTree.MergeAmortised | lab6/libs/skew_heap.h:29-59 | calls plus the rise in right-heavy nodes are at most 1 + 2 log + 2 log |
| SkewTree.RemoveAmortised | lab6/libs/skew_heap.h:69-85 | removal anywhere costs at most 1 + 5 log in the same measure |
| SkewTree.InsertAmortised | lab6/libs/skew_heap.h:61-67 | insertion at most 3 + 2 log |
| SkewTree.RunsAreLogarithmic | lab6/libs/skew_heap.h:29-85 | any m operations from the empty heap make at most m (3 + 5 log m) merge calls |
| SkewHeap.Merge | lab6/libs/skew_heap.h:29-59 | the links, parents included, become those of the merged tree, although the new root's parent is never written |
| SkewHeap.Insert | lab6/libs/skew_heap.h:61-67 | the result is a heap with a null parent at its root |
| SkewHeap.Remove | lab6/libs/skew_heap.h:69-85 | unlinking through the parent pointer gives exactly the tree without that node, all links consistent |
| Stride.DifferenceIsTrue | lab6/kern/schedule/default_sched_stride.c:21 | within half the range, the signed difference of wrapped strides is the true one |
| Stride.WindowIsOrdered | lab6/kern/schedule/default_sched_stride.c:16-28 | then the comparator is a total preorder, by distance from the base |
| Stride.OrderedExactly | lab6/kern/schedule/default_sched_stride.c:16-28 | on any set of strides it is a total preorder if and only if some base has all of them less than half the range ahead |
| Stride.ApartIsCyclic | lab6/kern/schedule/default_sched_stride.c:16-28 | three strides a third of the range apart are an example where it is not: each is below the next |
| Stride.PickKeepsWindow | lab6/kern/schedule/default_sched_stride.c:137-161 | picking the least and advancing it keeps all strides within one pass of each other, over any number of wraps |
| Stride.RoundKeeps | lab6/kern/schedule/default_sched_stride.c:72-161 | picking, removing and entering again picks a least process, advances it alone and leaves an ordered heap, although the heap is out of order in between |
| Stride.PassesFall | lab6/kern/schedule/default_sched_stride.c:156-159 | the higher the priority the shorter the pass |
| Stride.FairShare | lab6/kern/schedule/default_sched_stride.c:72-161 | over any number of rounds, however often the strides wrap, the picks of two processes times their passes differ by no more than one longest pass beyond where they began |
| SfsBlockMap.CachedOrMissing | lab8/tools/mksfs.c:382-395 | the table a block needs is either the cached one or missing, never one to be searched for |
| SfsBlockMap.DirectKeeps | lab8/tools/mksfs.c:406-408 | after appending to the direct entries every block is found by its index |
| SfsBlockMap.IndirectKeeps | lab8/tools/mksfs.c:409-414 | the same through the single table |
| SfsBlockMap.DoubleKeeps | lab8/tools/mksfs.c:415-422 | the same through two levels of tables |
| SfsBlockMap.MapKept | lab8/tools/mksfs.c:397-426 | what is done to one file does not change where another's blocks are found |
| SfsBlockMap.MissingTables | lab8/tools/mksfs.c:382-422 | a table is missing exactly when the next block is the first one below it |
| SfsBlockMap.OccupiedStep | lab8/tools/mksfs.c:397-426 | with one more block a file takes up that block and the tables that begin with it |
| SfsImage.OneOwner | lab8/tools/mksfs.c:173-180 | no block belongs to two files or twice to one |
| SfsImage.ClearOfReserved | lab8/tools/mksfs.c:223-254 | blocks of files are neither inodes nor tables, and lie behind the super block, the root and the free map |
| SfsImage.ClosedReads | lab8/tools/mksfs.c:312-349 | read from the written blocks alone, every inode leads to exactly its blocks |
| SfsImage.AllWritten | lab8/tools/mksfs.c:312-349 | in the end exactly the blocks below the next one have been written |
| SfsFreeMap.SetBitAt | lab8/tools/mksfs.c:330 | setting a bit sets that one and no other |
| SfsFreeMap.LowestFirst | lab8/tools/mksfs.c:330 | bits are counted from the lowest of a word |
| SfsFreeMap.MapBlock | lab8/tools/mksfs.c:317-334 | a block of the map has exactly the bits of the free blocks among its own |
| SfsFreeMap.PopcountIsUnused | lab8/tools/mksfs.c:313-335 | such a map has as many bits set as there are unused blocks |
| SfsTree.EffectSnoc | lab8/tools/mksfs.c:449-514 | the effects of entries on the link counts add up, with each directory met once and each regular file sharing one inode |
| SfsTree.DirEffect | lab8/tools/mksfs.c:439-447 | a subdirectory has two links and one for each of its own, and gives one to its parent |
| SfsTree.FinalCounts | lab8/tools/mksfs.c:428-514 | in the end directories have 2 + subdirectories, regular files their names, symbolic links 1, with one inode for each directory and each regular file |
| SfsImage.TalliedNamed | lab8/tools/mksfs.c:428-437 | an entry block written and the link given with it keep every inode at as many links as entry blocks name it |
| SfsTree.DenotesKept | lab8/tools/mksfs.c:428-542 | what a finished directory says stays said while others are built |
| SfsNeed.DirSpentStep | lab8/tools/mksfs.c:466-514 | entry after entry a directory takes exactly the blocks the tree needs, files once for all their names |
| SfsNeed.DirLacks | lab8/tools/mksfs.c:173-180 | where the blocks end inside an entry, the whole directory needs more than there are |
| SfsReader.FileRead | lab8/tools/mksfs.c:287-300 | blocks are filled up with zeros; as many bytes as the size says are those of the host file, and the rest are zeros |
| SfsReader.DirReads | lab8/tools/mksfs.c:428-542 | a reader of the written blocks finds in a directory what the builder put there, down to the last file |
| SfsReader.DirectoryEntries | lab8/tools/mksfs.c:466-514 | whatever does not begin with a dot and is of a known kind stands in the image under its name, in the order of the host, and behind its first two a directory has no other entries |
| SfsReader.NamesStayApart | lab8/tools/mksfs.c:428-437 | names of up to 252 characters are in the entry blocks whole, so two entries with different ones have different blocks with different names |
| SfsImage.StoredNamed | lab8/tools/mksfs.c:432-434 | what is written for a longer name is its first 252 characters |
| SfsReader.TreeFinished | lab8/tools/mksfs.c:312-349 | so the closed image holds the tree, with the written kinds, sizes and link counts of all inodes, which are the numbers of entry blocks that name them |
| SfsReader.LinksApart | lab8/tools/mksfs.c:459-464 | no two entries of the image share the inode of a symbolic link |
| SfsBuilder.CreateSfs | lab8/tools/mksfs.c:223-254 | succeeds if and only if the blocks before the first free one leave room, and then begins at that one |
| SfsBuilder.Sfs.constructor | lab8/tools/mksfs.c:235-253 | a sound state with an empty root |
| SfsBuilder.Sfs.AllocIno | lab8/tools/mksfs.c:173-180 | a number never handed out before, failing if and only if none is left; free and used blocks always add up |
| SfsBuilder.Sfs.AllocCacheBlock | lab8/tools/mksfs.c:182-190 | a table of zeros under a new number |
| SfsBuilder.Sfs.AllocCacheInode | lab8/tools/mksfs.c:201-212 | an empty inode under a new number, found again by its host number |
| SfsBuilder.Sfs.SearchCacheInode | lab8/tools/mksfs.c:214-221 | finds an inode of that host number if and only if there is one |
| SfsBuilder.Sfs.SearchCacheBlock | lab8/tools/mksfs.c:192-199 | looks on the one chain its number hashes to |
| SfsBuilder.Sfs.UpdateCache | lab8/tools/mksfs.c:382-395 | a search would succeed only for numbers that hash like 0, because tables are chained there |
| SfsBuilder.Sfs.AppendBlock | lab8/tools/mksfs.c:397-426 | the block becomes the next of its file, for up to 32768 blocks, and fails beyond or for lack of space |
| SfsBuilder.Sfs.AddEntry | lab8/tools/mksfs.c:428-437 | the directory lists the inode under the name, or the first 252 characters of it, only that inode gains a link, and links go on counting the entries that name an inode |
| SfsBuilder.Sfs.OpenFile | lab8/tools/mksfs.c:516-530 | the file holds the chunks read, all whole but the last, its size is their bytes, and it takes exactly its blocks and tables; it fails only for unreadable, oversized or unplaceable files |
| SfsBuilder.Sfs.OpenLink | lab8/tools/mksfs.c:532-542 | the target is the one block of the link |
| SfsBuilder.Sfs.AddFile | lab8/tools/mksfs.c:449-457 | a first name copies the file, a later one links to the same inode |
| SfsBuilder.Sfs.AddLink | lab8/tools/mksfs.c:459-464 | the entry of every symbolic link name leads to an inode made for it |
| SfsBuilder.Sfs.AddDir | lab8/tools/mksfs.c:439-447 | a directory is complete, with its links right, when it is entered in its parent |
| SfsBuilder.Sfs.OpenDir | lab8/tools/mksfs.c:466-514 | the entries are itself, the parent and those kept of the host directory in order, each leading to what it names; it takes exactly the blocks needed, and fails only for want of them or for a named kind of trouble, a directory seen before by its number among them |
| SfsBuilder.Sfs.WriteFreeMap | lab8/tools/mksfs.c:313-334 | every block of the map is written once, with the right bits |
| SfsBuilder.Sfs.CloseSfs | lab8/tools/mksfs.c:312-349 | every cached object reaches its own block, nothing written before is overwritten, and all blocks below the next are written |
| SfsBuilder.Sfs.CreateImg | lab8/tools/mksfs.c:544-559 | succeeds if and only if nothing in the tree is trouble and the blocks it needs are there; the finished image, read from its blocks alone, is the host tree, with contents, sizes, kinds, link counts, free map and block count right |
| Numbers.DigitCount | lab2/libs/printfmt.c:36-52 | as many digits as the number needs |
| Numbers.FieldLength | lab2/libs/printfmt.c:36-52 | the field has the width asked for or the digits' |
| Numbers.ValueOfDigits | lab2/libs/printfmt.c:36-52 | the digits stand for the number |
| Numbers.Strtol | lab2/libs/string.c:203-259 | blanks, sign, prefix and the longest run of digits are read, and where they end is returned |
| Numbers.RoundTrip | lab2/libs/string.c:203-259 | in bases 8, 10 and 16, for any width and blanks or zeros as padding, strtol reads back the number printed and consumes all of it |
| Numbers.NegativeRoundTrip | lab2/libs/printfmt.c:226-233 | a negative decimal of any width, padded with blanks or zeros, reads back if and only if no blanks follow its sign |
| Numbers.PointerRoundTrip | lab2/libs/printfmt.c:247-257 | what is printed for a pointer reads back in base 16 and with the base left open, if and only if no blanks follow the 0x |
| Numbers.SpelledIsRead | lab2/libs/string.c:203-259 | strtol reads blanks, a sign of either kind, the prefix of its base and digits in either case, whatever comes behind, as the number they spell, and says where it ends |
| Numbers.OpenDecimal | lab2/libs/string.c:218-230 | with the base left open a number printed in base 10 reads back |
| Numbers.OpenOctal | lab2/libs/string.c:218-230 | and with a 0 in front one printed in base 8 |
| Numbers.DigitWorth | lab2/libs/string.c:236-244 | digits and letters, in either case, are worth their places |
| Numbers.NoOverflow | lab2/libs/string.c:232-253 | no intermediate value exceeds the result, so a result in range is computed in range |
| PrintFmt.SprintBuf.PutCh | lab2/libs/printfmt.c:290-296 | every character counts, those that fit are stored, nothing behind the buffer is touched |
| PrintFmt.SprintBuf.PrintNum | lab2/libs/printfmt.c:36-52 | the recursion prints the padded field |
| PrintFmt.SprintBuf.PutString | lab2/libs/printfmt.c:203-223 | the string within the precision, unprintable characters replaced on request, padded on the side the flag says |
| PrintFmt.SprintBuf.PutError | lab2/libs/printfmt.c:189-200 | an error prints its text, an unknown one its number, whatever its sign |
| PrintFmt.ReadFlags | lab2/libs/printfmt.c:136-181 | the reswitch loop ends at the first character that is no flag, at the latest at the NUL, having passed no percent sign |
| PrintFmt.Rewind | lab2/libs/printfmt.c:269-273 | the rewind stops right behind the percent sign it belongs to |
| PrintFmt.VPrintFmt | lab2/libs/printfmt.c:116-276 | for every terminated format and matching arguments it ends, within the format, having printed the text the format stands for |
| PrintFmt.VsnPrintf | lab2/libs/printfmt.c:328-339 | the first size - 1 characters and a NUL are stored, nothing behind, and the full length returned |
| PrintMeaning.NumberReadsBack | lab2/libs/printfmt.c:226-262 | what d, u, o and x print for a number that is not negative, with any flags that leave blanks or zeros as padding, strtol reads back in base 10, 10, 8 and 16, all of it |
| PrintMeaning.NegativeReadsBack | lab2/libs/printfmt.c:226-233 | what d prints for a negative number reads back if and only if no blanks follow its sign |
| PrintMeaning.PointerReadsBack | lab2/libs/printfmt.c:247-257 | what p prints reads back in base 16 or with the base left open if and only if no blanks follow its prefix |
| PrintMeaning.NumberShape | lab2/libs/printfmt.c:226-262 | for every flag, a number is its sign or prefix, the padding up to the width, and the fewest digits of its base, in lower case |
| PrintMeaning.StringShape | lab2/libs/printfmt.c:203-223 | a string is its characters within the precision, those that are not printable replaced on request, and what the width asks for on one side of it |
| PrintMeaning.ErrorNames | lab2/libs/printfmt.c:17-33 | the texts of the known errors, whatever their sign |
| PrintMeaning.OtherError | lab2/libs/printfmt.c:189-200 | any other error is its number without a sign |
| PrintMeaning.CharShape | lab2/libs/printfmt.c:184-186 | a character is itself |
| PrintPieces.ScanDirective | lab2/libs/printfmt.c:131-181 | for every directive, with any flags, width and precision, what it is read back as is known |
| PrintPieces.ReadBackExactly | lab2/libs/printfmt.c:131-181 | it is what was written if and only if the precision is not a literal 0 |
| PrintPieces.FormatsMean | lab2/libs/printfmt.c:116-276 | a format written from pieces prints what the pieces stand for, one after the other |
| PrintPieces.ZeroPrecisionIgnored | lab2/libs/printfmt.c:145-158 | a literal precision of 0 is taken for the padding flag, so all of the string is printed |
| PrintPieces.ZeroPrecisionAsked | lab2/libs/printfmt.c:151-166 | a precision of 0 from the arguments is honoured, so nothing of the string is printed |
| Devicetree.SwapReads | lab2/kern/driver/dtb.c:29-37 | loading and swapping gives the number the bytes spell, the first one worth most, for four and for eight |
| Devicetree.LoadValue | lab2/kern/driver/dtb.c:29-37 | a load alone gives the number they spell the other way round |
| Devicetree.StrLen | lab2/libs/string.c:11-18 | the length up to the NUL |
| Devicetree.StartsWith | lab2/libs/string.c:126-132 | comparing the first characters tells prefixes |
| Devicetree.Equals | lab2/libs/string.c:103-113 | comparing to the NUL tells equal strings |
| Devicetree.BeginNode | lab2/kern/driver/dtb.c:54-66 | the next token begins at the next multiple of four behind the name and its NUL |
| Devicetree.ExtractMemoryInfo | lab2/kern/driver/dtb.c:40-101 | over every well-formed structure block it stays on tokens, ends, and finds what the walk over the tokens finds; base and size are the numbers the first and the next eight bytes of a wide reg spell, the first byte worth most |
| Devicetree.StructureEncoded | lab2/kern/driver/dtb.c:50-100 | tokens written as section 5.4.1 of the Devicetree Specification has them, names and data filled up to multiples of four, are such a structure block |
| Devicetree.NopsIgnored | lab2/kern/driver/dtb.c:91-92 | FDT_NOP tokens make no difference |
| Devicetree.WalkTree | lab2/kern/driver/dtb.c:50-100 | for every tree what is found is known exactly, and it is the first memory node's wide reg if memory nodes have no children before one |
| Devicetree.SeenIsHeir | lab2/kern/driver/dtb.c:50-100 | the reg returned is that of the heir of the first memory node that has one: the first node with a wide reg down its first children, itself included |
| Devicetree.RightNodeExactly | lab2/kern/driver/dtb.c:50-100 | it is the first memory node's with a wide reg if and only if that heir is a memory node |
| Devicetree.ChildTakenForMemory | lab2/kern/driver/dtb.c:58-70 | otherwise a child's reg can be taken for the memory's |
| Lcg.Generator.Rand | lab5/libs/rand.c:11-16 | the masked product is the step modulo 2^48, and the result lies between 1 and RAND_MAX, because do_div (lab5/libs/riscv.h:235-241) divides by RAND_MAX and the 1 is added behind |
| Lcg.OutputIs | lab5/libs/rand.c:14-15 | the number returned is one more than the remainder by RAND_MAX of the state without its low twelve bits |
| Lcg.OutputsExactly | lab5/libs/rand.c:11-16 | within one period exactly the numbers from 1 to RAND_MAX come up |
| Lcg.FullPeriod | lab5/libs/rand.c:13 | the state returns after exactly the multiples of 2^48 steps |
| Lcg.Reaches | lab5/libs/rand.c:13 | from any state every state is reached within one period |
| Lcg.StepInjective | lab5/libs/rand.c:13 | no two states have the same successor |
| Lcg.StepSurjective | lab5/libs/rand.c:13 | every state is a successor |

## Left out

- FreeLists.Lists.First: the page a link belongs to is looked up, where the source subtracts an offset from its address.
- BuddyAllocator.Allocator.InitMemmap: a region of exactly a power of two, below the highest order, must be followed by
  one more page descriptor, because freeing reads it. Pages beyond the largest power of two stay unmanaged, as in the
  source; the check that pages were reserved, reference counts and other flags are not modelled, nor is a second call.
- Kmalloc.Slob.Kmalloc: sizes 4064 to 4079 are excluded because they fail the assertion at line 99, size 0 because it
  can hand out the arena, which `KmallocSearch.NoBytesTakeArena` states.
- Kmalloc.Slob.SlobAlloc: alignment other than 0, which no caller asks for, and the branch for a whole page, which the
  assertion rules out. What a caller writes into its block is not modelled; the allocator is proved not to write there.
- KmallocTheory.FindOrder: sizes beyond the range of a 32-bit `int` parameter.
- KmallocTheory.PageSource.Alloc: the page allocator below the heap stands for any that hands out runs nobody holds, and
  none next to the static arena.
- SkewHeap.Merge: what the comparator says of two nodes does not change during a call; between calls `Stride.RoundKeeps`
  advances the root of the tree.
- Stride.PickKeepsWindow: processes that join the queue with a stride outside the window; the code does not adjust them.
- SfsBuilder.Sfs: cached inodes and blocks are reached by their numbers instead of by pointers; opening, reading and
  writing host files and the image become parameters and a map of what was written, and errors from them other than in
  `read` and `readlink` are left out. The stack of path names serves messages only.
- SfsBuilder.Sfs.CreateImg: host numbers tell regular files from the rest, as on one file system, and are not 0; link
  counts are stated modulo 2^16, the width of the field.
- SfsBuilder.Sfs.CreateImg: with several kinds of trouble in a tree the one reported is one of them, not said to be the
  first.
- SfsBuilder.Sfs.AddEntry: a name longer than 252 characters loses its end, because 256 bytes of a longer record are
  written; longer names of one directory may therefore become the same.
- PrintFmt.VPrintFmt: widths and precisions beyond an `int`, the smallest `int` as an error code, arguments that do not
  match the format, and text longer than an `int` counts.
- PrintPieces.FormatsMean: flags repeated or in another order than written here; `PrintFmt.VPrintFmt` covers them.
- Numbers.Strtol: results outside a `long`.
- Devicetree.ExtractMemoryInfo: structure blocks that are not well formed, and a blob not aligned to eight bytes.
- `default_pmm.c` and `best_fit_pmm.c`: their insertion into the sorted list goes on after adding at the end, so the
  list is not what it should be.
- `ksize`, interrupts and locking, console and monitor, traps, processes and the file system in the kernel.
