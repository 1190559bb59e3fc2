# Verification of the shared dictionary

A Dafny model of the shared-memory dictionary: the slab allocator, the red-black tree, the
queue, the dictionary on top of them, and the protocol by which a pool file is created and
published. It states what these components promise to their callers and proves it for all
inputs and all reachable states.

`dafny verify dfyconfig.toml` checks everything.

## How the model is laid out

| files | what they model |
|---|---|
| `Seqs.dfy`, `Powers.dfy` | sequences and powers of two |
| `NgxString.dfy` | the comparison of byte strings |
| `RbShape`, `RbBalance`, `RbMoves`, `RbFixup`, `RbSplice`, `RbOrder`, `RbTree` | the red-black tree: ghost trees and contexts, colours, rotations, fixups, splicing, comparators, and the class with the linked records |
| `Queue.dfy` | the circular queue |
| `SlabList`, `SlabBlocks`, `SlabPages` | page descriptors and their lists, blocks of pages, boundary tags and coalescing |
| `SlabLayout`, `SlabChunks`, `SlabLive`, `SlabRoom`, `SlabSpans`, `Slab` | sizes and addresses, chunk bitmaps and slot lists, live allocations and counters, room for a request, also in bytes, the class of the pool |
| `DictState`, `DictRoom`, `DictSpec`, `DictLaws`, `DictTime`, `DictEffects`, `Dict`, `DictRun` | the records of the dictionary, the memory they take, its abstract items and operations, what callers can rely on of memory, of the clock and of each operation, the class, a run that loses a value |
| `Publish.dfy` | create, initialise, publish and open as steps of concurrent processes |

Everything is linked by offsets, as in the program. Page descriptors are numbered in the order
of their offsets (0 is the null offset, 1 the head of the free list, then the slot heads, then
the pages). Words of the pool are sets of bit positions where they are used as bit sets and
numbers where they are used as numbers. The records of the tree, the queues and the dictionary
are kept in maps keyed by the address of the allocation they live in; that a free or an
allocation does not disturb them is what `ContentsKept` in the contracts of `Slab.Pool` says.

The pool starts at a page boundary, words have 64 bits, a page has 64 to 65536 bytes. Hash
values are an arbitrary function of the key, so collisions are allowed everywhere. Each
reading of the clock is an input (`clock(i)`), and so is what uninitialised memory holds. Every operation on the pool or the dictionary is
one step under the lock. A dictionary is the sequence `items`, the most recent one first.

## Where the code differs from what its comments say

- `mps_shdict_safe_set` is described as never overriding an unexpired value
  (src/mps_shdict.h:72-76). It does replace the value of its own key, and when the sizes differ
  and there is no room the old value is already gone (`DictRun.SafeSetRun` is a run that shows it).
  `DictLaws.SafeStoreOwn` says for every call when the old value survives, is overwritten, or is
  lost. What a safe store never does is evict items of other keys that have not expired
  (`DictLaws.SafeStoreKeeps`).
- The comment in `mps_shdict_expire` (src/mps_shdict.c:395-399) speaks of entries of rate zero;
  after the first entry of a forced round the code removes only entries that are due.
- Lookup treats an item as expired when `expires < now`, expiry removes it at `expires <= now`.
- A time to live that ends when the clock is 0 modulo 2^64 is none: 0 stands for no expiry
  (`DictTime.TimeLost`). All laws on times to live name that case.
- A set of a string with a NULL buffer acts as a delete.
- `mps_shdict_flush_all` leaves all but up to three items in place, marked as expired.
- After the root has been deleted the parent link of the new root is stale; parent links are
  claimed below the root only.
- The free block that a new pool starts with has no tag on its last page; tags are claimed where
  a page follows.

## Model

| member | source | states |
|---|---|---|
| NgxString.Memn2cmpIsLex | src/ngx_string.c:10-31 | the comparison is below 0 exactly when the first string comes first in the dictionary order of byte strings (a reference definition), and 0 exactly on equal strings |
| NgxString.Memn2cmpTotalOrder | src/ngx_string.c:10-31 | it is a strict total order: antisymmetric, transitive, and any two different strings are comparable |
| RbTree.RbTree.constructor | src/mps_rbtree.c:32-46 | an empty tree: root is the sentinel, the sentinel is black |
| RbTree.RbTree.LeftRotate | src/mps_rbtree.c:374-407 | with all parent links and the root pointer, the subtree in focus is rotated left; of all records in the pool only the node, its right child, the left child of that and the parent may be written |
| RbTree.RbTree.RightRotate | src/mps_rbtree.c:409-442 | the mirror image, with the same four records |
| RbMoves.LeftRotateFocus | src/mps_rbtree.c:374-407 | why the pointer writes of a left rotation leave a well-linked tree |
| RbMoves.RightRotateFocus | src/mps_rbtree.c:409-442 | the same for a right rotation |
| RbTree.RbTree.InsertValue | src/mps_rbtree.c:129-153 | the descent hangs the node as a red leaf where the comparator sends it; also the timer and dictionary variants |
| RbTree.RbTree.RebalanceStep | src/mps_rbtree.c:76-124 | one turn of the rebalancing loop keeps the sequence and either ends the colour conflict or moves it towards the root |
| RbTree.RbTree.Insert | src/mps_rbtree.c:48-127 | from any valid tree: terminates, all red-black invariants hold again, the in-order sequence is the old one with the node at one position, and that position is the one between the nodes that the comparator puts before and after it |
| RbTree.RbTree.FixupStep | src/mps_rbtree.c:297-369 | one turn of the delete fixup keeps the sequence and fills the missing black or moves it up |
| RbTree.RbTree.Delete | src/mps_rbtree.c:192-372 | from any valid tree and any node in it: terminates, all red-black invariants hold (root, colours, black heights, parent links below the root), and the in-order sequence is the old one without exactly that node |
| RbFixup.RecoloredKeeps | src/mps_rbtree.c:83-87 | recolouring parent, uncle and grandparent keeps black heights and sequence |
| RbFixup.FilledKeeps | src/mps_rbtree.c:327-331 | the last rotation of the fixup makes all black heights equal again |
| RbSplice.SpliceShort | src/mps_rbtree.c:213-283 | cutting out a node with two children leaves the tree one black short at one place at most |
| RbTree.RbTree.Min | src/mps_rbtree.h:89-98 | the leftmost node of a subtree |
| RbTree.RbTree.Next | src/mps_rbtree.c:444-472 | the successor in the in-order sequence, NULL after the last, although the parent link of the root may be stale |
| RbTree.RbTree.Walk | src/mps_rbtree.c:444-472 | from the minimum on, repeated calls visit every node exactly once, in order, and then stop |
| RbBalance.HeightBound | src/mps_rbtree.c:48-127 | in a red-black tree of n nodes, two to the height is at most (n+1) squared |
| RbBalance.DescentBound | src/mps_shdict.c:333-375 | any way down from the root takes at most 2*log2(n+1) steps |
| RbOrder.StandardInsert | src/mps_rbtree.c:129-153 | standard comparator: the sequence stays ascending and the new node comes after every node with a key of at most its own |
| RbOrder.TimerCompares | src/mps_rbtree.c:170-175 | timer comparator: inside a window narrower than half the word it compares distances from the start of the window, across wrap-around |
| RbOrder.TimerInsert | src/mps_rbtree.c:155-190 | hence an insertion keeps the sequence sorted by that distance |
| RbOrder.TimerOrderIff | src/mps_rbtree.c:170-175 | the comparator is a strict order on some keys if and only if one window narrower than half the word holds them all |
| RbOrder.TimerCircle | src/mps_rbtree.c:170-175 | three keys that no window holds, ordered in a circle |
| RbOrder.LuadictOrder | src/mps_shdict.c:143-185 | hash, then key string, is a strict total order |
| RbOrder.AscendingInsert | src/mps_shdict.c:143-185 | inserting a key that is not there keeps the index strictly ascending |
| RbTree.RbTree.Search | src/mps_shdict.c:333-375 | the lookup loop finds a node exactly when one with this hash and key string is in the tree, also among equal hashes, within the bound on steps |
| Queue.Queues.Init | src/mps_queue.h:23-27 | an empty ring |
| Queue.Queues.InsertHead | src/mps_queue.h:31-39 | the member comes first in the ring; links outside the ring are untouched |
| Queue.Queues.InsertTail | src/mps_queue.h:43-51 | the member comes last |
| Queue.Queues.Remove | src/mps_queue.h:78-85 | the ring without the member, in the same order; the member keeps its own links |
| SlabLayout.SizesInit | src/mps_slab.c:91-104 | page shift, largest chunk request, exact size and its shift of a power-of-two page size |
| SlabLayout.InitFits | src/mps_slab.c:193-216 | the adjustment for the alignment of the first page is by at most one page, and the pages that are left end before the pool does |
| SlabLayout.Layout | src/mps_slab.c:166-220 | the geometry of a new pool: at most one page fewer than first computed, the descriptors end before the first page begins, and all pages are inside the pool |
| SlabLayout.ReservedFacts | src/mps_slab.c:580-599 | the chunks set aside for the bitmap of a page of small chunks hold all its words, and at least two chunks remain |
| SlabLayout.CountFacts | src/mps_slab.c:96-99 | chunk counts: 64 for the exact size, at most 32 for larger and at least 128 for smaller ones |
| Slab.Pool.constructor | src/mps_slab.c:146-224 | the base case: a new pool satisfies the whole invariant, with nothing live and all pages in one free block |
| SlabBlocks.Owner | src/mps_slab.c:913-1049 | every page belongs to exactly one block |
| SlabBlocks.FreeRunIff | src/mps_slab.c:918-960 | some free block has k pages if and only if some k consecutive pages are free |
| SlabBlocks.TakenTiled | src/mps_slab.c:921-943 | splitting a free block keeps the blocks covering all pages without overlap, free blocks apart |
| SlabBlocks.FreedTiled | src/mps_slab.c:976-1036 | freeing with coalescing on both sides does too: no two free blocks are neighbours |
| SlabBlocks.TakenCount | src/mps_slab.c:946 | taking k pages leaves k fewer free |
| SlabBlocks.FreedCount | src/mps_slab.c:974 | freeing a block makes its pages free and no others |
| SlabPages.TakenPages | src/mps_slab.c:923-957 | after a split the descriptors, the boundary tag and the free list say exactly what the blocks are |
| SlabPages.TakenWhole | src/mps_slab.c:935-957 | the same when a whole block is taken |
| SlabPages.RightTest | src/mps_slab.c:989-995 | the test for coalescing with the block after decides exactly whether it is free |
| SlabPages.LeftTest | src/mps_slab.c:1011-1020 | the test for the block before, through the tag on its last page, decides exactly whether it is free and leads to its head |
| SlabPages.MergedLoose | src/mps_slab.c:996-1033 | after two blocks are made one, all descriptors agree with the blocks |
| SlabPages.PushedPages | src/mps_slab.c:1038-1048 | after the tag is written and the block is listed, the page invariant holds |
| Slab.Pool.AllocPages | src/mps_slab.c:913-967 | first fit: the first listed block with room is split; NULL if and only if no such run of free pages exists; pages in use are not touched |
| Slab.Pool.FreePages | src/mps_slab.c:969-1049 | the block is free again and coalesced on both sides, pfree counts it, a slot list it was in has lost exactly this page; pages in use are not touched |
| SlabChunks.TakenChunk | src/mps_slab.c:473-567 | after a chunk is given out, every page, bitmap and slot list agrees again: a page is listed exactly while it has a free chunk |
| SlabChunks.FreedChunk | src/mps_slab.c:732-746 | after a chunk is taken back, the same |
| SlabChunks.FreshSlice | src/mps_slab.c:574-646 | after a page is cut into chunks, the same |
| SlabChunks.GoneSlice | src/mps_slab.c:769-771 | after the last chunk of a page is taken back and the page is given up, the same |
| SlabChunks.LowBitsOf | src/mps_slab.c:633 | the shift kept in the low bits of the slab word of a larger chunk size survives whatever the map bits are |
| Slab.Pool.FindWord | src/mps_slab.c:479-482 | the bitmap of a listed page always has a zero bit: the "page is busy" path is unreachable |
| Slab.Pool.FindBit | src/mps_slab.c:483-486 | the lowest zero bit; there is one in the word of a listed page, so again the "page is busy" path is unreachable |
| Slab.Pool.TakeSmall | src/mps_slab.c:473-514 | small chunks: the lowest free chunk is marked in the bitmap; the page leaves its list if and only if it has become full |
| Slab.Pool.TakeExact | src/mps_slab.c:516-538 | exact size: the same in the slab word |
| Slab.Pool.TakeBig | src/mps_slab.c:540-567 | larger chunks: the same in the upper half of the slab word |
| Slab.Pool.AllocFront | src/mps_slab.c:468-567 | the lowest free chunk of the first listed page is given out and counted; contents of live allocations are untouched |
| Slab.Pool.InitBitmap | src/mps_slab.c:588-599 | the bitmap marks exactly the chunks that hold it and the first other one |
| Slab.Pool.AllocFresh | src/mps_slab.c:574-652 | without a listed page the first fitting free page is cut up; fails if and only if no page is free, and then changes nothing |
| Slab.Pool.SizeShift | src/mps_slab.c:449-454 | the exponent of the smallest power of two that is at least the size |
| Slab.Pool.AllocLarge | src/mps_slab.c:431-447 | whole pages, enough for the size; fails if and only if there is no such run |
| Slab.Pool.AllocChunk | src/mps_slab.c:449-652 | requests and failures are counted; where the chunk comes from; fails if and only if no page of the size has a free chunk and no page is free |
| Slab.Pool.Alloc | src/mps_slab.c:424-659 | above half a page: not NULL if and only if some pages in a row, together large enough, have no byte allocated; otherwise if and only if some page, in which all that is allocated are chunks of the size, has a chunk that is not; what is returned is aligned, in the pages, clear of what was live, of as many pages as the request takes or of the least power of two that fits, from a page in use if one offers a chunk; it is added to the live allocations, whose contents stay |
| Slab.Pool.GiveBack | src/mps_slab.c:732-746 | a full page is listed again before the mark of the chunk is cleared |
| Slab.Pool.IsEmpty | src/mps_slab.c:748-767 | the scan finds out exactly whether a chunk of the page is still in use |
| Slab.Pool.ReleasePage | src/mps_slab.c:769-771 | a page without chunks in use goes back to the free pages and its counters with it |
| Slab.Pool.FreeChunk | src/mps_slab.c:732-773 | a chunk is no longer live, its page goes back with its last chunk; no contents are written, not even those of the chunk |
| Slab.Pool.FreeInPages | src/mps_slab.c:858-882 | whole pages: freed at their first address only; any other address in them or in free pages changes nothing |
| Slab.Pool.FreeInSlice | src/mps_slab.c:718-856 | pages of chunks: freed at the address of a live chunk only; a misaligned address or a free chunk changes nothing |
| Slab.Pool.Free | src/mps_slab.c:695-911 | a live address is removed from the live allocations; an address that is not live changes nothing at all, also one behind the last page where the pool has a spare descriptor; no contents are written |
| Slab.Pool.MarkedMeans | src/mps_slab.c:732 | the mark that a free looks at is set exactly for live chunks and for the chunks that hold the bitmap, which are never live: the condition that Free requires is exactly what the code does not check |
| Slab.Pool.BitmapFreed | src/mps_slab.c:695-746 | every page of small chunks has such an address, its first: a free of it would find the mark set and clear it, and the chunk that holds the bitmap would pass for the lowest free one |
| Slab.Pool.RoomIff | src/mps_slab.c:424-659 | whether a request succeeds depends on nothing but which allocations are live: for large ones a run of pages without allocations, otherwise a page that holds only chunks of the right size, but not all |
| SlabRoom.RoomFewer | src/mps_slab.c:695-911 | with fewer allocations there is at least as much room |
| SlabRoom.RoomForTwo | src/mps_slab.c:424-659 | a page without allocations, and another that offers a chunk for the first of two small requests, are room for both |
| SlabRoom.SamePlace | src/mps_slab.c:424-659 | whether the second of two requests succeeds does not depend on which of the chunks it may be given the first one gets, if both are small, or the first is and a page in use offers a chunk for it |
| SlabRoom.ClassRoom | src/mps_slab.c:449-578 | slot lists and free pages together say exactly whether a page can give out a chunk of a size |
| SlabRoom.RunRoom | src/mps_slab.c:918-960 | a run of free pages is a run of pages without allocations |
| SlabSpans.LargeIff | src/mps_slab.c:424-447 | room for a request above half a page means in bytes: some pages in a row, together large enough, of which no byte is allocated |
| SlabSpans.PagesGive | src/mps_slab.c:431-447 | any such pages are room, however many are needed |
| SlabSpans.SmallIff | src/mps_slab.c:449-578 | room for a smaller request means: some page where all that is allocated are chunks of the least power of two that fits, and one chunk outside the bitmap is not allocated |
| SlabSpans.ChunkGives | src/mps_slab.c:449-578 | any such chunk is room |
| Slab.Pool.Release | src/mps_slab.c:695-911 | a live address can be freed; whatever had room before has it still |
| Slab.Pool.Write | src/mps_slab.c:424-911 | a client may write any word of its allocation: the pool stays valid, no other allocation changes |
| SlabLive.LiveApart | src/mps_slab.c:424-911 | live allocations are pairwise disjoint |
| SlabLive.LiveInside | src/mps_slab.c:424-911 | they lie inside the data pages |
| SlabLive.LiveAligned | src/mps_slab.c:424-911 | chunks are aligned to their size, whole pages to the page size |
| SlabLive.LiveOffBitmap | src/mps_slab.c:424-911 | they never overlap a bitmap |
| SlabLive.BitmapKept | src/mps_slab.c:695-911 | writes to a bitmap touch no live allocation, so reading the next link out of an element just freed is right |
| Slab.Pool.Separate | src/mps_slab.c:424-911 | in every reachable state: disjoint and inside the pool |
| Slab.Pool.Alignment | src/mps_slab.c:424-911 | in every reachable state: aligned |
| Slab.Pool.OffBitmaps | src/mps_slab.c:424-911 | in every reachable state: clear of all bitmaps |
| SlabLive.NothingLive | src/mps_slab.c:607-855 | when nothing is live: one free block of all pages, every slot list empty, used and total zero |
| Slab.Pool.AllFreed | src/mps_slab.c:424-1049 | whole-run conservation: in any reachable state with nothing live the pool is as new, and pfree is the number of all pages |
| Dict.Dict.constructor | src/mps_shdict.c:187-208 | an empty dictionary in a pool whose only allocation is the header |
| Dict.OnInit | src/mps_shdict.c:187-208 | NULL if and only if the pool has no room for the header; otherwise a new, empty dictionary |
| DictState.TouchOk | src/mps_shdict.c:352-353 | moving an entry to the front of the recency queue keeps index, queue, lists and allocations in agreement |
| DictState.DropOk | src/mps_shdict.c:423-442 | so does removing an entry with its list |
| DictState.AddOk | src/mps_shdict.c:676-696 | so does a new entry |
| DictState.SetOk | src/mps_shdict.c:571-590 | so does a new value, or a list with one element more or fewer |
| Dict.Dict.FreeThenRead | src/mps_shdict.c:426-432 | an element is freed and its link to the next one read afterwards: no word that was live before the free is written, and so none of the element itself |
| Dict.Dict.FreeNodes | src/mps_shdict.c:426-432 | the loop releases exactly the elements of the list, and writes no contents of what stays |
| Dict.Dict.DropEntry | src/mps_shdict.c:423-442 | exactly this entry and its elements leave queue, index and pool |
| Dict.Dict.Expire | src/mps_shdict.c:382-448 | the items removed are exactly those counted by ExpireCount, from the end of the recency queue |
| DictSpec.ExpireCount | src/mps_shdict.c:401-445 | at most two for n = 1, at most three for n = 0 |
| DictSpec.ExpireSuffix | src/mps_shdict.c:401-445 | only least recent items go, all of them due, except the very first one of a forced round, which always removes something |
| DictTime.ExpireTwo | src/mps_shdict.c:401-418 | which items go for n = 1, with the last two written out: the last one if and only if the clock is at its expiry or past it, then the one before it likewise, and no more |
| DictTime.ExpireThree | src/mps_shdict.c:401-418 | for n = 0 the last one whatever its expiry, and of the two before it those that are over |
| DictSpec.DueSoonExpired | src/mps_shdict.c:361-365 | an item removed as due (at expires <= now) reads as expired at any later clock: the two comparisons of the code agree but for the same millisecond |
| Dict.Dict.Peek | src/mps_shdict.c:1107-1150 | finds an entry if and only if an item has the key, and changes nothing |
| DictSpec.FoundAt | src/mps_shdict.c:1107-1150 | the entry found through the index is the one of the item with the key |
| Dict.Dict.Lookup | src/mps_shdict.c:317-380 | declined if and only if no item has the key; OK if and only if the item found has no expiry or one that is not behind the clock (at most 2^63 - 1 milliseconds ahead, modulo 2^64), else done; the item becomes the most recent |
| DictTime.LookupLive | src/mps_shdict.c:352-371 | with the items written out: the item found moves to the front, the others keep their order, and it is live if and only if its expiry is 0 or (expires - now) mod 2^64 is below 2^63 |
| DictTime.LookupAhead | src/mps_shdict.c:359-368 | an expiry t milliseconds ahead of the clock, modulo its range, is live if and only if t is below half the range |
| Dict.Dict.TakeForced | src/mps_shdict.c:634-670 | forced eviction, only without room and never for safe operations: exactly so many entries go from the end of the recency order as rounds of expiry, at most 30, need to make room; it fails if and only if there is none even then |
| DictLaws.ForcedBound | src/mps_shdict.c:639-670 | nothing is evicted while there is room; at most 90 entries go; it gives up only when all are gone or after 30 rounds |
| DictLaws.ForcedNeeded | src/mps_shdict.c:639-670 | no more is evicted than needed: with the entries of the last round, three at most, still there, there was no room |
| Dict.Dict.Reuse | src/mps_shdict.c:560-590 | a value of the same length is replaced in place |
| Dict.Dict.PutNew | src/mps_shdict.c:634-699 | a new entry or, if and only if there is no room even then, no memory, after exactly what had to be evicted |
| Dict.Dict.Store | src/mps_shdict.c:452-700 | set, safe_set, add, safe_add, replace and delete as operations on the items in order of recency: every outcome, with eviction and no memory, is determined by the items, the clock and what is allocated before the call |
| DictEffects.StoreFound | src/mps_shdict.c:510-604 | a store of a key that has an item, with the items written out: an add of a live key and a replace of an expired one are declined; a value of the same length is written over in place, whatever the memory holds; nil takes the item away and only it; otherwise it makes way for a new item in front |
| DictEffects.StoreAbsent | src/mps_shdict.c:510-700 | a store of a key that has none: a replace is declined, nil does nothing, otherwise a new item is in front of the others or, without room, they are left as they are but for those evicted |
| DictEffects.StoredLives | src/mps_shdict.c:571-577 | after a store with a time to live of t milliseconds at clock c a lookup at c + d, d < 2^63, finds the item live if and only if d <= t, and get_ttl returns t - d; that holds if and only if c + t is not 0 modulo 2^64; in that case, as without a time to live, the item is live at any time |
| DictEffects.StoreGet | src/mps_shdict.c:481-508 | round trip: a get d milliseconds after a store returns the kind, bytes and flags stored (a string or number as given, a boolean as 1 or 0) if the time to live is not over by then, and nothing if it is |
| DictEffects.Deleted | src/mps_shdict.c:528-531 | after a delete no item has the key and all others are there in their order |
| DictEffects.StoreFits | src/mps_shdict.c:634-670 | a new key when nothing has expired: a safe store succeeds if and only if there is room for 68 bytes, key and value; any other store evicts if and only if there is not and there is something to evict |
| DictLaws.StoreMemory | src/mps_shdict.c:623-670 | memory shortage and nothing else makes a store fail or evict: a safe store fails if and only if it would make a new entry and there is no room when the other entries are kept |
| DictLaws.StoreEnough | src/mps_shdict.c:623-670 | room before the call is enough: no failure and nothing evicted |
| DictLaws.SafeStoreOwn | src/mps_shdict.h:72-76 | the unexpired value of the key itself survives a safe store if and only if it is an add or writes the same item again; it is overwritten if and only if the store succeeds, and lost if and only if there is no new value, or one of another length and no room |
| DictLaws.SafeSetLoses | src/mps_shdict.h:72-76 | in a pool as mps_slab_init lays out 8192 bytes safe_set of a longer value fails and the unexpired value is gone |
| DictRun.SafeSetRun | src/mps_shdict.h:72-76 | the same as a run: a new pool, on_init, a set, a get that finds the value, a safe_set that fails, a get that finds nothing |
| DictLaws.SafeStoreKeeps | src/mps_shdict.c:641-646 | a safe store never loses an item of another key that is not due |
| DictLaws.StoredIsFound | src/mps_shdict.c:672-699 | what a successful store has written is what a lookup of the key finds, at once unexpired if no expiry was given |
| Dict.Dict.Get | src/mps_shdict.c:759-873 | value, flags and staleness of the item; lists are refused; the "bad value" errors are unreachable |
| DictTime.GetLive | src/mps_shdict.c:773-872 | value and flags of a live item, those of an expired one only on request and marked as stale, an error for a list |
| Dict.Dict.GetTtl | src/mps_shdict.c:1152-1186 | the time left, without touching the order |
| DictTime.TtlAmount | src/mps_shdict.c:1170-1185 | 0 without an expiry, otherwise how many milliseconds the expiry is ahead of the clock, negative if behind |
| Dict.Dict.SetExpire | src/mps_shdict.c:1188-1226 | only the expiry of this item changes |
| DictTime.SetExpireLives | src/mps_shdict.c:1195-1226 | after a set_expire of t milliseconds at clock c the item lives until c + t, as after a store; nothing else of it changes, and no other item |
| DictTime.TimeLost | src/mps_shdict.c:1215-1220 | a set_expire of one millisecond just before the clock starts again from 0 makes the item live for ever: 0 stands for no expiry |
| Dict.Dict.FlushAll | src/mps_shdict.c:1081-1105 | every item is marked as expired, then one forced round of expiry runs |
| DictSpec.FlushedExpired | src/mps_shdict.c:1081-1105 | after a flush no lookup finds a live item |
| DictTime.FlushLeaves | src/mps_shdict.c:1092-1100 | exactly the last three items go, or all if there are fewer; the others stay in their order |
| Dict.Dict.Incr | src/mps_shdict.c:875-1079 | adds to a number, replaces an expired value, or creates the entry, for every outcome, eviction and no memory as in a store; the order of the index is kept when the comparator goes the same way by the old bytes as by the key |
| DictEffects.IncrFound | src/mps_shdict.c:909-978 | with the items written out: a live number becomes its old bytes plus the value, in front, flags and expiry kept; any other live value is an error; an expired item makes way for value plus init, or is left alone without an init |
| DictEffects.IncrAbsent | src/mps_shdict.c:909-959 | a key without an item: value plus init in front of the others, or an error |
| DictEffects.IncrStored | src/mps_shdict.c:962-1078 | whenever an incr succeeds, what it returns is what it has stored, in front |
| DictEffects.IncrLives | src/mps_shdict.c:1058-1066 | the time to live of a number made from init, as after a store |
| DictEffects.IncrGet | src/mps_shdict.c:962-973 | a get after an incr returns the sum |
| DictEffects.IncrTwice | src/mps_shdict.c:962-973 | two incrs in a row add twice and keep flags and expiry |
| DictSpec.RenameOrder | src/mps_shdict.c:1045-1072 | inserting before the key is written keeps the order if and only if the comparator would have gone the same way with the key at every node |
| DictSpec.NoCollision | src/mps_shdict.c:1045-1072 | which is so when no other live entry has the same hash |
| DictSpec.IncrBreaksOrder | src/mps_shdict.c:1045-1072 | and not so in general: two keys of one hash and unlucky memory leave the index out of order |
| DictLaws.IncrOrderIff | src/mps_shdict.c:1045-1072 | in every state of the dictionary: after an incr has inserted under the bytes its memory held the index is in order if and only if the comparator goes the same way by the key at every live entry of that hash |
| DictLaws.IncrBreaksIndex | src/mps_shdict.c:1045-1072 | a dictionary with one number, where an incr of another key leaves the index without the order that lookups rely on |
| DictLaws.MemoryMatters | src/mps_shdict.c:1045-1072 | an incr is safe whatever the memory holds if and only if each live key with the same hash sorts before all strings of the length of the key, or after all of them |
| DictLaws.IncrMemory | src/mps_shdict.c:962-1043 | an incr fails or evicts only without room; room before the call is enough |
| Dict.Dict.Push | src/mps_shdict.c:1246-1472 | a live list grows on the left or right, any other key gets a list of one, a scalar is refused; it fails if and only if there is no room for what it asks for, and then no empty list stays behind |
| DictEffects.PushFound | src/mps_shdict.c:1294-1472 | with the items written out: a live list grows on the side asked for and keeps flags and expiry; a live scalar is an error; what has expired makes way for a list of one element without expiry, or is gone if there is no room |
| DictEffects.PushAbsent | src/mps_shdict.c:1362-1472 | a key without an item gets a list of one element, in front; without room nothing changes |
| DictEffects.PushFits | src/mps_shdict.c:1362-1443 | when nothing has expired: a push to a live list succeeds if and only if there is room for 21 bytes and the element; one to a new key if and only if there is room for 84 bytes and the key, up to a multiple of 8, and then for the element |
| DictLaws.PushMemory | src/mps_shdict.c:1362-1443 | a push fails if and only if the live value is no list or there is no room; for a key with a list, room for the element before the call is enough |
| DictLaws.PushEnough | src/mps_shdict.c:1362-1443 | for any key without a scalar a page without allocations, and another that offers a chunk for the entry, are enough before the call, if entry and element take at most half a page each |
| DictLaws.PushDetermined | src/mps_shdict.c:1362-1443 | the outcome of a push is fixed by the items, the clock and what is allocated before the call, wherever the pool puts a new list: if entry and element take at most half a page each, or the entry does and a page in use offers a chunk for it |
| DictLaws.PushKeeps | src/mps_shdict.c:1286-1288 | a push never loses an item of another key that is not due |
| Dict.Dict.Pop | src/mps_shdict.c:1492-1628 | the first or last element; the entry goes with its last element; the "bad empty value" and "bad list node" errors are unreachable |
| DictEffects.PopList | src/mps_shdict.c:1516-1628 | a left pop of [x] + rest, or a right pop of rest + [x], returns x and leaves rest in front, without an entry if rest is empty; all other items stay |
| DictEffects.PopOther | src/mps_shdict.c:1516-1538 | nothing without a live value, an error for a scalar; only the order changes |
| DictEffects.PushPop | src/mps_shdict.c:1246-1628 | a push and then a pop on the same side: the pushed element comes back and the list is as it was, with no entry if there was none |
| DictEffects.PushPopOther | src/mps_shdict.c:1246-1628 | a push and then a pop on the other side: the oldest element comes out and the new one stays behind the rest |
| Dict.Dict.Llen | src/mps_shdict.c:1630-1674 | the length of a live list |
| DictEffects.LlenFound | src/mps_shdict.c:1645-1673 | the number of elements of a live list, 0 without a live value, an error for a scalar |
| Dict.Dict.NoLeak | src/mps_shdict.c:452-1674 | between calls the live allocations are exactly the header, the entries and the list elements; index and recency queue have the same entries with distinct keys; every list entry records its length, never 0 |
| Dict.Dict.RecordsApart | src/mps_shdict.c:452-1674 | every record fits its allocation, and no two allocations of the dictionary overlap |
| Dict.Dict.ListsShort | src/mps_shdict.c:1445-1447 | each element of a list has at least 21 bytes of its own, so no list is too long for its counter in a pool of less than 2^32 - 1 times that |
| Publish.StepKeeps | src/mps_slab.c:245-392 | each call of each process keeps the protocol invariant, and no call changes a published pool file |
| Publish.InitialisedOnce | src/mps_slab.c:245-392 | over all interleavings at most one process runs mps_slab_init on a file, the one that created it |
| Publish.ReturnedIsReady | src/mps_slab.c:328-392 | every process that returns a pool has one that is initialised by its creator, with on_init completed, and published |
| Publish.PublishedStays | src/mps_slab.c:245-392 | a published pool is never created or initialised again |
| Publish.CreatorDied | src/mps_slab.c:245-392 | if the creator fails before it publishes, no process ever returns that pool |

## Left out

- Slab.Pool.Free: requires that the address is not that of a chunk holding a bitmap (`OnBitmap`) and, if it is between the last managed page and the end of the pool, that the pool has the spare descriptor that is left when one page fewer fits than first computed (`tail`), which makes the free a no-op; without it the source reads beyond the descriptors. mps_slab_free_locked checks neither. `Slab.Pool.MarkedMeans` shows that for the first kind its test passes although nothing is live there, `Slab.Pool.BitmapFreed` that such addresses exist and what the free does to the bitmap.
- Slab.Pool.constructor: requires that at least one page fits behind the header and the descriptors, that the smallest chunk is smaller than a page (`minShift < ps`), and pages of 64 to 65536 bytes; mps_slab_init checks none of this.
- Dict.Dict.Incr: requires that the bytes found in the memory of the new entry compare with live keys of the same hash as the key does, because the code inserts before it writes the key; `DictSpec.RenameOrder` shows that the condition is exact, `DictLaws.MemoryMatters` says for which keys no contents can break it.
- Dict.Dict.Push: requires every list to be shorter than 2^32 - 1 elements, so that the length does not wrap around; `Dict.Dict.ListsShort` shows that this is so in any pool of less than about 90 gigabytes. Where the pool puts a new list, is an output (`head`, `cap`); `DictLaws.PushDetermined` shows when it makes no difference. For longer keys or elements the order of the free list decides, which is not part of what is known before the call.
- Dict.Dict.Store: requires keys of 1 to 65535 bytes and entries below 2^31 bytes, the ranges in which the conversions to `u_short` and `int` lose nothing.
- DictState.SetOk: the records of an entry are one map entry each; that they fit the allocation is proved (`Dict.Dict.RecordsApart`), where in it the list head and the value lie, and their alignment, is not modelled.
- The mmap, shm_open, ftruncate and mutex calls; only their success or failure appears, in the protocol.
- The protocol assumes unprivileged processes, which mode 0400 keeps from opening for writing, and one path that nobody unlinks.
- A wrong comparator id in mps_rbtree_init (EINVAL), which the dictionary never passes.
- The list of open dictionaries of a process and its realloc.
- The hash function itself, and the arithmetic of doubles: addition is a parameter of incr.
- Buffers that get and pop allocate for the caller, with their errors when that fails or the buffer for a boolean is too small; error strings and logging.
- Allocation with clearing (mps_slab_calloc), filling freed memory with junk, and the 32-bit layout.
- mps_queue_split and mps_queue_add, which nothing calls, and mps_shdict_capacity and mps_shdict_free_space, which only read a field.
- How fast anything is, apart from the bound on descents in the tree.
