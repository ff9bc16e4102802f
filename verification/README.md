# A verified model of the data structures in this collection

The repository collects annotated sources and small programs around nginx 1.0.15: the server's
core containers and codecs, a JSON syntax checker, a string search, a graph with a topological
sort, and formulas for binomial coefficients. This project models the parts whose correctness is
hard to see from the code and proves what they are for, for every input, every state that can be
reached and every run. Code that updates memory in place is modelled by classes and arrays that
are updated in place; code that computes is modelled by functions.

| files | what they model |
|---|---|
| `Common` | what several of the models use |
| `RedBlackShape`, `RedBlackSteps`, `RedBlackTree` | the red-black tree: nodes linked in memory, one shared sentinel, rotations, insertion and deletion with their repair loops |
| `SharedMutex` | the mutex in shared memory: one atomic word with a lock bit and a count of waiters, and a semaphore, as a state machine over all interleavings of any number of processes |
| `SlabRing`, `SlabState`, `SlabLive`, `SlabSteps`, `SlabRuns`, `SlabEffects`, `SlabMarks`, `SlabFacts`, `SlabPool` | the slab allocator: page descriptors on rings, runs of pages, pages cut into chunks with three encodings of their bitmaps |
| `FileCacheState`, `FileCacheAnswers`, `FileCache` | the cache of open files: the tree by name, the queue by age, reference counts and descriptors |
| `JsonTable`, `JsonGrammar`, `JsonSound`, `JsonComplete`, `JsonChecker` | the JSON checker: its transition table and mode stack against a grammar of JSON |
| `HashTable`, `HashBuild`, `HashWildcard`, `HashTrie` | the static hash as bytes in memory, how it is sized and built, the trie of names with wildcards, and that trie in memory: nested hashes behind pointers with two tag bits |
| `RadixShape`, `RadixTree` | the radix tree of IPv4 prefixes with its list of freed nodes |
| `Inet6`, `Inet6RoundTrip` | reading and printing IPv4 and IPv6 addresses |
| `Base64`, `UriEscape`, `Md5Stream` | Base64, the escaping of URIs, and the buffering and padding of MD5 |
| `Gmtime` | the conversion of seconds to a calendar date |
| `Kmp`, `Graph`, `Binomial` | the Knuth-Morris-Pratt search, the digraph and its topological sort, and three ways to compute binomial coefficients |

How the proofs are built:

- The red-black tree keeps a ghost tree beside the nodes. Every step works at a position in that
  tree, a context and the subtree in it, and changes both the links and the ghost tree. The
  colour rules, the order and the set of nodes are then facts about the ghost tree.
- The mutex has an inductive invariant over one step of any process: the waiters counted in the
  word, the posts made and the posts under way add up to the processes committed to wait.
- The slab pool has a ghost map of the live allocations. Allocation and freeing are an insertion
  into and a removal from that map; no overlap, alignment and conservation of pages follow from
  what relates the map to the page descriptors and bitmaps.
- The cache of open files has a ghost owner for every open descriptor and a multiset of the
  references that requests hold. A descriptor is open exactly as long as an entry owns it, or it
  was lost.
- Names with wildcards are looked up in three forms, each proved equal to the next: the nested
  tables in memory, the trie they hold, and a scan of all patterns for the longest that matches.
- The JSON checker is related to a grammar in both directions: every state of the automaton is
  that of a text under construction, and every text of the grammar drives the automaton.

Where the code does not do what its comments or its other half promise, the model follows the code
and says exactly when it does:

- The comment over the table for refreshes in `nginx/1.0.15/src/core/ngx_string.c:1424` lists the
  percent sign among the characters to escape, but the table leaves it out. A text comes back
  exactly if another table is used or it has no percent sign (`UriEscape.RoundTrip`,
  `UriEscape.RefreshLoses`).
- The comment in `nginx/1.0.15/src/core/ngx_radix_tree.c:45-60` counts how many nodes fit a page,
  but the switch below it divides the size of a page by the size of the tree's header. The default
  is 8 bits on all four platforms named, where 6, 7, 7 and 8 are meant
  (`RadixTree.DefaultIsEight`); `RadixTree.DefaultMeant` says for which sizes of pages and words the
  two agree.
- The last four bytes of an IPv6 address that is printed with an IPv4 tail may be 255.255.255.255,
  which the reader of IPv4 addresses returns as its error value. Such an address cannot be read
  back, and every other one can (`Inet6RoundTrip.RoundTrip`).
- Freeing memory of the slab pool reports most addresses that are not allocated, but not all. The
  start of a free run is freed again, which only moves the run to the front of the free runs
  (`SlabPool.FreeTwice`). A chunk that holds the bitmap of its page is freed, after which the pool
  is in no state that a pool can be in (`SlabPool.FreeBitmap`). `SlabPool.Pool.Free` says exactly
  which addresses are accepted and what becomes of the pool.
- Testing a cached file again looks at the name first and opens it afterwards. If the name leads
  elsewhere when it is looked at and to the cached file when it is opened, the descriptor in the
  cache is overwritten without being closed (`FileCache.LoseOne`). If it leads to a directory with
  the number of the cached file, an entry is left with a descriptor that is not its own
  (`FileCache.TurnOne`). `FileCache.Cache.Open` says of every call exactly whether one or the other
  happens.
- The end of the cache of open files frees what requests still hold (`FileCache.EndHeld`).
  `FileCache.Cache.Destroy` says exactly when.
- The test of a hash size adds up 16-bit numbers. It is right for all names exactly if a bucket has
  less than 32768 bytes beside its closing pointer (`HashBuild.TestExact`).
- Deleting from the radix tree a prefix that was never stored succeeds if its node is a leaf, as
  preallocation and an insertion without enough memory leave them (`RadixTree.DeletePreallocated`,
  `RadixTree.DeleteLeftover`). `RadixTree.Tree.Delete` says exactly when deletion succeeds.

## Model

| member | source | states |
|---|---|---|
| RedBlackShape.PlugItems | nginx/1.0.15/src/core/ngx_rbtree.h:19-27 | the in-order sequence of a tree is that of the subtree in focus between what its context holds on either side |
| RedBlackShape.Locate | nginx/1.0.15/src/core/ngx_rbtree.c:158-160 | every node of a tree has a position: a context that gives the tree back when the subtree at the node is put into it |
| RedBlackShape.PlugRep | nginx/1.0.15/src/core/ngx_rbtree.h:19-27 | memory holds a tree exactly if it holds the context and the subtree in it, so that a step may look at its part alone |
| RedBlackShape.UnplugRB | nginx/1.0.15/src/core/ngx_rbtree.c:47-93 | the colour rules of a tree give those of a subtree and of its context for one black height |
| RedBlackShape.LogarithmicHeight | nginx/1.0.15/src/core/ngx_rbtree.c:11-15 | a tree that keeps the colour rules and has n nodes is at most 2 log2(n + 1) high |
| RedBlackSteps.RotItems | nginx/1.0.15/src/core/ngx_rbtree.c:326-383 | both rotations keep the in-order sequence and the set of nodes |
| RedBlackSteps.RotLRep | nginx/1.0.15/src/core/ngx_rbtree.c:326-353 | the links that a left rotation changes, and no others, turn the memory of a tree into that of the rotated tree |
| RedBlackSteps.Descend | nginx/1.0.15/src/core/ngx_rbtree.c:103-112 | comparing the new key at a node keeps all keys before the position at most, and all after it above, the new key |
| RedBlackSteps.InsertBetween | nginx/1.0.15/src/core/ngx_rbtree.c:97-119 | a place after all keys that are at most the new one and before all greater ones is the place of a sorted insertion |
| RedBlackSteps.RecolourRB | nginx/1.0.15/src/core/ngx_rbtree.c:54-58 | recolouring parent, uncle and grandparent moves the only possible violation two levels up |
| RedBlackSteps.LiftRB | nginx/1.0.15/src/core/ngx_rbtree.c:66-68 | with a black uncle the parent can take the place of the grandparent, black, and the colour rules hold above and below it |
| RedBlackSteps.SiblingBin | nginx/1.0.15/src/core/ngx_rbtree.c:263-265 | the sibling of a subtree that lacks a black node is never the sentinel |
| RedBlackSteps.RedSiblingRB | nginx/1.0.15/src/core/ngx_rbtree.c:265-270 | a red sibling can be rotated away, and the new sibling is black |
| RedBlackSteps.BlackNephewsRB | nginx/1.0.15/src/core/ngx_rbtree.c:272-274 | with two black nephews a red sibling moves the missing black node one level up |
| RedBlackSteps.InnerNephewRB | nginx/1.0.15/src/core/ngx_rbtree.c:277-282 | the rotation at the sibling keeps the colour rules around the short subtree |
| RedBlackSteps.OuterNephewRB | nginx/1.0.15/src/core/ngx_rbtree.c:284-288 | with a red outer nephew the rotation at the parent restores all colour rules |
| RedBlackSteps.UnlinkMinRep | nginx/1.0.15/src/core/ngx_rbtree.c:203-221 | bypassing the least node of the right subtree leaves memory that holds everything but that node |
| RedBlackSteps.TakePlaceRep | nginx/1.0.15/src/core/ngx_rbtree.c:223-245 | the successor takes over the links of the deleted node, and memory holds the tree with it in that place |
| RedBlackSteps.RemoveItems | nginx/1.0.15/src/core/ngx_rbtree.c:203-212 | joining the subtrees of a node in its place removes just that node from the sequence and keeps it sorted |
| RedBlackSteps.SuccItems | nginx/1.0.15/src/core/ngx_rbtree.c:214-245 | so does replacing a node by its successor |
| RedBlackSteps.SuccRB | nginx/1.0.15/src/core/ngx_rbtree.c:201-245 | replacing a node by its successor keeps the colour rules if the successor was red, and leaves one short subtree otherwise |
| RedBlackTree.RBTree.constructor | nginx/1.0.15/src/core/ngx_rbtree.h:44-48 | a valid empty tree around a black sentinel |
| RedBlackTree.RBTree.Paint | nginx/1.0.15/src/core/ngx_rbtree.h:61-65 | a node changes its colour, and the tree in memory nothing else |
| RedBlackTree.RBTree.TurnLeft | nginx/1.0.15/src/core/ngx_rbtree.c:326-353 | the fields a left rotation writes; no other node changes, and the sentinel's parent link is not touched |
| RedBlackTree.RBTree.LeftRotate | nginx/1.0.15/src/core/ngx_rbtree.c:326-353 | the tree in memory is the rotated one, with the same nodes in the same order |
| RedBlackTree.RBTree.TurnRight | nginx/1.0.15/src/core/ngx_rbtree.c:356-383 | the fields a right rotation writes |
| RedBlackTree.RBTree.RightRotate | nginx/1.0.15/src/core/ngx_rbtree.c:356-383 | the tree in memory is the rotated one, with the same nodes in the same order |
| RedBlackTree.RBTree.InsertValue | nginx/1.0.15/src/core/ngx_rbtree.c:97-119 | a red node hangs where all smaller and equal keys are before it and all greater ones after it |
| RedBlackTree.RBTree.InsertFirst | nginx/1.0.15/src/core/ngx_rbtree.c:35-43 | the first node becomes a black root |
| RedBlackTree.RBTree.InsertFixLeft | nginx/1.0.15/src/core/ngx_rbtree.c:51-69 | one round of the repair keeps its invariant, comes closer to the root and keeps nodes and order |
| RedBlackTree.RBTree.InsertFixRight | nginx/1.0.15/src/core/ngx_rbtree.c:71-90 | the same for the mirrored round |
| RedBlackTree.RBTree.InsertFixup | nginx/1.0.15/src/core/ngx_rbtree.c:47-93 | the repair ends with a balanced tree of the same nodes in the same order |
| RedBlackTree.RBTree.Insert | nginx/1.0.15/src/core/ngx_rbtree.c:24-94 | insertion keeps the search tree valid and inserts the node into the sorted sequence, after equal keys |
| RedBlackTree.RBTree.RedSiblingLeft | nginx/1.0.15/src/core/ngx_rbtree.c:265-270 | the sibling becomes black and the short subtree stays in focus |
| RedBlackTree.RBTree.InnerNephewLeft | nginx/1.0.15/src/core/ngx_rbtree.c:277-282 | the outer nephew becomes red |
| RedBlackTree.RBTree.OuterNephewLeft | nginx/1.0.15/src/core/ngx_rbtree.c:284-288 | the tree is balanced again |
| RedBlackTree.RBTree.DeleteFixLeft | nginx/1.0.15/src/core/ngx_rbtree.c:262-289 | one round keeps the invariant of a single short subtree and its measure falls |
| RedBlackTree.RBTree.RedSiblingRight | nginx/1.0.15/src/core/ngx_rbtree.c:294-299 | the mirrored step for a red sibling |
| RedBlackTree.RBTree.InnerNephewRight | nginx/1.0.15/src/core/ngx_rbtree.c:306-311 | the mirrored step for a red inner nephew |
| RedBlackTree.RBTree.OuterNephewRight | nginx/1.0.15/src/core/ngx_rbtree.c:313-317 | the mirrored step for a red outer nephew |
| RedBlackTree.RBTree.DeleteFixRight | nginx/1.0.15/src/core/ngx_rbtree.c:291-319 | the mirrored round |
| RedBlackTree.RBTree.DeleteFixup | nginx/1.0.15/src/core/ngx_rbtree.c:258-322 | the loop ends with a balanced tree of the same nodes in the same order, finding its way by the sentinel's parent link |
| RedBlackTree.RBTree.Min | nginx/1.0.15/src/core/ngx_rbtree.h:73-81 | the leftmost node of a subtree |
| RedBlackTree.RBTree.SpliceOut | nginx/1.0.15/src/core/ngx_rbtree.c:203-212 | the only child takes the place of the node, and the sentinel remembers the parent if there is no child |
| RedBlackTree.RBTree.SpliceMin | nginx/1.0.15/src/core/ngx_rbtree.c:214-245 | the successor takes the place of the node, and the sentinel remembers where the hole is |
| RedBlackTree.RBTree.RemoveRoot | nginx/1.0.15/src/core/ngx_rbtree.c:188-190 | the only child of the root becomes a black root |
| RedBlackTree.RBTree.Clear | nginx/1.0.15/src/core/ngx_rbtree.c:248-252 | the deleted node keeps no link into the tree, which stays as it is |
| RedBlackTree.RBTree.Delete | nginx/1.0.15/src/core/ngx_rbtree.c:158-323 | deletion of a member keeps the search tree valid and removes exactly that node from the sorted sequence |
| RedBlackTree.RBTree.Run | nginx/1.0.15/src/core/ngx_rbtree.c:24-323 | any run of insertions of new nodes and deletions of members keeps the tree valid and holds exactly the nodes that are live |
| SharedMutex.StepInv | nginx/1.0.15/src/core/ngx_shmtx.c:57-177 | every atomic step of any process keeps the invariant of word, semaphore and processes |
| SharedMutex.RunInv | nginx/1.0.15/src/core/ngx_shmtx.c:57-177 | every interleaving of any length keeps it |
| SharedMutex.ReachableInv | nginx/1.0.15/src/core/ngx_shmtx.c:57-177 | it holds in every state reachable from a mutex just created |
| SharedMutex.TakeLockInv | nginx/1.0.15/src/core/ngx_shmtx.c:62-65 | a compare-and-set that takes the lock, or fails, keeps it, however old the value compared with is |
| SharedMutex.ReleaseInv | nginx/1.0.15/src/core/ngx_shmtx.c:151-174 | so do the compare-and-set of an unlock and its post |
| SharedMutex.MutualExclusion | nginx/1.0.15/src/core/ngx_shmtx.c:69-139 | in every reachable state at most one process holds the mutex, the lock bit is set exactly while one does, and the word stays within 32 bits |
| SharedMutex.WaitersAccounted | nginx/1.0.15/src/core/ngx_shmtx.c:105-133 | waiters counted in the word, posts made and posts under way add up to the processes committed to wait |
| SharedMutex.NoLostWakeup | nginx/1.0.15/src/core/ngx_shmtx.c:142-177 | while a process sleeps it can be woken, or some process holds the mutex, is trying again or is about to post |
| SharedMutex.NoDeadlock | nginx/1.0.15/src/core/ngx_shmtx.c:69-177 | while a process sleeps some process inside the mutex code can take a step |
| SharedMutex.Handover | nginx/1.0.15/src/core/ngx_shmtx.c:57-177 | the mutex is taken only when nobody has it, and after a release nobody has it |
| SlabRing.UnlinkRing | nginx/1.0.15/src/core/ngx_slab.c:639-643 | unlinking a page by its neighbours leaves the ring without that page |
| SlabRing.PushRing | nginx/1.0.15/src/core/ngx_slab.c:688-693 | linking a page in behind the head makes it the first of the ring |
| SlabRing.ReplaceRing | nginx/1.0.15/src/core/ngx_slab.c:630-637 | the rest of a run takes the place of the whole run in the ring |
| SlabState.Layout | nginx/1.0.15/src/core/ngx_slab.c:333-389 | for every chunk size the chunks fill the page, those reserved for the bitmap cover it and leave room, and every encoding has a bit for each chunk |
| SlabLive.EndsBefore | nginx/1.0.15/src/core/ngx_slab.c:331-389 | an allocation ends before the next page that is not its own |
| SlabLive.NoOverlap | nginx/1.0.15/src/core/ngx_slab.c:156-399 | two allocations do not overlap |
| SlabLive.ChunkPlace | nginx/1.0.15/src/core/ngx_slab.c:203-321 | a chunk is aligned to its size and lies behind the bitmap of its page |
| SlabSteps.UseLast | nginx/1.0.15/src/core/ngx_slab.c:224-240 | a page whose last chunk is taken leaves its list, and the invariant holds for all other pages |
| SlabSteps.Reopen | nginx/1.0.15/src/core/ngx_slab.c:451-461 | a full page of which a chunk is freed becomes the first of its list |
| SlabSteps.EmptyPage | nginx/1.0.15/src/core/ngx_slab.c:483-483 | a page without chunks in use leaves its list and becomes a free run of one page, and the invariant holds |
| SlabRuns.TakeInv | nginx/1.0.15/src/core/ngx_slab.c:628-660 | cutting pages off a free run keeps the invariant of the whole pool |
| SlabRuns.GiveInv | nginx/1.0.15/src/core/ngx_slab.c:670-694 | so does giving a run back |
| SlabRuns.AgainInv | nginx/1.0.15/src/core/ngx_slab.c:670-694 | giving back a run that is free already writes nothing new to its pages, moves it to the front of the ring and keeps the invariant |
| SlabRuns.CutInv | nginx/1.0.15/src/core/ngx_slab.c:333-389 | so does cutting a page into chunks, alone on its list |
| SlabMarks.TakeSmall | nginx/1.0.15/src/core/ngx_slab.c:207-247 | the lowest free bit of a bitmap of several words is set, and the page is reported full exactly if all chunks are used |
| SlabMarks.TakeExact | nginx/1.0.15/src/core/ngx_slab.c:256-273 | the same for the bitmap in the descriptor's word |
| SlabMarks.TakeBig | nginx/1.0.15/src/core/ngx_slab.c:289-315 | the same for the bitmap in the upper half of that word |
| SlabMarks.TakeChunk | nginx/1.0.15/src/core/ngx_slab.c:201-328 | whatever the encoding, the chunk taken is the first free one and the marks afterwards are those of one more chunk |
| SlabMarks.ClearSmall | nginx/1.0.15/src/core/ngx_slab.c:463-481 | a bit is cleared, and the page is reported empty exactly if only the bitmap's own chunks are left |
| SlabMarks.ClearChunk | nginx/1.0.15/src/core/ngx_slab.c:463-556 | the same whatever the encoding |
| SlabMarks.MarksUsed | nginx/1.0.15/src/core/ngx_slab.c:435-538 | the bit that freeing looks at is set exactly if the chunk is in use |
| SlabMarks.FreshMarks | nginx/1.0.15/src/core/ngx_slab.c:345-379 | the marks of a page just cut are those of the bitmap's own chunks and of the first one behind them |
| SlabFacts.UseChunkInv | nginx/1.0.15/src/core/ngx_slab.c:207-247 | marking the first free chunk of the first page of a list keeps the invariant of the pool and adds one allocation |
| SlabFacts.BitmapMarked | nginx/1.0.15/src/core/ngx_slab.c:345-353 | in every state of a pool a page of small chunks has the chunks of its own bitmap marked |
| SlabFacts.Unkept | nginx/1.0.15/src/core/ngx_slab.c:449-486 | a page that lost the mark of a part of its bitmap is in no state of a pool |
| SlabPool.ShiftFor | nginx/1.0.15/src/core/ngx_slab.c:182-191 | the least power of two that holds the size |
| SlabPool.PlanFits | nginx/1.0.15/src/core/ngx_slab.c:97-134 | the memory behind the header is divided so that there are as many whole pages as fit, starting on a page, with a descriptor in front for each |
| SlabPool.Pool.constructor | nginx/1.0.15/src/core/ngx_slab.c:102-134 | a pool of free pages in one run without allocations |
| SlabPool.Pool.AllocPages | nginx/1.0.15/src/core/ngx_slab.c:621-667 | the first free run that is long enough gives its first pages; null exactly if there is none |
| SlabPool.Pool.TakeRun | nginx/1.0.15/src/core/ngx_slab.c:628-660 | the pages become one new allocation |
| SlabPool.Pool.FreePages | nginx/1.0.15/src/core/ngx_slab.c:670-694 | the descriptors after a run was put first on the ring of free runs |
| SlabPool.Pool.FreeRunAt | nginx/1.0.15/src/core/ngx_slab.c:583-590 | the allocation of a run ends and nothing else |
| SlabPool.Pool.FreeRunAgain | nginx/1.0.15/src/core/ngx_slab.c:583-590 | the start of a free run is freed again: the pool stays valid, with the same runs in another order |
| SlabPool.Pool.AllocChunk | nginx/1.0.15/src/core/ngx_slab.c:196-329 | a chunk of the first page of a list becomes a new allocation |
| SlabPool.Pool.CutPage | nginx/1.0.15/src/core/ngx_slab.c:333-389 | a page becomes chunks of which the first behind the bitmap is a new allocation |
| SlabPool.Pool.AllocCut | nginx/1.0.15/src/core/ngx_slab.c:331-392 | a chunk from a new page, or null exactly if no page is free |
| SlabPool.Pool.Alloc | nginx/1.0.15/src/core/ngx_slab.c:156-399 | a new address with room for the size joins the live allocations, or null exactly if neither a list nor a run can serve |
| SlabPool.Pool.Unmark | nginx/1.0.15/src/core/ngx_slab.c:449-481 | the chunk is unmarked, its page is back on its list, and it is reported empty exactly if nothing is left in use |
| SlabPool.Pool.FreeChunk | nginx/1.0.15/src/core/ngx_slab.c:435-563 | the allocation of a chunk ends and nothing else |
| SlabPool.Pool.FreeCut | nginx/1.0.15/src/core/ngx_slab.c:483-483 | an emptied page becomes free and the pool is valid again |
| SlabPool.Pool.FreeOnCut | nginx/1.0.15/src/core/ngx_slab.c:433-563 | on a page of chunks exactly allocations and the chunks of the bitmap are accepted; the latter leave no state of the pool, and what is refused changes nothing |
| SlabPool.Pool.FreeOnPage | nginx/1.0.15/src/core/ngx_slab.c:424-591 | on any page exactly allocations, the starts of free runs and the chunks of bitmaps are accepted |
| SlabPool.Pool.Free | nginx/1.0.15/src/core/ngx_slab.c:413-618 | an address is accepted exactly if it is allocated, the start of a free run or a chunk of a bitmap; except for the last the pool stays valid and just that allocation ends; for the last no state of the pool is left; any other address is reported and changes nothing |
| SlabPool.Pool.Disjoint | nginx/1.0.15/src/core/ngx_slab.c:156-618 | in every valid pool allocations lie in the pool and do not overlap |
| SlabPool.Pool.Aligned | nginx/1.0.15/src/core/ngx_slab.c:156-618 | every allocation starts on a page or at a multiple of its size and keeps off the bitmap |
| SlabPool.Pool.EveryPage | nginx/1.0.15/src/core/ngx_slab.c:156-694 | every page is in a free run, in an allocated run or cut into chunks, and it is on a list of chunks exactly if it has one left |
| SlabPool.Pool.NothingLive | nginx/1.0.15/src/core/ngx_slab.c:413-694 | when everything is freed every page is in a free run again |
| SlabPool.FreeTwice | nginx/1.0.15/src/core/ngx_slab.c:565-590 | a run that is freed twice: both are accepted, and the pool is valid and empty |
| SlabPool.FreeBitmap | nginx/1.0.15/src/core/ngx_slab.c:435-486 | the bitmap of a page is freed: it is accepted, and the pool is in no state of a pool |
| SlabFacts.RoomEnough | nginx/1.0.15/src/core/ngx_slab.c:164-191 | an allocation is as large as asked, a chunk less than twice as large, and a run less than a page larger |
| FileCacheState.AwayInv | nginx/1.0.15/src/core/ngx_open_file_cache.c:202-202 | taking a cached entry off the queue keeps the invariant but for that entry |
| FileCacheState.FrontInv | nginx/1.0.15/src/core/ngx_open_file_cache.c:404-404 | putting it first restores the invariant |
| FileCacheState.HoldInv | nginx/1.0.15/src/core/ngx_open_file_cache.c:393-395 | one more holder keeps counts and references equal |
| FileCacheState.CloseInv | nginx/1.0.15/src/core/ngx_open_file_cache.c:687-695 | closing the descriptor of an entry nobody holds keeps the invariant |
| FileCacheState.StoreInv | nginx/1.0.15/src/core/ngx_open_file_cache.c:377-398 | an entry that takes over a descriptor becomes its owner |
| FileCacheState.SwapInv | nginx/1.0.15/src/core/ngx_open_file_cache.c:377-377 | an entry that takes over a descriptor in place of its own leaves its own open and owned by nobody, and keeps the rest of the invariant |
| FileCacheState.UnheldInv | nginx/1.0.15/src/core/ngx_open_file_cache.c:107-107 | setting the count of a cached entry to 0 keeps the invariant once its references are gone |
| FileCacheState.AddInv | nginx/1.0.15/src/core/ngx_open_file_cache.c:344-369 | a new entry under a new name keeps the invariant but for the queue |
| FileCacheState.DetachInv | nginx/1.0.15/src/core/ngx_open_file_cache.c:321-325 | an entry in use that leaves the cache keeps its descriptor and its holders |
| FileCacheState.EraseInv | nginx/1.0.15/src/core/ngx_open_file_cache.c:766-769 | an entry without holder and descriptor can be freed |
| FileCacheState.ReleaseInv | nginx/1.0.15/src/core/ngx_open_file_cache.c:651-651 | one holder less keeps counts and references equal |
| FileCacheState.GoneInv | nginx/1.0.15/src/core/ngx_open_file_cache.c:683-702 | the last holder of an entry that left the cache closes and frees it, and its descriptor was still open |
| FileCacheAnswers.OpenAndStat | nginx/1.0.15/src/core/ngx_open_file_cache.c:463-574 | which of the answers of stat, open and fstat is returned, with which descriptor and which error: the name is looked at first if there is a descriptor or a directory is expected, and decides if it leads to the file of the descriptor or to a directory |
| FileCacheAnswers.LostDescriptor | nginx/1.0.15/src/core/ngx_open_file_cache.c:263-295 | testing an open file again finds the cached file and leaves its old descriptor open and with no entry exactly if the name led elsewhere when it was looked at and to the cached file when it was opened |
| FileCacheAnswers.AnswerInv | nginx/1.0.15/src/core/ngx_open_file_cache.c:371-425 | an entry off the queue that takes an answer keeps the invariant, is first in the queue, and is held by the caller if it is an open file |
| FileCacheAnswers.AnswerLeaks | nginx/1.0.15/src/core/ngx_open_file_cache.c:377-377 | only an entry that had another descriptor loses one by it |
| FileCacheAnswers.AnswerKeeps | nginx/1.0.15/src/core/ngx_open_file_cache.c:371-425 | no held file is closed by it, and only the holders of a file that is replaced see another descriptor in the entry |
| FileCacheAnswers.CreateInv | nginx/1.0.15/src/core/ngx_open_file_cache.c:344-425 | a new entry that takes an answer keeps the invariant, loses no descriptor and changes no held file |
| FileCacheAnswers.ForgetInv | nginx/1.0.15/src/core/ngx_open_file_cache.c:452-457 | closing a descriptor that no entry took leaves every open descriptor with an entry |
| FileCacheAnswers.UpdateRetold | nginx/1.0.15/src/core/ngx_open_file_cache.c:272-306 | a retest that keeps the entry answers as the file system did and leaves the cache valid; a descriptor is lost exactly if the name was swapped |
| FileCacheAnswers.ReplaceRetold | nginx/1.0.15/src/core/ngx_open_file_cache.c:308-319 | so does one that closes a file nobody holds, and an entry dangles exactly if the file turned into a directory of the same number |
| FileCacheAnswers.RenewRetold | nginx/1.0.15/src/core/ngx_open_file_cache.c:321-369 | so does one that gives the name to a new entry because somebody holds the file |
| FileCacheAnswers.CreateServed | nginx/1.0.15/src/core/ngx_open_file_cache.c:330-460 | a name that was not cached is answered by a new entry, or its descriptor is closed; what others hold stays |
| FileCacheAnswers.ReopenServed | nginx/1.0.15/src/core/ngx_open_file_cache.c:204-215 | a closed file is opened again in its entry; what others hold stays |
| FileCacheAnswers.TurnClosed | nginx/1.0.15/src/core/ngx_open_file_cache.c:308-319 | with a directory of the number of the file nobody holds, the entry is left with a descriptor that was closed |
| FileCacheAnswers.TurnStored | nginx/1.0.15/src/core/ngx_open_file_cache.c:321-398 | with a directory of the number of the file somebody holds, the new entry is left with the descriptor of the old one |
| FileCacheAnswers.TurnForgotten | nginx/1.0.15/src/core/ngx_open_file_cache.c:452-457 | without memory for the new entry, the descriptor of the old one is closed |
| FileCacheAnswers.Ended | nginx/1.0.15/src/core/ngx_open_file_cache.c:86-114 | once nothing is cached, a request refers to a freed entry exactly if a cached entry was held, and the state is valid exactly if none was |
| FileCacheAnswers.EndedOpen | nginx/1.0.15/src/core/ngx_open_file_cache.c:86-114 | the descriptors left open are those of the entries that are left, and lost ones |
| FileCacheAnswers.NothingLeft | nginx/1.0.15/src/core/ngx_open_file_cache.c:116-126 | with nothing cached and nothing held no entry is left in memory, and the open descriptors are exactly those that were lost |
| FileCache.Cache.constructor | nginx/1.0.15/src/core/ngx_open_file_cache.c:43-72 | a valid empty cache |
| FileCache.Cache.CloseFd | nginx/1.0.15/src/core/ngx_open_file_cache.c:687-695 | the descriptor is open no more and the entry has none |
| FileCache.Cache.Drop | nginx/1.0.15/src/core/ngx_open_file_cache.c:753-769 | the entry leaves the cache; its descriptor and memory go exactly if nobody holds it; no other descriptor changes |
| FileCache.Cache.Expire | nginx/1.0.15/src/core/ngx_open_file_cache.c:723-771 | the entries dropped are the least recently used ones: one by force if asked, then at most two that were not used for long |
| FileCache.Cache.MakeRoom | nginx/1.0.15/src/core/ngx_open_file_cache.c:340-342 | a full cache has room afterwards, and no reference is lost |
| FileCache.Cache.Update | nginx/1.0.15/src/core/ngx_open_file_cache.c:371-422 | the state afterwards, of which `FileCacheAnswers.AnswerInv`, `AnswerLeaks` and `AnswerKeeps` say what it keeps |
| FileCache.Cache.Create | nginx/1.0.15/src/core/ngx_open_file_cache.c:338-425 | room is made without losing a reference, and a new entry takes the answer, or its descriptor is closed, exactly as memory allows |
| FileCache.Cache.Forget | nginx/1.0.15/src/core/ngx_open_file_cache.c:452-457 | the state after a descriptor that no entry took is closed |
| FileCache.Cache.TakeOff | nginx/1.0.15/src/core/ngx_open_file_cache.c:200-202 | the entry is counted as used and is off the queue, and whether it is fresh has not changed |
| FileCache.Cache.Hit | nginx/1.0.15/src/core/ngx_open_file_cache.c:217-246 | a fresh entry answers from memory: no descriptor is opened or closed, and an open file is held once more |
| FileCache.Cache.Reopen | nginx/1.0.15/src/core/ngx_open_file_cache.c:204-215 | a file that was closed for want of use is opened again in its entry |
| FileCache.Cache.Replace | nginx/1.0.15/src/core/ngx_open_file_cache.c:308-319 | the state after the old descriptor is closed and the entry took the new answer |
| FileCache.Cache.Renew | nginx/1.0.15/src/core/ngx_open_file_cache.c:321-369 | a held file leaves the cache and a new entry takes the answer; the cache never exceeds its limit |
| FileCache.Cache.Retest | nginx/1.0.15/src/core/ngx_open_file_cache.c:252-328 | whatever became of the name the answer is the one just found; the cache is valid unless a file turned into a directory of its number, and a descriptor is lost exactly if the name was swapped; success exactly if the file system succeeded and memory sufficed |
| FileCache.Cache.OpenFound | nginx/1.0.15/src/core/ngx_open_file_cache.c:198-328 | a cached name is answered from memory if it is fresh, and only a retest can lose a descriptor or leave an entry dangling, each exactly in its case |
| FileCache.Cache.OpenNew | nginx/1.0.15/src/core/ngx_open_file_cache.c:330-460 | a name that is not cached is answered from the file system and cached, and nothing is lost |
| FileCache.Cache.Open | nginx/1.0.15/src/core/ngx_open_file_cache.c:130-460 | an entry dangles exactly after a retest of an open file that turned into a directory of its number; otherwise the cache is valid and the caller holds one more reference exactly on success with a file, whose descriptor is open; exactly one descriptor is lost exactly after a retest with a swapped name, and none otherwise; nobody's held file is closed |
| FileCache.Cache.LetGoGone | nginx/1.0.15/src/core/ngx_open_file_cache.c:651-703 | a file that left the cache is closed and freed exactly with its last holder |
| FileCache.Cache.LetGoCached | nginx/1.0.15/src/core/ngx_open_file_cache.c:668-699 | a cached file comes first in the queue and is closed exactly if nobody holds it and it was not used often enough |
| FileCache.Cache.Release | nginx/1.0.15/src/core/ngx_open_file_cache.c:646-703 | the request's reference goes, and every other held file stays open |
| FileCache.Cache.Destroy | nginx/1.0.15/src/core/ngx_open_file_cache.c:75-127 | every cached entry and its descriptor goes, held or not, and all others stay; a request refers to a freed entry exactly if a cached entry was held |
| FileCache.LoseOne | nginx/1.0.15/src/core/ngx_open_file_cache.c:263-295 | a run from an empty cache that loses a descriptor |
| FileCache.TurnOne | nginx/1.0.15/src/core/ngx_open_file_cache.c:272-327 | a run from an empty cache that leaves an entry with a descriptor that is not its own |
| FileCache.EndHeld | nginx/1.0.15/src/core/ngx_open_file_cache.c:105-108 | a run from an empty cache to its end that frees what a request holds |
| JsonSound.StepSound | utils/json_checker/json_checker.c:257-381 | a character that is accepted takes a state that stands for a text under construction to one that stands for that text and the character |
| JsonSound.RunSound | utils/json_checker/json_checker.c:257-381 | every state reached on a text is that of a partial tree that reads as the text |
| JsonSound.AcceptedIsJson | utils/json_checker/json_checker.c:384-396 | what the checker accepts is JSON, nested less deep than its limit |
| JsonSound.ModesShape | utils/json_checker/json_checker.c:183-229 | the stack holds one to depth modes, only its top may be a key, and exactly its bottom is done |
| JsonSound.ModeChecksHold | utils/json_checker/json_checker.c:290-372 | the mode checks behind a colon, an empty object and a closing quote never fail |
| JsonComplete.ValueRuns | utils/json_checker/json_checker.c:138-177 | the text of any value, read where a value may stand, leads behind that value with the stack as it was |
| JsonComplete.JsonIsAccepted | utils/json_checker/json_checker.c:257-396 | JSON nested less deep than the limit is accepted |
| JsonChecker.AcceptsExactly | utils/json_checker/json_checker.c:232-396 | the automaton accepts exactly the JSON texts nested less deep than its limit |
| JsonChecker.RejectedForGood | utils/json_checker/json_checker.c:257-285 | a text rejected on the way stays rejected however it goes on |
| JsonChecker.Checker.constructor | utils/json_checker/json_checker.c:232-254 | a checker in the initial state |
| JsonChecker.Checker.Push | utils/json_checker/json_checker.c:202-214 | a mode on top, or false exactly at the limit |
| JsonChecker.Checker.Pop | utils/json_checker/json_checker.c:217-229 | the top mode is taken off exactly if it is the one expected |
| JsonChecker.Checker.Char | utils/json_checker/json_checker.c:257-381 | a character changes the checker as the automaton |
| JsonChecker.Checker.Action | utils/json_checker/json_checker.c:286-379 | so does an action of the table |
| JsonChecker.Checker.Done | utils/json_checker/json_checker.c:384-396 | the end of the text is accepted exactly in an accepting state |
| JsonChecker.Check | utils/json_checker/json_checker.c:232-396 | a checker fed with a whole text answers whether it is JSON |
| HashTable.SameName | nginx/1.0.15/src/core/ngx_hash.c:29-37 | the comparison of length and bytes decides whether the names are equal |
| HashTable.NextElt | nginx/1.0.15/src/core/ngx_hash.c:43-44 | the search steps on by exactly what the builder reserved for an element |
| HashTable.Advance | nginx/1.0.15/src/core/ngx_hash.c:43-44 | the place after an element in memory |
| HashTable.BucketStep | nginx/1.0.15/src/core/ngx_hash.c:28-46 | at each place of a bucket stands an element, and a null pointer behind the last one only |
| HashTable.PackedMore | nginx/1.0.15/src/core/ngx_hash.c:398-406 | an element written behind the others extends the bucket |
| HashTable.PackedFrame | nginx/1.0.15/src/core/ngx_hash.c:398-406 | writing elsewhere does not change a bucket |
| HashTable.FindIn | nginx/1.0.15/src/core/ngx_hash.c:22-48 | the walk through the bytes of a bucket finds the first element of the name, or null |
| HashBuild.FillIsBytes | nginx/1.0.15/src/core/ngx_hash.c:289-296 | the bytes counted for a bucket are those its elements take |
| HashBuild.Try | nginx/1.0.15/src/core/ngx_hash.c:287-306 | the test of a size succeeds exactly if no 16-bit counter is ever above the last 16 bits of the limit |
| HashBuild.PassesFits | nginx/1.0.15/src/core/ngx_hash.c:289-306 | the test is right about names of which none takes a full bucket past 16 bits |
| HashBuild.TestExact | nginx/1.0.15/src/core/ngx_hash.c:289-306 | the test is right about all names that are short enough exactly if a bucket has less than 32768 bytes |
| HashBuild.ChooseSize | nginx/1.0.15/src/core/ngx_hash.c:285-313 | the size chosen is the least one that fits, and none is chosen only if none fits |
| HashBuild.Count | nginx/1.0.15/src/core/ngx_hash.c:327-338 | the bytes of every bucket with its closing pointer |
| HashBuild.CapRoom | nginx/1.0.15/src/core/ngx_hash.c:342-350 | a bucket has room for its elements and the closing pointer, and less than a cache line more |
| HashBuild.BaseUp | nginx/1.0.15/src/core/ngx_hash.c:379-387 | buckets do not overlap |
| HashBuild.PlaceBuckets | nginx/1.0.15/src/core/ngx_hash.c:340-387 | every bucket that is not empty starts on a cache line behind those before it |
| HashBuild.WriteElt | nginx/1.0.15/src/core/ngx_hash.c:399-404 | an element with its name in lower case is in memory, and the rest of memory is unchanged |
| HashBuild.FilledNext | nginx/1.0.15/src/core/ngx_hash.c:393-407 | one more name in its bucket leaves what all buckets hold in order |
| HashBuild.FillBuckets | nginx/1.0.15/src/core/ngx_hash.c:389-407 | every bucket holds the names whose hash leads to it, in order |
| HashBuild.EndApart | nginx/1.0.15/src/core/ngx_hash.c:409-417 | the closing pointer of a bucket is in no other bucket |
| HashBuild.EndBuckets | nginx/1.0.15/src/core/ngx_hash.c:409-417 | every bucket is closed and still holds its names |
| HashBuild.Lay | nginx/1.0.15/src/core/ngx_hash.c:325-422 | the memory of a chosen size is a table of all the names |
| HashBuild.Init | nginx/1.0.15/src/core/ngx_hash.c:251-455 | a table of all the names, or none exactly if a name is too long or no size from the first one tried on fits |
| HashBuild.Find | nginx/1.0.15/src/core/ngx_hash.c:12-49 | a built table is a finite map: a stored name gives its value and any other name null |
| HashWildcard.GroupsContiguous | nginx/1.0.15/src/core/ngx_string.c:821-849 | in the order the names are sorted by, those that share their first label are next to each other |
| HashWildcard.Extend | nginx/1.0.15/src/core/ngx_hash.c:567-590 | the entry of one more group answers for its label as a scan of the group would, and no other lookup changes |
| HashWildcard.TrieNext | nginx/1.0.15/src/core/ngx_hash.c:483-590 | the trie of sorted names has one slot for the group of names at its front, with the trie of what is behind their label below it, and then the slots of the others |
| HashWildcard.TrieRepresents | nginx/1.0.15/src/core/ngx_hash.c:458-600 | the trie answers every lookup as a scan over all names would, and no two slots of a level have the same label |
| HashWildcard.ReverseLabels | nginx/1.0.15/src/core/ngx_hash.c:872-907 | the loop over a pattern gives its labels in reverse order, with a dot at the end for "*." |
| HashWildcard.ReverseJoin | nginx/1.0.15/src/core/ngx_hash.c:887-897 | reversing the labels of two names joined by a dot joins the reversed names the other way round |
| HashWildcard.ReverseTwice | nginx/1.0.15/src/core/ngx_hash.c:887-902 | reversing the labels twice gives the name back |
| HashWildcard.FindHeadReversed | nginx/1.0.15/src/core/ngx_hash.c:52-143 | the search from the last label of a name is the search from the first label of the reversed name |
| HashWildcard.KeyCoversMatches | nginx/1.0.15/src/core/ngx_hash.c:90-99 | a stored key covers a name just if the pattern matches it: "*.S" matches what ends in ".S", and ".S" also S |
| HashWildcard.ScanIs | nginx/1.0.15/src/core/ngx_hash.c:52-143 | the scan finds the longest name that covers |
| HashWildcard.LookupIsScan | nginx/1.0.15/src/core/ngx_hash.c:52-143 | a lookup in the nested hashes gives the value of the longest name that covers |
| HashWildcard.KeysApart | nginx/1.0.15/src/core/ngx_hash.c:872-907 | two keys differ by a dot at the end only for the patterns ".S" and "*.S" |
| HashTrie.HashKey | nginx/1.0.15/src/core/ngx_hash.c:603-615 | the hash of a label, in 64 bits |
| HashTrie.HoldsMore | nginx/1.0.15/src/core/ngx_hash.c:567-585 | what a table in memory stands for does not change when further tables are built |
| HashTrie.FindLabel | nginx/1.0.15/src/core/ngx_hash.c:72-82 | one level: the pointer found stands for the entry of the label in the trie, and it is null exactly if there is none |
| HashTrie.LowBits | nginx/1.0.15/src/core/ngx_hash.c:90-136 | the two low bits tell data from a further hash and what is for "*.example.com" only, and the other bits lead there |
| HashTrie.FindIn | nginx/1.0.15/src/core/ngx_hash.c:52-143 | the search through the tables in memory gives what the search of the trie gives |
| HashTrie.FitsAlike | nginx/1.0.15/src/core/ngx_hash.c:285-313 | whether keys fit a number of buckets does not depend on their values |
| HashTrie.Collect | nginx/1.0.15/src/core/ngx_hash.c:514-565 | the loop collects exactly the names that share the first label, without that label |
| HashTrie.LevelEntered | nginx/1.0.15/src/core/ngx_hash.c:567-589 | the tagged pointer to a table just built stands for the entry of the group |
| HashTrie.BuildLevel | nginx/1.0.15/src/core/ngx_hash.c:592-597 | the table of a level holds its slots, and there is none exactly if its labels fit into no number of buckets |
| HashTrie.Build | nginx/1.0.15/src/core/ngx_hash.c:458-600 | the tables in memory hold the trie of the names; building fails exactly if some level of the trie has a label that is too long or fits into no number of buckets |
| HashTrie.Find | nginx/1.0.15/src/core/ngx_hash.c:52-600 | building and looking up together are a scan for the longest name that covers, or fail exactly as building does |
| HashTrie.LowerPattern | nginx/1.0.15/src/core/ngx_hash.c:821-827 | a pattern that is accepted is accepted in lower case |
| HashTrie.NamesGood | nginx/1.0.15/src/core/ngx_hash.c:726-907 | the keys of patterns that are accepted, in order and without a pair of ".S" and "*.S", are what the builder needs |
| HashTrie.ScanIsBest | nginx/1.0.15/src/core/ngx_hash.c:52-143 | the scan over the keys finds the longest pattern that matches the name in lower case, and none exactly if none matches |
| HashTrie.FindPattern | nginx/1.0.15/src/core/ngx_hash.c:52-907 | patterns are lowered and stored and a name is looked up: the value is that of the longest lowered pattern that matches it, and null exactly if none matches; it fails exactly if a level cannot be built |
| RadixShape.LeadingNext | nginx/1.0.15/src/core/ngx_radix_tree.c:87-88 | the next mask has one leading bit more |
| RadixShape.Counted | nginx/1.0.15/src/core/ngx_radix_tree.c:97-97 | adding the last bit of a prefix to a key counts the prefix on by one, with the carry, and leaves the bits below |
| RadixShape.NextKey | nginx/1.0.15/src/core/ngx_radix_tree.c:97-99 | the sum wraps around to 0 exactly after the last prefix of the length |
| RadixShape.LongestIsLongest | nginx/1.0.15/src/core/ngx_radix_tree.c:236-263 | the reference value is that of a stored prefix of the key than which no stored prefix of it is longer |
| RadixTree.Tree.constructor | nginx/1.0.15/src/core/ngx_radix_tree.c:21-39 | a tree of the root alone, without values, with as many nodes in all as the pages hold |
| RadixTree.Tree.Conserved | nginx/1.0.15/src/core/ngx_radix_tree.c:108-291 | no node is lost: those in the tree and those that can be had add up to what the pages hold |
| RadixTree.Tree.Visit | nginx/1.0.15/src/core/ngx_radix_tree.c:247-260 | one turn of the search goes from the longest prefix of i bits to that of i + 1, and where the path ends no longer prefix is stored |
| RadixTree.Tree.Find | nginx/1.0.15/src/core/ngx_radix_tree.c:236-263 | the search gives the value of the longest stored prefix of the key |
| RadixTree.Tree.Alloc | nginx/1.0.15/src/core/ngx_radix_tree.c:266-291 | a node that is neither in the tree nor freed, of which there is one less to be had; null exactly if there is no freed node, no room in the page and no page |
| RadixTree.Tree.Hang | nginx/1.0.15/src/core/ngx_radix_tree.c:151-161 | the new node is the child on its side and the tree is valid |
| RadixTree.Tree.NewChild | nginx/1.0.15/src/core/ngx_radix_tree.c:146-164 | one more node of the path and one less to be had, or null exactly if there was none, and the tree as it was |
| RadixTree.Tree.GrowPath | nginx/1.0.15/src/core/ngx_radix_tree.c:145-165 | exactly the missing nodes of the path are added, or null exactly if there are fewer, and then as many as there were; what is stored does not change |
| RadixTree.Tree.Grow | nginx/1.0.15/src/core/ngx_radix_tree.c:145-169 | the value is stored, or what is stored is as before, exactly if there are fewer nodes than the path lacks |
| RadixTree.Tree.Insert | nginx/1.0.15/src/core/ngx_radix_tree.c:108-170 | the stored map is updated at the prefix; busy exactly if it was stored; failure exactly if there are fewer nodes than depths that the path does not reach yet; exactly the nodes of the path are new, down to where the nodes last |
| RadixTree.Tree.Unlink | nginx/1.0.15/src/core/ngx_radix_tree.c:207-215 | the links after a node moved from its parent to the list of freed nodes |
| RadixTree.Tree.Drop | nginx/1.0.15/src/core/ngx_radix_tree.c:207-217 | the leaf is out of the tree and first of the freed nodes |
| RadixTree.Tree.Prune | nginx/1.0.15/src/core/ngx_radix_tree.c:206-230 | only the leaf's value goes, and no valueless leaf is left if there was none |
| RadixTree.Tree.Delete | nginx/1.0.15/src/core/ngx_radix_tree.c:173-233 | the prefix is stored no more; success exactly if it was stored or its node is a leaf; no node is lost: those not in the tree are in the list |
| RadixTree.Tree.Level | nginx/1.0.15/src/core/ngx_radix_tree.c:86-99 | all prefixes of one length get their nodes, or every node is used up and some prefix has none |
| RadixTree.Tree.Preallocate | nginx/1.0.15/src/core/ngx_radix_tree.c:81-102 | the nodes afterwards are those before and all of the first bits, without values, or every node is used up and some prefix has none |
| RadixTree.FullSize | nginx/1.0.15/src/core/ngx_radix_tree.c:45-60 | the first d bits need 2^(d + 1) - 1 nodes |
| RadixTree.Create | nginx/1.0.15/src/core/ngx_radix_tree.c:15-105 | a tree without values whose nodes are exactly those of the first bits; null exactly if the pages hold fewer nodes than those bits need |
| RadixTree.DefaultMeant | nginx/1.0.15/src/core/ngx_radix_tree.c:62-79 | the default by the size of the header is that by the size of a node exactly if the page is of none of four ranges of sizes |
| RadixTree.DefaultIsEight | nginx/1.0.15/src/core/ngx_radix_tree.c:55-79 | on the platforms named the default is 8 bits, where 6, 7, 7 and 8 are meant |
| RadixTree.DeletePreallocated | nginx/1.0.15/src/core/ngx_radix_tree.c:173-233 | a run in which a preallocated leaf that was never stored is deleted with success |
| RadixTree.DeleteLeftover | nginx/1.0.15/src/core/ngx_radix_tree.c:173-233 | a run in which an insertion fails for want of memory and the leaf that it leaves is deleted with success |
| Inet6.InetAddr | nginx/1.0.15/src/core/ngx_inet.c:17-57 | the loop reads a dotted quad as its recursive definition does, with the error value for anything else |
| Inet6.Inet6Addr | nginx/1.0.15/src/core/ngx_inet.c:62-175 | the loop over the text succeeds exactly on the texts of the recursive reader and leaves its bytes in the array |
| Inet6.MoveUp | nginx/1.0.15/src/core/ngx_inet.c:159-163 | the overlapping copy moves every byte and loses none |
| Inet6.Spread | nginx/1.0.15/src/core/ngx_inet.c:156-165 | a gap of zeros is opened in place where "::" stood |
| Inet6.PutWord | nginx/1.0.15/src/core/ngx_inet.c:92-93 | a word becomes two bytes, the high one first |
| Inet6.End | nginx/1.0.15/src/core/ngx_inet.c:149-174 | the end of the text succeeds exactly if the words are eight, or fewer with a gap |
| Inet6.LongestMore | nginx/1.0.15/src/core/ngx_inet.c:294-302 | a run of zeros that ends replaces the longest one so far exactly if it is longer |
| Inet6.FindZeros | nginx/1.0.15/src/core/ngx_inet.c:289-315 | the first of the longest runs of two or more zero words |
| Inet6.PrintWords | nginx/1.0.15/src/core/ngx_inet.c:332-346 | the words in hexadecimal with the run shortened to a colon |
| Inet6.Ntop | nginx/1.0.15/src/core/ngx_inet.c:279-353 | the text of the address with its first longest run of zeros shortened and an IPv4 tail where the code shows one |
| Inet6RoundTrip.QuadRead | nginx/1.0.15/src/core/ngx_inet.c:17-57 | a printed dotted quad is read back |
| Inet6RoundTrip.ShownRead | nginx/1.0.15/src/core/ngx_inet.c:85-147 | the printed words from any place on are read back |
| Inet6RoundTrip.DottedRead | nginx/1.0.15/src/core/ngx_inet.c:113-128 | a printed IPv4 tail is read back unless it reads as the error value |
| Inet6RoundTrip.OnesAreNone | nginx/1.0.15/src/core/ngx_inet.c:118-121 | the addresses that fail are exactly those shown with the tail 255.255.255.255 |
| Inet6RoundTrip.RoundTrip | nginx/1.0.15/src/core/ngx_inet.c:62-353 | reading what was printed gives the address, and fails exactly for those |
| Inet6RoundTrip.TextFits | nginx/1.0.15/src/core/ngx_inet.c:286-288 | the text of every address fits in 45 characters |
| Inet6RoundTrip.PrintAndRead | nginx/1.0.15/src/core/ngx_inet.c:62-353 | the printer and the reader as loops complete the round trip |
| Base64.Sextets | nginx/1.0.15/src/core/ngx_string.c:1070-1073 | the shifts and masks of the encoder are the digits of three bytes in base 64 |
| Base64.Encode | nginx/1.0.15/src/core/ngx_string.c:1057-1095 | the loop and its end case write the groups of three bytes with their padding |
| Base64.DecodeBody | nginx/1.0.15/src/core/ngx_string.c:1172-1192 | the loop and its end cases give the bytes of the characters before the padding |
| Base64.Decode | nginx/1.0.15/src/core/ngx_string.c:1098-1195 | a text is decoded exactly if the part before the padding is of the alphabet and of a possible length |
| Base64.QuadBack | nginx/1.0.15/src/core/ngx_string.c:1175-1182 | four characters give back their three bytes |
| Base64.RoundTrip | nginx/1.0.15/src/core/ngx_string.c:1057-1195 | decoding what was encoded gives it back, for all byte sequences |
| UriEscape.CountEscapes | nginx/1.0.15/src/core/ngx_string.c:1472-1487 | how many bytes a table escapes |
| UriEscape.EscapeUri | nginx/1.0.15/src/core/ngx_string.c:1489-1502 | the escaped text, as long as the counting pass says |
| UriEscape.EscapedLength | nginx/1.0.15/src/core/ngx_string.c:1472-1502 | the text grows by two for each byte counted |
| UriEscape.UnescapeUri | nginx/1.0.15/src/core/ngx_string.c:1506-1633 | the state machine without flags unescapes as its recursive definition does |
| UriEscape.EscapedBack | nginx/1.0.15/src/core/ngx_string.c:1337-1633 | a text comes back if the table escapes the percent sign or the text has none |
| UriEscape.EscapesPercent | nginx/1.0.15/src/core/ngx_string.c:1344-1467 | every table but that for refreshes escapes the percent sign |
| UriEscape.Owed | nginx/1.0.15/src/core/ngx_string.c:1506-1633 | once unescaping has swallowed something of a text that the refresh table let through, no rest of the text makes up for it |
| UriEscape.PercentLost | nginx/1.0.15/src/core/ngx_string.c:1424-1633 | no text with a percent sign comes back from the refresh table |
| UriEscape.RefreshLoses | nginx/1.0.15/src/core/ngx_string.c:1424-1442 | a text that the refresh table does not bring back |
| UriEscape.RoundTrip | nginx/1.0.15/src/core/ngx_string.c:1337-1633 | unescaping undoes escaping exactly if the table is not that for refreshes or the text has no percent sign |
| Md5Stream.Context.constructor | nginx/1.0.15/src/core/ngx_md5.c:22-31 | a context of the empty message |
| Md5Stream.Context.Copy | nginx/1.0.15/src/core/ngx_md5.c:46-46 | the data stands in the buffer and the rest of it is unchanged |
| Md5Stream.Context.Top | nginx/1.0.15/src/core/ngx_md5.c:50-53 | a full buffer is taken in |
| Md5Stream.Context.Blocks | nginx/1.0.15/src/core/ngx_md5.c:56-61 | whole blocks are taken in and the rest is kept |
| Md5Stream.TakenSmall | nginx/1.0.15/src/core/ngx_md5.c:45-48 | data that does not fill the block only joins the buffer |
| Md5Stream.TakenBlock | nginx/1.0.15/src/core/ngx_md5.c:50-53 | data that fills the block completes it |
| Md5Stream.TakenMany | nginx/1.0.15/src/core/ngx_md5.c:56-59 | whole blocks continue the fold |
| Md5Stream.Context.Update | nginx/1.0.15/src/core/ngx_md5.c:34-62 | the context stands for the message with the piece appended |
| Md5Stream.Context.Overflow | nginx/1.0.15/src/core/ngx_md5.c:76-81 | a block without room for the length is padded and taken in |
| Md5Stream.Context.Last | nginx/1.0.15/src/core/ngx_md5.c:83-95 | the last block ends in the 64-bit length, low byte first |
| Md5Stream.PaddedFold | nginx/1.0.15/src/core/ngx_md5.c:70-95 | the padded message ends in one block or two, depending on the bytes left over |
| Md5Stream.Context.Final | nginx/1.0.15/src/core/ngx_md5.c:65-115 | the digest of the padded message |
| Md5Stream.Md5 | nginx/1.0.15/src/core/ngx_md5.c:22-115 | however a message is cut into pieces, its digest is that of the whole |
| Gmtime.WeekdayMod | nginx/1.0.15/src/core/ngx_times.c:293-295 | the remainder by seven is the weekday counted on day by day from a Thursday |
| Gmtime.MarchNumber | nginx/1.0.15/src/core/ngx_times.c:308-309 | days counted year by year from 1970 and by the formula from March agree |
| Gmtime.Estimate | nginx/1.0.15/src/core/ngx_times.c:311-318 | the estimated year is right or one too high |
| Gmtime.YearOf | nginx/1.0.15/src/core/ngx_times.c:318-326 | the correction gives the year that the day is in |
| Gmtime.MonthFormula | nginx/1.0.15/src/core/ngx_times.c:328-340 | the empirical formula gives the month that the day is in, and the other one its first day |
| Gmtime.DateOf | nginx/1.0.15/src/core/ngx_times.c:336-357 | the month and day are those of a valid date with that day number |
| Gmtime.FromMarch | nginx/1.0.15/src/core/ngx_times.c:308-362 | the date of a day counted from March |
| Gmtime.Convert | nginx/1.0.15/src/core/ngx_times.c:281-371 | for every time from 1970 on a valid date and time that counts back to the same second, with its weekday |
| Kmp.Mismatched | utils/kmp.c:26-30 | after a mismatch the next border to try is the longest border of the border |
| Kmp.GenNext | utils/kmp.c:7-33 | each entry of the table is the length of the longest border of that prefix |
| Kmp.Shifted | utils/kmp.c:60-62 | an occurrence that overlaps the part matched starts with a border of it |
| Kmp.ScanMismatch | utils/kmp.c:60-62 | falling back to the longest border misses no occurrence |
| Kmp.Search | utils/kmp.c:35-75 | the first occurrence of the pattern, or -1 exactly if there is none |
| Graph.EdgeAdded | utils/graph.py:73-81 | a new edge brings its ends and nothing else, and an edge that exists keeps its weight |
| Graph.Digraph.constructor | utils/graph.py:43-45 | an empty graph, or a copy of one, with its indegrees |
| Graph.Digraph.NewVertex | utils/graph.py:47-49 | a vertex without edges |
| Graph.Digraph.AddVertex | utils/graph.py:51-53 | the vertex is there, and an existing one keeps its edges |
| Graph.Digraph.AddEdge | utils/graph.py:73-81 | the edge and its ends are there and every indegree counts the incoming edges |
| Graph.Digraph.DelEdge | utils/graph.py:83-96 | exactly that edge goes, or nothing changes and -1 exactly if there was none |
| Graph.Digraph.CutEdges | utils/graph.py:59-61 | no edge leads to the vertex any more |
| Graph.Digraph.LowerDegrees | utils/graph.py:63-65 | the indegree of each successor is lower by one |
| Graph.Digraph.DelVertex | utils/graph.py:55-71 | the graph without the vertex and its edges, with every indegree right |
| Graph.PartialNext | utils/graph.py:106-108 | a vertex without incoming edges may come next |
| Graph.Digraph.Pass | utils/graph.py:105-108 | a pass keeps the order begun and takes no vertex only if all have incoming edges |
| Graph.Stuck | utils/graph.py:111-112 | a graph in which every vertex has an incoming edge has a cycle |
| Graph.SortedAcyclic | utils/graph.py:98-114 | a graph with a topological order has no cycle |
| Graph.Digraph.Topsort | utils/graph.py:98-114 | a topological order of all vertices if there is no cycle, and nothing exactly if there is one or no vertex |
| Binomial.CalcFactorial | acm_icpc/cra.py:4-9 | the factorial |
| Binomial.FactorialForm | acm_icpc/cra.py:12-23 | the number of choices times the factorials of both parts is the factorial of the whole |
| Binomial.Divide | acm_icpc/cra.py:23-23 | the two integer divisions one after another leave no remainder |
| Binomial.ByFactorials | acm_icpc/cra.py:12-23 | the quotient of factorials counts the choices |
| Binomial.ByPascal | acm_icpc/cra.py:26-36 | the recursion counts the choices |
| Binomial.Symmetry | acm_icpc/cra.py:39-57 | choosing is leaving the others |
| Binomial.Vandermonde | acm_icpc/cra.py:49-57 | choosing from two groups is choosing from both together |
| Binomial.ProductsAll | acm_icpc/cra.py:49-57 | the sum of products of choices counts the choices |
| Binomial.ByProducts | acm_icpc/cra.py:39-57 | the sum that stops early counts the choices |

## Left out

- The HTTP, mail and event modules of nginx, its configuration and process handling, and the other
  books, notes and exercises in the repository: none of them is part of this model.
- Red-black tree: the comparison of timers that may wrap around (`ngx_rbtree_insert_timer_value`);
  keys are compared as unbounded numbers.
- Mutex: there are fewer than 2^31 processes; errors of `sem_wait` other than an interruption, failures of `sem_post`, the variant on
  file locks; the semaphore's counter does not overflow; fairness and how long a process waits.
- Slab pool: pages of 4096 bytes, 64-bit words and a minimal chunk of 8 bytes are fixed; the mutex
  around the calls and the filling with junk are not part of this model. Bitmap words are sets of
  bit positions.
- SlabPool.Pool.Free: requires an address for which there is a descriptor to look at. An address
  between the last page and the end of the pool has none if the descriptors end with that page, and
  the code reads the memory behind them.
- File cache: vnode events, direct I/O and read-ahead, the branch without a cache, and the width of
  the counters; the tree by name is a map. The file system's answers are parameters of each call,
  and a descriptor or memory that it gives out is not in use.
- JSON checker: a depth of 0, for which the code has no room for its first mode, memory failure, and the use of a checker after it rejected; characters are numbers
  and the decoding of text is the caller's.
- HashBuild.Init: requires buckets of 24 bytes or more, because the code divides by the number of
  elements that fit, and names and cache lines of whole words with which no 16-bit sum of a bucket
  wraps around, because the code then writes beyond the memory it has taken; values are not null;
  memory failure is not part of this model.
- HashBuild.Find: requires that the names differ in lower case and that the hash of a stored name
  is the one it was stored with.
- HashTrie.Build: requires names in lower case that are sorted and not empty, of characters above
  the space, and never both ".S" and "*.S", and sizes with which no 16-bit sum of a bucket wraps
  around. The tables of all levels stand in one sequence, and a pointer to one is four times its
  place. Names with a wildcard at their end (`ngx_hash_find_wc_tail`) are not part of this model.
- HashTrie.FindPattern: requires patterns with the wildcard in front that the code accepts, in the
  order it sorts them, and the same of their characters and of the sizes.
- HashWildcard.KeyCoversMatches: requires a pattern that begins with "*." or "." and goes on, as
  the caller has checked.
- RadixTree.Tree.Insert: requires masks of leading ones, as the callers make them.
- RadixTree.Tree.Delete: requires that the empty prefix is not deleted while the root has no
  children, where the code follows the root's null parent.
- Addresses: the check of the buffer's length before printing, and URLs with addresses in them.
- URIs: the unescaping flags for URIs and redirects, which stop at a question mark. Base64: the
  alphabet for URLs, which differs in two characters.
- Md5Stream.Md5: the sixty-four numeric rounds of a block are a parameter; padding, length and
  buffering do not depend on them.
- Gmtime.Convert: times are not negative, as the code says; the narrowing of the year is not part
  of this model.
- Kmp.Search: requires a pattern of two characters or more, because the code writes the first two
  entries of the table without looking at the length.
- Graph: the search for shortest paths, which the source leaves unfinished, and printing.
- Binomial.ByPascal: requires that nothing is chosen only of nothing, where the code stops.
