# Verified models of the allocator, the containers, the signalling protocol and the wire codecs

This project models, in Dafny, the parts of the repository whose correctness is hardest to see from
one function alone, and proves what they promise for every input and every run.

- **Memory allocator** (`PageDirectory.dfy`, `FreeList.dfy`, `PageAllocator.dfy`, `ChunkPages.dfy`,
  `Malloc.dfy`).  A sorted and coalesced list of free page runs, a sparse directory of page marks
  reached through two cached positions, and pages of power-of-two chunks with bitmaps.  The class
  invariants tie the three layers to each other and to the set of live blocks: free list and marks
  describe the same pages, live blocks never overlap, the count of used pages is their total, the
  free list stays within the cache, and the branch that reports a destroyed free list is dead.
- **Hash table** (`HashTable.dfy`, `HashLinks.dfy`).  Chains in a prime-sized array, two ways of
  rehashing, iteration with removal, and the table's own consistency check, as a set modulo the equality
  of elements; and the same steps on the links that represent the chains.
- **Tail queue** (`TailQueue.dfy`).  Back links are addresses of forward links; a slot read as a list
  head leads to the previous element.
- **Peer-to-peer signalling** (`ReplayWindow.dfy`, `Signalling.dfy`, `SignallingRuns.dfy`,
  `SignallingSteps.dfy`, `ControlReader.dfy`).  The bounded replay window, the offer/answer protocol
  as a state machine with a step boundary at every `await`, what holds in every run of it and what
  each event changes, and the reader of multi-line control-port replies.
- **Wire codecs** (`Trunnel.dfy`, `Ed25519Cert.dfy`, `LinkHandshake.dfy`, `Netinfo.dfy`,
  `TrnExtension.dfy`, `Pwbox.dfy`, `WireFormats.dfy`).  The laws of a codec are stated once, for any parser and encoder,
  and for counted lists of elements that obey them; each message is shown to obey them, and its
  imperative encoder (a limited buffer, back-patched length fields) and parser (a position and what
  remains) are shown to compute what the laws are about.  What stands on the wire is said apart from
  both, in numbers and offsets, and shown to be what is read and what is written.

The network, the system calls and the clock are parameters or nondeterministic events: `mmap` returns
some fresh range of pages, the outcome of growing a hash table is an argument, a message that was sent
may be delivered any number of times or never.  Pages and sizes of page runs are counted in pages.

Where the code and its comments differ, the model follows the code:

- `pdir_lookup` looks as if it started from the nearer of its two caches; the `?:` groups so that it
  always starts from the last one (`NearerCacheTestIsConstant`), the nearer one only if that happens to
  be (`StartsNearestIff`, `StartsFarther`).  Either start gives the right answer.
- `free_pages` says that something is always kept of the entry it trims.  Nothing is kept if and only if
  the free list already filled the cache and the run has no free neighbour (`NothingKeptIff`, and
  `NothingKept` for a state where it happens).  When a run merges with both neighbours, the following
  one is counted twice, so that many pages fewer are kept than would fit (`over` in `Trimmed`).
- `free_bytes` says that it inserts in address order.  The list stays sorted if and only if it was empty
  or the page goes to its front (`AddressOrderIff`); the queues are therefore treated as sets.
- The prime search of the hash table reads past the table of primes if and only if the requested size
  is not below the load limit of the last prime (`NextPrime`, `RunsOffThePrimes`); a table that has its
  last length already reports success without room (`Grow`).
- A control-port reply that the end of the stream cuts off can pass for a whole one: if and only if
  exactly the three digits of a line before the last are left, or at least those of the last line
  (`CutOff`, `CutOffWitness`).
- `HT_REPLACE` keeps the table consistent if and only if its argument was not already linked and either
  takes the place of a matching element or has an empty link of its own: at the end of a chain nothing
  writes that link (`AppendRepresentsIff`).  `HT_NEXT_RMV` and `HT_FOREACH_FN` leave the links of what
  they remove as they were, so putting such an element back can turn a chain into a ring
  (`StaleReplace`); `HT_REMOVE` empties them.

`dafny verify dfyconfig.toml` checks the whole project.

## Model

| member | source | states |
|---|---|---|
| PageDirectories.NearerCacheTestIsConstant | onionrelay_src/src/ext/OpenBSD_malloc_Linux.c:302-344 | the test that should pick the nearer cache picks the last directory for all positions, with unsigned wrap-around modelled |
| PageDirectories.StartsNearestIff | onionrelay_src/src/ext/OpenBSD_malloc_Linux.c:302-344 | the walk starts from a nearest cache if and only if the last directory is one |
| PageDirectories.PageDirectory.Lookup | onionrelay_src/src/ext/OpenBSD_malloc_Linux.c:302-344 | whichever directories the two caches name, the result is the matching directory with 0 if it exists, else the greatest smaller one |
| PageDirectories.PageDirectory.WalkForward | onionrelay_src/src/ext/OpenBSD_malloc_Linux.c:302-344 | the forward walk from any directory at or below the target ends at the greatest one not above it |
| PageDirectories.PageDirectory.AddPages | onionrelay_src/src/ext/OpenBSD_malloc_Linux.c:593-661 | the list stays strictly sorted with exact page counts and covers exactly the old pages and the new ones; it grows by exactly the directory pages used, which are no more than the number reserved, and that number is exact |
| PageDirectories.PageDirectory.House | onionrelay_src/src/ext/OpenBSD_malloc_Linux.c:593-661 | one round of the insertion: the directory exists afterwards at the returned position, others keep their counts, and the list grows by one exactly if it was missing |
| PageDirectories.LinkAfter | onionrelay_src/src/ext/OpenBSD_malloc_Linux.c:593-661 | linking a missing number behind the greatest smaller one keeps the list strictly sorted and complete |
| PageDirectories.DirnumDecodes | onionrelay_src/src/ext/OpenBSD_malloc_Linux.c:593-661 | the page count packed into a directory number never reaches the directory part |
| PageDirectories.PageDirectory.MarkRun | onionrelay_src/src/ext/OpenBSD_malloc_Linux.c:982-1017 | exactly the pages of the run are marked FIRST, FOLLOW..., with the guard page FIRST behind it, across directory borders; nothing else changes |
| PageDirectories.PageDirectory.FreeRun | onionrelay_src/src/ext/OpenBSD_malloc_Linux.c:1452-1475 | the walk over the marks recovers exactly the length of the run and frees exactly its pages and guard |
| PageDirectories.PageDirectory.Unmap | onionrelay_src/src/ext/OpenBSD_malloc_Linux.c:1604-1660 | exactly the given pages leave the directory, and directories without pages leave the list |
| FreeLists.CanonicalUnique | onionrelay_src/src/ext/OpenBSD_malloc_Linux.c:1507-1573 | two sorted, disjoint and coalesced lists that cover the same pages are the same list |
| FreeLists.Carve | onionrelay_src/src/ext/OpenBSD_malloc_Linux.c:863-942 | taking pages out of one entry keeps the list sorted and coalesced, with exactly those pages and that much total gone |
| FreeLists.Join | onionrelay_src/src/ext/OpenBSD_malloc_Linux.c:1507-1573 | each of the four ways of adding a run keeps the list sorted, disjoint and coalesced, with exactly its pages added |
| PageAllocators.Choose | onionrelay_src/src/ext/OpenBSD_malloc_Linux.c:1520-1573 | where the walk has stopped, one of the merges applies and the branch for a destroyed list does not |
| PageAllocators.PageAllocator.TakeFit | onionrelay_src/src/ext/OpenBSD_malloc_Linux.c:863-942 | the first entry that is large enough is used from its front, and no other page leaves the list |
| PageAllocators.PageAllocator.AddRun | onionrelay_src/src/ext/OpenBSD_malloc_Linux.c:1507-1573 | list canonical, pages and total exactly increased, and the cache size computed is that of the other entries plus a following run swallowed as well |
| PageAllocators.PageAllocator.MallocPages | onionrelay_src/src/ext/OpenBSD_malloc_Linux.c:849-1017 | first fit or fresh pages; a new live run of the right length, exactly its pages leave the free list, and free list, marks and live runs still agree; used pages grow by it |
| PageAllocators.PageAllocator.Reclaim | onionrelay_src/src/ext/OpenBSD_malloc_Linux.c:1452-1573 | the run's own marks give back its length; directory, free list and the remaining runs agree |
| PageAllocators.PageAllocator.Settle | onionrelay_src/src/ext/OpenBSD_malloc_Linux.c:1574-1592 | the subtraction from the cache size does not wrap; exactly the front of the entry that fits is kept, and no other page leaves the list |
| PageAllocators.PageAllocator.Trim | onionrelay_src/src/ext/OpenBSD_malloc_Linux.c:1581-1707 | exactly the pages behind those kept are unmapped, the list stays canonical and agrees with the marks |
| PageAllocators.PageAllocator.FreePages | onionrelay_src/src/ext/OpenBSD_malloc_Linux.c:1418-1707 | error cases leave everything unchanged; otherwise exactly that run dies, used pages shrink by it, the list is never found destroyed, and afterwards it covers exactly the old free pages and the run without the end of their stretch that does not fit: all if they fit with the run counted twice, else the cache filled up to that |
| PageAllocators.NothingKeptIff | onionrelay_src/src/ext/OpenBSD_malloc_Linux.c:1581-1592 | nothing of the entry is kept if and only if the list filled the cache before and no neighbour of the run is free |
| PageAllocators.NothingKept | onionrelay_src/src/ext/OpenBSD_malloc_Linux.c:1581-1592 | a state where that happens: a cache of one page and two separate pages freed |
| PageAllocators.GuardIsNoRun | onionrelay_src/src/ext/OpenBSD_malloc_Linux.c:1000-1017 | a guard page is marked FIRST without being a run, and the walk over the marks takes it for one of a single page; once it and the page behind it are freed as such, marks and runs no longer agree, and a run that starts there has lost its mark |
| PageAllocators.RunsApart | onionrelay_src/src/ext/OpenBSD_malloc_Linux.c:982-1017 | two live runs with their guards never share a page |
| PageAllocators.AllocAgree | onionrelay_src/src/ext/OpenBSD_malloc_Linux.c:982-1017 | after an allocation a page is FREE exactly when the list covers it, and free, live and unmapped pages partition the space |
| PageAllocators.FreeAgree | onionrelay_src/src/ext/OpenBSD_malloc_Linux.c:1452-1492 | the same after a run has been freed |
| PageAllocators.TrimAgree | onionrelay_src/src/ext/OpenBSD_malloc_Linux.c:1604-1647 | the same after pages have been given back |
| ChunkPages.Geometry | onionrelay_src/src/ext/OpenBSD_malloc_Linux.c:1052-1096 | for every chunk size the chunks fill the page, the bitmap has exactly the words for them, and the chunks taken by the header, which is in the page for three sizes only, just cover it |
| ChunkPages.NewInfo | onionrelay_src/src/ext/OpenBSD_malloc_Linux.c:1098-1138 | the count of free chunks is that of the set bits in range, none of them under the header, whatever the unused bits held |
| ChunkPages.ChunkFits | onionrelay_src/src/ext/OpenBSD_malloc_Linux.c:1098-1138 | every usable chunk lies inside its page and behind the header |
| ChunkPages.Pick | onionrelay_src/src/ext/OpenBSD_malloc_Linux.c:1171-1225 | the chunk chosen, with or without the random skips, is usable and free even if bits past the last chunk are set |
| ChunkPages.NextBit | onionrelay_src/src/ext/OpenBSD_malloc_Linux.c:1171-1225 | the scan from a set bit ends on a later set bit in range while one is left |
| ChunkPages.BucketFor | onionrelay_src/src/ext/OpenBSD_malloc_Linux.c:1148-1170 | the bucket found is the smallest that holds the size |
| ChunkPages.TakeOk | onionrelay_src/src/ext/OpenBSD_malloc_Linux.c:1171-1225 | clearing a set bit and decrementing keeps the count equal to the set bits |
| ChunkPages.ReturnOk | onionrelay_src/src/ext/OpenBSD_malloc_Linux.c:1734-1756 | setting a clear bit and incrementing keeps the count equal to the set bits |
| ChunkPages.ChunkAt | onionrelay_src/src/ext/OpenBSD_malloc_Linux.c:1734-1756 | every offset falls into a chunk of the page; an aligned offset and a chunk index name each other |
| ChunkPages.LastOneBack | onionrelay_src/src/ext/OpenBSD_malloc_Linux.c:1765-1768 | all of a page is counted free exactly when the chunk given back was the only one in use |
| ChunkPages.HeaderChunkBreaks | onionrelay_src/src/ext/OpenBSD_malloc_Linux.c:1734-1756 | giving back a chunk under the descriptor leaves the descriptor wrong |
| Mallocs.AddressOrderIff | onionrelay_src/src/ext/OpenBSD_malloc_Linux.c:1757-1764 | inserting into a sorted queue leaves it sorted if and only if it was empty or the page goes before its head |
| Mallocs.Enqueue | onionrelay_src/src/ext/OpenBSD_malloc_Linux.c:1757-1764 | the queue gains exactly the page, no page twice, at the place where the walk stops |
| Mallocs.Dequeue | onionrelay_src/src/ext/OpenBSD_malloc_Linux.c:1768-1781 | the queue loses exactly the page, and the others keep their order |
| Mallocs.BlocksDisjoint | onionrelay_src/src/ext/OpenBSD_malloc_Linux.c:1171-1225 | any two live blocks, chunks or page runs, occupy disjoint bytes |
| Mallocs.StartDecodes | onionrelay_src/src/ext/OpenBSD_malloc_Linux.c:1811-1870 | page and offset of a live block's address lead back to that block |
| Mallocs.Malloc.MakeChunks | onionrelay_src/src/ext/OpenBSD_malloc_Linux.c:1036-1138 | a new page with all chunks free goes to the front of its queue, and no live block appears or disappears |
| Mallocs.Malloc.TakeFrom | onionrelay_src/src/ext/OpenBSD_malloc_Linux.c:1171-1225 | exactly one block becomes live: of the page at the head of the queue, behind as many free chunks as drawn, and the page leaves the queue exactly if that was its last |
| Mallocs.Malloc.MallocBytes | onionrelay_src/src/ext/OpenBSD_malloc_Linux.c:1148-1170 | the chunk is the smallest that holds the size, of bucket 0 exactly for size 0, from the first page of its queue; a page is added exactly when that queue was empty |
| Mallocs.Malloc.FreeBytes | onionrelay_src/src/ext/OpenBSD_malloc_Linux.c:1723-1810 | frees exactly the chunk at an aligned live offset and refuses others unchanged; pages are queued exactly while they have a free chunk, and the page goes back if and only if no other chunk of it was in use |
| Mallocs.Malloc.Allocate | onionrelay_src/src/ext/OpenBSD_malloc_Linux.c:1239-1275 | exactly one block becomes live, and all other blocks stay; up to 2048 bytes it is the smallest chunk that holds the size, of bucket 0 exactly for size 0, and above that the fewest whole pages |
| Mallocs.Malloc.Release | onionrelay_src/src/ext/OpenBSD_malloc_Linux.c:1811-1870 | exactly the live block that starts at the address dies; without one nothing changes (for addresses outside guard pages, descriptors and pages without a directory) |
| HashTables.RehashFresh | onionrelay_src/src/ext/ht.h:460-477 | same elements, each in bucket hash modulo the new length, every chain with the last element met in front |
| HashTables.RehashInPlace | onionrelay_src/src/ext/ht.h:478-496 | same elements and buckets, although elements move into chains already walked or still to be walked; every chain has what came from elsewhere, the last in front, before what stayed, in its order |
| HashTables.SettleBucket | onionrelay_src/src/ext/ht.h:484-495 | walking one chain leaves exactly what belongs there, in order, and puts each other element in front of its chain |
| HashTables.NextPrime | onionrelay_src/src/ext/ht.h:451-456 | the first larger prime whose load limit exceeds the size; the search reads past the primes if and only if not even the last one's does |
| HashTables.RunsOffThePrimes | onionrelay_src/src/ext/ht.h:451-456 | an input for which it does |
| HashTables.PrimesDouble | onionrelay_src/src/ext/ht.h:426-437 | the lengths are odd and each is between 1.8 and 2.1 times the one before |
| HashTables.HashTable.Grow | onionrelay_src/src/ext/ht.h:442-500 | the same elements, in the order the way of rehashing gives them, in as many buckets as the first larger prime with room says; -1 exactly when growth is needed and memory exhausted, past the primes exactly when it is needed and no prime suffices, both with nothing changed; success means room if and only if the size is below the last load limit |
| HashTables.FirstGrowth | onionrelay_src/src/ext/ht.h:442-500 | with a load of 0.6 the first growth is to 53 buckets and a limit of 31, unless memory is exhausted |
| HashTables.HashTable.RepIsBad | onionrelay_src/src/ext/ht.h:514-546 | 0 if and only if placement, cached hashes, count, length and load limit are consistent, for any contents of the fields; exactly when it reads past the primes; and every other number says which check fails first, in which bucket |
| HashTables.HashTable.FindSlot | onionrelay_src/src/ext/ht.h:254-266 | the link of the matching element; at the end of the chain only if nothing in the whole table matches |
| HashTables.MatchIsInBucket | onionrelay_src/src/ext/ht.h:254-266 | a matching element can only be in the bucket of the key |
| HashTables.HashTable.Find | onionrelay_src/src/ext/ht.h:270-277 | the element of the set that matches, or none if none does |
| HashTables.HashTable.Insert | onionrelay_src/src/ext/ht.h:281-291 | exactly the element is added to the set, in front of its chain, unless there is no prime or no bucket array to go on with; the table grows exactly when it is full, to the first prime with room; the load stays within the limit if and only if there was room, or a longer length and memory for it |
| HashTables.HashTable.Replace | onionrelay_src/src/ext/ht.h:296-314 | the matching element, if any, gives its place in the chain to the argument and is returned, and else the argument goes to the end of its chain, unless there is no prime or no bucket array to go on with; the table is right afterwards if and only if the argument was not linked before and either takes the place of another or had an empty link of its own |
| HashTables.HashTable.Remove | onionrelay_src/src/ext/ht.h:318-331 | exactly the matching element leaves the set and its place in the chain and is returned, its own link empty, and none matches afterwards |
| HashTables.HashTable.Start | onionrelay_src/src/ext/ht.h:362-376 | the first element in bucket order, none only for the empty table |
| HashTables.HashTable.Next | onionrelay_src/src/ext/ht.h:382-401 | the element following in bucket order, found through the cached hash |
| HashTables.HashTable.NextRmv | onionrelay_src/src/ext/ht.h:404-421 | the same element as without removal, with exactly the current one taken out and the count adjusted; the link of that one is left as it was, empty exactly if it was the last of its chain |
| HashTables.HashTable.Sweep | onionrelay_src/src/ext/ht.h:382-421 | any mix of the two visits each original element exactly once, in order, and leaves exactly those kept, with the right count |
| HashTables.HashTable.ForeachFn | onionrelay_src/src/ext/ht.h:336-357 | the same for the callback form, whatever the callback answers at each call |
| HashLinks.UnlinkRepresents | onionrelay_src/src/ext/ht.h:404-421 | overwriting a link with that of its element takes exactly that element out of the chains the links represent |
| HashLinks.PushRepresents | onionrelay_src/src/ext/ht.h:281-291 | the two assignments of an insertion put exactly the element in front of its chain |
| HashLinks.LinkTable.Unlink | onionrelay_src/src/ext/ht.h:404-421 | the removal through the address of a link, on the links, is the removal from the chain, and leaves the removed element's own link as it was |
| HashLinks.AppendRepresentsIff | onionrelay_src/src/ext/ht.h:302-313 | writing an unlinked element into the link at the end of a chain appends it if and only if its own link is empty |
| HashLinks.RepresentsUnique | onionrelay_src/src/ext/ht.h:302-313 | links represent at most one table of chains, so otherwise they do not represent the intended one at all |
| HashLinks.StaleReplace | onionrelay_src/src/ext/ht.h:296-314 | two elements of one bucket, the first removed in passing and put back: the links represent nothing any more |
| HashLinks.LinkTable.FindLink | onionrelay_src/src/ext/ht.h:254-266 | following the links ends at the matching element, or at the end of its chain if nothing in the table matches |
| HashLinks.LinkTable.Insert | onionrelay_src/src/ext/ht.h:286-290 | the element is in front of its chain, whatever its own link held |
| HashLinks.LinkTable.Replace | onionrelay_src/src/ext/ht.h:296-314 | the whole of the replacement on links: exchange, append or neither, and the exact condition under which links, count and set are right afterwards |
| HashLinks.LinkTable.Remove | onionrelay_src/src/ext/ht.h:318-331 | exactly the matching element leaves the set on the links, with an empty link of its own |
| HashLinks.LinkTable.Next | onionrelay_src/src/ext/ht.h:382-401 | the link of the element following in bucket order |
| HashLinks.LinkTable.NextRmv | onionrelay_src/src/ext/ht.h:404-421 | the link of that element while the current one is unlinked, whose own link stays |
| HashLinks.LinkTable.Sweep | onionrelay_src/src/ext/ht.h:362-421 | a loop along the links it rewrites visits each original element once and leaves exactly those kept |
| HashLinks.LinkTable.Exchange | onionrelay_src/src/ext/ht.h:302-309 | the exchange through the address of a link, on the links, is the exchange in the chain |
| HashLinks.LinkTable.Move | onionrelay_src/src/ext/ht.h:490-493 | the three assignments of a move take the element from its chain to the front of the other |
| HashLinks.LinkTable.Settle | onionrelay_src/src/ext/ht.h:484-495 | following one chain by its links while rewriting them gives the chains that the walk over sequences gives |
| HashLinks.LinkTable.RehashInPlace | onionrelay_src/src/ext/ht.h:478-496 | on the links: same elements, each in its new bucket, links intact, and the chains in the same order as without links |
| HashLinks.LinkTable.RehashFresh | onionrelay_src/src/ext/ht.h:460-477 | the same for the second bucket array, while old and new chains share the links |
| TailQueues.TailQueue.Last | onionrelay_src/src/ext/tor_queue.h:348-350 | the last element, or null for the empty queue, by reading a slot as a head |
| TailQueues.TailQueue.Prev | onionrelay_src/src/ext/tor_queue.h:351-353 | the element before, or null before the first, by the same reading |
| TailQueues.TailQueue.Forward | onionrelay_src/src/ext/tor_queue.h:357-361 | visits the elements in order |
| TailQueues.TailQueue.Backward | onionrelay_src/src/ext/tor_queue.h:369-373 | visits exactly the reverse of the elements, also when there are none |
| TailQueues.TailQueue.RemoveAll | onionrelay_src/src/ext/tor_queue.h:362-368 | removing visited elements while walking still visits each exactly once and leaves the others in order |
| TailQueues.TailQueue.InsertHead | onionrelay_src/src/ext/tor_queue.h:388-397 | the sequence with the element in front, links and back links in order |
| TailQueues.TailQueue.InsertTail | onionrelay_src/src/ext/tor_queue.h:398-404 | the sequence with the element at the end |
| TailQueues.TailQueue.InsertAfter | onionrelay_src/src/ext/tor_queue.h:405-414 | the sequence with the element behind a given one |
| TailQueues.TailQueue.InsertBefore | onionrelay_src/src/ext/tor_queue.h:415-421 | the sequence with the element before a given one |
| TailQueues.TailQueue.Remove | onionrelay_src/src/ext/tor_queue.h:422-432 | the sequence without the element |
| TailQueues.TailQueue.Replace | onionrelay_src/src/ext/tor_queue.h:433-443 | the sequence with one element exchanged |
| ReplayWindows.ReplayWindow.Seen | p4.py:327-343 | true exactly for the nonces in the peer's window; list and set hold the same; the answer is that of the history of calls; other peers unaffected |
| ReplayWindows.WindowIsLastAccepted | p4.py:333-343 | after any history the window holds exactly the last accepted nonces, at most as many as its capacity, none twice |
| ReplayWindows.AcceptedAgainIff | p4.py:333-343 | an accepted nonce is accepted again if and only if at least as many others of that peer as the capacity were accepted in between |
| ReplayWindows.AcceptedAgainLate | p4.py:333-343 | any two acceptances of a nonce have that many others between them |
| ReplayWindows.Validate | p4.py:1019-1055 | each of the eight checks is reported exactly when it fails and none before it does: version 1, both peer ids, the expected sender and recipient where given, a known contact, a nonce, its signature, no replay; a failure before the replay check leaves the window unchanged, anything else is one call of `seen` |
| Signalling.EventKeeps | p4.py:822-997 | every event, in any interleaving, keeps the invariant on sessions, peer connections, messages, handlers and completions |
| SignallingRuns.RunKeeps | p4.py:822-997 | so the invariant holds in every state of every run |
| SignallingRuns.CompletionIsGenuine | p4.py:822-860 | in every reachable state, an applied answer was made by the peer from the offer of that very dial, is addressed to the dialling node, and was applied to the peer connection the offer describes |
| SignallingRuns.CompletionsAreDistinct | p4.py:822-918 | distinct completions have distinct session ids, offers and handlings of offers |
| SignallingRuns.ConnectionsAccounted | p4.py:901-934 | in every reachable state a peer connection is that of its session if and only if it has not been closed |
| SignallingRuns.InstalledWhenEmpty | p4.py:826-906 | a session has no peer connection when a new one is installed |
| SignallingRuns.HandledAgainLate | p4.py:862-906 | one offer is handled twice only with a full window of accepted messages in between |
| SignallingRuns.OffersGoOneWay | p4.py:538-545 | of two nodes only one ever sends offers to the other |
| Signalling.OneSideDials | p4.py:538-545 | of two contacts exactly one has the role that dials |
| SignallingRuns.CompletionHappens | p4.py:822-918 | for any two contacts there is a run that completes a dial |
| SignallingSteps.OtherSessionsKept | p4.py:822-997 | no event touches a session it does not belong to, and sessions come only with a new contact |
| SignallingSteps.ConnectedIff | p4.py:822-997 | for every event: a session is connected afterwards if and only if its channel opens, or it was connected and the event is not a drop, a closed channel, the handling of an offer or a lost peer connection |
| SignallingSteps.ConnectedSince | p4.py:943-997 | in every run a session is connected if and only if its channel was opened and nothing has disconnected it since |
| SignallingSteps.LostStates | p4.py:928-934 | which of the six connection states mean that a peer connection is lost |
| SignallingSteps.ClosedIff | p4.py:920-997 | for every event: which peer connections it closes, a dial only that of a session not connected |
| SignallingSteps.ClosedOnce | p4.py:920-997 | in every run a peer connection counts as closed if and only if some event has closed it |
| SignallingSteps.CreatedIff | p4.py:826-928 | peer connections come only with a dial or the handling of an offer, and stay those of the session they were made for |
| SignallingSteps.SessionPc | p4.py:822-997 | the peer connection of a session is the one installed last until it is closed or lost, and no other event changes it |
| SignallingSteps.SessionId | p4.py:830-906 | the session id is a new one for a dial and that of the offer for an answer, and nothing else changes it |
| SignallingSteps.PhaseIff | p4.py:826-985 | which event gives a session which state, and that no other does |
| SignallingSteps.AppliedIsCompleted | p4.py:822-860 | in every run a session in state answer-applied has completed the dial of its current session id |
| SignallingSteps.LockTakenIff | p4.py:822-918 | a free lock is taken exactly by a dial of a session not connected, the handling of an offer, or a drop |
| SignallingSteps.LockReleasedIff | p4.py:822-918 | a lock is given up exactly when the dial or the handling ends, a reply fails one of its checks, or the holder leaves |
| SignallingSteps.NeverStuck | p4.py:822-918 | in every reachable state the holder of a lock can take its next step, and a free lock can be taken |
| SignallingSteps.AlwaysOpen | p4.py:822-985 | in every reachable state a holder can leave, messages can arrive and callbacks can run |
| SignallingSteps.SentIff | p4.py:838-918 | for every event: exactly which message it sends, field by field |
| SignallingSteps.RecordedIff | p4.py:847-906 | a nonce is recorded exactly for a message from a contact that is expected, addressed to the node if it came in, and not in the window of 4096 |
| SignallingSteps.HandlerIff | p4.py:862-906 | an offer comes to be handled exactly when it arrives and its nonce is recorded |
| SignallingSteps.HandlerStage | p4.py:896-918 | a handler runs once it has the lock and has answered once its answer is sent |
| SignallingSteps.AnswerKept | p4.py:896-918 | the answer a handler has given is the message sent, for its own peer connection |
| SignallingSteps.CompletedIff | p4.py:847-858 | completions come one at a time, with the answer and the peer connection of the dial that applies it |
| ControlReaders.ControlReader.Command | p4.py:693-730 | the loops compute the reply function, errors included, and leave the stream where it says |
| ControlReaders.ReadsReply | p4.py:693-730 | a well-formed reply, with continued and dot-stuffed data lines, is read back exactly and the stream is left at what follows |
| ControlReaders.ReadReplies | p4.py:693-730 | so is every sequence of replies, each in turn |
| ControlReaders.CutOff | p4.py:694-730 | for every place where the stream can end inside a well-formed reply: it is taken for a whole reply if and only if exactly three characters of a line before the last or at least three of the last line are left, with the lines it then seems to have; malformed if and only if one or two digits of a line are left; otherwise an unexpected end, and inside data exactly where the end does not leave a lone dot |
| ControlReaders.CutOffWitness | p4.py:699-704 | a reply of two lines cut off after three characters is read as one empty line |
| ControlReaders.CutOffBetweenParts | p4.py:694-697 | cut off behind any part but the last line, a reply is an unexpected end |
| ControlReaders.ReadsRefusal | p4.py:703-708 | a code of 400 or more ends the reading at its line with that code and text, whatever lines came before |
| ControlReaders.FaultyLine | p4.py:699-730 | behind any well-formed parts: a line without three digits, with digits of no number, with a code of 400 or more, or with another separator ends the reading with the error for it |
| ControlReaders.SoundLine | p4.py:699-730 | every other line is the last of the reply, one of several, or comes before data, as its separator says |
| ControlReaders.SoundOrFaulty | p4.py:699-730 | every line is one or the other |
| ControlReaders.LineEndings | p4.py:694-700 | a line may end in any number of carriage returns before its line feed |
| ControlReaders.Digits | p4.py:699-702 | the characters that codes are written in |
| Trunnel.RoundTrip | onionrelay_src/src/trunnel/ed25519_cert.c:2365-2408 | for every codec that obeys the laws, parsing an encoding followed by anything gives the normalised object and the encoding's length |
| Trunnel.ByteExact | onionrelay_src/src/trunnel/ed25519_cert.c:2293-2359 | for every such codec, encoding a parsed object gives exactly the bytes consumed |
| Trunnel.SelfDelimiting | onionrelay_src/src/trunnel/ed25519_cert.c:2365-2408 | for every such codec, an input with the same first bytes gives the same result and every strict prefix gives -2 |
| Trunnel.ListInverts | onionrelay_src/src/trunnel/ed25519_cert.c:2377-2391 | a counted list of elements that round-trip does so |
| Trunnel.ListRestores | onionrelay_src/src/trunnel/ed25519_cert.c:2377-2391 | a counted list of elements that encode back byte for byte does so, with as many elements as the count says |
| Trunnel.ListStable | onionrelay_src/src/trunnel/ed25519_cert.c:2377-2391 | neither success nor failure of a list, short input apart, depends on what follows |
| Trunnel.U32Value | onionrelay_src/src/trunnel/ed25519_cert.c:1496-1504 | a 32-bit number is its four bytes, the most significant first |
| Trunnel.ListFormat | onionrelay_src/src/trunnel/ed25519_cert.c:2377-2391 | a parsed list is laid out element by element, each from where the one before it ends |
| Trunnel.EmittedFormat | onionrelay_src/src/trunnel/ed25519_cert.c:2320-2345 | so is an encoded one |
| Trunnel.ManyFails | onionrelay_src/src/trunnel/ed25519_cert.c:2377-2391 | a list fails as the first of its elements that does |
| Trunnel.Writer.Put | onionrelay_src/src/trunnel/ed25519_cert.c:203-229 | a field is written if and only if it fits into the room left, and nothing behind the room changes |
| Ed25519Cert.Create2Codec | onionrelay_src/src/trunnel/ed25519_cert.c:150-290 | CREATE2 bodies obey the codec laws |
| Ed25519Cert.EncodeCreate2 | onionrelay_src/src/trunnel/ed25519_cert.c:188-253 | the encoder returns and writes what the laws are about: the length, -1 or -2, within the room given |
| Ed25519Cert.ReadCreate2 | onionrelay_src/src/trunnel/ed25519_cert.c:259-290 | the parser computes the parse function |
| Ed25519Cert.LinkCodec | onionrelay_src/src/trunnel/ed25519_cert.c:1329-1564 | link specifiers obey the codec laws, up to inactive arms and the rewritten length field |
| Ed25519Cert.EncodeLink | onionrelay_src/src/trunnel/ed25519_cert.c:1329-1466 | length field back-patched from the arm written; -2 before -1 when the room ends before an overlong arm does |
| Ed25519Cert.ReadLink | onionrelay_src/src/trunnel/ed25519_cert.c:1473-1564 | the parser computes the parse function: -1 exactly where the length field does not fit the type |
| Ed25519Cert.EncodedLenLink | onionrelay_src/src/trunnel/ed25519_cert.c:1268-1320 | the length computed per type is that of the encoding |
| Ed25519Cert.Extend2Codec | onionrelay_src/src/trunnel/ed25519_cert.c:2235-2408 | EXTEND2 bodies obey the codec laws through both nesting levels |
| Ed25519Cert.EncodeExtend2Into | onionrelay_src/src/trunnel/ed25519_cert.c:2293-2359 | for fitting objects exactly the encoded length if there is room and -2 otherwise; the bytes are the encoding; nothing is written past the room |
| Ed25519Cert.EncodeExtend2 | onionrelay_src/src/trunnel/ed25519_cert.c:2293-2359 | the result for every object, fitting or not |
| Ed25519Cert.EncodedLenExtend2 | onionrelay_src/src/trunnel/ed25519_cert.c:2261-2285 | -1 exactly for objects that fail the check, else the length of the encoding when the unions fit |
| Ed25519Cert.Extend2EmitsIff | onionrelay_src/src/trunnel/ed25519_cert.c:2235-2359 | an object encodes if and only if its counts are right and every specifier fits its length field |
| Ed25519Cert.ReadExtend2 | onionrelay_src/src/trunnel/ed25519_cert.c:2365-2408 | the parser computes the parse function |
| Ed25519Cert.ExtCodec | onionrelay_src/src/trunnel/ed25519_cert.c:464-692 | certificate extensions obey the codec laws, up to inactive arms and the rewritten length field |
| Ed25519Cert.EncodeExt | onionrelay_src/src/trunnel/ed25519_cert.c:522-624 | as for link specifiers, with a two-byte length field |
| Ed25519Cert.ReadExt | onionrelay_src/src/trunnel/ed25519_cert.c:630-692 | the parser computes the parse function |
| Ed25519Cert.EncodedLenExt | onionrelay_src/src/trunnel/ed25519_cert.c:482-514 | the length computed per type is that of the encoding |
| Ed25519Cert.CertCodec | onionrelay_src/src/trunnel/ed25519_cert.c:1824-2071 | certificates obey the codec laws; a wrong version is -1 as soon as it is seen |
| Ed25519Cert.EncodeCert | onionrelay_src/src/trunnel/ed25519_cert.c:1894-1995 | the result for every certificate, fitting or not |
| Ed25519Cert.EncodeCertInto | onionrelay_src/src/trunnel/ed25519_cert.c:1894-1995 | exactly the encoded length or -2, and nothing past the room given |
| Ed25519Cert.EncodedLenCert | onionrelay_src/src/trunnel/ed25519_cert.c:1847-1886 | -1 exactly for objects that fail the check, else the length of the encoding when the unions fit |
| Ed25519Cert.CertEmitsIff | onionrelay_src/src/trunnel/ed25519_cert.c:1824-1995 | a certificate encodes if and only if version and count are right and every extension fits |
| Ed25519Cert.ReadCert | onionrelay_src/src/trunnel/ed25519_cert.c:2000-2071 | the parser computes the parse function |
| LinkHandshake.CertsCertCodec | onionrelay_src/src/trunnel/link_handshake.c:1188-1327 | certificates of a CERTS cell obey the codec laws |
| LinkHandshake.CertsCellCodec | onionrelay_src/src/trunnel/link_handshake.c:1798-1948 | CERTS cells obey the codec laws |
| LinkHandshake.EncodeCertsCell | onionrelay_src/src/trunnel/link_handshake.c:1848-1906 | the result for every cell; if any certificate fails its check, -1 and nothing is written |
| LinkHandshake.EncodedLenCertsCell | onionrelay_src/src/trunnel/link_handshake.c:1819-1840 | the length of the encoding, or -1 if the check fails |
| LinkHandshake.ReadCertsCell | onionrelay_src/src/trunnel/link_handshake.c:1912-1948 | the parser computes the parse function |
| LinkHandshake.AuthChallengeCodec | onionrelay_src/src/trunnel/link_handshake.c:907-1053 | authentication challenges obey the codec laws |
| LinkHandshake.EncodeAuthChallenge | onionrelay_src/src/trunnel/link_handshake.c:945-1010 | the result for every cell |
| LinkHandshake.EncodedLenAuthChallenge | onionrelay_src/src/trunnel/link_handshake.c:919-937 | the length of the encoding, or -1 if the check fails |
| LinkHandshake.ReadAuthChallenge | onionrelay_src/src/trunnel/link_handshake.c:1017-1053 | the parser computes the parse function |
| Netinfo.AddrRestoresIff | onionrelay_src/src/trunnel/netinfo.c:189-346 | encoding a parsed address gives its bytes back if and only if its type is known or its length is 0; otherwise the encoding is shorter |
| Netinfo.AddrSettles | onionrelay_src/src/trunnel/netinfo.c:189-346 | an unknown type is encoded with length 0, and from then on encoding and parsing change nothing |
| Netinfo.EncodeAddr | onionrelay_src/src/trunnel/netinfo.c:189-282 | the encoder writes what the laws are about, with the length field back-patched |
| Netinfo.ReadAddr | onionrelay_src/src/trunnel/netinfo.c:288-346 | the parser computes the parse function, skipping unknown types |
| Netinfo.CellInverts | onionrelay_src/src/trunnel/netinfo.c:582-708 | parsing an encoded cell gives the normalised cell |
| Netinfo.CellRestoresIff | onionrelay_src/src/trunnel/netinfo.c:582-708 | encoding a parsed cell gives its bytes back if and only if every address in it is of known type or empty |
| Netinfo.CellSettles | onionrelay_src/src/trunnel/netinfo.c:582-708 | a cell settles after one round of encoding and parsing |
| Netinfo.CellStable | onionrelay_src/src/trunnel/netinfo.c:660-708 | a result other than -2 does not depend on what follows |
| Netinfo.CellPrefixIsShort | onionrelay_src/src/trunnel/netinfo.c:660-708 | every strict prefix of a parsed cell gives -2 |
| Netinfo.EncodeCell | onionrelay_src/src/trunnel/netinfo.c:582-654 | the result for every cell |
| Netinfo.EncodedLenCell | onionrelay_src/src/trunnel/netinfo.c:547-574 | the length of the encoding, or -1 if the check fails |
| Netinfo.ReadCell | onionrelay_src/src/trunnel/netinfo.c:660-708 | the parser computes the parse function |
| TrnExtensions.FieldCodec | onionrelay_src/src/trunnel/extension.c:150-290 | extension fields obey the codec laws |
| TrnExtensions.ExtensionCodec | onionrelay_src/src/trunnel/extension.c:429-579 | extensions obey the codec laws |
| TrnExtensions.EncodeExtension | onionrelay_src/src/trunnel/extension.c:479-537 | the result for every extension |
| TrnExtensions.EncodedLenExtension | onionrelay_src/src/trunnel/extension.c:450-471 | the length of the encoding, or -1 if the check fails |
| TrnExtensions.ReadExtension | onionrelay_src/src/trunnel/extension.c:543-579 | the parser computes the parse function |
| Pwbox.BoxRoundTrips | onionrelay_src/src/trunnel/pwbox.c:358-544 | for the two constants, whichever they are: parsing exactly an encoding gives the box back, and encoding a parsed box gives all of the input back |
| Pwbox.BoxTakesTheRest | onionrelay_src/src/trunnel/pwbox.c:475-544 | whatever follows an encoding becomes part of the box: its last 32 bytes the digest, the rest data |
| Pwbox.BoxPrefix | onionrelay_src/src/trunnel/pwbox.c:475-544 | every prefix of a box with room for the fixed parts is itself a box, with less data and other bytes for a digest; every shorter one is -2 |
| Pwbox.EncodePwbox | onionrelay_src/src/trunnel/pwbox.c:358-468 | exactly the encoded length or -2, -1 only for objects that fail the check, although the room is narrowed on the way |
| Pwbox.ReadPwbox | onionrelay_src/src/trunnel/pwbox.c:475-544 | the parser computes the parse function |
| Pwbox.EncodedLenBox | onionrelay_src/src/trunnel/pwbox.c:320-350 | the length of the encoding, or -1 if the check fails |
| WireFormats.Create2Format | onionrelay_src/src/trunnel/ed25519_cert.c:188-290 | CREATE2 bodies on the wire, by offset: type, length, data |
| WireFormats.LinkReads | onionrelay_src/src/trunnel/ed25519_cert.c:1473-1564 | link specifiers by number and offset: type 0 with 6 bytes, 1 with 18, 2 with 20, 3 with 32, any other as it is; -2 exactly for too few bytes, -1 exactly for a wrong length |
| WireFormats.LinkFormat | onionrelay_src/src/trunnel/ed25519_cert.c:1329-1564 | the same for what is read and what is written |
| WireFormats.Extend2Reads | onionrelay_src/src/trunnel/ed25519_cert.c:2365-2408 | EXTEND2 bodies read: count, specifiers one after the other, CREATE2 body |
| WireFormats.Extend2Writes | onionrelay_src/src/trunnel/ed25519_cert.c:2293-2359 | the same for what is written |
| WireFormats.ExtReads | onionrelay_src/src/trunnel/ed25519_cert.c:630-692 | certificate extensions: length, type, flags, a key of 32 bytes for type 4; when -1 and when -2 |
| WireFormats.ExtFormat | onionrelay_src/src/trunnel/ed25519_cert.c:522-692 | the same for what is read and what is written |
| WireFormats.CertReads | onionrelay_src/src/trunnel/ed25519_cert.c:2000-2071 | certificates by offset: version 1, type, expiration at 2, key type at 6, key at 7, count at 39, extensions from 40 on and the signature in the last 64 bytes; a version other than 1 is -1 at once |
| WireFormats.CertWrites | onionrelay_src/src/trunnel/ed25519_cert.c:1894-1995 | the same for what is written |
| WireFormats.CertsCertFormat | onionrelay_src/src/trunnel/link_handshake.c:1226-1327 | certificates of a CERTS cell: type, two bytes of length, body |
| WireFormats.CertsCellFormat | onionrelay_src/src/trunnel/link_handshake.c:1848-1948 | CERTS cells: count and certificates |
| WireFormats.AuthChallengeReads | onionrelay_src/src/trunnel/link_handshake.c:1017-1053 | authentication challenges read: 32 bytes, count, two bytes a method |
| WireFormats.AuthChallengeWrites | onionrelay_src/src/trunnel/link_handshake.c:945-1010 | the same for what is written |
| WireFormats.AddrReads | onionrelay_src/src/trunnel/netinfo.c:288-346 | addresses: type 4 with 4 bytes and type 6 with 16, others skipped; when -1 and when -2 |
| WireFormats.AddrFormat | onionrelay_src/src/trunnel/netinfo.c:189-346 | the same for what is read and what is written |
| WireFormats.CellReads | onionrelay_src/src/trunnel/netinfo.c:660-708 | NETINFO cells read: timestamp, address, count, addresses |
| WireFormats.CellWrites | onionrelay_src/src/trunnel/netinfo.c:582-654 | the same for what is written |
| WireFormats.FieldFormat | onionrelay_src/src/trunnel/extension.c:188-290 | extension fields: type, length, bytes |
| WireFormats.ExtensionFormat | onionrelay_src/src/trunnel/extension.c:479-579 | extensions: count and fields |
| WireFormats.BoxReads | onionrelay_src/src/trunnel/pwbox.c:475-544 | boxes read: the letters TORBOX00, header length, header, 16 bytes, data, 32 bytes |
| WireFormats.BoxWrites | onionrelay_src/src/trunnel/pwbox.c:358-468 | the same for what is written |
| WireFormats.BoxFails | onionrelay_src/src/trunnel/pwbox.c:475-544 | -1 exactly when four of the eight letters are there and wrong, and -2 exactly when they are not and bytes are missing |

## Left out

- The allocator's own metadata on its own heap (`ifree(px)`, `ifree(info)`, `imalloc` inside `malloc_make_chunks`), locking, junk and zero filling, `mprotect`, `madvise`, pointer guards, option parsing and `malloc_dump`.
- `realloc` and its in-place cases.
- The upper bound `last_index` / `malloc_brk` and its recomputation after unmapping; `mmap`, `munmap` and the allocation of list nodes always succeed.
- PageAllocators.PageAllocator: the guard option is 0 or 1 page, and free list, directory list and chunk queues are fields of type `seq` and `map`, so aliasing between list nodes is not modelled.
- Mallocs.Malloc.Release: the code does not check an address on a page without a directory, a guard page or the header of a chunk page, where no live block starts; callers must not pass one, since the state is wrong afterwards (`GuardIsNoRun`, `HeaderChunkBreaks`).
- Mallocs.Malloc.FreeBytes: the same for an offset inside the header of a chunk page.
- PageAllocators.PageAllocator.FreePages: the same for a guard page.
- ChunkPages.Pick: the random number that skips chunks is a parameter.
- HashTables.HashTable.RepIsBad: chains are sequences here; along links that form a ring the code would not end.
- HashTables.HashTable: elements are values known by identity and the link fields are a map from elements; `HT_CLEAR` and `HT_FIND_OR_INSERT_` are not modelled; `eqfn` is an equivalence that respects `hashfn`, and the load limit is computed on real numbers.
- The singly linked, simple and circular queues of `tor_queue.h`, and the poisoning of removed links.
- Signalling.EventKeeps: nodes follow the protocol, signatures are ideal, nonces, session ids and peer connections are new when created; contact reloading and shutdown are not events; the session is a value of a state machine and the data channel is not a part of it.
- Whether a session marked connected has a data channel: the callbacks as written do not keep that.
- ControlReaders.ControlReader.Command: which characters are digits is a parameter, the stream is characters and not bytes to decode, and sending the command is not modelled.
- Replies with codes of 400 and above beyond their first line, which the code leaves unread.
- Null sub-objects, failed setters (`trunnel_error_code_`) and failing allocation in the codecs; getters, setters and the fixed-layout cells.
- ICE and WebRTC, TURN credentials, process start-up, sockets, standard input commands, and the language bindings.
