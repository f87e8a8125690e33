# Verified models of the repository's algorithms and protocols

The repository collects C programs. This project models those among them that carry an algorithm or a
protocol with a claim of its own, and proves the claims for all inputs, all runs and all interleavings.
Code that changes state in place is modelled by classes and arrays and methods with loops; each method is
proved equal to a specification function, and the properties are proved about that function. Concurrent
programs and programs interrupted by signals are step systems, and their properties are proved of every
sequence of steps. `dafny verify dfyconfig.toml` verifies the project.

| files | models |
|---|---|
| HashChains, HashRehash, HashTable, HashHistory, EventIoMap | libevent's chained hash table: links reached through pointers to pointers, two rehash algorithms, traversals that unlink, and the event queue of a descriptor |
| SbrkLayout, SbrkHeap, SbrkHistory | the sbrk allocator: first fit, split, merge, release of the top block |
| ThreadPool, ProducerConsumer, TaskPool, MutexRing | threads under mutexes and condition variables |
| ChildReaper, PingPong, TokenBucket, BucketTable | programs driven by signals |
| HttpHeader, HttpResponse, HttpParser, Relay, SelectRelay, LineReader, FdPassing | resumable readers of byte streams |
| HeapOrder, BinHeap, QuickSort, Josephus, Decimal, Hanoi | array algorithms |
| Common, Counting, Exchange | shared notions: options, 32-bit ints, counting, exchanging and permuting |

Where the code does not do what it is for, the model keeps the code and the contract gives the exact
condition:

- HT_REPLACE of an element that is already linked leaves the table invalid (`HashTable.IoMap.Replace`).
- INSERT, REPLACE and evmap_io_add ignore a failed growth. With a table they overfill it
  (`HashTable.IoMap.Insert`), without one they divide by its length 0 or follow a NULL
  (`HashTable.IoMap.MakeRoom`). `HashHistory.RunHistory` is about the histories without the latter.
- `my_calloc` takes the product modulo 2^64 and then hands out too small an area (`SbrkHeap.Heap.Calloc`).
- The growth loop leaves the table of primes for sizes from 805306370 on (`HashTable.SearchStaysInside`), and
  the load bound is given up only at the last prime (`HashTable.IoMap.RepIsBad`).
- `block_split` does not set the predecessor link of the block behind the split, and `my_free` does not clear
  the successor link of the block before a released one. The heap has a switch `relinked` that makes the two
  updates. Contracts of `Malloc` and `Free` say exactly when the headers stay right without them; the history
  theorem is about the heap with them.
- A pool with a failed worker never exits, and one that has files but is allowed no connection does not either
  (`ThreadPool.FailureIsFinal`, `ThreadPool.FailedWorkerHangs`, `ThreadPool.NoConnectionsHang`); without these
  a standstill is the exit (`ThreadPool.StandstillExactly`).
- The counters of the consumer are ints. They count right exactly if the positive arguments sum up to an int
  (`ProducerConsumer.UnitsConservedExactly`); the requirement wraps around exactly if the sum of all arguments is
  no int (`ProducerConsumer.RequirementExactly`), and the consumer waits for ever exactly if nothing is to be made
  or the requirement has wrapped around to more than that (`ProducerConsumer.StandstillExactly`).
- The token count of a bucket is an int. It gets negative exactly if a parameter is negative or a full bucket has
  no room for a return and a tick (`TokenBucket.NeverNegativeExactly`); a window grants more than the burst and
  its ticks exactly if a parameter is negative or their sum is no int (`TokenBucket.WindowBoundExactly`).
- Exactly the buckets without a positive burst, or with a rate of 0 or INT_MIN, grant only what is returned
  (`TokenBucket.GrantsOnlyReturnsExactly`); any other negative rate brings tokens by wrapping around.
- The relay drops what it has not yet printed when the peer closes (`Relay.PrintedAllExactly`), even if standard
  output takes everything at once (`Relay.LastDataLostExactly`).
- `readline` returns one more than it stored unless a newline is among the bytes that fit
  (`LineReader.CountIsRightExactly`).
- `readline` drops the line begun before a read error (`LineReader.LinesReassembleExactly`).
- `send_fd` cannot transmit 0 or an error below -255; `recv_fd` gives up if its two closing bytes are split or
  the data before them has a NUL (`FdPassing.WholeTrailerExactly`).
- Inserting a value below the sentinel into the heap never ends.
- The trial division calls 1 and 4 prime.
- `itoa` writes nothing for 0; `myatoi` leaves the range of int for the largest 48 numbers.
- The stacks of the tower of Hanoi are not checked for room.

## Model

| member | source | states |
|---|---|---|
| HashRehash.InPlaceAgreesWithFresh | 3.ybx/9.libevent/8.event_io_map-hashtable/1.hashtable.c:444-548 | the realloc rehash puts the same entries, with the same multiplicity, into every bucket as the malloc rehash, for any chains, hash and larger length |
| HashRehash.FreshOrder | 3.ybx/9.libevent/8.event_io_map-hashtable/1.hashtable.c:444-480 | the malloc rehash leaves in every bucket its entries in reverse traversal order |
| HashRehash.InPlaceOrder | 3.ybx/9.libevent/8.event_io_map-hashtable/1.hashtable.c:494-548 | the realloc rehash leaves in front those that came from other buckets, in reverse traversal order, and behind them, in their old order, those that stayed |
| HashRehash.EachEntryVisitedAtMostTwice | 3.ybx/9.libevent/8.event_io_map-hashtable/1.hashtable.c:504-545 | the realloc rehash examines no entry of a table a third time, although moved entries can be met again |
| HashRehash.LoopEnds | 3.ybx/9.libevent/8.event_io_map-hashtable/1.hashtable.c:504-545 | and its loop body runs at most twice as often as there are entries, whatever the chains hold |
| HashRehash.FlatIsExact | 3.ybx/9.libevent/8.event_io_map-hashtable/1.hashtable.c:291-350 | the traversal order lists every entry and no entry twice |
| HashRehash.FlatAt | 3.ybx/9.libevent/8.event_io_map-hashtable/1.hashtable.c:291-350 | bucket after bucket, each from its head: where an entry comes in the traversal order |
| HashRehash.SweptEntries | 3.ybx/9.libevent/8.event_io_map-hashtable/1.hashtable.c:249-288 | what FOREACH_FN leaves is exactly the entries its callback refused |
| HashRehash.KeptAdds | 3.ybx/9.libevent/8.event_io_map-hashtable/1.hashtable.c:249-288 | and in the order they had |
| HashRehash.InsertEffect | 3.ybx/9.libevent/8.event_io_map-hashtable/1.hashtable.c:129-156 | pushing an absent key at the head of its bucket keeps the table consistent and adds exactly that key to the finite map |
| HashRehash.AppendEffect | 3.ybx/9.libevent/8.event_io_map-hashtable/1.hashtable.c:178-208 | writing the new entry through the slot that ends its chain does the same |
| HashRehash.RemoveEffect | 3.ybx/9.libevent/8.event_io_map-hashtable/1.hashtable.c:215-242 | unlinking an entry keeps the table consistent and takes exactly its key out of the map |
| HashRehash.ReplaceEffect | 3.ybx/9.libevent/8.event_io_map-hashtable/1.hashtable.c:190-197 | exchanging an entry for an unlinked one with its key changes exactly that key of the map |
| HashChains.BypassRemoves | 3.ybx/9.libevent/8.event_io_map-hashtable/1.hashtable.c:233-239 | a store through a pointer to a link removes the entry behind it from its chain and leaves every other chain as it was |
| HashChains.SpliceSubstitutes | 3.ybx/9.libevent/8.event_io_map-hashtable/1.hashtable.c:187-196 | two stores through that pointer put another entry in its place |
| HashTable.SearchStaysInside | 3.ybx/9.libevent/8.event_io_map-hashtable/1.hashtable.c:434-442 | the search for a larger prime stays inside the table of primes if and only if the size is below 805306370: the loop's own guard does not bound the last prime |
| HashTable.IoMap.constructor | 3.ybx/9.libevent/8.event_io_map-hashtable/1.hashtable.c:53-60 | HT_INIT gives a valid table without entries |
| HashTable.IoMap.Clear | 3.ybx/9.libevent/8.event_io_map-hashtable/1.hashtable.c:569-577 | HT_CLEAR is back at the initial representation |
| HashTable.IoMap.FindP | 3.ybx/9.libevent/8.event_io_map-hashtable/1.hashtable.c:75-103 | the pointer to the link of the entry with the key, or to the link that ends its chain; nothing only without a table |
| HashTable.IoMap.Find | 3.ybx/9.libevent/8.event_io_map-hashtable/1.hashtable.c:108-124 | HT_FIND answers as the finite map from fd to entry |
| HashTable.IoMap.NextPrime | 3.ybx/9.libevent/8.event_io_map-hashtable/1.hashtable.c:432-442 | the first larger prime whose load limit exceeds the size |
| HashTable.IoMap.Grow | 3.ybx/9.libevent/8.event_io_map-hashtable/1.hashtable.c:418-562 | both paths keep every entry and the count, reach a load limit above the size, and leave the chains that the path's own specification says; -1 exactly when both allocations fail, and then nothing has changed |
| HashTable.IoMap.RehashFresh | 3.ybx/9.libevent/8.event_io_map-hashtable/1.hashtable.c:444-480 | the loop over the old table, pointer by pointer, produces exactly the specified fresh chains |
| HashTable.IoMap.RehashInPlace | 3.ybx/9.libevent/8.event_io_map-hashtable/1.hashtable.c:494-548 | the loop inside the lengthened table produces exactly the specified chains |
| HashTable.IoMap.Insert | 3.ybx/9.libevent/8.event_io_map-hashtable/1.hashtable.c:129-156 | INSERT of an absent key: while there is room nothing about the table changes but that the entry heads its chain and the count goes up by one; a full table first gets the first larger prime whose limit exceeds the new count and the chains of a rehash; afterwards the load bound holds exactly unless both allocations of a due growth have failed, also for a table that was over it before |
| HashTable.IoMap.Replace | 3.ybx/9.libevent/8.event_io_map-hashtable/1.hashtable.c:162-210 | growth exactly as for INSERT; then one entry is put in the place of the one with its key, or at the end of its chain, and all others stay in order; the table is valid afterwards if and only if the element was not linked already and the load bound is not lost to a failed growth; for a linked element nothing moves but the count is one too high |
| HashTable.IoMap.MakeRoom | 3.ybx/9.libevent/8.event_io_map-hashtable/1.hashtable.c:131-133 | the growth test before an insertion: nothing changes while the count is below the limit, at the last prime, or if both allocations fail; otherwise the table is new, with the first larger prime whose limit exceeds the new count; there is no table at all exactly after a failed first growth |
| HashTable.RoomIsRight | 3.ybx/9.libevent/8.event_io_map-hashtable/1.hashtable.c:131-133 | the prime that histories compute is the one this describes |
| HashTable.IoMap.Remove | 3.ybx/9.libevent/8.event_io_map-hashtable/1.hashtable.c:215-242 | REMOVE answers the entry of the key, takes exactly it out of its chain and clears its link, all others stay in order; nothing changes for an absent key |
| HashTable.IoMap.ForEachFn | 3.ybx/9.libevent/8.event_io_map-hashtable/1.hashtable.c:249-288 | the callback is called once for every entry, in traversal order, and exactly the entries it answers nonzero for leave the table |
| HashTable.IoMap.Start | 3.ybx/9.libevent/8.event_io_map-hashtable/1.hashtable.c:295-312 | the first entry in traversal order, NULL only for an empty table |
| HashTable.IoMap.Next | 3.ybx/9.libevent/8.event_io_map-hashtable/1.hashtable.c:321-350 | the entry after a given one, skipping only empty buckets |
| HashTable.IoMap.Walk | 3.ybx/9.libevent/8.event_io_map-hashtable/1.hashtable.c:295-350 | START then repeated NEXT yields every entry exactly once |
| HashTable.IoMap.NextRmv | 3.ybx/9.libevent/8.event_io_map-hashtable/1.hashtable.c:358-391 | NEXT_RMV unlinks one entry, lowers the count and answers the entry after it |
| HashTable.IoMap.Drain | 3.ybx/9.libevent/8.event_io_map-hashtable/1.hashtable.c:295-391 | START then repeated NEXT_RMV takes every entry once, in order, and ends with count 0 |
| HashTable.IoMap.RepIsBad | 3.ybx/9.libevent/8.event_io_map-hashtable/1.hashtable.c:582-640 | the debugging check answers 0 if and only if the representation invariant and the load bound hold; a valid table is reported, as 3, only beyond half the last prime |
| HashHistory.Perform | 3.ybx/9.libevent/8.event_io_map-hashtable/1.hashtable.c:75-391 | each defined operation has on the table the effect it has on the finite map, and leads to the prime its specification says |
| HashHistory.Replay | 3.ybx/9.libevent/8.event_io_map-hashtable/1.hashtable.c:75-562 | so has every sequence of operations on an empty table |
| HashHistory.RunHistory | 3.ybx/9.libevent/8.event_io_map-hashtable/1.hashtable.c:75-640 | over every history whose calls are defined, failing allocations included, the answers are those of a finite map, the count is the size of the map, and the debugging check answers 0 exactly if the map fits the load limit of the prime that the history leads to |
| HashHistory.AmpleMemory | 3.ybx/9.libevent/8.event_io_map-hashtable/1.hashtable.c:418-562 | a history in which growth never fails, and is not asked for beyond the last prime, has only defined calls and keeps the load bound short of the last prime |
| HashHistory.PrimesMoveRight | 3.ybx/9.libevent/8.event_io_map-hashtable/1.hashtable.c:129-562 | in every history an insertion changes the prime only if the table is full, HT_GROW only for more than the limit, each to the first larger prime with a limit above the demand, and no other call changes it |
| EventIoMap.FindOrCreate | 3.ybx/9.libevent/8.event_io_map-hashtable/2.event_io_map.c:28-87 | the entry of a descriptor, created with an empty queue at the end of its chain if there is none; the table grows exactly as for INSERT; a failed allocation of the entry leaves the map as it was; the load bound holds afterwards exactly unless a due growth failed and an entry was added or the bound was broken before |
| EventIoMap.EvmapIoAdd | 3.ybx/9.libevent/8.event_io_map-hashtable/2.event_io_map.c:10-110 | the event is appended to the queue of its descriptor and every other queue stays; -1 exactly for a failed allocation of a new queue; a negative descriptor is ignored; the load bound is given up exactly as in FindOrCreate |
| SbrkLayout.Align8Exact | 3.ybx/1.c/79.diy_malloc/my_malloc.c:30-35 | the least multiple of 8 that holds the request, except for the last seven 64-bit sizes, which wrap to 0 |
| SbrkLayout.LiveAreasDisjoint | 3.ybx/1.c/79.diy_malloc/my_malloc.c:167-258 | blocks in use overlap neither each other nor any header and end below the break |
| SbrkLayout.ServedKeeps | 3.ybx/1.c/79.diy_malloc/my_malloc.c:167-206 | first fit, split or growth keeps the blocks tiling the heap with no two free neighbours and the last in use, and adds exactly one block, new, large enough and without a remainder worth splitting |
| SbrkLayout.FreedKeeps | 3.ybx/1.c/79.diy_malloc/my_malloc.c:233-258 | freeing with both merges and release at the top keeps the same and gives up exactly the one block |
| SbrkLayout.ServedExactly | 3.ybx/1.c/79.diy_malloc/my_malloc.c:167-206 | the request takes the first free block that is large enough, of exactly the size asked for and with the rest free behind it if and only if the rest has room for a header and 8 bytes, else whole; without one, a block of exactly that size at the break |
| SbrkLayout.FreedExactly | 3.ybx/1.c/79.diy_malloc/my_malloc.c:233-258 | the block freed is joined with a free one before and a free one behind it, and released if that reaches the break |
| SbrkLayout.FreedTwice | 3.ybx/1.c/79.diy_malloc/my_malloc.c:233-258 | freeing a free block again changes nothing |
| SbrkLayout.ReleasesTopOnly | 3.ybx/1.c/79.diy_malloc/my_malloc.c:250-257 | the break is lowered if and only if the block freed was the last |
| SbrkLayout.ServeThenFree | 3.ybx/1.c/79.diy_malloc/my_malloc.c:167-258 | freeing what has just been allocated restores the row of blocks and the break |
| SbrkHeap.SplitRepresents | 3.ybx/1.c/79.diy_malloc/my_malloc.c:124-146 | the headers after a split describe the split row if and only if there is no block behind it or the missing update of its predecessor link is made |
| SbrkHeap.MergeRepresents | 3.ybx/1.c/79.diy_malloc/my_malloc.c:148-160 | the headers after a merge describe the merged row |
| SbrkHeap.ExtendRepresents | 3.ybx/1.c/79.diy_malloc/my_malloc.c:80-96 | the headers after growth describe the lengthened row |
| SbrkHeap.ReleaseRepresents | 3.ybx/1.c/79.diy_malloc/my_malloc.c:250-257 | the headers after a release describe the shortened row if and only if it is empty or the missing update of the predecessor's next link is made |
| SbrkHeap.Heap.ExtendHeap | 3.ybx/1.c/79.diy_malloc/my_malloc.c:80-96 | a block at the old break, or NULL and nothing changed when the break cannot be raised |
| SbrkHeap.Heap.FindBlock | 3.ybx/1.c/79.diy_malloc/my_malloc.c:100-107 | the first free block that is large enough, with the last block passed |
| SbrkHeap.Heap.BlockSplit | 3.ybx/1.c/79.diy_malloc/my_malloc.c:124-146 | when it splits, what the blocks, the headers and every byte become |
| SbrkHeap.Heap.BlockMerge | 3.ybx/1.c/79.diy_malloc/my_malloc.c:148-160 | the free right neighbour is taken over and zeroed, and no other byte changes |
| SbrkHeap.Heap.Malloc | 3.ybx/1.c/79.diy_malloc/my_malloc.c:167-206 | NULL exactly for 0 bytes or when nothing fits and the break cannot be raised; otherwise the block of the specification, with the rest of a split block zeroed and no other byte touched, and headers in step exactly unless an unrepaired split happened |
| SbrkHeap.Heap.Calloc | 3.ybx/1.c/79.diy_malloc/my_malloc.c:212-225 | the same for the product modulo 2^64, with the whole area reading 0; the area is as large as the product if and only if the product is below 2^64 |
| SbrkHeap.Heap.ValidAddr | 3.ybx/1.c/79.diy_malloc/my_malloc.c:66-77 | true exactly for the data pointer of a block |
| SbrkHeap.Heap.Free | 3.ybx/1.c/79.diy_malloc/my_malloc.c:233-258 | a foreign pointer is ignored; otherwise the block is given up as specified, what is joined to the block before it is zeroed and no other byte touched, and headers in step exactly unless a block with a predecessor was released without the missing update |
| SbrkHistory.RunHistory | 3.ybx/1.c/79.diy_malloc/my_malloc.c:167-258 | over every history of malloc, calloc, free, writes and reads: a request answers 0 exactly if its size, a product taken modulo 2^64, is 0 or nothing fits and the break cannot be raised, and otherwise the first fitting area or one at the break, new and 8-aligned; different held areas never overlap; each read of a byte the client has written, or asked to be zero, gives that byte; the heap is left valid, with the row of blocks the specification computes |
| SbrkHistory.ForgottenLinkShows | 3.ybx/1.c/79.diy_malloc/my_malloc.c:250-257 | as the code stands: after a request, another, and freeing the second, the next link of the first block, still in use, is the old address of the released one, which is the break, where there is no header |
| SbrkHistory.ForgottenBackLinkShows | 3.ybx/1.c/79.diy_malloc/my_malloc.c:133-144 | as the code stands: after splitting a freed block with another behind it, the prev link of that one is the address of the split block and not of the remainder before it |
| ThreadPool.CountersAlwaysRight | 3.ybx/6.unp1/threads/web03.c:77-221 | in every interleaving, whichever workers fail: outside a worker's critical section ndone is the number of finished unjoined files; current_conn is started minus joined and at most maxconn; nlefttoread is the files not joined |
| ThreadPool.ExitMeansAllJoinedOnce | 3.ybx/6.unp1/threads/web03.c:161-221 | the main loop ends only when every file has been joined, each exactly once |
| ThreadPool.MainThreadInOrder | 3.ybx/6.unp1/threads/web03.c:162-221 | files are started in their order; when the main thread goes for the mutex it has started as many workers as it may; when it lets go of it no worker is done and unjoined; it sleeps only while there is nothing to join or a signal is on its way |
| ThreadPool.JoinsAtOnce | 3.ybx/6.unp1/threads/web03.c:198-217 | with the mutex in hand the main thread starts joining if and only if some worker is done |
| ThreadPool.StuckExactly | 3.ybx/6.unp1/threads/web03.c:198-221 | short of the exit the program cannot move if and only if the main thread sleeps and no worker is left to signal |
| ThreadPool.StandstillExactly | 3.ybx/6.unp1/threads/web03.c:161-221 | a run that has come to a standstill has exited if and only if no worker has failed and there is nothing to do or a connection is allowed |
| ThreadPool.FailureIsFinal | 3.ybx/6.unp1/threads/web03.c:77-119 | once a worker has failed before its critical section the main thread never exits, sleeping or polling |
| ThreadPool.FailedWorkerHangs | 3.ybx/6.unp1/threads/web03.c:187-200 | a run of one file in which the worker fails and the main thread sleeps with no move possible |
| ThreadPool.QuietAsleep | 3.ybx/6.unp1/threads/web03.c:187-200 | a main thread asleep with all workers gone has a failed worker, or a bound that allows no connection |
| ThreadPool.NeverStuck | 3.ybx/6.unp1/threads/web02.c:77-215 | no wake-up is lost: polling never blocks, and with maxconn at least 1 and no failed worker the condition variable versions can always move until they exit |
| ThreadPool.NoConnectionsHang | 3.ybx/6.unp1/threads/web03.c:162-200 | with maxconn 0 or less the first wait never ends |
| ThreadPool.EveryMoveIsProgress | 3.ybx/5.tlpi/threads/thread_multijoin.c:55-136 | every move but polling and spurious wake-ups brings the run nearer to its end |
| ChildReaper.NoChildIsLost | 3.ybx/5.tlpi/procexec/multi_SIGCHLD.c:28-57 | numLiveChildren is the number of children not reaped, and a dead one is announced by the pending bit or the handler is still in its waitpid loop |
| ChildReaper.NeverAsleepForEver | 3.ybx/5.tlpi/procexec/multi_SIGCHLD.c:80-113 | the suspend loop is never stuck: with all children dead a signal is pending |
| ChildReaper.DoneMeansAllReaped | 3.ybx/5.tlpi/procexec/multi_SIGCHLD.c:108-118 | at the end every child has been reaped, in at most as many handler runs as there are children, and at least one if there are any |
| ChildReaper.CountsHandlerRuns | 3.ybx/5.tlpi/procexec/multi_SIGCHLD.c:102-113 | sigCnt is the number of times the signal was delivered and its handler has run |
| ChildReaper.EveryMoveIsProgress | 3.ybx/5.tlpi/procexec/multi_SIGCHLD.c:28-113 | every move brings the end nearer, so the program ends |
| ProducerConsumer.UnitsConservedExactly | 3.ybx/5.tlpi/threads/prod_condvar.c:26-107 | in every run the units consumed, available and still to be made are the units the positive arguments ask for, if and only if that is a number an int can count |
| ProducerConsumer.ExitHasEnough | 3.ybx/5.tlpi/threads/prod_condvar.c:89-107 | the consumer leaves only when its count has reached the int sum of the arguments; and where the count is right and that sum does not wrap around from below, only when it has had at least one unit and at least the sum |
| ProducerConsumer.ConsumerTakesAll | 3.ybx/5.tlpi/threads/prod_condvar.c:84-100 | with a right count, the consumer lets go of the mutex only when it has taken every unit there is |
| ProducerConsumer.ConsumerSleepsRightly | 3.ybx/5.tlpi/threads/prod_condvar.c:84-90 | it goes to sleep only when there is none, and while it sleeps a unit that has been made has its signal on the way |
| ProducerConsumer.RequirementExactly | 3.ybx/5.tlpi/threads/prod_condvar.c:64-67 | the requirement the main thread computes is the sum of the arguments if and only if that sum is an int |
| ProducerConsumer.StandstillExactly | 3.ybx/5.tlpi/threads/prod_condvar.c:84-118 | with a right count, a run that stands still has exited if and only if there was a unit to make and the requirement, wrapped around or not, is no more than the units made: no signal is lost although it is sent after the unlock |
| ProducerConsumer.StuckMeansNothingToProduce | 3.ybx/5.tlpi/threads/prod_condvar.c:84-118 | so with a sum that is an int, a run that stands still without having exited had no positive count among its arguments |
| ProducerConsumer.NothingToProduceNeverExits | 3.ybx/5.tlpi/threads/prod_condvar.c:89-107 | and with no positive count the program never exits |
| ProducerConsumer.EveryMoveIsProgress | 3.ybx/5.tlpi/threads/prod_condvar.c:26-118 | while the count is right, every move but a spurious wake-up brings the end nearer |
| TaskPool.TrialDivision | 2.celery/mycoder80/taskpool.c:22-28 | the flag of the divisor loop is set exactly if no number from 2 up to below i/2 divides i |
| TaskPool.TestIsRightExactly | 2.celery/mycoder80/taskpool.c:22-30 | that decides primality if and only if i is neither 1 nor 4 |
| TaskPool.TakenInOrder | 2.celery/mycoder80/taskpool.c:16-66 | in every interleaving of any number of workers the numbers are taken in order, each once, all up to the last before -1 is published and at most one beyond |
| TaskPool.EndMarkStays | 2.celery/mycoder80/taskpool.c:53-66 | the -1 is never overwritten |
| TaskPool.AllTestedAtExit | 2.celery/mycoder80/taskpool.c:16-70 | when the program exits every number has been tested exactly once |
| TaskPool.NoMoveAddsWork | 2.celery/mycoder80/taskpool.c:16-68 | no move adds to the work left, which is never negative |
| TaskPool.NeverStuck | 2.celery/mycoder80/taskpool.c:16-68 | until the exit some thread's move lowers the work left, or the main thread's next but one does |
| MutexRing.LettersInTurn | weekend/thread/posix/abcd.c:9-48 | in every interleaving, start-up included, the j-th letter written is that of thread j mod n, for a ring of any size n |
| MutexRing.ExactlyOneCanMove | weekend/thread/posix/abcd.c:16-48 | in every reachable state exactly one thread can move: one token, and no deadlock |
| MutexRing.EveryMoveIsProgress | weekend/thread/posix/abcd.c:21-26 | each move of the open ring is one third of the way to the next letter |
| PingPong.NoSignalIsLost | 3.ybx/5.tlpi/signals/sig_speed_sigsuspend.c:73-93 | at most one signal is outstanding in every reachable state, so none is merged into a pending one |
| PingPong.ExactlyOneMoves | 3.ybx/5.tlpi/signals/sig_speed_sigsuspend.c:73-93 | until both have exited exactly one process can move, and each move is one of the four of a round |
| PingPong.AllRoundsDone | 3.ybx/5.tlpi/signals/sig_speed_sigsuspend.c:77-92 | both sides finish exactly the number of rounds asked for and nothing stays pending |
| PingPong.NoSignalToTheDead | 3.ybx/5.tlpi/signals/sig_speed_sigsuspend.c:77-92 | neither signals the other after it has exited |
| TokenBucket.StepSound | weekend/signal/mytbf/mytbf.c:27-142 | if cps and burst are not negative and their sum is an int, no step of fetch, return or handler, whatever it interrupts and however much is returned, raises the tokens granted and usable beyond those the ticks have brought |
| TokenBucket.WindowBoundExactly | weekend/signal/mytbf/mytbf.c:27-142 | over every window of every run the tokens fetched less those returned are at most burst + cps * ticks if and only if cps and burst are not negative and their sum is an int |
| TokenBucket.GrantsAreEarnedExactly | weekend/signal/mytbf/mytbf.c:27-142 | from the initialisation they are at most cps * ticks, in every run, if and only if cps is not negative: no wrapping around creates a token |
| TokenBucket.NoBetterThanIdealExactly | weekend/signal/mytbf/mytbf.c:27-142 | never more tokens are usable than in a bucket that gets the same ticks, grants and returns one after another, if and only if cps and burst are not negative and their sum is an int |
| TokenBucket.NeverNegativeExactly | weekend/signal/mytbf/mytbf.c:27-142 | the 32-bit count is never negative, in any run that returns at most a given number of tokens at a time, if and only if cps and burst are not negative and the sum of the three is an int |
| TokenBucket.WaitEndsExactly | weekend/signal/mytbf/mytbf.c:35-38 | some number of ticks brings the count above 0 if and only if it is already, or burst is positive and cps is not 0, except for a cps of INT_MIN with a count of 0 or INT_MIN; a negative cps gets there by wrapping around |
| TokenBucket.GrantsOnlyReturnsExactly | weekend/signal/mytbf/mytbf.c:27-142 | in no run more tokens are granted than returned if and only if burst is not positive or cps is 0 or INT_MIN |
| TokenBucket.NoTokensExactly | weekend/signal/mytbf/mytbf.c:27-142 | in no run without returns a token is seen or granted, if and only if the same holds |
| BucketTable.Job.FetchToken | weekend/signal/mytbf/mytbf.c:112-128 | the call, with the handler running any number of times between its memory accesses, is a run of the step system; it answers the smaller of size and count as they are after the first pause that leaves a token, and lowers by it the count loaded later; without interruption the count falls by exactly the answer; for positive cps and burst whose sum is an int it returns after enough pauses |
| BucketTable.Job.ReturnToken | weekend/signal/mytbf/mytbf.c:130-142 | likewise for the return: the count becomes the sum, in 32 bits and at most the burst, with the handler runs before the load and between store and test and without those in between; a negative size changes nothing |
| BucketTable.Table.AlrmHandler | weekend/signal/mytbf/mytbf.c:27-42 | one run of the handler refills every job of the table once, in 32 bits, up to its burst |
| BucketTable.Table.GetFreePos | weekend/signal/mytbf/mytbf.c:63-71 | the first free slot, -1 exactly when there is none |
| BucketTable.Table.Init | weekend/signal/mytbf/mytbf.c:73-103 | an empty bucket in the first free slot, NULL exactly for a failed malloc or a full table; no other slot changes |
| BucketTable.Table.Destroy | weekend/signal/mytbf/mytbf.c:144-151 | frees the slot of the job and no other |
| HttpHeader.ParseLineFacts | 3.ybx/6.unp1/threads/http.c:11-43 | what one scan leaves: nothing before or behind the line end is touched, and no carriage return is ever consumed on its own |
| HttpHeader.ParseMore | 3.ybx/6.unp1/threads/http.c:107-156 | one call on the bytes so far tells what the call on more bytes does: it goes on where this one stopped, or stops at the same place with the same answer |
| HttpHeader.ChunkingDoesNotMatter | 3.ybx/6.unp1/threads/http.c:107-156 | for every input and every way of delivering it in pieces, the answer, the index, the content length and the bytes overwritten are those of one call on the whole |
| HttpHeader.ParserReadsLines | 3.ybx/6.unp1/threads/http.c:11-156 | the parser, overwriting the buffer and resuming anywhere, gives what a reading of the received lines without any writes gives |
| HttpHeader.PiecesReadLines | 3.ybx/6.unp1/threads/http.c:11-156 | the same from the start, for every way of delivering the input |
| HttpHeader.SkipBlanksIs | 3.ybx/6.unp1/threads/http.c:67 | strspn over blanks: the rest of the text behind its leading blanks |
| HttpHeader.HandlersWrite | 3.ybx/6.unp1/threads/http.c:45-105 | the handlers overwrite exactly the first blank of a status line, and a colon and the byte behind it |
| HttpResponse.StatusAccepted | 3.ybx/6.unp1/threads/http.c:45-77 | a status line is accepted if and only if it is an accepted version, blanks, and an accepted status |
| HttpResponse.ResponseRead | 3.ybx/6.unp1/threads/http.c:45-156 | for every input with a status line, in any pieces: if the line is accepted the header lines are passed, the length of the last field that gives one is kept, and the answer is complete at the blank line, open at an open line and bad at a lone carriage return or line feed; otherwise bad behind the status line |
| HttpResponse.NoStatusLine | 3.ybx/6.unp1/threads/http.c:107-156 | and for every input without one: open or bad, where the line is |
| HttpHeader.LoneLineFeedBranchUnreached | 3.ybx/6.unp1/threads/http.c:31-40 | the branch for a line feed behind a consumed carriage return is never taken |
| HttpParser.ResponseParser.ParseOneLine | 3.ybx/6.unp1/threads/http.c:11-43 | the scanning loop on the array does what the specification says and leaves the bytes not yet received alone |
| HttpParser.ResponseParser.ParseResponseLine | 3.ybx/6.unp1/threads/http.c:45-77 | the status line handler, in place |
| HttpParser.ResponseParser.ParseResponseHeaders | 3.ybx/6.unp1/threads/http.c:79-105 | the field handler, in place |
| HttpParser.ResponseParser.ParseResponseContent | 3.ybx/6.unp1/threads/http.c:107-156 | the whole call, in place, equals the specification on the bytes received |
| HttpParser.Receive | 3.ybx/6.unp1/threads/http.c:107-156 | storing each piece behind the last and calling the parser is the fed specification |
| Relay.RunSound | 3.ybx/6.unp1/nonblock/strclinonb.c:28-129 | in every run, whatever the kernel answers: bytes written and waiting are the bytes read, in order, in both directions; the socket is shut down once, exactly when input has ended and all of it has been sent |
| Relay.TurnTransfers | 3.ybx/6.unp1/nonblock/strclinonb.c:53-128 | in one turn each direction reads what the kernel gives, at most the room there is, and writes of what waits exactly as many bytes as the kernel takes; space comes back only when nothing is left |
| Relay.RunTransfers | 3.ybx/6.unp1/nonblock/strclinonb.c:34-129 | in every run each direction has read exactly what the kernel gave and written as many of those bytes, from the first, as the kernel took in all |
| Relay.EndOfInputIsReal | 3.ybx/6.unp1/nonblock/strclinonb.c:37-72 | in every run the relay takes standard input to have ended if and only if in some turn a read with room behind the pointer was answered by no bytes |
| Relay.SocketCloseIsReal | 3.ybx/6.unp1/nonblock/strclinonb.c:40-111 | in every run it returns because of the peer if and only if in some turn a socket read with room behind the pointer was answered by no bytes |
| Relay.FailureIsReal | 3.ybx/6.unp1/nonblock/strclinonb.c:55-121 | it gives up if and only if a call that it made has failed otherwise than by EAGAIN |
| Relay.AlwaysListens | 3.ybx/6.unp1/nonblock/strclinonb.c:34-50 | select always waits for the socket or standard output; until input has ended it also waits for input or for the socket to take bytes, and from then on for the socket to take bytes exactly until the shutdown |
| Relay.PrintedAllExactly | 3.ybx/6.unp1/nonblock/strclinonb.c:96-127 | in every run that ends by the peer closing, everything received has been printed if and only if nothing was waiting for standard output when select was last called; what was waiting is what is lost |
| Relay.LastDataLostExactly | 3.ybx/6.unp1/nonblock/strclinonb.c:96-127 | with a standard output that is ready and takes everything, bytes are lost if and only if the turn just before the close brought data into an empty buffer |
| Relay.LastBytesCanBeLost | 3.ybx/6.unp1/nonblock/strclinonb.c:104-106 | a run of two turns that loses a byte although standard output is always ready |
| Relay.ShutdownComes | 3.ybx/6.unp1/nonblock/strclinonb.c:74-94 | after the end of input, as many turns in which the socket takes something as bytes are left bring the shutdown |
| SelectRelay.Buffer.ReadAt | 3.ybx/6.unp1/nonblock/strclinonb.c:53-70 | a read at the pointer appends what arrived, clipped to the space behind it, and nothing else |
| SelectRelay.Buffer.WriteFrom | 3.ybx/6.unp1/nonblock/strclinonb.c:74-93 | a write takes exactly as many bytes from the front as the kernel accepts; the pointers go back only when nothing is left |
| SelectRelay.Client.OneTurn | 3.ybx/6.unp1/nonblock/strclinonb.c:34-129 | one pass of the loop on the arrays and pointers is one step of the specification |
| SelectRelay.StrCli | 3.ybx/6.unp1/nonblock/strclinonb.c:11-130 | the loop over any kernel answers ends in the state the specification gives, which is sound |
| LineReader.ScanMeans | 3.ybx/6.unp1/lib/readline.c:34-46 | what is stored is the head of the stream with a newline at most at its end, and it stops for a newline, a full buffer or the end of the bytes |
| LineReader.AnswersExactly | 3.ybx/6.unp1/lib/readline.c:27-50 | 0 is answered exactly at end of file with nothing before it, -1 exactly if the bytes run out before an error, and otherwise the line up to the newline, the full buffer or the end of file; and what each answer leaves to be read |
| LineReader.StreamIs | 3.ybx/6.unp1/lib/readline.c:4-25 | the bytes to come are those of all reads up to the first error or end of file; interrupted reads leave no trace |
| LineReader.CountIsRightExactly | 3.ybx/6.unp1/lib/readline.c:33-49 | the count returned is the number of bytes stored if and only if a newline is among the bytes to come that fit; otherwise it is one more |
| LineReader.CutsDoNotMatter | 3.ybx/6.unp1/lib/readline.c:4-25 | how the bytes are cut into reads does not change the stream the lines are taken from |
| LineReader.LinesAre | 3.ybx/6.unp1/lib/readline.c:27-50 | repeated calls hand over the bytes of the stream in order and none twice, up to those of a begun line before an error or while the reader waits |
| LineReader.LinesReassembleExactly | 3.ybx/6.unp1/lib/readline.c:27-50 | so they hand over all of them if and only if the stream ends in end of file or the bytes behind its last newline fill a whole number of buffers |
| LineReader.Reader.Refill | 3.ybx/6.unp1/lib/readline.c:11-20 | the reads behind an empty cache, again after each interruption |
| LineReader.Reader.NextByte | 3.ybx/6.unp1/lib/readline.c:4-25 | my_read hands out the next byte of the stream, or its end |
| LineReader.Reader.ReadLine | 3.ybx/6.unp1/lib/readline.c:27-50 | readline stores, closes with NUL and returns what the specification says of the bytes still to be read, and leaves exactly the rest |
| FdPassing.SendFd | 3.ybx/17.apue3/lib/sendfd.c:7-49 | the two bytes and the control data sent for a descriptor or an error |
| FdPassing.ScanChunk | 3.ybx/17.apue3/lib/recvfd.c:53-72 | the pointer loop over one chunk finds the message exactly if its NUL is the last byte but one |
| FdPassing.RecvFd | 3.ybx/17.apue3/lib/recvfd.c:7-86 | the receiver's loop over any chunks, with any function of the caller that takes the data or refuses, gives the specified result and data |
| FdPassing.ReceiveIs | 3.ybx/17.apue3/lib/recvfd.c:34-84 | for every connection and every function of the caller: data that passes is handed over in order, and the first piece that does not pass decides: -1 for a failed or closed connection or a refusal, the end of the program for a misplaced NUL or a zero status without a descriptor, else the descriptor or the error |
| FdPassing.CodeArrivesExactly | 3.ybx/17.apue3/lib/sendfd.c:21-43 | what arrives is what was sent if and only if it is positive or from -255 to -1 |
| FdPassing.StatusIs | 3.ybx/17.apue3/lib/sendfd.c:21-43 | an error arrives as the number from 1 to 255 that agrees with it in the last eight bits, or as 1 |
| FdPassing.WholeTrailerExactly | 3.ybx/17.apue3/lib/recvfd.c:53-84 | for any data and every cut into chunks, the receiver gets the code and all the data in order if and only if there is no NUL in the data and the two closing bytes arrive together |
| HeapOrder.RootIsLeast | 3.ybx/20.ds/11.DSAAC/binheap.c:87-95 | in heap order the root is the least value and the sentinel below it |
| HeapOrder.UpStep | 3.ybx/20.ds/11.DSAAC/binheap.c:48-51 | moving the hole up keeps every other pair in order and cannot pass the root |
| HeapOrder.DownStep | 3.ybx/20.ds/11.DSAAC/binheap.c:71-81 | moving the hole down to the smaller child keeps every other pair in order |
| BinHeap.PriorityQueue.Insert | 3.ybx/20.ds/11.DSAAC/binheap.c:40-55 | the contents gain exactly the value, heap order and sentinel are kept; refused exactly when full |
| BinHeap.PriorityQueue.DeleteMin | 3.ybx/20.ds/11.DSAAC/binheap.c:57-84 | a least element is answered and exactly it is taken out; refused exactly when empty |
| BinHeap.PriorityQueue.FindMin | 3.ybx/20.ds/11.DSAAC/binheap.c:87-95 | a least element, refused exactly when empty |
| BinHeap.PriorityQueue.MakeEmpty | 3.ybx/20.ds/11.DSAAC/binheap.c:34-38 | the contents become empty and the sentinel stays |
| BinHeap.PriorityQueue.Drain | 3.ybx/20.ds/11.DSAAC/testheap.c:19-23 | deleting until empty gives the contents in ascending order |
| BinHeap.Create | 3.ybx/20.ds/11.DSAAC/binheap.c:9-32 | an empty queue, refused exactly for a capacity below 10 |
| BinHeap.InsertEndsExactly | 3.ybx/20.ds/11.DSAAC/binheap.c:48-53 | the insertion loop ends if and only if the value is not below the sentinel |
| Josephus.SurvivorIs | 3.ybx/19.exercise/yuesefuhuan.c:11-27 | in a circle of any size the survivor is at J(n), with J(1) = 0 and J(n) = (J(n-1) + 3) mod n |
| Josephus.VictimsAre | 3.ybx/19.exercise/yuesefuhuan.c:13-21 | the k-th to die is at the position of the same recurrence started at 2 mod n |
| Josephus.NobodyIsForgotten | 3.ybx/19.exercise/yuesefuhuan.c:11-27 | the dead and the survivor are everybody, each once |
| Josephus.Eliminate | 3.ybx/19.exercise/yuesefuhuan.c:11-21 | the loop over the array with its dead slots ends, kills in the order of the game and leaves exactly the survivor unmarked |
| Josephus.CircleFromZero | 3.ybx/19.exercise/yuesefuhuan.c:4-27 | the first program for any number of people |
| Josephus.CircleFromOne | 1.zhang/2.c/day04/josefu.c:5-28 | the second program, with slot 0 marked beforehand, for any number of people, up to the slot it reports |
| QuickSort.Partition | 1.zhang/2.c/day06/myqsort.c:65-81 | the pivot ends between no larger and no smaller elements, and only the stretch is permuted |
| QuickSort.SortRange | 1.zhang/2.c/day06/myqsort.c:47-54 | the stretch is sorted and permuted and nothing else changes |
| QuickSort.Sort | 1.zhang/2.c/day06/myqsort.c:42-45 | the array, of any length, is sorted and a permutation of what it was |
| Decimal.RoundTrip | 1.zhang/2.c/day06/atoi.c:12-22 | reading back the digits of an int gives the int, for every int, negative ones included |
| Decimal.ValueByPlaces | 1.zhang/2.c/day06/atoi.c:12-22 | every byte of a string counts its char less the code of 0, at its decimal place |
| Decimal.TextIsUnique | 1.zhang/2.c/day06/itoa.c:8-35 | the text of a number is the only string of digits without leading zero that has its value |
| Decimal.DigitsAreDigits | 1.zhang/2.c/day06/itoa.c:8-22 | for numbers from 0 on only digits are written, and no leading zero above 0 |
| Decimal.ElevenBytes | 1.zhang/2.c/day06/itoa.c:4-35 | eleven bytes hold the text of any 32-bit int and its NUL |
| Decimal.WriteDigits | 1.zhang/2.c/day06/itoa.c:8-22 | the recursion writes the digits from the first cell on and touches nothing behind them |
| Decimal.ItoaR | 1.zhang/2.c/day06/itoa.c:24-35 | the text and its NUL, and nothing behind them |
| Decimal.XorUndoes | 1.zhang/2.c/day06/itoa.c:53-55 | exclusive or undoes itself on bytes, which is what the exchange needs |
| Decimal.Reverse | 1.zhang/2.c/day06/itoa.c:48-58 | the exchange by exclusive or reverses the bytes in place |
| Decimal.Itoa | 1.zhang/2.c/day06/itoa.c:60-76 | the loop and the reversal write the same digits as the recursion, and the string is the text of the number if and only if the number is not 0 |
| Decimal.Myatoi | 1.zhang/2.c/day06/atoi.c:12-22 | the value of the string, its chars signed, and whether every step stayed in the range of a 32-bit int |
| Decimal.ReadsInRangeExactly | 1.zhang/2.c/day06/atoi.c:16-19 | reading back a 32-bit int stays in range if and only if it is at most the largest less 48 |
| Decimal.WriteThenRead | 1.zhang/2.c/day06/atoi.c:12-22 | what is read of what was written, through an 11-byte buffer, is the number |
| Hanoi.PlanWorksExactly | 3.ybx/19.exercise/hannoi.c:59-69 | for any number of discs and any contents of the stacks, the recursion makes only legal moves and shifts the tower if and only if the stacks have room; otherwise some push overflows |
| Hanoi.PlanLength | 3.ybx/19.exercise/hannoi.c:59-69 | it makes 2^n - 1 moves |
| Hanoi.PlayExactly | 3.ybx/19.exercise/hannoi.c:11-57 | a move takes the top disc of one pile to the top of another, and from piles in order it is legal if and only if it leaves piles in order |
| Hanoi.Towers.Move | 3.ybx/19.exercise/hannoi.c:48-57 | pop and push on the arrays are the move between the piles, legal or not, if there is a disc and room for it |
| Hanoi.Towers.Solve | 3.ybx/19.exercise/hannoi.c:59-69 | the recursion on the global stacks plays its plan, whatever discs they hold |
| Hanoi.MoveTower | 3.ybx/19.exercise/hannoi.c:11-79 | any tower a stack can hold goes from the first stack to the second |

## Left out

- HashTable.IoMap.NextPrime: sizes from 805306370 on are excluded, because the loop then reads behind the table of primes; HashTable.SearchStaysInside says exactly when.
- HashTable.IoMap.Grow: the same sizes are excluded where a larger prime is searched.
- SbrkHeap.Heap.Malloc: requests above 0x7fffffffffffff00 bytes are not modelled, because the signed argument of sbrk overflows there; nor calls on a heap whose headers a forgotten update has already put out of step, because the walk then reads headers that are not there.
- SbrkHeap.Heap.Calloc: the same, with the bound on the product after it has wrapped.
- SbrkHeap.Heap.Free: heaps already out of step are not modelled either.
- SbrkHeap.Heap.ValidAddr: bytes of user data that happen to look like a header with a matching magic pointer are not modelled; headers live in a map of their own, kept apart from the data bytes.
- SbrkHistory.RunHistory: is about the heap with the two forgotten link updates made, because without them the invariant fails as the contracts of Malloc and Free say.
- HashTable.IoMap.Insert: the first growth failing altogether is excluded, because the bucket is then computed modulo 0, and so is a growth whose search leaves the table of primes.
- HashTable.IoMap.Replace: the same, with a NULL that is followed; and an unlinked element with an absent key must come with a null next link, because the code writes it without clearing the link.
- HashHistory.Perform: the calls excluded for Insert and Grow are not part of histories, because they have no defined effect.
- HashHistory.Replay: likewise.
- HashHistory.RunHistory: likewise; HashHistory.ExtentAll says which histories have none.
- EventIoMap.FindOrCreate: the first growth failing altogether is excluded, because a NULL is then followed, and so is a search that leaves the table of primes.
- EventIoMap.EvmapIoAdd: likewise for a descriptor from 0 on; and the part of the function that the source elides is not modelled.
- HashTable.IoMap.FindP: hash values are natural numbers, not cached (HT_CACHE_HASH_VALUES is off).
- ProducerConsumer.StandstillExactly: arguments whose positive ones sum up to no int are excluded, because the count of available units can then wrap around and the consumer spins; ProducerConsumer.UnitsConservedExactly says so.
- ProducerConsumer.ConsumerTakesAll: likewise.
- ProducerConsumer.ConsumerSleepsRightly: likewise.
- ProducerConsumer.StuckMeansNothingToProduce: likewise, and sums of all arguments below the ints, which ProducerConsumer.StandstillExactly covers.
- TokenBucket: a signed sum that leaves the ints is taken to wrap around, which C leaves undefined; so it is in ProducerConsumer.
- BinHeap.PriorityQueue.Insert: asks for a value not below the sentinel, because the loop does not end otherwise; see BinHeap.InsertEndsExactly.
- Decimal.Itoa: asks for a buffer that holds the digits and the NUL, as the program's caller provides.
- FdPassing.CodeArrivesExactly: a descriptor keeps its number in the model; the kernel's new number for it in the receiver is not modelled.
- TaskPool.TakenInOrder: each critical section is one step, because the slot is read and written under the mutex only; the mutex has no state of its own.
- ThreadPool.EveryMoveIsProgress: fairness is not modelled; a run that polls or is woken spuriously for ever is not excluded.
- Hanoi.Towers.Move: asks for a disc to pop and room to push it, because the source would read or write outside the arrays.
- Hanoi.Towers.Solve: asks for the same at every move of the plan; Hanoi.PlanWorksExactly says when that holds for a tower in order.
- Threads whose library calls fail, and the resulting exits, are not modelled; a worker that fails before its critical section is.
- System calls: their answers are parameters of the models, so nothing is said about files, sockets and kernels.
- The C library calls inside the header parser (strcasecmp, sscanf, atoi) are uninterpreted functions of the line text; an uninitialised status after a failed sscanf is part of that.
- my_realloc and copy_block_data: the size comparison underflows and a header pointer is returned as data, so there is no contract to state.
- Printing, progress messages, timing and argument parsing.
- The receive loops of web00 to web05 around the header parser, which clear the buffer on every read.
- Tetris, framebuffer, shell, daemon and server programs, and the demonstrations of single calls.
