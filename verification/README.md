# rpbot: memory, containers and the message stream

This project models the layer of rpbot that keeps its data straight and proves what that layer is
for. It covers five parts of the program, each in the form the program gives it: records whose
fields are updated are classes, macros and loops are methods with loops, and each method is tied to
a function of the old state about which the laws are proved.

* **Slab allocator** (`src/util/rp_slab.c`). The descriptors are an array with index links, the type
  tag in the low two bits of `prev`; the page area is an array of 64-bit words, so the bitmaps of
  small chunks lie in the memory that is handed out. `SlabInvariant.Core` is the invariant the code
  relies on: the descriptor array is tiled by free runs, allocated runs and chunked pages; every
  list is well linked; and a slot list holds exactly the pages of its class that still have room.
  Together with the map of live blocks it is `SlabLive.Sound`, which every method of `SlabPool`
  keeps. `SlabMoves` says what a request takes, from where, and what is where afterwards.
* **Hash table** (`src/util/uthash.h`), over any hash function: bucket chains and insertion order
  through the same nodes, doubling with its statistics, and sorting in place.
* **List sorts** (`src/util/utlist.h` and `HASH_SRT`): one bottom-up merge sort with four kinds of
  link repair, against a functional sort that is proved sorted, stable and n log n.
* **Pool allocator** (`src/util/rp_palloc.c`): blocks, the failure counts that move the start of a
  search, large allocations with headers inside the pool, and a ledger of what the system has
  handed out.
* **Ring buffer, message parser and reading loop** (`src/util/rp_fifo.*`, `src/ircsm/rp_ircsm.rl`,
  `src/rpbot.c`): the ring as a bounded sequence, the grammar as a deterministic machine with the
  actions in their order, proved to accept exactly the lines that can be written from parts, and
  the loop that drains one into the other.

Three promises turn out not to hold for every input; each has its exact condition.

* `rp_slab_init` lays the page area out past the end of its region when the region has room for one
  estimated page and the aligned start passes the end (`SlabLayout.LayoutExact` says exactly when,
  `SlabLayout.LayoutOverrun` gives such a region).
* `rp_slab_free` accepts, besides live blocks, an address of a chunk that holds its page's bitmap:
  the bit it asks for is set. The pool stays one if and only if the address is not such a chunk's
  (`SlabAllocator.SlabPool.FreeAt`); after it no reading of the memory satisfies the invariant
  (`SlabBitmap.BitmapIsLost`), and the bitmap is the next chunk the page hands out
  (`SlabAllocator.SlabPool.HandsOutBitmap`). The head of a free run is accepted too, which does no
  harm.
* The reading loop ends if and only if what is in the ring, behind what was read before, begins
  lines of the grammar (`IrcLines.LoopEndsUnlessRejected`): a byte the machine rejects is not
  consumed and the state stays in error. `IrcLines.LoopNeverEnds` gives such a stream, a code with
  a space behind it and no parameter.

Sizes are those of the program on a 64-bit machine: pages of 4096 bytes, words of eight, pool
headers of 56, 32 and 16 bytes. `malloc` and `posix_memalign` either refuse or return something
new, as they please. Running `dafny verify dfyconfig.toml` checks the whole project.

## Model

| member | source | states |
|---|---|---|
| SlabAllocator.SlabPool.constructor | src/util/rp_slab.c:50-101 | an initialised pool is valid, has no live block, and has one free run of all its pages |
| SlabLayout.LayoutExact | src/util/rp_slab.c:65-100 | slots, descriptors and page area do not overlap, the area is page-aligned, the correction trims at most two pages and leaves no whole page; the area ends by `end` exactly unless one page was estimated and the start passed the end |
| SlabLayout.LayoutOverrun | src/util/rp_slab.c:95-100 | a concrete region whose page area is laid out past its end |
| SlabAllocator.SlabPool.Alloc | src/util/rp_slab.c:103-308 | keeps validity; a block is new, aligned to its class and has the size of its class, a page request `size` to less than `size` + 4096 bytes; null exactly when no free run has the bytes (or no page is free and none of the class has a free chunk), and then nothing changed; the block heads the first run in list order that holds it (or is the first free chunk of the first page of its slot list, or of the first free page), and page kinds, lists and bitmaps change as `SlabMoves.Served` says; no word of a live block changes |
| SlabAllocator.SlabPool.AllocChunk | src/util/rp_slab.c:134-302 | a chunk request fails exactly when its slot list and the free list are both empty; a chunk is new, of the class's size and aligned to it, the first free one of the first page of the slot list, or else of the first free page, cut for it |
| SlabAllocator.SlabPool.AllocRun | src/util/rp_slab.c:111-122 | a page request takes the first free run with enough pages, splits off the pages it needs, and fails exactly when there is none |
| SlabAllocator.SlabPool.TakeFrom | src/util/rp_slab.c:137-245 | a page at the front of a slot list always yields a chunk, which leaves the list if that was its last |
| SlabAllocator.SlabPool.TakeFresh | src/util/rp_slab.c:247-302 | a fresh page becomes the only one of its slot list; no page is dropped, because the list was empty |
| SlabAllocator.SlabPool.TakeSmall | src/util/rp_slab.c:138-180 | takes the first free chunk, by the in-page bitmap, and unlinks the page when it fills |
| SlabAllocator.SlabPool.TakeExact | src/util/rp_slab.c:181-209 | the same with the bitmap in the descriptor word |
| SlabAllocator.SlabPool.TakeBig | src/util/rp_slab.c:210-244 | the same with the bitmap in the high half of the descriptor word |
| SlabAllocator.SlabPool.Carve | src/util/rp_slab.c:250-301 | a page is carved: its bitmap has the reserved chunks and the first other one set, and it is linked alone |
| SlabAllocator.SlabPool.ClassOf | src/util/rp_slab.c:124-132 | the class found by shifting is the smallest power of two that holds the request, at least the minimum |
| SlabAllocator.SlabPool.AllocPages | src/util/rp_slab.c:490-531 | first fit over the free list: splits or unlinks the run, stamps the pages, and changes no other kind and no other list |
| SlabAllocator.SlabPool.FreePages | src/util/rp_slab.c:533-557 | the pages become a free run at the front of the free list, and leave the list they were on; no other list changes |
| SlabAllocator.SlabPool.FreeAt | src/util/rp_slab.c:310-488 | gives the verdict of the page's kind and the offset; only the freed block leaves the live map, any other verdict changes nothing, and the pool stays valid if and only if the address is not that of a chunk holding its page's bitmap; a freed run heads the free list, whole as it was, and the slot lists are as before; for a freed chunk only its page changes: one that was full heads its slot list, one with no chunk left in use leaves it and heads the free list; no word of a block changes |
| SlabAllocator.SlabPool.FreeChunk | src/util/rp_slab.c:342-376 | clears the bit the allocation set, puts a page that was full back on its list, and frees a page that is empty; for a chunk of the bitmap, clears that bit and no more |
| SlabAllocator.SlabPool.Write | src/util/rp_slab.c:103-308 | whatever the owner writes into a live block leaves descriptors, bitmaps and lists intact |
| SlabAllocator.SlabPool.AllocThenFree | src/util/rp_slab.c:103-488 | allocating and freeing restores the live blocks and leaves their words alone, and a request of that size can be served afterwards exactly when it could before |
| SlabAllocator.SlabPool.AllocFreeAlloc | src/util/rp_slab.c:103-488 | after a block has been allocated and freed, the same request gets the same block |
| SlabMoves.FreedIsNext | src/util/rp_slab.c:103-488 | the address just freed is the next a request of that size gets: a run is first on the free list, a page is first on its slot list with the chunk the first free one, and a page that was cut for the chunk is cut again |
| SlabMoves.GivenServes | src/util/rp_slab.c:310-557 | once a block has been freed a request of its size does not fail |
| SlabMoves.ServedUntouched | src/util/rp_slab.c:103-308 | serving a request changes no word of any live block |
| SlabMoves.GaveUntouched | src/util/rp_slab.c:310-488 | freeing changes no word of any block, the freed one included |
| SlabMoves.RelistedFronted | src/util/rp_slab.c:343-374 | putting the page back on its slot list and then freeing it leaves it on the free list alone |
| SlabFacts.NoFitExhausted | src/util/rp_slab.c:111-122 | no listed run has the pages of a request exactly when every free run has fewer bytes than it |
| SlabFacts.EmptyExhausted | src/util/rp_slab.c:134-302 | slot list and free list are empty exactly when no page is free and none of the class has a free chunk |
| SlabFacts.LiveMeansFreed | src/util/rp_slab.c:310-470 | an address in the page area is accepted for freeing if and only if it is a live block, a chunk that holds its page's bitmap, or the head of a free run; a live block is never on a bitmap |
| SlabBitmap.BitmapIsLost | src/util/rp_slab.c:342-376 | once a chunk of a page's bitmap is freed, no runs, chunks and lists whatever make a pool of what is in memory |
| SlabAllocator.SlabPool.HandsOutBitmap | src/util/rp_slab.c:135-174 | the search of the slot list then finds exactly that chunk and hands out its address |
| SlabFacts.SetBits | src/util/rp_slab.c:342-342 | the bit asked for is set for a chunk in use and for one that holds the bitmap, and for no other |
| SlabFacts.FrontHasRoom | src/util/rp_slab.c:137-245 | the first page of a slot list has a free chunk, so the scan ends on its first turn |
| SlabFacts.TagMeans | src/util/rp_slab.c:325-328 | the tag in `prev` tells which of the four cases a page is |
| SlabSteps.TakeKeepsCore | src/util/rp_slab.c:495-527 | taking pages from a free run keeps the invariant: tiling, lists and descriptors |
| SlabSteps.GiveListed | src/util/rp_slab.c:533-557 | freeing pages that are on a list keeps the invariant |
| SlabSteps.GiveUnlisted | src/util/rp_slab.c:533-557 | freeing pages that are on no list keeps the invariant |
| SlabSteps.AttachChunks | src/util/rp_slab.c:249-301 | carving a page keeps the invariant |
| SlabChunks.TakeChunkKeepsCore | src/util/rp_slab.c:145-241 | handing out a chunk keeps the invariant: a page that fills leaves its list, with `next` NULL and the bare tag in `prev` |
| SlabChunks.ReturnChunkKeepsCore | src/util/rp_slab.c:342-354 | taking a chunk back keeps the invariant: a page that was full is listed again |
| SlabModel.UnlinkRing | src/util/rp_slab.c:506-508 | the three stores that unlink a page leave a well-linked list without it |
| SlabModel.PushRing | src/util/rp_slab.c:551-556 | the stores that push a page leave a well-linked list with it in front |
| SlabModel.ReplaceRing | src/util/rp_slab.c:498-504 | splitting puts the rest of the run in the run's place on the list |
| SlabBits.SmallFull | src/util/rp_slab.c:145-162 | every bitmap word is all ones exactly when the page has no free chunk |
| SlabBits.SmallEmpty | src/util/rp_slab.c:356-372 | the masked first word and the others are zero exactly when no chunk is in use |
| SlabBits.ExactFull | src/util/rp_slab.c:183-191 | the descriptor word is all ones exactly when the page is full |
| SlabBits.BigFull | src/util/rp_slab.c:211-225 | the high half equals the class's mask exactly when the page is full |
| SlabLive.BlockWithin | src/util/rp_slab.c:103-308 | a live block lies in the pages of its run or in its own page, past the bitmap |
| SlabLive.LiveBlocksDisjoint | src/util/rp_slab.c:103-488 | live blocks are pairwise disjoint |
| SlabLive.LiveBlocksMissBitmaps | src/util/rp_slab.c:252-267 | no live block overlaps a page's bitmap |
| SlabLive.DecodeChunk | src/util/rp_slab.c:323-340 | page, alignment and chunk index decoded from an address are exactly those it was made of |
| SlabLive.PagesConserved | src/util/rp_slab.c:490-557 | free runs, allocated runs and chunked pages always add up to all pages |
| SlabLive.EmptyPoolIsWhole | src/util/rp_slab.c:310-557 | with no live block every slot list is empty and the free runs add up to all pages |
| Words.TestBit | src/util/rp_slab.c:148 | testing a word against one bit |
| Words.LowBits | src/util/uthash.h:198-201 | masking with a power of two less one is the remainder |
| MergeSpec.SortPermutes | src/util/utlist.h:108-165 | the sort permutes its list |
| MergeSpec.SortSorts | src/util/utlist.h:108-165 | it sorts, for every total preorder on the elements |
| MergeSpec.SortStable | src/util/utlist.h:138-149 | elements that compare equal keep their order |
| MergeSpec.PassesAreLog | src/util/utlist.h:108-165 | it makes max(1, ceil(log2 n)) passes |
| MergeSpec.SortIsNLogN | src/util/utlist.h:59 | it makes at most n ceil(log2 n) comparisons |
| ListSort.SortList | src/util/utlist.h:108-304 | in place, the list becomes the sorted sequence of the same nodes; `prev`, tail and circular links are rebuilt; passes and comparisons are those of the functional sort |
| ListSort.RunPass | src/util/utlist.h:115-161 | one pass merges runs of w pairwise and counts the merges |
| ListSort.MergeRuns | src/util/utlist.h:121-156 | two neighbouring runs are merged at the end of the output, the left one first on ties, with the comparisons counted where they are made |
| HashTable.Table.Find | src/util/uthash.h:94-104 | finds the node of a key if and only if the key is present |
| HashChains.FindInBucket | src/util/uthash.h:597-608 | walks one chain |
| HashTable.Table.Add | src/util/uthash.h:173-196 | an absent key's node goes to the end of the order and the front of its chain; the map gains exactly it; the buckets double exactly when that bucket is full, with the statistics and the count of ineffective expansions in a row, and else no statistic changes |
| HashTable.Table.MakeTable | src/util/uthash.h:141-158 | a new table: 32 empty buckets, all counters zero |
| HashTable.Table.AddToBucket | src/util/uthash.h:611-622 | expands exactly when the count reaches (expand_mult + 1) times ten and expansion is not given up; otherwise only the one chain grows |
| HashTable.Table.FindOrAdd | src/rp_irc.c:38-44 | finds the key's node, changing nothing, or adds a new one, with chains, size and statistics as for any node added |
| HashTable.Table.Expand | src/util/uthash.h:666-712 | doubles the buckets, keeps the nodes, sets the statistics, counts ineffective expansions in a row and gives up after two |
| HashChains.Redistribute | src/util/uthash.h:679-699 | each node of old chain i goes to bucket i or i + n; chains, counts, multiples and the count of late nodes are right at the end |
| HashChains.HomeDoubles | src/util/uthash.h:684 | with twice the buckets a node stays in i or goes to i + n |
| HashChains.PartMembers | src/util/uthash.h:681-698 | a new chain has exactly the old chain's nodes that hash to it, each once |
| HashChains.PartReverses | src/util/uthash.h:691-697 | nodes that stay together change their order in the chain |
| HashChains.ExcessPut | src/util/uthash.h:685-689 | counting a node that lands past the ideal length keeps the sum over buckets of the excess |
| HashTable.IdealIsCeiling | src/util/uthash.h:675-677 | shift and mask give the number of nodes per bucket rounded up, never zero for a table with nodes |
| HashTable.FiledDoubled | src/util/uthash.h:666-712 | after expansion every node is in the chain of its hash, and nothing else is |
| HashTable.Table.Delete | src/util/uthash.h:215-248 | exactly the node leaves order, chain and map, and no statistic changes; the last node takes the table with it |
| HashChains.DelInBucket | src/util/uthash.h:625-635 | one chain loses the node, the others and all multiples stay |
| HashTable.Table.Replace | src/util/uthash.h:163-171 | the key's old node, if any, is deleted and the new one added at the end, with chains, size and statistics as for a node added to what is left |
| HashTable.Table.SortBy | src/util/uthash.h:719-804 | the insertion order becomes the sorted one; chains and lookups do not change |
| HashTable.Table.Clear | src/util/uthash.h:849-858 | an empty table |
| HashTable.Table.Fsck | src/util/uthash.h:278-328 | the integrity check succeeds if and only if the links back, the bucket counts and the item count agree with the links forward |
| HashTable.Table.ValidAgrees | src/util/uthash.h:278-328 | so it finds nothing wrong with any valid table |
| HashTable.AllFiled | src/util/uthash.h:306-309 | the bucket counts add up to the number of items |
| HashTable.AsMapMinus | src/util/uthash.h:215-248 | taking a node out of the order takes its key out of the map |
| HashTable.AsMapPermuted | src/util/uthash.h:719-804 | the map does not depend on the order |
| PoolAllocator.Pool.Create | src/util/rp_palloc.c:7-29 | a new pool of one block, used up to its header, or nothing if the system refuses |
| PoolAllocator.Pool.Palloc | src/util/rp_palloc.c:73-97 | a small request gets the first aligned bytes behind the used part of the first block from the current one on that has room, or, if none has, the first bytes of a new block, the only thing then got from the system; that block is used up to their end and no other block is used further or less; the bytes are disjoint from all others; a larger request gets an allocation of its own, with a header; null only if the system refused, and then nothing changed |
| PoolAllocator.Pool.Pnalloc | src/util/rp_palloc.c:99-123 | the same, unaligned: the bytes begin right where the block was used up to |
| PoolAllocator.Pool.FindRoom | src/util/rp_palloc.c:80-91 | the first block from the current one on that has room, looking at no more than seven blocks before any reset |
| PoolAllocator.Pool.FirstRoomIs | src/util/rp_palloc.c:79-93 | that block has room, and none from the current one up to it has |
| PoolAllocator.Pool.Search | src/util/rp_palloc.c:80-91 | takes the bytes there and leaves the other blocks alone |
| PoolAllocator.Pool.CarveAny | src/util/rp_palloc.c:79-93 | the bytes are behind all that was used of the first block with room, or at the start of a new one; that block alone is used further |
| PoolAllocator.Pool.AppendBlock | src/util/rp_palloc.c:125-162 | a new block goes to the end of the chain, its first bytes taken |
| PoolAllocator.Pool.PassOver | src/util/rp_palloc.c:149-159 | the failure counts and the new start are the closed forms |
| PoolModel.FailedStep | src/util/rp_palloc.c:151-155 | min(6, max(0, k - 1 - i)), counted from the last reset, is what counting step by step gives, and the sixth failure moves the start |
| PoolModel.SearchBound | src/util/rp_palloc.c:80-91 | a search looks at seven blocks at most before any reset, and at a bounded number after one |
| PoolAllocator.Pool.ResetFits | src/util/rp_palloc.c:22-23 | any request up to `max` fits a new or reset block whichever header it has |
| PoolAllocator.Pool.HeaderFits | src/util/rp_palloc.c:189 | a header is never itself a large allocation, so the recursion ends |
| PoolAllocator.Pool.PallocLarge | src/util/rp_palloc.c:164-200 | one more allocation is outstanding; the first empty header, if one of the first five is, has it and nothing is carved, and else a new header, carved as any small request, is in front of the others; or the system refused and the first allocation is given back |
| PoolAllocator.Pool.Record | src/util/rp_palloc.c:176-197 | the first empty header, if one of the first five is, is used again and the others keep what they hold; otherwise a new one is carved |
| PoolAllocator.Pool.FindSlot | src/util/rp_palloc.c:176-187 | finds the first empty header if it is one of the first five, and looks at no more |
| PoolAllocator.Pool.Pmemalign | src/util/rp_palloc.c:202-224 | as a large allocation, always with a new header |
| PoolAllocator.Pool.Pfree | src/util/rp_palloc.c:226-241 | frees the allocation if some header holds it and says whether one does; the other headers keep theirs |
| PoolAllocator.Pool.Reset | src/util/rp_palloc.c:52-71 | frees exactly the outstanding large allocations and makes every block empty again |
| PoolAllocator.Pool.Destroy | src/util/rp_palloc.c:31-50 | frees everything the pool has, each once, and reads no block it has freed |
| PoolAllocator.StillLive | src/util/rp_palloc.c:37-41 | no large allocation is freed twice |
| PoolAllocator.CarvedMore | src/util/rp_palloc.c:83-88 | what is behind the used part of a block is apart from every region handed out |
| Fifo.Ring.constructor | src/util/rp_fifo.c:5-12 | an empty ring |
| Fifo.Ring.Put | src/util/rp_fifo.c:14-36 | appends min(n, room) bytes in at most two copies |
| Fifo.Ring.Get | src/util/rp_fifo.c:38-60 | removes min(n, count) bytes in order, in at most two copies |
| Fifo.Ring.Consume | src/util/rp_fifo.h:31-40 | drops the first n bytes |
| Fifo.Ring.Reserve | src/util/rp_fifo.h:44-53 | appends the n bytes written at the tail |
| Fifo.Ring.RawR | src/util/rp_fifo.h:58-63 | the longest contiguous beginning of the contents |
| Fifo.Ring.RawW | src/util/rp_fifo.h:68-73 | the longest contiguous free room at the tail: all that is free, or up to the end of the buffer |
| Fifo.Ring.Fill | src/util/rp_fifo.h:42-73 | writing where RawW says and reserving appends the bytes |
| IrcMessage.Parser.Parse | src/ircsm/rp_ircsm.rl:162-181 | state, message, bytes used and result are those of the specification of one call |
| IrcMessage.Parser.Exec | src/ircsm/rp_ircsm.rl:14-113 | the actions of one transition, in their order |
| IrcStream.ScanFolds | src/ircsm/rp_ircsm.rl:162-181 | a call does to state and message what reading its bytes one by one does, up to the end of the first message, and stops short only at a rejected byte |
| IrcStream.MessageEndsAtLineFeed | src/ircsm/rp_ircsm.rl:138 | a completed message has used exactly the bytes through the first line feed |
| IrcStream.CutsDoNotMatter | src/rpbot.c:77-86 | bytes arrive in any pieces and for each the loop runs to its end, its calls over any cuts of the ring: it delivers what the whole stream does, and can do so unless a byte is rejected |
| IrcStream.LoopFollowsRun | src/rpbot.c:77-86 | the loop empties the ring if and only if the machine's run over the bytes is not in error, however the ring cuts them |
| IrcLines.NotRejectedIff | src/ircsm/rp_ircsm.rl:115-138 | from between messages no byte is rejected if and only if the bytes are lines of the grammar, the last perhaps incomplete |
| IrcLines.CanEnd | src/ircsm/rp_ircsm.rl:115-138 | every state short of error can be brought to the end of a message |
| IrcLines.LoopEndsUnlessRejected | src/rpbot.c:77-86 | the loop empties the ring if and only if the bytes, behind those already read, begin lines of the grammar |
| IrcLines.LoopNeverEnds | src/rpbot.c:77-86 | a stream on which the loop goes on for ever |
| ReadLoop.Reader.Drain | src/rpbot.c:77-86 | on bytes that are not rejected the loop ends with the ring empty and exactly their messages delivered |
| ReadLoop.Reader.DoRead | src/rp_event.c:297-326 | reads into the free piece at the tail again and again, round the end of the ring, until nothing more is there or the ring is full; the ring gains exactly what was read |
| ReadLoop.Reader.Receive | src/rpbot.c:77-86 | for any arrival of the bytes and any place the ring goes round, the messages are those of the stream |
| IrcPrefix.DeliveredAreTiled | src/ircsm/rp_ircsm.rl:19-74 | every delivered message has slices and flags that are true of its prefix, whatever was read before |
| IrcSenders.FlagsTellTruth | src/ircsm/rp_ircsm.rl:72-137 | in every delivered message that read a prefix the server flag is set if and only if the prefix is a name of the grammar, and the hostmask flag if and only if it is a sender of the grammar |
| IrcSenders.SendersAreRead | src/ircsm/rp_ircsm.rl:124-130 | the machine reads exactly the senders: nick, nick@host and nick!user@host |
| IrcRoundTrip.PrefixPart | src/ircsm/rp_ircsm.rl:72-137 | a prefix of the grammar is read to its end, and each flag says whether it is of its kind |
| IrcPrefix.BangPrefix | src/ircsm/rp_ircsm.rl:130-138 | a prefix with an exclamation mark is nick!user@host, and only the hostmask flag is set |
| IrcRoundTrip.LineReads | src/ircsm/rp_ircsm.rl:115-138 | every line the grammar allows, of a server's or a user's prefix or none, code and up to fifteen parameters, is read in one call, using exactly its bytes, and its parts are found again; of the two flags each is set exactly when the prefix is of its kind; without parameters the old ones stay |
| IrcAccepts.AcceptsExactlyLines | src/ircsm/rp_ircsm.rl:115-138 | a call that begins between messages completes one if and only if its bytes begin with a line of the grammar, and uses that line |
| IrcAccepts.ReadKept | src/ircsm/rp_ircsm.rl:115-138 | in every state, what has been read is a beginning of a line of the grammar |
| IrcHosts.NamesAreRead | src/ircsm/rp_ircsm.rl:119-123 | the machine reads exactly the names: labels with dots or slashes between them, or one with a mark behind it |
| IrcHosts.GroupsAreRead | src/ircsm/rp_ircsm.rl:127 | and exactly eight groups of hexadecimal digits |
| IrcHosts.MappedsAreRead | src/ircsm/rp_ircsm.rl:126-127 | and exactly the mapped addresses |
| IrcHosts.HostsAreRead | src/ircsm/rp_ircsm.rl:128-129 | and so exactly the hosts |
| IrcSenders.WholeUnique | src/ircsm/rp_ircsm.rl:130 | a prefix is cut into nick, user and host in one way only |
| IrcRoundTrip.LinesDeliver | src/ircsm/rp_ircsm.rl:162-181 | a stream of such lines delivers one message for each, in order, with its parts |

## Left out

- SlabAllocator.SlabPool.FreeAt: does not cover an address past the page area but not past `end`; `rp_slab_free` then reads a descriptor that the pool does not have.
- SlabAllocator.SlabPool.constructor: does not cover a region that leaves no whole page or is overrun; `rp_slab_init` accepts both, and `SlabLayout.LayoutExact` says when they arise.
- PoolAllocator.Pool.Create: does not cover sizes below the minimum or that are no multiple of eight, with which `rp_create_pool` goes below zero or aligns past the end of a block.
- SlabAllocator.SlabPool.TakeFrom: has no loop over further pages of the slot list, because the loop of the program provably ends on its first turn (`SlabFacts.FrontHasRoom`).
- PoolAllocator.Pool.Pmemalign: does not model the requested alignment, which the system provides.
- HashTable.Table.Add: is for absent keys, as its only caller in the program ensures; with a present one the map would not gain a key.
- HashTable.Table.Expand: numbers are unbounded, so the 32-bit `num_buckets` does not wrap.
- ListSort.SortList: the four macros are one method with the kind of list as a parameter, since their loops differ only in the links they repair.
- IrcMessage.Parser.Parse: the message's texts have no capacity; the 64, 32 and 512 bytes behind them are not modelled.
- Descriptor addresses are indices and block addresses are offsets; pointer arithmetic between objects is not modelled.
- The concrete hash functions of `src/util/uthash.h`, its Bloom filter and `HASH_SELECT`: the hash is any function.
- The one-step macros of `src/util/utlist.h` (prepend, append, delete, search): easy beside the sorts.
- `rp_pcalloc`, `rp_calloc` and `rp_fifo_putstr`: they add only a fill or a length.
- `src/rp_event.c` beyond `do_read`, `src/rp_config.c`, `src/rp_irc.c` beyond `register_handler`, `src/rp_options.c` and `src/util/rp_string.c`: operating-system plumbing, configuration and fixed replies.
