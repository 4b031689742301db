# Verified models of the tools_demo components

A Dafny 4.11 model of the components of the C++/C collection that hold state worth reasoning about, with
proofs of what they promise. `dafny verify dfyconfig.toml` checks everything.

| component | source | files |
|---|---|---|
| Pipe framing: length-prefixed messages reassembled from arbitrary chunks in a fixed cache | `Pipe/PipeClient` | `ChannelUtils`, `Framing`, `Reassembly`, `PipeWriter`, `PipeReader`, `Memory` |
| Timer: a heap of deadlines served by one thread while others register and cancel | `timerloop/priority_queue` | `TimerModel`, `TimerSafety`, `TimerProgress`, `TimerPacing`, `TimerRepeats`, `Timer` |
| Arena: bump allocation from 4096-byte blocks | `statusandslice` | `ArenaModel`, `Arena` |
| Slot pool: free slots in a ring | `objectpool2` | `RingPoolModel`, `RingPool` |
| Two LRU caches, one with expiry and batch eviction | `lru_cache`, `LruMap` | `KeyedList`, `NodeList`, `LruCacheModel`, `LruCache`, `LruMapModel`, `LruMap` |
| Snowflake ids | `snowflake_demo` | `SnowflakeModel`, `SnowflakeClock`, `Snowflake` |
| Shared memory with a semaphore and a message queue | `linux-sharedMsg` | `SharedMessage` |
| Growing object pool | `objectpool` | `ChunkPoolModel`, `ChunkPool` |
| String hash, doubling interval | `switch`, `workerprocess` | `StringHash`, `TimeInterval` |

## How the model is built

An object of the source whose methods update its fields is a class with those fields. Each method is proved
equal to a step function on values, and what the component promises is proved of the step functions: over
every sequence of calls, every cutting of a byte stream, every reading of the clock. The timer and the
shared-memory protocol are concurrent. Their steps are those of single threads, and the theorems are about
every interleaving; the methods of class `Timer` are proved to be such steps.

A step function is only as right as what is proved of it without naming it. So each component also has statements
that speak of its inputs alone: ids of clock readings, prints of the texts typed, regions of the addresses and
sizes asked for, entries found of what was put, deadlines of the clock and the milliseconds asked for.

`Basics` holds what several components use.

What the source takes from outside is an argument: the address `new char[]` returns, whether an allocator has
memory, the readings of the clock, what `ReadFile` delivers. Callbacks, commits and prints are recorded in
order. A list iterator is the identity of a list node. Arithmetic is unbounded except where the width is the
point: the 32-bit length header, the 64-bit hash, and the 64-bit id word are bit vectors.

## What the source does not do

Where the source falls short of what it is for, the model keeps its behaviour, and the proofs say exactly when
it matters.

- Snowflake ids are not unique: the call that enters a new millisecond returns sequence number 0 and stores 0,
  so the next call in that millisecond returns the same id. `SnowflakeModel.DuplicatesExactly` proves that no
  other two ids are equal, and `SnowflakeModel.UniqueExactlyWhen` which clock readings give no duplicates: past
  the epoch's own millisecond, exactly those with at most one call per millisecond.
- `HandleData` checks no bound. `Reassembly.CacheNeverOverrun` gives the condition on frame and chunk sizes under
  which the cache is never overrun, and `Reassembly.CacheBoundIsExact` that no weaker one will do. With the
  constants of `Pipe/PipeClient/PipeDefine.h` (frames and chunks of at most 1024 bytes) it holds.
- The doubling interval compares seconds twice and microseconds never, so it can exceed its maximum.
  `TimeInterval.WithinMaxExactly` says after which increments, for every minimum and maximum, and
  `TimeInterval.NeverExceedsMaxExactly` for which ones it never does. Above zero, a maximum under half a second
  makes it rise and fall for ever.
- `ObjectPoolAllocator::Create` reads the front of an empty list when the pool may grow but grows by zero:
  `ChunkPoolModel.FrontOfEmptyExactly`. This can happen with the default increment.

## Model

| member | source | states |
|---|---|---|
| ChannelUtils.IntToBytes | Pipe/PipeClient/ChannelUtils.cpp:4-10 | masking then shifting leaves the four bytes of the 32-bit pattern, least significant first, and touches no other byte |
| ChannelUtils.DecodeHeader | Pipe/PipeClient/ChannelUtils.cpp:12-19 | decoding the encoding of any 32-bit pattern gives it back, whatever bytes follow |
| ChannelUtils.EncodeDecoded | Pipe/PipeClient/ChannelUtils.cpp:4-19 | encoding undoes decoding for every four bytes, so the two are a bijection |
| ChannelUtils.PositionalValue | Pipe/PipeClient/ChannelUtils.cpp:12-19 | the shifts and masks of the decoder compute the little-endian base-256 value |
| PipeWriter.WritePipe.Send | Pipe/PipeClient/WritePipe.cpp:76-92 | what is written to the pipe for a message is exactly its frame |
| PipeWriter.WritePipe.FillBuffer | Pipe/PipeClient/WritePipe.cpp:83-84 | the two copies leave header and data side by side in the buffer |
| Framing.WholeFrameFirst | Pipe/PipeClient/ReadPipe.cpp:88-121 | a stream that starts with the frame of a message unpacks to that message and then whatever the rest unpacks to |
| Framing.UnpackStreamPrefix | Pipe/PipeClient/ReadPipe.cpp:80-122 | the stream of a message list, cut at any byte, unpacks to a prefix of the list, with a strict prefix of the next frame left over |
| Framing.ExactlyTheCompleteFrames | Pipe/PipeClient/ReadPipe.cpp:98-112 | a message is among the unpacked ones if and only if its whole frame lies before the cut |
| Framing.UnpackAppend | Pipe/PipeClient/ReadPipe.cpp:80-122 | unpacking, keeping the rest, and unpacking again when more arrives equals one pass over the whole |
| Framing.RestHoldsNoFrame | Pipe/PipeClient/ReadPipe.cpp:88-100 | when unpacking stops, no whole frame is left |
| Reassembly.ChunkingIsIrrelevant | Pipe/PipeClient/ReadPipe.cpp:80-122 | any sequence of calls ends as one call on the concatenated chunks would |
| Reassembly.Reassembled | Pipe/PipeClient/ReadPipe.cpp:80-122 | at any moment of any run, delivered are exactly the messages with complete frames, in order, and the cache holds exactly the bytes after them; at the end all messages are delivered and the cache is empty |
| Reassembly.CacheNeverOverrun | Pipe/PipeClient/ReadPipe.cpp:82-86 | with frames of at most M and chunks of at most C bytes and M - 1 + C within the cache, at most M - 1 bytes stay cached and the next chunk fits |
| Reassembly.CacheBoundIsExact | Pipe/PipeClient/ReadPipe.cpp:82-86 | for any larger M - 1 + C some run overruns the cache |
| PipeReader.ReadPipe.HandleData | Pipe/PipeClient/ReadPipe.cpp:80-122 | one call delivers all whole frames of cache and chunk and keeps exactly the bytes left over; it terminates |
| PipeReader.ReadPipe.TakePackage | Pipe/PipeClient/ReadPipe.cpp:102-120 | one package leaves the front of the cache and the rest moves down in place |
| PipeReader.ReadPipe.ReadPipeThread | Pipe/PipeClient/ReadPipe.cpp:49-64 | the read loop stops at the first empty read, never overruns the cache, and has delivered the written messages when their stream has been read |
| TimerModel.RunInv | timerloop/priority_queue/timer.h:61-157 | every interleaving keeps each id in one place: one registering call, one queued node, or the node just popped |
| TimerModel.OneNodePerId | timerloop/priority_queue/timer.h:132-155 | in every reachable state an id has at most one queued node |
| TimerSafety.CancelKills | timerloop/priority_queue/timer.h:115-121 | a cancel call of a returned id, complete by a check that finds the id gone or by its erase, leaves it out of the id map, whatever other cancel calls are under way |
| TimerSafety.NothingAfterCancel | timerloop/priority_queue/timer.h:115-155 | a returned id outside the id map never gets back into it, and commits of it plus the one in flight stay constant in every interleaving |
| TimerSafety.AtMostOneCommitAfterCancel | timerloop/priority_queue/timer.h:115-155 | after a cancel call is complete, by failed check or by erase, at most one commit of that id follows, in any run |
| TimerSafety.CommitsAsAsked | timerloop/priority_queue/timer.h:61-155 | a timer repeated n times commits at most n + 1 times, any other one that is not periodic once; commits made plus those outstanding are exactly that number until its cancelled node is dropped |
| TimerSafety.OwedStep | timerloop/priority_queue/timer.h:132-155 | every step but the dropping of a cancelled node conserves commits made plus commits outstanding |
| TimerRepeats.PeriodicKeepsRunning | timerloop/priority_queue/timer.h:132-147 | in every interleaving a periodic timer, once pushed and as long as its id is in the id map, has a queued node or is on its way back into the queue; only a cancel takes the id out |
| TimerRepeats.QueuedAsAsked | timerloop/priority_queue/timer.h:62-155 | first deadlines are the time point or the clock plus the period, later ones exactly the clock plus the period; a periodic timer is always queued again, a repeated one exactly while fewer commits than its repeat count were made |
| TimerRepeats.AllCommitted | timerloop/priority_queue/timer.h:61-155 | a timer that is not periodic, was not cancelled and has nothing left anywhere has been committed exactly once, or n + 1 times |
| TimerProgress.NeverEarly | timerloop/priority_queue/timer.h:132-138 | no node is committed a millisecond or more before its deadline |
| TimerProgress.DueByStep | timerloop/priority_queue/timer.h:124-157 | once a deadline is past, every pop lowers the number of nodes due by it and only run_at raises it |
| TimerProgress.PopsCounted | timerloop/priority_queue/timer.h:124-157 | while an overdue node stays queued, pops plus what is still due by its deadline equal what was due plus the later run_at insertions |
| TimerProgress.NoStarvation | timerloop/priority_queue/timer.h:124-157 | an overdue node has been popped after as many pops as nodes were due by its deadline, plus later run_at insertions |
| TimerProgress.OverdueIsServed | timerloop/priority_queue/timer.h:124-157 | the same for every run from the start |
| TimerProgress.PopPossible | timerloop/priority_queue/timer.h:132-138 | the waiting tick thread can pop as soon as a queued deadline is less than a millisecond away |
| TimerPacing.PacedStep | timerloop/priority_queue/timer.h:61-157 | every step keeps each deadline of a timer at least a period, less 999999 ns, after the one before |
| TimerPacing.NeverTooFast | timerloop/priority_queue/timer.h:61-157 | in every interleaving a timer's commits take at least their number of periods, less 999999 ns each, from the call on; a run_at callback comes at most 999999 ns before its time point |
| TimerObject.Timer.Register | timerloop/priority_queue/timer.h:62-113 | registering takes the next id, puts it in the id map and queues one node: four steps of the transition system |
| TimerObject.Timer.RunAfter | timerloop/priority_queue/timer.h:62-76 | queues one node with deadline now plus the milliseconds given, under the next id, which is put in the id map |
| TimerObject.Timer.RunAt | timerloop/priority_queue/timer.h:80-94 | likewise with the time point given |
| TimerObject.Timer.RunRepeated | timerloop/priority_queue/timer.h:97-113 | likewise with deadline now plus the milliseconds given and a repeat count |
| TimerObject.Timer.Cancel | timerloop/priority_queue/timer.h:115-121 | the check and, if the id is there, the erase |
| TimerObject.Timer.Top | timerloop/priority_queue/timer.h:31 | the top has a minimal deadline |
| TimerObject.Timer.RunLocalOnce | timerloop/priority_queue/timer.h:126-157 | one pass changes nothing exactly if every deadline is a millisecond or more away; else it pops a top and drops it, or, if its id is in the id map, commits it and queues it again at the clock plus its period if it is periodic or has repeats left |
| ArenaModel.CarvedIfItFits | statusandslice/arena.cpp:36-53 | a request that fits behind the gap up to the next multiple of eight, or without a gap, is carved from the current block right there, and no block is taken |
| ArenaModel.OneBlockIfNot | statusandslice/arena.cpp:18-34 | any other request takes exactly one block: its own if it is over 1024 bytes, or a new current one of 4096 bytes |
| ArenaModel.RegionsAreSound | statusandslice/arena.cpp:18-67 | over any sequence of calls each region has its size, lies in one owned block, and is 8-aligned if asked for |
| ArenaModel.RegionsAreDisjoint | statusandslice/arena.cpp:18-67 | over any sequence of calls no two regions overlap |
| ArenaModel.FragmentationBound | statusandslice/arena.cpp:18-67 | with S standard blocks at least 3073 (S - 1) bytes are carved from them, and the usage reported is exactly 4096 S plus the large blocks plus 8 per block |
| ArenaModel.FragmentationBoundIsTight | statusandslice/arena.cpp:26-33 | a block can be given up with exactly 3073 bytes carved |
| ArenaModel.WasteBound | statusandslice/arena.cpp:20-45 | when a small request misses, at most 1023 bytes are left, slop included |
| ArenaModel.StepInv | statusandslice/arena.cpp:18-67 | every call keeps blocks apart, regions inside and apart, the free tail untouched and the accounts exact |
| ArenaObject.Arena.Allocate | statusandslice/arena.h:41-52 | carves what fits from the current block and leaves blocks and usage alone; else takes one block more |
| ArenaObject.Arena.AllocateAligned | statusandslice/arena.cpp:36-58 | likewise behind the gap up to a multiple of eight; the closing assertion always holds |
| ArenaObject.Arena.AllocateFallback | statusandslice/arena.cpp:18-34 | a large request gets its own block and leaves the current one in use; a small one starts a new block |
| ArenaObject.Arena.AllocateNewBlock | statusandslice/arena.cpp:60-67 | the block is recorded and counted with its pointer |
| RingPoolModel.LiveSlots | objectpool2/object_pool.cpp:65-95 | for every run of gets and releases in any order free and live slots partition the pool, at most N - 1 are live, and the next slot handed out is not live |
| RingPoolModel.PooledExactly | objectpool2/object_pool.cpp:73-95 | after every run get takes a slot if and only if fewer than N - 1 are live |
| RingPoolModel.MovesUp | objectpool2/object_pool.cpp:75-95 | a free slot moves up by one with each pooled get and with nothing else |
| RingPoolModel.ReissuedAfterExactly | objectpool2/object_pool.cpp:89-93 | a slot released with k slots free is next in line if and only if exactly k other pooled gets have come since |
| RingPool.ObjectMemPool.constructor | objectpool2/object_pool.cpp:65-69 | all slots are free, in order |
| RingPool.ObjectMemPool.Get | objectpool2/object_pool.cpp:74-96 | takes the front of the circular window, or the heap when one slot is left, and counts |
| RingPool.ObjectMemPool.Release | objectpool2/object_pool.cpp:89-94 | puts the slot at the back of the window, around the end of the array |
| RingPool.RoomForLiveSlot | objectpool2/object_pool.cpp:91-92 | while a slot is live the ring has room for it |
| LruCacheModel.RunInv | lru_cache/lrucache.h:40-97 | no operation sequence duplicates a key or exceeds the capacity |
| LruCacheModel.OrderedByLastTouch | lru_cache/lrucache.h:40-97 | after any run the list is ordered by when each key was last newly inserted or hit |
| LruCacheModel.ValuesAsInserted | lru_cache/lrucache.h:40-82 | every cached value is that of the key's last new insertion |
| LruCacheModel.RetainedExactly | lru_cache/lrucache.h:40-97 | in a run without clear, a key not used again stays cached if and only if fewer than capacity distinct other keys were newly inserted or hit |
| LruCacheModel.StepContents | lru_cache/lrucache.h:40-97 | what is cached after one operation: what was newly inserted, and all that was cached but, when full, the least recently used entry, or after clear nothing |
| LruCacheModel.GetExactly | lru_cache/lrucache.h:56-82 | after any run get yields the value last newly inserted for a cached key, and nothing for any other |
| LruCacheModel.UseMovesToFront | lru_cache/lrucache.h:51-77 | a new insertion or a hit puts the key in front, with the new or the old value; inserting a cached key and a miss change nothing |
| LruCacheObject.LruCache.Insert | lru_cache/lrucache.h:40-54 | list and map together represent the entry list after the step, each key leading to its own node |
| LruCacheObject.LruCache.Get | lru_cache/lrucache.h:56-82 | likewise, and the value returned is the entry's |
| LruCacheObject.LruCache.Evict | lru_cache/lrucache.h:91-97 | the last entry goes, with its key |
| LruCacheObject.LruCache.Clear | lru_cache/lrucache.h:84-88 | nothing is left |
| LruCacheObject.LruCache.Contains | lru_cache/lrucache.h:35-38 | true exactly for cached keys |
| LruCacheObject.ReLink | lru_cache/lrucache.h:65-76 | erasing a node and pushing a new one in front for the same key is moving the entry to the front |
| LruMapModel.RunDistinct | LruMap/lurmap.h:62-141 | no operation sequence duplicates a key |
| LruMapModel.OrderedByLastTouch | LruMap/lurmap.h:76-141 | after any run the list is ordered by last use, so vacate drops exactly the least recently used entries |
| LruMapModel.HoldsLastPut | LruMap/lurmap.h:93-114 | every stored value and expiration is that of the key's last put |
| LruMapModel.GetYieldsLastPut | LruMap/lurmap.h:76-91 | after any run get yields what the last put stored, and with erasing on nothing that has expired |
| LruMapModel.GetExactly | LruMap/lurmap.h:76-91 | after any run get yields what the last put stored and keeps it if an entry is there and has not expired or erasing is off; an expired one is gone; without an entry nothing is yielded |
| LruMapModel.StepContents | LruMap/lurmap.h:62-141 | what is stored after one operation: what was put, and exactly the entries not erased, expired, or among the least recently used ones dropped |
| LruMapModel.UsedIsLast | LruMap/lurmap.h:89-114 | a put, and a get that may return its entry, make the key the most recently used one |
| LruMapModel.SizeBound | LruMap/lurmap.h:93-141 | a map over its limit loses 15 entries with every absent put, whatever comes in between, until it is within max(capacity, 1) |
| LruMapModel.StaysWithinLimit | LruMap/lurmap.h:93-141 | a map within its limit stays within it |
| LruMapModel.LimitRestored | LruMap/lurmap.h:62-74 | after a change of capacity, ceil((s - limit) / 15) absent puts restore the limit |
| LruMapModel.Retained | LruMap/lurmap.h:93-141 | a used key stays, unchanged, through gets, puts and erases of others that use at most capacity - 16 distinct keys |
| LruMapModel.RetentionIsTight | LruMap/lurmap.h:105-108 | for every capacity that holds a batch, one more distinct key can evict it |
| LruMapObject.LruMap.Get | LruMap/lurmap.h:76-91 | list and index represent the entry list after the step, and the node returned is the entry's |
| LruMapObject.LruMap.Put | LruMap/lurmap.h:93-114 | likewise, for a present and for an absent key |
| LruMapObject.LruMap.Erase | LruMap/lurmap.h:116-126 | the key's node leaves list and index |
| LruMapObject.LruMap.VacateFront | LruMap/lurmap.h:133-141 | the loop removes the front nodes and their keys, n or all |
| LruMapObject.LruMap.SetCapacity | LruMap/lurmap.h:62-74 | capacity zero empties the map; any other leaves the entries |
| SnowflakeModel.ShiftsAndOrs | snowflake_demo/snowflake.h:119-125 | masks, shifts and ORs on the 32-bit machine and sequence words compute the arithmetic of the id, for 41-bit times: remainders in fields side by side |
| SnowflakeModel.PackDecodes | snowflake_demo/snowflake.h:119-125 | an id decodes to time, the machine's low ten bits and the sequence number, and is not negative for 41-bit times |
| SnowflakeModel.RunLaw | snowflake_demo/snowflake.h:101-148 | with a clock that never goes back, numbers count up within a millisecond except that zero comes twice in one that was entered, and start at zero in a later one |
| SnowflakeModel.DuplicatesExactly | snowflake_demo/snowflake.h:119-145 | ids never decrease, and two are equal if and only if the first is of the call that entered a millisecond and the second of the call right after it in the same one; the number is then zero |
| SnowflakeModel.NeverThreeEqual | snowflake_demo/snowflake.h:101-148 | no id is returned three times |
| SnowflakeModel.UniqueExactlyWhen | snowflake_demo/snowflake.h:123-143 | all ids of a run differ if and only if, past the epoch's own millisecond, no two clock readings lie in one millisecond |
| SnowflakeModel.OneCallPerMillisecond | snowflake_demo/snowflake.h:123-143 | with the epoch in the past: if and only if there is at most one call per millisecond |
| SnowflakeModel.DuplicateExample | snowflake_demo/snowflake.h:123-143 | two calls in one fresh millisecond return the same id |
| SnowflakeModel.IdsDecode | snowflake_demo/snowflake.h:119-147 | every id of a run decodes to its call's fields |
| SnowflakeClock.TimesAreReadings | snowflake_demo/snowflake.h:101-148 | whatever the clock does, every id carries the milliseconds since the epoch of one of its call's own readings, the first not before the id before; no reading is skipped but by waiting or by sleeping on number 4095, and a call that has not returned is doing one of these |
| SnowflakeClock.IdsInClosedForm | snowflake_demo/snowflake.h:101-148 | with a clock that never goes back and at most 4095 calls per millisecond, every id is given by its reading: time since the epoch, machine, and its position in the millisecond |
| SnowflakeClock.MillisTruncates | snowflake_demo/snowflake.h:105-109 | the milliseconds are the microseconds divided by 1000, truncated toward zero |
| SnowflakeModel.TimeNeverGoesBack | snowflake_demo/snowflake.h:111-117 | even if the clock goes back, no call returns an earlier millisecond than one before |
| SnowflakeObject.Snowflake.Generate | snowflake_demo/snowflake.h:101-148 | one call, with its waiting and sleeping loops, returns the packed stamp, or is still waiting, as the step function says |
| SnowflakeObject.Snowflake.WaitForClock | snowflake_demo/snowflake.h:111-117 | waits for the first reading not before the last millisecond and counts the others |
| SnowflakeObject.Snowflake.SleepPast | snowflake_demo/snowflake.h:132-137 | sleeps until the first reading past the time |
| SharedMessage.RunInv | linux-sharedMsg/SharedMemoryMsgServer.c:141-152 | every interleaving keeps at most one process inside the critical section and the buffer whole outside of writes |
| SharedMessage.HolderCanGoOn | linux-sharedMsg/SharedMemoryMsgServer.c:38-69 | whenever the semaphore is taken, its holder can take a step |
| SharedMessage.PrintsShowTexts | linux-sharedMsg/SharedMemoryMsgServer.c:141-152 | in every interleaving each print shows exactly the text typed last by then, a complete one, the k-th at least text number k, and never an earlier one than the print before |
| SharedMessage.CommandsBecomeTexts | linux-sharedMsg/SharedMemoryMsgClient.c:117-122 | in every interleaving the texts typed are as many as the 'r' commands, less those of clients still before or inside their write |
| SharedMessage.PrintsWhenClosed | linux-sharedMsg/SharedMemoryMsgServer.c:143-146 | when the server has closed it has printed once per read notice sent before the first quit |
| SharedMessage.LoneRunCloses | linux-sharedMsg/SharedMemoryMsgClient.c:110-139 | a run with one client can take no further step only when the client has stopped and the server has closed |
| SharedMessage.LoneClient | linux-sharedMsg/SharedMemoryMsgClient.c:110-139 | with one client that typed n texts, a closed server has printed exactly n times and last the n-th text |
| SharedMessage.LoneClientFinished | linux-sharedMsg/SharedMemoryMsgClient.c:110-139 | every run with one client that has come to its end has printed once per 'r' command and last the text typed last |
| ChunkPoolModel.Conserved | objectpool/objectpool.h:13-108 | over any run, free plus outstanding objects are the current number, which is the sum of the chunks and at most the maximum, and each object of each chunk is exactly one of the two |
| ChunkPoolModel.ConstructedExactly | objectpool/objectpool.h:13-22 | a pool constructed with memory holds exactly the initial number of objects; a smaller maximum is raised to it and growing turned off |
| ChunkPoolModel.CreateGrows | objectpool/objectpool.h:52-108 | create on an exhausted pool brings the increment, or what is missing to the maximum, and hands out the first |
| ChunkPoolModel.CreateTakes | objectpool/objectpool.h:65-68 | create hands out the front free object and changes nothing else |
| ChunkPoolModel.NothingHappens | objectpool/objectpool.h:54-81 | without the lock, or with nothing free and no way to grow, nothing is handed out and nothing changes |
| ChunkPoolModel.CreateIsFresh | objectpool/objectpool.h:52-69 | create never hands out an outstanding object |
| ChunkPoolModel.NullExactlyWhenExhausted | objectpool/objectpool.h:59-63 | with a positive increment and memory available create returns nothing if and only if the maximum is outstanding |
| ChunkPoolModel.FrontOfEmptyExactly | objectpool/objectpool.h:59-66 | create reads the front of an empty list if and only if nothing is free, the increment is zero and there is room and memory |
| ChunkPoolModel.FrontOfEmptyExample | objectpool/objectpool.h:13-22 | which happens to a pool of maximum five constructed empty with the default increment |
| ChunkPoolModel.DestroyThenCreate | objectpool/objectpool.h:65-81 | create undoes destroy: the same object, and the same state |
| ChunkPool.ObjectPoolAllocator.constructor | objectpool/objectpool.h:13-22 | an initial number above the maximum raises it and turns growing off |
| ChunkPool.ObjectPoolAllocator.Create | objectpool/objectpool.h:52-69 | the step function's result and state |
| ChunkPool.ObjectPoolAllocator.Destroy | objectpool/objectpool.h:71-81 | the object goes to the front of the free list |
| ChunkPool.ObjectPoolAllocator.IncreaseObjects | objectpool/objectpool.h:85-108 | one more chunk, capped at the maximum, its objects appended in order; fails exactly when full or without memory |
| ChunkPool.ObjectPoolAllocator.SetMaxNum | objectpool/objectpool.h:35-43 | the maximum is not lowered below the current number |
| StringHash.HashLoop | switch/switch.cpp:15-26 | the loop computes what the recursion computes, on every C string |
| StringHash.HashIsFold | switch/switch.cpp:28-31 | the hash depends on the text before the terminator alone |
| StringHash.KnownHashes | switch/switch.cpp:10-31 | two hashes worked out, one of them of a byte above 127 |
| StringHash.UnfoldFold | switch/switch.cpp:28-31 | every suffix acts on the 64-bit hash as a bijection, with the inverse given |
| StringHash.CommonSuffix | switch/switch.cpp:15-31 | strings with a common suffix collide if and only if their fronts do |
| StringHash.OneCharacterDiffers | switch/switch.cpp:15-31 | strings of equal length that differ in exactly one character never collide |
| TimeInterval.AfterIsSchedule | workerprocess/TimeInterval.cpp:29-57 | for every minimum and maximum, what the interval is after k increments in closed form: doubled as long as it is below max seconds + 1, then the maximum doubled likewise, over and over |
| TimeInterval.BackoffExactly | workerprocess/TimeInterval.cpp:29-57 | after every increment it is min * 2^k while that is below max seconds + 1, and the maximum from then on, if and only if the maximum settles or the minimum is zero |
| TimeInterval.SettlesExactly | workerprocess/TimeInterval.cpp:34-51 | the interval stays at a maximum if and only if it is zero or at least half a second |
| TimeInterval.WithinMaxExactly | workerprocess/TimeInterval.cpp:40-49 | for every minimum, maximum and k: the interval is within the maximum if and only if it is zero, still rising and not past it, or just cut down to it |
| TimeInterval.NeverExceedsMaxExactly | workerprocess/TimeInterval.cpp:40-49 | it never exceeds the maximum if and only if the minimum is zero, or the maximum settles and the last doubling of the minimum below max seconds + 1 is within it |
| TimeInterval.RisesAgain | workerprocess/TimeInterval.cpp:40-49 | at a maximum of 1 to 499999 microseconds, unless the minimum is zero, the interval is twice the maximum right after being cut |
| TimeInterval.ExceedsMaxExample | workerprocess/TimeInterval.cpp:40-45 | 0.6 s doubles past a maximum of 1.0 s |
| TimeInterval.ExceedsSmallMaxExample | workerprocess/TimeInterval.cpp:40-49 | from 0.1 s with a maximum of 0.3 s the fifth increment gives 0.6 s |
| TimeInterval.IncrementMicros | workerprocess/TimeInterval.cpp:34-51 | an increment doubles the microseconds in all, or cuts to the maximum, and normalizes |
| TimeInterval.CTimeInterval.PreIncrement | workerprocess/TimeInterval.cpp:34-51 | returns the incremented interval |
| TimeInterval.CTimeInterval.PostIncrement | workerprocess/TimeInterval.cpp:52-57 | returns the interval before the increment |

## Left out

- Windows pipe, thread and message-loop calls around `HandleData` and the frame building; the duplicate `Pipe/PipeServer` files.
- A message that does not fit the write buffer, which the source copies unchecked.
- A pipe header that announces a negative length, or one so large that adding the header size overflows an `int`: `HandleData` is modelled on streams without such headers, which is what the writer produces.
- Condition-variable wakeups, the timer's destructor and the thread pool behind `commit`; a wait is no step at all. Timer ids do not wrap around.
- Steps of the shared-memory protocol after the server has removed the semaphore and the queue, failing system calls, `SEM_UNDO`, and texts longer than the buffer. The client's and the server's loops appear as their program counters.
- Overflow of `size_t`, `time_t` and `int` counters in the arena, the pools, the caches and the interval.
- Construction and destruction of the pooled objects, and releasing the arena's blocks.
- An `lru_cache` of capacity zero, whose first `insert` would evict from an empty list.
- `LruMap::erase(iterator)`, `begin` and `end`, and reserving hash buckets; the hash containers are maps.
- The spin lock of the snowflake generator: a call is one step, as under its lock. Changing epoch or machine during a run.
- Negative time values in the interval.
- LruMapModel.Retained: is about runs without explicit vacate, clear or change of capacity, and without operations on the key itself.
- The remaining programs of the collection: factories, registries, templates, logging, string splitting, curl and boost demos.
