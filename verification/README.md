# Verified models of the libclogger core

A Dafny 4.11 project that models the parts of the logging library with the most
intricate state and arithmetic, and proves what they promise. `dafny verify
dfyconfig.toml` checks all of it. Source files are named relative to the repository.

## What is modelled

- **The variable-length ring buffer** (`source/common/ringbufst.h`, and its
  process-shared twin `source/common/shmmbuf.h`). `RingLayout` gives the offset
  arithmetic and what memory means; `RingPlans` what a write and a read decide;
  `RingMachine` runs any number of writers and readers in small steps, memory moved
  one byte at a time, snapshots of the other side's offset that may be stale when used,
  and owners that die at any step; `RingBounds` is what its runs keep whatever memory
  holds; `RingBufferSt` is the object with its methods;
  `RobustCell` is the shared offset behind its owner-death-proof mutex.
  Offsets are one-bit-phase numbers in `[0, 2L)`; for the proofs they are codes of
  positions on an endless tape of laps.
- **The bitmap block allocator** (`source/common/membuff.c` over
  `source/common/ffs64.h` and `ffs32.h`). `Ffs` searches and masks words of any width;
  `BlockSize` is the align-up macro with its bit mask, wrap-around and int cast;
  `BlockPool` is the pool object; `PoolMachine` the pool under any number of threads,
  with the unlocked counter check, the spinlock and word-by-word masking as steps.
- **Rolling log files** (`source/clogger/rollingfile.c`): `Generations` cuts a stream
  into files, `FileNumbers` says where they are after k rolls, `RollingFile` is the object
  over a file system that maps names to bytes, `RollingRun` whole runs in time order.
- **Streaming MD5** (`source/common/md5sum.h`), with the compression of one block as a
  parameter; **civil dates** (`source/common/timeut.h`, `rtclock.c`) and the **rolling
  keys** printed from them (`source/clogger/clogger.c`); the **LCG jump**
  (`source/common/randctx.h`); the **128-bit product** (`source/common/cgtypes.h`).
- **The fixed-slot ring** (`source/common/ringbuf.h`) with the logger's message pool,
  **the logger registry** (`source/clogger/loggermgr.c`) and **the worker pool**
  (`source/common/threadpool.c`), each as an object and as a machine of concurrent steps.

Objects whose fields the program updates are classes whose methods follow the program's
branches; concurrency is a machine over the program's steps under sequential
consistency. Fields called history in a comment are decided by no step; they let the
theorems speak about what happened.

## What the caller must bring

- Ring chunks of a size the size check judges rightly (`RingBufferSt.SizeCheckExact`),
  which all up to 2^63 - 16 are; the ring length is whole pages and twice it fits an int.
  A chunk of no bytes may be written, and is then lost: see below.
- The pool's two asserted limits (block size and block count at most 4096); addresses
  freed with this pool's name are those of live blocks.
- An MD5 update meets `GuardFits`; every input below 2^32 - 64 bytes does.
- The civil year fits an int, and the second less the zone plus the daylight hour 64 bits;
  messages are shorter than 2^32 bytes.

## Where the code and what is said about it differ

- A chunk of no bytes passes every check of `ringbufst_write`, but its header is the marker
  of a hole: no reader ever delivers it. All that is said of queues holds exactly until
  such a chunk is accepted (`RingMachine.EveryRunIsFifo`, `RingBufferSt.RingBuffer.Write`);
  readers and writers stay apart even then (`RingBounds.EveryRunKeepsApart`).
- `getlocaltime_safe` cuts day numbers to an int. More than 2^31 days before 1970 the date
  no longer encodes the second, and from 2^32 - 30 days before 1970 backwards there are
  midnights for which every field is in range all the same (`CivilTime.GetLocalTime`,
  `CivilTime.FarPastLooksLikeEpoch`).
- `ringbufst_read_next` at a marker moves the read offset, calls itself with the lock
  still held, and so returns 0 on a queue that is not empty; one drain loop does not
  prove the ring empty. Proved instead: the head comes within two reads.
- The pool's header comment allows 4096 * 64 blocks, its assertion 4096. The code is
  followed.
- The align-up macro rounds up only for powers of two; the exact condition is proved, with
  inputs that fail.
- The comment over the leap-year macro says years divisible by 400 are not leap; the code
  makes them leap, which is the Gregorian rule.
- In append mode the file counter is not reset on a new date, so a bucket may lose its
  first file early; the exact condition is proved of the files on disk
  (`RollingFile.Rolling.OnDisk`), with a run that comes to it (`RollingFile.StrayBucket`).
- The size check of the ring's write lets sizes from 2^63 - 15 up through, all but the
  eight from 2^64 - 15 on; the exact condition is proved.
- Date keys sort by time up to the year 9999 and not a second longer.

## Model

| member | source | states |
|---|---|---|
| RingLayout.NormalizeAdv | source/common/ringbufst.h:128-129 | the one-bit-phase offset arithmetic moves along an endless tape of laps: normalising an offset n bytes on gives the code of the position n bytes on |
| RingLayout.LiveIsEntries | source/common/ringbufst.h:75-88 | bytes of live entries on the tape are the aligned sizes of the queued entries |
| RingPlans.PlanWriteMeaning | source/common/ringbufst.h:175-236 | where a write may go, in terms of positions: refused only without room at either end, never overlapping the tape between the read snapshot and the write position |
| RingPlans.RefusedOnlyWhenCrowded | source/common/ringbufst.h:175-236 | a writer with the current read offset is refused only if the live entries, holes not counted, fill more than 3/4 of the ring |
| RingPlans.EmptyAcceptsAll | source/common/ringbufst.h:187-236 | an empty ring takes every entry of aligned size up to L/8, wherever its offsets stand |
| RingPlans.FillOutside | source/common/ringbufst.h:187-229 | every byte a placed write touches (tail, zeroed hole or front), even when planned from a stale read offset, lies outside all live slots and outside the stretch readers may look at |
| RingPlans.Publish | source/common/ringbufst.h:190-229 | once the planned bytes are in memory, publishing the offset appends exactly the new entry to what memory decodes to and keeps the ring invariant |
| RingPlans.PlanReadMeaning | source/common/ringbufst.h:437-512 | a reader that sees any prefix of the slots, up to an entry boundary, finds nothing exactly when the prefix is empty and otherwise the head slot; the error returns are unreachable |
| RingPlans.DropHead | source/common/ringbufst.h:446-503 | moving the read offset past the head slot keeps the ring invariant |
| RingPlans.DrainIsQueue | source/common/ringbufst.h:426-513 | reading memory through the code's own offset arithmetic until nothing is left yields the queued entries, byte for byte and in order |
| RingPlans.HeadWithinTwoReads | source/common/ringbufst.h:437-512 | a non-empty quiescent ring delivers its head entry at the first read or, past a marker, at the second |
| RingPlans.WriteEffect | source/common/ringbufst.h:167-241 | the whole effect of an undisturbed write on memory and queue |
| RingMachine.StepInv | source/common/ringbufst.h:167-513 | a step of a writer or reader, deaths and recoveries included and with stale snapshots of the other side's offset, keeps the ring invariant if and only if it does not publish an entry of no bytes |
| RingMachine.RunInv | source/common/ringbufst.h:167-513 | so every run does in which no entry of no bytes has been accepted |
| RingMachine.RunSomeBytes | source/common/ringbufst.h:437-512 | whatever is written, and from any memory and offsets, no run delivers an entry of no bytes |
| RingMachine.EveryRunIsFifo | source/common/ringbufst.h:167-513 | in every interleaving, delivered entries followed by the decoded live region are the accepted entries in order, byte for byte, if and only if no entry of no bytes has been accepted; until then no reader reaches an error return |
| RingBounds.LookInside | source/common/ringbufst.h:437-512 | whatever is in memory, a read offers only an entry that lies between the two offsets it has seen, or the start of the lap it has seen the writer on |
| RingBounds.StepBounded | source/common/ringbufst.h:167-513 | every step, with any memory and entries of no bytes, keeps both offsets within one ring length, header-aligned, and both sides' plans inside it |
| RingBounds.EveryRunKeepsApart | source/common/ringbufst.h:187-229 | in every interleaving, entries of no bytes included, bytes a writer is filling are bytes of the ring no reader may read, bytes a reader is copying are live, and the header it looks at is inside the ring |
| RingMachine.StepRefinesFifo | source/common/ringbufst.h:190-229 | the queue changes only when an offset is published: the writer's entry joins at the back, exactly if it has bytes, or the head, as the reader assembled it from single bytes, leaves |
| RingMachine.CallKeepsBase | source/common/shmmbuf.h:871-954 | while one write call lasts, whatever the others do and whatever memory holds, at most its own entry is added to those accepted |
| RingMachine.DeathIsAllOrNothing | source/common/shmmbuf.h:871-954 | a process can die at any step of a write, and leaves the accepted entries as they were or with its one complete entry; unless that has no bytes, memory still decodes to what is not delivered, and the recovered lock is taken over in a state satisfying the invariant |
| RingMachine.ReaderDeathTakesHeadOrNothing | source/common/shmmbuf.h:1117-1133 | a process can die at any step of a read of one entry, writers going on meanwhile, and has taken nothing off the queue or exactly its head, whole; the queue is what is left with the newly accepted entries behind it, and the recovered lock is taken over with queue and invariant as they are |
| RingMachine.LoneWriteCompletes | source/common/shmmbuf.h:297-313 | after a recovery, or on a free lock, a next write exists that runs through whenever the ring is at most 3/4 full, and appends its entry to the queue if and only if that has bytes |
| RingMachine.LoneReadCompletes | source/common/ringbufst.h:369-385 | after a recovery, or on a free lock, a lone reader delivers the head of a non-empty queue within two rounds of taking and giving up the lock |
| RingMachine.LoneBatchDelivers | source/common/ringbufst.h:388-423 | a lone batch reader takes the lock once and delivers the whole queue in order, or the part in front of a marker |
| RingMachine.LoneDeclineKeeps | source/common/ringbufst.h:446-503 | a callback that declines the head leaves everything as it was |
| RobustCell.EveryRunIsAtomic | source/common/shmmbuf.h:334-398 | in every run of get, set and compare-exchange by processes that may die at any step, the calls that took effect did so one after the other, each answered with what the one before left; a set leaves its argument, a get what it found, a compare-exchange its second argument exactly if it found its first; and the mutex is never lost for good |
| RobustCell.DeathIsAllOrNothing | source/common/shmmbuf.h:334-398 | a process that begins a call can die at any later step of it, whatever the others do meanwhile, and leaves the call wholly done or not begun: of its calls at most this one was added, and the number is what the calls that took effect, each leaving what it should, made of it one after the other |
| RobustCell.RecoveryCompletes | source/common/shmmbuf.h:248-260 | on a free mutex, or after an owner's death by making the mutex consistent, giving it up and starting over, a process alone completes its call: a set stores its argument, a get changes nothing, a compare-exchange stores exactly if it finds what it compares with |
| RobustCell.SetThenGet | source/common/shmmbuf.h:335-376 | a number set is the answer of the next get |
| RobustCell.RepairIsNeeded | source/common/shmmbuf.h:252-261 | a robust mutex inherited and given up without the repair is lost |
| RingBufferSt.RingBuffer.constructor | source/common/ringbufst.h:136-156 | a new ring is empty, its length the least whole pages that hold the asked number of elements, which is taken to be at least 2 and at most 0x1FFFF |
| RingBufferSt.SizeCheckExact | source/common/ringbufst.h:171-177 | the 64-bit size check judges a chunk size rightly if and only if rounding it up neither leaves the positive signed numbers nor wraps around to one header; every other size is let through |
| RingBufferSt.MachineAdmits | source/common/ringbufst.h:175-178 | the step machine admits exactly the entries this check lets through, among the sizes it judges rightly |
| RingBufferSt.RingBuffer.Write | source/common/ringbufst.h:167-241 | for those sizes, 0 included: fails exactly over L/8, changes nothing then or when it returns 0, which on a free lock means more than 3/4 is occupied; on success memory decodes to the old queue and the chunk if and only if the chunk has bytes |
| RingBufferSt.RingBuffer.ReadInternal | source/common/ringbufst.h:426-513 | one look at the ring has exactly the outcomes of the queue: empty, a marker stepped over with the queue unchanged, or the head offered to the callback |
| RingBufferSt.RingBuffer.ReadNext | source/common/ringbufst.h:369-385 | the same for a locked call; at a marker the call re-enters itself with the lock held and so returns 0 although the queue is not empty |
| RingBufferSt.RingBuffer.ReadCopy | source/common/ringbufst.h:244-365 | yields the head entry if the caller's buffer holds it, its size otherwise, 0 exactly on an empty queue; markers are passed silently |
| RingBufferSt.RingBuffer.ReadNextBatch | source/common/ringbufst.h:388-423 | takes a prefix of the queue, each entry accepted by the callback, stopping early only at an empty queue, a declined entry or right behind a marker |
| LittleEndian.RoundTrip | source/common/ringbufst.h:84-88 | an entry header written to memory reads back as the size |
| Ffs.FirstSetbit | source/common/ffs64.h:94-122 | the least set bit, 1-based, 0 exactly for the zero word |
| Ffs.NextSetbit | source/common/ffs64.h:202-221 | the least set bit at or after a position, 0 exactly if there is none; width-generic, so the 32-bit file too |
| Ffs.NextUnsetbit | source/common/ffs64.h:223-239 | the same for clear bits |
| Ffs.FindSetbits | source/common/ffs64.h:277-355 | the least position over all words at which the wanted number of set bits start in a row, across word boundaries; 0 exactly when there is none; the search ends although it may restart inside one word |
| Ffs.MaskBits | source/common/ffs64.h:358-387 | sets or clears exactly the given range of the row of bits, across words, and nothing else |
| Ffs.CountPaint | source/common/membuff.c:235-237 | clearing a run of n set bits or setting n clear ones moves the number of set bits by exactly n |
| BlockSize.AlignExact | source/common/membuff.c:88-89 | for powers of two the align-up macro gives the least multiple at or above the size, short of word wrap-around |
| BlockSize.CountExact | source/common/membuff.c:195-199 | for a power-of-two block size the computed number of blocks is right exactly when it fits an int and the rounding does not wrap the machine word |
| BlockSize.CountsRightIffPow2 | source/common/membuff.c:88-89 | over all requests up to 16 MB the count is right exactly for power-of-two block sizes |
| BlockSize.SmallRequestUncounted | source/common/membuff.c:195-204 | any other block size counts no block for the smallest request |
| BlockSize.HugeRequestCountsOne | source/common/membuff.c:199 | a request whose count passes the cast to int counts as one block |
| BlockSize.OddBlockSizeFallsShort | source/common/membuff.c:195-199 | 384-byte blocks: a request of 369 bytes is given one block and needs two |
| Blocks.AllocSound | source/common/membuff.c:212-237 | granting a free run keeps blocks in bounds, disjoint, covering exactly the clear bits, with the counter exact |
| Blocks.FreeSound | source/common/membuff.c:271-276 | so does giving a live block back |
| Blocks.AllocFreeRestores | source/common/membuff.c:193-286 | alloc followed by free restores all flags, the counter and the live blocks |
| BlockPool.Pool.constructor | source/common/membuff.c:128-181 | a new pool has the block size rounded to 128 bytes, at least the asked number of blocks, all free |
| BlockPool.Pool.Alloc | source/common/membuff.c:193-248 | grants the first fitting run and changes only its bits and the counter, or changes nothing; with a power-of-two block size and a request that fits the types, it is refused if and only if no run of blocks holding the header and the bytes is free, and what it grants holds them |
| BlockPool.Pool.Free | source/common/membuff.c:256-286 | gives exactly the block's bits and count back; foreign and null addresses change nothing |
| BlockPool.Pool.Inside | source/common/membuff.c:265-269 | the bounds check asks exactly whether the span of blocks lies in the pool |
| BlockPool.Pool.LiveIsInside | source/common/membuff.c:265-269 | that of a live block always does |
| BlockPool.GrantCovers | source/common/membuff.c:195-199 | with a power-of-two block size a granted block holds the header and all bytes asked for |
| PoolMachine.StepInv | source/common/membuff.c:193-286 | every step of any number of threads keeps the pool invariant: the flags are those of finished calls plus the part done by the one call past the lock |
| PoolMachine.EveryRunIsSafe | source/common/uatomic.h:166-188 | in every run owned blocks are in bounds and pairwise disjoint, at most one thread is past the spinlock, no block is in two threads' hands, and while the lock is free a bit is 1 exactly when no owned block covers it and unused_bits counts the 1 bits |
| PoolMachine.GrantIsApart | source/common/membuff.c:212-235 | a block being granted meets no owned block from the search on |
| PoolMachine.StepRefinesPool | source/common/membuff.c:235-237 | the steps refine a pool with atomic calls whose grants are first fit; the counter update is where a call takes effect |
| PoolMachine.RefusalIsRight | source/common/membuff.c:201-217 | a call turned away by the unlocked counter check or by the search is right about the pool of finished calls |
| PoolMachine.RoundMasksOneWord | source/common/ffs64.h:358-387 | one round of masking paints bits of one word only, from where the last one stopped to the end of the word or of the run |
| PoolMachine.LoneAllocCompletes | source/common/membuff.c:201-237 | whenever the lock is free and a run of n free blocks exists, an idle thread's own steps take it from the request to the least such run, cleared, counted off and handed to its caller, with the lock free again |
| PoolMachine.LoneAllocRefused | source/common/membuff.c:201-217 | whenever the lock is free and there is no such run, its own steps take it from the request to an end that has changed nothing |
| PoolMachine.LoneFreeCompletes | source/common/membuff.c:271-283 | whenever the lock is free, its own steps take it from handing in a block to the bits set, the count back and the block nobody's |
| Generations.CutIsCut | source/clogger/rollingfile.c:187-190 | cutting a stream into files by size: in order, each closed file at least maxfilesize and below it before its last message |
| Generations.CutIsUnique | source/clogger/rollingfile.c:187-190 | there is no other way to cut the stream so |
| FileNumbers.SlotRolls | source/clogger/rollingfile.c:81-122 | a roll takes over one file number and moves every other generation on by one place, in both modes |
| FileNumbers.SurvivorsAreLast | source/clogger/rollingfile.c:81-122 | by the numbers alone the surviving generations are always the last ones, one fewer than the window for a bucket that is not whole |
| RollingFile.Checked | source/common/basetype.h:338-345 | a configured limit of 0 becomes the default, -1 the maximum, any other value the nearest one in range |
| RollingFile.Rolling.constructor | source/clogger/rollingfile.c:236-246 | the size and count limits so checked, the counter at 0, nothing open |
| RollingFile.Rolling.ShiftFiles | source/clogger/rollingfile.c:98-121 | the renaming loop moves file i to i+1 for every number, whichever files exist, drops only the last, frees number 0 and touches nothing else |
| RollingFile.Rolling.RollingUpdate | source/clogger/rollingfile.c:77-123 | the next current file is new and empty, under number 0 or the next append number |
| RollingFile.Rolling.RollingApply | source/clogger/rollingfile.c:127-191 | the file the next message goes to: on a new date key a new bucket, called by the key and the suffix, if there is one (by the size policy "0" and the suffix, or the bare path), a roll at the size limit, other buckets' files untouched |
| RollingFile.Rolling.RollingWrite | source/clogger/rollingfile.c:249-264 | the bucket's stream grows by the message, or a bucket of the right name starts with it, and the files keep holding the cut of that stream |
| RollingFile.Rolling.OnDisk | source/clogger/rollingfile.c:77-123 | after any run of writes, of the files on disk: the stream is cut into files; the last min(k+1, maxfilecount) are kept whole if and only if the bucket was not opened with the append counter elsewhere, or has not rolled past the last number, or has rolled past its first generation anyway; otherwise exactly one fewer is kept, number 0 holding a later generation; on a clean directory there is nothing else; offsetbytes is the current file's length |
| RollingFile.StrayBucket | source/clogger/rollingfile.c:147-157 | a run that comes to such a bucket through a change of date, and is left with one file where two generations could be |
| RollingFile.ContentsAreSurvivors | source/clogger/rollingfile.c:77-123 | on a clean start the files hold exactly the surviving generations and nothing else, also for a bucket opened astray |
| RollingFile.ModesAgree | source/clogger/rollingfile.c:81-122 | two loggers given the same stream under the same limits, one shifting and one appending: the same generations, each kept whole in its place; on clean directories as many files with the same contents |
| Md5Stream.AbsorbWhole | source/common/md5sum.h:300-307 | absorbing blocks is independent of where whole blocks are split off |
| Md5Stream.CountedAdds | source/common/md5sum.h:293-298 | the two count words, with their carry, hold the bit count modulo 2^64 |
| Md5Stream.IndexIs | source/common/md5sum.h:291 | the buffer index is the message length modulo 64 |
| Md5Stream.GuardExact | source/common/md5sum.h:305 | the 32-bit loop guard means i + 64 <= inputlen at every position the loop comes to, if and only if the loop's end plus 64 stays below 2^32 |
| Md5Stream.ShortEnough | source/common/md5sum.h:305 | every input shorter than 2^32 - 64 bytes meets that condition |
| Md5Stream.GuardWraps | source/common/md5sum.h:305 | an input of 2^32 - 64 bytes into an empty buffer does not |
| Md5Stream.StaleBytesDependOnSplit | source/common/md5sum.h:300-314 | for every buffer, index and pair of pieces: splitting an update leaves the same whole buffer if and only if one piece completes no block or the two blocks first completed agree past the new tail |
| Md5Stream.SplitUpdate | source/common/md5sum.h:287-315 | the same of two contexts: state and count agree whatever the split, the buffers exactly under that condition |
| Md5Stream.FreshContextsDiffer | source/common/md5sum.h:276-315 | two contexts fresh from initialisation whose buffers come to differ |
| Md5Stream.Md5.constructor | source/common/md5sum.h:276-284 | an empty context at the seeded state |
| Md5Stream.OnlySeedZeroIsRfc | source/common/md5sum.h:276-284 | the initial state is that of RFC 1321 section 3.3 exactly for seed 0 |
| Md5Stream.Md5.Update | source/common/md5sum.h:287-315 | state, bit count and live buffer become those of the concatenated message; the whole new buffer, stale bytes included |
| Md5Stream.SplitIndependent | source/common/md5sum.h:287-315 | contexts given the same bytes in any pieces agree on state, count and live buffer |
| Md5Stream.PaddedWhole | source/common/md5sum.h:318-331 | the padded message is whole 64-byte blocks |
| Md5Stream.PaddingIsLeast | source/common/md5sum.h:323-324 | with no fewer zero bytes possible, RFC 1321 section 3.1 |
| Md5Stream.PaddedDecodes | source/common/md5sum.h:325-328 | the padding ends in the bit count taken before padding, so the message can be read back, RFC 1321 section 3.2 |
| Md5Stream.Md5.Done | source/common/md5sum.h:318-331 | the digest is the RFC's of all bytes given: 16 bytes, the four words of the state after the padded message in order, each low-order byte first |
| Md5Stream.BytesDigest | source/common/md5sum.h:368-375 | the one-piece form gives that digest, word by word and byte by byte |
| Md5Stream.FileDigest | source/common/md5sum.h:383-417 | so does the chunked form over a file's bytes, for every buffer size |
| CivilTime.YearLength | source/common/timeut.h:251 | the leap-year rule of the code is the one of the Gregorian day count |
| CivilTime.MonthStarts | source/common/timeut.h:258-259 | the month tables add up to the days on which the months begin, in a common and in a leap year |
| CivilTime.FindYear | source/common/timeut.h:285-295 | the year loop ends at the year the day falls in |
| CivilTime.FindMonth | source/common/timeut.h:297-314 | the month loops end at the month the day falls in and never index past December |
| CivilTime.GetLocalTime | source/common/timeut.h:243-323 | with t - tz + 3600 dst for the second, up to the year an int holds, and with the casts of the day fields to int: the fields encode t shifted by the zone and the daylight hour if and only if that second is later than -(2^31 + 2) days, and day of year and of week then belong to the date if and only if it is later than -(2^31 + 1) days; the fields are its calendar date if and only if it is not negative, and in range for just those negative seconds that WrapsIntoRange names |
| CivilTime.WrapsFarBack | source/common/timeut.h:299-317 | those lie at least 2^32 - 30 days before 1970 |
| CivilTime.FarPastLooksLikeEpoch | source/common/timeut.h:299-317 | and there are some: for the midnight 2^32 days before 1970 every field is in range, and the date is another second's |
| CivilTime.YearFitsInt | source/common/timeut.h:282-294 | the bound asked of the input is exactly that the year fits an int |
| CivilTime.RtclockLocalTime | source/common/rtclock.c:178-190 | full year and months from 1: the calendar date of the second less the zone plus the daylight hour if and only if that is not negative |
| CivilTime.DateIsUnique | source/common/timeut.h:243-323 | a second has one calendar date, so the conversion is the inverse of the encoding |
| RollingKeys.KeysFollowTime | source/clogger/clogger.c:268-305 | under every policy, for a fixed zone and years up to 9999, later seconds never print an earlier key, so file names sort by time |
| RollingKeys.NeverReturns | source/clogger/clogger.c:268-305 | a run in time order never comes back to a key it has left |
| RollingKeys.PrefixIsKey | source/clogger/rollingfile.c:131-136 | the prefix test of the current file's name against a key asks exactly whether the keys are the same, whatever the suffix |
| RollingKeys.KeyIsBucket | source/clogger/clogger.c:268-293 | from days down, two seconds have the same key if and only if they lie in the same span of 1, 5, 10, 30, 60 minutes or a day |
| RollingKeys.CoarserFollows | source/clogger/clogger.c:268-305 | any finer policy's key determines every coarser policy's |
| RollingKeys.KeyIsText | source/clogger/clogger.c:268-305 | the printed key is the fixed-width text of its numbers, and so determines them |
| RollingKeys.DecSpells | source/clogger/clogger.c:268-305 | a printed number is decimal digits, at least as many as asked for, that read back as the number |
| RollingKeys.OrderedExactlyToYear9999 | source/clogger/clogger.c:268-305 | under every policy, keys are in order over all seconds before T if and only if T is not past the year 9999 |
| RollingKeys.FiveDigitsSortFirst | source/clogger/clogger.c:268-305 | under every policy, any key of the year 10000 sorts before any key of the year 9999 |
| KeyedRun.OpeningsAre | source/clogger/rollingfile.c:131-157 | under keys that never come back to one left, the keys at which a bucket is opened are all the keys, each once |
| KeyedRun.KeptElsewhere | source/clogger/rollingfile.c:77-123 | writes to one bucket leave what is kept of another as it is |
| KeyedRun.WriteNext | source/clogger/rollingfile.c:249-264 | the next message of a run: a bucket is opened exactly when its key is not the one before, and the files of all buckets so far, left ones too, go on holding what the limits keep of exactly the messages written under their keys |
| RollingRun.TimeKeys | source/clogger/clogger.c:268-305 | keys printed in time order never come back to one left, and are of one width |
| RollingRun.LogInOrder | source/clogger/rollingfile.c:127-264 | a run of messages in time order from a new logger, over any files and under every policy: each span of time is opened as a bucket exactly once, and in the end the files of every bucket hold what the size limits keep of exactly the messages of its span, under the name made of its key and the suffix |
| Lcg.Recurrence | source/common/randctx.h:452-456 | each number is 1103515245 times the one before plus 12345, modulo 2147483647 |
| Lcg.Closed | source/common/randctx.h:452-456 | n steps of the generator are a^n * seed + c * (1 + ... + a^(n-1)) modulo m |
| Lcg.RandomSafe | source/common/randctx.h:444-457 | the step-by-step form, without leaving 64 bits, in the documented range |
| Lcg.RandomFast | source/common/randctx.h:466-496 | the logarithmic jump gives the same number for every seed and loop count, no intermediate leaving 64 bits |
| Lcg.TakeBit | source/common/randctx.h:484-487 | an odd round adds the current power of two to the steps taken |
| Lcg.Square | source/common/randctx.h:488-489 | every round doubles the power and its geometric sum |
| WideMul.Uint64Multiply | source/common/cgtypes.h:358-371 | carry * 2^64 + result is the exact product for all 64-bit operands, no partial sum leaving 64 bits |
| WideMul.ProductsEqual | source/common/cgtypes.h:385-397 | products are equal exactly when signs and magnitudes are |
| WideMul.Int64ProductEqual | source/common/cgtypes.h:375-403 | the portable branch answers true if and only if a*b = c*d over the integers |
| SlotLayout.OffsetsTellDistance | source/common/ringbuf.h:92-99 | the wrap bit and remainders of two offsets give the number of queued elements |
| SlotRing.Ring.constructor | source/common/ringbuf.h:157-172 | an empty ring of the clamped length |
| SlotRing.Ring.Push | source/common/ringbuf.h:197-234 | succeeds exactly on a free lock with a free slot, and appends; slots outside the queue stay NULL |
| SlotRing.Ring.Pop | source/common/ringbuf.h:237-275 | succeeds exactly on a free lock and a non-empty queue, and takes its head, clearing the slot |
| SlotRing.NewMempool | source/clogger/clogger.c:781-788 | every buffer of a new pool is in the ring, none was turned away |
| SlotMachine.EveryRunIsFifo | source/common/ringbuf.h:197-275 | in every interleaving of push and pop steps with stale snapshots, popped elements followed by the queue are those pushed, in order; from the slot R mod L on, the array holds the queue and then NULL, but for a head already cleared and an element about to be published |
| SlotMachine.StepRefinesQueue | source/common/ringbuf.h:197-275 | the queue that the array and the two offsets show changes only when an offset is published, by one element in at the back or the head out |
| SlotMachine.StepConserves | source/clogger/clogger.c:1120-1145 | elements in the ring and in threads' hands are conserved by every step |
| SlotMachine.PoolIsKept | source/clogger/clogger.c:1120-1145 | in every run from an empty ring that makes no more buffers than there are slots, ring and hands together hold exactly the buffers made, and no push that got the lock has been refused |
| SlotMachine.LonePopTakes | source/common/ringbuf.h:237-275 | a popper that finds the lock free runs through to the head of a non-empty queue, whatever a pusher is doing |
| SlotMachine.LonePopEmpty | source/common/ringbuf.h:237-275 | and through to nothing, with nothing changed, on an empty one |
| SlotMachine.LonePushQueues | source/common/ringbuf.h:197-234 | a pusher that finds the lock free runs through to its element queued when there is a free slot, whatever a popper is doing |
| SlotMachine.LonePushRefused | source/common/ringbuf.h:197-234 | and through to a refusal, with nothing changed, on a full ring |
| SlotMachine.PoolFills | source/clogger/clogger.c:781-788 | a run that makes and pushes as many buffers as there are slots, or fewer, ends with all of them in the ring in order |
| RegistryTables.LookupMeans | source/clogger/loggermgr.c:266-304 | 0 finds the first logger, -1 the last, a number its own, everything else none |
| RegistryTables.TablesAgree | source/clogger/loggermgr.c:244-251 | a named logger is found under its id, and slot 0 holds the number of loggers |
| Registry.Manager.LoadShared | source/clogger/loggermgr.c:144-263 | an existing name gives its logger; a new one gets the next id if there is room, it is configured and can be created; otherwise nothing changes |
| Registry.Manager.GetShared | source/clogger/loggermgr.c:266-304 | what is found under each id, in terms of the loggers made in order |
| RegistryMachine.StepInv | source/clogger/loggermgr.c:144-263 | every step of concurrent loads keeps the tables whole but for the part done by the one thread with the write lock |
| RegistryMachine.EveryRunKeepsTables | source/clogger/loggermgr.c:144-263 | in every interleaving a name has one logger whoever asks; ids are 1 to n with n at most 255, and slot 0, id table and name table agree while nobody writes |
| RegistryMachine.RunKeeps | source/clogger/loggermgr.c:178-213 | over any run no name is ever bound again, although the read lock is dropped before the write lock is taken |
| RegistryMachine.ReadersSeeWholeTables | source/clogger/loggermgr.c:266-304 | no lookup happens between two stores of an addition |
| RegistryMachine.LoneLoadFinds | source/clogger/loggermgr.c:161-177 | with the lock free, a thread's own load of a known name gives its logger and changes nothing |
| RegistryMachine.LoneLoadCreates | source/clogger/loggermgr.c:178-257 | with the lock free and fewer than 255 loggers, a thread's own load of a new name runs through to a logger of that name with the next id, in both tables |
| RegistryMachine.LoneLoadRefused | source/clogger/loggermgr.c:186-257 | with 255 loggers, or one that cannot be created, it runs through to none and has changed nothing |
| TaskPool.Pool.constructor | source/common/threadpool.c:170-176 | an empty queue of the given size |
| TaskPool.Pool.Add | source/common/threadpool.c:256-326 | the error returned, by cause; accepted exactly on success, at the back of the queue |
| TaskPool.Pool.Take | source/common/threadpool.c:425-441 | the head of the queue, or nothing and nothing changed after shutdown |
| TaskPool.Pool.Stop | source/common/threadpool.c:357-364 | shutdown is set once and for all |
| TaskPool.Pool.TailIsMod | source/common/threadpool.c:273-304 | tail = (head + count) mod queue_size, count at most queue_size |
| TaskMachine.EveryRunStartsInOrder | source/common/threadpool.c:409-445 | with any number of producers and workers: started then queued are those accepted, in order and each once, the indices agree, and while a worker sleeps every queued entry has a worker about to look (no lost wake-up) |
| TaskMachine.LookTakesHead | source/common/threadpool.c:425-441 | a worker runs a copy of the queue's head |
| TaskMachine.NothingAfterShutdown | source/common/threadpool.c:353-371 | after shutdown nothing is accepted or started, however long the run goes on |
| TaskMachine.AddCompletes | source/common/threadpool.c:256-326 | adding is always possible: accepted before shutdown with room, a sleeping worker being one that may be woken, and without effect otherwise |
| TaskMachine.LoneWorkerDrains | source/common/threadpool.c:409-445 | a worker about to look starts every queued task, in order |
| TaskMachine.AddedIsStarted | source/common/threadpool.c:256-445 | a task added while a worker sleeps or is about to look is started by it, after those queued before |
| TaskMachine.FirstTaskStarts | source/common/threadpool.c:160-445 | in a new pool the first worker starts the first task |
| TaskMachine.IdleSleeps | source/common/threadpool.c:412-417 | with nothing queued a worker goes to sleep, and a spurious wake changes nothing |
| TaskMachine.StopEndsWorkers | source/common/threadpool.c:353-430 | after a stop, each worker leaves once it has finished its task |

## Left out

- Shared-memory creation, mapping and keys, and `shmmap.h` and `shmmbuf-win.h`, which repeat the ring.
- Memory effects below sequential consistency, timeouts, back-off sleeps, fairness and processor affinity.
- A header read by a reader is one aligned 8-byte load; the state mutex around each shared offset is folded into one atomic get or set, which `RobustCell` shows it makes of them.
- The callback of a read is a function of the entry's bytes; what else it does is outside the model.
- `ringbufst_write` hands the chunk's address to a callback; the model writes the bytes of the chunk, each exactly once.
- De Bruijn tables, compiler built-ins, `first_setbit_n`, `last_setbit` and `popcount`: words are sequences of bits, so the first set bit is found by scanning.
- The statistics of the pool, `membuff_calloc`, and the limit on a pool's total size.
- File operations succeed and create, rename and remove are atomic; partial writes, missing directories and the path prefix are not modelled. File names are a base and a number, so a base ending in a dot and digits is not told apart from another base's numbered file.
- The compression of one MD5 block, the hexadecimal formats, and read errors of `md5sum_file`.
- Time-zone names, the daylight rule of the C library, and the message formats other than the rolling key.
- ISAAC, Gray codes, floating-point geometry, the regular expressions, the configuration reader and string helpers.
- The multiplication of the sign with the least 64-bit number overflows in C; `WideMul` takes it modulo 2^64.
- The mutex, readers-writer lock and condition variable are taken at their word: a critical section of the worker pool is one step, and a signal wakes at least one sleeper.
- Joining and freeing the worker pool, errors of the thread library, and the argument bytes of a queued entry past its size.
- Loading a logger's settings and creating it are a yes or a no; the name-less logger and the start-up of the registry are not modelled.
- Whether every message reaches its file: the logging thread may stop at a marker and shutdown may come before a drain.
