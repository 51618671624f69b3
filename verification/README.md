# Verified model of the content-centric network stack

This project models the algorithms and protocols of the stack in Dafny and proves what they
promise. Each part is written in the form of the C++ code it models: the objects that
change in place are classes, the loops are loops, and each method is proved against a
specification whose own properties are then proved as lemmas. Protocols between threads
and between nodes are state machines whose steps are the locked sections, the atomic
actions or the messages, and their theorems are about every run.

| files | part |
|---|---|
| `Fips180`, `Sha256`, `Sha256Stream`, `KnownDigests` | SHA-256 against FIPS 180-4: unrolled compression, padding, streaming with digests in mid-stream; known answers and the origin of the constants |
| `Arithmetic`, `LpMeaning`, `LpObjective`, `LpSolver` | the scheduling problem compiled into an integer program, and what the program means |
| `BlockResponseScheduler`, `BlockRequestScheduler` | the scheduler tick over any feasible answer, the request tables and the weights |
| `Topology`, `ContentHelper`, `ContentSteps`, `ContentRuns`, `MetadataNetwork`, `MetadataNaming`, `MetadataRounds`, `RoundFamilies` | dissemination of content metadata: one node's tables, the network they are steps of, hop counts against graph distance, convergence |
| `InterestHelper`, `InterestNetwork`, `HopWraps`, `InterestPacking` | dissemination of interests; runs in which a hop counter wraps; how an announcement is packed |
| `TaskRing`, `ThreadPoolRuns` | the thread pool's ring queue and every interleaving of its threads |
| `PriorityQueue`, `DelayQueue` | the binary heap, and the timed queue with its interrupt protocol |
| `Blocks`, `Units`, `Sequences`, `Wrappers`, `ContentCache` | shared definitions; the slot allocator and the division of contents into blocks |
| `WireFormat`, `WireRoundTrip`, `WireStreams`, `WireRecords`, `WireLayout` | the binary format, its printer and parser, and the records on the wire |
| `RwsMutex` | the spinning reader/writer lock |

Where the code departs from its documentation the model follows the code:

- `src/concurrent/threadpool.cpp:18-24` says that the capacity is rounded up to a power of
  two. It is rounded down, and `TaskRing.RoundsUpOnlyPowers` says when that is the same.
- `src/util/detail/sha256.cpp:354` speaks of 16 hexadecimal characters; there are 64.
- Hop counts are 8 bits wide. The dissemination theorems say exactly which deliveries break
  them (`MetadataNetwork.NextKeepsSound`, `InterestNetwork.NextKeepsSound`,
  `MetadataRounds.OverflowResetsHops`), and such deliveries are reached from the start
  (`HopWraps.WrapIsReachable`, `ContentRuns.Echo`, `HopWraps.InterestWrapIsReachable`,
  `RoundFamilies.OverflowHappens`).
- The publisher that a table entry names can be farther away than its hop count, because a
  nearer publisher of the same content lowers the count and not the name.
  `MetadataNaming.NextKeepsNames` says exactly which deliveries do that, and
  `MetadataNetwork.NamedPublisherCanBeFarther` and `ContentRuns.TwoPublishers` are runs
  with one.
- In `include/sma/concurrent/rwsmutex.hpp:80-82` a reader tests `ww` and increments `r` in
  two actions. `RwsMutexes.NextKeepsApart` and `RwsMutexes.OpenWindowLosesExclusion` say
  when exclusion survives that and how it is lost otherwise.
- A timed push is to notify the waiting threads when it brings a sooner deadline. It compares
  the new entry with what stands at the old top's address after the heap has changed, so it
  does not, unless the heap was empty or has moved (`DelayQueues.DelayQueue.Push`).
- A push after the last worker has left is accepted and never run
  (`ThreadPoolRuns.AllRunExactlyOnce`, `ThreadPoolRuns.LatePushIsReachable`).
- The expired part of a neighbour's utility weighs in its total until it is asked for itself
  and erased, so a neighbour's weights can add up to less than 1
  (`BlockRequestScheduler.AnswersSumToOne`).
- The time left is a 32-bit count of microseconds divided by an interval in milliseconds, so
  it is about a thousand times the intervals left (`BlockRequestScheduler.TtlCountsIntervals`,
  `BlockRequestScheduler.TtlCountsThousandths`), and only deadlines within the next 21
  thousandths of an interval get into the solver's horizon
  (`BlockRequestScheduler.TtlInHorizon`).
- `push_back` reads the size of the array before it takes the lock
  (`src/concurrent/threadpool.cpp:77-78`). `TaskRing.SharedState.PushSized` says exactly when
  a size that others have since changed still serves, and `TaskRing.StaleSizeIsReachable`
  that it need not.
- Block indices are 16 bits wide, so data of more than 65536 blocks cannot be read back
  (`ContentCaches.ContentCache.Store`), nor its missing blocks be listed
  (`ContentCaches.ContentCache.MissingBlocks`, `ContentCaches.UnknownContentWraps`).
- A block stored on its own is kept under index 0 whatever its index is, so the first one
  that arrives of a content answers for its block 0, and the real block 0 is then refused
  (`ContentCaches.ContentCache.StoreBlock`, `ContentCaches.StorePieces`).
- Storing empty data wants 2^54 slots, and the call does not return
  (`ContentCaches.ContentCache.Store`). For empty content the block count, 32 bits wide, is
  wrong except with blocks of one byte (`ContentCaches.Description.CountFits`).
- A whole block that is not the first of its content is stored anew each time it arrives;
  once there are more of them than the content has blocks, `missing_blocks` asks for a
  negative amount of room (`ContentCaches.StoreRepeatedly`).
- While an interest announcement is printed, the position moves on by the total size so far
  and not by the size of the last interest (`src/ccn/interesthelperimpl.cpp:210-211`), so
  only the first two stand in a row. `InterestPacking.ReadBackIfTwo` says that an
  announcement is sure to be read back as it was sent if and only if it holds at most two.
- The reader inverts booleans, so a beacon never survives its round trip
  (`WireRoundTrip.RoundTrip`, `WireRecords.BeaconComesBackInverted`).

Integers are unbounded except where a width matters, which is then written out: 32-bit
words, the 64-bit message length, 8-bit hop counts, 16-bit block indices, the 32-bit time
left, the machine word of the capacity test and every field on the wire. Clocks, random
delays, the solver and the choice of which thread runs are parameters or nondeterministic
choices.

## Model

| member | source | states |
|---|---|---|
| Sha256.SwapLoads | src/util/detail/sha256.cpp:51-64 | a word loaded from memory by a little-endian host and byte-swapped is the standard's big-endian word |
| Sha256.RewrittenMaj | src/util/detail/sha256.cpp:74-79 | the rewritten majority function agrees with the standard's Maj bit for bit |
| Sha256.LineIsRound | src/util/detail/sha256.cpp:106-128 | the two register updates of one unrolled line are one uniform round of the standard |
| Sha256.EightLines | src/util/detail/sha256.cpp:106-128 | eight lines with rotating register names are eight rounds, with every register back under its name |
| Sha256.Extend | src/util/detail/sha256.cpp:130-137 | extending the schedule array in place, in chunks, gives the standard's message schedule |
| Sha256.BlockRounds | src/util/detail/sha256.cpp:84-231 | all of the unrolled code computes the 64 rounds of the uniform loop over the full schedule |
| Sha256Stream.Hasher.ProcessBlock | src/util/detail/sha256.cpp:84-241 | one call applies the standard's compression function to the hash value |
| Fips180.ZeroCountIsLeast | src/util/detail/sha256.cpp:293-295 | the number of zero bytes is the least that brings the length to 448 modulo 512 bits |
| Fips180.PaddingMeans | src/util/detail/sha256.cpp:293-343 | for every length below 2^64 bits the padding is a 1 bit, zeros up to 448 modulo 512 bits, and the length in bits as a big-endian number of eight bytes |
| Sha256Stream.PaddedBytes | src/util/detail/sha256.cpp:298-310 | the bit arithmetic yields one block for at most 55 tail bytes and two for more |
| Sha256Stream.WritePadding | src/util/detail/sha256.cpp:312-343 | tail, 0x80, zeros and length fill one or two blocks that are the tail with the standard's padding |
| Sha256Stream.PaddingFromTail | src/util/detail/sha256.cpp:289-351 | padding only the buffered tail and going on from the stored hash is padding and hashing the whole message |
| Sha256Stream.Hasher.Add | src/util/detail/sha256.cpp:245-285 | any piece, through the buffer or straight from the input, extends the absorbed message by exactly its bytes |
| Sha256Stream.Hasher.ProcessBuffer | src/util/detail/sha256.cpp:289-351 | the hash value becomes that of the padded message and the buffered bytes stay |
| Sha256Stream.Hasher.GetHash | src/util/detail/sha256.cpp:392-414 | writes the digest of everything added so far and leaves the stream as it was |
| Sha256Stream.WordHexPairs | src/util/detail/sha256.cpp:371-386 | the eight shifted nibbles of a word are the digits of its four big-endian bytes |
| Sha256Stream.Hasher.GetHashHex | src/util/detail/sha256.cpp:355-390 | returns the same digest in hexadecimal and leaves the stream as it was |
| Sha256Stream.Hasher.HashOf | src/util/detail/sha256.cpp:418-432 | hashes one memory block, whatever was added before |
| Sha256Stream.HashPieces | src/util/detail/sha256.cpp:245-414 | for every split of a message into pieces, with digests asked for anywhere between, every digest is the FIPS 180-4 digest of the bytes so far |
| KnownDigests.TraceCompresses | src/util/detail/sha256.cpp:84-241 | a computation of 64 schedule words and 64 rounds, written down row by row, is the compression of its block |
| KnownDigests.AbcDigest | src/util/detail/sha256.cpp:46-414 | the digest of "abc" is ba7816bf 8f01cfea 414140de 5dae2223 b00361a3 96177a9c b410ff61 f20015ad, with every round on literal words |
| KnownDigests.LongDigest | src/util/detail/sha256.cpp:46-414 | the digest of the two-block message of 56 letters is 248d6a61 d20638b8 e5c02693 0c3e6039 a33ce459 64ff2167 f6ecedd4 19db06c1 |
| KnownDigests.CubeRoots0 | src/util/detail/sha256.cpp:111-118 | the first eight constants are the first 32 bits of the fractions of the cube roots of the primes from 2 to 19 |
| KnownDigests.CubeRoots1 | src/util/detail/sha256.cpp:121-128 | so are the constants of row 1, for the next eight primes |
| KnownDigests.CubeRoots2 | src/util/detail/sha256.cpp:138-145 | so are the constants of row 2, for the next eight primes |
| KnownDigests.CubeRoots3 | src/util/detail/sha256.cpp:155-162 | so are the constants of row 3, for the next eight primes |
| KnownDigests.CubeRoots4 | src/util/detail/sha256.cpp:172-179 | so are the constants of row 4, for the next eight primes |
| KnownDigests.CubeRoots5 | src/util/detail/sha256.cpp:189-196 | so are the constants of row 5, for the next eight primes |
| KnownDigests.CubeRoots6 | src/util/detail/sha256.cpp:206-213 | so are the constants of row 6, for the next eight primes |
| KnownDigests.CubeRoots7 | src/util/detail/sha256.cpp:223-230 | so are the constants of row 7, for the next eight primes |
| KnownDigests.SquareRoots | src/util/detail/sha256.cpp:32-40 | the initial hash value is the first 32 bits of the fractions of the square roots of the first eight primes |
| KnownDigests.HashBoth | src/util/detail/sha256.cpp:245-432 | the hasher object gives "abc" its digest in hexadecimal in mid-stream and then the longer message its own |
| LpMeaning.DecodeCol | include/sma/schedule/lpsolver.hpp:231-236 | decoding a column index by division gives back its block and time |
| LpMeaning.EncodeCol | include/sma/schedule/lpsolver.hpp:231-236 | every column index is that of the block and time it decodes to |
| LpMeaning.RowsMeanSchedule | include/sma/schedule/lpsolver.hpp:30-80 | a vector meets every row bound if and only if its schedule keeps within storage and bandwidth at every time and brings no block back |
| LpMeaning.DroppedCounts | include/sma/schedule/lpsolver.hpp:143-152 | what a bandwidth row bounds is the number of blocks that leave at that time |
| LpMeaning.CachedCounts | include/sma/schedule/lpsolver.hpp:133-139 | what a storage row bounds is the number of blocks cached at that time |
| LpMeaning.MatrixWellFormed | include/sma/schedule/lpsolver.hpp:127-178 | all triplet indices are in range and no cell is given twice |
| LpObjective.ObjectiveIsEarned | include/sma/schedule/lpsolver.hpp:89-123 | for every feasible point the objective is the utility of the pairs served: cached at 0 and, if the deadline is in the horizon, dropped by then |
| LpObjective.ObjectiveBounds | include/sma/schedule/lpsolver.hpp:89-123 | with non-negative utilities it lies between 0 and the total utility |
| LpSolver.ColumnObjective | include/sma/schedule/lpsolver.hpp:84-123 | the column loops set the coefficient of every block and time |
| LpSolver.StorageMatrix | include/sma/schedule/lpsolver.hpp:131-139 | the first loops leave the triplets of the storage rows |
| LpSolver.BandwidthMatrix | include/sma/schedule/lpsolver.hpp:141-152 | the second loops append those of the bandwidth rows |
| LpSolver.OrderMatrix | include/sma/schedule/lpsolver.hpp:165-178 | the third loops append those of the rows that keep blocks from coming back |
| LpSolver.Compile | include/sma/schedule/lpsolver.hpp:28-194 | everything handed to the solver: bounds, objective and matrix |
| LpSolver.CompiledMeansProblem | include/sma/schedule/lpsolver.hpp:28-202 | the answers to the compiled program are exactly the 0/1 schedules of the problem, valued at the utility they serve |
| LpSolver.Decode | include/sma/schedule/lpsolver.hpp:229-237 | the caller's table holds each block's variable at each time |
| BlockResponseScheduler.CachingNothingIsFeasible | include/sma/schedule/lpsolver.hpp:28-202 | every compiled program has a feasible point, so the assumption on the solver can be met |
| BlockResponseScheduler.FillTables | src/schedule/forwardschedulerimpl.cpp:202-232 | the tables hold each neighbour's utility and deadline for each numbered block |
| BlockResponseScheduler.Scheduler.NumberBlocks | src/schedule/forwardschedulerimpl.cpp:209-232 | the blocks to schedule are numbered from 0, each once |
| BlockResponseScheduler.Scheduler.GetBlockId | src/schedule/forwardschedulerimpl.cpp:293-305 | the search by number finds the block that has it |
| BlockResponseScheduler.Scheduler.Sort | src/schedule/forwardschedulerimpl.cpp:251-276 | a block is frozen just if the answer caches it now, broadcast just if it is then dropped at once, and only broadcast blocks leave |
| BlockResponseScheduler.Scheduler.Tick | src/schedule/forwardschedulerimpl.cpp:180-291 | for any feasible answer: at most 256 blocks frozen, at most 20 broadcast and all of those frozen, frozen and unfrozen partition the blocks, exactly the broadcast ones leave |
| BlockResponseScheduler.AnswerFollowed | src/schedule/forwardschedulerimpl.cpp:251-276 | the lists built by the loop hold exactly the blocks that the answer's first two times select |
| BlockResponseScheduler.Run | src/schedule/forwardschedulerimpl.cpp:175-291 | over every run the scheduler holds exactly the blocks that arrived and were not broadcast since |
| BlockResponseScheduler.NothingForgotten | src/schedule/forwardschedulerimpl.cpp:175-291 | every block that arrived is still held or was broadcast later |
| BlockRequestScheduler.Scheduler.InsertRequest | src/schedule/forwardschedulerimpl.cpp:417-464 | replaces the neighbour's descriptor for the block, prunes its expired ones and queues the request; the new descriptor is last in both, with the request's block, utility, requester and position, the neighbour that sent it, and a deadline its milliseconds from now |
| BlockRequestScheduler.InsertKeepsOnePerBlock | src/schedule/forwardschedulerimpl.cpp:443-462 | inserting keeps at most one descriptor a block |
| BlockRequestScheduler.KeptInOrder | src/schedule/forwardschedulerimpl.cpp:440-460 | an insertion leaves exactly the unexpired descriptors of other blocks, in their order |
| BlockRequestScheduler.InsertThenForward | src/schedule/forwardschedulerimpl.cpp:384-464 | a request inserted into an empty scheduler and forwarded at once goes out alone, with its own block, utility, requester and position, hop count 0 and its milliseconds in 32 bits |
| BlockRequestScheduler.InsertThenAsk | src/schedule/forwardschedulerimpl.cpp:353-464 | asked for its block, such a request is the whole of the interest up to the last moment of its milliseconds and none after that |
| BlockRequestScheduler.RunOnePerBlock | src/schedule/forwardschedulerimpl.cpp:353-464 | after every run of insertions and askings each neighbour has at most one descriptor a block |
| BlockRequestScheduler.ListHoldsNewest | src/schedule/forwardschedulerimpl.cpp:353-464 | over every run of insertions and askings a neighbour holds a descriptor if and only if some insertion put it there and none for its block came later, nor an insertion of the neighbour or an asking for its block after its deadline |
| BlockRequestScheduler.Scheduler.GetUtility | src/schedule/forwardschedulerimpl.cpp:353-382 | 0 for a block that the neighbour did not ask for, unless its utilities add up to 0, when it is no number; 0 for an expired target, which is erased; and for a live one the number that times the sum of the utilities is the target's |
| BlockRequestScheduler.WeightOfEntry | src/schedule/forwardschedulerimpl.cpp:353-382 | asking for an entry's block finds that entry, and answers 0 if it has expired and else its part of the total |
| BlockRequestScheduler.AnswersSumToOne | src/schedule/forwardschedulerimpl.cpp:353-382 | with non-negative utilities and a positive live total, asked for all its entries one after the other, in any order and with what each answer erases, a neighbour's answers add up to 1 if and only if no expired entry of positive utility is asked for after a live one of positive utility |
| BlockRequestScheduler.AnswersCanMissOne | src/schedule/forwardschedulerimpl.cpp:353-382 | a live and an expired entry of the same utility, asked for in that order, come to a half |
| BlockRequestScheduler.NoneExpiredSumToOne | src/schedule/forwardschedulerimpl.cpp:353-382 | the answers add up to 1 in any order when nothing has expired and the total is not 0 |
| BlockRequestScheduler.Scheduler.AskAll | src/schedule/forwardschedulerimpl.cpp:353-382 | the object's own calls give those answers |
| BlockRequestScheduler.AnyBlocksSumToOne | src/schedule/forwardschedulerimpl.cpp:353-382 | asked for any set of blocks that contains all that a neighbour wants, each once and with nothing expired, the answers add up to 1 |
| BlockRequestScheduler.Scheduler.AskBlocks | src/schedule/forwardschedulerimpl.cpp:353-382 | the object's own calls give those answers |
| BlockRequestScheduler.Scheduler.GetTtl | src/schedule/forwardschedulerimpl.cpp:323-351 | the source's number for the time left of the entry that is found first, or -1 for an unknown or passed deadline |
| BlockRequestScheduler.TtlCountsIntervals | src/schedule/forwardschedulerimpl.cpp:336-342 | with b the microseconds left modulo 2^32 and a the times they wrapped, that number is the whole intervals left if and only if b / interval is below the sign bit and a * 2^32 - 999 b + 1000 (b mod interval) lies between 0 and a thousand intervals; without a wrap, just if fewer microseconds are left than an interval has milliseconds |
| BlockRequestScheduler.TtlCountsThousandths | src/schedule/forwardschedulerimpl.cpp:336-342 | below 2^32 microseconds it counts thousandths of intervals if and only if the interval is longer than one millisecond or fewer than 2^31 microseconds are left |
| BlockRequestScheduler.TtlInHorizon | src/schedule/forwardschedulerimpl.cpp:336-342 | below 2^32 microseconds it lies within a horizon of h steps, the solver's being 20, if and only if fewer microseconds are left than h + 1 intervals have milliseconds |
| BlockRequestScheduler.Scheduler.ForwardRequests | src/schedule/forwardschedulerimpl.cpp:384-415 | takes at most `max` requests off the queue in order; the k-th that is passed on comes from the k-th unexpired one, with its requester and position, hop count 0 and the milliseconds left in 32 bits |
| BlockRequestScheduler.ForwardedLife | src/schedule/forwardschedulerimpl.cpp:393-403 | forwarding costs less than a millisecond of life and never adds any, if and only if 32 bits of milliseconds hold what is left |
| ContentSteps.PublishAndHear | src/ccn/contenthelperimpl.cpp:46-181 | content created at one node and announced at any later time is known to another node that receives the message, at one hop or less |
| ContentRuns.TwoPublishers | src/ccn/contenthelperimpl.cpp:46-181 | four helpers, two of which publish the same hash, in calls of `create_new`, `announce_metadata` and `receive`: the entry of a third ends up naming the publisher two links away with hop count 1 |
| ContentRuns.Echo | src/ccn/contenthelperimpl.cpp:46-181 | three helpers in the same calls, each announcement just before its entry expires: whatever the delay of a message, a helper that published nothing ends up with hop count 0 |
| ContentSteps.CreateIsStep | src/ccn/contenthelperimpl.cpp:46-71 | creating content is one step of the network that every state allows |
| ContentSteps.AnnounceIsSteps | src/ccn/contenthelperimpl.cpp:74-139 | announcing is a run of enabled drops and posts that ends in the helper's own tables, with just the message on the air |
| ContentSteps.ReceiveIsDeliveries | src/ccn/contenthelperimpl.cpp:142-154 | receiving a message is the run of its deliveries, each piece with the life that it had left when it was sent, and ends in the helper's own table |
| ContentSteps.AnnouncesInFull | src/ccn/contenthelperimpl.cpp:84-125 | with every local due and every remote fresh and interesting, the message is what a node announces in a full round |
| ContentHelpers.ContentHelper.Discover | src/ccn/contenthelperimpl.cpp:157-181 | puts an unknown hash behind the rest, or gives the first entry of a known one the least of both hop counts and leaves it and every other entry in place; reports whether the table changed |
| ContentHelpers.ContentHelper.Receive | src/ccn/contenthelperimpl.cpp:142-154 | every piece not published here counts one more link and is discovered; a table without the node's own content stays without it |
| ContentHelpers.NeverOwn | src/ccn/contenthelperimpl.cpp:144-147 | however much it is told, a node never lists content of its own as that of another, and a message of nothing else changes nothing |
| ContentHelpers.ContentHelper.Announce | src/ccn/contenthelperimpl.cpp:74-139 | posts the due locals and the unexpired interesting remotes and drops the expired; every due local comes up again after as long as it has not been asked for, but at least one second and at most one minute, and any other entry is left alone |
| ContentHelpers.AnnouncedFrom | src/ccn/contenthelperimpl.cpp:84-125 | exactly the due local entries and the interesting remote ones are posted |
| ContentHelpers.DueInOrder | src/ccn/contenthelperimpl.cpp:86-91 | each due local entry is posted once, in the order of the table |
| ContentHelpers.FreshInOrder | src/ccn/contenthelperimpl.cpp:114-125 | exactly the remote entries whose time has not come stay, in their order |
| ContentHelpers.InterestingInOrder | src/ccn/contenthelperimpl.cpp:119-123 | of those exactly the interesting ones are posted, each once and in their order |
| ContentHelpers.SecondsApart | src/ccn/contenthelperimpl.cpp:498-509 | over any number of announcements no local entry is posted twice within a second |
| ContentHelpers.WithinAMinute | src/ccn/contenthelperimpl.cpp:498-509 | an entry that was posted is posted again by the first announcement from a minute later on, if not before |
| ContentRuns.AnnounceTwice | src/ccn/contenthelperimpl.cpp:46-509 | content created at 0 and announced at two times is in the second message if and only if as much time has passed between them as before the first, within those limits |
| ContentHelpers.DiscoverKeepsOnePerHash | src/ccn/contenthelperimpl.cpp:157-181 | the remote table keeps one entry a hash |
| ContentHelpers.DiscoveredHops | src/ccn/contenthelperimpl.cpp:157-181 | discovering keeps the least hop count seen for the hash and touches no other |
| MetadataNetwork.NextKeepsSound | src/ccn/contenthelperimpl.cpp:142-181 | every step keeps all hop counts justified by distance, except exactly the deliveries in which the 8-bit counter wraps |
| MetadataNetwork.HopCountsAreDistances | src/ccn/contenthelperimpl.cpp:46-181 | in every reachable state before a wrap an entry or message with hop count h has a publisher of its hash within distance h, the named one if it is the only one |
| MetadataNaming.NextKeepsNames | src/ccn/contenthelperimpl.cpp:142-181 | every step keeps named publishers within their hop counts, except exactly the deliveries that lower an entry below its own publisher's distance or add an entry with a wrapped count |
| MetadataNaming.RunKeepsNames | src/ccn/contenthelperimpl.cpp:46-181 | named publishers are within their hop counts in every state up to the k-th if and only if none of the first k steps is such a delivery |
| MetadataNaming.NamedWithinHops | src/ccn/contenthelperimpl.cpp:46-181 | before the first such delivery an entry or message with hop count h has the publisher it names within distance h |
| MetadataNaming.SamePublisherIsSafe | src/ccn/contenthelperimpl.cpp:159-166 | hearing of the publisher that the entry names is never such a delivery, short of a wrap |
| MetadataNaming.StoryEndsBadly | src/ccn/contenthelperimpl.cpp:159-166 | the last step of the run with two publishers is such a delivery, and no earlier one |
| MetadataNetwork.NamedPublisherCanBeFarther | src/ccn/contenthelperimpl.cpp:159-166 | a run in which two nodes publish a hash and an entry names the farther one with the nearer one's hop count |
| MetadataRounds.ReceivedAllLeast | src/ccn/contenthelperimpl.cpp:142-181 | hearing a whole inbox, in any order, leaves the least of the old and the heard hop counts |
| MetadataRounds.ConvergesToDistance | src/ccn/contenthelperimpl.cpp:74-181 | with any set of publishers, after k full rounds, for k up to 255 or for any k when no overflow can happen, a node within distance k of the nearest one holds exactly one entry, with that distance as its hop count and the name of such a publisher, and farther nodes hold none |
| MetadataRounds.OverflowResetsHops | src/ccn/contenthelperimpl.cpp:149-152 | round 256 gives hop count 0 to every non-publisher that hears a node 255 links away, so the bound on rounds is sharp |
| MetadataRounds.OnePublisherOverflow | src/ccn/contenthelperimpl.cpp:142-154 | with one publisher a node that hears another 255 links away is the only way to overflow; with several, a publisher that hears of another one over 254 links is a second |
| RoundFamilies.RoundExists | src/ccn/contenthelperimpl.cpp:74-181 | every state has a next full round |
| RoundFamilies.OverflowHappens | src/ccn/contenthelperimpl.cpp:149-152 | 256 rounds on a line of 257 nodes give the last node hop count 0 |
| HopWraps.WrapIsReachable | src/ccn/contenthelperimpl.cpp:115-152 | on three nodes a run from the start, in which every copy is announced just before it expires, ends with the first delivery that wraps, after which hop counts are not sound |
| InterestHelpers.Interest.UpdateIsMeet | include/sma/ccn/interest.hpp:54-73 | updating takes the lower hop count and the longer lifetime, whichever side is held, and doing it again changes nothing |
| InterestHelpers.InterestHelper.LearnRemote | src/ccn/interesthelperimpl.cpp:133-152 | an unknown type comes first; of a known one the lower hop count and the longer life are kept, at the front if that changes anything; the interests in other types stay in their order, one entry a type |
| InterestHelpers.InterestHelper.Receive | src/ccn/interesthelperimpl.cpp:41-54 | every interest heard counts one more link and is learned; every interest known before is still known at no more hops and with no less life, and unchanged if its type was not heard |
| InterestHelpers.InterestHelper.CreateLocal | src/ccn/interesthelperimpl.cpp:56-78 | an existing local interest stays; otherwise the new one comes first, with 60000 ms and hop count 0, and the interests in other types follow in their order |
| InterestHelpers.InterestHelper.ClearLocal | src/ccn/interesthelperimpl.cpp:86-94 | exactly the local interests go, the others keep their order |
| InterestHelpers.ClearedInOrder | src/ccn/interesthelperimpl.cpp:86-94 | exactly the remote interests stay, in their order |
| InterestHelpers.InterestHelper.ContainsAny | src/ccn/interesthelperimpl.cpp:162-170 | true if and only if some known interest has one of the types |
| InterestHelpers.LearnKeepsOnePerKind | src/ccn/interesthelperimpl.cpp:133-152 | learning keeps one entry a type |
| InterestHelpers.LocalKeepsOnePerKind | src/ccn/interesthelperimpl.cpp:56-78 | creating keeps one entry a type |
| InterestHelpers.ClearKeepsOnePerKind | src/ccn/interesthelperimpl.cpp:86-94 | clearing keeps exactly the remote entries and one a type |
| InterestPacking.Announce | src/ccn/interesthelperimpl.cpp:192-234 | drops the expired interests at the front, prints the live ones where the code does and puts them at the back, until 1024 bytes are full or the next does not fit; what is sent is exactly the entries visited that have life left, in their order; fails just when one is over the string limit or would lie outside the buffer |
| InterestPacking.Receive | src/ccn/interesthelperimpl.cpp:43-47 | reads as many interest records as the announcement says, one after the other |
| InterestPacking.RowReadBack | src/ccn/interesthelperimpl.cpp:43-47 | interests printed one after the other are read back as they were, and their values stand for no others |
| InterestPacking.ReadBackIfTwo | src/ccn/interesthelperimpl.cpp:187-214 | every announcement of a given list of live interests, whatever its buffer held before, is read back as that list if and only if there are at most two |
| InterestPacking.AnnounceAndHear | src/ccn/interesthelperimpl.cpp:41-235 | announcing and reading gives exactly the first live interests of the table if at most two are sent, and something else if more are sent from a buffer of zeros |
| InterestNetwork.NextKeepsSound | src/ccn/interesthelperimpl.cpp:41-152 | every step keeps interest hop counts justified, except exactly the deliveries that wrap to 0 at a node that never created the interest |
| InterestNetwork.HopCountsAreDistances | src/ccn/interesthelperimpl.cpp:41-94 | in every reachable state before a wrap an entry or announcement with hop count h stems from a creator within distance h, and hop count 0 from the node itself |
| InterestNetwork.KnownStays | src/ccn/interesthelperimpl.cpp:41-238 | a type that a node knows stays known over a step if and only if the step does not let its interest expire or clear it as the node's own |
| InterestNetwork.KnownUntilForgotten | src/ccn/interesthelperimpl.cpp:41-238 | over every run, wraps or not, a type once known stays known up to the first such step |
| HopWraps.InterestWrapIsReachable | src/ccn/interesthelperimpl.cpp:49-53 | on three nodes a run from the start, in which remote interests are announced with the last of their life, ends with a node taking another's interest for its own |
| TaskRing.RoundCapacity | src/concurrent/threadpool.cpp:15-24 | 0 becomes 16, and any other capacity the largest power of two not above it |
| TaskRing.RoundsUpOnlyPowers | src/concurrent/threadpool.cpp:18-24 | the code agrees with the documented rounding up exactly on powers of two |
| TaskRing.BitTest | src/concurrent/threadpool.cpp:19 | the bitwise test on a 64-bit word succeeds exactly for powers of two |
| TaskRing.RingMove | include/sma/concurrent/threadpool.hpp:66-76 | copies the ring, around its end, to the front of the new array in order |
| TaskRing.SharedState.PushSized | src/concurrent/threadpool.cpp:77-90 | with the size that was read before the lock, the task is appended and the indices stay right if and only if the size equals the count or wraps the write index where the array does |
| TaskRing.StaleSizeIsReachable | src/concurrent/threadpool.cpp:77-90 | a pool whose size was read as 1 gets into a state in which that does not hold |
| TaskRing.SharedState.PushBack | src/concurrent/threadpool.cpp:74-91 | with the current size, appends to the first-in first-out queue across wrap-around and doubling, and keeps all index invariants |
| TaskRing.SharedState.Resize | src/concurrent/threadpool.cpp:95-103 | keeps the queue and puts its head at index 0 |
| TaskRing.SharedState.Take | src/concurrent/threadpool.cpp:53-62 | removes the head across wrap-around and shrinking, and keeps all index invariants |
| TaskRing.SharedState.IndicesAgree | include/sma/concurrent/threadpool.hpp:36-41 | p is (t + count) modulo the array's size |
| TaskRing.Run | src/concurrent/threadpool.cpp:43-103 | every run of pushes and takes hands out the tasks of a plain first-in first-out queue |
| ThreadPoolRuns.EveryTaskAccountedFor | src/concurrent/threadpool.cpp:43-93 | over every interleaving the pushed tasks are exactly those queued, running or done, and they start in push order |
| ThreadPoolRuns.AllRunExactlyOnce | src/concurrent/threadpool.cpp:43-119 | when all workers have left, every task has run exactly as often as pushed if and only if no outside push came after that |
| ThreadPoolRuns.JoinRunsEverything | src/concurrent/threadpool.cpp:105-119 | outside pushes that end before `join` are all run, with the tasks that tasks push |
| ThreadPoolRuns.LatePushIsReachable | src/concurrent/threadpool.cpp:69-93 | a run in which a task pushed after the last worker left is never run |
| PriorityQueues.PriorityQueue.Push | include/sma/collect/priority_queue.hpp:27-38 | keeps the heap order and adds exactly the element |
| PriorityQueues.PriorityQueue.Pop | include/sma/collect/priority_queue.hpp:45-75 | returns an element none is better than, removes exactly it and keeps the heap order |
| PriorityQueues.PriorityQueue.SiftDown | include/sma/collect/priority_queue.hpp:58-73 | turns a heap that is broken only at its root into a heap of the same elements |
| PriorityQueues.RootIsBest | include/sma/collect/priority_queue.hpp:40-43 | no element of a heap is better than its first |
| PriorityQueues.SiftUpStep | include/sma/collect/priority_queue.hpp:33-37 | swapping with a worse parent moves the one broken edge up |
| PriorityQueues.SiftDownStep | include/sma/collect/priority_queue.hpp:60-72 | swapping with the best child moves the broken edges down |
| PriorityQueues.Run | include/sma/collect/priority_queue.hpp:27-75 | over every run each pop returns a held element none is better than, and nothing is lost or invented |
| PriorityQueues.Drain | include/sma/collect/priority_queue.hpp:45-75 | draining yields a sorted permutation of what was held |
| PriorityQueues.SortThrough | include/sma/collect/priority_queue.hpp:27-75 | pushing everything and draining sorts |
| DelayQueues.DelayQueue.Push | include/sma/collect/delay_queue.hpp:197-206 | adds the entry with its deadline; waiting threads are notified if and only if the queue was empty or the heap has moved and the entry is sooner than what is left at the old top's address |
| DelayQueues.DelayQueue.Interrupt | include/sma/collect/delay_queue.hpp:175-182 | raises the flag just if some thread waits |
| DelayQueues.DelayQueue.TryPop | include/sma/collect/delay_queue.hpp:133-161 | one pass of the loop over the heap is one attempt: throw and settle the flag, return an earliest expired entry, or wait |
| DelayQueues.DelayQueue.Resume | include/sma/collect/delay_queue.hpp:142-151 | a thread whose wait ends is no longer counted and attempts again |
| DelayQueues.NextKeepsInv | include/sma/collect/delay_queue.hpp:133-182 | every step keeps the waiting count exact and, while interrupted, the waiting threads those the interrupt found |
| DelayQueues.EntriesConserved | include/sma/collect/delay_queue.hpp:133-206 | over every run with spurious wake-ups nothing is lost or returned twice, and a pending interrupt has a waiting thread |
| DelayQueues.ReturnsEarliestExpired | include/sma/collect/delay_queue.hpp:147-157 | a pop returns an expired held entry with the earliest deadline and removes only it |
| DelayQueues.InterruptReachesEveryWaiter | include/sma/collect/delay_queue.hpp:137-182 | every thread found waiting throws when it next runs, and until then no thread gets an entry |
| ContentCaches.ContentCache.GrowToFit | src/ccn/contentcache.cpp:58-70 | adds just the missing slots and their indices to the free list |
| ContentCaches.TakePartition | src/ccn/contentcache.cpp:126-132 | moving indices from the free to the occupied list keeps the two a partition of the slots |
| ContentCaches.ContentCache.ReserveSlots | src/ccn/contentcache.cpp:120-135 | hands out that many new slots and keeps the partition |
| ContentCaches.ContentCache.SlotsNotShared | src/ccn/contentcache.cpp:120-135 | different contents never share a slot, and no slot in use is free |
| ContentCaches.ContentCache.Store | src/ccn/contentcache.cpp:154-195 | new data reads back under its indices if and only if it has at most 65536 blocks; known data is left alone; empty data, and known data with another number of slots, does not return; every earlier content keeps its slots unchanged |
| ContentCaches.ReadBackPieces | src/ccn/contentcache.cpp:175-183 | slots that hold the pieces of the data read back as the data, block by block |
| ContentCaches.SameReadBack | src/ccn/contentcache.cpp:222-234 | a content whose slots did not change reads back unchanged |
| ContentCaches.ContentCache.Find | src/ccn/contentcache.cpp:222-234 | the first slot of the content's list with the asked index, or none |
| ContentCaches.ContentCache.StoreBlock | src/ccn/contentcache.cpp:198-219 | a single block is refused if its index is taken; otherwise it is stored, but found under its own index if and only if that is 0 |
| ContentCaches.StorePieces | src/ccn/contentcache.cpp:198-219 | over every run of single-block stores a block is refused just if its index is 0 and some block of its content came before, and the first slot of each content holds the block that came first |
| ContentCaches.FirstIsFound | src/ccn/contentcache.cpp:222-234 | after such a run the block that came first answers for block 0 and no other index is found |
| ContentCaches.ContentCache.ValidateData | src/ccn/contentcache.cpp:240-258 | accepts a hash that is known with as many slots as its metadata counts blocks and of that total size, refuses an unknown one or another number of slots, and fails on another total or on a known hash with block size 0 |
| ContentCaches.StoredSizesAddUp | src/ccn/contentcache.cpp:252-255 | the slots of stored data have the data's size in total, so the assertion holds for it |
| ContentCaches.StoreThenQuery | src/ccn/contentcache.cpp:154-285 | data that was just stored is valid and nothing of it is missing |
| ContentCaches.ContentCache.MissingBlocks | src/ccn/contentcache.cpp:261-285 | fails if and only if the block size is 0, a complete slot has an index from the block count on, or there are more complete slots than blocks; otherwise lists the indices below the count without a complete slot, in order and cut to 16 bits, which is the strictly increasing list of the missing ones if and only if there are at most 65536 blocks |
| ContentCaches.Description.CountFits | include/sma/ccn/contentmetadata.hpp:102 | the block count in 32 bits is the least number of blocks that hold the data if and only if there is data or blocks are one byte long |
| ContentCaches.StoreRepeatedly | src/ccn/contentcache.cpp:198-285 | storing a whole block other than the first k times makes `missing_blocks` return if and only if k is no more than the number of blocks |
| ContentCaches.StorePart | src/ccn/contentcache.cpp:198-285 | a first block of which only a part came is missing until all of it came, and counts with the bytes that came: the data is refused unless it is the only block, accepted when the bytes are all of the data, and else the assertion fails |
| ContentCaches.UnknownContentWraps | src/ccn/contentcache.cpp:278-282 | for unknown content of 65537 blocks the list starts with 0 and ends with 0 |
| ContentCaches.CountDecides | src/ccn/contentcache.cpp:246-250 | with complete slots of distinct indices in range, there are as many slots as blocks if and only if no block is missing |
| ContentCaches.QueriesAgree | src/ccn/contentcache.cpp:240-285 | under that condition the data is refused if and only if a block is missing |
| ContentCaches.StoredIsSound | src/ccn/contentcache.cpp:154-195 | storing whole data leaves that condition behind |
| ContentCaches.StoreAll | src/ccn/contentcache.cpp:154-234 | contents of different digests stored one after the other all read back unchanged |
| WireFormat.FlipsFlags | src/util/binaryinput.cpp:34-39 | inverting the flags of a value leaves it alone if and only if it has none |
| WireFormat.BytesOfNumber | src/util/binaryoutput.cpp:80-109 | the bytes of a number that fits its width, joined, give the number |
| WireFormat.NumberOfBytes | src/util/binaryinput.cpp:99-126 | joining bytes and writing the result gives the bytes |
| WireRoundTrip.ReadsBack | src/util/binaryinput.cpp:41-152 | decoding an encoding followed by any bytes gives the value with its booleans inverted and exactly those bytes, for all widths, strings, vectors and nested records |
| WireRoundTrip.RoundTrip | src/util/binaryoutput.cpp:38-134 | the very value comes back if and only if it holds no boolean |
| WireRoundTrip.Unambiguous | src/util/binaryoutput.cpp:38-134 | no two values of a type share an encoding, even with bytes after it |
| WireRoundTrip.DecodeExtends | src/util/binaryinput.cpp:41-152 | what is read does not depend on the bytes after it |
| WireRoundTrip.TruncatedFails | src/util/binaryinput.cpp:24-32 | every proper prefix of an encoding fails the parser's length assertion |
| WireRoundTrip.Reprint | src/util/binaryinput.cpp:41-152 | whatever is parsed can be printed, and gives the same bytes if and only if it holds no boolean and every string header among the bytes is the printer's own choice |
| WireStreams.BinaryOutput.Write | src/util/binaryoutput.cpp:28-36 | appends the bytes if they fit, writes nothing otherwise, and touches nothing behind them |
| WireStreams.BinaryOutput.PutU64 | src/util/binaryoutput.cpp:98-109 | the eight shifted and masked bytes are the number's big-endian bytes |
| WireStreams.BinaryOutput.PutText | src/util/binaryoutput.cpp:45-62 | below 127 the size in one byte, from there to 32767 in two, 128 more than the high byte and the low byte, and then the text; stops just when too long or not fitting |
| WireStreams.BinaryOutput.Put | include/sma/util/binaryoutput.hpp:36-41 | for every type: stops exactly when a value is over a limit or does not fit, and otherwise appends its encoding |
| WireStreams.BinaryOutput.PutVector | include/sma/util/binaryoutput.hpp:43-51 | the count in one byte and then every element, at most 255 of them |
| WireStreams.BinaryInput.GetU64 | src/util/binaryinput.cpp:118-126 | joins eight bytes into the number they spell, or fails if fewer are left |
| WireStreams.BinaryInput.GetTextSize | src/util/binaryinput.cpp:56-62 | a first byte with its high bit set is the high part of a two-byte size |
| WireStreams.BinaryInput.Get | include/sma/util/reader.hpp:47-68 | for every type: gives the decoded value and stands behind it, or fails just when the decoding does |
| WireStreams.BinaryInput.Fill | include/sma/util/reader.hpp:91-101 | reads the count and then that many elements in order |
| WireStreams.ThereAndBack | include/sma/util/serial.hpp:64-77 | printed into a buffer and parsed from it, a value comes back with its booleans inverted |
| WireRecords.HeaderSurvives | include/sma/messageheader.hpp:11-16 | a message header survives if and only if it has at most 255 recipients |
| WireRecords.RequestSurvives | include/sma/ccn/blockrequestargs.hpp:17-24 | a block request, with all six fields of each entry, survives if and only if it has at most 255 entries |
| WireRecords.ContentAnnSurvives | include/sma/ccn/contentmetadata.hpp:66-100 | a content announcement survives if and only if its record, type and string counts are within the printer's limits |
| WireRecords.LifeIsKept | include/sma/ccn/contentmetadata.hpp:76-99 | the receiver grants the life that was left, to the millisecond, if and only if 32 bits of milliseconds hold it, so the deadline moves by the time under way |
| WireRecords.BulkDataSurvives | include/sma/ccn/blockresponse.hpp:45-56 | a block response and an interest announcement always survive |
| WireRecords.BeaconComesBackInverted | include/sma/beacon.hpp:9-22 | a beacon is read back with its position and the opposite flag |
| WireLayout.HeaderLayout | include/sma/messageheader.hpp:11-16 | the bytes of a header: the sender in two, the number of recipients in one, and the recipients |
| WireLayout.RequestLayout | include/sma/ccn/blockrequestargs.hpp:17-62 | the bytes of a block request: for each entry hash, index, utility, time to live, requester, position and hops |
| WireLayout.ResponseLayout | include/sma/ccn/blockresponse.hpp:45-56 | the bytes of a block response: the block, the size in four bytes, and the data |
| WireLayout.InterestAnnLayout | include/sma/ccn/interestann.hpp:47-60 | the bytes of an interest announcement: the count in one, the size in two, and the data |
| WireLayout.InterestLayout | include/sma/ccn/interest.hpp:23-39 | the bytes of an interest: the type as text, the life in four and the hops |
| WireLayout.ContentAnnLayout | include/sma/ccn/contentmetadata.hpp:70-100 | the bytes of a content announcement, field by field for each record |
| WireLayout.BeaconLayout | include/sma/beacon.hpp:9-22 | the bytes of a beacon: the position and 1 for a response or 0 |
| WireLayout.SignedLayout | src/util/binaryoutput.cpp:111-134 | signed numbers are printed in two's complement |
| RwsMutexes.NextKeepsCounters | include/sma/concurrent/rwsmutex.hpp:18-93 | after every atomic action `ww`, `w`, `r` and `f` count the threads in the matching stages |
| RwsMutexes.RunKeepsCounters | include/sma/concurrent/rwsmutex.hpp:18-93 | and so in every reachable state |
| RwsMutexes.OneWriter | include/sma/concurrent/rwsmutex.hpp:41-54 | at most one writer is in its critical section, for any number of threads and any interleaving |
| RwsMutexes.NextKeepsApart | include/sma/concurrent/rwsmutex.hpp:18-93 | every step keeps readers and writers apart, except exactly a late increment of `r` while a writer stands between its test of `r` and its increment of `w` |
| RwsMutexes.RunKeepsApart | include/sma/concurrent/rwsmutex.hpp:18-93 | over every run of the code without such a step no reader reads while a writer writes |
| RwsMutexes.AtomicAdmissionExcludes | include/sma/concurrent/rwsmutex.hpp:77-86 | with the reader's test and increment as one step, exclusion holds over every run |
| RwsMutexes.OpenWindowLosesExclusion | include/sma/concurrent/rwsmutex.hpp:29-33 | from every state with such a window open the lock can reach a reader reading while a writer writes |
| RwsMutexes.WindowIsReachable | include/sma/concurrent/rwsmutex.hpp:77-86 | two threads reach that state from the start in three steps |

## Left out

- The integer solver itself: its answer is assumed feasible and exactly 0/1, and nothing is
  said about its optimality. The case of no answer is not modelled.
- Floating point: utilities are real numbers, a quotient by zero is "not a number" and its
  spread through later sums is not modelled. On the wire floats are their bit patterns.
- BlockRequestScheduler.Scheduler.GetTtl: an interval of 0, by which the source divides, is
  excluded.
- BlockRequestScheduler.Scheduler.ForwardRequests: the two local flags of a request, which
  stay at their default, are not part of this model.
- BlockResponseScheduler.Scheduler.Tick: the answers of the request tables during one tick
  are one function of neighbour and block; that asking may also erase an expired entry is
  stated at `BlockRequestScheduler.Scheduler.GetUtility`.
- `InterestScheduler::sched`, neighbour discovery and the forwarding glue around the
  schedulers.
- ContentSteps.CreateIsStep: size, name, position, publication time and the call into the
  cache are not part of this model. Entries may be dropped at any time, whatever their
  lifetimes.
- ContentHelpers.ContentHelper.Discover: events and automatic fetching, pending requests,
  block requests and broadcasts are not part of this model; they do not change hop counts.
- InterestPacking.Announce: the `to_announce` counter, the spreading of announcements over
  time and the transient expiry time of an interest are not part of this model; the table is
  given with the life that its entries have left. In `InterestNetwork` an announcement is
  any entry of the table with any remaining life. What a record printed outside the buffer
  may overwrite is not part of this model; it is a failure.
- Messages are heard late, repeatedly or never, but not altered; nodes do not move.
- TaskRing.SharedState.PushBack: the runs and the pool's interleavings take the reading of
  the size and the locked part as one step; `TaskRing.SharedState.PushSized` says what a
  size read earlier does.
- TaskRing.RoundCapacity: the `int` overflow of `1 << sh` is not modelled.
- ThreadPoolRuns.AllRunExactlyOnce: the `stop` flag, the destructor, exceptions thrown by
  tasks, and the condition variable's notifications are not part of this model; a waiting
  worker is one that takes no step. Whether the workers ever leave is not claimed.
- DelayQueues.DelayQueue.Push: what stands at the old top's address once the heap has moved is
  a parameter, and notifications lead to arbitrary wake-ups. The clock is one value a step.
- RwsMutexes.OneWriter: the locks' `stage` and `locked` fields, which only serve exceptions
  during construction, are not modelled; the lock is a state machine over its atomic
  actions, not an object. Spinning is taking no step; that a spinning thread gets in
  eventually is not claimed.
- ContentCaches.ContentCache.Store: a failed assertion and the exception that a vector of
  2^54 slots causes are both `None`; running out of memory is not modelled. Freezing of
  slots is not part of this model.
- ContentCaches.ContentCache.MissingBlocks: division by zero, a write outside the table and
  the exception for a negative amount of room are all `None`; what a write outside the table
  may overwrite is not part of this model.
- Eviction in a bounded cache, and `promote`.
- Sha256Stream.WritePadding: the source's branch for a full buffer is never taken, because a
  full buffer is flushed by `add`; it is left out.
- WireStreams.BinaryOutput.Put: a failed assertion ends the program there; here it is a
  failure result, and what a failed composite value has already written is only known to
  extend the earlier contents. Bits are shifted and joined as sums of powers of 256.
- WireRecords.ContentAnnSurvives: the remaining lifetime is a field here; what the clocks on
  both sides make of it is `WireRecords.LifeIsKept`.
- `RingBuffer`, `CircularBuffer`, `Event`, `SinkSet`, statistics and logging: they would
  only add easy members. Sockets, simulation, positions and build scripts are input and
  output. The older duplicates of the thread pool and the schedulers are not modelled.
