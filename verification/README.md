# Verified model of another-c-library

This project models the algorithmic core of another-c-library in Dafny and proves what its callers rely on. `dafny verify dfyconfig.toml` checks all of it.

Seven parts of the library are modelled. They share only small modules (`Bytes`, `Slices`, `Options`, `MinHeap`).

**LZ4 blocks** (`Lz4*.dfy`). The compressor with its hash table and the decoder with its chunked copies work on arrays. `Lz4Format` describes what a block is: sequences that expand to the data and keep the end-of-block limits of the LZ4 Block Format. The compressor is shown to emit such sequences whatever its table holds, the decoder to refine a recursive decoder, and the two to meet in a round trip and a size bound. `Lz4Sound` says exactly which blocks the decoder accepts: those that are written, to the last byte, from sequences and last literals that its checks let pass. `Lz4Frame` adds the raw fallback, the size word and the checksum of `ac_lz4.c`.

The decoder's shortcut for short sequences looks at less than the block format asks for: it accepts a match that ends inside the last five bytes of the output, and literals that end within three bytes of the end of the input. The recursive decoder describes exactly this. An offset of 0 is accepted and yields zero bytes. The bound of `LZ4_compressBound` leaves 14 of its 16 spare bytes unused in every case. `ac_lz4_compress_block` writes a size of 0 when LZ4 has too little room, and such a block cannot be read. Equal bytes always compress to ten bytes and those of their length. With n + 1 + (n + 240) / 255 bytes of room for n bytes of data this never happens; with less it happens to all data in which no four bytes occur twice.

**The task scheduler** (`Schedule*.dfy`). `Scheduler` is the mutable schedule: lists for each partition, flags and counters, and the recursive completion cascade. `ScheduleSystem` puts threads around it, one step for each critical section, and follows whole runs, also those in which workers fail: safety, no lost wakeup, no deadlock, completion. `ScheduleCycles` shows that a graph either has a rank or partitions that wait for one another, and that those keep the schedule from ending. `ScheduleStale` follows the acknowledgement times through a run, and says exactly when a partition executes.

A partition should run again when something it depends on did. This is false of the code in two cases. A task that does nothing passes on only the time of the last dependency that triggered it; and a partition that waits for partition 0 of a task with one partition, because its own number is missing there, does not look at it. `ScheduleLoss` and `ScheduleCalm`, which builds a whole run for an order, give the exact condition on every graph without cycles: one partition can execute and another finish without executing if and only if some order of completion has a set of partitions, the second in it and the first not, that look only at each other (or, doing nothing, are triggered from inside the set). `ScheduleOrder` makes such orders, and `ScheduleCarried` reads the condition off the graph: where every do-nothing partition depends on a single partition, the second always follows the first if and only if a path of dependencies that are looked at leads there; behind a do-nothing partition with a second dependency that may come last it need not follow.

**Search** (`SearchCursor`, `SearchQuery`, `Phrases`, `PhraseCursor`, `Tokens`, `BitSet`, `BitSetCursor`, `PostingCodec`, `PostingReader`). Cursors over postings are combined by AND and OR. `advance_to` of an OR may reach an id below the one that was asked for; AND is right all the same, and its restart loop ends. A term cursor that is moved by `advance_to` before it was ever advanced hands the id it reached out once more. Expressions are rewritten from token lists to trees without a change of meaning; what stands behind a NOT is not rewritten, so without ORs in it it must hold no NOT, and this condition is exact. Bit sets are sets, and postings read back as they were packed. A copy of a bit set has no mask, so inverting it gives the complement only if all ids of its last word below the size are members.

**JSON** (`Json*.dfy`). `JsonGrammar` is a recursive reader without state; the goto machine of `ac_json_parse`, which overwrites its text, is shown to compute the same tree or the same error position for every text. Printing leaves out `null`, because its type number lies below the numbers of the types that are printed as text, and a bare binary value is refused for want of a byte behind it; in all other cases parsing what was printed gives the tree back, and so does parsing it with any blanks around its parts (`JsonSpaced`). Whatever is accepted is a text of the tree that comes out (`JsonSound`); one comma may be left over at the end of an array or object, and anything may stand between a key and its colon. A closing bracket as the first character that is not space makes the parser follow a missing array; the model calls this outcome `Unopened`, and no other text has it. The decoder of escapes reads past its string exactly when, counting escapes as two characters and those with a `u` as six, one with a `u` goes beyond the end. The parser reads the byte behind the text, so texts carry their NUL.

**External sort** (`Records`, `RecordsIn`, `MergeIn`, `ExternalSort`). A buffer filled from both ends, spilled files, and the merge through a heap. Records are ordered by an integer key: any order on the records of one run can be written that way.

**Buffered files** (`Buffered`). Writing and reading through buffers of any size, with the zero byte that is lent to the caller and taken back. Records that end with a delimiter come back exactly if none of them contains it and the reader can come upon it: it steps over quotes before it looks for the delimiter, and compares plain characters, so a quote is never found, nor a byte from 128 on where `char` is signed.

**CSV** (`Csv`). Encoding of fields and the in-place splitter, which can split a line exactly if its quotes are even in number.

## Model

| member | source | states |
|---|---|---|
| `Lz4Copy.CopyMatch` | src/ac-io/lz4/lz4.c:2012-2058 | the chunked copy (eight bytes at a time, with the table steps for offsets 0 to 7, the safeguard near the end and the byte loop) leaves exactly what byte-by-byte overlapping copying of that offset and length would leave, succeeds iff the match ends at least 5 bytes before the capacity, and touches nothing from the capacity on |
| `Lz4Copy.FinishMatch` | src/ac-io/lz4/lz4.c:2043-2058 | after the first eight bytes the rest of the match may be copied at any wider offset of at least eight |
| `Lz4Copy.FirstFourBytes` | src/ac-io/lz4/lz4.c:2030-2035 | the first four single-byte copies of a small offset; offset 0 yields four zero bytes |
| `Lz4Copy.WildCopyWithin` | src/ac-io/lz4/lz4.c:361-373 | copying eight bytes at a time inside the output is overlapping copying for every offset of at least eight, and stays below the bound |
| `Lz4Copy.WildCopyFrom` | src/ac-io/lz4/lz4.c:361-373 | copying eight bytes at a time from the input appends the input bytes and stays below the bound |
| `Lz4Copy.CopyBlock` | src/ac-io/lz4/lz4.c:2040-2055 | a memcpy no longer than its offset is overlapping copying |
| `Lz4Copy.WideOffsetIsMultiple` | src/ac-io/lz4/lz4.c:372-373 | both steps of inc32table and dec64table turn every offset from 1 to 7 into one of its multiples, of at least 4 and at least 8 |
| `Lz4Copy.WiderPeriod` | src/ac-io/lz4/lz4.c:2036-2038 | once a full period has been written, copying from a multiple of the offset is the same as copying from the offset |
| `Lz4Copy.CopyContinues` | src/ac-io/lz4/lz4.c:2036-2058 | a match copied in part at its offset may be continued at a multiple of it |
| `Lz4Copy.PeriodicIsMatchCopy` | src/ac-io/lz4/lz4.c:2012-2058 | bytes that repeat with the period of the offset are the overlapping copy; the converse of MatchCopyAt |
| `Lz4Format.MatchCopyAt` | src/ac-io/lz4/lz4.c:2053-2053 | every byte of an overlapping copy equals the byte one offset before it |
| `Lz4Format.MatchCopyCompose` | src/ac-io/lz4/lz4.c:2043-2058 | copying m bytes and then n more is copying m + n bytes |
| `Lz4Format.MatchCopyPrefix` | src/ac-io/lz4/lz4.c:1881-1886 | a longer copy starts with every shorter one, which is why over-copying is harmless |
| `Lz4Format.MatchCopyBlock` | src/ac-io/lz4/lz4.c:1881-1886 | a copy no longer than its offset is a plain block copy |
| `Lz4Decompress.ReadVariableLength` | src/ac-io/lz4/lz4.c:1629-1649 | the loop over 255s sums to the same length, stops at the same place and reports the same limit as the recursive reading |
| `Lz4Decompress.DecompressSafe` | src/ac-io/lz4/lz4.c:1848-2072 | for every input and capacity the in-place decoder returns a negative code iff the recursive decoder calls the input malformed, else the decoded bytes and their number, and never writes from the capacity on |
| `Lz4Decompress.LiteralStep` | src/ac-io/lz4/lz4.c:1849-1964 | one token and its literals, with the 16-byte shortcut: same outcome as one step of the recursive decoder |
| `Lz4Decompress.MatchStep` | src/ac-io/lz4/lz4.c:1969-2058 | one offset and match, short or long: same outcome as one step of the recursive decoder |
| `Lz4Decompress.ShortcutMatch` | src/ac-io/lz4/lz4.c:1877-1888 | three fixed copies of 18 bytes give a match of up to 18 bytes at offsets from 8 |
| `Lz4RoundTrip.LengthReadsBack` | src/ac-io/lz4/lz4.c:1638-1648 | a length written as 255s and a remainder is read back as itself |
| `Lz4RoundTrip.DecodeSequences` | src/ac-io/lz4/lz4.c:1848-2058 | decoding from any sequence of an encoded block reaches its last sequence with the expansion of all sequences before it, for all sequences that the end checks let pass |
| `Lz4RoundTrip.DecodeLast` | src/ac-io/lz4/lz4.c:1909-1955 | the last literals end the decoding exactly at the end of the input |
| `Lz4RoundTrip.PassingDecodes` | src/ac-io/lz4/lz4.c:1848-2072 | a block of sequences that pass, and last literals that fit, is decoded to what they stand for |
| `Lz4RoundTrip.ParsedPass` | src/ac-io/lz4/lz4.c:1848-2058 | sequences that keep the end-of-block limits pass |
| `Lz4RoundTrip.RoundTrip` | src/ac-io/lz4/lz4.c:793-2063 | for every input and every choice of sequences that expand to it and keep the end-of-block limits, decoding the encoded block with capacity from the size of the input on gives the input back |
| `Lz4Sound.DecodesExactly` | src/ac-io/lz4/lz4.c:1848-2072 | the decoder gives some output for a block iff the whole block is the encoding of sequences that pass and of last literals, which fit, and the output is what they stand for; so nothing cut off or added is taken for good unless it is such an encoding itself |
| `Lz4Sound.AcceptedFrom` | src/ac-io/lz4/lz4.c:1848-2072 | from any place where decoding goes on, what is accepted completes such an encoding |
| `Lz4Sound.SequenceIsWritten` | src/ac-io/lz4/lz4.c:1849-2058 | a sequence that is decoded and not the last one stands there as it would be written |
| `Lz4Sound.SumIsLength` | src/ac-io/lz4/lz4.c:1629-1649 | a length that does not end in the middle is written as it was read |
| `Lz4Sound.LengthWraps` | src/ac-io/lz4/lz4.c:1632-1645 | lengths from 2^32 on wrap around |
| `Lz4Sound.CutOffIsRefused` | src/ac-io/lz4/lz4.c:1936-1946 | a block cut off behind the offset of its first match is refused |
| `Lz4Sound.BlockExample` | src/ac-io/lz4/lz4.c:1848-2072 | token, literal, offset and last literals in one block of ten bytes |
| `Bytes.LowByteFirst` | src/ac-io/lz4/lz4.c:340-358 | numbers of two and four bytes lie low byte first |
| `Lz4RoundTrip.SequencesSize` | src/ac-io/lz4/lz4.c:963-1077 | sequences with matches of at least 4 bytes never take more than n + n/255 bytes for n bytes of output |
| `Lz4RoundTrip.BlockSize` | src/ac-io/lz4/lz4.c:611-611 | a whole block is at least 14 bytes below n + n/255 + 16 |
| `Lz4Compress.Count` | src/ac-io/lz4/lz4.c:539-563 | the match length counted in words and tails is the longest common run up to the limit |
| `Lz4Compress.CatchUp` | src/ac-io/lz4/lz4.c:960-961 | walking both positions backwards keeps the distance and a common run that still holds the four matching bytes |
| `Lz4Compress.WriteLength` | src/ac-io/lz4/lz4.c:976-980 | writes the 255s and the remainder of a literal length and nothing beyond its room |
| `Lz4Compress.WriteMatchLength` | src/ac-io/lz4/lz4.c:1065-1076 | the four-bytes-at-a-time writing of a match length leaves the same bytes as writing single 255s |
| `Lz4Compress.EmitHead` | src/ac-io/lz4/lz4.c:963-988 | token, literal length and literals of one sequence, refused iff the output is limited and the literals, their length and eight more bytes do not fit; then nothing before it is lost |
| `Lz4Compress.EmitMatch` | src/ac-io/lz4/lz4.c:1018-1078 | offset and match length of one sequence, completing the token; the match is as long as bytes agree; refused iff the output is limited and six bytes and the length do not fit |
| `Lz4Compress.EmitLast` | src/ac-io/lz4/lz4.c:1146-1172 | the last literals, refused iff the output is limited and they do not fit |
| `Lz4Compress.MatchRoom` | src/ac-io/lz4/lz4.c:1040-1049 | with room for the data, its length and a token no match is refused |
| `Lz4Compress.HeadRoom` | src/ac-io/lz4/lz4.c:965-969 | nor any literals, the last ones included |
| `Lz4Compress.FinishBlock` | src/ac-io/lz4/lz4.c:1146-1181 | the last literals complete a block that encodes a parse of the input; with that room they always fit |
| `Lz4Compress.Stream.Probe` | src/ac-io/lz4/lz4.c:896-957 | a candidate is reported iff its entry lies in the block and near enough and its four bytes are the same |
| `Lz4Compress.SameBytesSameHash` | src/ac-io/lz4/lz4.c:635-660 | places where the same five bytes stand, or four for the table of small blocks, share an entry of the table |
| `Lz4Compress.HashesOfOne` | src/ac-io/lz4/lz4.c:635-660 | the entries of one word for both tables |
| `Lz4Compress.Stream.MainLoop` | src/ac-io/lz4/lz4.c:869-1144 | the loop extends the parse, with room to the last literals; data of equal bytes becomes one literal and one match up to the last five bytes |
| `Lz4Compress.RunIsMatchCopy` | src/ac-io/lz4/lz4.c:1034-1035 | input that repeats at a distance is what the decoder copies for that distance |
| `Lz4Compress.ParseExtends` | src/ac-io/lz4/lz4.c:951-1077 | a verified match extends the sequences so far to sequences that expand to a longer prefix of the input, within the end-of-block limits |
| `Lz4Compress.Stream.FindMatch` | src/ac-io/lz4/lz4.c:896-957 | whatever the hash table holds, a reported match is a verified one of four bytes within 65535 bytes; a candidate that fits at the first position is reported |
| `Lz4Compress.Stream.EmitMatches` | src/ac-io/lz4/lz4.c:990-1139 | a match and those that follow it at once extend the parse, or the output ran out |
| `Lz4Compress.Stream.CompressStep` | src/ac-io/lz4/lz4.c:869-1144 | one round of the main loop extends the parse of the input |
| `Lz4Compress.Stream.PrepareTable` | src/ac-io/lz4/lz4.c:742-789 | the table is reset whenever its positions could not be told apart from those of the new input |
| `Lz4Compress.Stream.CompressGeneric` | src/ac-io/lz4/lz4.c:793-1181 | a positive result is the encoding of sequences that expand to the input and keep the limits; with n + 1 + (n + 240) / 255 bytes of room for n bytes of input it is always positive, and nothing outside the destination changes |
| `Lz4Compress.Stream.CompressFastReset` | src/ac-io/lz4/lz4.c:1215-1249 | the same for the entry point that picks table kind, limit and acceleration |
| `Lz4Frame.Codec.CompressBlock` | src/ac-io/ac_lz4.c:188-210 | the block written is one of raw, compressed or lost, with its size word and checksum; with n + 1 + (n + 240) / 255 bytes of room for n bytes it is never lost, with no more than one byte always, and with less than that always for data in which no four bytes occur twice; thirteen or more equal bytes are stored compressed, in ten bytes and those of the length |
| `Lz4Frame.Codec.Decompress` | src/ac-io/ac_lz4.c:165-186 | the block body is rejected or opened exactly as the recursive decoder and the checksum say |
| `Lz4Frame.OpensExactly` | src/ac-io/ac_lz4.c:165-186 | a block body is opened iff it is a payload behind which its own checksum stands, if blocks carry one, and the payload is the data or decodes to it |
| `Lz4Frame.ReadWithWord` | src/ac-io/ac_lz4.c:165-186 | the size word alone decides between raw and compressed reading of the payload |
| `Lz4Frame.BlockRoundTrip` | src/ac-io/ac_lz4.c:165-210 | reading a block that was written gives the source back iff the block is not the lost one (compressing into too little room returns 0, which is written as a size); a lost block is rejected |
| `Lz4Frame.Codec.WriteAndRead` | src/ac-io/ac_lz4.c:165-210 | writing a block and reading it gives the source back whenever there is that much room; for data in which no four bytes occur twice iff there is |
| `Lz4RoundTrip.ParseOfUnlike` | src/ac-io/lz4/lz4.c:793-1181 | data in which no four bytes occur twice has one parse only, and its encoding takes exactly n + 1 + (n + 240) / 255 bytes |
| `Lz4Frame.OneByteLoses` | src/ac-io/lz4/lz4.c:1146-1172 | no non-empty input has an encoding of one byte, so one byte of room always loses the block |
| `Lz4Frame.FlatSize` | src/ac-io/lz4/lz4.c:869-1181 | data of thirteen or more equal bytes takes ten bytes and the bytes of its length |
| `Lz4Frame.SizeWords` | src/ac-io/ac_lz4.c:188-210 | the size word of raw data has its highest bit set and lies low byte first; the checksum follows the payload |
| `Scheduler.Schedule.UnlinkState` | src/ac-io/ac_schedule.c:541-563 | takes a partition off the one list that its flags say it is on, whose other entries keep their order, and counts it out; all other lists are as before, and lists, flags and counters agree |
| `Scheduler.Schedule.LinkState` | src/ac-io/ac_schedule.c:565-583 | puts a partition at the head of the list that its flags say and counts it in; all other lists are as before |
| `Scheduler.Schedule.TakeWorker` | src/ac-io/ac_schedule.c:589-606 | takes the first available partition of the list, of the task asked for if any, or changes nothing when there is none |
| `Scheduler.Schedule.AddTask` | src/ac-io/ac_schedule.c:2484-2520 | adds a task with one or N partitions, all available, without dependencies; every other task keeps its counts, kind and dependencies; lists, flags, counters and reverse links agree |
| `Scheduler.Schedule.AddDependency` | src/ac-io/ac_schedule.c:2579-2622 | afterwards each partition of the task waits for all partitions of the other, or when partial for the one of its own number, with the first standing in for a missing one; nothing else is added, and nothing is in a list twice; what is not complete moves to the waiting lists |
| `Scheduler.DependencyMeans` | src/ac-io/ac_schedule.c:2563-2606 | entering a task into the one or the other list adds exactly those dependencies between partitions |
| `Scheduler.TaskMeans` | src/ac-io/ac_schedule.c:2484-2520 | a new task adds no dependency between partitions |
| `Scheduler.Schedule.Setup` | src/ac-io/ac_schedule.c:1205-1221 | completes the do-nothing tasks that are free, at the time of the setup; none is left available, and every waiting partition has an incomplete dependency |
| `Scheduler.Schedule.IsTaskComplete` | src/ac-io/ac_schedule.c:2525-2532 | true iff all partitions are completed |
| `Scheduler.Schedule.IsDependenciesComplete` | src/ac-io/ac_schedule.c:2544-2561 | true iff all full and partial dependencies of the partition are completed, counting partition 0 for tasks with one |
| `Scheduler.Schedule.IsPartiallyComplete` | src/ac-io/ac_schedule.c:2654-2660 | true iff some partition of the task is not completed |
| `Scheduler.Schedule.CheckTask` | src/ac-io/ac_schedule.c:2632-2644 | releases a partition that has become ready; no wakeup is lost and only ready partitions move |
| `Scheduler.Schedule.CheckTasks` | src/ac-io/ac_schedule.c:2663-2678 | the same for all partitions of all dependents |
| `Scheduler.Schedule.CheckPartition` | src/ac-io/ac_schedule.c:2680-2688 | the same for one partition of the partial dependents |
| `Scheduler.Schedule.MarkTaskComplete` | src/ac-io/ac_schedule.c:2646-2690 | after the whole cascade every waiting partition still has an incomplete dependency, everything released was ready, and nothing else changed; the recursion ends because waiting partitions only get fewer |
| `Scheduler.Schedule.GetNextWorker` | src/ac-io/ac_schedule.c:1286-1323 | one decision of a thread under the mutex: take an available partition, sleep only when nothing is available, work remains and the end is not reached, else leave |
| `Scheduler.Schedule.TakeAnyWorker` | src/ac-io/ac_schedule.c:1301-1313 | the first number with an available partition, going round from the own number of the thread; nothing is taken only when nothing is available |
| `Scheduler.EveryPartVisited` | src/ac-io/ac_schedule.c:1302-1303 | the rotation (p + t) mod n visits every partition |
| `Scheduler.Schedule.WorkerComplete` | src/ac-io/ac_schedule.c:1264-1284 | completion with its cascade, and a broadcast exactly when work appeared where there was none or the end is reached |
| `Scheduler.Schedule.MarkAsDone` | src/ac-io/ac_schedule.c:1446-1453 | sets the end once and broadcasts the first time |
| `ScheduleGraph.NewlyReady` | src/ac-io/ac_schedule.c:2662-2689 | what one completion makes ready is among the dependents that the cascade looks at, and only the same partition of partial dependents while the task is not complete |
| `ScheduleGraph.CascadeKeeps` | src/ac-io/ac_schedule.c:2632-2690 | a cascade keeps every partition in one place and everything beyond waiting ready |
| `ScheduleGraph.CompletionKeeps` | src/ac-io/ac_schedule.c:2646-2652 | so does a completion |
| `ScheduleGraph.SettledAfterAll` | src/ac-io/ac_schedule.c:2662-2678 | when a task is completed only its dependents can have lost their last incomplete dependency |
| `ScheduleGraph.SettledAfterSome` | src/ac-io/ac_schedule.c:2679-2689 | while a task is partly complete only the same partition of its partial dependents can have |
| `ScheduleGraph.FreedByCascade` | src/ac-io/ac_schedule.c:2632-2644 | completing a do-nothing partition inside a cascade is part of the same cascade |
| `ScheduleGraph.OneGrounded` | src/ac-io/ac_schedule.c:2632-2644 | a partition that is released is not among partitions that wait for one another, so those go on waiting |
| `ScheduleSystem.StepKeepsInv` | src/ac-io/ac_schedule.c:1286-1323 | every step of every thread keeps: each partition is in one of waiting, available, running, completed; it left waiting only when all its dependencies were complete; running partitions and running threads correspond |
| `ScheduleSystem.RunKeepsInv` | src/ac-io/ac_schedule.c:1667-1715 | so does every run |
| `ScheduleSystem.StartedStays` | src/ac-io/ac_schedule.c:589-606 | a partition that was taken never becomes available or waiting again |
| `ScheduleSystem.StartedOnceAndReady` | src/ac-io/ac_schedule.c:1286-1323 | in every run each partition is taken at most once, and when it is taken all its dependencies are completed |
| `ScheduleSystem.StepKeepsLively` | src/ac-io/ac_schedule.c:1264-1323 | no wakeup is lost: unless a worker fails, sleeping threads always have somebody awake to wake them as long as work remains |
| `ScheduleSystem.NothingLeftWaiting` | src/ac-io/ac_schedule.c:2544-2561 | with acyclic dependencies, when nothing runs and nothing is available everything is completed |
| `ScheduleSystem.SomebodyIsAwake` | src/ac-io/ac_schedule.c:1297-1299 | with acyclic dependencies no reachable state, whichever workers failed, has all remaining threads asleep |
| `ScheduleSystem.AllGoneAllCompleted` | src/ac-io/ac_schedule.c:1667-1715 | when all threads have left, every partition is completed |
| `ScheduleSystem.CascadeExists` | src/ac-io/ac_schedule.c:2646-2690 | from every state a cascade leads to a settled state, so the transition of a completion is never stuck |
| `ScheduleSystem.AwakeThreadMoves` | src/ac-io/ac_schedule.c:1667-1715 | a thread that is awake can always take its next step |
| `ScheduleSystem.StepLowersMeasure` | src/ac-io/ac_schedule.c:1667-1715 | every step lowers a measure by at least one, except that waking raises it by exactly one |
| `ScheduleSystem.RunsAreShort` | src/ac-io/ac_schedule.c:1667-1715 | a run has at most as many steps as the measure allows, so it can only go on by spurious wakeups |
| `ScheduleSystem.StepKeepsWatched` | src/ac-io/ac_schedule.c:1264-1323 | also when workers fail: what is out for running has its thread or somebody is about to announce the end, and sleepers have somebody awake once nothing waits |
| `ScheduleSystem.RunsEnd` | src/ac-io/ac_schedule.c:1667-1715 | every run, whichever workers fail, can go on without spurious wakeups or has every thread gone |
| `ScheduleSystem.RunsComplete` | src/ac-io/ac_schedule.c:1667-1715 | every run without a failing worker can go on or has every thread gone and every partition completed: no deadlock |
| `ScheduleSystem.DoneOnlyWhenDrained` | src/ac-io/ac_schedule.c:1446-1453 | the end is set only when nothing is waiting or available |
| `ScheduleSystem.AfterTheEnd` | src/ac-io/ac_schedule.c:1286-1296 | in every run, once the end is announced a thread that comes back for work leaves |
| `ScheduleCycles.RankOrCycle` | src/ac-io/ac_schedule.c:2544-2561 | every graph has a rank that dependencies lower, or partitions that wait for one another |
| `ScheduleCycles.NotInCycle` | src/ac-io/ac_schedule.c:2544-2561 | never both |
| `ScheduleCycles.CycleWaits` | src/ac-io/ac_schedule.c:2632-2690 | partitions that wait for one another at the start wait in every state of every run |
| `ScheduleCycles.CycleNeverEnds` | src/ac-io/ac_schedule.c:1286-1323 | so without a failing worker the end is never announced and no thread leaves |
| `ScheduleStale.CompletedPersists` | src/ac-io/ac_schedule.c:2646-2652 | a completion and its time never change |
| `ScheduleStale.FinishedBefore` | src/ac-io/ac_schedule.c:1264-1284 | what is completed and has something to do was finished by a thread at the time it was marked with |
| `ScheduleStale.FinishesOnce` | src/ac-io/ac_schedule.c:1264-1284 | a partition is finished at most once in a run |
| `ScheduleStale.NewerMeansStale` | src/ac-io/ac_schedule.c:1395-1439 | a dependency that is looked at and completed later than the old acknowledgement makes the partition run |
| `ScheduleStale.NeedsExactly` | src/ac-io/ac_schedule.c:1371-1439 | a partition needs to run iff it has no acknowledgement, or runs always, or looks at something completed or acknowledged later |
| `ScheduleStale.MarkedExactly` | src/ac-io/ac_schedule.c:1688-1707 | in every run: a partition that finishes is marked with a new time under exactly this condition, else with its acknowledgement |
| `ScheduleStale.FirstRunExecutesAll` | src/ac-io/ac_schedule.c:1396-1397 | in a run without any acknowledgements, whatever finishes has executed |
| `ScheduleStale.DependentExecutes` | src/ac-io/ac_schedule.c:1688-1707 | on every graph: if a partition executes and one that looks at it finishes, that one executed too, and later |
| `ScheduleStale.NewlyCompleted` | src/ac-io/ac_schedule.c:2632-2652 | a step completes the partition of the thread that finishes, and otherwise only waiting do-nothing partitions, all at the time of that thread |
| `ScheduleLoss.LosingIsOrdered` | src/ac-io/ac_schedule.c:1264-1284 | the steps of a run order all completions: partitions with something to do one by one after their dependencies, the others together with their last dependency |
| `ScheduleLoss.OldIsCalm` | src/ac-io/ac_schedule.c:1371-1439 | what a run marks with an old time looks only at such partitions, or was triggered by one |
| `ScheduleLoss.LosingIsLosable` | src/ac-io/ac_schedule.c:1371-1439 | a run in which a partition executes and another one finishes without executing gives an order and a calm set with only the second in it |
| `ScheduleCalm.Fills` | src/ac-io/ac_schedule.c:2632-2644 | do-nothing partitions complete exactly at their place in the order |
| `ScheduleCalm.CalmIsUpToDate` | src/ac-io/ac_schedule.c:1395-1439 | a calm partition does not need to run |
| `ScheduleCalm.FinishNext` | src/ac-io/ac_schedule.c:1286-1323 | one worker takes and finishes the partition at the next place, and calm ones keep their old times |
| `ScheduleCalm.LosableLoses` | src/ac-io/ac_schedule.c:1667-1715 | from any such order and set a whole run of one worker, with its times, in which the first partition executes and the second does not |
| `ScheduleOrder.OrderExists` | src/ac-io/ac_schedule.c:2544-2561 | graphs without cycles have orders of completion in which chosen partitions and their dependents come last |
| `ScheduleCarried.FollowsExactly` | src/ac-io/ac_schedule.c:1371-1439 | on every graph without cycles: a partition executes in every run in which another one does iff no order of completion has a calm set with only the first in it |
| `ScheduleCarried.StalenessPropagates` | src/ac-io/ac_schedule.c:1371-1439 | on every graph: if the first partition of a path executes and the last one finishes, the last one executed, when each partition looks at the one before it or does nothing and depends on that one only |
| `ScheduleCarried.FollowsByPath` | src/ac-io/ac_schedule.c:1371-1439 | where do-nothing partitions depend on one partition each, with any numbers of partitions: one always follows the other iff there is such a path |
| `ScheduleCarried.LostBehind` | src/ac-io/ac_schedule.c:2632-2644 | behind a do-nothing partition with a dependency that can come last and may be up to date, there is a run in which another dependency of it executes and the dependent does not |
| `ScheduleCarried.LostThroughDoNothing` | src/ac-io/ac_schedule.c:2639-2640 | a diamond whose last task does not execute in some run in which the first one does |
| `ScheduleCarried.LostBehindStandIn` | src/ac-io/ac_schedule.c:1371-1378 | of two partitions that depend partially on a task with one, the first always follows it and the second does not |
| `MinHeap.Push` | src/ac-search/ac_s.c:965-982 | adds the entry, keeps heap order and all other entries |
| `MinHeap.Pop` | src/ac-search/ac_s.c:984-1012 | takes an entry of least key and leaves a heap of the others |
| `MinHeap.SiftDown` | src/ac-search/ac_s.c:992-1010 | moving the last entry down from the root restores the order and loses nothing |
| `MinHeap.RootIsLeast` | src/ac-io/ac_in.c:1324-1354 | the root has the least key |
| `SearchCursor.AdvanceBlock` | src/ac-search/ac_s.c:1799-1814 | gives the next posting ahead, or the repeated first one of a cursor that was just opened; exactly the ids ahead stay reachable |
| `SearchCursor.AdvanceBlockTo` | src/ac-search/ac_s.c:1816-1858 | skips whole groups and postings below the id: nothing from the id on is lost, and the new current id is at least the id |
| `SearchCursor.AdvanceOr` | src/ac-search/ac_s.c:1014-1037 | the cursor stands on the least id that a child can still give; exactly the pending ids of the union stay reachable |
| `SearchCursor.AdvanceOrTo` | src/ac-search/ac_s.c:1039-1105 | the weak promise of advance_to below an OR: nothing from the id on is lost and nothing new appears, but the id reached may be below the id asked for |
| `SearchCursor.AdvanceStartedTo` | src/ac-search/ac_s.c:1039-1065 | with children that keep the strong promise, the id reached falls short of the id asked for iff some waiting child stands before it |
| `SearchCursor.PopLeast` | src/ac-search/ac_s.c:1023-1036 | all children on the least id become active, the others stay in the heap beyond it |
| `SearchCursor.OrReaches` | src/ac-search/ac_s.c:1014-1037 | what the OR can reach after the pops is what the children in the heap could reach before |
| `SearchCursor.MoveAll` | src/ac-search/ac_s.c:1017-1020 | each active child moves once and the live ones join the heap, whose order survives the changed keys |
| `SearchCursor.Align` | src/ac-search/ac_s.c:1434-1473 | the restart loop of AND ends, over children whose advance_to may fall short, by (what the children can still move, bound minus id, children left to check); all children stand on one id and no common id from the floor on was passed |
| `SearchCursor.AdvanceAnd` | src/ac-search/ac_s.c:1434-1451 | exactly the pending ids of the intersection stay reachable, for children that are any trees of AND and OR |
| `SearchCursor.AdvanceAndTo` | src/ac-search/ac_s.c:1453-1473 | nothing of the intersection from the id on is lost; without an OR below, the id reached is at least the id |
| `SearchCursor.AndPending` | src/ac-search/ac_s.c:1434-1451 | what AND hands out is what its first child hands out and the others can reach |
| `SearchCursor.RestBeyond` | src/ac-search/ac_s.c:1768-1858 | everything still ahead of a cursor is beyond its current id |
| `SearchQuery.Opens` | src/ac-search/ac_s.c:1870-1891 | an opened cursor can reach exactly the ids that satisfy the query |
| `SearchQuery.Drive` | src/ac-search/ac_s.c:1434-1451 | driving any valid cursor by advance gives exactly its pending ids, strictly increasing |
| `SearchQuery.Matches` | src/ac-search/ac_s.c:1014-1473 | for every tree of AND and OR over terms, advance hands out exactly the ids that satisfy it, strictly increasing |
| `SearchQuery.OneList` | src/ac-search/ac_s.c:1434-1451 | there is only one strictly increasing list with given members |
| `SearchQuery.HandsOutAgain` | src/ac-search/ac_s.c:1860-1868 | after advance_to the next advance gives the same id again iff the leftmost term cursor was never advanced |
| `SearchQuery.OrFallsShort` | src/ac-search/ac_s.c:1039-1065 | a concrete OR of {1, 10} and {2} on 1 that gives 2 when asked for 10 |
| `Phrases.FindPhrases` | src/ac-search/ac_s.c:2022-2053 | the starts found are exactly, in increasing order, the positions s with term i at s + i for every i; true iff there is one |
| `Phrases.Matched` | src/ac-search/ac_s.c:2048-2050 | when all pointers agree the candidate is a start and all others still lie ahead |
| `Phrases.RaiseCandidate` | src/ac-search/ac_s.c:2042-2046 | raising the candidate past a pointer loses no start |
| `PhraseCursor.AdvancePhrase` | src/ac-search/ac_s.c:2055-2077 | stops at the next common document with the phrase in it, with all its starts; documents without it are passed |
| `PhraseCursor.AdvancePhraseTo` | src/ac-search/ac_s.c:2079-2101 | nothing from the id on with the phrase in it is lost, and the document reached has the phrase |
| `PhraseCursor.PhraseMatches` | src/ac-search/ac_s.c:2055-2077 | driving the phrase cursor gives exactly the common documents with the phrase, strictly increasing |
| `Tokens.FixOrs` | src/ac-search/ac_token.c:383-459 | on a well-formed list the lifted form is well formed without OR marks and says the same for every document |
| `Tokens.FixNots` | src/ac-search/ac_token.c:461-578 | on a well-formed list without OR marks the trees that come out, taken together, find what the list said |
| `Tokens.GroupAnd` | src/ac-search/ac_token.c:580-591 | one tree that finds what all trees of the list find |
| `Tokens.Rewrite` | src/ac-search/ac_token.c:936-938 | for every well-formed expression the finished tree, read as cursors are opened for it, finds exactly what the list of tokens says |
| `Tokens.MarkWords` | src/ac-search/ac_token.c:391-488 | the words that stand for OR and NOT, in any mixture of small and capital letters, and no others |
| `Tokens.MarksLeftOver` | src/ac-search/ac_token.c:391-488 | a mark that is left over stands for its word |
| `Tokens.NoNotFinds` | src/ac-search/ac_cursor.c:508-548 | what stands behind a NOT and holds none itself is read right without being rewritten |
| `Tokens.NotBehindNot` | src/ac-search/ac_token.c:461-591 | for an operand without ORs: the finished tree of a word and a NOT finds what the list says, for every lookup, iff the operand holds no NOT |
| `Tokens.OrHidesNot` | src/ac-search/ac_token.c:461-578 | with an OR an operand may hold a NOT and mean the same all the same |
| `BitSet.Set.Intersect` | src/ac-search/ac_bit_set.c:31-40 | the set becomes the intersection |
| `BitSet.Set.Unite` | src/ac-search/ac_bit_set.c:20-29 | the set becomes the union, for ids within its words |
| `BitSet.Set.Subtract` | src/ac-search/ac_bit_set.c:9-18 | the set becomes the difference |
| `BitSet.Set.Invert` | src/ac-search/ac_bit_set.c:58-67 | exactly the ids that the mask lets through change sides |
| `BitSet.MaskIsSize` | src/ac-search/ac_bit_set.c:58-90 | inverting a set under the mask of its size: the ids below the size change sides, and nothing else is left |
| `BitSet.Set.Copy` | src/ac-search/ac_bit_set.c:69-74 | a copy has the same ids and a zero mask |
| `BitSet.InvertedCopy` | src/ac-search/ac_bit_set.c:58-74 | inverting a copy, whose mask is zero, gives the complement below the size iff all ids of the last word below the size are members |
| `BitSet.CopyLosesOne` | src/ac-search/ac_bit_set.c:58-74 | the inverted copy of the empty set of size one is empty |
| `BitSet.Set.Add` | src/ac-search/ac_bit_set.c:92-100 | adds the id if it lies within the words |
| `BitSet.Set.Remove` | src/ac-search/ac_bit_set.c:102-110 | removes the id and no other |
| `BitSet.Set.Contains` | src/ac-search/ac_bit_set.c:153-162 | the masked word is not zero iff the id is in the set |
| `BitSet.OneBitLess` | src/ac-search/ac_bit_set.c:125-129 | n & (n - 1) has one bit less than n |
| `BitSet.Count` | src/ac-search/ac_bit_set.c:119-132 | the count is the cardinality of the set of ids |
| `BitSetCursor.NextFrom` | src/ac-search/ac_bit_set.c:192-227 | the scan through words and bits finds the least member from an id on, or none |
| `BitSetCursor.SetCursor.Advance` | src/ac-search/ac_bit_set.c:189-228 | the next member beyond the current id, or the first one again right after opening |
| `BitSetCursor.SetCursor.AdvanceTo` | src/ac-search/ac_bit_set.c:230-240 | the least member from the id on |
| `BitSetCursor.NotCursor.Advance` | src/ac-search/ac_cursor.c:275-292 | the next id of the positive set that the negative set has not |
| `BitSetCursor.NotCursor.AdvanceTo` | src/ac-search/ac_cursor.c:294-313 | the least such id from the id on |
| `BitSetCursor.Difference` | src/ac-search/ac_cursor.c:275-292 | driving NOT over two sets gives exactly the difference of their ids from 1 on, strictly increasing |
| `PostingCodec.EncodeTerm` | src/ac-search/ac_search_builder.c:193-329 | the three nested loops over the occurrences write what the recursive description of groups says |
| `PostingCodec.EncodeGroup` | src/ac-search/ac_search_builder.c:201-303 | the documents of one group |
| `PostingCodec.EncodePosting` | src/ac-search/ac_search_builder.c:206-302 | one document: a single value in place, or all positions behind their length |
| `PostingCodec.ReadPosting` | src/ac-search/ac_search_builder.c:487-524 | reading one document shows its id, value and exact span, and ends where the next one starts, for every size of value and length |
| `PostingReader.SpanReadsBack` | src/ac-search/ac_search_builder.c:472-486 | a span holds exactly the positions and values that went in |
| `PostingReader.ImageTerm.AdvanceGroup` | src/ac-search/ac_search_builder.c:436-470 | the three widths of group lengths up to 4194303 read back |
| `PostingReader.ImageTerm.Advance` | src/ac-search/ac_search_builder.c:526-536 | shows the next document, or reports the end |
| `PostingReader.ImageTerm.AdvanceTo` | src/ac-search/ac_search_builder.c:538-572 | the first document from the id on is shown, or none is left; before anything was read, with an id of the first group, the first document of all is shown |
| `PostingReader.LandsIfBeyond` | src/ac-search/ac_search_builder.c:538-572 | which is the right one iff it is not before the id |
| `PostingReader.PackAndRead` | src/ac-search/ac_search_builder.c:193-536 | packing and walking shows every document once, with increasing ids, and together they stand for exactly the occurrences that were put in |
| `PostingReader.NothingLost` | src/ac-search/ac_search_builder.c:193-536 | the documents shown stand for exactly the occurrences that were packed, ids, positions and values |
| `PostingReader.OnceEach` | src/ac-search/ac_search_builder.c:526-536 | each document is shown once, with increasing ids |
| `Json.DumpToBuffer` | src/ac-json/ac_json.c:107-160 | the recursive printer with its loops over members and items appends exactly the text of the tree |
| `JsonParse.Parse` | src/ac-json/ac_json.c:571-1240 | for every NUL-terminated text the goto machine returns what the recursive grammar returns, tree or error position, and every key, string and number of the tree is still intact in the overwritten buffer with a NUL behind it |
| `JsonGrammar.UnopenedExactly` | src/ac-json/ac_json.c:976-984 | the parser follows a missing array iff the first character of the text that is not space is a closing bracket |
| `JsonGrammar.LoneBracket` | src/ac-json/ac_json.c:976-984 | a lone closing bracket does that |
| `JsonParse.ScanText` | src/ac-json/ac_json.c:817-833 | counting backslashes backwards finds the closing quote that the grammar finds |
| `JsonParse.ReadScalar` | src/ac-json/ac_json.c:660-816 | strings, numbers, words and binary values: same result as the grammar, and only the byte behind them is overwritten |
| `JsonParse.StepStartKey` | src/ac-json/ac_json.c:602-656 | one step at this label keeps what the rest of the run yields |
| `JsonParse.StepStartKeyObject` | src/ac-json/ac_json.c:658-816 | one step at this label keeps what the rest of the run yields |
| `JsonParse.StepStartValue` | src/ac-json/ac_json.c:920-1115 | one step at this label keeps what the rest of the run yields |
| `JsonParse.StepLook` | src/ac-json/ac_json.c:853-889 | one step behind a value, in an object or an array, keeps what the rest of the run yields |
| `JsonParse.AfterValue` | src/ac-json/ac_json.c:1166-1196 | closing containers by following parents is returning from the recursive reader |
| `JsonParse.HeldKept` | src/ac-json/ac_json.c:651-651 | writing NULs further on harms nothing that was read before |
| `JsonRoundTrip.TextEndsWhere` | src/ac-json/ac_json.c:817-833 | the scan ends at the closing quote of its string iff the string is well escaped, read from the left |
| `JsonSpaced.ValueRead` | src/ac-json/ac_json.c:920-1240 | wherever a tree without null is written, with any blanks around its parts, reading gives it back and ends with it |
| `JsonSpaced.ItemsRead` | src/ac-json/ac_json.c:1174-1196 | the same for what is left of an array, on top of what was read |
| `JsonSpaced.MembersRead` | src/ac-json/ac_json.c:602-889 | the same for what is left of an object |
| `JsonSpaced.SpacedReads` | src/ac-json/ac_json.c:571-1240 | a document with any strings of space, tab, line feed and carriage return before and after every value, key, colon, comma and bracket is read as its tree |
| `JsonSpaced.PrintIsText` | src/ac-json/ac_json.c:107-160 | the text of the printer is the one without blanks |
| `JsonSound.ValueSound` | src/ac-json/ac_json.c:658-1240 | whatever is accepted as a value stands there as a text of the tree that it gives: strings between their own quotes, numbers and words in their forms, values and members between brackets and commas, of which one may be the last |
| `JsonSound.DocumentSound` | src/ac-json/ac_json.c:571-1240 | so an accepted document starts, blanks aside, with a text of its tree |
| `JsonSound.NullIsRead` | src/ac-json/ac_json.c:1076-1112 | the word null is read |
| `JsonSound.MinusZeroIsRead` | src/ac-json/ac_json.c:991-1040 | zero and decimals below one with a minus sign are read |
| `JsonSound.LastCommaIsRead` | src/ac-json/ac_json.c:920-976 | a comma may be left over in an array, and what follows the value is not looked at |
| `JsonSound.KeyAndMoreIsRead` | src/ac-json/ac_json.c:602-656 | something may stand between a key and its colon, and a comma may be left over in an object |
| `JsonSound.RefusedBehind` | src/ac-json/ac_json.c:571-1240 | places of error behind the character that cannot stand there |
| `JsonSound.RefusedAt` | src/ac-json/ac_json.c:853-889 | places of error at the character behind a value |
| `JsonSound.RefusedAtEnd` | src/ac-json/ac_json.c:571-656 | places of error where the text ends too early |
| `JsonSound.RefusedWord` | src/ac-json/ac_json.c:760-816 | a word in an object that would end the text is refused |
| `JsonBack.ValueWeighs` | src/ac-json/ac_json.c:920-1240 | for every text, a tree that is read weighs no more than the text it was read from |
| `JsonBack.PrintWeight` | src/ac-json/ac_json.c:107-122 | a printed tree is no longer than its weight, and shorter if it holds a null |
| `JsonBack.ThereAndBack` | src/ac-json/ac_json.c:107-1240 | parsing the printed tree gives the tree iff it holds no null and is no bare binary value (null has a type number below those that are printed as text) |
| `JsonBack.BareIsRefused` | src/ac-json/ac_json.c:1081-1095 | a bare binary value is refused at offset 6 |
| `JsonBack.StillReads` | src/ac-json/ac_json.c:571-1240 | read from the overwritten buffer, keys as C strings, the tree says what the text said |
| `JsonBack.PrintAndParse` | src/ac-json/ac_json.c:107-1240 | print, parse in place and read from the buffer: the same tree |
| `JsonBack.ParseSpaced` | src/ac-json/ac_json.c:571-1240 | parsing a text with blanks in place and reading it from the buffer gives its tree |
| `JsonText.EncodeText` | src/ac-json/ac_json.c:396-479 | the two-phase copying gives the escaped form |
| `JsonText.EncodedIsWellEscaped` | src/ac-json/ac_json.c:396-451 | the escaped form of any string is well escaped, so it never ends a string early |
| `JsonText.DecodeText` | src/ac-json/ac_json.c:335-394 | the copying loop gives what the recursive decoding gives, or stops where six characters are copied that are not there |
| `JsonText.OverrunsWhenCut` | src/ac-json/ac_json.c:374-385 | that happens iff, with escapes counted as two characters and those with a u as six, one with a u goes beyond the end, whatever the digits are |
| `JsonText.NotCutShort` | src/ac-json/ac_json.c:374-385 | never when every escape with a u has four characters behind it |
| `JsonText.CutEscape` | src/ac-json/ac_json.c:374-385 | it happens to the two characters of such an escape alone |
| `JsonText.DecodeEncode` | src/ac-json/ac_json.c:335-479 | decoding the encoded form of any string gives the string |
| `JsonText.ShortEscape` | src/ac-json/ac_json.c:216-333 | an escape written with four hexadecimal digits of either case, of a code point outside the first halves of pairs, stands for its UTF-8 form |
| `JsonText.PairEscape` | src/ac-json/ac_json.c:259-306 | two escaped halves stand for the UTF-8 form of the code point from 0x10000 on that they make up |
| `JsonText.FirstHalf` | src/ac-json/ac_json.c:259-387 | an escaped first half and an escaped second half behind it make up their code point; without one, whatever else follows, the first half is copied as it stands |
| `JsonText.Digits4Read` | src/ac-json/ac_json.c:216-257 | four digits are read as a number iff they are the digits of it, small or capital letters |
| `JsonText.NoDigitStays` | src/ac-json/ac_json.c:224-257 | with any other character among the four an escape is copied as it stands |
| `JsonText.EscapeReads` | src/ac-json/ac_json.c:349-373 | the eight characters with a short escape are written as it and read from it |
| `JsonText.NoEscape` | src/ac-json/ac_json.c:343-389 | all other characters are written as they are, and an escape of any other letter vanishes |
| `JsonText.Utf8Reads` | src/ac-json/ac_json.c:308-332 | the bytes written are valid UTF-8 that reads back as the code point iff it is no surrogate |
| `Records.SortRecords` | src/ac-io/ac_out.c:1120-1127 | a sort: ordered, and the same records |
| `RecordsIn.In.Advance` | src/ac-io/ac_in.c:1623-1656 | the next record, or the first of a run of equal keys with the whole run passed |
| `RecordsIn.Drain` | src/ac-io/ac_in.c:1623-1656 | draining sorted records gives them all in order, or strictly increasing keys with the same key set |
| `MergeIn.MoveActiveToHeap` | src/ac-io/ac_in.c:1440-1456 | active inputs go back to the heap past their records or on them; order and membership hold |
| `MergeIn.TakeEqual` | src/ac-io/ac_in.c:1484-1496 | all further inputs on the least key become active, the first other one is put back |
| `MergeIn.LeftBeyond` | src/ac-io/ac_in.c:1458-1502 | nothing that is left comes before the records handed out; nothing equal is left if every input has each key once |
| `MergeIn.ExtIn.Add` | src/ac-io/ac_in.c:1520-1556 | one more input joins the merge |
| `MergeIn.ExtIn.Advance` | src/ac-io/ac_in.c:1458-1474 | hands out a least record and takes exactly that one from what is to come |
| `MergeIn.ExtIn.AdvanceUnique` | src/ac-io/ac_in.c:1476-1502 | hands out one record of each input on the least key |
| `MergeIn.ReadAll` | src/ac-io/ac_in.c:1458-1518 | merging sorted inputs gives a sorted permutation of all their records; keeping first records of inputs without repeated keys gives strictly increasing keys with the same key set |
| `ExternalSort.SortedOut.Write` | src/ac-io/ac_out.c:1394-1431 | for every buffer size: the record is accepted and accounted for, in the two-ended buffer, after a spill, or as a file of its own; records from 2^32 bytes on are refused |
| `ExternalSort.Placed` | src/ac-io/ac_out.c:1407-1428 | writing a record below the others harms none of them; headers and data never meet |
| `ExternalSort.SortedOut.InFromBuffer` | src/ac-io/ac_out.c:1120-1131 | empties the buffer into its records, sorted |
| `ExternalSort.SortedOut.WriteSorted` | src/ac-io/ac_out.c:1243-1271 | a full buffer becomes a sorted file that stands for the same records |
| `ExternalSort.SortedOut.WriteOneRecord` | src/ac-io/ac_out.c:1384-1392 | a record larger than the buffer becomes a file |
| `ExternalSort.MergeFiles` | src/ac-io/ac_out.c:1329-1343 | merging all files gives everything in them in order |
| `ExternalSort.SortedOut.ReadSorted` | src/ac-io/ac_out.c:1281-1344 | whether or not anything was spilled: a sorted permutation of all records written, or strictly increasing keys with the same key set; a second call gives nothing |
| `ExternalSort.SortAll` | src/ac-io/ac_out.c:1281-1431 | the same for any records through a buffer of any size |
| `Buffered.Out.Write` | src/ac-io/ac_out.c:148-193 | file and buffer together grow by exactly the bytes written, for every buffer size |
| `Buffered.Out.WriteThrough` | src/ac-io/ac_out.c:167-192 | filling, writing out and keeping or passing on the rest loses nothing |
| `Buffered.Out.Flush` | src/ac-io/ac_out.c:154-164 | everything is in the file |
| `Buffered.Out.WritePrefix` | src/ac-io/ac_out.c:588-593 | a length of four bytes and the record |
| `Buffered.Out.WriteDelimiter` | src/ac-io/ac_out.c:601-606 | the record and the delimiter |
| `Buffered.In.FillBlocks` | src/ac-io/ac_in_base.c:29-48 | what is left to read stays the same; the buffer is full or the file ended |
| `Buffered.In.ResetBlock` | src/ac-io/ac_in_base.c:23-27 | what is left to read stays the same |
| `Buffered.In.CleanupLastRead` | src/ac-io/ac_in_base.c:50-60 | the byte under the zero byte is put back |
| `Buffered.In.Read` | src/ac-io/ac_in_base.c:421-454 | exactly the next bytes, or none when fewer are left |
| `Buffered.In.Readz` | src/ac-io/ac_in_base.c:346-419 | the next bytes up to the length asked for, fewer only at the end of the file; longer than the buffer is no different |
| `Buffered.In.Scan` | src/ac-io/ac_in_base.c:208-235 | stops at the first delimiter, past quotes; a quote, and a byte that no plain character equals, is never found |
| `Buffered.EightBits` | src/ac-io/ac_in_base.c:208-224 | a byte as a plain character: itself, or the number from -128 to 127 of the same remainder |
| `Buffered.In.ReadDelimited` | src/ac-io/ac_in_base.c:193-344 | the bytes up to the next delimiter, wherever block boundaries fall, or none when there is no further delimiter or it cannot be found |
| `Buffered.AdvancePrefix` | src/ac-io/ac_in.c:232-253 | the record at the front by its length |
| `Buffered.ThroughPrefixFile` | src/ac-io/ac_out.c:588-593 | records written with lengths come back as the same records for any output and input buffer size |
| `Buffered.ReadAllDelimited` | src/ac-io/ac_in_base.c:193-344 | reading a file to its end gives exactly its pieces between delimiters |
| `Buffered.FieldsAreRecords` | src/ac-io/ac_out.c:601-606 | these are the records that were written iff there are none, or none contains the delimiter and it can be found |
| `Buffered.ThroughDelimitedFile` | src/ac-io/ac_out.c:601-606 | so records come back as the same records under exactly that condition, for any output and input buffer size; with a delimiter that cannot be found nothing comes back |
| `Buffered.QuoteDelimiterLoses` | src/ac-io/ac_in_base.c:212-224 | one record of one letter behind a quote for delimiter is lost |
| `Csv.Encode` | src/ac-core/ac_pool.c:453-482 | the field as it is, or in quotes with its quotes doubled, in a buffer of exactly the counted size |
| `Csv.EncodedPlain` | src/ac-core/ac_pool.c:453-482 | a field is written as it is iff it has no delimiter, line feed or quote, else between quotes |
| `Csv.CountFields` | src/ac-core/ac_pool.c:499-516 | the first pass counts the fields that splitting gives, iff the number of quotes is even |
| `Csv.SplitCsv` | src/ac-core/ac_pool.c:492-553 | iff the number of quotes is even, the second pass, in place and never writing beyond where it reads, leaves every field where it is said to start, ended by a NUL, and as many as the first pass counted |
| `Csv.SplitsWhenEven` | src/ac-core/ac_pool.c:492-553 | for every line ended by a NUL, from any place inside or outside quotes: no quote is left open iff the quotes that follow are even in number, counting the open one |
| `Csv.LoneQuote` | src/ac-core/ac_pool.c:499-516 | a lone quote is left open |
| `Csv.SplitUndoesJoin` | src/ac-core/ac_pool.c:453-553 | splitting the joined encodings of any non-empty list of fields without NULs gives the fields |
| `Csv.QuotedReads` | src/ac-core/ac_pool.c:519-549 | a part in quotes stands for its content wherever in a field it stands |
| `Csv.LineFeedsInside` | src/ac-core/ac_pool.c:453-482 | every line feed of a joined line stands behind an odd number of quotes |

## Left out

- Lz4Decompress.DecompressSafe: the fast loop of the decoder (`LZ4_FAST_DEC_LOOP`), partial decoding, dictionaries and the pointer overflow checks are not modelled; error codes are modelled as negative, not by their value.
- Lz4Sound.DecodesExactly: covers blocks of less than 2^32 / 255 bytes. In longer ones lengths from 2^32 on wrap around, and are written in more ways than one.
- Lz4Compress.Stream.CompressGeneric: dictionaries, streaming, `fillOutput` and the table of pointers on 32-bit machines are not modelled. Comparing words by exclusive or and counting zeros is modelled as comparing their bytes. The HC levels are not modelled.
- Lz4Frame.Codec.Decompress: XXH32 is an uninterpreted function and its running state the bytes it was given; `ac_lz4_skip` is not modelled.
- Scheduler.Schedule.TakeWorker: the intrusive lists are sequences, so the next and previous pointers are not modelled; neither are `num_running` and the share of memory.
- Scheduler.Schedule.AddDependency: tasks are numbers; names and lists separated by bars are not modelled.
- Scheduler.Schedule.MarkAsDone: the unlock before it is taken for the lock that is meant.
- ScheduleSystem.RunsComplete: selecting tasks is not modelled. A wakeup by the operating system may come at any time; fairness of the operating system is not modelled.
- ScheduleCarried.StalenessPropagates: covers the default selection and a clock later than all old acknowledgements, as the library's use of times needs. Times are read when the schedule is set up; a runner that takes time is a pair of steps.
- SearchCursor.Align: cursors are values that a move maps to new values, not objects that are changed in place. A cursor belongs to one parent in the library too, so sharing is not modelled. OR over term cursors merges position lists for at most two active cursors; that merge is not modelled.
- SearchCursor.AdvanceBlock: a group is the list of its ids; the bytes of these postings are not modelled (those of the search builder are).
- PhraseCursor.AdvancePhrase: the loop that aligns the terms is the one of the AND cursor.
- Tokens.FixOrs: tokens are values; sibling, child and parent pointers and the rewriting of attributes are not modelled. Phrases in quotes are leaves.
- Tokens.Rewrite: lists that are not well formed are rewritten as the code does (a last OR, for one, drops the branch before it when there is an earlier OR), but apart from a NOT behind a NOT nothing is claimed about their meaning.
- BitSet.Set.Add: the bitwise operators on 64-bit words are functions on numbers below 2^64; ids are not limited to 32 bits.
- BitSetCursor.NotCursor.AdvanceTo: covers NOT over bit sets. NOT over an OR cursor is not modelled, since it needs the strong promise that OR does not keep.
- PostingCodec.EncodeTerm: files, term keys and the 8-byte offsets are not modelled.
- JsonParse.Parse: the tree is put together when containers close rather than when they open, and memory allocation is not modelled. A second key that equals an earlier one stays in the list, as in the library; sorted lookup is not modelled.
- Json.DumpToBuffer: members that were erased (no value) are not modelled; neither are printing to a file and printing errors by row and column.
- JsonSound.DocumentSound: for texts whose characters are single bytes. Where a text is given up is stated for one text of each kind.
- JsonText.DecodeText: what is read beyond the end of the string by an escape that is cut short is not modelled; it is the outcome `Overrun`.
- MergeIn.ExtIn.Next: keep-first is the only reducer modelled; other reducers and group callbacks are left out.
- ExternalSort.SortedOut.Write: the tag of a record is not kept (files give all their records the number of the file), merging of groups of files and the extra thread are not modelled. Files are lists of records; that a file gives its records back is `Buffered.ThroughPrefixFile`, for records below 2^31 bytes.
- Records.SortRecords: stands for the sort of the macro library, which is not part of this model; only order and content are used.
- Buffered.In.ReadDelimited: covers the default in which the last record must be complete; reading CSV across quotes and partial records are not modelled. `read` gives all bytes asked for unless the file ends.
- Buffered.AdvancePrefix: lengths from 2^31 on, which the reader takes for negative numbers, are not modelled.
- Csv.SplitCsv: what the code finds beyond the NUL of a line with an odd number of quotes is not modelled; it is the outcome without fields.
- Networking, HTTP, timers, allocation, command lines, the key-value stores and the unfinished modules are not modelled; block insertion and erasure in the search index neither.
