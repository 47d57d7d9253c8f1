# ob in Dafny

`ob` is a market-data pipeline: bytes from a socket become 72-byte records, records change
sorted books, books feed lock-free queues and a shared ring, and a log and statistics
follow. This project models its core in Dafny and proves what the pipeline is for. Run

    dafny verify dfyconfig.toml

## What is modelled

| module | part of the program |
|---|---|
| `Flow`, `QueueSteps` | the single-producer, single-consumer queue as interleaved atomic steps, and what each operation does |
| `RingProtocol`, `RingFile` | the one-writer, many-reader ring: all interleavings, and one thread at a time |
| `Codec`, `Framing` | the record, its bytes, and whole records in a buffer |
| `Ingest`, `Cuttings` | one connection's read loop, and when the cutting into reads matters |
| `WriteAheadLog` | the log, its crashes and its replay |
| `Symbols` | the open-addressing symbol table |
| `Side`, `Levels`, `Book` | a bounded side as a list and as two arrays, the book, and the unbounded reference book |
| `DepthWalk`, `VecBench` | cumulative sizes, fills, and the blocked prefix sum |
| `Feed` | the picture protocol that feeds the book |
| `Publisher` | symbols, shards, books, the two price lanes and the counters |
| `Fixed`, `Decimal` | midpoints, and decimal text |
| `Slippage`, `Markout` | the cost of an execution, and its markouts |
| `Histogram`, `Latency` | order statistics in buckets, stages, and coordinated omission |
| `Repaint` | the differential terminal renderer on a model of the terminal |
| `Arith` | machine integers over unbounded ones |

Code that changes state in place is a class whose methods are proved against a function
of the old state; what the program promises is then proved of runs of that function. The
two lock-free protocols are state machines with a program counter for each thread.

Both are modelled under sequential consistency: each atomic access is one step that every
thread sees at once. Positions and the publish counter do not wrap in 64 bits. `& mask` on a
power of two is written `%`, and `>>` is `/`. Arithmetic that wraps, truncates or saturates
in the release build is written out (`Wrap`, `Trunc`, `Clamp`).

## Where the code and its documentation part

Each of these is proved of the model, and most with the exact condition under which the
promise holds:

- Ring: the record's own number is checked once, after the copy. A reader whose slot is
  being reused can copy the number of the old record and the rest of a new one, so the
  promise of never returning an unfinished record holds if and only if the writer has not
  started on the record that reuses the slot when the copy ends (`RingProtocol.WrongIff`),
  or if slots are copied whole (`RingProtocol.WholeSlotsAreExact`).
- Queue: the slot numbers in `flow.rs` never reject the slot of a queued position
  (`Flow.PopRetriesOnlyAfterEviction`); under sequential consistency the compare-and-exchange
  on the consumer's index already keeps mixtures from escaping.
- Log: a crash takes at most 32 records if and only if the appends not yet synced, those of
  killed handles included, are at most 32 (`WriteAheadLog.CrashLossExactly`); one kill can
  take it to 62 (`WriteAheadLog.KillsAddUp`).
- Ingest: the constant-time count assumes that a bad header is the last. When it is not, how
  the bytes were cut can matter: `Cuttings.SameRecordsIff` says exactly when it decides which
  records are sent, `Cuttings.CuttingsAgreeIff` exactly when it decides anything. The 1 MiB guard, which the comment calls unreachable, fires on
  exactly the streams of `Cuttings.GuardFiresIff`, and can lose framing
  (`Ingest.DropLosesFraming`); what it sends even then is `Cuttings.SendsFronts`.
- Fills: the average price saturates once the traded value passes about 922 units, because
  line 362 of `book.rs` clamps before it divides (`DepthWalk.AverageSaturates`,
  `DepthWalk.RealisticFillSaturates`).
- Lanes: "a real price is never zero" is an assumption about the feed
  (`Publisher.LanesAgreeIff`).
- Midpoints are documented as rounded towards zero and are rounded down; the two agree if and
  only if the sum is even or not negative (`Fixed.MidTowardsZeroIff`). Two prices whose
  distance does not fit 64 bits overflow it, and only those (`Fixed.MidIsMean`).
- Pictures: a nonzero size below 1e-8 passes the adapter's zero test and deletes its price
  (`Feed.DustDeletes`); a picture heals a side if and only if none of the best prices it
  quotes ends that way (`Feed.PictureHealsIff`).
- Decimal text: the lowest 64-bit value prints but does not parse (`Decimal.FormatRoundTrip`).
- Latency: the comment on `backfill` says it starts from the last total of `record_sink` as
  well, and `record_sink` does not store it. It cannot be seen: a correction only ever follows
  a record whose total it starts from (`Latency.CorrectionStartsFromItsRecord`).
- Markouts: `resolve` refuses a midpoint of zero and `resolve_all` settles against it; they
  agree otherwise, and when nothing is due (`Markout.ResolvesAgreeIff`).
- A mirrored sell costs what the buy does if the differences fit 64 bits against the taker;
  past that they are measured differently (`Slippage.MirrorCostsTheSame`).

## Model

| member | source | states |
|---|---|---|
| `Flow.Run` | rust/ob/src/flow.rs:272-460 | every interleaving of push, pop and grant steps, payload words one at a time, keeps one invariant: queued slots hold exactly the accepted values, counters balance, loop counts are bounded |
| `Flow.StepKeepsInv` | rust/ob/src/flow.rs:272-460 | no single step of either thread breaks that invariant, under all four policies |
| `Flow.PoppedExactly` | rust/ob/src/flow.rs:402-460 | each value a pop returned is the value accepted at that position and positions strictly increase, so no mixture of two laps escapes |
| `Flow.QueueIsSuffix` | rust/ob/src/flow.rs:356-374 | the queue is a contiguous suffix of everything accepted and never exceeds capacity |
| `Flow.Conservation` | rust/ob/src/flow.rs:273-345 | with no push in flight: pushes = head + dropped + refused, tail = popped + evicted, and the results returned add up to the counters |
| `Flow.HighWaterBounds` | rust/ob/src/flow.rs:297-320 | the high-water mark bounds every occupancy, one record behind only between two stores of one push, and never exceeds capacity |
| `Flow.CreditConserved` | rust/ob/src/flow.rs:273-320 | credit granted = credit left + accepted (+ wraps of the 32-bit counter, of which there are none while grants fit it) |
| `Flow.LossByPolicy` | rust/ob/src/flow.rs:300-345 | only DropOldest loses an accepted record, and it refuses none; only Credit returns NoCredit |
| `Flow.LosslessFifo` | rust/ob/src/flow.rs:272-460 | under the other three policies the i-th pop returns the i-th accepted record |
| `Flow.EvictsOnlyWhenFull` | rust/ob/src/flow.rs:321-343 | an eviction happens only when the queue is full at that instant and removes exactly the oldest record |
| `Flow.PushIsBounded` | rust/ob/src/flow.rs:272-345 | loop iterations of one push: one, the spin budget plus one, or two under DropOldest with a strong compare-and-exchange |
| `Flow.PopRetriesOnlyAfterEviction` | rust/ob/src/flow.rs:402-460 | pop retries only if the position it is reading has been evicted |
| `QueueSteps.ProducerRefines` | rust/ob/src/flow.rs:272-345 | against an atomic queue: the head store appends the value its push was called with, an eviction takes the oldest of a full queue, no other step of a push changes the queue |
| `QueueSteps.ConsumerRefines` | rust/ob/src/flow.rs:402-460 | a pop takes the oldest record out, or returns nothing and then only at a step when the queue is empty; every other step of it changes nothing |
| `QueueSteps.AcceptedAreOffered` | rust/ob/src/flow.rs:272-345 | over any run what is accepted is the values of the pushes that reported so, in the order of the pushes |
| `QueueSteps.RefusesOnlyWhenFull` | rust/ob/src/flow.rs:300-345 | a push refuses only at a step when the queue is full or the credit gone, and Spin only after its whole budget |
| `QueueSteps.PushReports` | rust/ob/src/flow.rs:272-345 | which answer each way out of a push gives |
| `QueueSteps.PopCompletes` | rust/ob/src/flow.rs:402-460 | from any state, mid-pop or not, a pop running alone returns within 2 x record words + 9 steps, with the oldest record or, if the queue is empty, with nothing |
| `QueueSteps.PushCompletes` | rust/ob/src/flow.rs:272-345 | from any moment of it a push running alone returns within a bound and comes to what was expected of it |
| `QueueSteps.PushAlone` | rust/ob/src/flow.rs:272-345 | a whole push with the consumer still: answer, queue, mark, credit and eviction count under each policy, with room and without |
| `QueueSteps.GrantAdds` | rust/ob/src/flow.rs:494-496 | a grant between pops adds to the credit modulo 32 bits and does nothing else |
| `QueueSteps.HighWaterIsPeak` | rust/ob/src/flow.rs:297-320 | the mark is the most that was ever queued at once, to within the record being published |
| `Codec.DecodeEncode` | rust/ob/src/codec.rs:102-174 | a record survives encoding and decoding exactly when its two header fields are right, with the error for each wrong one |
| `Codec.EncodeOfDecode` | rust/ob/src/codec.rs:102-174 | a span that decodes is the encoding of what it decodes to |
| `Codec.DecodesIffValidSpan` | rust/ob/src/codec.rs:130-174 | which 72-byte spans decode, byte by byte, both directions |
| `Codec.EncodeWire` | rust/ob/src/codec.rs:102-121 | filling the array at the fixed offsets gives the documented little-endian layout |
| `Codec.WireLayout` | rust/ob/src/codec.rs:102-121 | every byte of an encoded record: offsets, widths, lowest byte first, type and side codes, two's complement |
| `Codec.DecodeAnswers` | rust/ob/src/codec.rs:130-174 | which error each bad span gets; a good one is the encoding of its record |
| `Codec.SeqAndStampIs` | rust/ob/src/codec.rs:289-294 | the short form answers exactly for spans with the six header bytes, with the numbers at bytes 8 and 16 |
| `Codec.HeaderIsSixBytes` | rust/ob/src/codec.rs:235-238 | the header check compares six fixed bytes |
| `Codec.StampAgreesWithDecode` | rust/ob/src/codec.rs:289-294 | reading only number and stamp agrees with the full decode |
| `Framing.ValidPrefixLen` | rust/ob/src/codec.rs:186-195 | the scan returns the index of the first bad header |
| `Framing.CountStreamRecords` | rust/ob/src/codec.rs:218-228 | the constant-time count: every whole span when the last header is right, otherwise those before the first bad one; never fewer than the scan |
| `Framing.StreamRecordsAllOk` | rust/ob/src/codec.rs:218-228 | on clean headers the constant-time count and the scan agree and count everything |
| `Framing.StreamRecordsDiffers` | rust/ob/src/codec.rs:186-228 | the two counts differ exactly when a bad header hides behind a good last one |
| `Framing.DecodeBatch` | rust/ob/src/codec.rs:260-278 | batch decoding writes, in order, what decoding everything would, cut to the output, and leaves the rest of it |
| `Framing.BaselineDecode` | rust/ob-cli/src/bin/vecbench.rs:422-433 | the obvious decoder writes the same records |
| `Framing.DecodeAllConcat` | rust/ob/src/codec.rs:260-278 | decoding splits at any record boundary |
| `Framing.OneSpan` | rust/ob/src/codec.rs:260-278 | one span decodes to the record it encodes or to nothing, fewer bytes to nothing |
| `Ingest.Connection.Receive` | rust/ob-cli/src/ingest.rs:137-163 | one turn of the read loop: count, decode in batches of 64, keep the partial record |
| `Ingest.Connection.Serve` | rust/ob-cli/src/ingest.rs:123-165 | the whole loop is the fold of that turn over the reads |
| `Cuttings.SendsFronts` | rust/ob-cli/src/ingest.rs:123-165 | every run, guard and all: the stream falls into one part more than the guard fired, and what is sent is the decode of a whole-record front of each part |
| `Cuttings.SendsFront` | rust/ob-cli/src/ingest.rs:123-165 | on a stream the guard cannot fire on, whatever the cutting, what is sent is the decode of a whole-record front part and every span is counted once |
| `Cuttings.CuttingsAgreeIff` | rust/ob/src/codec.rs:218-228 | on such a stream all cuttings into reads of up to a limit end in the same state (records, pending bytes, counters) if and only if no header from the first bad one on is right, or the last whole one is, or the last run of right ones is too long for one read |
| `Cuttings.SameRecordsIff` | rust/ob/src/codec.rs:218-228 | on such a stream all cuttings send the same records, which are then all that decode, if and only if no frame decodes behind a bad one that is followed only by runs one read can pass over and a bad last frame |
| `Cuttings.GuardFiresIff` | rust/ob-cli/src/ingest.rs:160-163 | the guard can fire if and only if more than 1 MiB lies behind some bad frame up to another, with only runs between them that one read can pass over |
| `Cuttings.SafeStreams` | rust/ob-cli/src/ingest.rs:160-163 | so never on a stream of up to 1 MiB, nor on one whose headers are all right |
| `Cuttings.SettledProgress` | rust/ob/src/codec.rs:218-228 | which frames every cutting of a settled stream has handled |
| `Ingest.CleanStream` | rust/ob-cli/src/ingest.rs:123-165 | with valid headers every whole frame is handled by the pass that completes it |
| `Ingest.AlwaysCounted` | rust/ob-cli/src/ingest.rs:123-165 | every run counts each record it sends and each byte it reads |
| `Ingest.CleanPending` | rust/ob-cli/src/ingest.rs:137-163 | then fewer than 72 bytes are ever pending and the 1 MiB guard never fires |
| `Ingest.RestartsWhenEmpty` | rust/ob-cli/src/ingest.rs:123-165 | with nothing pending a connection goes on exactly as a new one |
| `Ingest.DropLosesFraming` | rust/ob-cli/src/ingest.rs:160-163 | when the guard does fire, framing is lost: a record is sent that no whole-record front part of the stream holds |
| `WriteAheadLog.Wal.constructor` | rust/ob/src/wal.rs:81-106 | opening is the machine's step: truncate, or trim the torn tail |
| `WriteAheadLog.Wal.Append` | rust/ob/src/wal.rs:123-134 | append is the machine's write followed by its automatic sync |
| `WriteAheadLog.Wal.Sync` | rust/ob/src/wal.rs:137-150 | sync is the machine's step, by policy |
| `WriteAheadLog.Wal.Drop` | rust/ob/src/wal.rs:158-164 | a handle going away is the machine's close |
| `WriteAheadLog.Replay` | rust/ob/src/wal.rs:205-246 | replay in batches of 256 equals decoding the whole body at once, with seen, rejected and torn-tail counts |
| `WriteAheadLog.ReplayIsLog` | rust/ob/src/wal.rs:205-246 | after any run of appends, syncs, kills, short writes, crashes and reopenings, replay returns exactly the surviving records and rejects only those appended with a wrong header |
| `WriteAheadLog.LogHistory` | rust/ob/src/wal.rs:81-150 | exactly what each event does to the surviving records |
| `WriteAheadLog.DurableHistory` | rust/ob/src/wal.rs:81-164 | exactly what each event does to the durable length, the file and the appends still owed a sync: the automatic sync comes at the 32nd append |
| `WriteAheadLog.CrashThenAppend` | rust/ob/src/wal.rs:205-246 | after a crash at any byte and reopening, replay returns a front part of what was there, every durable record included, followed by what was appended later |
| `WriteAheadLog.CrashLossExactly` | rust/ob/src/wal.rs:43-56 | under Data and Full the worst crash takes exactly the unsynced appends of the open handle and of killed ones, so at most 32 if and only if those are at most 32 |
| `WriteAheadLog.CrashLossBounded` | rust/ob/src/wal.rs:43-56 | hence at most 32 for the open handle and 32 for each handle killed since the last sync |
| `WriteAheadLog.KillsAddUp` | rust/ob/src/wal.rs:43-56 | a run with one kill in which a crash takes 62 |
| `WriteAheadLog.RunKeepsFile` | rust/ob/src/wal.rs:81-150 | in every reachable state the file is the encoding of the surviving records plus a torn tail |
| `RingProtocol.Run` | rust/ob/src/ring.rs:225-243 | every interleaving of one writer and any readers, bytes stored and copied in any order and pieces, keeps the ring invariant |
| `RingProtocol.StepKeepsInv` | rust/ob/src/ring.rs:225-464 | no step of writer or reader breaks it |
| `RingProtocol.ReadersSeePublished` | rust/ob/src/ring.rs:406-443 | a reader's numbers strictly increase, are already published, and a record copied before its slot was overtaken is exactly the one published under the old cursor |
| `RingProtocol.ClearCopyIsFresh` | rust/ob/src/ring.rs:406-443 | while the slot is not overtaken the copy always yields the record asked for |
| `RingProtocol.ReloadProvesClear` | rust/ob/src/ring.rs:406-443 | a counter less than a lap ahead after the copy proves the copy was clear |
| `RingProtocol.WholeSlotsAreExact` | rust/ob/src/ring.rs:225-443 | with slot store and slot copy each one step, every fresh record is exactly the published one, however far the writer has run on |
| `RingProtocol.WrongIff` | rust/ob/src/ring.rs:427-442 | a reader can be handed, under its cursor, something other than the record published there if and only if the writer had started on the record that reuses the slot when the copy ended; for every ring size, cursor and progress |
| `RingProtocol.ReadersGetWhatWasGiven` | rust/ob/src/ring.rs:225-443 | over any run a record whose copy was clear has the type, side, stamp, ids, price, size and symbol the writer was called with under that number, and a right header |
| `RingProtocol.PublishAlone` | rust/ob/src/ring.rs:225-243 | one publish adds the caller's record to the log under the next number |
| `RingProtocol.AcquireDecides` | rust/ob/src/ring.rs:406-426 | a lapped reader moves to the oldest record whose slot has not been reused and takes nothing; one that is not starts copying at its cursor |
| `RingProtocol.StaleSkips` | rust/ob/src/ring.rs:427-442 | a finished copy that is not handed over moves the reader to the count it had loaded |
| `RingProtocol.ReadAlone` | rust/ob/src/ring.rs:406-443 | with the writer idle at most two loads and a copy hand over the oldest record still there |
| `RingProtocol.TornRecordEscapes` | rust/ob/src/ring.rs:427-442 | the run that shows it, for any two records: the front of one with the size and symbol of the other |
| `RingFile.Ring.LagIsLostPlusHeld` | rust/ob/src/ring.rs:367-369 | a lag is the records lost to being lapped plus those still held; some are lost exactly when it exceeds the ring |
| `RingFile.Ring.Publish` | rust/ob/src/ring.rs:225-243 | publishing assigns the next number, sets the header, keeps every other field of the caller's record, and keeps the last lap of the log in the slots |
| `RingFile.Ring.TimestampAt` | rust/ob/src/ring.rs:383-400 | a stamp is answered exactly while the ring still holds that record |
| `RingFile.Ring.Consume` | rust/ob/src/ring.rs:406-443 | with the writer idle: empty, resynchronised or fresh, and never stale; a fresh record has the fields it was published with |
| `RingFile.Ring.ConsumeBatch` | rust/ob/src/ring.rs:451-464 | draining terminates and yields exactly the records from max(cursor, published - capacity), in order |
| `Symbols.SymbolTable.Lookup` | rust/ob/src/symbol.rs:127-141 | with any hash the probe terminates and finds a symbol exactly when it is interned, at its id |
| `Symbols.SymbolTable.Intern` | rust/ob/src/symbol.rs:150-168 | interning refines the injective numbering, growth included |
| `Symbols.SymbolTable.Grow` | rust/ob/src/symbol.rs:194-211 | rehashing keeps every id and doubles the table, refused at the ceiling |
| `Symbols.SymbolTable.InsertBucket` | rust/ob/src/symbol.rs:214-221 | an id goes to the first empty bucket of its probe |
| `Symbols.SymbolTable.constructor` | rust/ob/src/symbol.rs:93-106 | a new table stands for the empty numbering; twice as many buckets as symbols |
| `Symbols.RunIsStable` | rust/ob/src/symbol.rs:150-211 | over any run ids are dense and injective and never change |
| `Symbols.IssueAnswers` | rust/ob/src/symbol.rs:150-200 | Full occurs exactly for a new symbol at the ceiling and changes nothing; any other answer is what lookup will give ever after |
| `Symbols.InsertKeepsPlaced` | rust/ob/src/symbol.rs:214-221 | filling the first empty bucket cuts no other symbol's probe path |
| `Symbols.NotThere` | rust/ob/src/symbol.rs:127-141 | an empty bucket met before the symbol proves its absence |
| `Symbols.SomeBucketEmpty` | rust/ob/src/symbol.rs:93-106 | with fewer ids than buckets some bucket is empty, so probing stops |
| `Symbols.RoundsToPowerOfTwo` | rust/ob/src/symbol.rs:93-106 | table sizes are rounded up to the least power of two that is large enough |
| `Levels.Levels.Locate` | rust/ob/src/book.rs:191-205 | the scan finds the sorted place and whether the price is there |
| `Side.PresentIffHas` | rust/ob/src/book.rs:191-205 | in a sorted side the scan finds a price exactly when it is there |
| `Levels.Levels.ShiftRight` | rust/ob/src/book.rs:241-246 | the in-place shift of both arrays |
| `Levels.Levels.UpsertLevel` | rust/ob/src/book.rs:212-237 | in-place insert, replace or worst-level eviction equals the list operation, with its three answers and the overflow count |
| `Levels.Levels.EraseLevel` | rust/ob/src/book.rs:249-263 | in-place removal equals the list operation |
| `Levels.Levels.CopyTop` | rust/ob/src/book.rs:272-286 | copies the best levels out, as many as asked, present and fitting |
| `Levels.Levels.Cumulative` | rust/ob/src/book.rs:313-321 | running totals are the wrapped prefix sums of the sizes |
| `Levels.Levels.TakeSize` | rust/ob/src/book.rs:332-364 | the fill loop computes the walk |
| `Side.UpsertKeepsBest` | rust/ob/src/book.rs:212-237 | an insert keeps the bounded side the best entries of the unbounded map |
| `Side.EraseKeepsBestIff` | rust/ob/src/book.rs:249-263 | a delete keeps it exactly when the price was not listed or the map fits the side: an evicted level never comes back |
| `Side.UpsertMembers` | rust/ob/src/book.rs:212-237 | which levels an insert or replace leaves: a full side takes a new price only if it is better than its worst, which then goes |
| `Side.EraseMembers` | rust/ob/src/book.rs:249-263 | which levels a delete leaves |
| `Side.BestOfReference` | rust/ob/src/book.rs:191-263 | with no delete since the last reset the bounded side is the best C entries of the unbounded book, however many were evicted |
| `Side.AlwaysInside` | rust/ob/src/book.rs:191-263 | over every run each bounded level is in the unbounded book with the same size, in order |
| `Side.AgreesFully` | rust/ob/src/book.rs:191-263 | while no more than C prices are live both books agree on everything |
| `Side.AlwaysShowsBest` | rust/ob/src/book.rs:191-263 | over every run, deletes included, a side shows only live prices, each at its last size, and every live one with fewer than C prices named above it since the last reset |
| `Side.ShowsBestIff` | rust/ob/src/book.rs:191-263 | so it is the best C of the prices named since the last reset, at their last sizes, if and only if none of those C was last deleted |
| `Side.BestIsTop` | include/ob/book.hpp:50-64 | listing the best entries is walking the reference map from its best price |
| `Side.TopIsBest` | include/ob/book.hpp:50-64 | and the walk lists the best entries |
| `Side.ResetHeals` | rust/ob/src/book.rs:458-485 | a side's contents depend only on what came after its last reset |
| `Book.Book.ApplyRecord` | rust/ob/src/book.rs:458-485 | applying a record in place is the book state machine, all five outcomes |
| `Book.Book.MidE8` | rust/ob/src/book.rs:514-516 | the midpoint of the two best prices, absent unless both are there |
| `Book.SidesAreIndependent` | rust/ob/src/book.rs:458-485 | each side sees only its own records |
| `Book.ReferenceSides` | include/ob/book.hpp:37-49 | so does each side of the reference, and both books carry the same last sequence number |
| `Book.ReferenceAnswers` | include/ob/book.hpp:37-49 | what every record does to the unbounded reference |
| `Book.MatchesReference` | include/ob/book.hpp:37-64 | for records naming one side: the bounded book against the reference, contents, best C, and full agreement |
| `Book.BothSidesDiffer` | include/ob/book.hpp:39 | a record naming both sides is where the two implementations part |
| `Book.ApplyKeepsSound` | rust/ob/src/book.rs:458-485 | both sides stay sorted and within depth whatever arrives |
| `Book.ApplyAnswers` | rust/ob/src/book.rs:458-485 | what every record does to the levels, the sequence number and the count, and what is answered: an overflow exactly when the side is full of better prices |
| `DepthWalk.TakesTheMinimum` | rust/ob/src/book.rs:332-364 | a fill takes min(request, total) and stops at the first level whose cumulative size reaches the request |
| `DepthWalk.AverageIsBounded` | rust/ob/src/book.rs:355-364 | the average is at most the highest price touched and above the lowest less the truncation error, when notional x 1e8 fits |
| `DepthWalk.AverageSaturates` | rust/ob/src/book.rs:362 | past 64 bits the average is a constant over the size; it is the true quotient exactly while the product stays below the next multiple of the size |
| `DepthWalk.RealisticFillSaturates` | rust/ob/src/book.rs:362 | one whole unit at 65,000 is such a fill |
| `DepthWalk.NotionalIsMin` | rust/ob/src/book.rs:343-354 | saturating at every level is saturating the exact sum once |
| `DepthWalk.ExactBounds` | rust/ob/src/book.rs:343-354 | what truncating each level's share can lose |
| `DepthWalk.FillReports` | rust/ob/src/book.rs:332-364 | the best price; the notional as each level's own price times what is taken from it, cut and saturated once; the average as that over the size |
| `DepthWalk.FillOfAnySign` | rust/ob/src/book.rs:332-364 | the same for prices of any sign while the sums fit 64 bits |
| `DepthWalk.NoFill` | rust/ob/src/book.rs:332-335 | nothing is reported for an empty side or a size that is not positive |
| `DepthWalk.WorthIsValue` | rust/ob/src/book.rs:343-354 | cutting moves the worth by less than one unit a level, and never up when no price is negative |
| `DepthWalk.AverageIsWeighted` | rust/ob/src/book.rs:355-364 | the average is the size-weighted mean of the prices taken: never above it, and below it by less than one unit and what cutting loses |
| `DepthWalk.DepthCosts` | rust/ob/src/book.rs:323-364 | what a fill takes past the best level makes its average worse than the best price: always when selling, and when buying once the excess outweighs the rounding |
| `DepthWalk.TwoLevelFill` | rust/ob/src/book.rs:332-364 | a fill over two levels, worked out |
| `VecBench.CumulativeBlocked` | rust/ob-cli/src/bin/vecbench.rs:481-531 | the blocked prefix sum equals the sequential one for every length and output |
| `Fixed.MidIsMean` | rust/ob/src/fixed.rs:79-86 | the midpoint is the mean rounded down if and only if the distance fits 64 bits; then it is between the two |
| `Fixed.MidTowardsZeroIff` | rust/ob/src/fixed.rs:72-86 | it is the mean rounded towards zero, as documented, if and only if the sum is even or not negative |
| `Fixed.MidBelowZero` | rust/ob/src/fixed.rs:72-86 | an input where it is not |
| `Fixed.MidOfSameSign` | rust/ob/src/fixed.rs:79-86 | prices of the same sign always have a fitting distance |
| `Fixed.DeltaBpsIs` | rust/ob/src/fixed.rs:198-204 | a relative move is the ratio cut towards zero with the sign of the two, saturated; zero against no reference |
| `Decimal.ParseScaled` | rust/ob/src/fixed.rs:224-267 | the checked loop reads exactly what the text denotes, absent when malformed or too large |
| `Decimal.FormatScaled` | rust/ob/src/fixed.rs:275-306 | rounding the fraction with a carry prints the whole value rounded half away from zero |
| `Decimal.SplitRounding` | rust/ob/src/fixed.rs:282-292 | rounding the fraction alone and carrying is rounding the whole number |
| `Decimal.ParseIff` | rust/ob/src/fixed.rs:224-267 | which texts are numbers (a sign or none, digits, at most one point, at most eight places, a digit somewhere, no overflow) and which number each is |
| `Decimal.FormatShape` | rust/ob/src/fixed.rs:275-306 | what is printed: a minus only before a number not printed as zero, no leading zeros, exactly as many places as asked for up to eight |
| `Decimal.QtyShape` | rust/ob/src/fixed.rs:178-185 | a size is shown without zeros at the end and without a last point |
| `Decimal.FormatReadsBack` | rust/ob/src/fixed.rs:224-306 | what any printed text reads back as: the nearest multiple of its unit, halves away from zero, unless rounding carried it past 64 bits |
| `Decimal.FormatRoundTrip` | rust/ob/src/fixed.rs:224-306 | with eight places parsing undoes printing if and only if the value is not the lowest one |
| `Decimal.QtyRoundTrip` | rust/ob/src/fixed.rs:178-185 | so does the trimmed display of a size |
| `Decimal.TrimmedFraction` | rust/ob/src/fixed.rs:309-315 | dropping final zeros keeps the amount |
| `Feed.ParseDepth5` | python/feed_adapter.py:301-321 | a picture becomes reset-then-levels for each present side, zero sizes skipped, unpackable numbers an error |
| `Feed.QuotesBuild` | python/feed_adapter.py:301-321 | a side's records build exactly what its quotes say, the last duplicate winning |
| `Feed.QuoteRecords` | python/feed_adapter.py:140-164 | each quote with a size becomes one update with right header, side and symbol, its numbers in units of 1e-8 cut towards zero; none when one does not fit 64 bits |
| `Feed.PictureRecords` | python/feed_adapter.py:301-321 | for each side present a reset and then its updates, bids first |
| `Feed.PictureHeals` | python/feed_adapter.py:301-321 | from any prior book one complete picture leaves each side the best C of its own levels, nothing else |
| `Feed.SaysOnlyQuoted` | python/feed_adapter.py:301-321 | no price survives that the picture did not quote |
| `Feed.PictureHealsIff` | python/feed_adapter.py:301-321 | from any prior book, one complete picture of any length leaves a side the best C of its own levels if and only if none of those C ends with a size too small for eight decimals |
| `Feed.QuotesBuildLive` | python/feed_adapter.py:316-320 | dust or not, the records name what the quotes say and build that less the prices left at zero |
| `Feed.DeletesIffDust` | python/feed_adapter.py:316-320 | the records delete something exactly when a nonzero size is too small for eight decimals |
| `Feed.DustDeletes` | python/feed_adapter.py:140-164 | such a size deletes the price it was meant to set |
| `Publisher.Publisher.constructor` | rust/ob/src/cache.rs:800-846 | a new publisher, its shard count rounded up to a power of two |
| `Publisher.Publisher.InternSymbol` | rust/ob/src/cache.rs:350-354 | interning refines the flat specification for every shard count and keeps the lanes long enough |
| `Publisher.Publisher.PublishRecord` | rust/ob/src/cache.rs:362-461 | publishing refines a specification that knows no shards: books, outcome and all seven counters |
| `Publisher.Publisher.ApplyAt` | rust/ob/src/cache.rs:378-402 | the sharded book and the two lanes change together, at one id |
| `Publisher.Publisher.EnsureTouchCapacity` | rust/ob/src/cache.rs:614-620 | the lanes grow with zeros and keep what they hold |
| `Publisher.Publisher.BookOf` | rust/ob/src/cache.rs:497-501 | which book, and when there is one |
| `Publisher.Publisher.MidE8` | rust/ob/src/cache.rs:492-494 | a symbol's midpoint does not depend on the shards |
| `Publisher.Publisher.MidsInto` | rust/ob/src/cache.rs:567-593 | the lane kernel writes every symbol's lane midpoint, in bounds, and nothing else |
| `Publisher.BaselineMids` | rust/ob-cli/src/bin/vecbench.rs:407-417 | the per-symbol loop writes every book's midpoint or zero |
| `Publisher.Publisher.Touch` | rust/ob/src/cache.rs:599-607 | both best prices, or none unless both are priced |
| `Publisher.RunPublisher` | rust/ob/src/cache.rs:350-461 | after any run of intern and publish the books, ids and counters are the same for every shard count and every hash |
| `Publisher.StoreIsUpdate` | rust/ob/src/cache.rs:378-391 | one slot is one symbol: a store changes that id and no other, for any shard count |
| `Publisher.BookIsItsOwnRecords` | rust/ob/src/cache.rs:350-461 | after any run a symbol's book is the run of that symbol's own records |
| `Publisher.CountersAddUp` | rust/ob/src/cache.rs:362-420 | published = applied + ignored + unknown + wrong side; applied is the sum over the books |
| `Publisher.PublishAnswers` | rust/ob/src/cache.rs:362-420 | the outcome of every record and which counters change: ignored, unknown symbol, wrong side, or applied with overflow and crossing |
| `Publisher.LanesAgreeIff` | rust/ob/src/cache.rs:567-593 | lane and book midpoints agree exactly when no best price of zero stands on one of two present sides with a midpoint other than zero |
| `Publisher.LanesAgreeOnPositiveRuns` | rust/ob/src/cache.rs:567-593 | so on every run with positive prices they agree for every symbol |
| `Publisher.VisibilityDependsOnShards` | rust/ob/src/cache.rs:497-501 | whether a book is found at all is independent of the shard count exactly when the symbol has had a record or no later symbol has |
| `Publisher.ShardCountShows` | rust/ob/src/cache.rs:350-354 | a run where it shows: one symbol registered ahead, another recorded |
| `Histogram.Histogram.Record` | rust/ob/src/latency.rs:142-152 | counts, count, saturating sum, minimum and maximum stay functions of the samples |
| `Histogram.Histogram.QuantileAt` | rust/ob/src/latency.rs:201-225 | the quantile at a fraction, clamped to [0, 1]: it answers for the smallest sample that has the fraction at or below it, with its bucket's upper bound, or the largest sample in the last bucket |
| `Histogram.Histogram.Quantile` | rust/ob/src/latency.rs:205-225 | rank k answers the upper bound of the k-th smallest sample's bucket, the exact maximum in the last one |
| `Histogram.Histogram.Merge` | rust/ob/src/latency.rs:237-251 | merging is recording both sample lists |
| `Histogram.NeverBelow` | rust/ob/src/latency.rs:196-225 | the answer is never below the k-th smallest sample |
| `Histogram.FirstToReach` | rust/ob/src/latency.rs:209-224 | the first bucket at which the running count reaches k is that sample's bucket |
| `Histogram.RankExists` | rust/ob/src/latency.rs:205-208 | every rank belongs to exactly one value, one of the samples |
| `Histogram.OrderIrrelevant` | rust/ob/src/latency.rs:142-152 | the multiset of samples decides everything |
| `Histogram.BelowCounts` | rust/ob/src/latency.rs:201-225 | how many samples lie below a value, counted by position |
| `Histogram.OneSample` | rust/ob/src/latency.rs:142-152 | what one sample adds to each bucket, the sum and the extremes |
| `Histogram.SmallestRank` | rust/ob/src/latency.rs:205-208 | the rank of a fraction is the smallest that covers it |
| `Latency.LatencyTracker.ClassifyStamp` | rust/ob/src/latency.rs:469-486 | usable, absent or implausible, counted once |
| `Latency.LatencyTracker.RecordSource` | rust/ob/src/latency.rs:426-439 | stages 1 and 2 and their total |
| `Latency.LatencyTracker.RecordSink` | rust/ob/src/latency.rs:449-462 | stage 3 and the whole path |
| `Latency.LatencyTracker.RecordAll` | rust/ob/src/latency.rs:399-419 | all three stages |
| `Latency.LatencyTracker.Backfill` | rust/ob/src/latency.rs:533-557 | the bounded loop records exactly the missed samples and counts truncation |
| `Latency.LatencyTracker.RecordSourceWithExpectedInterval` | rust/ob/src/latency.rs:516-524 | recording followed by the correction |
| `Latency.LatencyTracker.RecordWithExpectedInterval` | rust/ob/src/latency.rs:505-508 | the same for all three stages at once |
| `Latency.MissedIsExact` | rust/ob/src/latency.rs:533-557 | min(4096, observed / interval - 1) samples when observed exceeds an interval that is not zero, else none; the k-th being observed - k x interval, all between interval and observed - interval |
| `Latency.RecordMeans` | rust/ob/src/latency.rs:399-486 | what one record does to every counter, stage and total: a stamp under one second is stage one, any other counts as none |
| `Latency.MaximumIsObserved` | rust/ob/src/latency.rs:488-557 | over any run the maximum of the totals is the largest single record's total |
| `Latency.ImplausibleStampsVanish` | rust/ob/src/latency.rs:469-486 | over any run a rejected stamp contributes to nothing, corrections included |
| `Latency.StampsAddUp` | rust/ob/src/latency.rs:464-486 | every stamp is counted exactly once |
| `Latency.CorrectionStartsFromItsRecord` | rust/ob/src/latency.rs:528-557 | a correction always starts from the total of the record it follows, whatever was remembered before |
| `Latency.StagesAreSeparate` | rust/ob/src/latency.rs:399-462 | over any run each stage's distribution holds that stage's readings in order, and no correction reaches it |
| `Markout.SymbolLedger.Queue` | rust/ob/src/slippage.rs:336-349 | an execution takes the slot after the last and counts an unfinished one it overwrites |
| `Markout.SymbolLedger.SettleSlot` | rust/ob/src/slippage.rs:410-436 | the due horizons of one slot are settled and credited |
| `Markout.SymbolLedger.ResolveIn` | rust/ob/src/slippage.rs:403-439 | one sweep over the 64 slots, returning how many horizons settled |
| `Markout.SlippageLedger.Record` | rust/ob/src/slippage.rs:316-348 | cost, disabled ledger and unknown symbol; no other ledger changes |
| `Markout.SlippageLedger.Resolve` | rust/ob/src/slippage.rs:358-367 | one symbol; nothing on a zero midpoint |
| `Markout.SlippageLedger.ResolveAll` | rust/ob/src/slippage.rs:379-396 | every symbol with a midpoint, the count being the sum |
| `Markout.ResolvesAgreeIff` | rust/ob/src/slippage.rs:358-396 | settling one symbol and sweeping all do the same to it if and only if the midpoint is not zero or nothing is due |
| `Markout.SweepChangesIff` | rust/ob/src/slippage.rs:403-439 | a sweep changes a ledger exactly when something is due |
| `Markout.SlippageLedger.constructor` | rust/ob/src/slippage.rs:273-282 | at least one ledger, all new |
| `Markout.MarkFavoursTheTaker` | rust/ob/src/slippage.rs:420-426 | a mark is the move over the execution's price, positive when it favours the taker |
| `Markout.Conservation` | rust/ob/src/slippage.rs:316-439 | at each horizon executions = settled + waiting + overwritten; dropped counts exactly those overwritten unfinished |
| `Markout.DroppedHadGaps` | rust/ob/src/slippage.rs:336-349 | the dropped count is how many overwritten observations had a horizon unsettled |
| `Markout.SettlesAtMostOnce` | rust/ob/src/slippage.rs:420-431 | a settled pair keeps its mark through any further run |
| `Markout.NeverEarly` | rust/ob/src/slippage.rs:416-431 | each mark is the move some sweep saw after the execution, and no earlier than its horizon |
| `Markout.OverwrittenByTheSixtyFourth` | rust/ob/src/slippage.rs:336-349 | an observation is overwritten exactly by the 64th newer execution |
| `Markout.RunBalanced` | rust/ob/src/slippage.rs:316-439 | every reachable ledger is balanced: ring position, tallies, finished flags |
| `Markout.SweepMarksIff` | rust/ob/src/slippage.rs:403-439 | exactly which marks a sweep makes after any run: unmarked, fewer than 64 executions since, horizon passed; a new mark is the move to the midpoint |
| `Markout.WatchesItsExecution` | rust/ob/src/slippage.rs:316-349 | the n-th observation has the n-th execution's time, side and price |
| `Markout.MarkoutSummarises` | rust/ob/src/slippage.rs:420-431 | each accumulator is the number, the sum and the worst of the marks made |
| `Slippage.PartsAddUp` | rust/ob/src/slippage.rs:442-473 | latency + depth is within 1 of the shortfall, tighter than the 2 the tests allow |
| `Slippage.NoReference` | rust/ob/src/slippage.rs:442-449 | without a decision price every cost is zero |
| `Slippage.CostsAreSigned` | rust/ob/src/slippage.rs:442-461 | each part is a cost exactly in the taker's direction, and each has the size of its own difference over the price to within one |
| `Slippage.MirrorCostsTheSame` | rust/ob/src/slippage.rs:442-473 | a sell meeting the opposite price differences is measured exactly as the buy if and only if they fit, and then costs the same |
| `Slippage.MirrorIff` | rust/ob/src/slippage.rs:450-461 | opposite differences saturate alike unless the one against the taker is below the negative of the largest value |
| `Slippage.SaturationBreaksTheMirror` | rust/ob/src/slippage.rs:450-461 | two mirrored executions past that which cost differently |
| `Slippage.SpreadIsTwiceDepth` | rust/ob/src/slippage.rs:462-466 | the effective spread is twice the depth cost or one more, for a positive reference |
| `Slippage.OrdinaryPricesFit` | rust/ob/src/slippage.rs:442-473 | which prices never saturate |
| `Slippage.RecoversWithin` | rust/ob/src/slippage.rs:480-486 | a price from a spread shows the spread back: never more, exact iff the product is whole, within one iff its remainder is at most the midpoint |
| `Slippage.RecoversAboveAHundredth` | rust/ob/src/fixed.rs:198-204 | so always within one from a hundredth of a unit upwards |
| `Slippage.RecoversTwoShort` | rust/ob/src/slippage.rs:480-486 | and not always below |
| `Slippage.PriceIsApart` | rust/ob/src/slippage.rs:480-486 | a price from a spread of either sign is the midpoint and that part of it, cut towards zero |
| `Repaint.FrameCache.Render` | rust/ob-view/src/line.rs:241-292 | the renderer writes exactly the patch, erases and cursor specified; written + skipped = visible |
| `Repaint.FrameCache.PatchRows` | rust/ob-view/src/line.rs:264-282 | rows whose hash changed are written and stored |
| `Repaint.RenderShows` | rust/ob-view/src/line.rs:241-292 | one frame shows what a full repaint would if and only if no skipped row looks different from the one on the screen |
| `Repaint.AlwaysAFullRepaint` | rust/ob-view/src/line.rs:241-292 | for any run of frames, sizes and resizes the screen is what clearing and drawing the last frame alone would show |
| `Repaint.TooWideBreaks` | rust/ob-view/src/line.rs:262-282 | with a row wider than the screen the patch and the full repaint differ |
| `Repaint.AlwaysShowsTheFrame` | rust/ob-view/src/line.rs:241-292 | after any run the screen is the last frame: its rows from the top, blank to the end and below, the pen reset, the cursor where asked |
| `Repaint.TerminalWraps` | rust/ob-view/src/line.rs:233-236 | the terminal itself: positions are clamped, a row too long goes on to the next, one too many scrolls the screen |
| `Repaint.RowShowsItsSpans` | rust/ob-view/src/line.rs:296-307 | each character of a row is drawn in the pen of its own span |
| `Repaint.PlainStartsAfresh` | rust/ob-view/src/line.rs:40-61 | a span after a plain one shows its own style only; styles otherwise add up |
| `Repaint.WrittenIff` | rust/ob-view/src/line.rs:262-282 | a row is written exactly when its hash is not the stored one |
| `Repaint.SkippedCounts` | rust/ob-view/src/line.rs:262-282 | the count of skipped rows is how many hashes were the stored ones |
| `Repaint.SameFrameWritesNothing` | rust/ob-view/src/line.rs:262-282 | rendering the frame that is already there writes no row |
| `Repaint.RowIsDrawn` | rust/ob-view/src/line.rs:270-274 | position, write, erase draws exactly that row and touches nothing else |
| `Repaint.RowWidth` | rust/ob-view/src/line.rs:296-307 | a row takes as many columns as it is wide |
| `Repaint.RowsAreText` | rust/ob-view/src/line.rs:296-307 | every row ends with the pen reset |
| `Repaint.FullRepaintShows` | rust/ob-view/src/line.rs:252-261 | what clearing and drawing a frame shows |

## Left out

- Memory orders weaker than sequential consistency, in both lock-free protocols.
- Wrap-around of 64-bit positions, counters and histogram counts; the 32-bit credit counter's wrap is modelled.
- `Consumer::drain` and `Subscriber::apply_to`: loops over pop, adding nothing to it.
- Mapping files, file identity, sync calls that fail, sockets, threads, signals and clocks: the file is bytes with a durable length, a read is some bytes, time is an argument.
- Log: a caller that goes on appending with a handle whose write has failed part-way; the handle is taken to be killed (`ShortWrite`) or dropped, which syncs (`FailedWrite`).
- A publisher whose channel hangs up in the middle of a batch, after which `serve` returns.
- Publisher: the books inside the shards are values and not `Book` objects, whose in-place methods are proved against the same functions; aliasing of shards is not captured.
- Publisher: fan-out to the queues, the latency and slippage calls, and the level, fill and top accessors.
- Book: spread, inside and the per-fill helper ratios, which are one expression each.
- DepthWalk: sizes that are negative are computed by the same functions but the fill theorems need positive ones.
- Feed: binary floating point. Quotes are real numbers and packing cuts them exactly.
- Histogram: the logarithmic bucket map and its powers; any monotone map with the two bounds is allowed.
- Quantile: takes the integer rank; the fraction is `QuantileAt`.
- QuantileAt: computes the rank over real numbers, so that rounding and not-a-number in the float product are not modelled.
- Markout: the running sums, best and worst of the cost components, and the means taken from them.
- Markout: a settled slot keeps its mark where the source keeps one bit, so that the sums can be stated.
- Repaint: a character in the last column leaves the cursor past it; terminals that defer the wrap differently, wide characters and escape characters inside text are not modelled.
- Repaint: a resize that is undone between two frames, which the cache cannot see; and the count of bytes written.
- Repaint.AlwaysAFullRepaint: needs rows no wider than the screen, because a wider row wraps onto the next one, which may be skipped (`Repaint.TooWideBreaks`).
- Symbols: the FNV-1a hash; any function of the symbol will do.
- Text layouts, panels, reports, configuration, the web server, the C++ daemons, and the three-state pressure classifier.
