# Storage throughput benchmark engine — a verified model

This project models the native engine of an Android storage benchmark. The
engine opens a target file, trying direct I/O first and falling back to
buffered I/O. It starts `qd` worker threads that issue block-sized positioned
reads or writes, sequentially or at random block offsets, and add every full
transfer to two shared counters. It samples the byte counter once a second
into a throughput series. At the end it reports average MiB/s and IOPS.

The model keeps the engine's sequential rules and proves what they promise:

- the decoding of the test-type string into a write flag and a random flag;
- the open-with-fallback decision, over an abstract `open` system call;
- the sequential cursor and the random offsets;
- the multiplicative-hash fill of the write buffer, as a loop over an array;
- the worker's accounting loop over a shared `Counters` object;
- the sampler loop that turns counter readings into per-second points;
- the division-guarded averages;
- the run that composes all of these.

System calls, the random generator and the clock become parameters:
- `sys`: the descriptor `open` returns for each flag set;
- per worker, the values its transfers return and the block indices its generator draws;
- the byte counter's value at each one-second tick.

Behaviours of the code that the model keeps as written:

- The reported byte and operation totals are the whole counters, warmup
  included, not the bytes moved while measuring.
- The sampler's previous reading starts at 0. So the first point also
  holds every byte moved during warmup, and the series adds up to the last
  reading (`Sampler.SeriesTelescopes`).
- The engine label follows the requested mode, not the mode the open
  achieved (`Benchmark.EngineLabelCanMisreport`).
- The sampling loop runs until a deadline `dur` seconds away on a monotonic
  clock, and each tick sleeps at least one second. So a duration of zero or
  less gives no points, and there are never more than `dur` points. How many
  points a positive duration gives depends on how long the sleeps take. The
  model takes the readings as given, at most `dur` of them, and produces
  one point per reading.
- A negative `qd`, or a `dur` of -2 or less, makes a `reserve` call throw
  `std::length_error`, which nothing catches, so the process aborts
  (`Benchmark.Run`'s `Aborted` outcome).
- Word 0 of the write pattern is zero. Every other word of a buffer under
  4 GiB is non-zero and distinct (`Pattern.PatternNonZero`,
  `Pattern.PatternInjective`).

Files, one module each: `arith.dfy` (multiplication and division
facts), `test_type.dfy`, `file_opener.dfy`, `offsets.dfy`, `pattern.dfy`,
`worker.dfy`, `sampler.dfy`, `aggregate.dfy`, `benchmark.dfy`.

## Model

| member | source | states |
|---|---|---|
| `TestType.Decode` | iobench.cpp:45-46 | the two flags: write when the string is `SEQ_WRITE` or `RAND_WRITE`, random when it is `RAND_WRITE` or `RAND_READ`. No contract of its own; the lemmas below state what it means |
| `TestType.DecodeName` | iobench.cpp:45-46 | each of the four type names decodes to its own kind's write and random flags |
| `TestType.DecodeNamesDistinct` | iobench.cpp:45-46 | the four names decode to four different flag pairs |
| `TestType.DecodeUnknown` | iobench.cpp:45-46 | a string that is none of the four names decodes like `SEQ_READ` (sequential read) |
| `TestType.DecodeIff` | iobench.cpp:45-46 | the write flag is set iff the string names a writing kind, and the random flag iff it names a random kind |
| `FileOpener.InitialFlags` | iobench.cpp:21-23 | the first attempt's flags: read-write and create for writing, read-only otherwise, plus O_DIRECT when tried. `OpenFile`'s contract refers to it |
| `FileOpener.OpenFile` | iobench.cpp:20-31 | the first attempt uses read-write-create or read-only flags, plus O_DIRECT when tried. A second attempt happens iff the first failed and O_DIRECT was tried. It uses the same flags minus O_DIRECT. The result is the last attempt's descriptor, negative iff every attempt failed. The file is pre-sized iff the open succeeded for writing |
| `FileOpener.FallbackEngages` | iobench.cpp:25-27 | if the O_DIRECT open fails and the plain open succeeds, the call succeeds, without O_DIRECT |
| `FileOpener.NoDirectWhenNotTried` | iobench.cpp:21-25 | without direct I/O there is one attempt, it carries no O_DIRECT, and its result is returned |
| `Offsets.NextCursor` | iobench.cpp:65 | one cursor step: advance by a block, back to 0 when the following block would pass fileSize. `CursorWrapsExactly` and `CursorClosedForm` state what it means |
| `Offsets.CursorAfter` | iobench.cpp:62-65 | the cursor after n steps from 0. `CursorClosedForm` gives its closed form |
| `Offsets.MaxBlockIndex` | iobench.cpp:61 | the top of the random index range, (fileSize - blk) / blk. `ModesShareBlocks` relates it to the block count |
| `Offsets.RandOffset` | iobench.cpp:61-64 | a drawn index in [0, (fileSize-blk)/blk] gives a block-aligned offset with off + blk <= fileSize, and the index can be read back from it |
| `Offsets.CursorClosedForm` | iobench.cpp:62-65 | the n-th sequential offset is (n mod (fileSize/blk)) * blk |
| `Offsets.CursorInBounds` | iobench.cpp:62-65 | every sequential offset is block-aligned, non-negative, and has off + blk <= fileSize |
| `Offsets.CursorWrapsExactly` | iobench.cpp:65 | the cursor returns to 0 exactly when the block after the next one would pass fileSize, otherwise it advances by one block; it is 0 exactly at multiples of the block count |
| `Offsets.RandReachesEveryBlock` | iobench.cpp:61-64 | every block-aligned in-bounds offset is the offset of some draw in the range |
| `Offsets.ModesShareBlocks` | iobench.cpp:61-65 | the random index range has exactly as many blocks as the sequential cursor visits |
| `Pattern.WordAt` | iobench.cpp:59 | the word stored for byte index i: the 64-bit product i * 2654435761 cast to 32 bits. `PatternWordValue` states its value |
| `Pattern.PatternWordValue` | iobench.cpp:59 | the stored word k, a 64-bit product truncated to 32 bits, equals (4k * 2654435761) mod 2^32 |
| `Pattern.PatternDecode` | iobench.cpp:59 | multiplying word k by the inverse of 2654435761 modulo 2^32 gives back its byte index 4k |
| `Pattern.PatternInjective` | iobench.cpp:59 | within a buffer under 4 GiB no two words are equal |
| `Pattern.PatternNonZero` | iobench.cpp:59 | within such a buffer a word is zero exactly when it is word 0 |
| `Pattern.FillPattern` | iobench.cpp:58-59 | for a write test every word of the blk/4-word buffer holds its pattern word; for a read test the buffer is unchanged |
| `Worker.Counters.constructor` | iobench.cpp:52 | the shared byte and operation counters start at 0 |
| `Worker.FullPrefix` | iobench.cpp:66-67 | the count of leading transfers that moved exactly blk bytes, and the first transfer that did not |
| `Worker.OffsetAt` | iobench.cpp:64 | the offset of transfer i: draw i times blk in random mode, the cursor after i steps in sequential mode. `OffsetsInBounds` states its bounds |
| `Worker.RunWorker` | iobench.cpp:62-68 | the loop ends on the first short transfer or when the results run out. Transfer i is issued at `OffsetAt(i)`. Bytes grow by blk and ops by 1 per full transfer only, so bytes == ops * blk is preserved |
| `Worker.OffsetsInBounds` | iobench.cpp:61-65 | every issued offset, in either mode, is block-aligned and lies wholly inside the file |
| `Worker.TotalsConsistent` | iobench.cpp:63-67 | the bytes all workers add equal their operations times the block size |
| `Worker.FullBytesNonNegative` | iobench.cpp:67 | with a non-negative block size the bytes the workers add are never negative |
| `Sampler.Sample` | iobench.cpp:79-87 | one point per reading: point i has second index i and mbps * 2^20 equal to reading i minus the previous reading, or minus 0 for the first |
| `Sampler.SeriesTelescopes` | iobench.cpp:80-86 | the points add up to the last reading, warmup bytes included |
| `Sampler.SeriesNonNegative` | iobench.cpp:84-85 | non-negative, non-decreasing readings give no negative point |
| `Sampler.SeriesBounded` | iobench.cpp:80-94 | readings of a counter that only grows, none above the final total, give a series that adds up to at most that total |
| `Aggregate.Average` | iobench.cpp:94-96 | a duration <= 0 gives (0, 0); otherwise mbps * dur * 2^20 == bytes and iops * dur == ops |
| `Aggregate.ThroughputIsIopsTimesBlock` | iobench.cpp:94-96 | with bytes == ops * blk, average MiB/s times 2^20 equals average IOPS times blk |
| `Benchmark.EngineLabel` | iobench.cpp:114 | `O_DIRECT/Maybe` when direct I/O was requested, `BUFFERED` otherwise; `EngineLabelCanMisreport` shows it can differ from the mode achieved |
| `Benchmark.WorkerCount` | iobench.cpp:73-74 | the number of worker threads started, qd when positive and 0 otherwise; `Run` requires one environment per worker |
| `Benchmark.Run` | iobench.cpp:45-124 | fails with "open failed" iff every open attempt failed. Aborts iff the open succeeded and qd < 0 or dur < -1. Otherwise the totals are every worker's full transfers, with bytes == ops * blk. The averages come from those whole totals, and the series is sampled from the readings. When the readings are those of the byte counter (non-negative, never decreasing, none above the final total), no point is negative and the series adds up to at most the reported bytes. A duration <= 0 gives no points and zero averages. The label follows the requested mode, the latency fields are 0 and the note is empty |
| `Benchmark.EngineLabelCanMisreport` | iobench.cpp:114 | with O_DIRECT refused and the plain open accepted, the run opens without direct I/O, yet the label still says `O_DIRECT/Maybe` |

## Left out

- Threads, `std::atomic` and memory ordering (iobench.cpp:51-52, 63, 67, 73-74, 88-89). The workers' loops run one after another against the shared counters. Since they only add, the totals are the same under any interleaving. The stop flag is the end of each worker's result sequence.
- System calls other than `open`. `pread`/`pwrite` are the given transfer results. Not modelled: the unconditional second `posix_fallocate` (iobench.cpp:55), `posix_memalign`/`free` (58, 69), `fdatasync` on write tests and `close` (91-92).
- `std::mt19937_64` and `uniform_int_distribution` (iobench.cpp:60-61). They are foreign library code. The draws are parameters, assumed to lie in the distribution's range.
- The clock: `now_us`, the warmup wait and the time-driven bound of the sampling loop (iobench.cpp:15, 75-76, 80-83). The sampler works on a given sequence of counter readings.
- Floating point. MiB/s and IOPS are real numbers, with no rounding (iobench.cpp:85, 94-96).
- JNI field reads and result-object construction (iobench.cpp:37-43, 98-129). The thrown `IOException` is the `Failure("open failed")` result. The constructor signature looked up at iobench.cpp:113 names four doubles, but `IoResult` (Models.kt:25-36) takes five, and the call at iobench.cpp:117-127 passes five. So `GetMethodID` finds no constructor, and as written no successful run reaches the host. `Run`'s `Success` value is what the engine computes before that marshalling.
- `Benchmark.Run`: a negative block size or a negative file size is excluded. A negative block becomes a huge `size_t` (iobench.cpp:54). A negative file size is compared as unsigned against the cursor (iobench.cpp:65), so the cursor would never wrap. Unbounded integers reproduce neither. A block of 0 makes every worker divide by zero when it builds its index distribution (iobench.cpp:61), in sequential mode as well as random mode. That is undefined behaviour: it traps on x86, while arm64's unsigned division yields 0. The model takes the quotient to be 0, as arm64 computes it. With that, a sequential worker's 0-byte transfers all count as full, so ops grows while bytes stays 0. Random mode with a block of 0 is not modelled (see `Worker.RunWorker` below).
- `Benchmark.Run`: `dur + 1` is taken not to overflow a 32-bit int (iobench.cpp:79), and the number of readings is bounded by `dur` but otherwise left to the clock.
- `Worker.RunWorker`: random mode is modelled only for 0 < blk <= fileSize. With a larger block, the unsigned subtraction at iobench.cpp:61 wraps, and offsets can fall past the end of the file.
- `Pattern.FillPattern`: only block sizes that are a multiple of 4 are modelled. The host always sends a multiple of 1024 (MainActivity.kt:48). The buffer is a sequence of 32-bit words, not bytes, so byte order is not modelled.
- MainActivity.kt (UI, coroutines, charting), Models.kt (data classes only) and NativeBridge.kt (library loader) are not part of this model.
