# mozzio: a verified model of the benchmark's core

mozzio is a disk benchmark in C. It runs four phases against one file or device:
a sequential write and a sequential read, both single-threaded with 128 KiB blocks
and bounded by the file size, then a random write and a random read. The random
phases use many threads and the chosen block size, and they stop after a fixed
duration. This project models the parts of mozzio.c that compute rather than do
I/O, and proves what they promise:

- the Mersenne Twister generator (`struct MT`, `mt_init`, `mt_random`), as a pure
  specification (`MersenneTwister.Next`, `Outputs`, `Regenerate`) and as the
  in-place class `MersenneTwister.MT`, which is proved against it;
- the fill of the shared random-data buffer (`init_random_data`);
- the offset of a random-mode operation (line 156);
- the bookkeeping of `perform_test` before the workers start;
- the counting and termination logic of a worker (`test_thread`);
- the aggregation of the worker records (`collect_thread_stats`).

Modules:

- `Config` holds the constants.
- `MersenneTwister` holds the generator.
- `Offset` holds the offset expression and its corrected form.
- `Accounting` holds the worker loop as a pure function `Work` over what the
  worker observes, plus its lemmas.
- `States` holds the test record and the aggregates.
- `Setup` holds the choices `perform_test` makes before the workers start.
- `Benchmark` holds the process-wide state as the class `Mozzio`, with the record
  table `state` (the aggregate sits at index `MAX_THREADS`), the run-state flag,
  the random-data buffer and one generator per record. It also holds imperative
  methods for `init_random_data`, the setup part of `perform_test`,
  `test_thread` and `collect_thread_stats`.

External inputs are parameters:

- The words `rand()` returns are a seed sequence of 624 words.
- Clock readings are integers.
- What a worker observes on each pass is a `Tick`: the flag at the loop test, the
  byte count the I/O call returns, and the flag at the counting test.
- When the observations run out, the run ends `Pending`.

Three facts about the code shape the model:

- Line 156 reduces the generator word modulo the file size and then clears the
  bits of `todo - 1`. The model computes exactly that expression.
- Line 137 gives each worker a fixed slice of the data buffer. That slice is not
  part of this model.
- Line 298 fills only the first quarter of the data buffer (see Findings).

## Model

| member | source | states |
|---|---|---|
| `MersenneTwister.Magic` | mozzio.c:39 | MAGIC(s) is MATRIX_A when the low bit of s is set and 0 otherwise |
| `MersenneTwister.Twist` | mozzio.c:38 | TWIST takes the upper bit from the first word and the lower 31 bits from the second |
| `MersenneTwister.Next` | mozzio.c:40-64 | one call yields a well-formed state whose byte index is at least 4 |
| `MersenneTwister.NextInside` | mozzio.c:62-63 | inside the buffer, a call returns the word under the byte index and advances the index by 4 |
| `MersenneTwister.NextAtEnd` | mozzio.c:46-63 | at byte index 2496, a call regenerates the buffer, returns its new first word and leaves the index at 4 |
| `MersenneTwister.RegeneratedAt` | mozzio.c:46-61 | word i of the regenerated buffer comes from the old words i, i+1 and i+397 below 227, and from the already-new words i-227 (and word 0 for the last word) above that |
| `MersenneTwister.PrefixAt` | mozzio.c:46-61 | partway through the in-place loops, the words before the position are final and the rest are untouched |
| `MersenneTwister.RegeneratedStep` | mozzio.c:46-61 | each regenerated word is computed from the buffer as it stood when its step ran |
| `MersenneTwister.PrefixKeeps` | mozzio.c:46-61 | a regeneration step leaves the words at and after its position unchanged |
| `MersenneTwister.PrefixStable` | mozzio.c:46-61 | a word, once regenerated, is not changed by later steps |
| `MersenneTwister.RegenerateLastStep` | mozzio.c:59-60 | the regeneration ends with the step for word 623 |
| `MersenneTwister.AfterSnoc` | mozzio.c:40-64 | n+1 calls are n calls and then one more, for both the state and the words returned |
| `MersenneTwister.AfterInside` | mozzio.c:62-63 | calls that stay inside one buffer only advance the byte index |
| `MersenneTwister.AfterAdd` | mozzio.c:40-64 | m+n calls are m calls followed by n calls |
| `MersenneTwister.AfterEnd` | mozzio.c:46-63 | from a used-up buffer, r+1 calls regenerate once and stand at word r+1 |
| `MersenneTwister.OutputsAt` | mozzio.c:40-64 | word k of the output stream is what call k returns |
| `MersenneTwister.OutputsAgree` | mozzio.c:40-64 | output k does not depend on how many outputs are taken |
| `MersenneTwister.OutputsAdd` | mozzio.c:40-64 | the outputs of m+n calls are those of the first m calls followed by those of the next n |
| `MersenneTwister.SeedBlock` | mozzio.c:27-64 | after mt_init the first 624 calls return the seed words in order, with no tempering and no initial regeneration |
| `MersenneTwister.EndBlock` | mozzio.c:46-63 | from a used-up buffer the next 624 calls return the regenerated buffer in order |
| `MersenneTwister.AfterBlocks` | mozzio.c:40-64 | after 624 q calls from a fresh seed, the buffer holds the seed regenerated q-1 times and is used up |
| `MersenneTwister.OutputsBlocks` | mozzio.c:40-64 | the first 624 q outputs are the seed followed by its successive regenerations |
| `MersenneTwister.BlocksAt` | mozzio.c:40-64 | word 624 i + r of those blocks is word r of the i-th regeneration |
| `MersenneTwister.OutputFromSeed` | mozzio.c:27-64 | from a fresh seed, call 624 q + r returns word r of the seed regenerated q times |
| `MersenneTwister.Recur` | mozzio.c:52 | the recurrence can be undone: xoring the new word with `s >> 1` and MAGIC(s) gives back the far word, and for an even `s` the new word is the far word xored with `s >> 1` alone |
| `MersenneTwister.StepAt` | mozzio.c:50-60 | a regeneration step changes only word i, which becomes the recurrence over the current words i, i+1 and i+397 taken modulo 624 |
| `MersenneTwister.Regenerate` | mozzio.c:46-61 | the regeneration keeps the buffer at 624 words |
| `MersenneTwister.After` | mozzio.c:40-64 | n calls from a well-formed state leave a well-formed state |
| `MersenneTwister.Outputs` | mozzio.c:40-64 | n calls return exactly n words |
| `MersenneTwister.Cyclic` | mozzio.c:33-34 | the far and near indices of the recurrence wrap modulo 624 |
| `MersenneTwister.MT.constructor` | mozzio.c:23-26 | a static generator starts with a zero buffer and byte index 0 |
| `MersenneTwister.MT.Init` | mozzio.c:27-32 | mt_init stores the 624 seed words in order and resets the byte index |
| `MersenneTwister.MT.RegenerateInPlace` | mozzio.c:46-61 | the three in-place loops turn the buffer into Regenerate of its old contents |
| `MersenneTwister.MT.RegenerateAhead` | mozzio.c:50-53 | the first loop performs steps 0..226, using words 397 ahead |
| `MersenneTwister.MT.RegenerateBehind` | mozzio.c:54-57 | the second loop performs steps 227..622, using words 227 behind |
| `MersenneTwister.MT.StepInPlace` | mozzio.c:51-56 | one iteration of the first two loops replaces word i by StepAt of the buffer as it stood |
| `MersenneTwister.MT.Random` | mozzio.c:40-64 | mt_random returns the word Next gives and leaves the generator in the state Next gives |
| `Offset.AndNot` | mozzio.c:156 | x & ~m never exceeds x |
| `Offset.AndNotAligned` | mozzio.c:156 | for a power-of-two t, x & ~(t-1) is x rounded down to a multiple of t |
| `Offset.RandomOffset` | mozzio.c:156 | the offset as written lies in [0, r mod filesize], below the file size and below 2^32 |
| `Offset.RandomOffsetAligned` | mozzio.c:156 | for a power-of-two block size, the offset as written is block-aligned and less than one block below r mod filesize |
| `Offset.UnalignedOffset` | mozzio.c:156 | with a 3 KiB block size, which the command line accepts, word 1024 yields offset 1024, which is not a multiple of the block |
| `Offset.AlignedOffset` | mozzio.c:156 | the corrected offset is a multiple of the block size, less than one block below r mod filesize, and below the file size |
| `Offset.AlignedAgrees` | mozzio.c:156 | for a power-of-two block size, the expression as written equals the corrected offset |
| `Offset.Offsets` | mozzio.c:145-161 | a run has one offset per generator word, computed by line 156 as written, each inside the file |
| `Offset.OffsetsAt` | mozzio.c:156 | offset i of a run is the expression as written applied to generator word i |
| `Offset.OffsetsSnoc` | mozzio.c:145-161 | one more operation appends the offset as written of the next word |
| `Offset.OffsetsAligned` | mozzio.c:156 | for a power-of-two block size every offset of a run is block-aligned and equals the corrected offset |
| `Offset.KibPow2` | mozzio.c:128 | a block size of k KiB in bytes is a power of two whenever k is |
| `Accounting.KeepsRunning` | mozzio.c:145 | the loop test fails whenever the flag is STOPPED; without a bound it holds exactly when the flag is not STOPPED; with a bound it fails once bytes_done reaches it |
| `Accounting.Counted` | mozzio.c:164 | an operation always counts when there is a bound; without one it counts exactly when the flag is not STARTING |
| `Accounting.Account` | mozzio.c:164-168 | ios_done goes up by one exactly when the operation counts and stays put otherwise, and bytes_done goes up by `done` exactly when ios_done goes up |
| `Accounting.Work` | mozzio.c:145-170 | a run ends Finished only at a pass whose loop test fails, IoError only right after a pass whose I/O moved other than todo bytes, and Pending only when the observations are used up |
| `Accounting.WorkCounters` | mozzio.c:164-168 | counters never decrease, gain at most one operation per I/O call, and keep bytes_done == ios_done * todo |
| `Accounting.QuotaOvershoot` | mozzio.c:145-168 | with a byte bound, bytes_done ends less than one block above it |
| `Accounting.QuotaReached` | mozzio.c:145-168 | with a bound and no failures, the loop finishes with bytes_done at or above the bound once enough passes are observed |
| `Accounting.StartupNotCounted` | mozzio.c:164-168 | in a duration phase nothing is counted while the flag reads STARTING |
| `Accounting.DurationStops` | mozzio.c:145-170 | a duration phase without failures finishes exactly when some pass observes STOPPED, never fails, and no earlier pass observed STOPPED |
| `States.SumBytesDone` | mozzio.c:186 | the summed bytes_done is non-negative when every record's is |
| `States.SumIosDone` | mozzio.c:187 | the summed ios_done is non-negative when every record's is |
| `States.CountUnfinished` | mozzio.c:188-189 | the unfinished count lies between 0 and the number of records |
| `States.LatestStart` | mozzio.c:190-191 | the latest start is at least every record's start time and equal to one of them |
| `States.PrefixStep` | mozzio.c:184-192 | one more record adds its counters, adds one if it is unfinished, and takes its start time if that is later (or if it is the first) |
| `States.UnfinishedNone` | mozzio.c:188-189 | the unfinished count is 0 exactly when every finished flag is set |
| `States.SumsInStep` | mozzio.c:186-187 | when each record moved todo bytes per operation, so do the aggregate sums |
| `States.SumUniformQuota` | mozzio.c:231 | records that all carry quota q sum to n q |
| `Setup.OpenModeFor` | mozzio.c:207-212 | the target is write-only exactly for write phases, synchronous exactly for random writes, and truncating and appending exactly for sequential writes |
| `Setup.DropsCache` | mozzio.c:211-214 | the page cache is dropped exactly when the target is not opened for writing |
| `Setup.FileSize` | mozzio.c:219 | the file size is a whole number of GiB, equal to the given count |
| `Setup.BytesTotal` | mozzio.c:223 | the byte bound is the file size exactly for sequential phases, and 0 otherwise |
| `Setup.StartFlag` | mozzio.c:224 | the phase starts in STARTING exactly when there is more than one worker, and in RUNNING otherwise |
| `Setup.CDiv` | mozzio.c:231 | C's `/` truncates toward zero: for a non-negative dividend the quotient is non-negative and leaves a remainder in [0, n), for a non-positive one it is non-positive and leaves one in (-n, 0] |
| `Setup.Quota` | mozzio.c:231 | C's truncating division: n quotas fall short of a non-negative bound by less than n |
| `Benchmark.BlockBytes` | mozzio.c:128 | todo is a whole positive number of KiB when the block size is positive, and a power of two when the block size in KiB is |
| `Benchmark.Filled` | mozzio.c:298-300 | the words below the byte bound divided by 4 are the generator's first outputs in order, and the words above it are kept |
| `Benchmark.WorkerRecord` | mozzio.c:229-236 | a worker record gets its number, the phase's settings, its quota, zero counters and a cleared finished flag, and keeps its timestamps |
| `Benchmark.PhaseRecord` | mozzio.c:219-223 | the aggregate gets the phase's file size, bound, flags, block size and thread count, and keeps its counters and timestamps |
| `Benchmark.Zeros` | mozzio.c:110 | the static data buffer starts as 262144 zero words |
| `Benchmark.QuarterFill` | mozzio.c:298-300 | the fill as written puts generator output into the first quarter of the buffer only; the rest stays zero |
| `Benchmark.FullFill` | mozzio.c:298-300 | the corrected fill covers the whole buffer, and word 624 q + r is word r of the seed regenerated q times |
| `Benchmark.PhaseQuotas` | mozzio.c:231 | the workers' quotas together fall short of the phase's bound by less than the number of workers |
| `Benchmark.DrawStep` | mozzio.c:156 | one more draw advances the generator by one call and appends the offset as written of the word it returns |
| `Benchmark.DrawOffset` | mozzio.c:156 | a draw advances the worker's generator by one call and appends, as line 156 writes it, the offset of the word it returns |
| `Benchmark.Pass` | mozzio.c:145-169 | one pass of the loop continues Work or ends it as Work says, drawing a word only in random mode and only after the loop test passes |
| `Benchmark.Mozzio.constructor` | mozzio.c:93-110 | static storage: zero records, a zero data buffer, the flag STOPPED, and zero generators whose objects and buffers are all new |
| `Benchmark.Mozzio.FillRandomData` | mozzio.c:297-300 | after seeding, one generator output is stored per 4 bytes of the bound, in order, and the rest of the buffer is kept |
| `Benchmark.Mozzio.InitRandomData` | mozzio.c:293-301 | init_random_data as written fills words 0..65535 with the first outputs, leaves the rest as it was, and leaves the global generator 65536 calls past its seed |
| `Benchmark.Mozzio.InitRandomDataFull` | mozzio.c:293-301 | the corrected init_random_data fills the whole buffer with the first 262144 outputs and leaves the global generator 262144 calls past its seed |
| `Benchmark.Mozzio.StartPhase` | mozzio.c:205-236 | the open mode and cache decision, the aggregate's settings, the run state, a reseeded generator and a reset record for each worker, and no other record changed |
| `Benchmark.Mozzio.TestThread` | mozzio.c:124-177 | the counters and the end of the run follow Work; the start time is set; the end time and finished flag are set only on a normal finish; the generator advances once per I/O call in random mode, and the offsets drawn are those of line 156 as written; other records are unchanged |
| `Benchmark.Mozzio.CollectThreadStats` | mozzio.c:179-194 | the aggregate gets the summed counters and the latest start time of records 0..n-1, the result is their unfinished count, and no worker record changes |

## Left out

- Threads and `volatile` are left out. Each worker is modelled as a sequential
  run against its observations, and the coordinator's changes of `state_flag`
  show up only in those observations.
- The polling loop of `perform_test` (mozzio.c:240-274) is left out. This covers
  the 3-second start-up countdown, the duration check and its clock arithmetic
  in doubles, status printing and `pthread_join`.
- Thread creation (`pthread_create`, mozzio.c:237, in the setup loop) is left
  out. `Benchmark.Mozzio.TestThread` is then run for each worker on its own.
- I/O system calls are left out: `open`, `read`, `write`, `pread`, `pwrite`,
  `fsync`, `close`, `sync_thread`, and the write to `/proc/sys/vm/drop_caches`.
  Only the decisions about them are modelled: the open mode and whether the cache
  is dropped.
- `sleep`, `gettimeofday` and `get_timestamp` are left out. Clock readings are
  parameters.
- `rand()` is left out. Its 624 words per generator are a parameter.
- `print_status`, `print_status_header` and `print_help` are output only, and are
  left out.
- `main`'s option parsing is left out. Its checks appear only as preconditions:
  block size above 0, file size above 0 for a random phase, and a thread count
  from 1 to MAX_THREADS (mozzio.c:335), as `1 <= numThreads <= MAX_THREADS` on
  `Benchmark.Mozzio.StartPhase` and `n <= MAX_THREADS` on
  `Benchmark.Mozzio.CollectThreadStats`.
- `malloc` of the transfer buffer and its failure path are left out.
- The per-thread slice `p` of the data buffer and the increment `(*lp)++` after
  each operation are left out. They change which bytes a write sends, not the
  counting.
- The data buffer is modelled as 32-bit words. Byte order and the byte-level
  pointer casts are left out.
- Benchmark.Mozzio.TestThread: on a short I/O the process exits through `fail`.
  The model ends the run with `IoError` and leaves the end time and finished
  flag as they were.
- Benchmark.Mozzio.TestThread: `bytes_done`, `ios_done` and the timestamps are
  unbounded integers. A 64-bit overflow is left out.
- Offset.AndNot: models `& ~m` on non-negative integers by halving. This equals
  the two's-complement operation for the non-negative 64-bit values line 156 uses.
- Benchmark.Mozzio.CollectThreadStats: its contract does not restate the class
  invariant, because it touches only the record table.
- The generator embedded in each record (`state[t].mt`) is a separate object,
  `mts[t]`, rather than a field of the record value.

## Findings

| source | as written | input that shows it | evidently intended | confidence | as-written member | corrected member |
|---|---|---|---|---|---|---|
| mozzio.c:298 | the loop bound is `RANDOM_DATA_BYTES>>2` on a byte index that steps by 4 | any run: after `init_random_data`, bytes 262144..1048575 of `random_data` are still zero | fill all RANDOM_DATA_BYTES bytes with generator output | not executed | `Benchmark.QuarterFill` | `Benchmark.Mozzio.InitRandomDataFull` |
| mozzio.c:156 | `& ~(todo-1)` rounds down to a multiple of `todo` only when `todo` is a power of two, yet `-b` accepts any size from 1 to 1024 KiB | `-b 3` (todo = 3072), file of 1 GiB, generator word 1024: the offset is 1024, not a multiple of 3072 | a block-aligned offset for every block size | not executed | `Offset.UnalignedOffset` | `Offset.AlignedOffset` |
