# CIP tank load generator, modelled in Dafny

The program is a one-shot load generator for an InfluxDB database. It
writes `TanksCount × seconds in 365 days` (30 × 31,536,000 = 946,080,000)
invented sensor readings to the `CIPTanks` database. Each reading is for a
tank drawn at random from a pool of 30 simulated cleaning-in-place (CIP)
tank ids. The readings are stamped one second apart, going back from 365
days before the current time. They are written in batches of at most
50,000 points while a progress bar advances.

This project models the part of `Program.cs` that is logic rather than I/O:

- `FixedWidth`: the C# `int` and `long` arithmetic the program relies on.
  This covers unchecked wrap-around (`Wrap32`, `Wrap64`), `_ticks++` on an
  `int` (`Inc32`, `Inc32Times`) and `long` division that truncates toward
  zero (`DivTrunc`).
- `Config`: the constants `TanksCount`, `Days` and `BatchSize`, and the
  64-bit reading count `TanksCount * (long)TimeSpan.FromDays(Days).TotalSeconds`.
- `Batching`: how `Main` splits the reading count. There are `batchSteps`
  full batches, then one remainder batch. It also gives the sizes handed to
  each `WriteBatch` call and the progress fractions `i / batchSteps`.
- `Readings`: the tank id pool (`GetTanksIds`), `GenerateReading` and
  `WriteBatch`.
  - `System.Random` is an oracle function `next(state, lo, hi)`. The only
    thing assumed about it is the contract of `Random.Next`: the result
    lies in `[lo, hi)`.
  - The static `_ticks` counter and the random state are explicit
    generator state (`GenState`), threaded through every call.
- `Benchmark`: the main loop (`WriteFullBatches`), the remainder write
  (`Run`) and `Main` with its constants (`RunConfigured`).

A run's output is the sequence of batches that would go to `WriteAsync`,
plus the sequence of progress values.

Each reading records the `_ticks` value it consumed (`secondsBack`). It
does not record an absolute timestamp, which depends on the clock.

## Model

| member | source | states |
|---|---|---|
| `FixedWidth.Wrap32` | Program.cs:19 | the value a 32-bit `int` holds for a mathematical result: the result itself when it fits, otherwise congruent to it modulo 2^32 |
| `FixedWidth.Inc32IsWrap` | Program.cs:59 | one `_ticks++` is the wrapped successor of `_ticks` |
| `FixedWidth.Inc32TimesIsWrap` | Program.cs:59 | `n` increments of `_ticks` add `n` and wrap once; they add exactly `n` while the sum stays at most `int.MaxValue` |
| `FixedWidth.Inc32TimesAdd` | Program.cs:59 | `a` increments followed by `b` more are the same as `a + b` increments |
| `FixedWidth.Wrap64` | Program.cs:26 | the value a `long` holds for a mathematical result: the result itself when it fits, otherwise congruent to it modulo 2^64 |
| `FixedWidth.DivTrunc` | Program.cs:27 | C# `long` division by a positive divisor: the quotient has the dividend's sign, and the remainder has the dividend's sign and is smaller than the divisor |
| `Config.ReadingCount` | Program.cs:26 | the reading count equals tanks × days × 86400 whenever that product fits in a `long`, and is congruent to it modulo 2^64 otherwise |
| `Config.ConfiguredReadingCount` | Program.cs:13-26 | with 30 tanks and 365 days the product does not wrap: 946,080,000 readings |
| `Config.OneDayReadingCount` | Program.cs:26 | a one-day span with 30 tanks gives 2,592,000 readings |
| `Batching.BatchSteps` | Program.cs:27 | `batchSteps` full batches fit in a non-negative count and one more does not; for a negative count the quotient is truncated toward zero, so it is at most 0 and leaves a remainder in `(-BatchSize, 0]` |
| `Batching.FullBatches` | Program.cs:31 | the loop runs as many times as whole batches fit into the count, and not at all for a negative count |
| `Batching.LastBatchSize` | Program.cs:38 | the remainder lies in `[0, BatchSize)` for a non-negative count and in `(-BatchSize, 0]` for a negative one; it is 0 exactly when the batch size divides the count |
| `Batching.BatchSizesShape` | Program.cs:31-39 | `WriteBatch` is called `batchSteps + 1` times: with `BatchSize` every time but the last, then with the remainder; no size exceeds `BatchSize`, and a size of 0 only happens in the last call, for an exact multiple |
| `Batching.BatchSizesCoverCount` | Program.cs:31-39 | the batch sizes add up to the reading count, and the readings actually produced equal the count (none if it is negative): nothing lost, nothing duplicated |
| `Batching.RemainderCompletesCount` | Program.cs:31-39 | full batches times `BatchSize`, plus the readings of the remainder batch, equal the readings counted |
| `Batching.ProgressStep` | Program.cs:31-33 | each loop step appends exactly the fraction `i / batchSteps` to the progress reported so far |
| `Batching.ProgressSound` | Program.cs:31-33 | one progress value per full batch; the values rise strictly and lie in [0, 1); none is computed when `batchSteps` is 0, so there is no division by zero |
| `Readings.GetTanksIds` | Program.cs:83-91 | the pool holds exactly `TanksCount` ids, the `i`-th being the `i`-th fresh id |
| `Readings.GenerateReading` | Program.cs:54-74 | given `Random.Next`'s range contract, a reading has measurement `reading`, a tag from the pool, humidities in 40..50, temperatures in 75..115 and a flip count in 1..3; it is stamped with the old `_ticks`, and `_ticks` advances by one |
| `Readings.Batch` | Program.cs:46-50 | a batch of requested size `n` holds `max(n, 0)` valid readings with consecutive tick offsets, and `_ticks` advances by that many |
| `Readings.WriteBatch` | Program.cs:44-52 | the loop builds exactly the readings and final state of the reference `Batch`: `max(batchSize, 0)` valid readings, consecutive offsets, `_ticks` advanced by their number |
| `Benchmark.ConsecutiveAppend` | Program.cs:59 | a batch whose offsets start where the run so far stopped extends the run's consecutive valid readings |
| `Benchmark.WriteNextBatch` | Program.cs:34-39 | one `WriteBatch` call during a run continues the consecutive readings and the tick count where the run left them |
| `Benchmark.WriteFullBatches` | Program.cs:31-35 | the loop writes `batchSteps` batches of exactly `BatchSize` readings; after `i` steps `i * BatchSize` readings have been emitted; it reports exactly the progress fractions `i / batchSteps` |
| `Benchmark.Run` | Program.cs:27-39 | `Main` writes one batch per `BatchSizes` entry, each as large as requested; in total exactly the counted readings, all valid with consecutive offsets; `_ticks` advances by their number |
| `Benchmark.ConfiguredPartition` | Program.cs:27-38 | with the constants: 18,921 full batches and a remainder of 30,000; with one day: 51 full batches and 42,000 |
| `Benchmark.RunConfigured` | Program.cs:21-42 | `Main` as configured, starting from `_ticks == 0`: 18,922 writes (18,921 × 50,000, then 30,000) and 946,080,000 valid readings; reading `k` has offset `k`, and `_ticks` ends at 946,080,000 without wrapping |

## Left out

- `Setup`, `CreateDatabaseAsync` and `WriteAsync` call an external InfluxDB client library. Each batch that `WriteAsync` would send is returned as a sequence instead. Failures of those calls are not modelled; the program does not handle them either.
- `async`/`await`: each write completes before the next batch is generated, so the model is sequential.
- The `ProgressBar` rendering and the `double` division in `(double)i / batchSteps`. Progress values are exact rationals (`real`).
- `DateTime.Now` and the timestamp it produces. A reading keeps the `_ticks` value subtracted from it (`secondsBack`). The clock is read once per reading, so real timestamps also drift with wall time.
- `Guid.NewGuid`. The `i`-th call is a parameter `newId(i)`. Uniqueness of the ids is not modelled, since nothing in the program depends on it.
- The distribution of `System.Random`. Only the range contract of `Random.Next(lo, hi)` is used. The program never calls it with `lo > hi`, so the exception for that case is left out.
- `Console.WriteLine` of the final count.
- `Config.ReadingCount`: requires `|days|` to be at most `TimeSpan.MaxValue` in whole days (10,675,199). Beyond that, `TimeSpan.FromDays` throws `OverflowException`. `TotalSeconds` is a `double`, and for whole days its value is the exact product `days * 86400`, so the floating-point conversion is not modelled.
- `Readings.Reading`: the tag and field dictionaries of a `Point` are fixed record fields (`tankId`, `humidity`, …). Their string keys (`CIPTankId`, `Humidity`, …) are not modelled.
- The repository's second, near-identical script, which sends readings without timestamps and has no progress bar, is not part of this model. Only `Program.cs` is modelled, and it has both.
- `Benchmark.Run` and `Benchmark.WriteFullBatches` use the constant `BatchSize`, as `Main` does. Only the `Batching` functions take the batch size as a parameter.
