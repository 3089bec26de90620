/** The compile-time constants of the load generator and the total number
    of readings it derives from them. */
module Config {
  import opened FixedWidth

  /** Number of simulated tanks, and so the size of the tank identifier pool. */
  const TanksCount: int32 := 30
  /** Length of the simulated history, in days. */
  const Days: int32 := 365
  /** Largest number of readings handed to one database write. */
  const BatchSize: int32 := 50_000

  const SecondsPerDay: int := 86_400
  /** `TimeSpan.FromDays` refuses spans longer than `TimeSpan.MaxValue`,
      which is this many whole days. */
  const MaxTimeSpanDays: int := 10_675_199

  /** `tanks * (long)TimeSpan.FromDays(days).TotalSeconds`: the seconds in a
      whole-day span, multiplied by the tank count in unchecked 64-bit
      arithmetic. The result is the exact product whenever that fits in a
      `long`, and otherwise agrees with it modulo 2^64. */
  function ReadingCount(tanks: int32, days: int32): (r: int64)
    requires -MaxTimeSpanDays <= days <= MaxTimeSpanDays
    ensures Int64Min <= tanks * (days * SecondsPerDay) <= Int64Max ==>
              r == tanks * (days * SecondsPerDay)
    ensures (tanks * (days * SecondsPerDay) - r) % TwoTo64 == 0
  {
    var seconds: int64 := days * SecondsPerDay;
    Wrap64(tanks * seconds)
  }

  /** With the configured constants the 64-bit product does not wrap: there
      are exactly 30 * 365 * 86400 = 946,080,000 readings. */
  lemma ConfiguredReadingCount()
    ensures ReadingCount(TanksCount, Days) == TanksCount * Days * SecondsPerDay
    ensures ReadingCount(TanksCount, Days) == 946_080_000
  {
  }

  /** The one-day variant of the configuration yields 2,592,000 readings. */
  lemma OneDayReadingCount()
    ensures ReadingCount(TanksCount, 1) == 2_592_000
  {
  }
}
