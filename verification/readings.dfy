/** The per-reading generator: the tank identifier pool, `GenerateReading`
    and `WriteBatch`. The random source is an oracle passed in as a
    function, and the `_ticks` counter is generator state threaded through
    every call. */
module Readings {
  import opened FixedWidth
  import opened Config
  import opened Batching

  /** A random source with state `S`: `next(s, lo, hi)` is the value of
      `Random.Next(lo, hi)` drawn in state `s`, and the state after it. */
  type Oracle<!S> = (S, int, int) -> (int, S)

  /** The contract of `Random.Next(lo, hi)`: a value in `[lo, hi)`. */
  ghost predicate ValidOracle<S(!new)>(next: Oracle<S>)
  {
    forall s, lo, hi :: lo < hi ==> lo <= next(s, lo, hi).0 < hi
  }

  /** The generator's mutable globals: the `_ticks` counter (a 32-bit
      `int`) and the random source's state. */
  datatype GenState<S> = GenState(ticks: int32, rng: S)

  /** One point of the `reading` measurement. `secondsBack` is the value of
      `_ticks` when the point was made: its timestamp lies that many seconds
      before `Days` days ago. `tankId` is the value of the `CIPTankId` tag. */
  datatype Reading<G> = Reading(
    name: string,
    secondsBack: int32,
    tankId: G,
    humidity: int,
    humidity2: int,
    temperature: int,
    temperature2: int,
    flipCount: int)

  const MeasurementName: string := "reading"

  /** The field ranges, inclusive on both ends. */
  const HumidityMin: int := 40
  const HumidityMax: int := 50
  const TemperatureMin: int := 75
  const TemperatureMax: int := 115
  const FlipCountMin: int := 1
  const FlipCountMax: int := 3

  /** A reading the generator can make: the right measurement, a tag taken
      from the pool, and every field in its range. */
  predicate ValidReading<G(==)>(r: Reading<G>, pool: seq<G>)
  {
    && r.name == MeasurementName
    && r.tankId in pool
    && HumidityMin <= r.humidity <= HumidityMax
    && HumidityMin <= r.humidity2 <= HumidityMax
    && TemperatureMin <= r.temperature <= TemperatureMax
    && TemperatureMin <= r.temperature2 <= TemperatureMax
    && FlipCountMin <= r.flipCount <= FlipCountMax
  }

  /** Every reading of `rs` is valid and their `secondsBack` values count up
      one by one from `ticks`, wrapping as a 32-bit `int` does. */
  predicate ConsecutiveValid<G(==)>(rs: seq<Reading<G>>, pool: seq<G>, ticks: int32)
  {
    forall k :: 0 <= k < |rs| ==>
      ValidReading(rs[k], pool) && rs[k].secondsBack == Inc32Times(ticks, k)
  }

  /** `GetTanksIds`: a pool of `TanksCount` identifiers, the `i`-th being
      the `i`-th fresh identifier `newId(i)` (`Guid.NewGuid()`). */
  method GetTanksIds<G>(newId: nat -> G) returns (ids: seq<G>)
    ensures |ids| == TanksCount
    ensures forall i :: 0 <= i < |ids| ==> ids[i] == newId(i)
  {
    ids := [];
    var i := 0;
    while i < TanksCount
      invariant 0 <= i <= TanksCount
      invariant |ids| == i
      invariant forall k :: 0 <= k < i ==> ids[k] == newId(k)
    {
      ids := ids + [newId(i)];
      i := i + 1;
    }
  }

  /** `GenerateReading`: takes `_ticks` for the timestamp and increments it,
      then draws the tank index and the five fields from the random source
      in the order the object initialiser evaluates them. */
  function GenerateReading<G(==), S(!new)>(pool: seq<G>, st: GenState<S>, next: Oracle<S>)
    : (out: (Reading<G>, GenState<S>))
    requires |pool| == TanksCount
    requires ValidOracle(next)
    ensures ValidReading(out.0, pool)
    ensures out.0.secondsBack == st.ticks
    ensures out.1.ticks == Inc32(st.ticks)
  {
    var (tank, s1) := next(st.rng, 0, TanksCount);
    var (humidity, s2) := next(s1, 40, 50 + 1);
    var (humidity2, s3) := next(s2, 40, 50 + 1);
    var (temperature, s4) := next(s3, 75, 115 + 1);
    var (temperature2, s5) := next(s4, 75, 115 + 1);
    var (flipCount, s6) := next(s5, 1, 3 + 1);
    var reading := Reading(MeasurementName, st.ticks, pool[tank],
      humidity, humidity2, temperature, temperature2, flipCount);
    (reading, GenState(Inc32(st.ticks), s6))
  }

  /** The readings of one batch of requested size `n`, generated one after
      another from state `st`, and the state afterwards. */
  function Batch<G(==), S(!new)>(pool: seq<G>, n: int, st: GenState<S>, next: Oracle<S>)
    : (out: (seq<Reading<G>>, GenState<S>))
    requires |pool| == TanksCount
    requires ValidOracle(next)
    ensures |out.0| == Produced(n)
    ensures ConsecutiveValid(out.0, pool, st.ticks)
    ensures out.1.ticks == Inc32Times(st.ticks, Produced(n))
    decreases n
  {
    if n <= 0 then ([], st)
    else
      var (rs, st1) := Batch(pool, n - 1, st, next);
      var (r, st2) := GenerateReading(pool, st1, next);
      (rs + [r], st2)
  }

  /** `WriteBatch`: builds the list of `batchSize` readings handed to the
      database client. */
  method WriteBatch<G(==), S(!new)>(pool: seq<G>, batchSize: int64, st: GenState<S>, next: Oracle<S>)
    returns (readings: seq<Reading<G>>, st': GenState<S>)
    requires |pool| == TanksCount
    requires ValidOracle(next)
    ensures (readings, st') == Batch(pool, batchSize, st, next)
    ensures |readings| == Produced(batchSize)
    ensures ConsecutiveValid(readings, pool, st.ticks)
    ensures st'.ticks == Inc32Times(st.ticks, Produced(batchSize))
  {
    readings, st' := [], st;
    var j: int64 := 0;
    while j < batchSize
      invariant 0 <= j <= Produced(batchSize)
      invariant (readings, st') == Batch(pool, j, st, next)
    {
      var (r, st1) := GenerateReading(pool, st', next);
      readings, st' := readings + [r], st1;
      j := j + 1;
    }
  }
}
