/** The main loop: the full batches with their progress reports, then the
    remainder batch, each written as one list of readings. */
module Benchmark {
  import opened FixedWidth
  import opened Config
  import opened Batching
  import opened Readings

  /** All readings of a run, batch after batch, in the order written. */
  function Flatten<T>(batches: seq<seq<T>>): seq<T>
  {
    if |batches| == 0 then []
    else Flatten(batches[..|batches| - 1]) + batches[|batches| - 1]
  }

  lemma FlattenSnoc<T>(batches: seq<seq<T>>, b: seq<T>)
    ensures Flatten(batches + [b]) == Flatten(batches) + b
  {
  }

  /** Appending readings that continue the tick count where `rs` stopped
      keeps a run's readings valid and consecutive. */
  lemma ConsecutiveAppend<G>(rs: seq<Reading<G>>, b: seq<Reading<G>>, pool: seq<G>, ticks: int32)
    requires ConsecutiveValid(rs, pool, ticks)
    requires ConsecutiveValid(b, pool, Inc32Times(ticks, |rs|))
    ensures ConsecutiveValid(rs + b, pool, ticks)
  {
    forall k | |rs| <= k < |rs| + |b|
      ensures (rs + b)[k].secondsBack == Inc32Times(ticks, k)
    {
      Inc32TimesAdd(ticks, |rs|, k - |rs|);
    }
  }

  /** One `WriteBatch(client, size)` call of the main loop, made when the
      run so far has written `written` and left the tick counter in `st`:
      the new batch continues the run's consecutive valid readings. */
  method WriteNextBatch<G(==), S(!new)>(pool: seq<G>, size: int64, ghost written: seq<Reading<G>>,
                                        st: GenState<S>, ticks0: int32, next: Oracle<S>)
    returns (batch: seq<Reading<G>>, st': GenState<S>)
    requires |pool| == TanksCount
    requires ValidOracle(next)
    requires ConsecutiveValid(written, pool, ticks0)
    requires st.ticks == Inc32Times(ticks0, |written|)
    ensures |batch| == Produced(size)
    ensures ConsecutiveValid(written + batch, pool, ticks0)
    ensures st'.ticks == Inc32Times(ticks0, |written| + |batch|)
  {
    batch, st' := WriteBatch(pool, size, st, next);
    Inc32TimesAdd(ticks0, |written|, |batch|);
    ConsecutiveAppend(written, batch, pool, ticks0);
  }

  /** The `for (i = 0; i < batchSteps; ++i)` loop of `Main`: one progress
      report and one whole batch per step. */
  method WriteFullBatches<G(==), S(!new)>(pool: seq<G>, readingCount: int64,
                                          st0: GenState<S>, next: Oracle<S>)
    returns (batches: seq<seq<Reading<G>>>, progress: seq<real>, st: GenState<S>)
    requires |pool| == TanksCount
    requires ValidOracle(next)
    ensures |batches| == FullBatches(readingCount, BatchSize)
    ensures forall k :: 0 <= k < |batches| ==> |batches[k]| == BatchSize
    ensures progress == Progress(BatchSteps(readingCount, BatchSize))
    ensures |Flatten(batches)| == FullBatches(readingCount, BatchSize) * BatchSize
    ensures ConsecutiveValid(Flatten(batches), pool, st0.ticks)
    ensures st.ticks == Inc32Times(st0.ticks, |Flatten(batches)|)
  {
    var batchSteps := BatchSteps(readingCount, BatchSize);
    batches, progress, st := [], [], st0;
    ghost var written: seq<Reading<G>> := [];
    ghost var emitted: int := 0;
    var i: int64 := 0;
    while i < batchSteps
      invariant 0 <= i <= FullBatches(readingCount, BatchSize)
      invariant emitted == i * BatchSize
      invariant |batches| == i
      invariant forall k :: 0 <= k < i ==> |batches[k]| == BatchSize
      invariant progress == Progress(batchSteps)[..i]
      invariant written == Flatten(batches) && |written| == emitted
      invariant ConsecutiveValid(written, pool, st0.ticks)
      invariant st.ticks == Inc32Times(st0.ticks, emitted)
    {
      ProgressStep(batchSteps, i);
      progress := progress + [i as real / batchSteps as real];
      var batch;
      batch, st := WriteNextBatch(pool, BatchSize, written, st, st0.ticks, next);
      FlattenSnoc(batches, batch);
      batches, written := batches + [batch], written + batch;
      assert (i + 1) * BatchSize == i * BatchSize + BatchSize;
      emitted := emitted + BatchSize;
      i := i + 1;
    }
    assert progress == Progress(batchSteps) by {
      assert Progress(batchSteps)[..i] == Progress(batchSteps);
    }
  }

  /** The body of `Main` after the database is created, for a reading count
      and batch size: `batches` are the lists handed to `WriteAsync`, in
      order, and `progress` the values reported to the progress bar. Every
      reading is valid, their timestamps step back one second each, and the
      batches hold exactly the readings counted. */
  method Run<G(==), S(!new)>(pool: seq<G>, readingCount: int64,
                             st0: GenState<S>, next: Oracle<S>)
    returns (batches: seq<seq<Reading<G>>>, progress: seq<real>, st: GenState<S>)
    requires |pool| == TanksCount
    requires ValidOracle(next)
    ensures |batches| == |BatchSizes(readingCount, BatchSize)|
    ensures forall k :: 0 <= k < |batches| ==>
              |batches[k]| == Produced(BatchSizes(readingCount, BatchSize)[k])
    ensures progress == Progress(BatchSteps(readingCount, BatchSize))
    ensures |Flatten(batches)| == Produced(readingCount)
    ensures ConsecutiveValid(Flatten(batches), pool, st0.ticks)
    ensures st.ticks == Inc32Times(st0.ticks, Produced(readingCount))
  {
    var full;
    full, progress, st := WriteFullBatches(pool, readingCount, st0, next);
    var batchSteps := BatchSteps(readingCount, BatchSize);
    var lastBatchSize := readingCount - batchSteps * BatchSize;
    assert lastBatchSize == LastBatchSize(readingCount, BatchSize);
    RemainderCompletesCount(readingCount, BatchSize);
    var last;
    last, st := WriteNextBatch(pool, lastBatchSize, Flatten(full), st, st0.ticks, next);
    FlattenSnoc(full, last);
    batches := full + [last];
    BatchSizesShape(readingCount, BatchSize);
    assert forall k :: 0 <= k < |full| ==> batches[k] == full[k];
  }

  /** With the configured constants: 18,921 full batches and a remainder of
      30,000; and for a one-day span, 51 full batches and 42,000. */
  lemma ConfiguredPartition()
    ensures BatchSteps(ReadingCount(TanksCount, Days), BatchSize) == 18_921
    ensures LastBatchSize(ReadingCount(TanksCount, Days), BatchSize) == 30_000
    ensures BatchSteps(ReadingCount(TanksCount, 1), BatchSize) == 51
    ensures LastBatchSize(ReadingCount(TanksCount, 1), BatchSize) == 42_000
  {
  }

  /** `Main` with its constants, from the initial `_ticks == 0`: the tank
      pool is made, 18,922 batches are written (18,921 of 50,000 readings,
      then one of 30,000), 946,080,000 readings in all. Every reading is
      valid, the `k`-th one is offset `k` seconds back from its clock
      reading, so no two readings share an offset, and `_ticks` never
      wraps. */
  method RunConfigured<G(==), S(!new)>(newId: nat -> G, rng0: S, next: Oracle<S>)
    returns (pool: seq<G>, batches: seq<seq<Reading<G>>>, progress: seq<real>, st: GenState<S>)
    requires ValidOracle(next)
    ensures |pool| == TanksCount
    ensures |batches| == 18_922
    ensures forall k :: 0 <= k < 18_921 ==> |batches[k]| == 50_000
    ensures |batches[18_921]| == 30_000
    ensures |progress| == 18_921
    ensures |Flatten(batches)| == 946_080_000
    ensures forall k :: 0 <= k < |Flatten(batches)| ==>
              ValidReading(Flatten(batches)[k], pool) && Flatten(batches)[k].secondsBack == k
    ensures st.ticks == 946_080_000
  {
    pool := GetTanksIds(newId);
    var readingCount := ReadingCount(TanksCount, Days);
    ConfiguredPartition();
    batches, progress, st := Run(pool, readingCount, GenState(0, rng0), next);
    ProgressSound(BatchSteps(readingCount, BatchSize));
    BatchSizesShape(readingCount, BatchSize);
    var all := Flatten(batches);
    forall k | 0 <= k < |all|
      ensures all[k].secondsBack == k
    {
      Inc32TimesIsWrap(0, k);
    }
    Inc32TimesIsWrap(0, |all|);
  }
}
