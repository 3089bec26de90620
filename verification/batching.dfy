/** How the main loop splits the reading count into the sizes handed to
    successive `WriteBatch` calls, and the progress values it reports. */
module Batching {
  import opened FixedWidth

  /** `batchSteps = readingCount / BatchSize` in C# `long` division. */
  function BatchSteps(readingCount: int64, batchSize: int64): (steps: int64)
    requires batchSize > 0
    ensures 0 <= readingCount ==>
              0 <= steps && steps * batchSize <= readingCount < steps * batchSize + batchSize
    ensures readingCount < 0 ==>
              steps <= 0 && -batchSize < readingCount - steps * batchSize <= 0
  {
    DivTrunc(readingCount, batchSize)
  }

  /** How often the `for (i = 0; i < batchSteps; ++i)` loop body runs. */
  function FullBatches(readingCount: int64, batchSize: int64): (n: nat)
    requires batchSize > 0
    ensures n * batchSize <= if readingCount < 0 then 0 else readingCount
    ensures 0 <= readingCount ==> readingCount < n * batchSize + batchSize
  {
    var steps := BatchSteps(readingCount, batchSize);
    if steps < 0 then 0 else steps
  }

  /** `lastBatchSize = readingCount - batchSteps * BatchSize`: what remains
      after the full batches. It has the sign of the reading count (C#
      truncating division) and is smaller than one batch in magnitude. */
  function LastBatchSize(readingCount: int64, batchSize: int64): (last: int64)
    requires batchSize > 0
    ensures 0 <= readingCount ==> 0 <= last < batchSize
    ensures readingCount < 0 ==> -batchSize < last <= 0
    ensures last == 0 <==> readingCount % batchSize == 0
  {
    var steps := BatchSteps(readingCount, batchSize);
    var last := readingCount - steps * batchSize;
    RemainderVanishes(readingCount, steps, last, batchSize);
    last
  }

  /** A remainder `last` of `a` by `b` below `b` in magnitude is zero
      exactly when `b` divides `a`. */
  lemma RemainderVanishes(a: int, q: int, last: int, b: int)
    requires b > 0 && a == q * b + last && -b < last < b
    ensures last == 0 <==> a % b == 0
  {
    if 0 <= last {
      ModUnique(a, q, last, b);
    } else {
      assert a % b != 0 by {
        if a % b == 0 {
          assert (a / b - q) * b == last;
          SmallMultipleIsZero(a / b - q, b);
        }
      }
    }
  }

  /** The size argument of every `WriteBatch` call of one run, in call
      order: one per loop iteration, then the remainder. */
  function BatchSizes(readingCount: int64, batchSize: int64): (sizes: seq<int64>)
    requires batchSize > 0
  {
    seq(FullBatches(readingCount, batchSize), _ => batchSize)
      + [LastBatchSize(readingCount, batchSize)]
  }

  /** The full batches and the remainder together produce exactly the
      readings counted, and none when the count is negative. */
  lemma RemainderCompletesCount(readingCount: int64, batchSize: int64)
    requires batchSize > 0
    ensures FullBatches(readingCount, batchSize) * batchSize
              + Produced(LastBatchSize(readingCount, batchSize)) == Produced(readingCount)
  {
  }

  /** Sum of a sequence of integers. */
  function Sum(xs: seq<int>): int
  {
    if |xs| == 0 then 0 else Sum(xs[..|xs| - 1]) + xs[|xs| - 1]
  }

  /** How many readings a batch of requested size `n` holds: the
      `for (j = 0; j < batchSize; ++j)` loop of `WriteBatch` runs `n` times,
      and not at all when `n` is negative. */
  function Produced(n: int): nat
  {
    if n < 0 then 0 else n
  }

  /** Total readings written for a sequence of requested batch sizes. */
  function TotalProduced(sizes: seq<int>): nat
  {
    if |sizes| == 0 then 0 else TotalProduced(sizes[..|sizes| - 1]) + Produced(sizes[|sizes| - 1])
  }

  lemma {:induction false} SumRepeat(k: nat, v: int)
    ensures Sum(seq(k, _ => v)) == k * v
    ensures TotalProduced(seq(k, _ => v)) == k * Produced(v)
  {
    if k > 0 {
      assert seq(k, _ => v)[..k - 1] == seq(k - 1, _ => v);
      SumRepeat(k - 1, v);
    }
  }

  lemma SumSnoc(xs: seq<int>, x: int)
    ensures Sum(xs + [x]) == Sum(xs) + x
    ensures TotalProduced(xs + [x]) == TotalProduced(xs) + Produced(x)
  {
  }

  /** `WriteBatch` is called once per full batch and once more for the
      remainder; every call but the last asks for a whole batch, the last
      for the remainder, and only the last may ask for nothing. */
  lemma BatchSizesShape(readingCount: int64, batchSize: int64)
    requires batchSize > 0
    ensures var sizes := BatchSizes(readingCount, batchSize);
      && |sizes| == FullBatches(readingCount, batchSize) + 1
      && (forall k :: 0 <= k < |sizes| - 1 ==> sizes[k] == batchSize)
      && sizes[|sizes| - 1] == LastBatchSize(readingCount, batchSize)
      && (forall k :: 0 <= k < |sizes| ==> sizes[k] <= batchSize)
      && (forall k :: 0 <= k < |sizes| && sizes[k] == 0 ==>
            k == |sizes| - 1 && readingCount % batchSize == 0)
  {
  }

  /** No reading is lost or duplicated: the batch sizes of a run add up to
      the reading count, and the readings actually produced are exactly the
      reading count (none at all when the count is negative). */
  lemma {:induction false} BatchSizesCoverCount(readingCount: int64, batchSize: int64)
    requires batchSize > 0
    ensures 0 <= readingCount ==> Sum(BatchSizes(readingCount, batchSize)) == readingCount
    ensures TotalProduced(BatchSizes(readingCount, batchSize)) == Produced(readingCount)
  {
    var n := FullBatches(readingCount, batchSize);
    var last := LastBatchSize(readingCount, batchSize);
    var full: seq<int> := seq(n, _ => batchSize);
    assert BatchSizes(readingCount, batchSize) == full + [last];
    SumRepeat(n, batchSize);
    SumSnoc(full, last);
    if readingCount < 0 {
      assert n == 0;
    }
  }

  /** The values `(double)i / batchSteps` reported before each full batch,
      as exact rationals. */
  function Progress(steps: int64): (p: seq<real>)
  {
    if steps <= 0 then [] else seq(steps, i => i as real / steps as real)
  }

  /** The progress values reported in the first `i + 1` steps extend those
      of the first `i` steps by `i / steps`. */
  lemma ProgressStep(steps: int64, i: int64)
    requires 0 <= i < steps
    ensures Progress(steps)[..i + 1] == Progress(steps)[..i] + [i as real / steps as real]
  {
  }

  /** Dividing by a positive real keeps a strict order. */
  lemma DivStrictlyMonotone(x: real, y: real, s: real)
    requires x < y && 0.0 < s
    ensures x / s < y / s
  {
  }

  /** A fraction `x / s` with `0 <= x < s` lies in [0, 1). */
  lemma FractionInUnit(x: real, s: real)
    requires 0.0 <= x < s
    ensures 0.0 <= x / s < 1.0
  {
  }

  /** One progress value is reported per loop iteration; they rise strictly
      and stay in [0, 1), and none is computed when there are no full
      batches, so there is no division by zero. */
  lemma ProgressSound(steps: int64)
    ensures |Progress(steps)| == if steps <= 0 then 0 else steps
    ensures forall i :: 0 <= i < |Progress(steps)| ==>
              0.0 <= Progress(steps)[i] < 1.0
    ensures forall i, j :: 0 <= i < j < |Progress(steps)| ==>
              Progress(steps)[i] < Progress(steps)[j]
  {
    var p := Progress(steps);
    forall i | 0 <= i < |p|
      ensures 0.0 <= p[i] < 1.0
    {
      assert p[i] == i as real / steps as real;
      FractionInUnit(i as real, steps as real);
    }
    forall i, j | 0 <= i < j < |p|
      ensures p[i] < p[j]
    {
      DivStrictlyMonotone(i as real, j as real, steps as real);
    }
  }
}
