/** The C# machine integers the load generator computes with: 32-bit `int`
    and 64-bit `long`, with unchecked two's-complement wrap-around and
    division that truncates toward zero written out over Dafny's unbounded
    `int`. */
module FixedWidth {

  const TwoTo32: int := 0x1_0000_0000
  const TwoTo64: int := 0x1_0000_0000_0000_0000

  const Int32Min: int := -0x8000_0000
  const Int32Max: int := 0x7FFF_FFFF
  const Int64Min: int := -0x8000_0000_0000_0000
  const Int64Max: int := 0x7FFF_FFFF_FFFF_FFFF

  /** C# `int` */
  type int32 = x: int | -0x8000_0000 <= x < 0x8000_0000

  /** C# `long` */
  type int64 = x: int | -0x8000_0000_0000_0000 <= x < 0x8000_0000_0000_0000

  /** Multiplying by a positive `m` keeps an integer at least one away from
      zero at least `m` away from zero. */
  lemma MulAwayFromZero(d: int, m: int)
    requires m > 0
    ensures d >= 1 ==> d * m >= m
    ensures d <= -1 ==> d * m <= -m
    ensures d >= 0 ==> d * m >= d
  {
  }

  /** A multiple of a positive `m` strictly between `-m` and `m` is zero. */
  lemma SmallMultipleIsZero(d: int, m: int)
    requires m > 0 && -m < d * m < m
    ensures d == 0
  {
  }

  /** Dafny's division of a non-negative `a` by a positive `b` rounds down
      and never exceeds `a`. */
  lemma DivNonNegative(a: int, b: int)
    requires a >= 0 && b > 0
    ensures 0 <= a / b <= a
    ensures 0 <= a - (a / b) * b < b
  {
    MulAwayFromZero(a / b, b);
    assert a == (a / b) * b + a % b;
  }

  /** Euclidean division is unique: any `x == q * m + r` with `0 <= r < m`
      has `r == x % m`. */
  lemma ModUnique(x: int, q: int, r: int, m: int)
    requires m > 0 && 0 <= r < m && x == q * m + r
    ensures x % m == r
  {
    var q', r' := x / m, x % m;
    assert (q - q') * m == r' - r;
    SmallMultipleIsZero(q - q', m);
  }

  /** `x mod m` does not change when a multiple of `m` is added. */
  lemma ModAddMultiple(x: int, k: int, m: int)
    requires m > 0
    ensures (x + k * m) % m == x % m
  {
    assert x + k * m == (x / m + k) * m + x % m;
    ModUnique(x + k * m, x / m + k, x % m, m);
  }

  /** The value an unchecked 32-bit operation leaves for the mathematical
      result `x`: `x` itself when it fits, otherwise `x` shifted by a
      multiple of 2^32 into range. */
  function Wrap32(x: int): (r: int32)
    ensures Int32Min <= x <= Int32Max ==> r == x
    ensures (x - r) % TwoTo32 == 0
  {
    ModAddMultiple(x - Int32Min, -((x - Int32Min) / TwoTo32), TwoTo32);
    (x - Int32Min) % TwoTo32 + Int32Min
  }

  /** Wrapping an intermediate result and then adding is the same as adding
      and wrapping once: a run of `++` on an `int` is one wrapped sum. */
  lemma Wrap32Add(a: int, b: int)
    ensures Wrap32(Wrap32(a) + b) == Wrap32(a + b)
  {
    var u := a - Int32Min;
    ModAddMultiple(u % TwoTo32 + b, u / TwoTo32, TwoTo32);
  }

  /** `x++` on a 32-bit `int`: the largest value steps to the smallest. */
  function Inc32(x: int32): int32
  {
    if x == Int32Max then Int32Min else x + 1
  }

  /** `n` successive `x++` on a 32-bit `int`. */
  function Inc32Times(x: int32, n: nat): int32
  {
    if n == 0 then x else Inc32(Inc32Times(x, n - 1))
  }

  /** `++` is the wrapped successor. */
  lemma Inc32IsWrap(x: int32)
    ensures Inc32(x) == Wrap32(x + 1)
  {
  }

  /** `n` increments add `n` and wrap once; in particular they add exactly
      `n` while the sum stays representable. */
  lemma {:induction false} Inc32TimesIsWrap(x: int32, n: nat)
    ensures Inc32Times(x, n) == Wrap32(x + n)
    ensures x + n <= Int32Max ==> Inc32Times(x, n) == x + n
  {
    if n > 0 {
      Inc32TimesIsWrap(x, n - 1);
      Inc32IsWrap(Inc32Times(x, n - 1));
      Wrap32Add(x + (n - 1), 1);
    }
  }

  /** `a` increments followed by `b` more are `a + b` increments. */
  lemma {:induction false} Inc32TimesAdd(x: int32, a: nat, b: nat)
    ensures Inc32Times(Inc32Times(x, a), b) == Inc32Times(x, a + b)
  {
    if b > 0 {
      Inc32TimesAdd(x, a, b - 1);
    }
  }

  /** The value an unchecked 64-bit operation leaves for the mathematical
      result `x`. */
  function Wrap64(x: int): (r: int64)
    ensures Int64Min <= x <= Int64Max ==> r == x
    ensures (x - r) % TwoTo64 == 0
  {
    ModAddMultiple(x - Int64Min, -((x - Int64Min) / TwoTo64), TwoTo64);
    (x - Int64Min) % TwoTo64 + Int64Min
  }

  /** C# division of two `long`s with a positive divisor: the quotient is
      truncated toward zero, so the remainder takes the sign of `a`. */
  function DivTrunc(a: int64, b: int64): (q: int64)
    requires b > 0
    ensures 0 <= a ==> 0 <= q && 0 <= a - q * b < b
    ensures a < 0 ==> q <= 0 && -b < a - q * b <= 0
  {
    if a >= 0 then
      DivNonNegative(a, b);
      a / b
    else
      DivNonNegative(-(a as int), b);
      -((-(a as int)) / b)
  }
}
