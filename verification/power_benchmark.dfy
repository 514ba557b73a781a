/**
 * The two "next power of two" functions of the benchmark, `slow` and
 * `fast`, and the four benchmark bodies that sum their results over the
 * pre-generated input arrays. Every Java `int` is a `bv32` (see JavaInt).
 */
module PowerBenchmark {
  import opened JavaInt
  import opened PowerOfTwo

  /** Upper bound (exclusive) of the draws for the small inputs: 10^4. */
  const SMALL: bv32 := 10000
  /** Upper bound (exclusive) of the draws for the medium inputs: 10^8. */
  const MEDIUM: bv32 := 100000000
  /** Number of inputs in each array. */
  const SIZE: nat := 50

  /** The inputs on which `slow` and `fast` compute the next power of two. */
  predicate InDomain(x: bv32)
  {
    1 <= x <= MAX_POWER
  }

  // ---------------------------------------------------------------- fast

  /**
   * `s` is a block of low ones (`2^k - 1`) exactly as wide as `v`: it covers
   * every bit of `v`, and its top bit is the highest set bit of `v`.
   */
  predicate IsSmeared(v: bv32, s: bv32)
  {
    s & (s + 1) == 0 && v <= s
    && (v == 0 ==> s == 0)
    && (v != 0 ==> s >> 1 < v)
  }

  /**
   * The five `x |= x >> k` steps of `fast`: they copy the highest set bit of
   * `v` into every position below it. Java's `>>` on `int` is the arithmetic
   * shift: on a negative value it shifts the complement and complements the
   * result, filling the vacated high bits with ones. A negative `v` therefore
   * becomes all ones.
   */
  function Smear(v: bv32): (s: bv32)
    ensures IsSmeared(v, s)
  {
    var v1 := v | (if IsNegative(v) then !(!v >> 1) else v >> 1);
    var v2 := v1 | (if IsNegative(v1) then !(!v1 >> 2) else v1 >> 2);
    var v4 := v2 | (if IsNegative(v2) then !(!v2 >> 4) else v2 >> 4);
    var v8 := v4 | (if IsNegative(v4) then !(!v4 >> 8) else v4 >> 8);
    v8 | (if IsNegative(v8) then !(!v8 >> 16) else v8 >> 16)
  }

  /**
   * `fast`: decrement, smear, increment. For every input the result has at
   * most one bit set: a power of two, or 0 where the increment wraps.
   */
  function Fast(x: bv32): (r: bv32)
    ensures r & (r - 1) == 0
  {
    Smear(x - 1) + 1
  }

  /**
   * On `[1, 2^30]`, one more than the smear of `x - 1` is the tight power
   * of two of `x`.
   */
  lemma IncrementSmeared(x: bv32, s: bv32)
    requires InDomain(x) && IsSmeared(x - 1, s)
    ensures IsTightPow2(x, s + 1)
  {
  }

  /** On `[1, 2^30]`, `fast` returns the next power of two. */
  lemma FastIsNextPow2(x: bv32)
    requires InDomain(x)
    ensures IsNextPow2(x, Fast(x)) && InDomain(Fast(x))
  {
    IncrementSmeared(x, Smear(x - 1));
    NextPow2FromTight(x, Fast(x));
    NextPow2Bounded(x, Fast(x));
  }

  /** Outside `[1, 2^30]`, `fast` wraps to 0 or to `MIN_VALUE`. */
  lemma FastOutsideDomain(x: bv32)
    ensures x == 0 || MIN_VALUE < x ==> Fast(x) == 0
    ensures MAX_POWER < x <= MIN_VALUE ==> Fast(x) == MIN_VALUE
  {
    hide Smear;
    var s := Smear(x - 1);
  }

  /** `fast` is idempotent on `[1, 2^30]`. */
  lemma FastIdempotent(x: bv32)
    requires InDomain(x)
    ensures Fast(Fast(x)) == Fast(x)
  {
    hide Fast;
    var r := Fast(x);
    FastIsNextPow2(x);
    FastIsNextPow2(r);
    NextPow2OfPower(r);
    NextPow2Unique(r, Fast(r), r);
  }

  /** `fast` is monotone on `[1, 2^30]`. */
  lemma FastMonotone(x: bv32, y: bv32)
    requires InDomain(x) && InDomain(y) && x <= y
    ensures Fast(x) <= Fast(y)
  {
    hide Fast;
    FastIsNextPow2(x);
    FastIsNextPow2(y);
    NextPow2Monotone(x, y, Fast(x), Fast(y));
  }

  // ---------------------------------------------------------------- slow

  /**
   * The successive values of `res` in `slow`: 1 shifted left `n` times.
   * Each has at most one bit set.
   */
  function Doubled(n: nat): (d: bv32)
    ensures d & (d - 1) == 0
  {
    if n == 0 then 1 else Doubled(n - 1) << 1
  }

  /**
   * `res` runs through the powers of two up to `2^30`, then wraps to
   * `MIN_VALUE` and then to 0, where it stays.
   */
  lemma {:induction false} DoubledShape(n: nat)
    ensures var d := Doubled(n);
      (IsPow2(d) && d <= MAX_POWER) || d == MIN_VALUE || d == 0
  {
    if n > 0 {
      DoubledShape(n - 1);
      var d := Doubled(n - 1);
      if IsPow2(d) && d < MAX_POWER {
        PowerBelowPower(d, MAX_POWER);
      }
    }
  }

  /**
   * For `x` above `2^30` the loop condition `res < x` of `slow` holds after
   * any number of iterations: `slow` never returns.
   */
  lemma SlowNeverExits(x: bv32, n: nat)
    requires Less(MAX_POWER, x)
    ensures Less(Doubled(n), x)
  {
    DoubledShape(n);
  }

  /**
   * What the loop of `slow` keeps: `res` is a power of two that has not
   * passed `target`, the next power of two of a positive `x`; for `x <= 1`
   * the loop does not run and `res` stays 1.
   */
  ghost predicate SlowInvariant(x: bv32, res: bv32, target: bv32)
  {
    IsPow2(res) && res <= target && target <= MAX_POWER
    && (Less(0, x) ==> IsNextPow2(x, target))
    && (!Less(1, x) ==> res == 1)
  }

  /** One iteration of `slow` keeps its invariant and makes progress. */
  lemma SlowStep(x: bv32, res: bv32, target: bv32)
    requires SlowInvariant(x, res, target) && Less(res, x)
    ensures SlowInvariant(x, res << 1, target)
    ensures res < res << 1 <= MAX_POWER
  {
    PowerBelowPower(res, target);
  }

  /** A `res` up to `2^30` that is not below a positive `x` is at least `x`. */
  lemma StoppedAtOrAbove(x: bv32, res: bv32, target: bv32)
    requires Less(0, x) && res <= target <= MAX_POWER && !Less(res, x)
    ensures x <= res
  {
    PositiveNotAbove(x, res);
  }

  /**
   * A power of two `res` up to the next power of two `target` of a positive
   * `x` that is not below `x` has reached `target`.
   */
  lemma SlowExitPositive(x: bv32, res: bv32, target: bv32)
    requires Less(0, x) && IsNextPow2(x, target)
    requires IsPow2(res) && res <= target <= MAX_POWER && !Less(res, x)
    ensures res == target
  {
    hide IsNextPow2;
    StoppedAtOrAbove(x, res, target);
    NextPow2Least(x, target, res);
  }

  /** When the loop of `slow` stops, `res` is the next power of two. */
  lemma SlowExit(x: bv32, res: bv32, target: bv32)
    requires SlowInvariant(x, res, target) && !Less(res, x)
    ensures Less(0, x) ==> IsNextPow2(x, res) && res == target
    ensures !Less(1, x) ==> res == 1
  {
    if Less(0, x) {
      SlowExitPositive(x, res, target);
    }
  }

  /**
   * `slow`: double `res`, starting at 1, while it is below `x`. It returns
   * only for `x <= 2^30` (see SlowNeverExits); for `x <= 1` it returns 1.
   */
  method Slow(x: bv32) returns (r: bv32)
    requires !Less(MAX_POWER, x)
    ensures Less(0, x) ==> IsNextPow2(x, r) && r == Fast(x)
    ensures !Less(1, x) ==> r == 1
  {
    hide Fast;
    ghost var target: bv32 := 1;
    if Less(0, x) {
      FastIsNextPow2(x);
      target := Fast(x);
    }
    r := 1;
    ghost var n := 0;
    assert SlowInvariant(x, r, target);
    hide SlowInvariant;
    while Less(r, x)
      invariant r == Doubled(n)
      invariant SlowInvariant(x, r, target)
      decreases MAX_POWER - r
    {
      SlowStep(x, r, target);
      r := r << 1;
      n := n + 1;
    }
    SlowExit(x, r, target);
  }

  // ---------------------------------------------------------------- sums

  /**
   * What `slow` returns when it returns: the next power of two of a positive
   * `x`, and 1 for `x <= 0`, where the loop does not run.
   */
  function SlowResult(x: bv32): (r: bv32)
    ensures InDomain(x) ==> IsNextPow2(x, r)
    ensures !Less(1, x) ==> r == 1
  {
    if InDomain(x) then FastIsNextPow2(x); Fast(x)
    else if Less(0, x) then Fast(x)
    else 1
  }

  /**
   * The running sum of a benchmark body: starting from `a`, add `f(value)`
   * for each value in order, in Java `int` arithmetic. From `a = 1` this is
   * `1 + f(v_0) + ... + f(v_{n-1})` modulo 2^32.
   */
  function Accumulate(f: bv32 -> bv32, a: bv32, values: seq<bv32>): bv32
    decreases values
  {
    if values == [] then a
    else Accumulate(f, Add(a, f(values[0])), values[1..])
  }

  /**
   * The running sum over `xs + ys` continues the running sum over `xs`: the
   * values are added one after the other, in order.
   */
  lemma {:induction false} AccumulateAppend(f: bv32 -> bv32, a: bv32, xs: seq<bv32>, ys: seq<bv32>)
    ensures Accumulate(f, a, xs + ys) == Accumulate(f, Accumulate(f, a, xs), ys)
    decreases xs
  {
    if xs != [] {
      assert (xs + ys)[1..] == xs[1..] + ys;
      AccumulateAppend(f, Add(a, f(xs[0])), xs[1..], ys);
    } else {
      assert xs + ys == ys;
    }
  }

  /** Adding one more value to the end adds its `f` to the running sum. */
  lemma AccumulateSnoc(f: bv32 -> bv32, a: bv32, xs: seq<bv32>, x: bv32)
    ensures Accumulate(f, a, xs + [x]) == Add(Accumulate(f, a, xs), f(x))
  {
    AccumulateAppend(f, a, xs, [x]);
  }

  /** On inputs in `[1, 2^30]` the `slow` and `fast` running sums agree. */
  lemma {:induction false} SumsAgree(a: bv32, values: seq<bv32>)
    requires forall i :: 0 <= i < |values| ==> InDomain(values[i])
    ensures Accumulate(SlowResult, a, values) == Accumulate(Fast, a, values)
    decreases values
  {
    hide Fast;
    if values != [] {
      assert SlowResult(values[0]) == Fast(values[0]);
      SumsAgree(Add(a, Fast(values[0])), values[1..]);
    }
  }

  /** The loop of the `...PowerFast` benchmarks: `a += fast(value)`, from 1. */
  method SumFast(values: array<bv32>) returns (a: bv32)
    ensures a == Accumulate(Fast, 1, values[..])
  {
    hide Fast;
    a := 1;
    for i := 0 to values.Length
      invariant Accumulate(Fast, a, values[i..]) == Accumulate(Fast, 1, values[..])
    {
      assert values[i..][1..] == values[i + 1..];
      a := Add(a, Fast(values[i]));
    }
  }

  /**
   * The loop of the `...PowerSlow` benchmarks: `a += slow(value)`, from 1.
   * It returns only when no input exceeds `2^30`.
   */
  method SumSlow(values: array<bv32>) returns (a: bv32)
    requires forall i :: 0 <= i < values.Length ==> !Less(MAX_POWER, values[i])
    ensures a == Accumulate(SlowResult, 1, values[..])
  {
    hide Fast;
    a := 1;
    for i := 0 to values.Length
      invariant Accumulate(SlowResult, a, values[i..]) == Accumulate(SlowResult, 1, values[..])
    {
      var r := Slow(values[i]);
      assert values[i..][1..] == values[i + 1..];
      a := Add(a, r);
    }
  }

  // ---------------------------------------------------------------- inputs

  /** A small input: `abs(nextInt(SMALL)) + 1` lies in `[1, 10^4]`. */
  predicate IsSmallInput(v: bv32)
  {
    1 <= v <= SMALL
  }

  /** A medium input: `abs(nextInt(MEDIUM)) + SMALL` lies in `[10^4, 10^8 + 10^4)`. */
  predicate IsMediumInput(v: bv32)
  {
    SMALL <= v < SMALL + MEDIUM
  }

  /** A draw of `nextInt(SMALL)`, which lies in `[0, SMALL)`, gives a small input. */
  lemma SmallInputFromDraw(d: bv32)
    requires d < SMALL
    ensures IsSmallInput(Add(Abs(d), 1))
  {
  }

  /** A draw of `nextInt(MEDIUM)`, which lies in `[0, MEDIUM)`, gives a medium input. */
  lemma MediumInputFromDraw(d: bv32)
    requires d < MEDIUM
    ensures IsMediumInput(Add(Abs(d), SMALL))
  {
  }

  /**
   * Every generated input is in `[1, 2^30]`: `slow` returns on it and agrees
   * with `fast`.
   */
  lemma InputsInDomain(v: bv32)
    requires IsSmallInput(v) || IsMediumInput(v)
    ensures InDomain(v) && Less(0, v) && !Less(MAX_POWER, v)
  {
  }

  /**
   * The benchmark state: the two input arrays, filled once from the draws
   * of a random generator and only read afterwards.
   */
  class Benchmark {
    const smallValues: array<bv32>
    const mediumValues: array<bv32>

    /** Both arrays hold `SIZE` inputs of their range. */
    ghost predicate Valid()
      reads this, smallValues, mediumValues
    {
      smallValues.Length == SIZE && mediumValues.Length == SIZE
      && (forall i :: 0 <= i < SIZE ==> IsSmallInput(smallValues[i]))
      && (forall i :: 0 <= i < SIZE ==> IsMediumInput(mediumValues[i]))
    }

    /**
     * The static initializer. The random generator is replaced by the
     * sequences of values its `nextInt(SMALL)` and `nextInt(MEDIUM)` calls
     * return, in the order the loop makes them.
     */
    constructor(smallDraws: seq<bv32>, mediumDraws: seq<bv32>)
      requires |smallDraws| == SIZE && |mediumDraws| == SIZE
      requires forall i :: 0 <= i < SIZE ==> smallDraws[i] < SMALL
      requires forall i :: 0 <= i < SIZE ==> mediumDraws[i] < MEDIUM
      ensures Valid()
      ensures forall i :: 0 <= i < SIZE ==> smallValues[i] == Add(Abs(smallDraws[i]), 1)
      ensures forall i :: 0 <= i < SIZE ==> mediumValues[i] == Add(Abs(mediumDraws[i]), SMALL)
    {
      var small := new bv32[SIZE];
      var medium := new bv32[SIZE];
      for i := 0 to SIZE
        invariant forall j :: 0 <= j < i ==> small[j] == Add(Abs(smallDraws[j]), 1)
        invariant forall j :: 0 <= j < i ==> medium[j] == Add(Abs(mediumDraws[j]), SMALL)
        invariant forall j :: 0 <= j < i ==> IsSmallInput(small[j]) && IsMediumInput(medium[j])
      {
        SmallInputFromDraw(smallDraws[i]);
        MediumInputFromDraw(mediumDraws[i]);
        small[i] := Add(Abs(smallDraws[i]), 1);
        medium[i] := Add(Abs(mediumDraws[i]), SMALL);
      }
      smallValues := small;
      mediumValues := medium;
    }

    /** Every input of both arrays is in `[1, 2^30]`. */
    lemma AllInputsInDomain()
      requires Valid()
      ensures forall i :: 0 <= i < SIZE ==> InDomain(smallValues[i]) && InDomain(mediumValues[i])
      ensures forall i :: 0 <= i < SIZE ==> !Less(MAX_POWER, smallValues[i]) && !Less(MAX_POWER, mediumValues[i])
    {
      forall i | 0 <= i < SIZE
        ensures InDomain(smallValues[i]) && InDomain(mediumValues[i])
        ensures !Less(MAX_POWER, smallValues[i]) && !Less(MAX_POWER, mediumValues[i])
      {
        InputsInDomain(smallValues[i]);
        InputsInDomain(mediumValues[i]);
      }
    }

    /** `smallPowerFast`: 1 plus the sum of `fast` over the small inputs. */
    method SmallPowerFast() returns (a: bv32)
      requires Valid()
      ensures a == Accumulate(Fast, 1, smallValues[..])
    {
      a := SumFast(smallValues);
    }

    /**
     * `smallPowerSlow`: it returns, and its result is the one
     * `smallPowerFast` computes.
     */
    method SmallPowerSlow() returns (a: bv32)
      requires Valid()
      ensures a == Accumulate(Fast, 1, smallValues[..])
    {
      AllInputsInDomain();
      a := SumSlow(smallValues);
      SumsAgree(1, smallValues[..]);
    }

    /** `mediumPowerFast`: 1 plus the sum of `fast` over the medium inputs. */
    method MediumPowerFast() returns (a: bv32)
      requires Valid()
      ensures a == Accumulate(Fast, 1, mediumValues[..])
    {
      a := SumFast(mediumValues);
    }

    /**
     * `mediumPowerSlow`: it returns, and its result is the one
     * `mediumPowerFast` computes.
     */
    method MediumPowerSlow() returns (a: bv32)
      requires Valid()
      ensures a == Accumulate(Fast, 1, mediumValues[..])
    {
      AllInputsInDomain();
      a := SumSlow(mediumValues);
      SumsAgree(1, mediumValues[..]);
    }
  }
}
