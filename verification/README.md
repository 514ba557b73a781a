# PowerBenchmark in Dafny

A model of `PowerBenchmark`, a JMH micro-benchmark. It compares two ways of
computing the next power of two of a Java `int`:

- `slow` doubles an accumulator, starting at 1, while the accumulator is below `x`.
- `fast` decrements `x`, ORs in its arithmetic right shifts by 1, 2, 4, 8 and 16,
  and increments the result.

Four benchmark bodies start at 1 and add `fast` or `slow` of every element of
one of two 50-element input arrays. A static initializer fills the arrays once
from a random generator:

- small inputs are `abs(nextInt(10^4)) + 1`;
- medium inputs are `abs(nextInt(10^8)) + 10^4`.

Every Java `int` is a `bv32`, the bit pattern of the two's-complement value.

- `+`, `-` and `<<` on `bv32` wrap modulo 2^32 exactly as Java's operators do.
- Java's signed `<`, its `+` and `Math.abs` are defined in module `JavaInt`
  (`java_int.dfy`).
- Java's arithmetic `>>` is written out in each of the five smearing steps. On
  a negative value it complements, shifts, and complements again.
- Module `PowerOfTwo` (`power_of_two.dfy`) defines powers of two and the
  specification `IsNextPow2(x, r)`: `r` is the least power of two that is at
  least `x`.
- Module `PowerBenchmark` (`power_benchmark.dfy`) holds `fast`, `slow`, the
  sums, and a class `Benchmark` for the input arrays and the four benchmark
  bodies.

What is proved:

- On `[1, 2^30]`, `fast` and `slow` both return the next power of two, so they
  are equal there.
- `fast` is idempotent and monotone on that range.
- Outside that range, `fast` wraps to 0 or to `Integer.MIN_VALUE`; every result of
  `fast` has at most one bit set.
- `slow` returns 1 for every `x <= 1`.
- For `x > 2^30`, `slow` never leaves its loop.
- Every generated input lies in `[1, 2^30]`.
- Each slow benchmark body returns exactly what the matching fast body returns:
  1 plus the sum of `fast` over the array, modulo 2^32.

At the edges of its input range the code behaves as follows:

- `slow(x)` for `x <= 0` does not fail; the loop does not run and it returns 1.
  `fast(0)` and `fast` of a negative value other than `MIN_VALUE` return 0.
- `slow(x)` for `x > 2^30` does not fail either; it loops forever, because the
  accumulator wraps to `MIN_VALUE` and then to 0, which is never `>= x`.
- The medium inputs lie in `[10^4, 10^8 + 10^4)`. The upper end is exclusive
  because `nextInt`'s bound is exclusive.

## Model

| member | source | states |
|---|---|---|
| `JavaInt.Less` | src/main/java/com/denison/PowerBenchmark.java:37 | Java's `<` on `int`, the loop test `res < x`, puts negatives below non-negatives and orders values of one sign as their bit patterns |
| `JavaInt.Add` | src/main/java/com/denison/PowerBenchmark.java:59 | Java's `a += v` on `int`, the same step at lines 69, 79 and 89: the sum modulo 2^32; it has no contract of its own, and how the loops chain it is stated by `AccumulateSnoc` |
| `JavaInt.Abs` | src/main/java/com/denison/PowerBenchmark.java:30-31 | `Math.abs` leaves non-negative values alone, negates other negatives to a non-negative value, and maps `MIN_VALUE` to itself |
| `PowerBenchmark.Smear` | src/main/java/com/denison/PowerBenchmark.java:45-49 | after the five steps that OR in `x >> k` the value is `2^k - 1`, a block of low ones that covers `x`, with its top bit at the highest set bit of `x`; 0 stays 0 |
| `PowerBenchmark.Fast` | src/main/java/com/denison/PowerBenchmark.java:43-52 | for every input the result has at most one bit set: a power of two, or 0 where the final `x++` wraps; the next power of two on `[1, 2^30]` is stated by `FastIsNextPow2`, and the wrapped results outside it by `FastOutsideDomain` |
| `PowerBenchmark.IncrementSmeared` | src/main/java/com/denison/PowerBenchmark.java:44-50 | for `x` in `[1, 2^30]`, the final `x++` turns the smear of `x - 1` into a power of two at least `x` whose half is below `x`, and it stays in `[1, 2^30]` |
| `PowerBenchmark.FastIsNextPow2` | src/main/java/com/denison/PowerBenchmark.java:43-52 | on `[1, 2^30]`, `fast` returns the least power of two at least `x`, and that result is in `[1, 2^30]` |
| `PowerBenchmark.FastOutsideDomain` | src/main/java/com/denison/PowerBenchmark.java:43-52 | `fast(0)` and `fast` of a negative value other than `MIN_VALUE` are 0; `fast` of a value in `(2^30, 2^31 - 1]`, or of `MIN_VALUE`, is `MIN_VALUE` |
| `PowerBenchmark.FastIdempotent` | src/main/java/com/denison/PowerBenchmark.java:43-52 | on `[1, 2^30]`, `fast(fast(x)) == fast(x)` |
| `PowerBenchmark.FastMonotone` | src/main/java/com/denison/PowerBenchmark.java:43-52 | on `[1, 2^30]`, `x <= y` implies `fast(x) <= fast(y)` |
| `PowerBenchmark.Doubled` | src/main/java/com/denison/PowerBenchmark.java:36-38 | the successive values of `res`, starting at 1 and shifted left once per iteration, each have at most one bit set |
| `PowerBenchmark.DoubledShape` | src/main/java/com/denison/PowerBenchmark.java:36-39 | after any number of doublings, `res` is a power of two up to `2^30`, or `MIN_VALUE`, or 0 |
| `PowerBenchmark.SlowNeverExits` | src/main/java/com/denison/PowerBenchmark.java:37-39 | for `x > 2^30`, the loop condition `res < x` holds after every number of doublings |
| `PowerBenchmark.SlowStep` | src/main/java/com/denison/PowerBenchmark.java:37-39 | one doubling keeps `res` a power of two that has not passed the next power of two of `x`, and strictly increases `res` without passing `2^30` |
| `PowerBenchmark.SlowExit` | src/main/java/com/denison/PowerBenchmark.java:37-40 | when `res < x` fails, `res` is the next power of two of a positive `x`, and 1 when `x <= 1` |
| `PowerBenchmark.Slow` | src/main/java/com/denison/PowerBenchmark.java:35-41 | for `x <= 2^30`, `slow` returns; for positive `x` it returns the least power of two at least `x`, equal to `fast(x)`; for `x <= 1` it returns 1 |
| `PowerBenchmark.SlowResult` | src/main/java/com/denison/PowerBenchmark.java:35-41 | what `slow` returns when it returns: on `[1, 2^30]` the least power of two at least `x`, and 1 for `x <= 1` |
| `PowerBenchmark.Accumulate` | src/main/java/com/denison/PowerBenchmark.java:57-61 | the running sum of a benchmark loop, `a += f(value)` over the array in order; it has no contract of its own, and its meaning as a left-to-right sum is stated by `AccumulateAppend` and `AccumulateSnoc` |
| `PowerBenchmark.AccumulateAppend` | src/main/java/com/denison/PowerBenchmark.java:57-61 | the running sum over two consecutive parts of the array is the running sum over the second part, started from the sum over the first |
| `PowerBenchmark.AccumulateSnoc` | src/main/java/com/denison/PowerBenchmark.java:57-61 | one more iteration of the loop adds `f` of the next value to `a`, modulo 2^32 |
| `PowerBenchmark.SumsAgree` | src/main/java/com/denison/PowerBenchmark.java:56-92 | over inputs in `[1, 2^30]`, the running sum of `slow` results equals the running sum of `fast` results from any start |
| `PowerBenchmark.SumFast` | src/main/java/com/denison/PowerBenchmark.java:57-61 | the loop `a += fast(value)` from `a = 1` returns 1 plus the sum of `fast` over the array in order, modulo 2^32 |
| `PowerBenchmark.SumSlow` | src/main/java/com/denison/PowerBenchmark.java:67-71 | when no input exceeds `2^30`, the loop `a += slow(value)` from `a = 1` returns 1 plus the sum of `slow`'s results, modulo 2^32 |
| `PowerBenchmark.SmallInputFromDraw` | src/main/java/com/denison/PowerBenchmark.java:30 | a draw in `[0, 10^4)` gives a small input in `[1, 10^4]` |
| `PowerBenchmark.MediumInputFromDraw` | src/main/java/com/denison/PowerBenchmark.java:31 | a draw in `[0, 10^8)` gives a medium input in `[10^4, 10^8 + 10^4)` |
| `PowerBenchmark.InputsInDomain` | src/main/java/com/denison/PowerBenchmark.java:27-33 | every small or medium input is in `[1, 2^30]`: positive, and not above `2^30` in Java's order |
| `PowerBenchmark.Benchmark.constructor` | src/main/java/com/denison/PowerBenchmark.java:25-33 | the initializer fills both 50-element arrays, element `i` from draw `i`, and leaves them within their ranges |
| `PowerBenchmark.Benchmark.AllInputsInDomain` | src/main/java/com/denison/PowerBenchmark.java:25-33 | every element of both arrays is in `[1, 2^30]` |
| `PowerBenchmark.Benchmark.SmallPowerFast` | src/main/java/com/denison/PowerBenchmark.java:56-62 | returns 1 plus the sum of `fast` over the small inputs, modulo 2^32 |
| `PowerBenchmark.Benchmark.SmallPowerSlow` | src/main/java/com/denison/PowerBenchmark.java:66-72 | terminates and returns the same value as `smallPowerFast` |
| `PowerBenchmark.Benchmark.MediumPowerFast` | src/main/java/com/denison/PowerBenchmark.java:76-82 | returns 1 plus the sum of `fast` over the medium inputs, modulo 2^32 |
| `PowerBenchmark.Benchmark.MediumPowerSlow` | src/main/java/com/denison/PowerBenchmark.java:86-92 | terminates and returns the same value as `mediumPowerFast` |

## Left out

- The JMH annotations, including `@OperationsPerInvocation`, and `main` with its `Runner` and options (lines 17-19, 54-55, 64-65, 74-75, 84-85, 94-103). They configure timing and reporting, not results. Execution time is not modelled.
- `java.util.Random`: the constructor takes the sequences of values that `nextInt(SMALL)` and `nextInt(MEDIUM)` return. Its `requires` states the range that `nextInt` guarantees.
- `Math.pow(10, 4)` and `Math.pow(10, 8)`: the constants are written as the literals 10000 and 100000000. Both are exact as doubles, so the `(int)` casts lose nothing.
- Static fields: `smallValues` and `mediumValues` are static in the source. Here they are fields of the one `Benchmark` object that the constructor builds. Nothing writes them after initialization.
- PowerBenchmark.Slow: the case `x > 2^30` is excluded by its `requires`, because a Dafny method must terminate. That the loop runs forever there is stated by `SlowNeverExits` about the loop's successive values.
- PowerBenchmark.SumSlow: it requires every input to be at most `2^30`, for the same reason.
- Whether the medium sums overflow 32 bits is not stated. The sums are defined modulo 2^32, so wrap-around is modelled, but no bound or concrete overflow is proved.
