/**
 * Java's 32-bit `int`, represented by its two's-complement bit pattern.
 *
 * On `bv32`, `+`, `-` and `<<` already wrap modulo 2^32 exactly as Java's
 * `int` operators do. What Java adds on top of the bit pattern is the signed
 * reading of it: the comparison `<` and `Math.abs`, defined here, and the
 * arithmetic right shift `>>`, written out where it is used.
 */
module JavaInt {

  /** `Integer.MIN_VALUE`, the pattern with only the sign bit set. */
  const MIN_VALUE: bv32 := 0x8000_0000

  /** The sign bit is set: the pattern denotes a negative `int`. */
  predicate IsNegative(a: bv32)
  {
    a >= MIN_VALUE
  }

  /**
   * Java's `a < b` on `int`: the two's-complement order, with negatives
   * below non-negatives and, within one sign, the order of the patterns.
   */
  function Less(a: bv32, b: bv32): (r: bool)
    ensures r <==> (IsNegative(a) && !IsNegative(b))
                   || (IsNegative(a) == IsNegative(b) && a < b)
  {
    FlippedOrder(a, b);
    (a ^ MIN_VALUE) < (b ^ MIN_VALUE)
  }

  /** Flipping the sign bit turns the two's-complement order into the unsigned one. */
  lemma FlippedOrder(a: bv32, b: bv32)
    ensures (a ^ MIN_VALUE) < (b ^ MIN_VALUE)
            <==> (IsNegative(a) && !IsNegative(b)) || (IsNegative(a) == IsNegative(b) && a < b)
  {
    if IsNegative(a) == IsNegative(b) {
      if a < b {
        FlipKeepsBelow(a, b);
      } else {
        FlipKeepsNotBelow(a, b);
      }
    }
  }

  /** Within one sign, flipping the sign bit keeps `a < b`. */
  lemma FlipKeepsBelow(a: bv32, b: bv32)
    requires IsNegative(a) == IsNegative(b) && a < b
    ensures (a ^ MIN_VALUE) < (b ^ MIN_VALUE)
  {
  }

  /** Within one sign, flipping the sign bit keeps `!(a < b)`. */
  lemma FlipKeepsNotBelow(a: bv32, b: bv32)
    requires IsNegative(a) == IsNegative(b) && !(a < b)
    ensures !((a ^ MIN_VALUE) < (b ^ MIN_VALUE))
  {
  }

  /** Between a positive `x` and a non-negative `a`, `Less` is the order of the patterns. */
  lemma PositiveNotAbove(x: bv32, a: bv32)
    requires Less(0, x) && !IsNegative(a) && !Less(a, x)
    ensures x <= a
  {
  }

  /**
   * Java's `a + b` on `int`, which wraps modulo 2^32. Named, so that sums
   * over many values are built from one function symbol.
   */
  function Add(a: bv32, b: bv32): bv32
  {
    a + b
  }

  /**
   * Java's `Math.abs` on `int`. `MIN_VALUE` has no positive counterpart and
   * is its own absolute value.
   */
  function Abs(a: bv32): (r: bv32)
    ensures !IsNegative(a) ==> r == a
    ensures IsNegative(a) && a != MIN_VALUE ==> !IsNegative(r) && a + r == 0
    ensures a == MIN_VALUE ==> r == MIN_VALUE
  {
    if IsNegative(a) then -a else a
  }
}
