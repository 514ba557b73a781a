/**
 * Powers of two among the non-negative Java `int`s, and the "next power of
 * two" of a value: the smallest power of two at least as large as it.
 *
 * The values involved are non-negative `int`s, for which the unsigned order
 * of the bit patterns used here is the signed order Java uses.
 */
module PowerOfTwo {

  /** `2^30`, the largest power of two a Java `int` can hold. */
  const MAX_POWER: bv32 := 0x4000_0000

  /** Exactly one bit of `r` is set. */
  predicate IsPow2(r: bv32)
  {
    r != 0 && r & (r - 1) == 0
  }

  /** `r` is the smallest power of two that is at least `x`. */
  ghost predicate IsNextPow2(x: bv32, r: bv32)
  {
    IsPow2(r) && x <= r && forall p :: IsPow2(p) && x <= p ==> r <= p
  }

  /**
   * `r` is a power of two at least `x` whose half (if it has one) is
   * already below `x`: the test a doubling loop applies, one step down.
   */
  predicate IsTightPow2(x: bv32, r: bv32)
  {
    IsPow2(r) && x <= r && (r == 1 || r >> 1 < x)
  }

  /** A power of two below another one is at most half of it. */
  lemma PowerBelowPower(a: bv32, b: bv32)
    requires IsPow2(a) && IsPow2(b) && a < b
    ensures IsPow2(a << 1) && a << 1 <= b
  {
  }

  /** A power of two whose half is below `p` is at most `p`. */
  lemma HalfBelow(p: bv32, r: bv32)
    requires IsPow2(p) && IsPow2(r) && r >> 1 < p
    ensures r <= p
  {
  }

  /**
   * A tight power of two is the next power of two: minimality needs
   * checking only one step down.
   */
  lemma NextPow2FromTight(x: bv32, r: bv32)
    requires IsTightPow2(x, r)
    ensures IsNextPow2(x, r)
  {
    forall p | IsPow2(p) && x <= p
      ensures r <= p
    {
      if r != 1 {
        HalfBelow(p, r);
      }
    }
  }

  /** Conversely, the next power of two is tight. */
  lemma TightFromNextPow2(x: bv32, r: bv32)
    requires IsNextPow2(x, r)
    ensures IsTightPow2(x, r)
  {
    if r != 1 {
      assert IsPow2(r >> 1);
    }
  }

  /**
   * The two descriptions agree: the next power of two is exactly the power
   * of two at least `x` whose half is below `x`.
   */
  lemma NextPow2IffTight(x: bv32, r: bv32)
    ensures IsNextPow2(x, r) <==> IsTightPow2(x, r)
  {
    if IsNextPow2(x, r) {
      TightFromNextPow2(x, r);
    }
    if IsTightPow2(x, r) {
      NextPow2FromTight(x, r);
    }
  }

  /** The next power of two is below every power of two at least `x`. */
  lemma NextPow2Least(x: bv32, r: bv32, p: bv32)
    requires IsNextPow2(x, r) && IsPow2(p) && x <= p
    ensures r <= p
  {
  }

  /** There is at most one next power of two. */
  lemma NextPow2Unique(x: bv32, r: bv32, r': bv32)
    requires IsNextPow2(x, r) && IsNextPow2(x, r')
    ensures r == r'
  {
  }

  /** A power of two is its own next power of two. */
  lemma NextPow2OfPower(r: bv32)
    requires IsPow2(r)
    ensures IsNextPow2(r, r)
  {
  }

  /** The next power of two grows with its argument. */
  lemma NextPow2Monotone(x: bv32, y: bv32, rx: bv32, ry: bv32)
    requires x <= y && IsNextPow2(x, rx) && IsNextPow2(y, ry)
    ensures rx <= ry
  {
  }

  /** Up to `2^30` the next power of two is representable. */
  lemma NextPow2Bounded(x: bv32, r: bv32)
    requires x <= MAX_POWER && IsNextPow2(x, r)
    ensures r <= MAX_POWER
  {
    assert IsPow2(MAX_POWER);
  }
}
