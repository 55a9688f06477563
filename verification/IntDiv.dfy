/** Dividing a double word by a word: the branch that has a double-width type and the portable
    branch that only has half words  (mbedtls_int_div_int). */
module IntDiv {
  import opened Numbers
  import opened Limbs
  import opened MpiCore
  import MpiShift

  /** The MBEDTLS_HAVE_UDBL branch. */
  method IntDivIntWide(u1: Limb, u0: Limb, d: Limb) returns (q: Limb, r: Limb)
    ensures d == 0 || u1 >= d ==> q == BASE - 1 && r == BASE - 1
    ensures d != 0 && u1 < d ==> q == (u1 * BASE + u0) / d && r == (u1 * BASE + u0) % d
  {
    if d == 0 || u1 >= d { return BASE - 1, BASE - 1; }
    var dividend: nat := u1 * BASE + u0;
    DivModIdentity(dividend, d);
    TwoDigits(u1, u0, BASE, d);
    LeadingDigit(dividend, BASE, d);
    var quotient := dividend / d;
    if quotient > BASE - 1 { quotient := BASE - 1; }
    q := quotient;
    r := dividend - quotient * d;
  }

  /** One half-word quotient digit of (u, um) by d: the estimate u / d1 is corrected downwards
      until it is the true digit.  u < d, and d is normalised so that d1 is not zero. */
  method HalfQuotient(u: Limb, um: Limb, d: Limb) returns (q: Limb)
    requires u < d && um < HALF && HALF <= d
    ensures q < HALF && q * d <= u * HALF + um < (q + 1) * d
  {
    hide WrapMul, Estimate;
    var d1, d0 := d / HALF, d % HALF;
    var r0;
    q, r0 := FirstEstimate(u, um, d, d1, d0);
    while q >= HALF || WrapMul(q, d0) > HALF * r0 + um
      invariant 0 <= q < BASE && 0 <= r0 < HALF
      invariant Estimate(q, u, um, d, d1, r0)
      decreases q
    {
      if q < HALF { HalfProduct(q, d0); }
      EstimateTooHigh(q, u, um, d, d1, d0, r0);
      q := q - 1;
      r0 := r0 + d1;
      if r0 >= HALF {
        EstimateStop(q, u, um, d, d1, d0, r0);
        return;
      }
    }
    HalfProduct(q, d0);
    EstimateExact(q, u, um, d, d1, d0, r0);
  }

  /** The first guess divides by the upper half of d only. */
  method FirstEstimate(u: Limb, um: Limb, d: Limb, d1: Limb, d0: Limb) returns (q: Limb, r0: Limb)
    requires d == d1 * HALF + d0 && 1 <= d1 < HALF && um < HALF
    ensures r0 < HALF && Estimate(q, u, um, d, d1, r0)
  {
    hide Estimate;
    DivModIdentity(u, d1);
    DivLe(u, d1);
    q := u / d1;
    r0 := u - d1 * q;
    EstimateStart(q, u, um, d, d1, d0, r0);
  }

  lemma EstimateStart(q: nat, u: nat, um: nat, d: nat, d1: nat, d0: nat, r0: nat)
    requires u == q * d1 + r0 && r0 < d1 && um < HALF && d == d1 * HALF + d0
    ensures Estimate(q, u, um, d, d1, r0)
  {
    ProductByHalves(q + 1, d, d1, d0);
    MulDistrib(d1, q, 1);
    MulLe(q + 1, 0, d0);
  }

  /** q is not below the true digit, and r0 is what u / d1 leaves. */
  ghost predicate Estimate(q: int, u: nat, um: nat, d: nat, d1: nat, r0: int)
  {
    u == q * d1 + r0 && u * HALF + um < (q + 1) * d
  }

  lemma HalfProduct(q: nat, d0: nat)
    requires q < HALF && d0 < HALF
    ensures q * d0 < BASE && q * d0 < HALF * HALF
  {
    MulLe(q, d0, HALF);
    MulLe(HALF, q, HALF - 1);
  }

  lemma EstimateTooHigh(q: nat, u: nat, um: nat, d: nat, d1: nat, d0: nat, r0: nat)
    requires Estimate(q, u, um, d, d1, r0) && u < d && um < HALF && d == d1 * HALF + d0
    requires q >= HALF || q * d0 > HALF * r0 + um
    ensures 1 <= q && Estimate(q - 1, u, um, d, d1, r0 + d1)
  {
    assert q * d1 == (q - 1) * d1 + d1;
    if q >= HALF {
      MulLe(d, HALF, q);
    } else {
      ProductByHalves(q, d, d1, d0);
    }
  }

  lemma ProductByHalves(q: nat, d: nat, d1: nat, d0: nat)
    requires d == d1 * HALF + d0
    ensures q * d == (q * d1) * HALF + q * d0
  {}

  lemma EstimateExact(q: nat, u: nat, um: nat, d: nat, d1: nat, d0: nat, r0: nat)
    requires Estimate(q, u, um, d, d1, r0) && d == d1 * HALF + d0
    requires q * d0 <= HALF * r0 + um
    ensures q * d <= u * HALF + um < (q + 1) * d
  {
    ProductByHalves(q, d, d1, d0);
  }

  lemma EstimateStop(q: nat, u: nat, um: nat, d: nat, d1: nat, d0: nat, r0: nat)
    requires Estimate(q, u, um, d, d1, r0) && u < d && d == d1 * HALF + d0 && d0 < HALF <= r0
    ensures q < HALF && q * d <= u * HALF + um < (q + 1) * d
  {
    if q >= HALF { MulLe(d1, HALF, q); }
    HalfProduct(q, d0);
    EstimateExact(q, u, um, d, d1, d0, r0);
  }

  /** The portable branch: Knuth's Algorithm D on two half-word digits.  Every intermediate
      computation wraps modulo BASE, yet quotient and remainder come out exact. */
  method IntDivIntHalf(u1: Limb, u0: Limb, d: Limb) returns (q: Limb, r: Limb)
    ensures d == 0 || u1 >= d ==> q == BASE - 1 && r == BASE - 1
    ensures d != 0 && u1 < d ==> q == (u1 * BASE + u0) / d && r == (u1 * BASE + u0) % d
  {
    hide Pow2, WrapMul;
    if d == 0 || u1 >= d { return BASE - 1, BASE - 1; }
    var s, v1, v0, e := Normalise(u1, u0, d);
    var q1 := HalfQuotient(v1, v0 / HALF, e);
    var rAX := WrapAdd(WrapMul(v1, HALF), WrapSub(v0 / HALF, WrapMul(q1, e)));
    RemainderWraps(v1, v0 / HALF, q1, e, rAX);
    var q0 := HalfQuotient(rAX, v0 % HALF, e);
    var rem := WrapSub(WrapAdd(WrapMul(rAX, HALF), v0 % HALF), WrapMul(q0, e));
    RemainderWraps(rAX, v0 % HALF, q0, e, rem);
    q := q1 * HALF + q0;
    DivLe(rem, Pow2(s));
    r := rem / Pow2(s);
    Denormalise(u1 * BASE + u0, d, v1, v0, e, Pow2(s), q1, rAX, q0, rem);
  }

  /** The remainder of a quotient digit is exact although its parts wrap, in either association. */
  lemma RemainderWraps(u: Limb, um: Limb, q: Limb, d: Limb, rem: Limb)
    requires q * d <= u * HALF + um < (q + 1) * d
    requires rem == WrapAdd(WrapMul(u, HALF), WrapSub(um, WrapMul(q, d)))
          || rem == WrapSub(WrapAdd(WrapMul(u, HALF), um), WrapMul(q, d))
    ensures rem == u * HALF + um - q * d < d
  {
    hide WrapMul;
    WrapMulExact(u, HALF);
    WrapMulExact(q, d);
    var a, b, x := WrapMul(u, HALF), WrapMul(q, d), u * HALF + um - q * d;
    var j := if rem == a + um - b then 0 else if rem == a + um - b + BASE then 1 else -1;
    assert rem == a + um - b + BASE * j;
    MulDistrib(d, q, 1);
    WrapUnique(rem, x, q * d / BASE - u * HALF / BASE + j);
  }

  lemma WrapUnique(x: int, y: int, k: int)
    requires 0 <= x < BASE && 0 <= y < BASE && x == y + BASE * k
    ensures x == y
  {}

  lemma Denormalise(n: nat, d: nat, v1: nat, v0: nat, e: nat, p: nat, q1: nat, rAX: nat, q0: nat, rem: nat)
    requires n * p == v1 * BASE + v0 && e == d * p && 1 <= p && 1 <= d
    requires v1 * HALF + v0 / HALF == q1 * e + rAX
    requires rAX * HALF + v0 % HALF == q0 * e + rem && rem < e
    ensures n / d == q1 * HALF + q0 && n % d == rem / p
  {
    var q := q1 * HALF + q0;
    calc {
      n * p;
      (v1 * HALF + v0 / HALF) * HALF + v0 % HALF;
      (q1 * e + rAX) * HALF + v0 % HALF;
      (q1 * e) * HALF + q0 * e + rem;
      q * e + rem;
    }
    assert q * e == (q * d) * p;
    assert rem == (n - q * d) * p;
    var r := n - q * d;
    MulLtCancel(p, r, d);
    if r < 0 { MulLe(p, r, -1); }
    ModOfMultiple(r, p);
    DivModUnique(n, d, q, r);
  }

  /** Shift divisor and dividend left until the divisor's top bit is set. */
  method Normalise(u1: Limb, u0: Limb, d: Limb) returns (s: nat, v1: Limb, v0: Limb, e: Limb)
    requires u1 < d
    ensures e == d * Pow2(s) && HALF <= e && v1 < e
    ensures (u1 * BASE + u0) * Pow2(s) == v1 * BASE + v0
  {
    hide *;
    s := Clz(d);
    var t := BIL - s;
    NormaliseFacts(u1, u0, d, s, t);
    e := Wrap(d * Pow2(s));
    v1 := Wrap(u1 * Pow2(s));
    v1 := BitOr(v1, if s == 0 then 0 else u0 / Pow2(t));
    v0 := Wrap(u0 * Pow2(s));
  }

  lemma NormaliseFacts(u1: Limb, u0: Limb, d: Limb, s: nat, t: nat)
    requires s + t == BIL && d < Pow2(t) && (s < BIL ==> Pow2(BIL - 1 - s) <= d) && u1 < d
    ensures HALF <= d * Pow2(s) < BASE
    ensures 0 <= u0 * Pow2(s) && 0 <= u1 * Pow2(s) < BASE && 0 <= u0 / Pow2(t)
    ensures s == 0 ==> u0 / Pow2(t) == 0
    ensures BitOr(u1 * Pow2(s), u0 / Pow2(t)) < d * Pow2(s)
    ensures (u1 * BASE + u0) * Pow2(s) == BitOr(u1 * Pow2(s), u0 / Pow2(t)) * BASE + Wrap(u0 * Pow2(s))
  {
    hide Pow2, BitOr, HasBit;
    var p, w := Pow2(s), u0 / Pow2(t);
    BaseSplit(s, t);
    Pow2Step(t - 1);
    NormalisedDivisor(d, p, Pow2(t - 1));
    MpiShift.ShiftOut(u0, s, t);
    MulLe(p, 0, u0);
    LeadingDigit(u0, p, Pow2(t));
    NormalisedDividend(u1, u0, d, p, w, u0 % Pow2(t));
    BitOrDisjoint(u1, w, s);
  }

  lemma NormalisedDivisor(d: nat, p: nat, h: nat)
    requires h <= d < 2 * h && p * (2 * h) == BASE
    ensures HALF <= d * p < BASE
  {
    MulLt(p, d, 2 * h);
    MulLe(p, h, d);
    assert p * (2 * h) == 2 * (p * h);
  }

  lemma NormalisedDividend(u1: nat, u0: nat, d: nat, p: nat, w: nat, lo: nat)
    requires u1 < d && w < p && d * p < BASE && u0 * p == lo * p + BASE * w
    ensures 0 <= u1 * p < BASE && u1 * p + w < d * p
    ensures (u1 * BASE + u0) * p == (u1 * p + w) * BASE + lo * p
  {
    MulLe(p, u1 + 1, d);
    assert (u1 * BASE) * p == (u1 * p) * BASE;
  }
}
