/** Long division with remainder (HAC 14.20), and the reductions built on it. */
module MpiDiv {
  import opened Numbers
  import opened Limbs
  import opened MpiCore
  import opened MpiAdd
  import opened MpiMul
  import opened MpiShift
  import opened IntDiv

  // ----- what truncated division is -----

  function AbsInt(x: int): (r: nat)
    ensures r == x || r == -x
  {
    if x < 0 then -x else x
  }

  function TDiv(a: int, b: int): (q: int)
    requires b != 0
  {
    var q := AbsInt(a) / AbsInt(b);
    if (a < 0) == (b < 0) then q else 0 - q
  }

  function TMod(a: int, b: int): (r: int)
    requires b != 0
  {
    var r := AbsInt(a) % AbsInt(b);
    if a < 0 then 0 - r else r
  }

  /** Quotient and remainder of division rounding towards zero. */
  lemma TruncatedDivision(a: int, b: int)
    requires b != 0
    ensures a == TDiv(a, b) * b + TMod(a, b)
    ensures AbsInt(TMod(a, b)) < AbsInt(b)
    ensures TMod(a, b) == 0 || (TMod(a, b) < 0 <==> a < 0)
  {
    var x, y := AbsInt(a), AbsInt(b);
    DivLe(x, y);
    DivModIdentity(x, y);
    var q: int, r: int := x / y, x % y;
    assert x == q * y + r;
    QuotientSign(q, b, y);
    QuotientSign(0 - q, b, y);
    QuotientSign(b, 0 - q, q);
  }

  /** Nothing else satisfies this: the three conditions determine quotient and remainder. */
  lemma TruncatedDivisionUnique(a: int, b: int, q: int, r: int)
    requires b != 0 && a == q * b + r && AbsInt(r) < AbsInt(b)
    requires r == 0 || (r < 0 <==> a < 0)
    ensures q == TDiv(a, b) && r == TMod(a, b)
  {
    var y := AbsInt(b);
    var p := if (a < 0) == (b < 0) then q else 0 - q;
    QuotientSign(q, b, y);
    SplitBySign(a, b, q * b, r, p * y) by { assert (0 - q) * y == 0 - q * y; }
    DivModUnique(AbsInt(a), y, p, AbsInt(r));
  }

  lemma SplitBySign(a: int, b: int, m: int, r: int, n: int)
    requires a == m + r && b != 0 && (r == 0 || (r < 0 <==> a < 0))
    requires n == if a < 0 then 0 - m else m
    ensures AbsInt(a) == n + AbsInt(r)
  {}

  lemma QuotientSign(q: int, b: int, y: int)
    ensures b == y ==> q * b == q * y
    ensures b == 0 - y ==> q * b == 0 - q * y
  {}

  // ----- outputs that are inputs -----

  /** A as read for the remainder: when the quotient has been written into A before, only its
      sign counts, or, for a quotient of 0, nothing is left of A. */
  function SeenA(a: int, b: int, qa: bool, qb: bool): (x: int)
  {
    if !qa then a
    else if AbsInt(a) < AbsInt(b) then 0
    else if b < 0 && !qb then 0 - AbsInt(a) else AbsInt(a)
  }

  /** Which divisions into A or B themselves come out right. */
  lemma DivisionInPlaceIff(a: int, b: int)
    requires b != 0
    ensures TDiv(AbsInt(a), b) == TDiv(a, b) <==> a >= 0 || AbsInt(a) < AbsInt(b)
    ensures TDiv(a, AbsInt(b)) == TDiv(a, b) <==> b >= 0 || AbsInt(a) < AbsInt(b)
    ensures TMod(SeenA(a, b, true, false), b) == TMod(a, b) <==>
            a == 0 || (AbsInt(a) >= AbsInt(b) && ((a < 0) == (b < 0) || TMod(a, b) == 0))
  {
    var x, y := AbsInt(a), AbsInt(b);
    if x < y {
      DivModUnique(x, y, 0, x);
      DivModUnique(0, y, 0, 0);
    }
  }

  /** When A is B the quotient is 1 and the remainder 0 wherever they are written. */
  lemma DivisionByItself(a: int)
    requires a != 0
    ensures TDiv(a, a) == TDiv(AbsInt(a), AbsInt(a)) == 1
    ensures TMod(a, a) == TMod(AbsInt(a), a) == TMod(0 - AbsInt(a), a) == 0
  {
    DivModUnique(AbsInt(a), AbsInt(a), 1, 0);
  }

  // ----- the quotient-digit argument, on integers -----

  /** q is not below the digit floor(x / d). */
  ghost predicate NotBelow(q: int, x: int, d: nat)
  {
    x < (q + 1) * d
  }

  /** The two top limbs of the divisor, the three top limbs of the dividend. */
  function Top2(y: seq<Limb>, t: nat): (r: nat)
    requires t < |y|
  {
    (if t < 1 then 0 else y[t - 1]) + BASE * y[t]
  }

  function Top3(x: seq<Limb>, i: nat): (r: nat)
    requires i < |x|
  {
    (if i < 2 then 0 else x[i - 2]) + BASE * (if i < 1 then 0 else x[i - 1]) + BASE * BASE * x[i]
  }

  lemma Top2Is(y: seq<Limb>, t: nat) returns (lo: nat)
    requires t < |y| && Value(y) < PowB(t + 1)
    ensures BASE * Value(y) == Top2(y, t) * PowB(t) + lo && lo < PowB(t)
  {
    hide Value, PowB;
    SmallValueHighZero(y, t + 1);
    ValuePrefixStep(y, t);
    if t < 1 {
      lo := 0;
      assert y[..t] == [];
    } else {
      ValuePrefixStep(y, t - 1);
      PowBStep(t - 1);
      ValueBound(y[..t - 1]);
      lo := BASE * Value(y[..t - 1]);
      Top2Sum(y[t - 1], y[t], PowB(t - 1), Value(y[..t - 1]));
    }
  }

  lemma Top2Sum(a: nat, b: nat, w: nat, lo: nat)
    ensures BASE * (lo + a * w + b * (BASE * w)) == (a + BASE * b) * (BASE * w) + BASE * lo
  {}

  lemma Top3Is(x: seq<Limb>, i: nat) returns (lo: nat)
    requires 1 <= i < |x| && Value(x) < PowB(i + 1)
    ensures BASE * Value(x) == Top3(x, i) * PowB(i - 1) + lo && lo < PowB(i - 1)
  {
    hide Value, PowB;
    SmallValueHighZero(x, i + 1);
    ValuePrefixStep(x, i);
    ValuePrefixStep(x, i - 1);
    PowBStep(i - 1);
    if i < 2 {
      lo := 0;
      assert x[..i - 1] == [];
    } else {
      ValuePrefixStep(x, i - 2);
      PowBStep(i - 2);
      ValueBound(x[..i - 2]);
      lo := BASE * Value(x[..i - 2]);
      Top3Sum(x[i - 2], x[i - 1], x[i], PowB(i - 2), Value(x[..i - 2]));
    }
  }

  lemma Top3Sum(a: nat, b: nat, c: nat, w: nat, lo: nat)
    ensures BASE * (lo + a * w + b * (BASE * w) + c * (BASE * (BASE * w)))
         == (a + BASE * b + BASE * BASE * c) * (BASE * w) + BASE * lo
  {}

  /** If the digit fails the three-limb test it is too large. */
  lemma DigitTooLarge(q: nat, x: nat, y: nat, y2: nat, x3: nat, yl: nat, xl: nat, p: nat, w: nat)
    requires BASE * y == y2 * p + yl && BASE * x == x3 * (p * w) + xl && xl < p * w
    requires q * y2 > x3
    ensures x < q * (y * w)
  {
    DigitTimes(q, w, y, y2, p, yl);
    MulLe(p * w, x3 + 1, q * y2);
    MulDistrib(p * w, x3, 1);
    MulLe(q, 0, w);
    MulLe(q * w, 0, yl);
  }

  lemma DigitProduct(q: nat, w: nat, y2: nat, p: nat)
    ensures q * w * (y2 * p) == (q * y2) * (p * w)
  {}

  /** A digit that passes the test is at most one too large: one add-back is enough. */
  lemma DigitAlmostRight(q: nat, x: nat, y: nat, y2: nat, x3: nat, yl: nat, xl: nat, p: nat, w: nat)
    requires BASE * y == y2 * p + yl && BASE * x == x3 * (p * w) + xl && yl < p
    requires q * y2 <= x3 && q < BASE && p <= y && 1 <= w
    ensures q * (y * w) - x < y * w
  {
    DigitTimes(q, w, y, y2, p, yl);
    MulLe(p * w, q * y2, x3);
    TailBelow(q, yl, y, w, p);
  }

  lemma DigitTimes(q: nat, w: nat, y: nat, y2: nat, p: nat, yl: nat)
    requires BASE * y == y2 * p + yl
    ensures BASE * (q * (y * w)) == (q * y2) * (p * w) + q * w * yl
  {
    assert BASE * (q * (y * w)) == q * w * (BASE * y);
    MulDistrib(q * w, y2 * p, yl);
    DigitProduct(q, w, y2, p);
  }

  lemma TailBelow(q: nat, yl: nat, y: nat, w: nat, p: nat)
    requires yl < p <= y && q < BASE && 1 <= w
    ensures q * w * yl < BASE * (y * w)
  {
    MulLe(q, yl, y);
    MulLt(y, q, BASE);
    MulLt(w, q * yl, BASE * y);
    assert q * w * yl == w * (q * yl) && w * (BASE * y) == BASE * (y * w);
  }

  /** The two-limb by one-limb estimate, and its cap BASE - 1, are not below the digit. */
  lemma FirstEstimateHigh(q: nat, x: nat, y: nat, x2: nat, y1: nat, p: nat, w: nat)
    requires x < (x2 + 1) * (p * w) && y1 * p <= y && x2 < (q + 1) * y1
    ensures NotBelow(q, x, y * w)
  {
    MulLe(p * w, x2 + 1, (q + 1) * y1);
    MulLe((q + 1) * w, y1 * p, y);
    assert ((q + 1) * y1) * (p * w) == ((q + 1) * w) * (y1 * p);
    assert ((q + 1) * w) * y == (q + 1) * (y * w);
  }

  // ----- the routine -----

  /** A buffer holding a two-limb number, and one holding a three-limb number. */
  lemma ValueTwo(n: nat, a: Limb, b: Limb)
    requires 2 <= n
    ensures Value(Zeros(n)[0 := a][1 := b]) == a + BASE * b
  {
    hide Value, PowB;
    ValueZeros(Zeros(n));
    ValueUpdate(Zeros(n), 0, a);
    ValueUpdate(Zeros(n)[0 := a], 1, b);
    PowBStep(0);
  }

  lemma ValueThree(n: nat, a: Limb, b: Limb, c: Limb)
    requires 3 <= n
    ensures Value(Zeros(n)[0 := a][1 := b][2 := c]) == a + BASE * b + BASE * BASE * c
  {
    hide Value, PowB;
    ValueTwo(n, a, b);
    ValueUpdate(Zeros(n)[0 := a][1 := b], 2, c);
    PowBStep(0);
    PowBStep(1);
  }

  method LoadTop2(T1: Mpi, Y: Mpi, t: nat)
    requires T1 != Y && t < |Y.p| && 2 <= |T1.p|
    modifies T1
    ensures T1.Val() == Top2(Y.p, t) && |T1.p| == |old(T1.p)|
  {
    hide Value, PowB;
    Lset(T1, 0);
    ValueTwo(|T1.p|, if t < 1 then 0 else Y.p[t - 1], Y.p[t]);
    T1.p := T1.p[0 := if t < 1 then 0 else Y.p[t - 1]];
    T1.p := T1.p[1 := Y.p[t]];
  }

  method LoadTop3(T2: Mpi, X: Mpi, i: nat)
    requires T2 != X && i < |X.p| && 3 <= |T2.p|
    modifies T2
    ensures T2.Val() == Top3(X.p, i) && |T2.p| == |old(T2.p)|
  {
    hide Value, PowB;
    Lset(T2, 0);
    ValueThree(|T2.p|, if i < 2 then 0 else X.p[i - 2], if i < 1 then 0 else X.p[i - 1], X.p[i]);
    T2.p := T2.p[0 := if i < 2 then 0 else X.p[i - 2]];
    T2.p := T2.p[1 := if i < 1 then 0 else X.p[i - 1]];
    T2.p := T2.p[2 := X.p[i]];
  }

  /** The test of one candidate digit: is its product with the two top limbs of Y above the
      three top limbs of X? */
  method TestDigit(X: Mpi, Y: Mpi, T1: Mpi, T2: Mpi, i: nat, t: nat, q: Limb) returns (above: bool)
    requires X != T1 && X != T2 && Y != T1 && Y != T2 && T1 != T2
    requires i < |X.p| && t < |Y.p| && 2 <= |T1.p| && 3 <= |T2.p|
    modifies T1, T2
    ensures above == (Top2(Y.p, t) * q > Top3(X.p, i))
    ensures |T1.p| >= |old(T1.p)| && |T2.p| >= |old(T2.p)|
  {
    hide Value, PowB, Top2, Top3;
    LoadTop2(T1, Y, t);
    MulInt(T1, T1, q);
    LoadTop3(T2, X, i);
    var cmp := CmpMpi(T1, T2);
    above := cmp > 0;
  }

  /** What the digit loop knows about X, Y and the position i of the limb being eliminated. */
  ghost predicate DigitPosition(x: seq<Limb>, y: seq<Limb>, i: nat, t: nat)
  {
    && t < i < |x| && t < |y|
    && 1 <= y[t] && Value(y) < PowB(t + 1)
    && Value(x) < Value(y) * PowB(i - t)
  }

  /** The first candidate digit of position i: the limb quotient, capped at BASE - 1. */
  method FirstDigit(X: Mpi, Y: Mpi, i: nat, t: nat) returns (q: Limb)
    requires DigitPosition(X.p, Y.p, i, t)
    ensures NotBelow(q, X.Abs(), Y.Abs() * PowB(i - t - 1))
  {
    hide Value, PowB, NotBelow;
    if X.p[i] >= Y.p[t] {
      q := BASE - 1;
      CapNotBelow(X.p, Y.p, i, t);
    } else {
      var r;
      q, r := IntDivIntWide(X.p[i], X.p[i - 1], Y.p[t]);
      ghost var x2 := X.p[i] * BASE + X.p[i - 1];
      DivModIdentity(x2, Y.p[t]);
      MulDistrib(Y.p[t], q, 1);
      QuotientNotBelow(X.p, Y.p, i, t, q);
    }
  }

  lemma CapNotBelow(x: seq<Limb>, y: seq<Limb>, i: nat, t: nat)
    requires DigitPosition(x, y, i, t)
    ensures NotBelow(BASE - 1, Value(x), Value(y) * PowB(i - t - 1))
  {
    hide Value, PowB;
    PowBStep(i - t - 1);
  }

  /** Below the invariant, X has no limb above i. */
  lemma PositionBounds(x: seq<Limb>, y: seq<Limb>, i: nat, t: nat)
    requires DigitPosition(x, y, i, t)
    ensures Value(x) < PowB(i + 1) && PowB(t) <= Value(y)
    ensures PowB(i - 1) == PowB(t) * PowB(i - t - 1)
    ensures y[t] * PowB(t) <= Value(y)
  {
    hide Value, PowB;
    ValueAtLeast(y, t);
    PowBAdd(t + 1, i - t);
    PowBAdd(t, i - t - 1);
    MulLt(PowB(i - t), Value(y), PowB(t + 1));
    SmallValueHighZero(y, t + 1);
    ValuePrefixStep(y, t);
  }

  lemma QuotientNotBelow(x: seq<Limb>, y: seq<Limb>, i: nat, t: nat, q: Limb)
    requires DigitPosition(x, y, i, t)
    requires x[i] * BASE + x[i - 1] < (q + 1) * y[t]
    ensures NotBelow(q, Value(x), Value(y) * PowB(i - t - 1))
  {
    hide Value, PowB, NotBelow;
    PositionBounds(x, y, i, t);
    SmallValueHighZero(x, i + 1);
    ValuePrefixStep(x, i);
    ValuePrefixStep(x, i - 1);
    ValueBound(x[..i - 1]);
    PowBStep(i - 1);
    LeadingTwo(Value(x[..i - 1]), x[i - 1], x[i], PowB(i - 1));
    FirstEstimateHigh(q, Value(x), Value(y), x[i] * BASE + x[i - 1], y[t], PowB(t), PowB(i - t - 1));
  }

  lemma LeadingTwo(lo: nat, a: nat, b: nat, w: nat)
    requires lo < w
    ensures lo + a * w + b * (BASE * w) < (b * BASE + a + 1) * w
  {}

  /** The candidate that passes the test, counting down from the first one. */
  method FindDigit(X: Mpi, Y: Mpi, T1: Mpi, T2: Mpi, Z: Mpi, i: nat, t: nat)
    requires X != T1 && X != T2 && Y != T1 && Y != T2 && T1 != T2
    requires Z != X && Z != Y && Z != T1 && Z != T2
    requires DigitPosition(X.p, Y.p, i, t) && i - t - 1 < |Z.p|
    requires 2 <= |T1.p| && 3 <= |T2.p|
    modifies T1, T2, Z
    ensures |T1.p| >= |old(T1.p)| && |T2.p| >= |old(T2.p)|
    ensures Z.s == old(Z.s) && |Z.p| == |old(Z.p)| && Z.p == old(Z.p)[i - t - 1 := Z.p[i - t - 1]]
    ensures NotBelow(Z.p[i - t - 1], X.Abs(), Y.Abs() * PowB(i - t - 1))
    ensures Z.p[i - t - 1] * (Y.Abs() * PowB(i - t - 1)) - X.Abs() < Y.Abs() * PowB(i - t - 1)
  {
    assert t < i < |X.p| && t < |Y.p|;
    hide Value, PowB, NotBelow, DigitPosition, Top2, Top3;
    var m := i - t - 1;
    var first := FirstDigit(X, Y, i, t);
    Z.p := Z.p[m := first];
    ghost var z := Z.p;
    Z.p := Z.p[m := WrapAdd(Z.p[m], 1)];
    while true
      invariant |T1.p| >= |old(T1.p)| && |T2.p| >= |old(T2.p)|
      invariant Z.s == old(Z.s) && |Z.p| == |z| && Z.p == z[m := Z.p[m]]
      invariant NotBelow(WrapSub(Z.p[m], 1), X.Abs(), Y.Abs() * PowB(m))
      decreases WrapSub(Z.p[m], 1)
    {
      Z.p := Z.p[m := WrapSub(Z.p[m], 1)];
      var above := TestDigit(X, Y, T1, T2, i, t, Z.p[m]);
      if !above { break; }
      DigitStep(X.p, Y.p, i, t, Z.p[m]);
    }
    DigitFound(X.p, Y.p, i, t, Z.p[m]);
  }

  lemma DigitStep(x: seq<Limb>, y: seq<Limb>, i: nat, t: nat, q: Limb)
    requires DigitPosition(x, y, i, t) && Top2(y, t) * q > Top3(x, i)
    ensures 1 <= q && NotBelow(q - 1, Value(x), Value(y) * PowB(i - t - 1))
  {
    hide Value, PowB, Top2, Top3;
    PositionBounds(x, y, i, t);
    var yl := Top2Is(y, t);
    var xl := Top3Is(x, i);
    DigitTooLarge(q, Value(x), Value(y), Top2(y, t), Top3(x, i), yl, xl, PowB(t), PowB(i - t - 1));
  }

  lemma DigitFound(x: seq<Limb>, y: seq<Limb>, i: nat, t: nat, q: Limb)
    requires DigitPosition(x, y, i, t) && Top2(y, t) * q <= Top3(x, i)
    ensures q * (Value(y) * PowB(i - t - 1)) - Value(x) < Value(y) * PowB(i - t - 1)
  {
    hide Value, PowB, Top2, Top3;
    PositionBounds(x, y, i, t);
    var yl := Top2Is(y, t);
    var xl := Top3Is(x, i);
    DigitAlmostRight(q, Value(x), Value(y), Top2(y, t), Top3(x, i), yl, xl, PowB(t), PowB(i - t - 1));
  }

  /** One pass of the main loop: find the digit of position i, subtract its multiple of Y from X,
      and add one Y back if that was one too many. */
  method EliminateLimb(X: Mpi, Y: Mpi, T1: Mpi, T2: Mpi, Z: Mpi, i: nat, t: nat)
    requires X != T1 && X != T2 && Y != T1 && Y != T2 && T1 != T2 && X != Y
    requires Z != X && Z != Y && Z != T1 && Z != T2
    requires DigitPosition(X.p, Y.p, i, t) && i - t - 1 < |Z.p|
    requires X.Val() == X.Abs() && Y.s == 1 && 2 <= |T1.p| && 3 <= |T2.p|
    modifies X, T1, T2, Z
    ensures |X.p| >= |old(X.p)| && |T1.p| >= 2 && |T2.p| >= 3 && |Z.p| == |old(Z.p)| && Z.s == old(Z.s)
    ensures Z.p == old(Z.p)[i - t - 1 := Z.p[i - t - 1]]
    ensures X.Val() == X.Abs() == old(X.Abs()) - Z.p[i - t - 1] * (Y.Abs() * PowB(i - t - 1))
    ensures X.Abs() < Y.Abs() * PowB(i - t - 1)
  {
    assert t < i < |X.p| && t < |Y.p|;
    hide *;
    var m := i - t - 1;
    ghost var x, d := X.Abs(), Y.Abs() * PowB(m);
    FindDigit(X, Y, T1, T2, Z, i, t);
    SubtractMultiple(X, Y, T1, Z.p[m], m);
    var cmp := CmpInt(X, 0);
    if cmp < 0 {
      AddBack(Z.p[m], d, x);
      AddMultiple(X, Y, T1, m);
      Z.p := Z.p[m := WrapSub(Z.p[m], 1)];
    } else {
      NoAddBack(Z.p[m], d, x);
    }
    NonNegative(X);
  }

  lemma NonNegative(X: Mpi)
    ensures X.Val() >= 0 || X.s == 1 ==> X.Abs() == X.Val()
  {}

  /** Subtract q times the divisor, moved up by m limbs. */
  method SubtractMultiple(X: Mpi, Y: Mpi, T1: Mpi, q: Limb, m: nat)
    requires X != T1 && Y != T1 && X != Y && Y.s == 1 && X.Val() == X.Abs()
    requires X.p != []
    modifies X, T1
    ensures |X.p| >= |old(X.p)| && |T1.p| >= |old(T1.p)|
    ensures X.Val() == old(X.Abs()) - q * (Y.Abs() * PowB(m))
  {
    hide Value, PowB;
    MulInt(T1, Y, q);
    PowBIsPow2(m);
    ShiftL(T1, BIL * m);
    MulSwap(Y.Abs(), q, PowB(m));
    SubMpi(X, X, T1);
  }

  /** Add the divisor, moved up by m limbs, back. */
  method AddMultiple(X: Mpi, Y: Mpi, T1: Mpi, m: nat)
    requires X != T1 && Y != T1 && X != Y && Y.s == 1
    requires X.p != [] && Y.p != []
    modifies X, T1
    ensures |X.p| >= |old(X.p)| && |T1.p| >= |old(T1.p)|
    ensures X.Val() == old(X.Val()) + Y.Abs() * PowB(m)
  {
    hide Value, PowB;
    Copy(T1, Y);
    PowBIsPow2(m);
    ShiftL(T1, BIL * m);
    AddMpi(X, X, T1);
  }

  lemma AddBack(q: nat, d: nat, x: nat)
    requires x < q * d && q * d - x < d
    ensures 1 <= q && x - q * d + d == x - (q - 1) * d
    ensures 0 <= x - (q - 1) * d < d
  {
    MulDistrib(d, q, 1);
  }

  lemma NoAddBack(q: nat, d: nat, x: nat)
    requires NotBelow(q, x, d) && q * d <= x
    ensures x - q * d < d
  {
    MulDistrib(d, q, 1);
  }

  /** The quotient limb above the main loop: subtract the aligned divisor while it fits. */
  method TopQuotient(X: Mpi, Y: Mpi, Z: Mpi, m: nat)
    requires X != Y && Z != X && Z != Y && m < |Z.p| && Z.p[m] == 0
    requires X.Val() == X.Abs() && Y.s == 1 && X.p != [] && Y.p != []
    requires X.Abs() < BASE * Y.Abs()
    modifies X, Z
    ensures |X.p| >= |old(X.p)| && |Z.p| == |old(Z.p)| && Z.s == old(Z.s)
    ensures Z.p == old(Z.p)[m := Z.p[m]]
    ensures X.Val() == X.Abs() == old(X.Abs()) - Z.p[m] * Y.Abs()
    ensures X.Abs() < Y.Abs()
  {
    hide *;
    ghost var x, y, z := X.Abs(), Y.Abs(), Z.p;
    NonNegative(Y);
    while true
      invariant |X.p| >= |old(X.p)| && |Z.p| == |z| && Z.s == old(Z.s) && Z.p == z[m := Z.p[m]]
      invariant X.Val() == X.Abs() == x - Z.p[m] * y
      decreases X.Abs()
    {
      var cmp := CmpMpi(X, Y);
      if cmp < 0 { break; }
      TopFits(Z.p[m], x, y);
      Z.p := Z.p[m := WrapAdd(Z.p[m], 1)];
      SubMpi(X, X, Y);
      NonNegative(X);
    }
  }

  lemma TopFits(k: Limb, x: nat, y: nat)
    requires x < BASE * y && y <= x - k * y
    ensures k + 1 < BASE && x - (k + 1) * y == x - k * y - y && 0 < y
  {
    MulDistrib(y, k, 1);
    MulLtCancel(y, k + 1, BASE);
  }

  /** Once shifted up to the dividend's top limb, the divisor fits less than BASE times. */
  lemma AlignDivisor(x: nat, y: nat, n: nat, t: nat)
    requires t <= n && x < PowB(n + 1) && PowB(t) <= y
    ensures Pow2(BIL * (n - t)) == PowB(n - t)
    ensures x < BASE * (y * PowB(n - t))
  {
    hide Pow2, PowB;
    PowBIsPow2(n - t);
    PowBAdd(t, n - t);
    PowBStep(n);
    MulLe(PowB(n - t), PowB(t), y);
  }

  lemma TopLimb(p: seq<Limb>, t: nat)
    requires t < |p| && PowB(t) <= Value(p) < PowB(t + 1)
    ensures 1 <= p[t]
  {
    hide Value, PowB;
    SmallValueHighZero(p, t + 1);
    ValuePrefixStep(p, t);
    ValueBound(p[..t]);
  }

  /** Division of magnitudes: the dividend is left as the remainder, the quotient is in Z. */
  method DivMagnitudes(X: Mpi, Y: Mpi, Z: Mpi, T1: Mpi, T2: Mpi)
    requires X != T1 && X != T2 && Y != T1 && Y != T2 && T1 != T2 && X != Y
    requires Z != X && Z != Y && Z != T1 && Z != T2
    requires X.s == 1 && Y.s == 1 && Z.p == Zeros(|Z.p|) && 2 <= |T1.p| && 3 <= |T2.p|
    requires 1 <= |Y.p| <= |X.p| && |X.p| - |Y.p| < |Z.p|
    requires PowB(|Y.p| - 1) <= Y.Abs()
    modifies X, Y, Z, T1, T2
    ensures Z.s == old(Z.s) && |Z.p| == |old(Z.p)|
    ensures X.Val() == X.Abs() == old(X.Abs()) % old(Y.Abs()) && |X.p| >= |old(X.p)|
    ensures Z.Abs() == old(X.Abs()) / old(Y.Abs())
  {
    hide Value, PowB, Pow2;
    ghost var x, y := X.Abs(), Y.Abs();
    var n := |X.p| - 1;
    var t := |Y.p| - 1;
    ValueBound(X.p);
    ValueBound(Y.p);
    AlignDivisor(x, y, n, t);
    ShiftL(Y, BIL * (n - t));
    TopQuotient(X, Y, Z, n - t);
    ShiftR(Y, BIL * (n - t));
    ModOfMultiple(y, Pow2(BIL * (n - t)));
    TopLimb(Y.p, t);
    TopQuotientValue(Z.p, n - t, x, y, X.Abs());
    EliminateAll(X, Y, Z, T1, T2, n, t, x);
    DivModUnique(x, y, Z.Abs(), X.Abs());
  }

  lemma TopQuotientValue(z: seq<Limb>, m: nat, x: nat, y: nat, r: nat)
    requires m < |z| && z == Zeros(|z|)[m := z[m]] && r == x - z[m] * (y * PowB(m))
    ensures Quotient(z, x, y, r)
  {
    hide Value, PowB;
    ValueZeros(Zeros(|z|));
    ValueUpdate(Zeros(|z|), m, z[m]);
    MulSwap(z[m], y, PowB(m));
  }

  /** z is the quotient found so far and r what is left of x. */
  ghost predicate Quotient(z: seq<Limb>, x: nat, y: nat, r: nat)
  {
    x == Value(z) * y + r
  }

  lemma QuotientStep(z: seq<Limb>, x: nat, y: nat, r: nat, m: nat, q: Limb, r': nat)
    requires m < |z| && z[m] == 0 && Quotient(z, x, y, r) && r' == r - q * (y * PowB(m))
    ensures Quotient(z[m := q], x, y, r')
  {
    hide Value, PowB;
    ValueUpdate(z, m, q);
    MulDistrib(y, Value(z), q * PowB(m));
    MulSwap(q, y, PowB(m));
  }

  /** The main loop, from the top limb of X down to limb t + 1. */
  method EliminateAll(X: Mpi, Y: Mpi, Z: Mpi, T1: Mpi, T2: Mpi, n: nat, t: nat, ghost x: nat)
    requires X != T1 && X != T2 && Y != T1 && Y != T2 && T1 != T2 && X != Y
    requires Z != X && Z != Y && Z != T1 && Z != T2
    requires X.Val() == X.Abs() && Y.s == 1 && 2 <= |T1.p| && 3 <= |T2.p|
    requires t <= n < |X.p| && t < |Y.p| && n - t < |Z.p|
    requires 1 <= Y.p[t] && Y.Abs() < PowB(t + 1)
    requires X.Abs() < Y.Abs() * PowB(n - t)
    requires Quotient(Z.p, x, Y.Abs(), X.Abs()) && forall k :: 0 <= k < n - t ==> Z.p[k] == 0
    modifies X, Z, T1, T2
    ensures Z.s == old(Z.s) && |Z.p| == |old(Z.p)|
    ensures X.Val() == X.Abs() < Y.Abs() && x == Z.Abs() * Y.Abs() + X.Abs() && |X.p| >= |old(X.p)|
  {
    hide Value, PowB;
    ghost var y := Y.Abs();
    var i := n;
    while i > t
      invariant t <= i <= n < |old(X.p)| <= |X.p| && |Z.p| == |old(Z.p)| && Z.s == old(Z.s)
      invariant X.Val() == X.Abs() && 2 <= |T1.p| && 3 <= |T2.p|
      invariant X.Abs() < y * PowB(i - t)
      invariant Quotient(Z.p, x, y, X.Abs())
      invariant forall k :: 0 <= k < i - t ==> Z.p[k] == 0
    {
      ghost var z, r := Z.p, X.Abs();
      EliminateLimb(X, Y, T1, T2, Z, i, t);
      QuotientStep(z, x, y, r, i - t - 1, Z.p[i - t - 1], X.Abs());
      i := i - 1;
    }
  }

  /** The divisor is shifted left so that its top limb has 63 significant bits. */
  method NormaliseOperands(X: Mpi, Y: Mpi) returns (k: nat)
    requires X != Y && 0 < Y.Abs() <= X.Abs()
    requires 1 <= |X.p| && PowB(|X.p| - 1) <= X.Abs()
    requires 1 <= |Y.p| && PowB(|Y.p| - 1) <= Y.Abs()
    modifies X, Y
    ensures X.s == old(X.s) && Y.s == old(Y.s) && k < BIL
    ensures X.Abs() == old(X.Abs()) * Pow2(k) && Y.Abs() == old(Y.Abs()) * Pow2(k)
    ensures 1 <= |Y.p| <= |X.p| && PowB(|Y.p| - 1) <= Y.Abs()
    ensures |X.p| <= |old(X.p)| + 1
  {
    hide Value, PowB, Pow2;
    k := BitLen(Y);
    k := k % BIL;
    if k < BIL - 1 {
      k := BIL - 1 - k;
      ShiftGrows(X.Abs(), |X.p|, k);
      MulLe(X.Abs(), 1, Pow2(k));
      MulLe(Y.Abs(), 1, Pow2(k));
      MulLe(Pow2(k), Y.Abs(), X.Abs());
      ValueBound(X.p);
      ShiftL(X, k);
      ShiftL(Y, k);
    } else {
      k := 0;
    }
    ValueBound(X.p);
    if |X.p| > |old(X.p)| { PowBOrder(|X.p| - 1, |old(X.p)| + 1); }
    PowBOrder(|Y.p| - 1, |X.p|);
  }

  /** Less than a limb of shift needs at most one more limb. */
  lemma ShiftGrows(v: nat, n: nat, k: nat)
    requires k < BIL
    ensures v < PowB(n) ==> v * Pow2(k) < PowB(n + 1)
  {
    hide PowB, Pow2;
    BaseIsPow2();
    Pow2Monotone(k, BIL);
    PowBStep(n);
    if v < PowB(n) {
      MulLe(v, Pow2(k), BASE);
      assert v * BASE < PowB(n + 1);
    }
  }

  lemma SmallDividend(va: int, vb: int)
    requires AbsInt(va) < AbsInt(vb)
    ensures TDiv(va, vb) == 0 && TMod(va, vb) == va
  {
    DivModUnique(AbsInt(va), AbsInt(vb), 0, AbsInt(va));
  }

  lemma ScaledDivMod(a: nat, b: nat, p: nat)
    requires 0 < b && 0 < p
    ensures 0 < b * p && (a * p) / (b * p) == a / b
    ensures (a * p) % (b * p) == (a % b) * p && ((a % b) * p) / p == a % b
  {
    DivModIdentity(a, b);
    MulLt(p, 0, b);
    MulLt(p, a % b, b);
    MulAssoc(a / b, b, p);
    DivModUnique(a * p, b * p, a / b, (a % b) * p);
    ModOfMultiple(a % b, p);
  }

  /** Write the quotient of magnitudes out with the sign of A * B. */
  method StoreQuotient(Q: Mpi, Z: Mpi, A: Mpi, B: Mpi, ghost va: int, ghost vb: int)
    requires Q != Z && Z.s == 1 && Z.p != [] && vb != 0 && AbsInt(vb) <= AbsInt(va)
    requires Z.Abs() == AbsInt(va) / AbsInt(vb)
    requires A.s == (if va < 0 then -1 else 1) && B.s == (if vb < 0 then -1 else 1)
    modifies Q
    ensures Q.Val() == TDiv(if Q == A then AbsInt(va) else va, if Q == B then AbsInt(vb) else vb)
    ensures |Q.p| >= 1 && Q.s == (if va < 0 && Q != A then -1 else 1) * (if vb < 0 && Q != B then -1 else 1)
  {
    hide Value, AbsInt;
    Copy(Q, Z);
    Q.s := A.s * B.s;
  }

  /** Undo the normalisation and write the remainder out with the sign of A. */
  method StoreRemainder(R: Mpi, X: Mpi, A: Mpi, k: nat, ghost va: int, ghost vb: int)
    requires R != X && X != A && X.p != [] && vb != 0
    requires X.Abs() == (AbsInt(va) % AbsInt(vb)) * Pow2(k)
    requires A.s == (if va < 0 then -1 else 1)
    modifies R, X
    ensures R.Val() == TMod(va, vb) && |R.p| >= 1 && |R.p| >= |old(R.p)|
    ensures va >= 0 ==> R.s == 1
  {
    hide Value, AbsInt, Pow2;
    ModOfMultiple(AbsInt(va) % AbsInt(vb), Pow2(k));
    ShiftR(X, k);
    X.s := A.s;
    Copy(R, X);
    var cmp := CmpInt(R, 0);
    if cmp == 0 { R.s := 1; }
  }

  /** A = Q * B + R  (mbedtls_mpi_div_mpi).  Either output may be null.  Any of the numbers may be
      the same object; the signs of the inputs are read again after Q is written, and R after that. */
  method DivMpi(Q: Mpi?, R: Mpi?, A: Mpi, B: Mpi) returns (ret: Status)
    modifies Q, R
    ensures ret == if old(B.Val()) == 0 then Err(DivisionByZero) else Ok
    ensures ret.Err? && Q != null ==> Q.p == old(Q.p) && Q.s == old(Q.s)
    ensures ret.Err? && R != null ==> R.p == old(R.p) && R.s == old(R.s)
    ensures ret.Ok? && Q != null && Q != R ==> |Q.p| >= 1
    ensures ret.Ok? && Q != null && Q != R ==>
              Q.Val() == TDiv(if Q == A then AbsInt(old(A.Val())) else old(A.Val()),
                              if Q == B then AbsInt(old(B.Val())) else old(B.Val()))
    ensures ret.Ok? && R != null ==>
              R.Val() == TMod(SeenA(old(A.Val()), old(B.Val()), Q == A, Q == B), old(B.Val()))
    ensures ret.Ok? && R != null && Q == null && old(A.p) != [] ==> |R.p| >= |old(R.p)| && |R.p| >= 1
    ensures ret.Ok? && R != null && Q != A && old(A.s) == 1 ==> R.s == 1
    ensures ret.Ok? && Q != null && Q != R && old(A.s) == 1 && old(B.s) == 1 ==> Q.s == 1
  {
    hide Value, PowB, Pow2, TDiv, TMod;
    ghost var va, vb := A.Val(), B.Val();
    var cmp := CmpInt(B, 0);
    if cmp == 0 { return Err(DivisionByZero); }
    cmp := CmpAbs(A, B);
    if cmp < 0 {
      SmallDividend(va, vb);
      SmallDividend(AbsInt(va), vb);
      SmallDividend(va, AbsInt(vb));
      SmallDividend(0, vb);
      if Q != null { Lset(Q, 0); }
      if R != null { Copy(R, A); }
      return Ok;
    }
    var X, Z, k := Divide(A, B);
    if Q != null {
      StoreQuotient(Q, Z, A, B, va, vb);
    }
    if R != null {
      if A == B { DivisionByItself(va); }
      StoreRemainder(R, X, A, k, SeenA(va, vb, Q == A, Q == B), vb);
    }
    return Ok;
  }

  /** A new number with the magnitude of A and positive sign. */
  method CopyMagnitude(A: Mpi) returns (X: Mpi)
    requires 0 < A.Abs()
    ensures fresh(X) && X.s == 1 && X.Abs() == A.Abs()
    ensures 1 <= |X.p| <= |A.p| && PowB(|X.p| - 1) <= X.Abs()
  {
    hide Value, PowB;
    X := new Mpi();
    Copy(X, A);
    X.s := 1;
  }

  method NewZeros(n: nat) returns (Z: Mpi)
    ensures fresh(Z) && Z.s == 1 && Z.p == Zeros(n)
  {
    Z := new Mpi();
    Grow(Z, n);
    assert Z.p == Zeros(n);
  }

  /** The working copies: Z = |A| / |B| and X = (|A| mod |B|) << k. */
  method Divide(A: Mpi, B: Mpi) returns (X: Mpi, Z: Mpi, k: nat)
    requires 0 < B.Abs() <= A.Abs()
    ensures fresh(X) && fresh(Z) && X != Z && Z.s == 1 && Z.p != [] && X.p != []
    ensures Z.Abs() == A.Abs() / B.Abs() && X.Abs() == (A.Abs() % B.Abs()) * Pow2(k)
  {
    hide Value, PowB, Pow2;
    X := CopyMagnitude(A);
    var Y := CopyMagnitude(B);
    Z := NewZeros(|A.p| + 2);
    var T1 := NewZeros(2);
    var T2 := NewZeros(3);
    k := NormaliseOperands(X, Y);
    ScaledDivMod(A.Abs(), B.Abs(), Pow2(k));
    DivMagnitudes(X, Y, Z, T1, T2);
  }
}
