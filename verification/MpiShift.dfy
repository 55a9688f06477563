/** Left and right shifts of a multi-precision integer by any number of bits. */
module MpiShift {
  import opened Numbers
  import opened Limbs
  import opened MpiCore

  /** Shift left: first whole limbs from the top down, then bits from the bottom up. */
  method ShiftL(X: Mpi, count: nat)
    modifies X
    ensures X.s == old(X.s) && X.Abs() == old(X.Abs()) * Pow2(count)
    ensures |X.p| >= |old(X.p)|
    // it grows only when the result needs the room
    ensures |X.p| > |old(X.p)| && X.Abs() > 0 ==> X.Abs() >= PowB(|X.p| - 1)
  {
    hide Pow2, Value, PowB, BitOr;
    var v0 := count / BIL;
    var t1 := count % BIL;
    var bits := BitLen(X);
    var i := bits + count;
    if |X.p| * BIL < i {
      Grow(X, BitsToLimbs(i));
    }
    ghost var n := |X.p|;
    ghost var v := X.Abs();
    if v > 0 && n > |old(X.p)| { ShiftNeedsRoom(v, bits, count, n); }
    ShiftRoom(v, bits, count, n);
    ShiftTotal(v, bits, count, n);
    if v0 > 0 {
      LimbsUp(X, v0);
    } else {
      assert X.p[..0] == [] && PowB(0) * v == v;
    }
    if t1 > 0 {
      BitsUp(X, v0, t1);
    } else {
      assert Pow2(t1) == 1;
    }
  }

  /** The whole-limb part of the left shift. */
  method LimbsUp(X: Mpi, v0: nat)
    requires v0 <= |X.p| && X.Abs() < PowB(|X.p| - v0)
    modifies X
    ensures X.s == old(X.s) && |X.p| == |old(X.p)|
    ensures X.Abs() == PowB(v0) * old(X.Abs()) && Value(X.p[..v0]) == 0
  {
    hide Pow2, Value, PowB;
    ghost var q := X.p;
    ghost var n := |q|;
    var i := |X.p|;
    while i > v0
      invariant v0 <= i <= n && |X.p| == n && X.s == old(X.s)
      invariant forall k :: 0 <= k < i ==> X.p[k] == q[k]
      invariant forall k :: i <= k < n ==> X.p[k] == q[k - v0]
    {
      X.p := X.p[i - 1 := X.p[i - v0 - 1]];
      i := i - 1;
    }
    while i > 0
      invariant 0 <= i <= v0 && |X.p| == n && X.s == old(X.s)
      invariant forall k :: i <= k < v0 ==> X.p[k] == 0
      invariant forall k :: v0 <= k < n ==> X.p[k] == q[k - v0]
    {
      X.p := X.p[i - 1 := 0];
      i := i - 1;
    }
    LimbsUpValue(q, X.p, v0);
  }

  lemma LimbsUpValue(q: seq<Limb>, p: seq<Limb>, v0: nat)
    requires v0 <= |q| == |p| && Value(q) < PowB(|q| - v0)
    requires forall k :: 0 <= k < v0 ==> p[k] == 0
    requires forall k :: v0 <= k < |q| ==> p[k] == q[k - v0]
    ensures Value(p) == PowB(v0) * Value(q) && Value(p[..v0]) == 0
  {
    hide Pow2, PowB, Value;
    var n := |q|;
    assert p[v0..] == q[..n - v0];
    ValueZeros(p[..v0]);
    ValueSplit(p, v0);
    SmallValueHighZero(q, n - v0);
  }

  /** The remaining part of the left shift, by less than a limb; the limbs below v0 are zero. */
  method BitsUp(X: Mpi, v0: nat, t1: nat)
    requires v0 <= |X.p| && 0 < t1 < BIL && Value(X.p[..v0]) == 0
    requires X.Abs() * Pow2(t1) < PowB(|X.p|)
    modifies X
    ensures X.s == old(X.s) && |X.p| == |old(X.p)|
    ensures X.Abs() == old(X.Abs()) * Pow2(t1)
  {
    hide Pow2, Value, PowB, ShiftedUpTo;
    ghost var q := X.p;
    var i := v0;
    var r0: Limb := 0;
    ShiftedStart(q, v0, Pow2(t1));
    while i < |X.p|
      invariant v0 <= i <= |q| == |X.p| && X.s == old(X.s)
      invariant ShiftedUpTo(X.p, q, i, r0, Pow2(t1)) && r0 < Pow2(t1)
      invariant X.p[i..] == q[i..]
    {
      ghost var p0 := X.p;
      ghost var c := r0;
      var y, r1 := LimbUp(X.p[i], r0, t1);
      ShiftedStep(p0, q, i, c, y, r1, Pow2(t1));
      X.p, r0 := X.p[i := y], r1;
      i := i + 1;
    }
    ShiftedAll(X.p, q, r0, Pow2(t1));
  }

  /** The i lowest limbs of p, with carry c, are those of q times t. */
  ghost predicate ShiftedUpTo(p: seq<Limb>, q: seq<Limb>, i: nat, c: nat, t: nat)
    requires i <= |p| && i <= |q|
  {
    Value(p[..i]) + c * PowB(i) == t * Value(q[..i])
  }

  lemma ShiftedStart(q: seq<Limb>, i: nat, t: nat)
    requires i <= |q| && Value(q[..i]) == 0
    ensures ShiftedUpTo(q, q, i, 0, t)
  {}

  lemma ShiftedStep(p: seq<Limb>, q: seq<Limb>, i: nat, c: nat, y: Limb, r: nat, t: nat)
    requires i < |p| && i < |q| && p[i] == q[i]
    requires ShiftedUpTo(p, q, i, c, t) && q[i] * t + c == y + BASE * r
    ensures ShiftedUpTo(p[i := y], q, i + 1, r, t)
  {
    hide Value, PowB;
    var p' := p[i := y];
    assert p'[..i] == p[..i];
    ValuePrefixStep(p', i);
    ValuePrefixStep(q, i);
    PowBStep(i);
    ShiftStepL(PowB(i), q[i], c, y, r, t, Value(q[..i]), Value(p[..i]));
  }

  lemma ShiftedAll(p: seq<Limb>, q: seq<Limb>, c: nat, t: nat)
    requires |p| == |q| && ShiftedUpTo(p, q, |q|, c, t) && Value(q) * t < PowB(|q|)
    ensures Value(p) == Value(q) * t
  {
    hide Value, PowB;
    assert q[..|q|] == q && p[..|q|] == p;
    NoCarryOut(Value(p), c, PowB(|q|), t, Value(q));
  }

  /** The buffer, once grown, has room for bits + count bits. */
  lemma ShiftTotal(v: nat, bits: nat, count: nat, n: nat)
    requires IsBitLen(v, bits) && bits + count <= n * BIL
    ensures (PowB(count / BIL) * v) * Pow2(count % BIL) == v * Pow2(count)
    ensures v * Pow2(count) < PowB(n)
  {
    hide Pow2, PowB;
    PowBIsPow2(count / BIL);
    Pow2Add(count / BIL * BIL, count % BIL);
    MulSwap(PowB(count / BIL), v, Pow2(count % BIL));
    ShiftFits(v, bits, count, n);
  }

  lemma ShiftFits(v: nat, bits: nat, count: nat, n: nat)
    requires v < Pow2(bits) && bits + count <= n * BIL
    ensures v * Pow2(count) < PowB(n)
  {
    hide Pow2, PowB;
    PowBIsPow2(n);
    Pow2Add(bits, count);
    Pow2Monotone(bits + count, n * BIL);
    MulLt(Pow2(count), v, Pow2(bits));
  }

  lemma ShiftRoom(v: nat, bits: nat, count: nat, n: nat)
    requires IsBitLen(v, bits) && bits + count <= n * BIL
    ensures count / BIL <= n && v < PowB(n - count / BIL)
  {
    hide Pow2, Value, PowB;
    PowBIsPow2(n - count / BIL);
    Pow2Monotone(bits, (n - count / BIL) * BIL);
  }

  lemma ShiftNeedsRoom(v: nat, bits: nat, count: nat, n: nat)
    requires IsBitLen(v, bits) && 0 < v
    ensures (n > 0 && (n - 1) * BIL < bits + count) ==> v * Pow2(count) >= PowB(n - 1)
  {
    hide Pow2, Value, PowB;
    assert bits > 0;
    if n > 0 && (n - 1) * BIL < bits + count {
      PowBIsPow2(n - 1);
      Pow2Add(bits - 1, count);
      Pow2Monotone((n - 1) * BIL, bits - 1 + count);
      MulLe(Pow2(count), Pow2(bits - 1), v);
    }
  }

  /** One limb of the left shift: x * 2^t plus the carry-in splits into the new limb and the carry-out. */
  method LimbUp(x: Limb, r0: Limb, t1: nat) returns (y: Limb, r1: Limb)
    requires 0 < t1 < BIL && r0 < Pow2(t1)
    ensures x * Pow2(t1) + r0 == y + BASE * r1 && r1 < Pow2(t1)
  {
    hide Pow2, BitOr;
    ghost var lo, d, u := x % Pow2(BIL - t1), Pow2(t1), Pow2(BIL - t1);
    BaseSplit(t1, BIL - t1);
    ShiftOut(x, t1, BIL - t1);
    LeadingDigit(x, d, u);
    MulLe(d, 1, u);
    r1 := x / Pow2(BIL - t1);
    y := (x * Pow2(t1)) % BASE;
    BitOrDisjoint(lo, r0, t1);
    TwoDigits(lo, r0, d, u);
    y := BitOr(y, r0);
  }

  /** Shifting a word left by t keeps its low BIL - t bits and drops the others. */
  lemma ShiftOut(x: Limb, t: nat, u: nat)
    requires t + u == BIL
    ensures 0 <= x % Pow2(u) < Pow2(u)
    ensures (x * Pow2(t)) % BASE == (x % Pow2(u)) * Pow2(t)
    ensures x * Pow2(t) == (x % Pow2(u)) * Pow2(t) + BASE * (x / Pow2(u))
  {
    hide Pow2, PowB;
    BaseSplit(t, u);
    var hi, lo := x / Pow2(u), x % Pow2(u);
    DivModIdentity(x, Pow2(u));
    ShiftLimbSplit(x, hi, lo, Pow2(t), Pow2(u), BASE);
    DivModUnique(x * Pow2(t), BASE, hi, lo * Pow2(t));
  }

  lemma ShiftLimbSplit(x: nat, hi: nat, lo: nat, t: nat, u: nat, b: nat)
    requires x == hi * u + lo && lo < u && t * u == b && 1 <= t
    ensures x * t == hi * b + lo * t && lo * t < b
  {
    assert (hi * u) * t == hi * (t * u);
    MulLt(t, lo, u);
  }

  lemma ShiftStepL(w: nat, x: nat, c: nat, y: nat, r: nat, t: nat, pre: nat, done: nat)
    requires x * t + c == y + BASE * r
    requires done + c * w == t * pre
    ensures done + y * w + r * (BASE * w) == t * (pre + x * w)
  {
    calc {
      t * (pre + x * w);
      t * pre + (x * t) * w;
      done + (x * t + c) * w;
      done + (y + BASE * r) * w;
      done + y * w + r * (BASE * w);
    }
  }

  lemma NoCarryOut(v: nat, r: nat, w: nat, t: nat, q: nat)
    requires v + r * w == t * q && q * t < w
    ensures r == 0 && v == q * t
  {
    if r >= 1 { MulLe(w, 1, r); }
  }

  /** X >>= count on the magnitude. */
  method ShiftR(X: Mpi, count: nat)
    modifies X
    ensures X.Abs() == old(X.Abs()) / Pow2(count)
    ensures X.s == old(X.s) || (X.s == 1 && X.Abs() == 0)
    ensures |X.p| >= |old(X.p)|
  {
    hide Pow2, Value, PowB, BitOr;
    var v0 := count / BIL;
    var v1 := count % BIL;
    ShiftRSplit(X.p, count);
    if v0 > |X.p| || (v0 == |X.p| && v1 > 0) {
      Lset(X, 0);
      return;
    }
    if v0 > 0 {
      LimbsDown(X, v0);
    } else {
      assert PowB(v0) == 1;
    }
    if v1 > 0 {
      BitsDown(X, v1);
    } else {
      assert Pow2(v1) == 1;
    }
  }

  /** Shifting by count is shifting by whole limbs and then by the rest; too far gives zero. */
  lemma ShiftRSplit(p: seq<Limb>, count: nat)
    ensures Value(p) / Pow2(count) == Value(p) / PowB(count / BIL) / Pow2(count % BIL)
    ensures count / BIL >= |p| ==> Value(p) / Pow2(count) == 0
  {
    hide Pow2, Value, PowB;
    var v0, v1 := count / BIL, count % BIL;
    PowBIsPow2(v0);
    Pow2Add(v0 * BIL, v1);
    DivDiv(Value(p), PowB(v0), Pow2(v1));
    if v0 >= |p| {
      ValueBound(p);
      PowBMonotone(|p|, v0);
      DivModUnique(Value(p), PowB(v0), 0, Value(p));
      DivModUnique(0, Pow2(v1), 0, 0);
    }
  }

  /** The whole-limb part of the right shift. */
  method LimbsDown(X: Mpi, v0: nat)
    requires v0 <= |X.p|
    modifies X
    ensures X.s == old(X.s) && |X.p| == |old(X.p)|
    ensures X.Abs() == old(X.Abs()) / PowB(v0)
  {
    hide Pow2, Value, PowB, BitOr;
    ghost var q := X.p;
    ghost var n := |q|;
    var i := 0;
    while i < |X.p| - v0
      invariant 0 <= i <= n - v0 && |X.p| == n && X.s == old(X.s)
      invariant forall k :: 0 <= k < i ==> X.p[k] == q[k + v0]
      invariant forall k :: i <= k < n ==> X.p[k] == q[k]
    {
      X.p := X.p[i := X.p[i + v0]];
      i := i + 1;
    }
    while i < |X.p|
      invariant n - v0 <= i <= n && |X.p| == n && X.s == old(X.s)
      invariant forall k :: 0 <= k < n - v0 ==> X.p[k] == q[k + v0]
      invariant forall k :: n - v0 <= k < i ==> X.p[k] == 0
    {
      X.p := X.p[i := 0];
      i := i + 1;
    }
    LimbsDownValue(q, X.p, v0);
  }

  lemma LimbsDownValue(q: seq<Limb>, p: seq<Limb>, v0: nat)
    requires v0 <= |q| == |p|
    requires forall k :: 0 <= k < |q| - v0 ==> p[k] == q[k + v0]
    requires forall k :: |q| - v0 <= k < |q| ==> p[k] == 0
    ensures Value(p) == Value(q) / PowB(v0)
  {
    hide Pow2, PowB, Value;
    assert p[..|q| - v0] == q[v0..];
    HighZero(p, |q| - v0);
    ValueSplit(q, v0);
    ValueBound(q[..v0]);
    DivModUnique(Value(q), PowB(v0), Value(q[v0..]), Value(q[..v0]));
  }

  /** The part of the right shift by less than a limb. */
  method BitsDown(X: Mpi, v1: nat)
    requires 0 < v1 < BIL
    modifies X
    ensures X.s == old(X.s) && |X.p| == |old(X.p)|
    ensures X.Abs() == old(X.Abs()) / Pow2(v1)
  {
    hide Pow2, Value, PowB, BitOr;
    ghost var q := X.p;
    ghost var n := |q|;
    ghost var d, u := Pow2(v1), Pow2(BIL - v1);
    var r0: Limb := 0;
    var i := |X.p|;
    ghost var a: nat, b: nat := 0, 0;     // quotient and remainder of the limbs done
    BaseSplit(v1, BIL - v1);
    while i > 0
      invariant 0 <= i <= n && |X.p| == n && X.s == old(X.s)
      invariant Value(q[i..]) == a * d + b && b < d
      invariant Value(X.p[i..]) == a
      invariant r0 == b * u
      invariant forall k :: 0 <= k < i ==> X.p[k] == q[k]
    {
      ghost var p0 := X.p;
      var y, r1 := LimbDown(X.p[i - 1], r0, v1, b);
      X.p, r0 := X.p[i - 1 := y], r1;
      ValueSuffixStep(X.p, i - 1);
      assert X.p[i..] == p0[i..];
      ValueSuffixStep(q, i - 1);
      ShiftStepR(q[i - 1], a, b, X.p[i - 1], d, u);
      a, b := X.p[i - 1] + BASE * a, q[i - 1] % d;
      i := i - 1;
    }
    assert q[0..] == q && X.p[0..] == X.p;
    DivModUnique(Value(q), d, a, b);
  }

  /** One limb of the right shift: the b bits shifted in sit above the bits kept. */
  method LimbDown(x: Limb, r0: Limb, v1: nat, ghost b: nat) returns (y: Limb, r1: Limb)
    requires 0 < v1 < BIL && b < Pow2(v1) && r0 == b * Pow2(BIL - v1)
    ensures y == x / Pow2(v1) + b * Pow2(BIL - v1)
    ensures r1 == (x % Pow2(v1)) * Pow2(BIL - v1) && 0 <= x % Pow2(v1) < Pow2(v1)
  {
    hide Pow2, BitOr;
    ghost var u := Pow2(BIL - v1);
    BaseSplit(v1, BIL - v1);
    ShiftOut(x, BIL - v1, v1);
    LeadingDigit(x, u, Pow2(v1));
    r1 := (x * Pow2(BIL - v1)) % BASE;
    y := x / Pow2(v1);
    BitOrCommutes(y, r0);
    BitOrDisjoint(b, y, BIL - v1);
    TwoDigits(b, y, u, Pow2(v1));
    y := BitOr(y, r0);
  }

  lemma ShiftStepR(x: Limb, a: nat, b: nat, y: nat, v: nat, u: nat)
    requires v * u == BASE && 1 <= v && y == x / v + b * u
    ensures x + BASE * (a * v + b) == (y + BASE * a) * v + x % v
  {
    var hi, lo := x / v, x % v;
    calc {
      (y + BASE * a) * v + lo;
      (hi + b * u) * v + (BASE * a) * v + lo;
      hi * v + b * (v * u) + BASE * (a * v) + lo;
    }
  }
}
