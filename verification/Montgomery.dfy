/** Montgomery multiplication (HAC 14.36) and the word inverse it needs. */
module Montgomery {
  import opened Numbers
  import opened Limbs
  import opened MpiCore
  import opened MpiAdd
  import opened MpiMul

  // ----- the word inverse -----

  /** x inverts m modulo n. */
  ghost predicate Inverse(m: int, x: int, n: int)
  {
    Cong(m * x, 1, n)
  }

  /** mm is the negated inverse of the low limb of the modulus. */
  ghost predicate NegInverse(m0: int, mm: int)
  {
    Cong(m0 * mm, -1, BASE)
  }

  /** mm = -N^-1 mod 2^biL, by doubling the precision of a 4-bit inverse  (mpi_montg_init). */
  method MontgInit(N: Mpi) returns (mm: Limb)
    requires N.p != [] && N.p[0] % 2 == 1
    ensures NegInverse(N.p[0], mm)
  {
    hide Pow2, Inverse, WrapMul, WrapAdd, WrapSub;
    var m0 := N.p[0];
    var x := m0;
    x := WrapAdd(x, (WrapAdd(m0, 2) / 4 % 2) * 8);
    FourBitInverse(m0);
    var i := BIL;
    ghost var e: nat := 4;        // x is an inverse modulo 2^e
    assert Pow2(e) == 16 by { Pow2Step(0); Pow2Step(1); Pow2Step(2); Pow2Step(3); }
    while i >= 8
      invariant (i == 64 && e == 4) || (i == 32 && e == 8) || (i == 16 && e == 16) || (i == 8 && e == 32)
        || (i == 4 && e == 64)
      invariant Inverse(m0, x, Pow2(e))
    {
      NewtonStep(m0, x, e);
      x := WrapMul(x, WrapSub(2, WrapMul(m0, x)));
      i := i / 2;
      e := 2 * e;
    }
    BaseIsPow2();
    mm := WrapAdd(BASE - 1 - x, 1);
    NegateInverse(m0, x, mm);
  }

  lemma FourBitInverse(m0: Limb)
    requires m0 % 2 == 1
    ensures Inverse(m0, WrapAdd(m0, (WrapAdd(m0, 2) / 4 % 2) * 8), 16)
  {
    hide Cong, WrapAdd;
    var a, r := m0 / 16, m0 % 16;
    OddLow(m0, a, r);
    LowBits(m0, a, r);
    AddBelowWrap(m0, Correction(r), a, r);
    SmallInverses(r);
    CongIntro(m0, r, 16, a);
    ProductInverse(m0, r, WrapAdd(m0, Correction(r)), r + Correction(r));
  }

  function Correction(r: nat): (f: nat)
    ensures f <= 8
  {
    ((r + 2) / 4 % 2) * 8
  }

  lemma OddLow(m0: nat, a: nat, r: nat)
    requires a == m0 / 16 && r == m0 % 16 && m0 % 2 == 1
    ensures m0 == 16 * a + r && r < 16 && r % 2 == 1
  {
    DivModIdentity(m0, 16);
    DivModIdentity(m0, 2);
    DivModUnique(r, 2, m0 / 2 - 8 * a, 1);
  }

  lemma ProductInverse(m: nat, r: nat, x: nat, y: nat)
    requires Cong(m, r, 16) && Cong(x, y, 16) && Cong(r * y, 1, 16)
    ensures Cong(m * x, 1, 16)
  {
    hide Cong;
    CongMul(m, r, x, y, 16);
    CongTrans(m * x, r * y, 1, 16);
  }

  lemma AddBelowWrap(m0: Limb, f: Limb, a: nat, r: nat)
    requires m0 == 16 * a + r && f <= 8
    ensures Cong(WrapAdd(m0, f), r + f, 16)
  {
    hide Cong, WrapAdd;
    if m0 + f < BASE {
      CongIntro(WrapAdd(m0, f), r + f, 16, a);
    } else {
      CongIntro(WrapAdd(m0, f), r + f, 16, a - 0x1000_0000_0000_0000);
    }
  }

  lemma LowBits(m0: Limb, a: nat, r: nat)
    requires m0 % 2 == 1 && m0 == 16 * a + r && r < 16
    ensures WrapAdd(m0, 2) / 4 % 2 == (r + 2) / 4 % 2
  {
    hide WrapAdd;
    QuarterBit(m0 + 2, a, r + 2);
    if m0 == BASE - 1 {
      DivModUnique(m0, 16, a, r);
      DivModUnique(m0, 16, 0xFFF_FFFF_FFFF_FFFF, 15);
    }
  }

  lemma QuarterBit(x: nat, a: nat, r: nat)
    requires x == 16 * a + r
    ensures x / 4 % 2 == r / 4 % 2
  {
    var k := r / 4;
    DivModUnique(x, 4, 4 * a + k, r % 4);
    DivModUnique(4 * a + k, 2, 2 * a + k / 2, k % 2);
  }

  lemma SmallInverses(r: nat)
    requires r < 16 && r % 2 == 1
    ensures Cong(r * (r + Correction(r)), 1, 16)
  {
    var y := r * (r + Correction(r));
    assert r == 1 || r == 3 || r == 5 || r == 7 || r == 9 || r == 11 || r == 13 || r == 15;
    CongIntro(y, 1, 16, (y - 1) / 16);
  }

  /** Newton's iteration doubles the number of correct low bits. */
  lemma NewtonStep(m0: Limb, x: Limb, e: nat)
    requires 2 * e <= BIL && Inverse(m0, x, Pow2(e))
    ensures Inverse(m0, WrapMul(x, WrapSub(2, WrapMul(m0, x))), Pow2(2 * e))
  {
    hide Pow2, Cong, WrapMul, WrapSub;
    var q, c := Pow2(2 * e), Pow2(BIL - 2 * e);
    Pow2Add(e, e);
    BaseSplit(2 * e, BIL - 2 * e);
    var w: int := WrapMul(m0, x);
    var u: int := WrapSub(2, w);
    WrapCong(m0, x); WrapCong(2, w); WrapCong(x, u);
    CongWeaken(w, m0 * x, q, c);
    CongWeaken(u, 2 - w, q, c);
    CongWeaken(WrapMul(x, u), x * u, q, c);
    NewtonCong(m0, x, w, u, WrapMul(x, u), Pow2(e), q);
  }

  lemma NewtonCong(m: int, x: int, w: int, u: int, x': int, p: int, q: int)
    requires q == p * p && Cong(m * x, 1, p)
    requires Cong(w, m * x, q) && Cong(u, 2 - w, q) && Cong(x', x * u, q)
    ensures Cong(m * x', 1, q)
  {
    var y := m * x;
    var k := CongWitness(y, 1, p);
    var a := CongWitness(w, y, q);
    var b := CongWitness(u, 2 - w, q);
    var c := CongWitness(x', x * u, q);
    NewtonExpand(m, x, u, x', y, a, b, c, q);
    NewtonSquare(y, k, p);
    assert m * x' - 1 == (y * (b - a) + m * c - k * k) * q;
    CongIntro(m * x', 1, q, y * (b - a) + m * c - k * k);
  }

  lemma NewtonExpand(m: int, x: int, u: int, x': int, y: int, a: int, b: int, c: int, q: int)
    requires y == m * x && u == 2 - y - a * q + b * q && x' == x * u + c * q
    ensures m * x' == y * (2 - y) + (y * (b - a) + m * c) * q
  {
    calc {
      m * x';
      m * (x * u) + m * (c * q);
      y * u + (m * c) * q;
      y * (2 - y) + y * (b * q - a * q) + (m * c) * q;
      y * (2 - y) + (y * (b - a)) * q + (m * c) * q;
    }
  }

  lemma NewtonSquare(y: int, k: int, p: int)
    requires y - 1 == k * p
    ensures y * (2 - y) - 1 == -(k * k) * (p * p)
  {
    assert y * (2 - y) - 1 == -((y - 1) * (y - 1));
    assert (k * p) * (k * p) == (k * k) * (p * p);
  }

  lemma NegateInverse(m0: int, x: int, mm: int)
    requires Inverse(m0, x, BASE) && 0 <= x < BASE && mm == if x == 0 then 0 else BASE - x
    ensures NegInverse(m0, mm)
  {
    var k := CongWitness(m0 * x, 1, BASE);
    if x == 0 {
      CongIntro(m0 * mm, -1, BASE, -k);
    } else {
      MulDistrib(m0, BASE, x);
      CongIntro(m0 * mm, -1, BASE, m0 - k);
    }
  }

  // ----- Montgomery multiplication -----

  /** t, of weight i, is a multiple of the modulus away from the product of b with the i lowest
      limbs of a, and small. */
  ghost predicate MontState(t: nat, i: nat, a: nat, b: nat, nv: nat)
  {
    Cong(t * PowB(i), a * b, nv) && t < nv + b
  }

  /** The word u1 clears the lowest limb of t + u0 * b + u1 * n. */
  lemma ClearsLowLimb(t: nat, d0: Limb, b: nat, b0: Limb, nv: nat, n0: Limb, u0: Limb, mm: Limb, u1: Limb)
    requires Cong(t, d0, BASE) && Cong(b, b0, BASE) && Cong(nv, n0, BASE) && NegInverse(n0, mm)
    requires u1 == WrapMul(WrapAdd(d0, WrapMul(u0, b0)), mm)
    ensures Cong(t + u0 * b + u1 * nv, 0, BASE)
  {
    hide Cong, WrapMul, WrapAdd;
    var w: int := WrapMul(u0, b0);
    var e: int := WrapAdd(d0, w);
    var c: int := d0 + u0 * b0;
    WrapCong(u0, b0); WrapCong(d0, w); WrapCong(e, mm);
    CongRefl(d0, BASE); CongRefl(u0, BASE); CongRefl(mm, BASE); CongRefl(n0, BASE); CongRefl(c, BASE);
    CongAdd(d0, d0, w, u0 * b0, BASE);
    CongTrans(e, d0 + w, c, BASE);
    CongMul(e, c, mm, mm, BASE);
    CongTrans(u1, e * mm, c * mm, BASE);
    CongMul(u1, c * mm, nv, n0, BASE);
    CongMul(c, c, n0 * mm, -1, BASE);
    MulAssoc(c, mm, n0);
    CongTrans(u1 * nv, (c * mm) * n0, -c, BASE);
    CongMul(u0, u0, b, b0, BASE);
    CongAdd(t, d0, u0 * b, u0 * b0, BASE);
    CongAdd(t + u0 * b, c, u1 * nv, -c, BASE);
  }

  lemma LowLimbCong(p: seq<Limb>)
    requires p != []
    ensures Cong(Value(p), p[0], BASE)
  {
    CongIntro(Value(p), p[0], BASE, Value(p[1..]));
  }

  /** One round: t' = (t + u0 * b + u1 * n) / BASE keeps the state. */
  lemma MontRound(t: nat, t': nat, i: nat, a: nat, u0: Limb, b: nat, nv: nat, u1: Limb)
    requires MontState(t, i, a, b, nv) && t + u0 * b + u1 * nv == BASE * t'
    ensures MontState(t', i + 1, a + u0 * PowB(i), b, nv)
  {
    hide Cong, PowB;
    PowBStep(i);
    RoundCong(t, t', a, u0, b, nv, u1, PowB(i));
    MulLe(b, u0, BASE - 1);
    MulLe(nv, u1, BASE - 1);
  }

  lemma RoundCong(t: nat, t': nat, a: nat, u0: nat, b: nat, nv: nat, u1: nat, w: nat)
    requires Cong(t * w, a * b, nv) && t + u0 * b + u1 * nv == BASE * t'
    ensures Cong(t' * (BASE * w), (a + u0 * w) * b, nv)
  {
    var k := CongWitness(t * w, a * b, nv);
    calc {
      t' * (BASE * w) - (a + u0 * w) * b;
      (t + u0 * b + u1 * nv) * w - (a + u0 * w) * b;
      t * w - a * b + (u1 * w) * nv;
      (k + u1 * w) * nv;
    }
    CongIntro(t' * (BASE * w), (a + u0 * w) * b, nv, k + u1 * w);
  }

  /** Everything in a round fits in two limbs more than the modulus. */
  lemma RoundFits(t: nat, u0: Limb, b: nat, u1: Limb, nv: nat, n: nat, m: nat)
    requires t < nv + b && b <= nv < PowB(n) && n + 2 <= m
    ensures t + u0 * b + u1 * nv < PowB(m)
    ensures t + u0 * b < PowB(m)
    ensures t + u0 * b + u1 * nv < BASE * PowB(n + 1)
  {
    hide PowB;
    MulLe(b, u0, BASE - 1);
    MulLe(nv, u1, BASE - 1);
    MulLe(nv, 0, u1);
    PowBStep(n);
    PowBStep(n + 1);
    PowBMonotone(n + 2, m);
  }

  /** One pass of the loop on limb u0 of A, with T addressed from limb i. */
  method MontOneRound(u0: Limb, B: Mpi, N: Mpi, mm: Limb, T: Mpi, i: nat, ghost a: nat)
    requires B != T && N != T
    requires N.p != [] && i < |N.p| && B.p != [] && |T.p| >= 2 * (|N.p| + 1)
    requires NegInverse(N.p[0], mm) && B.Abs() <= N.Abs()
    requires MontState(Value(T.p[i..]), i, a, B.Abs(), N.Abs())
    modifies T
    ensures |T.p| == |old(T.p)|
    ensures MontState(Value(T.p[i + 1..]), i + 1, a + u0 * PowB(i), B.Abs(), N.Abs())
  {
    hide Value, PowB, Cong, NegInverse, WrapMul, WrapAdd;
    var n := |N.p|;
    var m := if |B.p| < n then |B.p| else n;
    ghost var t, b, nv := Value(T.p[i..]), B.Abs(), N.Abs();
    StateBound(t, i, a, b, nv);
    var u1 := WrapMul(WrapAdd(T.p[i], WrapMul(u0, B.p[0])), mm);
    LowLimbCong(T.p[i..]); LowLimbCong(B.p); LowLimbCong(N.p);
    ClearsLowLimb(t, T.p[i], b, B.p[0], nv, N.p[0], u0, mm, u1);
    ValueBound(N.p);
    RoundFits(t, u0, b, u1, nv, n, |T.p| - i);
    LowPart(B.p, m, n);
    assert N.p[..n] == N.p;
    MulHlp(m, B, T, i, u0);
    MulHlp(n, N, T, i, u1);
    ghost var t' := t + u0 * b + u1 * nv;
    ghost var p := T.p;
    DivideByBase(p, i, n, t');
    T.p := T.p[i := u0];
    T.p := T.p[i + 1 + n + 1 := 0];
    assert T.p[i + 1..] == p[i + 1..];
    MontRound(t, Value(T.p[i + 1..]), i, a, u0, b, nv, u1);
  }

  lemma StateBound(t: nat, i: nat, a: nat, b: nat, nv: nat)
    requires MontState(t, i, a, b, nv)
    ensures t < nv + b
  {}

  /** The multiplier enters with at most n limbs; the others are zero. */
  lemma LowPart(p: seq<Limb>, m: nat, n: nat)
    requires m == if |p| < n then |p| else n
    requires Value(p) < PowB(n)
    ensures Value(p[..m]) == Value(p)
  {
    hide Value, PowB;
    if |p| < n { assert p[..m] == p; } else { SmallValueHighZero(p, n); }
  }

  /** A multiple of BASE stored from limb i has limb i zero and ends n + 2 limbs up. */
  lemma DivideByBase(p: seq<Limb>, i: nat, n: nat, t: nat)
    requires i < n && |p| >= 2 * (n + 1) && Value(p[i..]) == t && Cong(t, 0, BASE)
    requires t < BASE * PowB(n + 1)
    ensures t == BASE * Value(p[i + 1..]) && p[i + 1 + n + 1] == 0
  {
    hide Value, PowB;
    ValueSuffixStep(p, i);
    var k := CongWitness(t, 0, BASE);
    assert p[i] == 0 by { assert p[i] == BASE * (k - Value(p[i + 1..])); }
    SmallValueHighZero(p[i + 1..], n + 1);
    assert p[i + 1..][n + 1] == p[i + 1 + n + 1];
  }

  /** All rounds: T, addressed from limb n, is the unreduced product. */
  method MontRounds(A: Mpi, B: Mpi, N: Mpi, mm: Limb, T: Mpi)
    requires A != T && B != T && N != T
    requires N.p != [] && |A.p| >= |N.p| && B.p != [] && |T.p| >= 2 * (|N.p| + 1)
    requires NegInverse(N.p[0], mm) && A.Abs() < N.Abs() && B.Abs() <= N.Abs()
    modifies T
    ensures |T.p| == |old(T.p)|
    ensures MontState(Value(T.p[|N.p|..]), |N.p|, A.Abs(), B.Abs(), N.Abs())
  {
    hide Value, PowB, MontState;
    T.p := Zeros(|T.p|);
    var n := |N.p|;
    var i := 0;
    ValueZeros(T.p[0..]);
    assert A.p[..0] == [];
    MontStart(B.Abs(), N.Abs());
    while i < n
      invariant 0 <= i <= n && |T.p| == |old(T.p)|
      invariant MontState(Value(T.p[i..]), i, Value(A.p[..i]), B.Abs(), N.Abs())
    {
      var u0 := A.p[i];
      ValuePrefixStep(A.p, i);
      MontOneRound(u0, B, N, mm, T, i, Value(A.p[..i]));
      i := i + 1;
    }
    ValueBound(N.p);
    SmallValueHighZero(A.p, n);
  }

  lemma MontStart(b: nat, nv: nat)
    requires 0 < nv
    ensures MontState(0, 0, 0, b, nv)
  {
    CongRefl(0, nv);
  }

  /** The upper half of T, where the rounds leave the product, becomes the low limbs of A. */
  method StoreRounds(A: Mpi, T: Mpi, n: nat)
    requires A != T && |A.p| >= n + 1 && |T.p| >= 2 * n + 1
    requires A.Abs() < PowB(n + 1) && Value(T.p[n..]) < PowB(n + 1)
    modifies A
    ensures A.s == old(A.s) && |A.p| == |old(A.p)| && A.Abs() == Value(T.p[n..])
  {
    hide Value, PowB;
    SmallValueHighZero(A.p, n + 1);
    SmallValueHighZero(T.p[n..], n + 1);
    assert T.p[n..][..n + 1] == T.p[n..2 * n + 1];
    A.p := T.p[n..2 * n + 1] + A.p[n + 1..];
    HighZero(A.p, n + 1);
    assert A.p[..n + 1] == T.p[n..2 * n + 1];
  }

  /** A = A * B * R^-1 mod N with R = PowB(n), reduced below N  (mpi_montmul).  A and B may be
      the same number.  T is scratch: less than n + 1 limbs are an error, and the routine
      addresses 2 * n + 2 of them.  When no final subtraction is needed a dummy one runs on T;
      its borrow ends inside T. */
  method MontMul(A: Mpi, B: Mpi, N: Mpi, mm: Limb, T: Mpi) returns (ret: Status)
    requires A != N && A != T && B != T && N != T
    requires N.p != [] && |A.p| >= |N.p| + 1 && B.p != []
    requires |T.p| < |N.p| + 1 || |T.p| >= 2 * (|N.p| + 1)
    requires NegInverse(N.p[0], mm) && A.Abs() < N.Abs() && B.Abs() <= N.Abs()
    modifies A, T
    ensures ret == if |old(T.p)| < |N.p| + 1 then Err(BadInputData) else Ok
    ensures ret.Err? ==> A.p == old(A.p) && T.p == old(T.p)
    ensures A.s == old(A.s) && |A.p| == |old(A.p)| && |T.p| == |old(T.p)|
    ensures ret.Ok? ==> A.Abs() < N.Abs()
    ensures ret.Ok? ==> Cong(A.Abs() * PowB(|N.p|), old(A.Abs()) * old(B.Abs()), N.Abs())
  {
    hide Value, PowB, Cong;
    if |T.p| < |N.p| + 1 { return Err(BadInputData); }
    var n := |N.p|;
    ghost var ab := A.Abs() * B.Abs();
    ValueBound(N.p);
    PowBStep(n);
    MontRounds(A, B, N, mm, T);
    StoreRounds(A, T, n);
    var cmp := CmpAbs(A, N);
    if cmp >= 0 {
      assert N.p[..n] == N.p;
      FinalSubtraction(A.Abs(), PowB(n), ab, N.Abs());
      SubHlp(n, N, A);
    } else {
      DummyFits(A.p, T.p, n);
      SubHlp(n, A, T);
    }
    return Ok;
  }

  lemma FinalSubtraction(t: nat, w: nat, ab: nat, nv: nat)
    requires Cong(t * w, ab, nv)
    ensures Cong((t - nv) * w, ab, nv)
  {
    var k := CongWitness(t * w, ab, nv);
    MulDistrib(w, t, nv);
    assert (k - w) * nv == k * nv - w * nv;
    CongIntro((t - nv) * w, ab, nv, k - w);
  }

  /** The copy of A in T from limb n up is at least A, so subtracting A's limbs cannot underflow. */
  lemma DummyFits(a: seq<Limb>, t: seq<Limb>, n: nat)
    requires n <= |a| && n <= |t| && Value(a) == Value(t[n..])
    ensures Value(a[..n]) <= Value(t)
  {
    hide Value, PowB;
    ValueSplit(a, n);
    ValueSplit(t, n);
    WeightedPart(Value(a[..n]), PowB(n), Value(a[n..]));
    WeightedPart(Value(t[..n]), PowB(n), Value(t[n..]));
  }

  lemma WeightedPart(lo: nat, w: nat, hi: nat)
    requires 1 <= w
    ensures lo <= lo + w * hi && hi <= lo + w * hi
  {
    MulLe(hi, 1, w);
  }

  /** A = A * R^-1 mod N  (mpi_montred) */
  method MontRed(A: Mpi, N: Mpi, mm: Limb, T: Mpi) returns (ret: Status)
    requires A != N && A != T && N != T
    requires N.p != [] && |A.p| >= |N.p| + 1
    requires |T.p| < |N.p| + 1 || |T.p| >= 2 * (|N.p| + 1)
    requires NegInverse(N.p[0], mm) && A.Abs() < N.Abs()
    modifies A, T
    ensures ret == if |old(T.p)| < |N.p| + 1 then Err(BadInputData) else Ok
    ensures ret.Err? ==> A.p == old(A.p) && T.p == old(T.p)
    ensures A.s == old(A.s) && |A.p| == |old(A.p)| && |T.p| == |old(T.p)|
    ensures ret.Ok? ==> A.Abs() < N.Abs()
    ensures ret.Ok? ==> Cong(A.Abs() * PowB(|N.p|), old(A.Abs()), N.Abs())
  {
    var U := new Mpi.OfInt(1);
    ret := MontMul(A, U, N, mm, T);
  }
}
