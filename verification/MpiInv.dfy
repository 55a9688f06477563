/** Modular inverse by the binary extended Euclidean algorithm (HAC 14.61). */
module MpiInv {
  import opened Numbers
  import opened Limbs
  import opened MpiCore
  import opened MpiAdd
  import opened MpiShift
  import opened MpiMod
  import opened MpiGcd

  /** u is the combination of a and b with these coefficients. */
  ghost predicate Combination(u: int, u1: int, u2: int, a: int, b: int)
  {
    u == u1 * a + u2 * b
  }

  /** An even combination can be given even coefficients: either both are even already, or
      adding b to one and subtracting a from the other makes them so. */
  lemma EvenCoefficients(u: int, u1: int, u2: int, a: int, b: int)
    requires Combination(u, u1, u2, a, b) && u % 2 == 0 && (a % 2 == 1 || b % 2 == 1)
    ensures Combination(u, u1 + b, u2 - a, a, b)
    ensures u1 % 2 == 1 || u2 % 2 == 1 ==> (u1 + b) % 2 == 0 && (u2 - a) % 2 == 0
  {
    Parity(u1, a);
    Parity(u2, b);
    SwapTerms(u1, u2, a, b);
    if u1 % 2 == 1 || u2 % 2 == 1 {
      OddCases(u1, u2, a, b, u1 * a, u2 * b, u1 % 2, u2 % 2, a % 2, b % 2);
    }
  }

  lemma OddCases(u1: int, u2: int, a: int, b: int, x: int, y: int, i: nat, j: nat, c: nat, d: nat)
    requires i == u1 % 2 && j == u2 % 2 && c == a % 2 && d == b % 2
    requires x % 2 == i * c && y % 2 == j * d && (x + y) % 2 == 0
    requires (c == 1 || d == 1) && (i == 1 || j == 1)
    ensures (u1 + b) % 2 == 0 && (u2 - a) % 2 == 0
  {
    if c == 1 { assert i * c == i; } else { assert i * c == 0; }
    if d == 1 { assert j * d == j; } else { assert j * d == 0; }
  }

  lemma SwapTerms(u1: int, u2: int, a: int, b: int)
    ensures (u1 + b) * a + (u2 - a) * b == u1 * a + u2 * b
  {}

  lemma HalveCombination(u: int, u1: int, u2: int, a: int, b: int)
    requires Combination(2 * u, 2 * u1, 2 * u2, a, b)
    ensures Combination(u, u1, u2, a, b)
  {
    assert (2 * u1) * a + (2 * u2) * b == 2 * (u1 * a + u2 * b);
  }

  lemma SubtractCombination(u: int, u1: int, u2: int, v: int, v1: int, v2: int, a: int, b: int)
    requires Combination(u, u1, u2, a, b) && Combination(v, v1, v2, a, b)
    ensures Combination(u - v, u1 - v1, u2 - v2, a, b)
  {
    MulDistrib(a, u1, v1);
    MulDistrib(b, u2, v2);
  }

  lemma LimbParity(X: Mpi)
    requires X.p != []
    ensures X.p[0] % 2 == X.Val() % 2
  {
    ValueParity(X.p);
  }

  /** shift_r by one on an even number halves it exactly, whatever its sign. */
  method HalveExact(X: Mpi)
    requires X.Val() % 2 == 0
    modifies X
    ensures 2 * X.Val() == old(X.Val())
    ensures |X.p| >= |old(X.p)| && (old(X.s) == 1 ==> X.s == 1)
  {
    hide Value;
    Pow2Step(0);
    ShiftR(X, 1);
  }

  /** One of the two inner loops: divide TU by two while it is even, keeping the combination. */
  method HalveWhileEven(TU: Mpi, U1: Mpi, U2: Mpi, TA: Mpi, TB: Mpi, ghost v: nat)
    requires TU != U1 && TU != U2 && U1 != U2 && TU != TA && TU != TB && U1 != TA && U1 != TB && U2 != TA && U2 != TB
    requires TU.p != [] && U1.p != [] && U2.p != [] && TA.p != [] && TB.p != []
    requires TU.Val() > 0 && (TA.Val() % 2 == 1 || TB.Val() % 2 == 1)
    requires Combination(TU.Val(), U1.Val(), U2.Val(), TA.Val(), TB.Val())
    requires Gcd(TU.Val(), v) == 1
    modifies TU, U1, U2
    ensures TU.p != [] && U1.p != [] && U2.p != []
    ensures 0 < TU.Val() <= old(TU.Val()) && TU.Val() % 2 == 1
    ensures Combination(TU.Val(), U1.Val(), U2.Val(), TA.Val(), TB.Val())
    ensures Gcd(TU.Val(), v) == 1
  {
    hide Value, Gcd, Combination;
    ghost var a, b := TA.Val(), TB.Val();
    LimbParity(TU);
    while TU.p[0] % 2 == 0
      invariant TU.p != [] && U1.p != [] && U2.p != []
      invariant 0 < TU.Val() <= old(TU.Val()) && TU.p[0] % 2 == TU.Val() % 2
      invariant Combination(TU.Val(), U1.Val(), U2.Val(), a, b)
      invariant Gcd(TU.Val(), v) == 1
      decreases TU.Val()
    {
      ghost var u := TU.Val();
      HalveExact(TU);
      CoprimeHalf(TU.Val(), v);
      LimbParity(U1);
      LimbParity(U2);
      EvenCoefficients(u, U1.Val(), U2.Val(), a, b);
      if U1.p[0] % 2 != 0 || U2.p[0] % 2 != 0 {
        AddMpi(U1, U1, TB);
        SubMpi(U2, U2, TA);
      }
      HalveExact(U1);
      HalveExact(U2);
      HalveCombination(TU.Val(), U1.Val(), U2.Val(), a, b);
      LimbParity(TU);
    }
  }

  /** "TU -= TV; U1 -= V1; U2 -= V2" */
  method SubtractAll(TU: Mpi, U1: Mpi, U2: Mpi, TV: Mpi, V1: Mpi, V2: Mpi, ghost a: int, ghost b: int)
    requires TU != U1 && TU != U2 && U1 != U2
    requires V1 != TU && V2 != TU && V2 != U1
    requires TU.p != [] && U1.p != [] && U2.p != [] && TV.p != [] && V1.p != [] && V2.p != []
    requires Combination(TU.Val(), U1.Val(), U2.Val(), a, b)
    requires Combination(TV.Val(), V1.Val(), V2.Val(), a, b)
    modifies TU, U1, U2
    ensures TU.p != [] && U1.p != [] && U2.p != []
    ensures TU.Val() == old(TU.Val()) - old(TV.Val())
    ensures Combination(TU.Val(), U1.Val(), U2.Val(), a, b)
  {
    hide Value, Combination;
    SubtractCombination(TU.Val(), U1.Val(), U2.Val(), TV.Val(), V1.Val(), V2.Val(), a, b);
    SubMpi(TU, TU, TV);
    SubMpi(U1, U1, V1);
    SubMpi(U2, U2, V2);
  }

  /** The main loop.  When TU reaches zero, TV is the gcd, so V1 inverts TA modulo TB. */
  method EuclidLoop(TU: Mpi, U1: Mpi, U2: Mpi, TV: Mpi, V1: Mpi, V2: Mpi, TA: Mpi, TB: Mpi)
    requires TU != U1 && TU != U2 && U1 != U2 && TV != V1 && TV != V2 && V1 != V2
    requires {TU, U1, U2} !! {TV, V1, V2} && {TU, U1, U2, TV, V1, V2} !! {TA, TB}
    requires TU.p != [] && U1.p != [] && U2.p != [] && TV.p != [] && V1.p != [] && V2.p != []
    requires TA.p != [] && TB.p != [] && (TA.Val() % 2 == 1 || TB.Val() % 2 == 1)
    requires 0 < TU.Val() && 0 < TV.Val() && Gcd(TU.Val(), TV.Val()) == 1
    requires Combination(TU.Val(), U1.Val(), U2.Val(), TA.Val(), TB.Val())
    requires Combination(TV.Val(), V1.Val(), V2.Val(), TA.Val(), TB.Val())
    modifies TU, U1, U2, TV, V1, V2
    ensures Combination(1, V1.Val(), V2.Val(), TA.Val(), TB.Val()) && V1.p != []
  {
    hide Value, Gcd, Combination;
    ghost var a, b := TA.Val(), TB.Val();
    while true
      invariant TU.p != [] && U1.p != [] && U2.p != [] && TV.p != [] && V1.p != [] && V2.p != []
      invariant 0 < TU.Val() && 0 < TV.Val() && Gcd(TU.Val(), TV.Val()) == 1
      invariant Combination(TU.Val(), U1.Val(), U2.Val(), a, b)
      invariant Combination(TV.Val(), V1.Val(), V2.Val(), a, b)
      decreases TU.Val() + TV.Val()
    {
      HalveWhileEven(TU, U1, U2, TA, TB, TV.Val());
      GcdSymmetric(TU.Val(), TV.Val());
      HalveWhileEven(TV, V1, V2, TA, TB, TU.Val());
      GcdSymmetric(TU.Val(), TV.Val());
      var cmp := CmpMpi(TU, TV);
      if cmp >= 0 {
        GcdSubtract(TU.Val(), TV.Val());
        SubtractAll(TU, U1, U2, TV, V1, V2, a, b);
      } else {
        GcdSubtract(TV.Val(), TU.Val());
        SubtractAll(TV, V1, V2, TU, U1, U2, a, b);
        GcdSymmetric(TU.Val(), TV.Val());
      }
      cmp := CmpInt(TU, 0);
      if cmp == 0 { break; }
    }
    GcdOfZero(TV.Val());
  }

  lemma GcdOfZero(b: nat)
    ensures Gcd(0, b) == b
  {
    if b != 0 {
      DivModUnique(0, b, 0, 0);
      assert Gcd(0, b) == Gcd(b, 0);
    }
  }

  /** Reducing one argument modulo the other keeps coprimality. */
  lemma CoprimeMod(a: int, va: nat, n: nat)
    requires 1 < n && (va == a || va == -a) && Gcd(va, n) == 1
    ensures 0 < a % n && Gcd(a % n, n) == 1
  {
    hide Gcd;
    var r, q := a % n, a / n;
    DivModIdentity(a, n);
    GcdCharacterised(va, n);
    GcdCharacterised(r, n);
    var g := Gcd(r, n);
    DividesCombination(g, r, n, 1, q);
    assert 1 * r + q * n == a;
    DividesCombination(g, a, n, -1, 0);
    assert (-1) * a + 0 * n == -a;
    DividesIntro(1, g, g);
    DividesAntisymmetric(g, 1);
    if r == 0 { GcdOfZero(n); }
  }

  /** V1 * (A mod N) + V2 * N == 1 makes V1 mod N the inverse. */
  lemma InverseFromCombination(a: int, n: int, v1: int, v2: int, x: int)
    requires 1 < n && Combination(1, v1, v2, a % n, n) && x == v1 % n
    ensures (a * x) % n == 1
  {
    hide Cong;
    var t := a % n;
    CongMod(a, n); CongSym(t, a, n);
    CongMod(v1, n);
    CongMul(a, t, x, v1, n);
    CongIntro(t * v1, 1, n, -v2) by { assert t * v1 - 1 == -v2 * n by { assert v1 * t == t * v1; } }
    CongTrans(a * x, t * v1, 1, n);
    CongMod(a * x, n);
    CongTrans((a * x) % n, a * x, 1, n);
    CongUnique((a * x) % n, 1, n);
  }

  /** Only numbers coprime to N have an inverse modulo N. */
  lemma InverseNeedsCoprime(a: int, va: nat, n: nat, x: int)
    requires 1 < n && (va == a || va == -a) && (a * x) % n == 1
    ensures Gcd(va, n) == 1
  {
    hide Gcd;
    GcdCharacterised(va, n);
    var g := Gcd(va, n);
    var q := (a * x) / n;
    DivModIdentity(a * x, n);
    DividesCombination(g, va, n, if va == a then x else -x, -q);
    assert (if va == a then x else -x) * va == a * x;
    assert -q * n == -(q * n);
    DividesIntro(1, g, g);
    DividesAntisymmetric(g, 1);
  }

  /** The numbers the loop works on, and its result V1. */
  method Coefficient(TA: Mpi, N: Mpi) returns (V1: Mpi, ghost v2: int)
    requires 0 < TA.Val() && 1 < N.Val() && Gcd(TA.Val(), N.Val()) == 1
    ensures fresh(V1) && V1.p != []
    ensures Combination(1, V1.Val(), v2, TA.Val(), N.Val())
  {
    hide Value, Gcd, Combination;
    CoprimeNotBothEven(TA.Val(), N.Val());
    NonEmpty(TA);
    NonEmpty(N);
    var TU := CopyOf(TA);
    var TB := CopyOf(N);
    var TV := CopyOf(N);
    var U1 := Constant(1);
    var U2 := Constant(0);
    V1 := Constant(0);
    var V2 := Constant(1);
    UnitCombinations(TA.Val(), N.Val());
    EuclidLoop(TU, U1, U2, TV, V1, V2, TA, TB);
    v2 := V2.Val();
  }

  method CopyOf(Y: Mpi) returns (X: Mpi)
    requires Y.p != []
    ensures fresh(X) && X.Val() == Y.Val() && X.p != []
  {
    X := new Mpi();
    Copy(X, Y);
  }

  method Constant(z: Sint) returns (X: Mpi)
    ensures fresh(X) && X.Val() == z && X.p != []
  {
    X := new Mpi();
    Lset(X, z);
  }

  lemma UnitCombinations(a: int, b: int)
    ensures Combination(a, 1, 0, a, b) && Combination(b, 0, 1, a, b)
  {}

  /** X = A^-1 mod N  (mbedtls_mpi_inv_mod), for odd and even N alike. */
  method InvMod(X: Mpi, A: Mpi, N: Mpi) returns (ret: Status)
    modifies X
    ensures ret == if old(N.Val()) <= 1 then Err(BadInputData)
                   else if Gcd(old(A.Abs()), old(N.Abs())) != 1 then Err(NotAcceptable) else Ok
    ensures ret.Err? ==> X.p == old(X.p) && X.s == old(X.s)
    ensures ret.Ok? ==> 0 <= X.Val() < old(N.Val()) && (old(A.Val()) * X.Val()) % old(N.Val()) == 1
  {
    hide Value, Gcd, Combination;
    ghost var a, va, n := A.Val(), A.Abs(), N.Val();
    var cmp := CmpInt(N, 1);
    if cmp <= 0 { return Err(BadInputData); }
    var G := new Mpi();
    GcdMpi(G, A, N);
    cmp := CmpInt(G, 1);
    if cmp != 0 { return Err(NotAcceptable); }
    CoprimeMod(a, va, n);
    var TA := new Mpi();
    var _ := ModMpi(TA, A, N);
    ghost var v2;
    var V1;
    V1, v2 := Coefficient(TA, N);
    InverseFromCombination(a, n, V1.Val(), v2, V1.Val() % n);
    RaiseAboveZero(V1, N);
    LowerBelow(V1, N);
    Copy(X, V1);
    return Ok;
  }
}
