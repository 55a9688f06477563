/** Binary greatest common divisor (HAC 14.54) and modular inverse (HAC 14.61). */
module MpiGcd {
  import opened Numbers
  import opened Limbs
  import opened MpiCore
  import opened MpiAdd
  import opened MpiShift
  import opened MpiMod

  /** What the routine returns for magnitudes a and b: the greatest common divisor, except that a
      zero second argument always gives zero. */
  function BinaryGcd(a: nat, b: nat): (g: nat)
  {
    if b == 0 then 0 else Gcd(a, b)
  }

  /** It is the greatest common divisor exactly when B is not zero or both are. */
  lemma BinaryGcdCorrectIff(a: nat, b: nat)
    ensures BinaryGcd(a, b) == Gcd(a, b) <==> b != 0 || a == 0
  {}

  lemma StripAt(v: nat, k: nat, j: nat) returns (o: nat)
    requires IsLsb(v, k) && j <= k
    ensures v == (v / Pow2(j)) * Pow2(j) && v / Pow2(j) == o * Pow2(k - j) && o % 2 == 1
  {
    hide Pow2;
    o :| o % 2 == 1 && v == o * Pow2(k);
    Pow2Add(j, k - j);
    MulSwap(o, Pow2(k - j), Pow2(j));
    assert v == (o * Pow2(k - j)) * Pow2(j);
    ModOfMultiple(o * Pow2(k - j), Pow2(j));
  }

  /** x >>= lsb(x) leaves the odd part. */
  method MakeOdd(X: Mpi) returns (ghost k: nat)
    requires X.s == 1
    modifies X
    ensures X.s == 1 && |X.p| >= |old(X.p)| && old(X.Abs()) == X.Abs() * Pow2(k)
    ensures old(X.Abs()) == 0 ==> X.Abs() == 0
    ensures old(X.Abs()) > 0 ==> X.Abs() % 2 == 1
  {
    hide Value, Pow2, IsLsb;
    var c := Lsb(X);
    k := c;
    if X.Abs() > 0 {
      ghost var o := StripAt(X.Abs(), c, c);
    } else {
      DivModUnique(0, Pow2(c), 0, 0);
    }
    ShiftR(X, c);
  }

  lemma StripBoth(o: nat, k: nat, p: nat, l: nat)
    requires o % 2 == 1 && p % 2 == 1
    requires (o * Pow2(k)) % 2 == 1 || (p * Pow2(l)) % 2 == 1
    ensures Gcd(o * Pow2(k), p * Pow2(l)) == Gcd(o, p)
  {
    hide Pow2, Gcd;
    if (p * Pow2(l)) % 2 == 1 {
      OddShift(p, l);
      GcdStripPow2(o, p, k);
    } else {
      OddShift(o, k);
      GcdSymmetric(o, p * Pow2(l));
      GcdStripPow2(p, o, l);
      GcdSymmetric(p, o);
    }
  }

  lemma OddShift(p: nat, l: nat)
    requires (p * Pow2(l)) % 2 == 1
    ensures l == 0 && p * Pow2(l) == p
  {
    if l > 0 {
      Parity(p, Pow2(l));
      Pow2Step(l - 1);
    }
  }

  /** Subtracting the smaller odd number and halving keeps the gcd. */
  lemma SubtractHalve(o: nat, p: nat)
    requires o % 2 == 1 && p % 2 == 1 && p <= o
    ensures Gcd((o - p) / 2, p) == Gcd(o, p) && Gcd(p, (o - p) / 2) == Gcd(o, p)
  {
    hide Gcd;
    GcdSubtract(o, p);
    assert o - p == 2 * ((o - p) / 2);
    GcdHalve((o - p) / 2, p);
    GcdSymmetric(p, (o - p) / 2);
  }

  /** The state of the loop: the gcd is unchanged and at least one number is odd. */
  ghost predicate GcdState(a: nat, b: nat, g: nat)
  {
    0 < b && Gcd(a, b) == g && (a == 0 || a % 2 == 1 || b % 2 == 1)
  }

  /** One pass of the loop. */
  method GcdPass(TA: Mpi, TB: Mpi, ghost g: nat)
    requires TA != TB && TA.s == 1 && TB.s == 1 && TA.Abs() > 0
    requires TB.Abs() == 0 || GcdState(TA.Abs(), TB.Abs(), g)
    modifies TA, TB
    ensures TA.s == 1 && TB.s == 1
    ensures old(TB.Abs()) == 0 ==> TB.Abs() == 0
    ensures old(TB.Abs()) > 0 ==> TB.Abs() > 0 && GcdState(TA.Abs(), TB.Abs(), g)
    ensures TA.Abs() + TB.Abs() < old(TA.Abs()) + old(TB.Abs())
  {
    hide Value, Pow2, Gcd, GcdState;
    ghost var a, b := TA.Abs(), TB.Abs();
    ghost var k := MakeOdd(TA);
    ghost var l := MakeOdd(TB);
    ghost var o, p := TA.Abs(), TB.Abs();
    MulLe(o, 1, Pow2(k));
    MulLe(p, 1, Pow2(l));
    if b > 0 { PassKeepsGcd(o, k, p, l, g); }
    var cmp := CmpMpi(TA, TB);
    if cmp >= 0 {
      SubtractShift(TA, TB);
    } else {
      SubtractShift(TB, TA);
    }
  }

  /** Half of the difference of two magnitudes, stored in X. */
  method SubtractShift(X: Mpi, Y: Mpi)
    requires X != Y && X.s == 1 && Y.Abs() <= X.Abs()
    modifies X
    ensures X.s == 1 && X.Abs() == (old(X.Abs()) - Y.Abs()) / 2
  {
    hide Value, Pow2;
    var _ := SubAbs(X, X, Y);
    Pow2Step(0);
    ShiftR(X, 1);
  }

  lemma PassKeepsGcd(o: nat, k: nat, p: nat, l: nat, g: nat)
    requires 0 < o && GcdState(o * Pow2(k), p * Pow2(l), g) && o % 2 == 1 && p % 2 == 1
    ensures o >= p ==> GcdState((o - p) / 2, p, g)
    ensures o < p ==> GcdState(o, (p - o) / 2, g)
  {
    hide Pow2, Gcd;
    MulLe(o, 1, Pow2(k));
    StripBoth(o, k, p, l);
    if o >= p {
      SubtractHalve(o, p);
    } else {
      SubtractHalve(p, o);
      GcdSymmetric(o, p);
    }
  }

  /** Taking out the common power of two leaves a number odd and scales the gcd. */
  lemma CommonPower(a: nat, b: nat, ka: nat, kb: nat, lz: nat, a': nat, b': nat)
    requires (a == 0 ==> ka == 0) && (a > 0 ==> IsLsb(a, ka))
    requires (b == 0 ==> kb == 0) && (b > 0 ==> IsLsb(b, kb))
    requires lz == (if kb < ka then kb else ka) && a' == a / Pow2(lz) && b' == b / Pow2(lz)
    ensures b == 0 ==> b' == 0
    ensures b > 0 ==> GcdState(a', b', Gcd(a', b')) && Gcd(a', b') * Pow2(lz) == Gcd(a, b)
  {
    hide Pow2, Gcd, IsLsb;
    var d := Pow2(lz);
    DivModUnique(0, d, 0, 0);
    if b > 0 {
      if a > 0 { var o := StripAt(a, ka, lz); }
      var p := StripAt(b, kb, lz);
      GcdScale(a', b', d);
    }
  }

  /** G = gcd(A, B)  (mbedtls_mpi_gcd) */
  method GcdMpi(G: Mpi, A: Mpi, B: Mpi)
    modifies G
    ensures G.Val() == BinaryGcd(old(A.Abs()), old(B.Abs()))
  {
    hide Value, Pow2, Gcd, IsLsb, GcdState;
    ghost var a, b := A.Abs(), B.Abs();
    var TA := new Mpi();
    var TB := new Mpi();
    Copy(TA, A);
    Copy(TB, B);
    var lz := Lsb(TA);
    var lzt := Lsb(TB);
    ghost var ka, kb := lz, lzt;
    if lzt < lz { lz := lzt; }
    ShiftR(TA, lz);
    ShiftR(TB, lz);
    CommonPower(a, b, ka, kb, lz, TA.Abs(), TB.Abs());
    TA.s, TB.s := 1, 1;
    ghost var g := Gcd(TA.Abs(), TB.Abs());
    if b > 0 { GcdStatePositive(TA.Abs(), TB.Abs(), g); }
    GcdLoop(TA, TB, g);
    ShiftL(TB, lz);
    Copy(G, TB);
  }

  lemma GcdStatePositive(a: nat, b: nat, g: nat)
    requires GcdState(a, b, g)
    ensures 0 < b
  {}

  method GcdLoop(TA: Mpi, TB: Mpi, ghost g: nat)
    requires TA != TB && TA.s == 1 && TB.s == 1
    requires TB.Abs() == 0 || GcdState(TA.Abs(), TB.Abs(), g)
    modifies TA, TB
    ensures TB.s == 1 && TB.Abs() == if old(TB.Abs()) == 0 then 0 else g
  {
    hide Value, Gcd, GcdState;
    if TB.Abs() != 0 { GcdStatePositive(TA.Abs(), TB.Abs(), g); }
    ghost var zero := TB.Abs() == 0;
    var cmp := CmpInt(TA, 0);
    while cmp != 0
      invariant TA.s == 1 && TB.s == 1 && cmp == Sgn(TA.Val())
      invariant zero ==> TB.Abs() == 0
      invariant !zero ==> TB.Abs() > 0 && GcdState(TA.Abs(), TB.Abs(), g)
      decreases TA.Abs() + TB.Abs()
    {
      GcdPass(TA, TB, g);
      cmp := CmpInt(TA, 0);
    }
    if !zero { GcdFinished(TB.Abs(), g); }
  }

  lemma GcdFinished(b: nat, g: nat)
    requires GcdState(0, b, g)
    ensures b == g
  {
    DivModUnique(0, b, 0, 0);
    assert Gcd(0, b) == Gcd(b, 0);
  }
}
