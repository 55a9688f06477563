/** Remainders: by a multi-precision modulus, and by a single word. */
module MpiMod {
  import opened Numbers
  import opened Limbs
  import opened MpiCore
  import opened MpiAdd
  import opened MpiDiv

  /** A = Q * b + R  (mbedtls_mpi_div_int) */
  method DivInt(Q: Mpi?, R: Mpi?, A: Mpi, b: Sint) returns (ret: Status)
    modifies Q, R
    ensures ret == if b == 0 then Err(DivisionByZero) else Ok
    ensures ret.Err? && Q != null ==> Q.p == old(Q.p) && Q.s == old(Q.s)
    ensures ret.Err? && R != null ==> R.p == old(R.p) && R.s == old(R.s)
    ensures ret.Ok? && Q != null && Q != R ==> |Q.p| >= 1
    ensures ret.Ok? && Q != null && Q != R ==>
              Q.Val() == TDiv(if Q == A then AbsInt(old(A.Val())) else old(A.Val()), b)
    ensures ret.Ok? && R != null ==> R.Val() == TMod(SeenA(old(A.Val()), b, Q == A, false), b)
    ensures ret.Ok? && Q != null && Q != R && old(A.s) == 1 && b > 0 ==> Q.s == 1
  {
    var B := new Mpi.OfInt(b);
    ret := DivMpi(Q, R, A, B);
  }

  /** Add the modulus until R is no longer negative. */
  method RaiseAboveZero(R: Mpi, B: Mpi)
    requires R != B && 0 < B.Val()
    modifies R
    ensures 0 <= R.Val() && R.Val() % B.Val() == old(R.Val()) % B.Val()
    ensures old(R.Val()) < B.Val() ==> R.Val() < B.Val()
    ensures old(R.p) != [] ==> |R.p| >= |old(R.p)|
    ensures old(R.Val()) >= 0 ==> R.s == old(R.s)
  {
    hide Value;
    ghost var b := B.Val();
    NonEmpty(B);
    var cmp := CmpInt(R, 0);
    while cmp < 0
      invariant R.Val() % b == old(R.Val()) % b && cmp == Sgn(R.Val())
      invariant old(R.Val()) < b ==> R.Val() < b
      invariant old(R.Val()) >= 0 ==> R.Val() >= 0 && R.s == old(R.s)
      invariant old(R.p) != [] ==> |R.p| >= |old(R.p)|
      decreases b - R.Val()
    {
      ModShift(R.Val(), b);
      AddMpi(R, R, B);
      cmp := CmpInt(R, 0);
    }
  }

  /** Subtract the modulus until R is below it. */
  method LowerBelow(R: Mpi, B: Mpi)
    requires R != B && 0 < B.Val() && 0 <= R.Val()
    modifies R
    ensures R.Val() == old(R.Val()) % B.Val()
    ensures old(R.p) != [] ==> |R.p| >= |old(R.p)|
    ensures old(R.Val()) < B.Val() ==> R.s == old(R.s)
  {
    hide Value;
    ghost var b := B.Val();
    NonEmpty(B);
    var cmp := CmpMpi(R, B);
    while cmp >= 0
      invariant 0 <= R.Val() && R.Val() % b == old(R.Val()) % b && cmp == Sgn(R.Val() - b)
      invariant old(R.p) != [] ==> |R.p| >= |old(R.p)|
      invariant old(R.Val()) < b ==> R.Val() < b && R.s == old(R.s)
      decreases R.Val()
    {
      ModShift(R.Val(), b);
      SubMpi(R, R, B);
      cmp := CmpMpi(R, B);
    }
    DivModUnique(R.Val(), b, 0, R.Val());
  }

  lemma NonEmpty(B: Mpi)
    ensures B.Val() != 0 ==> B.p != []
  {}

  /** R = A mod B, never negative  (mbedtls_mpi_mod_mpi) */
  method ModMpi(R: Mpi, A: Mpi, B: Mpi) returns (ret: Status)
    requires R != B
    modifies R
    ensures ret == if B.Val() < 0 then Err(NegativeValue)
                   else if B.Val() == 0 then Err(DivisionByZero) else Ok
    ensures ret.Err? ==> R.p == old(R.p) && R.s == old(R.s)
    ensures ret.Ok? ==> R.Val() == old(A.Val()) % B.Val()
    ensures ret.Ok? && old(A.p) != [] ==> |R.p| >= |old(R.p)| && |R.p| >= 1
    ensures ret.Ok? && old(A.s) == 1 ==> R.s == 1
  {
    hide TDiv, TMod, Value;
    var cmp := CmpInt(B, 0);
    if cmp < 0 { return Err(NegativeValue); }
    ret := DivMpi(null, R, A, B);
    if ret.Err? { return; }
    ModOfTruncated(old(A.Val()), B.Val());
    TModSign(old(A.Val()), B.Val());
    RaiseAboveZero(R, B);
    LowerBelow(R, B);
    DivModUnique(R.Val(), B.Val(), 0, R.Val());
  }

  lemma ModShift(x: int, b: int)
    requires 0 < b
    ensures (x + b) % b == x % b && (x - b) % b == x % b
  {
    DivModIdentity(x, b);
    MulDistrib(b, x / b, 1);
    DivModUnique(x + b, b, x / b + 1, x % b);
    DivModUnique(x - b, b, x / b - 1, x % b);
  }

  lemma TModSign(a: int, b: int)
    requires 0 < b
    ensures a >= 0 ==> TMod(a, b) >= 0
  {}

  lemma ModOfTruncated(a: int, b: int)
    requires 0 < b
    ensures -b < TMod(a, b) < b && TMod(a, b) % b == a % b
  {
    hide TDiv, TMod;
    var q, r := TDiv(a, b), TMod(a, b);
    TruncatedDivision(a, b);
    DivModIdentity(r, b);
    MulDistrib(b, q, r / b);
    DivModUnique(a, b, q + r / b, r % b);
  }

  // ----- remainder by a word -----

  /** One half-limb step: y becomes (y * 2^biH + h) mod b, computed in a word that wraps. */
  function HalfStep(y: nat, h: nat, b: nat): (r: nat)
    requires 0 < b
  {
    BitOr(Wrap(y * HALF), h) % b
  }

  /** The whole loop on the limbs of p, most significant limb first. */
  function ModLimbs(p: seq<Limb>, b: nat): (r: nat)
    requires 0 < b
    decreases |p|
  {
    if p == [] then 0
    else HalfStep(HalfStep(ModLimbs(p[1..], b), p[0] / HALF, b), p[0] % HALF, b)
  }

  /** The moduli for which the wrapping in HalfStep is harmless. */
  predicate SafeModulus(b: int)
  {
    0 < b && (b <= HALF || BASE % b == 0)
  }

  /** Shifting a word left by half its width keeps the low half. */
  lemma WrapHalf(y: nat, h: nat)
    requires y < BASE && h < HALF
    ensures BitOr(Wrap(y * HALF), h) == y * HALF + h - BASE * (y / HALF)
  {
    hide BitOr;
    BaseIsPow2();
    var m := y % HALF;
    DivModUnique(y * HALF, BASE, y / HALF, m * HALF);
    BitOrDisjoint(m, h, BIH);
  }

  lemma HalfStepExact(y: nat, h: nat, b: nat)
    requires SafeModulus(b) && y < b < BASE && h < HALF
    ensures HalfStep(y, h, b) == (y * HALF + h) % b
  {
    hide BitOr, Wrap;
    WrapHalf(y, h);
    if b > HALF { DropWrap(y * HALF + h, y / HALF, b); }
  }

  lemma DropWrap(x: int, k: nat, b: nat)
    requires 0 < b && BASE % b == 0
    ensures (x - BASE * k) % b == x % b
  {
    var c := BASE / b;
    DivModIdentity(BASE, b);
    MulSwap(c, b, k);
    MulAssoc(c, k, b);
    DropMultiple(x, c * k, b);
  }

  lemma DropMultiple(x: int, k: int, b: int)
    requires 0 < b
    ensures (x - k * b) % b == x % b
  {
    DivModIdentity(x, b);
    MulDistrib(b, x / b, k);
    DivModUnique(x - k * b, b, x / b - k, x % b);
  }

  /** Feeding one more limb through two half steps. */
  lemma LimbStepExact(v: nat, x: Limb, b: nat)
    requires SafeModulus(b) && b < BASE
    ensures HalfStep(HalfStep(v % b, x / HALF, b), x % HALF, b) == (x + BASE * v) % b
  {
    hide HalfStep, SafeModulus;
    assert 0 < b by { SafePositive(b); }
    var hi, lo := x / HALF, x % HALF;
    DivModIdentity(v, b);
    HalfStepExact(v % b, hi, b);
    var y := ((v % b) * HALF + hi) % b;
    HalfStepExact(y, lo, b);
    ModStep(v, hi, b);
    ModStep(v * HALF + hi, lo, b);
    assert (v * HALF + hi) * HALF + lo == x + BASE * v;
  }

  lemma SafePositive(b: nat)
    requires SafeModulus(b)
    ensures 0 < b
  {}

  lemma ModStep(v: nat, h: nat, b: nat)
    requires 0 < b
    ensures ((v % b) * HALF + h) % b == (v * HALF + h) % b
  {
    DivModIdentity(v, b);
    MulAssoc(v / b, b, HALF);
    MulSwap(v / b, b, HALF);
    assert v * HALF + h - (v / b * HALF) * b == (v % b) * HALF + h;
    DropMultiple(v * HALF + h, v / b * HALF, b);
  }

  /** For a safe modulus the word loop computes the exact remainder of every number. */
  lemma {:induction false} ModLimbsExact(p: seq<Limb>, b: nat)
    requires SafeModulus(b) && b < BASE
    ensures ModLimbs(p, b) == Value(p) % b
  {
    hide HalfStep;
    if p == [] {
      DivModUnique(0, b, 0, 0);
    } else {
      ModLimbsExact(p[1..], b);
      LimbStepExact(Value(p[1..]), p[0], b);
    }
  }

  /** For any other modulus the loop already goes wrong on the number 2^biL. */
  lemma ModLimbsWraps(b: nat)
    requires HALF < b < BASE && !SafeModulus(b)
    ensures Value([0, 1]) == BASE && ModLimbs([0, 1], b) == 0 && Value([0, 1]) % b != 0
  {
    assert [0, 1][1..] == [1] && [1][1..] == [];
    var p: seq<Limb> := [0, 1];
    assert p[1..] == [1];
    ValueSingle(1);
    assert Value(p) == BASE;
    BitOrZero(0); BitOrZero(1); BitOrZero(HALF);
    DivModUnique(0, b, 0, 0);
    DivModUnique(1, b, 0, 1);
    DivModUnique(HALF, b, 0, HALF);
    calc {
      ModLimbs([1], b);
      HalfStep(HalfStep(0, 0, b), 1, b);
      1;
    }
    assert HalfStep(1, 0, b) == HALF;
    assert HalfStep(HALF, 0, b) == 0;
  }

  /** The loop is exact on every number if and only if the modulus is safe. */
  lemma ModIntExactIff(b: nat)
    requires 0 < b < BASE
    ensures (forall p: seq<Limb> :: ModLimbs(p, b) == Value(p) % b) <==> SafeModulus(b)
  {
    if SafeModulus(b) {
      forall p: seq<Limb> ensures ModLimbs(p, b) == Value(p) % b { ModLimbsExact(p, b); }
    } else {
      ModLimbsWraps(b);
    }
  }

  /** r = A mod b  (mbedtls_mpi_mod_int).  The case b == 2 reads limb 0, so A needs one. */
  method ModInt(A: Mpi, b: Sint) returns (ret: Status, r: Limb)
    requires b == 2 ==> A.p != []
    ensures ret == if b == 0 then Err(DivisionByZero) else if b < 0 then Err(NegativeValue) else Ok
    ensures ret.Ok? && SafeModulus(b) ==> r == A.Val() % b
    ensures ret.Ok? ==> r == if A.s < 0 && ModLimbs(A.p, b) != 0 then b - ModLimbs(A.p, b) else ModLimbs(A.p, b)
  {
    hide Value, ModLimbs, SafeModulus;
    if b == 0 { return Err(DivisionByZero), 0; }
    if b < 0 { return Err(NegativeValue), 0; }
    if SafeModulus(b) {
      ModLimbsExact(A.p, b);
      ModOfNegative(A.Abs(), b);
    }
    if b == 1 {
      ModLimbsExact(A.p, 1) by { SmallIsSafe(1); }
      return Ok, 0;
    }
    if b == 2 {
      ModLimbsExact(A.p, 2) by { SmallIsSafe(2); }
      ValueParity(A.p);
      return Ok, A.p[0] % 2;
    }
    var y := ModLoop(A.p, b);
    if A.s < 0 && y != 0 { y := b - y; }
    return Ok, y;
  }

  lemma SmallIsSafe(b: nat)
    requires 0 < b <= HALF
    ensures SafeModulus(b)
  {}

  method ModLoop(p: seq<Limb>, b: nat) returns (y: nat)
    requires 0 < b < BASE
    ensures y == ModLimbs(p, b) && y < b
  {
    hide BitOr;
    var i := |p|;
    y := 0;
    while i > 0
      invariant 0 <= i <= |p| && y == ModLimbs(p[i..], b) && y < b
    {
      var x := p[i - 1];
      assert p[i - 1..][1..] == p[i..];
      y := BitOr(Wrap(y * HALF), x / HALF);
      y := y % b;
      x := Wrap(x * HALF);
      LowHalf(p[i - 1]);
      y := BitOr(Wrap(y * HALF), x / HALF);
      y := y % b;
      i := i - 1;
    }
    assert p[0..] == p;
  }

  lemma LowHalf(x: Limb)
    ensures Wrap(x * HALF) / HALF == x % HALF
  {
    DivModUnique(x * HALF, BASE, x / HALF, (x % HALF) * HALF);
  }

  lemma ModOfNegative(v: nat, b: nat)
    requires 0 < b
    ensures (0 - v) % b == if v % b != 0 then b - v % b else 0
  {
    var q, r := v / b, v % b;
    DivModIdentity(v, b);
    if r == 0 {
      QuotientSign(0 - q, b, b);
      DivModUnique(0 - v, b, 0 - q, 0);
    } else {
      MulDistrib(b, 0 - q, 1);
      DivModUnique(0 - v, b, 0 - q - 1, b - r);
    }
  }
}
