/** The multi-precision integer structure and the routines that do not do arithmetic between
    two numbers: growing, copying, setting, comparing, counting bits and shifting.

    A number is a sign and a little-endian limb buffer.  The buffer is owned by its structure
    and reassigned limb by limb, so two routines' arguments alias exactly when they are the
    same object. */
module MpiCore {
  import opened Numbers
  import opened Limbs

  datatype MpiError =
    | BadInputData | InvalidCharacter | BufferTooSmall
    | NegativeValue | DivisionByZero | NotAcceptable

  datatype Status = Ok | Err(code: MpiError)

  type Sint = z: int | -0x8000_0000_0000_0000 <= z < 0x8000_0000_0000_0000

  class Mpi {
    var s: Sign
    var p: seq<Limb>

    /** mbedtls_mpi_init */
    constructor ()
      ensures s == 1 && p == []
    {
      s, p := 1, [];
    }

    /** A one-limb number on the caller's stack, as the *_int wrappers build it. */
    constructor OfInt(z: int)
      requires -BASE < z < BASE
      ensures Val() == z && |p| == 1 && s == if z < 0 then -1 else 1
    {
      s, p := if z < 0 then -1 else 1, [if z < 0 then 0 - z else z];
      new;
      ValueSingle(p[0]);
    }

    ghost function Abs(): (v: nat)
      reads this
    {
      Value(p)
    }

    ghost function Val(): (v: int)
      reads this
    {
      if s == 1 then Abs() else 0 - Abs()
    }
  }

  function Sgn(x: int): (r: int)
    ensures r == 1 <==> x > 0
    ensures r == -1 <==> x < 0
    ensures r == 0 <==> x == 0
  {
    if x > 0 then 1 else if x < 0 then -1 else 0
  }

  function BitsToLimbs(i: nat): (n: nat)
    ensures i <= n * BIL < i + BIL
  {
    i / BIL + (if i % BIL != 0 then 1 else 0)
  }

  method Grow(X: Mpi, n: nat)
    modifies X
    ensures X.s == old(X.s) && X.Abs() == old(X.Abs())
    ensures X.p == if |old(X.p)| < n then old(X.p) + Zeros(n - |old(X.p)|) else old(X.p)
  {
    if |X.p| < n {
      ValueConcat(X.p, Zeros(n - |X.p|));
      ValueZeros(Zeros(n - |X.p|));
      X.p := X.p + Zeros(n - |X.p|);
    }
  }

  /** The number of limbs up to the highest one that is not zero; many routines start with this scan. */
  method UsedLimbs(X: Mpi) returns (j: nat)
    ensures j <= |X.p|
    ensures 0 < j ==> X.p[j - 1] != 0
    ensures forall k :: j <= k < |X.p| ==> X.p[k] == 0
    ensures Value(X.p[..j]) == X.Abs()
    ensures X.Abs() < PowB(j) && (0 < j ==> PowB(j - 1) <= X.Abs())
  {
    hide Pow2, Value, PowB;
    j := |X.p|;
    while j > 0 && X.p[j - 1] == 0
      invariant j <= |X.p|
      invariant forall k :: j <= k < |X.p| ==> X.p[k] == 0
    {
      j := j - 1;
    }
    HighZero(X.p, j);
    ValueBound(X.p[..j]);
    if j > 0 { ValueAtLeast(X.p, j - 1); }
  }

  method Copy(X: Mpi, Y: Mpi)
    modifies X
    ensures X.Val() == old(Y.Val()) && X.Abs() == old(Y.Abs())
    ensures X == Y ==> X.p == old(X.p) && X.s == old(X.s)
    ensures X != Y && Y.p == [] ==> X.p == [] && X.s == 1
    ensures X != Y && Y.p != [] ==> X.s == Y.s && |X.p| >= 1 && |X.p| >= |old(X.p)|
    ensures X != Y && Y.p != [] && |X.p| > |old(X.p)| && |X.p| > 1 ==> X.Abs() >= PowB(|X.p| - 1)
    ensures X != Y && Y.p != [] ==> |X.p| <= |old(X.p)| || |X.p| <= |Y.p|
  {
    hide Pow2, Value, PowB;
    if X == Y { return; }
    if Y.p == [] {
      X.s, X.p := 1, [];
      return;
    }
    var i := |Y.p| - 1;
    while i > 0 && Y.p[i] == 0
      invariant 0 <= i < |Y.p|
      invariant forall k :: i < k < |Y.p| ==> Y.p[k] == 0
    {
      i := i - 1;
    }
    if i > 0 { ValueAtLeast(Y.p, i); }
    i := i + 1;
    X.s := Y.s;
    if |X.p| < i {
      Grow(X, i);
    } else {
      X.p := X.p[..i] + Zeros(|X.p| - i);
    }
    X.p := Y.p[..i] + X.p[i..];
    HighZero(Y.p, i);
    HighZero(X.p, i);
    assert X.p[..i] == Y.p[..i];
  }

  method Lset(X: Mpi, z: Sint)
    modifies X
    ensures X.Val() == z && X.s == if z < 0 then -1 else 1
    ensures |X.p| == if |old(X.p)| < 1 then 1 else |old(X.p)|
    ensures z == 0 ==> X.p == Zeros(|X.p|)
  {
    Grow(X, 1);
    X.p := Zeros(|X.p|);
    X.p := X.p[0 := if z < 0 then 0 - z else z];
    X.s := if z < 0 then -1 else 1;
    HighZero(X.p, 1);
    assert X.p[..1] == [X.p[0]];
    ValueSingle(X.p[0]);
  }

  // ----- comparison -----

  method CmpAbs(X: Mpi, Y: Mpi) returns (r: int)
    ensures r == Sgn(X.Abs() - Y.Abs())
  {
    hide Pow2, Value, PowB;
    var i := UsedLimbs(X);
    var j := UsedLimbs(Y);
    if i == 0 && j == 0 { return 0; }
    if i > j { PowBMonotone(j, i - 1); return 1; }
    if j > i { PowBMonotone(i, j - 1); return -1; }
    r := CmpLimbs(X, Y, i);
  }

  /** The common limb-by-limb tail of the two comparisons. */
  method CmpLimbs(X: Mpi, Y: Mpi, n: nat) returns (r: int)
    requires n <= |X.p| && n <= |Y.p|
    requires Value(X.p[..n]) == X.Abs() && Value(Y.p[..n]) == Y.Abs()
    ensures r == Sgn(X.Abs() - Y.Abs())
  {
    hide Pow2, Value, PowB;
    var a, b := X.p[..n], Y.p[..n];
    var i := n;
    while i > 0
      invariant i <= n
      invariant a[i..] == b[i..]
    {
      if X.p[i - 1] > Y.p[i - 1] { ValueCompare(b, a, i - 1); return 1; }
      if X.p[i - 1] < Y.p[i - 1] { ValueCompare(a, b, i - 1); return -1; }
      assert a[i - 1..] == [a[i - 1]] + a[i..];
      assert b[i - 1..] == [b[i - 1]] + b[i..];
      i := i - 1;
    }
    assert a == a[0..] && b == b[0..];
    return 0;
  }

  method CmpMpi(X: Mpi, Y: Mpi) returns (r: int)
    ensures r == Sgn(X.Val() - Y.Val())
  {
    hide Pow2, Value, PowB;
    var i := UsedLimbs(X);
    var j := UsedLimbs(Y);
    if i == 0 && j == 0 { return 0; }
    if i > j { PowBMonotone(j, i - 1); return X.s; }
    if j > i { PowBMonotone(i, j - 1); return 0 - Y.s; }
    if X.s > 0 && Y.s < 0 { return 1; }
    if Y.s > 0 && X.s < 0 { return -1; }
    r := CmpLimbs(X, Y, i);
    r := if r == 0 then 0 else if r == 1 then X.s else 0 - X.s;
  }

  method CmpInt(X: Mpi, z: Sint) returns (r: int)
    ensures r == Sgn(X.Val() - z)
  {
    var Y := new Mpi.OfInt(z);
    r := CmpMpi(X, Y);
  }

  // ----- counting bits -----

  /** Number of leading zero bits of a word; BIL for zero. */
  method Clz(x: Limb) returns (j: nat)
    ensures j <= BIL && x < Pow2(BIL - j)
    ensures j < BIL ==> Pow2(BIL - 1 - j) <= x
  {
    hide Pow2, Value, PowB;
    BaseIsPow2();
    j := 0;
    var mask: nat := 0x8000_0000_0000_0000;
    ghost var k: nat := BIL;      // x < Pow2(k) is known
    while j < BIL
      invariant j <= BIL && k == BIL - j
      invariant j < BIL ==> 2 * mask == Pow2(k)
      invariant x < Pow2(k)
    {
      TopBit(x, mask);
      Pow2Step(k - 1);
      if k > 1 { Pow2Step(k - 2); }
      if HasBit(x, mask) {
        break;
      }
      k := k - 1;
      mask := mask / 2;
      j := j + 1;
    }
  }

  /** x & mask, for a mask with one bit set. */
  predicate HasBit(x: nat, mask: nat)
    requires 0 < mask
  {
    (x / mask) % 2 == 1
  }

  lemma TopBit(x: nat, mask: nat)
    requires 0 < mask && x < 2 * mask
    ensures x >= mask <==> HasBit(x, mask)
  {
    if x >= mask {
      DivModUnique(x, mask, 1, x - mask);
    } else {
      DivModUnique(x, mask, 0, x);
    }
  }

  /** v needs exactly n bits. */
  ghost predicate IsBitLen(v: nat, n: nat)
  {
    v < Pow2(n) && (n > 0 ==> Pow2(n - 1) <= v)
  }

  method BitLen(X: Mpi) returns (n: nat)
    ensures IsBitLen(X.Abs(), n)
    ensures n <= |X.p| * BIL
  {
    hide Pow2, Value, PowB;
    if |X.p| == 0 { return 0; }
    var i := |X.p| - 1;
    while i > 0 && X.p[i] == 0
      invariant 0 <= i < |X.p|
      invariant forall k :: i < k < |X.p| ==> X.p[k] == 0
    {
      i := i - 1;
    }
    var z := Clz(X.p[i]);
    var j := BIL - z;
    n := i * BIL + j;
    HighZero(X.p, i + 1);
    ValuePrefixStep(X.p, i);
    ValueBound(X.p[..i]);
    BitLenStep(Value(X.p[..i]), X.p[i], i, j);
  }

  lemma BitLenStep(lo: nat, x: nat, i: nat, j: nat)
    requires lo < PowB(i) && IsBitLen(x, j) && (x == 0 ==> i == 0)
    ensures IsBitLen(lo + x * PowB(i), i * BIL + j)
  {
    PowBIsPow2(i);
    Pow2Add(i * BIL, j);
    TopDecides(PowB(i), lo, x, Pow2(j));
    if j > 0 {
      Pow2Add(i * BIL, j - 1);
      MulLe(PowB(i), Pow2(j - 1), x);
    }
  }

  /** 2^k is the largest power of two dividing v. */
  ghost predicate IsLsb(v: nat, k: nat)
  {
    exists o: nat :: o % 2 == 1 && v == o * Pow2(k)
  }

  /** Position of the lowest set bit, 0 for zero. */
  method Lsb(X: Mpi) returns (count: nat)
    ensures X.Abs() == 0 ==> count == 0
    ensures X.Abs() > 0 ==> IsLsb(X.Abs(), count)
  {
    hide Pow2, Value, PowB;
    count := 0;
    var i := 0;
    while i < |X.p|
      invariant i <= |X.p|
      invariant count == i * BIL
      invariant forall k :: 0 <= k < i ==> X.p[k] == 0
    {
      var j := 0;
      ghost var w := X.p[i];        // X.p[i] == w * 2^j
      while j < BIL
        invariant j <= BIL
        invariant count == i * BIL + j
        invariant X.p[i] == w * Pow2(j)
      {
        ModOfMultiple(w, Pow2(j));
        if HasBit(X.p[i], Pow2(j)) {
          ValueSplit(X.p, i);
          ValueZeros(X.p[..i]);
          ValueSuffixStep(X.p, i);
          LsbFound(w, Value(X.p[i + 1..]), i, j);
          return;
        }
        Halve(w, Pow2(j));
        Pow2Step(j);
        w := w / 2;
        j := j + 1;
        count := count + 1;
      }
      BaseIsPow2();
      if w >= 1 { MulLe(BASE, 1, w); }
      i := i + 1;
    }
    ValueZeros(X.p);
    count := 0;
  }

  lemma Halve(w: nat, d: nat)
    requires w % 2 == 0
    ensures w * d == (w / 2) * (2 * d)
  {
    var h := w / 2;
    assert w == 2 * h;
  }

  lemma LsbFound(o: nat, rest: nat, i: nat, j: nat)
    requires j < BIL && o % 2 == 1
    ensures IsLsb(PowB(i) * (o * Pow2(j) + BASE * rest), i * BIL + j)
  {
    var k := BIL - j;
    hide Pow2, PowB;
    BaseSplit(j, k);
    Pow2Step(k - 1);
    PowBIsPow2(i);
    Pow2Add(i * BIL, j);
    LsbProduct(PowB(i), Pow2(j), o, Pow2(k - 1), rest, BASE, i * BIL + j);
  }

  lemma LsbProduct(w: nat, d: nat, o: nat, e: nat, rest: nat, b: nat, n: nat)
    requires o % 2 == 1 && b == d * (2 * e) && Pow2(n) == w * d
    ensures IsLsb(w * (o * d + b * rest), n)
  {
    hide Pow2;
    var q := o + 2 * (e * rest);
    LsbFactor(w, d, o, e, rest, b);
    assert q % 2 == 1;
    assert w * (o * d + b * rest) == q * Pow2(n);
  }

  lemma LsbFactor(w: nat, d: nat, o: nat, e: nat, rest: nat, b: nat)
    requires b == d * (2 * e)
    ensures w * (o * d + b * rest) == (o + 2 * (e * rest)) * (w * d)
  {
    var r := 2 * (e * rest);
    assert b * rest == d * r;
    assert o * d + d * r == d * (o + r);
    assert w * (d * (o + r)) == (o + r) * (w * d);
  }
}
