/** Limb arithmetic: a limb is a machine word of BIL bits, and a little-endian sequence of
    limbs denotes a natural number. */
module Limbs {
  import opened Numbers

  const BIL: nat := 64                      // bits in a limb (biL)
  const BIH: nat := 32                      // half of a limb (biH)
  const BASE: int := 0x1_0000_0000_0000_0000 // 2^BIL
  const HALF: int := 0x1_0000_0000          // 2^BIH

  type Limb = x: int | 0 <= x < BASE
  type Sign = s: int | s == 1 || s == -1 witness 1

  lemma BaseIsPow2()
    ensures Pow2(BIL) == BASE && Pow2(BIH) == HALF
  {
    hide Pow2;
    Pow2Step(0); Pow2Step(1); Pow2Step(2); Pow2Step(3);
    Pow2Add(4, 4); Pow2Add(8, 8); Pow2Add(16, 16); Pow2Add(32, 32);
  }

  /** A word split at bit j. */
  lemma BaseSplit(j: nat, k: nat)
    requires j + k == BIL
    ensures Pow2(j) * Pow2(k) == BASE
  {
    BaseIsPow2();
    Pow2Add(j, k);
  }

  /** Weight of limb i. */
  function PowB(i: nat): (r: nat)
    ensures 1 <= r && (i == 0 ==> r == 1)
  {
    if i == 0 then 1 else BASE * PowB(i - 1)
  }

  lemma PowBStep(i: nat)
    ensures PowB(i + 1) == BASE * PowB(i)
  {}

  lemma {:induction false} PowBAdd(a: nat, b: nat)
    ensures PowB(a + b) == PowB(a) * PowB(b)
  {
    if a == 0 {
    } else {
      PowBAdd(a - 1, b);
      PowBStep(a - 1);
      PowBStep(a - 1 + b);
      MulAssoc(BASE, PowB(a - 1), PowB(b));
    }
  }

  lemma {:induction false} PowBMonotone(a: nat, b: nat)
    requires a <= b
    ensures PowB(a) <= PowB(b)
  {
    if a < b { PowBMonotone(a, b - 1); }
  }

  lemma PowBOrder(a: nat, b: nat)
    requires PowB(a) < PowB(b)
    ensures a < b
  {
    if b <= a { PowBMonotone(b, a); }
  }

  lemma {:induction false} PowBIsPow2(i: nat)
    ensures PowB(i) == Pow2(i * BIL)
  {
    hide PowB,Pow2;
    if i == 0 {
    } else {
      PowBStep(i - 1);
      PowBIsPow2(i - 1);
      BaseIsPow2();
      Pow2Add(BIL, (i - 1) * BIL);
    }
  }

  // ----- wrapping machine operations -----

  function WrapAdd(x: Limb, y: Limb): (r: Limb)
    ensures r == if x + y < BASE then x + y else x + y - BASE
  {
    (x + y) % BASE
  }

  function WrapSub(x: Limb, y: Limb): (r: Limb)
    ensures r == if x >= y then x - y else x - y + BASE
  {
    (x - y) % BASE
  }

  function Wrap(t: nat): (r: Limb)
    ensures t < BASE ==> r == t
  {
    t % BASE
  }

  function WrapMul(x: Limb, y: Limb): (r: Limb)
    ensures x * y < BASE ==> r == x * y
  {
    MulLe(x, 0, y);
    Wrap(x * y)
  }

  /** The product is a multiple of BASE away from the wrapped product. */
  lemma WrapMulExact(x: Limb, y: Limb)
    ensures x * y == WrapMul(x, y) + BASE * (x * y / BASE) && 0 <= x * y
  {
    MulLe(x, 0, y);
    DivModIdentity(x * y, BASE);
  }

  /** Wrapped operations are exact modulo BASE. */
  lemma WrapCong(x: Limb, y: Limb)
    ensures Cong(WrapMul(x, y), x * y, BASE)
    ensures Cong(WrapAdd(x, y), x + y, BASE)
    ensures Cong(WrapSub(x, y), x - y, BASE)
  {
    hide WrapMul, WrapAdd, WrapSub;
    WrapMulExact(x, y);
    CongIntro(WrapMul(x, y), x * y, BASE, -(x * y / BASE));
    CongIntro(WrapAdd(x, y), x + y, BASE, if x + y < BASE then 0 else -1);
    CongIntro(WrapSub(x, y), x - y, BASE, if x >= y then 0 else 1);
  }

  function Bit(c: bool): (r: Limb)
    ensures c ==> r == 1
    ensures !c ==> r == 0
  {
    if c then 1 else 0
  }

  /** Bitwise or of two words. */
  function BitOr(x: nat, y: nat): (r: nat)
    decreases x + y
  {
    if x == 0 && y == 0 then 0
    else (if x % 2 == 1 || y % 2 == 1 then 1 else 0) + 2 * BitOr(x / 2, y / 2)
  }

  /** When the low k bits of x are clear and y fits in them, "or" is addition. */
  lemma {:induction false} BitOrDisjoint(x: nat, y: nat, k: nat)
    requires y < Pow2(k)
    ensures BitOr(x * Pow2(k), y) == x * Pow2(k) + y
  {
    if k == 0 {
      BitOrZero(x);
    } else {
      var z := x * Pow2(k - 1);
      assert x * Pow2(k) == 2 * z;
      BitOrDisjoint(x, y / 2, k - 1);
    }
  }

  lemma {:induction false} BitOrCommutes(x: nat, y: nat)
    ensures BitOr(x, y) == BitOr(y, x)
    decreases x + y
  {
    if x == 0 && y == 0 {
    } else {
      BitOrCommutes(x / 2, y / 2);
    }
  }

  lemma {:induction false} BitOrZero(x: nat)
    ensures BitOr(x, 0) == x && BitOr(0, x) == x
  {
    if x == 0 {
    } else {
      BitOrZero(x / 2);
    }
  }

  // ----- value of a limb sequence -----

  ghost function Value(p: seq<Limb>): (v: nat)
    ensures p == [] ==> v == 0
  {
    if p == [] then 0 else p[0] + BASE * Value(p[1..])
  }

  lemma {:induction false} ValueConcat(a: seq<Limb>, b: seq<Limb>)
    ensures Value(a + b) == Value(a) + PowB(|a|) * Value(b)
  {
    hide PowB;
    if a == [] {
      assert a + b == b;
    } else {
      ValueConcat(a[1..], b);
      assert (a + b)[1..] == a[1..] + b;
      assert Value(a + b) == a[0] + BASE * Value(a[1..] + b);
      PowBStep(|a| - 1);
      MulAssoc(BASE, PowB(|a| - 1), Value(b));
    }
  }

  lemma ValueSingle(x: Limb)
    ensures Value([x]) == x
  {
    assert [x][1..] == [];
  }

  lemma ValueSplit(p: seq<Limb>, i: nat)
    requires i <= |p|
    ensures Value(p) == Value(p[..i]) + PowB(i) * Value(p[i..])
  {
    hide Value, PowB;
    ValueConcat(p[..i], p[i..]);
    assert p[..i] + p[i..] == p;
  }

  lemma ValuePrefixStep(p: seq<Limb>, i: nat)
    requires i < |p|
    ensures Value(p[..i + 1]) == Value(p[..i]) + p[i] * PowB(i)
  {
    hide Value, PowB;
    ValueConcat(p[..i], [p[i]]);
    ValueSingle(p[i]);
    assert p[..i] + [p[i]] == p[..i + 1];
  }

  lemma ValueSuffixStep(p: seq<Limb>, i: nat)
    requires i < |p|
    ensures Value(p[i..]) == p[i] + BASE * Value(p[i + 1..])
  {
    assert p[i..][1..] == p[i + 1..];
  }

  lemma {:induction false} ValueBound(p: seq<Limb>)
    ensures Value(p) < PowB(|p|)
  {
    if p != [] { ValueBound(p[1..]); }
  }

  /** Writing one limb moves the value by the change of that limb. */
  lemma ValueUpdate(p: seq<Limb>, i: nat, v: Limb)
    requires i < |p|
    ensures Value(p[i := v]) == Value(p) + (v - p[i]) * PowB(i)
  {
    hide Value, PowB;
    var q := p[i := v];
    ValueSplit(p, i);
    ValueSplit(q, i);
    ValueSuffixStep(p, i);
    ValueSuffixStep(q, i);
    assert q[..i] == p[..i] && q[i + 1..] == p[i + 1..];
    UpdateProduct(PowB(i), p[i], v, Value(p[i + 1..]));
  }

  lemma UpdateProduct(w: nat, x: nat, y: nat, rest: nat)
    ensures w * (y + BASE * rest) == w * (x + BASE * rest) + (y - x) * w
  {}

  lemma {:induction false} ValueZeros(p: seq<Limb>)
    requires forall k :: 0 <= k < |p| ==> p[k] == 0
    ensures Value(p) == 0
  {
    if p != [] { ValueZeros(p[1..]); }
  }

  lemma {:induction false} ZeroValue(p: seq<Limb>)
    requires Value(p) == 0
    ensures forall k :: 0 <= k < |p| ==> p[k] == 0
  {
    if p != [] {
      ZeroValue(p[1..]);
      assert forall k :: 1 <= k < |p| ==> p[k] == p[1..][k - 1];
    }
  }

  /** A value below PowB(i) leaves every limb from i upwards zero. */
  lemma SmallValueHighZero(p: seq<Limb>, i: nat)
    requires i <= |p| && Value(p) < PowB(i)
    ensures Value(p[i..]) == 0 && Value(p[..i]) == Value(p)
    ensures forall k :: i <= k < |p| ==> p[k] == 0
  {
    hide Value, PowB;
    ValueSplit(p, i);
    if Value(p[i..]) >= 1 { MulLe(PowB(i), 1, Value(p[i..])); }
    ZeroValue(p[i..]);
    assert forall k :: i <= k < |p| ==> p[k] == p[i..][k - i];
  }

  /** Zero limbs on top do not count. */
  lemma HighZero(p: seq<Limb>, i: nat)
    requires i <= |p|
    requires forall k :: i <= k < |p| ==> p[k] == 0
    ensures Value(p) == Value(p[..i])
  {
    hide Value, PowB;
    ValueSplit(p, i);
    ValueZeros(p[i..]);
  }

  /** A non-zero limb at i makes the value at least PowB(i). */
  lemma ValueAtLeast(p: seq<Limb>, i: nat)
    requires i < |p| && p[i] >= 1
    ensures Value(p) >= PowB(i)
  {
    hide Value, PowB;
    ValueSplit(p, i);
    ValueSuffixStep(p, i);
    MulLe(PowB(i), 1, Value(p[i..]));
  }

  lemma ValueParity(p: seq<Limb>)
    requires p != []
    ensures Value(p) % 2 == p[0] % 2
  {
    var v := Value(p[1..]);
    assert Value(p) == p[0] + 2 * (0x8000_0000_0000_0000 * v);
  }

  /** Sequences compare by their most significant different limb. */
  lemma ValueCompare(a: seq<Limb>, b: seq<Limb>, i: nat)
    requires i < |a| && i < |b| && a[i] < b[i]
    requires Value(a[i + 1..]) == Value(b[i + 1..])
    ensures Value(a) < Value(b)
  {
    hide Value, PowB;
    ValueSplit(a, i);
    ValueSplit(b, i);
    ValueSuffixStep(a, i);
    ValueSuffixStep(b, i);
    ValueBound(a[..i]);
    TopDecides(PowB(i), Value(a[..i]), Value(a[i..]), Value(b[i..]));
  }

  lemma TopDecides(w: nat, lo: nat, x: nat, y: nat)
    requires lo < w && x < y
    ensures lo + w * x < w * y
  {
    MulLe(w, x + 1, y);
  }

  function Zeros(n: nat): (z: seq<Limb>)
    ensures |z| == n && forall k :: 0 <= k < n ==> z[k] == 0
  {
    seq(n, _ => 0)
  }
}
