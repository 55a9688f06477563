/** Multiplication: the multiply-accumulate helper and the schoolbook product. */
module MpiMul {
  import opened Numbers
  import opened Limbs
  import opened MpiCore
  import opened MpiAdd

  /** One MULADDC step: the exact double-width value s * b + d + c, split into two words. */
  method MulAddC(s: Limb, d: Limb, c: Limb, b: Limb) returns (lo: Limb, hi: Limb)
    ensures s * b + d + c == lo + BASE * hi
  {
    var t := s * b + d + c;
    MulLe(s, b, BASE - 1);
    MulLe(BASE - 1, s, BASE - 1);
    DivModIdentity(t, BASE);
    lo := t % BASE;
    hi := t / BASE;
  }

  /** q, with carry c of weight i, holds v0 + b * (the i lowest limbs of s). */
  ghost predicate AccumulatedUpTo(q: seq<Limb>, v0: nat, s: seq<Limb>, b: nat, i: nat, c: nat)
    requires i <= |s|
  {
    Value(q) + c * PowB(i) == v0 + b * Value(s[..i])
  }

  lemma AccumulatedStart(q: seq<Limb>, s: seq<Limb>, b: nat)
    ensures AccumulatedUpTo(q, Value(q), s, b, 0, 0)
  {}

  lemma AccumulatedStep(q: seq<Limb>, v0: nat, s: seq<Limb>, b: nat, i: nat, c: nat, z: Limb, c': nat)
    requires i < |q| && i < |s| && AccumulatedUpTo(q, v0, s, b, i, c)
    requires s[i] * b + q[i] + c == z + BASE * c'
    ensures AccumulatedUpTo(q[i := z], v0, s, b, i + 1, c')
  {
    hide Value, PowB;
    ValueUpdate(q, i, z);
    ValuePrefixStep(s, i);
    PowBStep(i);
    CarryStep(PowB(i), q[i], c, s[i] * b, z, c');
    MulDistrib(b, Value(s[..i]), s[i] * PowB(i));
    MulSwap(s[i], b, PowB(i));
  }

  lemma AccumulatedToCarried(q: seq<Limb>, v0: nat, s: seq<Limb>, b: nat, i: nat, c: nat)
    requires i <= |s| && AccumulatedUpTo(q, v0, s, b, i, c)
    ensures CarriedTo(q, v0 + b * Value(s[..i]), i, c)
  {}

  lemma CarryInside(q: seq<Limb>, v: nat, i: nat, c: nat)
    requires CarriedTo(q, v, i, c) && v < PowB(|q|) && 1 <= c
    ensures i < |q|
  {
    hide Value, PowB;
    MulLe(PowB(i), 1, c);
    PowBOrder(i, |q|);
  }

  /** D[off..] += b * S[..n], the carry running on as far as it must  (mpi_mul_hlp).
      The carry loop has no bound: it stays in D because the result fits there. */
  method MulHlp(n: nat, S: Mpi, D: Mpi, off: nat, b: Limb)
    requires S != D && n <= |S.p| && off + n < |D.p|
    requires Value(D.p[off..]) + b * Value(S.p[..n]) < PowB(|D.p| - off)
    modifies D
    ensures D.s == old(D.s) && |D.p| == |old(D.p)|
    ensures D.p[..off] == old(D.p[..off])
    ensures Value(D.p[off..]) == old(Value(D.p[off..])) + b * Value(S.p[..n])
  {
    hide Value, PowB, AccumulatedUpTo, CarriedTo;
    ghost var d0, v0 := D.p, Value(D.p[off..]);
    ghost var v := v0 + b * Value(S.p[..n]);
    var c: Limb := 0;
    var i := 0;
    AccumulatedStart(D.p[off..], S.p, b);
    while i < n
      invariant 0 <= i <= n <= |S.p| && |D.p| == |d0| && D.s == old(D.s) && S.p == old(S.p)
      invariant D.p[..off] == d0[..off]
      invariant AccumulatedUpTo(D.p[off..], v0, S.p, b, i, c)
    {
      ghost var p0, c0 := D.p, c;
      var lo, hi := MulAddC(S.p[i], D.p[off + i], c, b);
      D.p, c := D.p[off + i := lo], hi;
      assert D.p[off..] == p0[off..][i := lo];
      AccumulatedStep(p0[off..], v0, S.p, b, i, c0, lo, c);
      i := i + 1;
    }
    AccumulatedToCarried(D.p[off..], v0, S.p, b, n, c);
    while true
      invariant n <= i && (i == n || 1 <= c)
      invariant |D.p| == |d0| && D.s == old(D.s) && D.p[..off] == d0[..off]
      invariant CarriedTo(D.p[off..], v, i, c)
      decreases |D.p| - i
    {
      if i != n { CarryInside(D.p[off..], v, i, c); }
      ghost var p0, c0 := D.p, c;
      D.p := D.p[off + i := WrapAdd(D.p[off + i], c)];
      c := Bit(D.p[off + i] < c);
      assert D.p[off..] == p0[off..][i := D.p[off + i]];
      CarriedStep(p0[off..], v, i, c0, D.p[off + i], c);
      i := i + 1;
      if c == 0 { break; }
    }
    CarriedDone(D.p[off..], v, i);
  }

  /** The row loop of the product, from the top limb of B down. */
  method MulLimbs(X: Mpi, A: Mpi, B: Mpi, i: nat, jb: nat)
    requires X != A && X != B
    requires i <= |A.p| && Value(A.p[..i]) == A.Abs()
    requires jb <= |B.p| && Value(B.p[..jb]) == B.Abs()
    requires X.p == Zeros(|X.p|) && i + jb <= |X.p| && 1 <= |X.p|
    modifies X
    ensures X.s == old(X.s) && |X.p| == |old(X.p)|
    ensures X.Abs() == A.Abs() * B.Abs()
  {
    hide Value, PowB;
    ghost var a, b := A.Abs(), B.p[..jb];
    var j := jb;
    ValueZeros(X.p[j..]);
    while j > 0
      invariant j <= jb && |X.p| == |old(X.p)| && X.s == old(X.s)
      invariant X.p[..j] == Zeros(j)
      invariant Value(X.p[j..]) == a * Value(b[j..])
    {
      ghost var m := |X.p| - (j - 1);
      ValueSuffixStep(X.p, j - 1);
      ValueSuffixStep(b, j - 1);
      MulDistrib(a, b[j - 1], BASE * Value(b[j..]));
      RowFits(A.p[..i], b[j - 1..], m);
      MulHlp(i, A, X, j - 1, B.p[j - 1]);
      j := j - 1;
      assert X.p[..j] == Zeros(j);
    }
    assert X.p[0..] == X.p && b[0..] == b;
  }

  lemma RowFits(a: seq<Limb>, b: seq<Limb>, m: nat)
    requires |a| + |b| <= m
    ensures Value(a) * Value(b) < PowB(m)
  {
    hide Value, PowB;
    ValueBound(a);
    ValueBound(b);
    PowBAdd(|a|, |b|);
    PowBMonotone(|a| + |b|, m);
    MulLe(Value(a), Value(b), PowB(|b|));
    MulLt(PowB(|b|), Value(a), PowB(|a|));
  }

  /** A itself, or a copy of it if it is the number the product goes to. */
  method Unaliased(X: Mpi, A: Mpi) returns (A': Mpi)
    ensures A' != X && A'.Abs() == A.Abs() && A'.Val() == A.Val()
    ensures A.p != [] ==> A'.s == A.s
    ensures A' == A || fresh(A')
  {
    A' := A;
    if X == A {
      A' := new Mpi();
      Copy(A', A);
    }
  }

  /** X = A * B  (mbedtls_mpi_mul_mpi), for every pattern of aliasing. */
  method MulMpi(X: Mpi, A: Mpi, B: Mpi)
    modifies X
    ensures X.Val() == old(A.Val()) * old(B.Val())
    ensures old(A.p) != [] && old(B.p) != [] ==> X.s == old(A.s) * old(B.s)
    ensures |X.p| >= |old(X.p)| && |X.p| >= 1
  {
    hide Value, PowB;
    var A' := Unaliased(X, A);
    var B' := Unaliased(X, B);
    var i := UsedLimbs(A');
    var j := UsedLimbs(B');
    Grow(X, i + j);
    Lset(X, 0);
    MulLimbs(X, A', B', i, j);
    X.s := A'.s * B'.s;
    SignedProduct(A'.Abs(), B'.Abs());
  }

  lemma SignedProduct(a: nat, b: nat)
    ensures (0 - a) * b == 0 - a * b
    ensures a * (0 - b) == 0 - a * b
    ensures (0 - a) * (0 - b) == a * b
  {}

  /** X = A * b  (mbedtls_mpi_mul_int, b unsigned) */
  method MulInt(X: Mpi, A: Mpi, b: Limb)
    modifies X
    ensures X.Val() == old(A.Val()) * b
    ensures old(A.p) != [] ==> X.s == old(A.s)
    ensures |X.p| >= |old(X.p)| && |X.p| >= 1
  {
    var B := new Mpi.OfInt(b);
    MulMpi(X, A, B);
  }
}
