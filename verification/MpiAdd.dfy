/** Addition and subtraction.  X, A and B may be the same object in any combination. */
module MpiAdd {
  import opened Numbers
  import opened Limbs
  import opened MpiCore

  /** Adding the i lowest limbs of b into v0 gave p with carry c. */
  ghost predicate AddedUpTo(p: seq<Limb>, v0: nat, b: seq<Limb>, i: nat, c: nat)
    requires i <= |b|
  {
    Value(p) + c * PowB(i) == v0 + Value(b[..i])
  }

  lemma AddedStep(p: seq<Limb>, v0: nat, b: seq<Limb>, i: nat, c: nat, z: Limb, c': nat)
    requires i < |p| && i < |b| && AddedUpTo(p, v0, b, i, c)
    requires p[i] + c + b[i] == z + BASE * c'
    ensures AddedUpTo(p[i := z], v0, b, i + 1, c')
  {
    hide Value, PowB;
    ValueUpdate(p, i, z);
    ValuePrefixStep(b, i);
    PowBStep(i);
    CarryStep(PowB(i), p[i], c, b[i], z, c');
  }

  lemma CarryStep(w: nat, x: nat, c: nat, y: nat, z: nat, c': nat)
    requires x + c + y == z + BASE * c'
    ensures (z - x) * w + c' * (BASE * w) == c * w + y * w
  {
    assert (z + BASE * c') * w == (x + c + y) * w;
  }

  /** Propagating the last carry: p with carry c at weight i is worth v. */
  ghost predicate CarriedTo(p: seq<Limb>, v: nat, i: nat, c: nat)
  {
    Value(p) + c * PowB(i) == v
  }

  lemma CarriedStep(p: seq<Limb>, v: nat, i: nat, c: nat, z: Limb, c': nat)
    requires i < |p| && CarriedTo(p, v, i, c) && p[i] + c == z + BASE * c'
    ensures CarriedTo(p[i := z], v, i + 1, c')
  {
    hide Value, PowB;
    ValueUpdate(p, i, z);
    PowBStep(i);
    CarryStep(PowB(i), p[i], c, 0, z, c');
  }

  /** X = |A| + |B|  (mbedtls_mpi_add_abs) */
  method AddAbs(X: Mpi, A: Mpi, B: Mpi)
    modifies X
    ensures X.s == 1 && X.Abs() == old(A.Abs()) + old(B.Abs())
    ensures old(A.p) != [] && old(B.p) != [] ==> |X.p| >= |old(X.p)| && |X.p| >= 1
  {
    hide Value, PowB, CarriedTo;
    var A', B' := A, B;
    if X == B {
      A', B' := X, A;
    }
    if X != A' {
      Copy(X, A');
    }
    X.s := 1;
    var j := UsedLimbs(B');
    Grow(X, j);
    ghost var a, b := X.Abs(), B'.Abs();
    var c := AddLimbs(X, B', j);
    CarryOut(X, j, c, a + b);
  }

  /** The limb loop of the addition.  X may be B: each limb is read before it is written. */
  method AddLimbs(X: Mpi, B: Mpi, j: nat) returns (c: Limb)
    requires j <= |X.p| && j <= |B.p| && Value(B.p[..j]) == B.Abs()
    modifies X
    ensures X.s == old(X.s) && |X.p| == |old(X.p)| && c <= 1
    ensures CarriedTo(X.p, old(X.Abs()) + old(B.Abs()), j, c)
  {
    hide Value, PowB, AddedUpTo, CarriedTo;
    ghost var x0, b0, v0 := X.p, B.p, X.Abs();
    var i := 0;
    c := 0;
    AddedStart(x0, b0);
    while i < j
      invariant 0 <= i <= j && |X.p| == |x0| && X.s == old(X.s) && c <= 1
      invariant AddedUpTo(X.p, v0, b0, i, c)
      invariant X.p[i..] == x0[i..]
      invariant X != B ==> B.p == b0
    {
      var tmp := B.p[i];
      assert tmp == b0[i];
      ghost var p0, c0 := X.p, c;
      X.p := X.p[i := WrapAdd(X.p[i], c)];
      c := Bit(X.p[i] < c);
      X.p := X.p[i := WrapAdd(X.p[i], tmp)];
      c := c + Bit(X.p[i] < tmp);
      assert X.p == p0[i := X.p[i]];
      AddedStep(p0, v0, b0, i, c0, X.p[i], c);
      i := i + 1;
    }
    AddedToCarried(X.p, v0, b0, j, c);
  }

  /** The carry loop of the addition; it extends X when the carry leaves the buffer. */
  method CarryOut(X: Mpi, j: nat, carry: Limb, ghost v: nat)
    requires j <= |X.p| && carry <= 1 && CarriedTo(X.p, v, j, carry)
    modifies X
    ensures X.s == old(X.s) && X.Abs() == v && |X.p| >= |old(X.p)|
  {
    hide Value, PowB, CarriedTo;
    var i, c := j, carry;
    while c != 0
      invariant 0 <= i <= |X.p| && c <= 1 && |X.p| >= |old(X.p)| && X.s == old(X.s)
      invariant CarriedTo(X.p, v, i, c)
      decreases |X.p| - i, c
    {
      if i >= |X.p| {
        ghost var p1 := X.p;
        Grow(X, i + 1);
        CarriedGrow(p1, X.p, v, i, c);
      }
      ghost var p0, c0 := X.p, c;
      X.p := X.p[i := WrapAdd(X.p[i], c)];
      c := Bit(X.p[i] < c);
      CarriedStep(p0, v, i, c0, X.p[i], c);
      i := i + 1;
    }
    CarriedDone(X.p, v, i);
  }

  lemma AddedStart(p: seq<Limb>, b: seq<Limb>)
    ensures AddedUpTo(p, Value(p), b, 0, 0)
  {}

  lemma AddedToCarried(p: seq<Limb>, v0: nat, b: seq<Limb>, i: nat, c: nat)
    requires i <= |b| && AddedUpTo(p, v0, b, i, c)
    ensures CarriedTo(p, v0 + Value(b[..i]), i, c)
  {}

  lemma CarriedGrow(p: seq<Limb>, p': seq<Limb>, v: nat, i: nat, c: nat)
    requires CarriedTo(p, v, i, c) && Value(p) == Value(p')
    ensures CarriedTo(p', v, i, c)
  {}

  lemma CarriedDone(p: seq<Limb>, v: nat, i: nat)
    requires CarriedTo(p, v, i, 0)
    ensures Value(p) == v
  {}

  /** Subtracting the i lowest limbs of s from v0 gave p with borrow c. */
  ghost predicate SubtractedUpTo(p: seq<Limb>, v0: nat, s: seq<Limb>, i: nat, c: nat)
    requires i <= |s|
  {
    Value(p) + Value(s[..i]) == v0 + c * PowB(i)
  }

  lemma SubtractedStep(p: seq<Limb>, v0: nat, s: seq<Limb>, i: nat, c: nat, z: Limb, c': nat)
    requires i < |p| && i < |s| && SubtractedUpTo(p, v0, s, i, c)
    requires p[i] + BASE * c' == z + c + s[i]
    ensures SubtractedUpTo(p[i := z], v0, s, i + 1, c')
  {
    hide Value, PowB;
    ValueUpdate(p, i, z);
    ValuePrefixStep(s, i);
    PowBStep(i);
    CarryStep(PowB(i), z, c, s[i], p[i], c');
    assert (z - p[i]) * PowB(i) == -((p[i] - z) * PowB(i)) by { NegProduct(z - p[i], PowB(i)); }
  }

  lemma NegProduct(x: int, w: int)
    ensures x * w == -((-x) * w)
  {}

  /** After the limbs of s, only a borrow of weight i is left to take from p. */
  ghost predicate BorrowedTo(p: seq<Limb>, v: int, i: nat, c: nat)
  {
    Value(p) == v + c * PowB(i)
  }

  lemma BorrowedStep(p: seq<Limb>, v: int, i: nat, c: nat, z: Limb, c': nat)
    requires i < |p| && BorrowedTo(p, v, i, c) && p[i] + BASE * c' == z + c
    ensures BorrowedTo(p[i := z], v, i + 1, c')
  {
    hide Value, PowB;
    ValueUpdate(p, i, z);
    PowBStep(i);
    CarryStep(PowB(i), z, c, 0, p[i], c');
    NegProduct(z - p[i], PowB(i));
  }

  /** A pending borrow lies inside the buffer as long as the result is not negative. */
  lemma BorrowInside(p: seq<Limb>, v: int, i: nat, c: nat)
    requires BorrowedTo(p, v, i, c) && 0 <= v && 1 <= c
    ensures i < |p|
  {
    hide Value, PowB;
    ValueBound(p);
    MulLe(PowB(i), 1, c);
    PowBOrder(i, |p|);
  }

  lemma SubtractedStart(p: seq<Limb>, s: seq<Limb>)
    ensures SubtractedUpTo(p, Value(p), s, 0, 0)
  {}

  lemma SubtractedToBorrowed(p: seq<Limb>, v0: nat, s: seq<Limb>, i: nat, c: nat)
    requires i <= |s| && SubtractedUpTo(p, v0, s, i, c)
    ensures BorrowedTo(p, v0 - Value(s[..i]), i, c)
  {}

  lemma BorrowedDone(p: seq<Limb>, v: int, i: nat)
    requires BorrowedTo(p, v, i, 0)
    ensures Value(p) == v
  {}

  /** Subtract the n lowest limbs of S from D in place  (mpi_sub_hlp).  The borrow loop has no
      bound of its own: it stops inside D because the result is not negative. */
  method SubHlp(n: nat, S: Mpi, D: Mpi)
    requires S != D && n <= |S.p| && n <= |D.p|
    requires Value(S.p[..n]) <= D.Abs()
    modifies D
    ensures D.s == old(D.s) && |D.p| == |old(D.p)|
    ensures D.Abs() == old(D.Abs()) - Value(S.p[..n])
  {
    hide Value, PowB, SubtractedUpTo, BorrowedTo;
    ghost var d0, v0 := D.p, D.Abs();
    var i := 0;
    var c: Limb := 0;
    SubtractedStart(D.p, S.p);
    while i < n
      invariant 0 <= i <= n <= |S.p| && |D.p| == |d0| && D.s == old(D.s)
      invariant c <= 1 && S.p == old(S.p)
      invariant SubtractedUpTo(D.p, v0, S.p, i, c)
    {
      ghost var p0, c0 := D.p, c;
      var z := Bit(D.p[i] < c);
      D.p := D.p[i := WrapSub(D.p[i], c)];
      c := Bit(D.p[i] < S.p[i]) + z;
      D.p := D.p[i := WrapSub(D.p[i], S.p[i])];
      assert D.p == p0[i := D.p[i]];
      SubtractedStep(p0, v0, S.p, i, c0, D.p[i], c);
      i := i + 1;
    }
    SubtractedToBorrowed(D.p, v0, S.p, i, c);
    ghost var v := v0 - Value(S.p[..n]);
    while c != 0
      invariant |D.p| == |d0| && c <= 1 && D.s == old(D.s)
      invariant BorrowedTo(D.p, v, i, c)
      decreases |D.p| - i, c
    {
      BorrowInside(D.p, v, i, c);
      ghost var p0, c0 := D.p, c;
      var z := Bit(D.p[i] < c);
      D.p := D.p[i := WrapSub(D.p[i], c)];
      BorrowedStep(p0, v, i, c0, D.p[i], z);
      c := z;
      i := i + 1;
    }
    BorrowedDone(D.p, v, i);
  }

  /** X = |A| - |B|  (mbedtls_mpi_sub_abs) */
  method SubAbs(X: Mpi, A: Mpi, B: Mpi) returns (ret: Status)
    modifies X
    ensures ret == if old(A.Abs()) < old(B.Abs()) then Err(NegativeValue) else Ok
    ensures ret.Err? ==> X.p == old(X.p) && X.s == old(X.s)
    ensures ret.Ok? ==> X.s == 1 && X.Abs() == old(A.Abs()) - old(B.Abs())
    ensures old(A.p) != [] && old(B.p) != [] ==> |X.p| >= |old(X.p)|
    ensures ret.Ok? && old(A.p) != [] ==> |X.p| >= 1
  {
    hide Value, PowB;
    var cmp := CmpAbs(A, B);
    if cmp < 0 { return Err(NegativeValue); }
    var B' := B;
    if X == B {
      B' := new Mpi();
      Copy(B', B);
    }
    if X != A {
      Copy(X, A);
    }
    X.s := 1;
    var n := UsedLimbs(B');
    assert n <= |X.p| by {
      ValueBound(X.p);
      if n > 0 { PowBOrder(n - 1, |X.p|); }
    }
    SubHlp(n, B', X);
    return Ok;
  }

  /** X = A + B  (mbedtls_mpi_add_mpi) */
  method AddMpi(X: Mpi, A: Mpi, B: Mpi)
    modifies X
    ensures X.Val() == old(A.Val()) + old(B.Val())
    ensures old(A.s) == old(B.s) ==> X.s == old(A.s)
    ensures old(A.p) != [] && old(B.p) != [] ==> |X.p| >= |old(X.p)| && |X.p| >= 1
  {
    var s := A.s;
    if A.s * B.s < 0 {
      var cmp := CmpAbs(A, B);
      if cmp >= 0 {
        var _ := SubAbs(X, A, B);
        X.s := s;
      } else {
        var _ := SubAbs(X, B, A);
        X.s := 0 - s;
      }
    } else {
      AddAbs(X, A, B);
      X.s := s;
    }
  }

  /** X = A - B  (mbedtls_mpi_sub_mpi) */
  method SubMpi(X: Mpi, A: Mpi, B: Mpi)
    modifies X
    ensures X.Val() == old(A.Val()) - old(B.Val())
    ensures old(A.s) != old(B.s) ==> X.s == old(A.s)
    ensures old(A.p) != [] && old(B.p) != [] ==> |X.p| >= |old(X.p)| && |X.p| >= 1
  {
    var s := A.s;
    if A.s * B.s > 0 {
      var cmp := CmpAbs(A, B);
      if cmp >= 0 {
        var _ := SubAbs(X, A, B);
        X.s := s;
      } else {
        var _ := SubAbs(X, B, A);
        X.s := 0 - s;
      }
    } else {
      AddAbs(X, A, B);
      X.s := s;
    }
  }

  /** X = A + b  (mbedtls_mpi_add_int) */
  method AddInt(X: Mpi, A: Mpi, b: Sint)
    modifies X
    ensures X.Val() == old(A.Val()) + b
    ensures old(A.s) == (if b < 0 then -1 else 1) ==> X.s == old(A.s)
    ensures old(A.p) != [] ==> |X.p| >= |old(X.p)| && |X.p| >= 1
  {
    var B := new Mpi.OfInt(b);
    AddMpi(X, A, B);
  }

  /** X = A - b  (mbedtls_mpi_sub_int) */
  method SubInt(X: Mpi, A: Mpi, b: Sint)
    modifies X
    ensures X.Val() == old(A.Val()) - b
    ensures old(A.s) != (if b < 0 then -1 else 1) ==> X.s == old(A.s)
    ensures old(A.p) != [] ==> |X.p| >= |old(X.p)| && |X.p| >= 1
  {
    var B := new Mpi.OfInt(b);
    SubMpi(X, A, B);
  }
}
