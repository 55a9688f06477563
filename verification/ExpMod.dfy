/** Sliding-window modular exponentiation in Montgomery form (HAC 14.85). */
module ExpMod {
  import opened Numbers
  import opened Limbs
  import opened MpiCore
  import opened MpiAdd
  import opened MpiShift
  import opened MpiMod
  import opened Montgomery
  import opened BitReader

  /** x, with room for a Montgomery product, is the Montgomery form of v modulo the number in m. */
  ghost predicate Rep(x: seq<Limb>, v: int, m: seq<Limb>)
  {
    && |x| >= |m| + 1 && Value(x) < Value(m)
    && Cong(Value(x), v * PowB(|m|), Value(m))
  }

  /** The modulus, the word inverse and the scratch buffer belong together. */
  ghost predicate Setup(m: seq<Limb>, mm: Limb, t: seq<Limb>)
  {
    m != [] && Value(m) % 2 == 1 && NegInverse(m[0], mm) && |t| >= 2 * (|m| + 1)
  }

  /** R is invertible: a factor R can be cancelled. */
  lemma CancelR(a: int, b: int, n: nat, nv: int)
    requires nv % 2 == 1 && Cong(a * PowB(n), b * PowB(n), nv)
    ensures Cong(a, b, nv)
  {
    PowBIsPow2(n);
    CongCancelPow2(a, b, n * BIL, nv);
  }

  lemma RepProduct(r: int, x: int, y: int, v: int, w: int, n: nat, nv: int)
    requires nv % 2 == 1 && Cong(r * PowB(n), x * y, nv)
    requires Cong(x, v * PowB(n), nv) && Cong(y, w * PowB(n), nv)
    ensures Cong(r, v * w * PowB(n), nv)
  {
    hide Cong, PowB;
    var p := PowB(n);
    CongMul(x, v * p, y, w * p, nv);
    assert (v * p) * (w * p) == (v * w * p) * p;
    CongTrans(r * p, x * y, (v * w * p) * p, nv);
    CancelR(r, v * w * p, n, nv);
  }

  /** X = X * Y on the numbers represented. */
  method MulRep(X: Mpi, Y: Mpi, N: Mpi, mm: Limb, T: Mpi, ghost v: int, ghost w: int)
    requires X != N && X != T && Y != T && N != T
    requires Setup(N.p, mm, T.p) && Rep(X.p, v, N.p) && Rep(Y.p, w, N.p)
    modifies X, T
    ensures Setup(N.p, mm, T.p) && Rep(X.p, v * w, N.p) && X.s == old(X.s)
  {
    hide Value, PowB, Cong, NegInverse;
    ghost var x, y := X.Abs(), Y.Abs();
    var _ := MontMul(X, Y, N, mm, T);
    RepProduct(X.Abs(), x, y, v, w, |N.p|, N.Abs());
  }

  /** Leaving Montgomery form gives the number represented, reduced. */
  method FromRep(X: Mpi, N: Mpi, mm: Limb, T: Mpi, ghost v: int)
    requires X != N && X != T && N != T
    requires Setup(N.p, mm, T.p) && Rep(X.p, v, N.p)
    modifies X, T
    ensures X.Abs() == v % N.Abs() && X.s == old(X.s)
  {
    hide Value, PowB, Cong, NegInverse;
    ghost var x := X.Abs();
    var _ := MontRed(X, N, mm, T);
    CongTrans(X.Abs() * PowB(|N.p|), x, v * PowB(|N.p|), N.Abs());
    CancelR(X.Abs(), v, |N.p|, N.Abs());
    ReducedCong(X.Abs(), v, N.Abs());
  }

  lemma ReducedCong(x: int, v: int, nv: int)
    requires 0 <= x < nv && Cong(x, v, nv)
    ensures x == v % nv
  {
    hide Cong;
    CongMod(v, nv);
    CongSym(v % nv, v, nv);
    CongTrans(x, v, v % nv, nv);
    CongUnique(x, v % nv, nv);
  }

  /** RR = R^2 mod N, computed or taken from the caller's cache. */
  method LoadRR(cache: Mpi?, N: Mpi) returns (RR: Mpi)
    requires N.p != [] && N.Val() == N.Abs() > 0 && cache != N
    requires cache != null && cache.p != [] ==> cache.s == 1 && cache.Val() == PowB(2 * |N.p|) % N.Abs()
    modifies cache
    ensures fresh(RR) && RR.p != [] && RR.s == 1 && RR.Val() == PowB(2 * |N.p|) % N.Abs()
    ensures cache != null ==> cache.p != [] && cache.s == 1 && cache.Val() == RR.Val()
  {
    hide Value, PowB, Pow2;
    RR := new Mpi();
    if cache == null || cache.p == [] {
      Lset(RR, 1);
      ShiftL(RR, |N.p| * 2 * BIL);
      PowBIsPow2(2 * |N.p|);
      var _ := ModMpi(RR, RR, N);
      if cache != null { cache.s, cache.p := RR.s, RR.p; }
    } else {
      RR.s, RR.p := cache.s, cache.p;
    }
  }

  lemma SquareOfR(rr: int, n: nat, nv: int)
    requires 0 < nv && rr == PowB(2 * n) % nv
    ensures Cong(rr, PowB(n) * PowB(n), nv)
  {
    hide PowB, Cong;
    PowBAdd(n, n);
    CongMod(PowB(2 * n), nv);
  }

  /** W[1] = A * R^2 * R^-1 mod N: the base enters Montgomery form, reduced first if needed. */
  method EnterRep(W: Mpi, A: Mpi, RR: Mpi, N: Mpi, mm: Limb, T: Mpi)
    requires W != N && W != T && W != A && W != RR && RR != T && N != T && A != T
    requires Setup(N.p, mm, T.p) && N.Val() == N.Abs() > 0 && A.p != [] && A.Val() == A.Abs()
    requires |W.p| == |N.p| + 1 && RR.p != [] && RR.Val() == PowB(2 * |N.p|) % N.Abs()
    modifies W, T
    ensures Setup(N.p, mm, T.p) && Rep(W.p, A.Val(), N.p)
  {
    hide Value, PowB, Cong, NegInverse;
    ghost var a, nv, p := A.Val(), N.Abs(), PowB(|N.p|);
    var cmp := CmpMpi(A, N);
    if cmp >= 0 {
      var _ := ModMpi(W, A, N);
      CongMod(a, nv);
    } else {
      Copy(W, A);
      CongRefl(a, nv);
    }
    ghost var w := W.Abs();
    SquareOfR(RR.Val(), |N.p|, nv);
    var _ := MontMul(W, RR, N, mm, T);
    CongMul(w, a, RR.Abs(), p * p, nv);
    MulAssoc(a, p, p);
    CongTrans(W.Abs() * p, w * RR.Abs(), (a * p) * p, nv);
    CancelR(W.Abs(), a * p, |N.p|, nv);
  }

  /** X = R^2 * R^-1 mod N: the Montgomery form of one. */
  method SetOne(X: Mpi, RR: Mpi, N: Mpi, mm: Limb, T: Mpi)
    requires X != N && X != T && X != RR && RR != T && N != T
    requires Setup(N.p, mm, T.p) && N.Val() == N.Abs() > 0
    requires |X.p| >= |N.p| + 1 && RR.p != [] && RR.Val() == PowB(2 * |N.p|) % N.Abs()
    modifies X, T
    ensures Setup(N.p, mm, T.p) && Rep(X.p, 1, N.p) && X.s == RR.s
  {
    hide Value, PowB, Cong, NegInverse;
    ghost var nv, p := N.Abs(), PowB(|N.p|);
    SquareOfR(RR.Val(), |N.p|, nv);
    Copy(X, RR);
    var _ := MontRed(X, N, mm, T);
    CongTrans(X.Abs() * p, RR.Abs(), p * p, nv);
    CancelR(X.Abs(), p, |N.p|, nv);
  }

  // ----- the window table -----

  /** Entries lo .. hi - 1 hold the powers of the base with those exponents. */
  ghost predicate Loaded(W: seq<Mpi>, lo: nat, hi: nat, a: int, m: seq<Limb>)
    reads W
  {
    hi <= |W| && forall i :: lo <= i < hi ==> Rep(W[i].p, Pow(a, i), m)
  }

  lemma LoadedEntry(W: seq<Mpi>, lo: nat, hi: nat, a: int, m: seq<Limb>, i: nat)
    requires Loaded(W, lo, hi, a, m) && lo <= i < hi
    ensures i < |W| && Rep(W[i].p, Pow(a, i), m) && W[i] in W
  {}

  ghost predicate Distinct(W: seq<Mpi>)
  {
    forall i, j :: 0 <= i < j < |W| ==> W[i] != W[j]
  }

  method NewTable(n: nat) returns (W: seq<Mpi>)
    ensures |W| == n && Distinct(W) && forall i :: 0 <= i < n ==> fresh(W[i]) && W[i].p == []
  {
    W := [];
    while |W| < n
      invariant |W| <= n && Distinct(W) && forall i :: 0 <= i < |W| ==> fresh(W[i]) && W[i].p == []
    {
      var w := new Mpi();
      W := W + [w];
    }
  }

  /** W[j] = W[1]^j for j = 2^(wsize - 1), by repeated squaring. */
  method SquareUp(W: seq<Mpi>, wsize: nat, N: Mpi, mm: Limb, T: Mpi, ghost a: int)
    requires 1 < wsize && Pow2(wsize - 1) < |W| && 1 < Pow2(wsize - 1)
    requires Distinct(W) && N !in W && T !in W && N != T
    requires Setup(N.p, mm, T.p) && Loaded(W, 1, 2, a, N.p)
    modifies W[Pow2(wsize - 1)], T
    ensures Setup(N.p, mm, T.p) && Loaded(W, Pow2(wsize - 1), Pow2(wsize - 1) + 1, a, N.p)
  {
    hide Rep, Setup;
    var j := Pow2(wsize - 1);
    StartPower(W[j], W[1], N, Pow(a, 1));
    var i := 0;
    while i < wsize - 1
      invariant 0 <= i <= wsize - 1
      invariant Setup(N.p, mm, T.p) && Rep(W[j].p, Pow(a, Pow2(i)), N.p)
    {
      PowAdd(a, Pow2(i), Pow2(i));
      Pow2Step(i);
      MulRep(W[j], W[j], N, mm, T, Pow(a, Pow2(i)), Pow(a, Pow2(i)));
      i := i + 1;
    }
  }

  /** A table entry gets room for a Montgomery product, and the value of the entry it is computed from. */
  method StartPower(D: Mpi, S: Mpi, N: Mpi, ghost v: int)
    requires D != S && D != N && Rep(S.p, v, N.p)
    modifies D
    ensures Rep(D.p, v, N.p)
  {
    hide Value, PowB, Cong;
    Grow(D, |N.p| + 1);
    Copy(D, S);
  }

  /** The table: W[1] and the upper half 2^(wsize - 1) .. 2^wsize - 1, nothing else. */
  method FillTable(W: seq<Mpi>, wsize: nat, N: Mpi, mm: Limb, T: Mpi, ghost a: int)
    requires 1 <= wsize && Pow2(wsize) <= |W|
    requires Distinct(W) && N !in W && T !in W && N != T
    requires Setup(N.p, mm, T.p) && Loaded(W, 1, 2, a, N.p)
    modifies W, T
    ensures Setup(N.p, mm, T.p) && Loaded(W, 1, 2, a, N.p)
    ensures Loaded(W, Pow2(wsize - 1), Pow2(wsize), a, N.p)
  {
    hide Rep, Setup, Pow, Pow2;
    Pow2Step(wsize - 1);
    if wsize > 1 {
      Pow2Step(wsize - 2);
      SquareUp(W, wsize, N, mm, T, a);
      var j := Pow2(wsize - 1);
      var i := j + 1;
      while i < Pow2(wsize)
        invariant j + 1 <= i <= Pow2(wsize)
        invariant Setup(N.p, mm, T.p) && Loaded(W, 1, 2, a, N.p) && Loaded(W, j, i, a, N.p)
      {
        StartPower(W[i], W[i - 1], N, Pow(a, i - 1));
        PowAdd(a, i - 1, 1);
        MulRep(W[i], W[1], N, mm, T, Pow(a, i - 1), Pow(a, 1));
        i := i + 1;
      }
    }
  }

  // ----- scanning the exponent -----

  datatype WindowState = Leading | Outside | Inside

  /** X holds the power for the bits before the window; win is the window's bits so far, kept
      left-aligned in wbits. */
  ghost predicate Window(pre: nat, done: nat, win: nat, nbits: nat, wbits: nat, wsize: nat, state: WindowState)
  {
    && nbits <= wsize
    && pre == done * Pow2(nbits) + win && win < Pow2(nbits)
    && wbits == win * Pow2(wsize - nbits)
    && (state == Leading ==> done == 0 && nbits == 0)
    && (state == Outside ==> nbits == 0)
    && (state == Inside ==> 1 <= nbits && Pow2(nbits - 1) <= win)
  }

  lemma WindowSkip(done: nat, wbits: nat, wsize: nat, pre: nat, win: nat)
    requires Window(pre, done, win, 0, wbits, wsize, Leading)
    ensures Window(2 * pre, 0, 0, 0, 0, wsize, Leading) && wbits == 0 && done == 0
  {}

  lemma WindowSquare(pre: nat, done: nat, win: nat, wbits: nat, wsize: nat)
    requires Window(pre, done, win, 0, wbits, wsize, Outside)
    ensures Window(2 * pre, 2 * done, 0, 0, 0, wsize, Outside) && wbits == 0
  {}

  lemma WindowExtend(pre: nat, done: nat, win: nat, nbits: nat, wbits: nat, wsize: nat, state: WindowState, b: nat)
    requires Window(pre, done, win, nbits, wbits, wsize, state) && nbits < wsize && b <= 1
    requires state != Inside ==> b == 1
    ensures BitOr(wbits, b * Pow2(wsize - nbits - 1)) == (2 * win + b) * Pow2(wsize - nbits - 1)
    ensures Window(2 * pre + b, done, 2 * win + b, nbits + 1, (2 * win + b) * Pow2(wsize - nbits - 1), wsize, Inside)
  {
    hide Pow2, BitOr;
    var k := wsize - nbits - 1;
    Pow2Step(k);
    Pow2Step(nbits);
    if nbits > 0 { Pow2Step(nbits - 1); }
    BitOrDisjoint(win, b * Pow2(k), k + 1) by {
      if b == 1 { assert b * Pow2(k) == Pow2(k); } else { assert b * Pow2(k) == 0; }
    }
    assert win * (2 * Pow2(k)) + b * Pow2(k) == (2 * win + b) * Pow2(k);
    assert 2 * (done * Pow2(nbits)) == done * (2 * Pow2(nbits));
  }

  lemma WindowFull(pre: nat, done: nat, win: nat, wbits: nat, wsize: nat)
    requires 1 <= wsize && Window(pre, done, win, wsize, wbits, wsize, Inside)
    ensures wbits == win && Pow2(wsize - 1) <= wbits < Pow2(wsize) && pre == done * Pow2(wsize) + wbits
    ensures Window(pre, pre, 0, 0, 0, wsize, Outside)
  {
    assert Pow2(0) == 1;
  }

  /** X = X^(2^k) */
  method SquareTimes(X: Mpi, k: nat, N: Mpi, mm: Limb, T: Mpi, ghost a: int, ghost e: nat)
    requires X != N && X != T && N != T
    requires Setup(N.p, mm, T.p) && Rep(X.p, Pow(a, e), N.p)
    modifies X, T
    ensures Setup(N.p, mm, T.p) && Rep(X.p, Pow(a, e * Pow2(k)), N.p) && X.s == old(X.s)
  {
    hide Rep, Setup, Pow2, Pow;
    var i := 0;
    while i < k
      invariant 0 <= i <= k && X.s == old(X.s)
      invariant Setup(N.p, mm, T.p) && Rep(X.p, Pow(a, e * Pow2(i)), N.p)
    {
      SquareRep(X, N, mm, T, a, e * Pow2(i));
      Pow2Step(i);
      assert 2 * (e * Pow2(i)) == e * (2 * Pow2(i));
      i := i + 1;
    }
  }

  /** X = X^2 */
  method SquareRep(X: Mpi, N: Mpi, mm: Limb, T: Mpi, ghost a: int, ghost e: nat)
    requires X != N && X != T && N != T
    requires Setup(N.p, mm, T.p) && Rep(X.p, Pow(a, e), N.p)
    modifies X, T
    ensures Setup(N.p, mm, T.p) && Rep(X.p, Pow(a, 2 * e), N.p) && X.s == old(X.s)
  {
    hide Rep, Setup;
    MulRep(X, X, N, mm, T, Pow(a, e), Pow(a, e));
    PowAdd(a, e, e);
  }

  /** X = X * a^f */
  method TimesRep(X: Mpi, F: Mpi, N: Mpi, mm: Limb, T: Mpi, ghost a: int, ghost e: nat, ghost f: nat)
    requires X != N && X != T && F != T && N != T
    requires Setup(N.p, mm, T.p) && Rep(X.p, Pow(a, e), N.p) && Rep(F.p, Pow(a, f), N.p)
    modifies X, T
    ensures Setup(N.p, mm, T.p) && Rep(X.p, Pow(a, e + f), N.p) && X.s == old(X.s)
  {
    hide Rep, Setup;
    MulRep(X, F, N, mm, T, Pow(a, e), Pow(a, f));
    PowAdd(a, e, f);
  }

  /** The main loop over the bits of E.  It leaves the last, possibly partial window pending. */
  method ScanExponent(X: Mpi, E: Mpi, W: seq<Mpi>, wsize: nat, N: Mpi, mm: Limb, T: Mpi, ghost a: int)
    returns (nbits: nat, wbits: nat, ghost done: nat, ghost win: nat, ghost state: WindowState)
    requires X != N && X != T && N != T && X != E && E != T && X !in W && T !in W
    requires 1 <= wsize && Setup(N.p, mm, T.p) && Rep(X.p, 1, N.p)
    requires Loaded(W, Pow2(wsize - 1), Pow2(wsize), a, N.p)
    modifies X, T
    ensures Setup(N.p, mm, T.p) && Rep(X.p, Pow(a, done), N.p) && X.s == old(X.s)
    ensures Window(E.Abs(), done, win, nbits, wbits, wsize, state) && nbits < wsize
  {
    hide Rep, Setup, Pow2, Pow, Value, Consumed, Window, BitOr, Loaded;
    PowOne(a);
    var nblimbs: nat := |E.p|;
    var bufsize: nat := 0;
    nbits, wbits := 0, 0;
    var st := Leading;
    ghost var pre: nat := 0;
    done, win := 0, 0;
    ConsumedNothing(E.p);
    WindowStart(wsize);
    while true
      invariant nblimbs <= |E.p| && bufsize <= BIL && (bufsize > 0 ==> nblimbs < |E.p|)
      invariant nbits < wsize && X.s == old(X.s) && (nbits > 0 <==> st == Inside)
      invariant Consumed(E.p, nblimbs, bufsize, pre)
      invariant Window(pre, done, win, nbits, wbits, wsize, st)
      invariant Setup(N.p, mm, T.p) && Rep(X.p, Pow(a, done), N.p)
      invariant Loaded(W, Pow2(wsize - 1), Pow2(wsize), a, N.p)
      decreases nblimbs, bufsize
    {
      if bufsize == 0 {
        if nblimbs == 0 { break; }
        ConsumedRefill(E.p, nblimbs, pre);
        nblimbs := nblimbs - 1;
        bufsize := BIL;
      }
      bufsize := bufsize - 1;
      var ei := E.p[nblimbs] / Pow2(bufsize) % 2;
      Pow2Step(0);
      ConsumedBits(E.p, nblimbs, bufsize + 1, 1, pre, ei);
      if ei == 0 && st == Leading {
        WindowSkip(done, wbits, wsize, pre, win);
        pre, done, win := 2 * pre, 0, 0;
        continue;
      }
      if ei == 0 && st == Outside {
        WindowSquare(pre, done, win, wbits, wsize);
        SquareRep(X, N, mm, T, a, done);
        pre, done, win := 2 * pre, 2 * done, 0;
        continue;
      }
      WindowExtend(pre, done, win, nbits, wbits, wsize, st, ei);
      st := Inside;
      nbits := nbits + 1;
      wbits := BitOr(wbits, ei * Pow2(wsize - nbits));
      pre, win := 2 * pre + ei, 2 * win + ei;
      if nbits == wsize {
        WindowFull(pre, done, win, wbits, wsize);
        LoadedEntry(W, Pow2(wsize - 1), Pow2(wsize), a, N.p, wbits);
        SquareTimes(X, wsize, N, mm, T, a, done);
        TimesRep(X, W[wbits], N, mm, T, a, done * Pow2(wsize), wbits);
        done, win := pre, 0;
        st, nbits, wbits := Outside, 0, 0;
      }
    }
    ConsumedAll(E.p, pre);
    state := st;
  }

  lemma WindowStart(wsize: nat)
    ensures Window(0, 0, 0, 0, 0, wsize, Leading)
  {}

  /** The remaining bits, one at a time, with W[1] only. */
  method FlushWindow(X: Mpi, W1: Mpi, nbits: nat, wbits0: nat, wsize: nat, N: Mpi, mm: Limb, T: Mpi,
                     ghost a: int, ghost pre: nat, ghost done: nat, ghost win: nat, ghost state: WindowState)
    requires X != N && X != T && N != T && X != W1 && W1 != T
    requires Setup(N.p, mm, T.p) && Rep(X.p, Pow(a, done), N.p) && Rep(W1.p, Pow(a, 1), N.p)
    requires Window(pre, done, win, nbits, wbits0, wsize, state)
    modifies X, T
    ensures Setup(N.p, mm, T.p) && Rep(X.p, Pow(a, pre), N.p) && X.s == old(X.s)
  {
    hide Rep, Setup, Pow2, Pow, HasBit, Flushed;
    var i := 0;
    var wbits := wbits0;
    ghost var e := done;
    FlushStart(pre, done, win, nbits, wbits0, wsize, state);
    while i < nbits
      invariant 0 <= i <= nbits && X.s == old(X.s)
      invariant Flushed(i, wbits, e, done, win, nbits, wsize)
      invariant Setup(N.p, mm, T.p) && Rep(X.p, Pow(a, e), N.p) && Rep(W1.p, Pow(a, 1), N.p)
    {
      SquareRep(X, N, mm, T, a, e);
      FlushStep(i, wbits, e, done, win, nbits, wsize);
      wbits, e := wbits * 2, 2 * e;
      if HasBit(wbits, Pow2(wsize)) {
        TimesRep(X, W1, N, mm, T, a, e, 1);
        e := e + 1;
      }
      i := i + 1;
    }
    FlushEnd(wbits, e, pre, done, win, nbits, wbits0, wsize, state);
  }

  /** The i top bits of the window are in the exponent e; wbits has the rest above bit wsize - 1. */
  ghost predicate Flushed(i: nat, wbits: nat, e: nat, done: nat, win: nat, nbits: nat, wsize: nat)
  {
    i <= nbits <= wsize && wbits == win * Pow2(wsize - nbits + i) && e == done * Pow2(i) + win / Pow2(nbits - i)
  }

  lemma FlushStart(pre: nat, done: nat, win: nat, nbits: nat, wbits: nat, wsize: nat, state: WindowState)
    requires Window(pre, done, win, nbits, wbits, wsize, state)
    ensures Flushed(0, wbits, done, done, win, nbits, wsize)
  {
    hide Pow2;
    DivModUnique(win, Pow2(nbits), 0, win);
  }

  lemma FlushStep(i: nat, wbits: nat, e: nat, done: nat, win: nat, nbits: nat, wsize: nat)
    requires Flushed(i, wbits, e, done, win, nbits, wsize) && i < nbits
    ensures Flushed(i + 1, wbits * 2, 2 * e + (if HasBit(wbits * 2, Pow2(wsize)) then 1 else 0),
                    done, win, nbits, wsize)
  {
    hide Pow2, HasBit;
    var q := win / Pow2(nbits - i);
    Pow2Step(i);
    Pow2Step(wsize - nbits + i);
    FlushBit(win, wsize, nbits, i);
    assert wbits * 2 == win * Pow2(wsize - nbits + i + 1);
    assert 2 * (done * Pow2(i) + q) == done * Pow2(i + 1) + 2 * q;
  }

  lemma FlushEnd(wbits: nat, e: nat, pre: nat, done: nat, win: nat, nbits: nat, wbits0: nat, wsize: nat,
                 state: WindowState)
    requires Flushed(nbits, wbits, e, done, win, nbits, wsize)
    requires Window(pre, done, win, nbits, wbits0, wsize, state)
    ensures e == pre
  {
    hide Pow2;
    DivModUnique(win, 1, win, 0);
  }

  /** Bit wsize of the shifted window is the next bit of win. */
  lemma FlushBit(win: nat, wsize: nat, nbits: nat, i: nat)
    requires i < nbits <= wsize
    ensures win / Pow2(nbits - i - 1) == 2 * (win / Pow2(nbits - i)) +
              (if HasBit(win * Pow2(wsize - nbits + i + 1), Pow2(wsize)) then 1 else 0)
  {
    hide Pow2;
    var c, d := wsize - nbits + i + 1, nbits - i - 1;
    Pow2Add(c, d);
    Pow2Step(d);
    ScaledQuotient(win, Pow2(d), Pow2(c));
    var q := win / Pow2(d);
    DivDiv(win, Pow2(d), 2);
    assert q == 2 * (q / 2) + q % 2;
  }

  lemma ScaledQuotient(w: nat, d: nat, c: nat)
    requires 0 < d && 0 < c
    ensures 0 < c * d && (w * c) / (c * d) == w / d
  {
    DivModIdentity(w, d);
    MulLt(c, 0, d);
    MulLt(c, w % d, d);
    assert w * c == (w / d) * (c * d) + (w % d) * c;
    DivModUnique(w * c, c * d, w / d, (w % d) * c);
  }

  // ----- the routine -----

  /** The window size for the exponent's bit length, capped by the configuration. */
  method WindowSize(E: Mpi, windowMax: nat) returns (wsize: nat)
    requires 1 <= windowMax
    ensures 1 <= wsize <= windowMax
  {
    var i := BitLen(E);
    wsize := if i > 671 then 6 else if i > 239 then 5 else if i > 79 then 4 else if i > 23 then 3 else 1;
    if wsize > windowMax { wsize := windowMax; }
  }

  /** Grow the destination, the first window entry and the scratch buffer, and drop A's sign. */
  method Prepare(X: Mpi, A: Mpi, N: Mpi, windowMax: nat) returns (W: seq<Mpi>, T: Mpi, Apos: Mpi, neg: bool)
    requires X != N && A.p != []
    modifies X
    ensures |X.p| >= |N.p| + 1
    ensures |W| == 2 * Pow2(windowMax) && Distinct(W) && forall i :: 0 <= i < |W| ==> fresh(W[i])
    ensures |W[1].p| == |N.p| + 1
    ensures fresh(T) && T !in W && |T.p| == 2 * (|N.p| + 1)
    ensures Apos !in W && Apos != T && Apos.p != [] && Apos.Val() == Apos.Abs() == old(A.Abs())
    ensures Apos == A || fresh(Apos)
    ensures neg == (old(A.s) == -1)
  {
    hide Value, Pow2;
    Grow(X, |N.p| + 1);
    W := NewTable(2 * Pow2(windowMax));
    Grow(W[1], |N.p| + 1);
    T := new Mpi();
    Grow(T, (|N.p| + 1) * 2);
    neg := A.s == -1;
    Apos := A;
    if neg {
      Apos := new Mpi();
      Copy(Apos, A);
      Apos.s := 1;
    }
  }

  /** What the routine returns: A^E reduced, except that for negative A and odd E the value
      N - |A|^E mod N is not reduced again. */
  function PowMod(neg: bool, a: nat, e: nat, n: nat): (r: int)
    requires 0 < n
  {
    if neg && e % 2 == 1 then n - Pow(a, e) % n else Pow(a, e) % n
  }

  /** The result is always congruent to A^E and never above N. */
  lemma PowModCongruent(neg: bool, a: nat, e: nat, n: nat)
    requires 0 < n
    ensures Cong(PowMod(neg, a, e, n), Pow(if neg then 0 - a else a, e), n)
    ensures 0 <= PowMod(neg, a, e, n) <= n
  {
    hide Pow;
    var p := Pow(a, e);
    CongMod(p, n);
    PowNegate(a, e);
    if neg && e % 2 == 1 {
      CongNeg(p % n, p, n);
      CongIntro(n, 0, n, 1);
      CongAdd(n, 0, 0 - p % n, 0 - p, n);
    }
  }

  /** It is reduced below N unless A is negative, E is odd and A absorbs N in E steps: a caller can
      test that before the call with gcds of numbers that shrink, without exponentiation. */
  lemma PowModReducedIff(neg: bool, a: nat, e: nat, n: nat)
    requires 0 < n
    ensures PowMod(neg, a, e, n) < n <==> !(neg && e % 2 == 1 && Absorbed(a, e, n))
  {
    hide Pow, Absorbed, Divides;
    DivModIdentity(Pow(a, e), n);
    AbsorbedIff(a, e, n);
    DividesIsZeroRemainder(n, Pow(a, e));
  }

  /** So it is always reduced when A and N are coprime and N is not 1. */
  lemma PowModReducedIfCoprime(neg: bool, a: nat, e: nat, n: nat)
    requires 1 < n && Gcd(a, n) == 1
    ensures 0 <= PowMod(neg, a, e, n) < n
  {
    PowModReducedIff(neg, a, e, n);
    PowModCongruent(neg, a, e, n);
  }

  /** For instance (-3)^1 mod 3 comes out as 3. */
  lemma PowModNotReduced()
    ensures PowMod(true, 3, 1, 3) == 3
  {}

  /** X = A^E mod N  (mbedtls_mpi_exp_mod).  windowMax is the configured MBEDTLS_MPI_WINDOW_SIZE;
      cache is the optional _RR. */
  method ExpMod(X: Mpi, A: Mpi, E: Mpi, N: Mpi, cache: Mpi?, windowMax: nat) returns (ret: Status)
    requires X != E && X != N && A.p != [] && 1 <= windowMax
    requires cache != X && cache != A && cache != E && cache != N
    requires cache != null && cache.p != [] && N.p != [] && N.Val() > 0 ==>
               cache.s == 1 && cache.Val() == PowB(2 * |N.p|) % N.Abs()
    modifies X, cache
    ensures ret == if N.Val() <= 0 || N.Val() % 2 == 0 || E.Val() < 0 then Err(BadInputData) else Ok
    ensures ret.Err? ==> X.p == old(X.p) && X.s == old(X.s)
    ensures ret.Ok? ==> X.Val() == PowMod(old(A.s) == -1, old(A.Abs()), E.Abs(), N.Abs())
  {
    hide Value, PowB, Pow2, Pow, Cong;
    ghost var a := A.Abs();
    var cmp := CmpInt(N, 0);
    if cmp <= 0 { return Err(BadInputData); }
    ValueParity(N.p);
    if N.p[0] % 2 == 0 { return Err(BadInputData); }
    cmp := CmpInt(E, 0);
    if cmp < 0 { return Err(BadInputData); }
    var neg := ExpAbs(X, A, E, N, cache, windowMax);
    if E.p != [] { ValueParity(E.p); }
    DivModIdentity(Pow(a, E.Abs()), N.Abs());
    if neg && |E.p| != 0 && E.p[0] % 2 != 0 {
      X.s := -1;
      AddMpi(X, N, X);
    }
    return Ok;
  }

  lemma PowOne(a: int)
    ensures Pow(a, 1) == a && Pow(a, 0) == 1
  {}

  /** X = |A|^E mod N for a valid modulus and exponent: everything but the sign correction. */
  method ExpAbs(X: Mpi, A: Mpi, E: Mpi, N: Mpi, cache: Mpi?, windowMax: nat) returns (neg: bool)
    requires X != E && X != N && A.p != [] && 1 <= windowMax
    requires cache != X && cache != A && cache != E && cache != N
    requires N.p != [] && N.p[0] % 2 == 1 && N.Val() == N.Abs() > 0
    requires cache != null && cache.p != [] ==> cache.s == 1 && cache.Val() == PowB(2 * |N.p|) % N.Abs()
    modifies X, cache
    ensures neg == (old(A.s) == -1)
    ensures X.s == 1 && X.Abs() == Pow(old(A.Abs()), E.Abs()) % N.Abs()
  {
    hide Value, PowB, Pow2, Pow, Cong, NegInverse, Rep, Window;
    ghost var a := A.Abs();
    ValueParity(N.p);
    var mm := MontgInit(N);
    var wsize := WindowSize(E, windowMax);
    Pow2Monotone(wsize, windowMax);
    var W, T, Apos;
    W, T, Apos, neg := Prepare(X, A, N, windowMax);
    var RR := LoadRR(cache, N);
    EnterRep(W[1], Apos, RR, N, mm, T);
    PowOne(a);
    SetOne(X, RR, N, mm, T);
    FillTable(W, wsize, N, mm, T, a);
    ghost var done, win, st;
    var nbits, wbits;
    nbits, wbits, done, win, st := ScanExponent(X, E, W, wsize, N, mm, T, a);
    FlushWindow(X, W[1], nbits, wbits, wsize, N, mm, T, a, E.Abs(), done, win, st);
    FromRep(X, N, mm, T, Pow(a, E.Abs()));
  }
}
