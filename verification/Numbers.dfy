/** Integer facts the multi-precision routines rest on: powers of two, congruences,
    divisibility and the greatest common divisor.  Everything here is about mathematical
    integers; no machine width appears. */
module Numbers {

  // ----- small steps of nonlinear arithmetic -----

  lemma MulLe(a: int, x: int, y: int)
    requires 0 <= a && x <= y
    ensures a * x <= a * y
  {}

  lemma MulLt(a: int, x: int, y: int)
    requires 0 < a && x < y
    ensures a * x < a * y
  {}

  /** A multiplier can be cancelled from a strict inequality. */
  lemma MulLtCancel(a: int, x: int, y: int)
    requires 0 <= a && a * x < a * y
    ensures x < y
  {
    if y <= x { MulLe(a, y, x); }
  }

  lemma MulEqCancel(a: int, x: int, y: int)
    requires a != 0 && a * x == a * y
    ensures x == y
  {
    if x < y { if a > 0 { MulLt(a, x, y); } else { MulLt(-a, x, y); } }
    if y < x { if a > 0 { MulLt(a, y, x); } else { MulLt(-a, y, x); } }
  }

  lemma MulAssoc(a: int, b: int, c: int)
    ensures (a * b) * c == a * (b * c)
  {}

  lemma MulSwap(a: int, b: int, c: int)
    ensures (a * b) * c == b * (a * c)
  {}

  lemma MulDistrib(a: int, x: int, y: int)
    ensures a * (x + y) == a * x + a * y
    ensures a * (x - y) == a * x - a * y
  {}

  /** A two-digit number with digits b < v and x < u stays below v * u. */
  lemma TwoDigits(b: int, x: int, u: int, v: int)
    requires 0 <= b < v && 0 <= x < u
    ensures 0 <= b * u + x < v * u
  {
    MulLe(u, b + 1, v);
  }

  /** The leading digit of a number below v * u is below v. */
  lemma LeadingDigit(x: nat, v: nat, u: nat)
    requires 0 < u && x < v * u
    ensures 0 <= x / u < v
  {
    if x / u >= v { MulLe(u, v, x / u); }
  }

  /** Division with remainder is unique. */
  lemma DivModUnique(a: int, d: int, q: int, r: int)
    requires 0 < d && a == q * d + r && 0 <= r < d
    ensures a / d == q && a % d == r
  {
    var q', r' := a / d, a % d;
    assert d * (q - q') == r' - r;
    if q - q' >= 1 { MulLe(d, 1, q - q'); }
    if q - q' <= -1 { MulLe(d, q - q', -1); }
  }

  lemma DivModIdentity(x: int, d: int)
    requires 0 < d
    ensures x == (x / d) * d + x % d && 0 <= x % d < d
  {}

  lemma DivLe(x: nat, d: nat)
    requires 0 < d
    ensures 0 <= x / d <= x
  {
    DivModIdentity(x, d);
    if x / d > x { MulLe(x / d, 1, d); }
  }

  lemma ModOfMultiple(k: int, d: int)
    requires 0 < d
    ensures (k * d) % d == 0 && (k * d) / d == k
  {
    DivModUnique(k * d, d, k, 0);
  }

  lemma DivDiv(a: nat, b: nat, c: nat)
    requires 0 < b && 0 < c
    ensures b * c > 0 && a / (b * c) == a / b / c
  {
    var q, r := a / b, a % b;
    var q2, r2 := q / c, q % c;
    MulLe(b, 1, c);
    assert a == (q2 * c + r2) * b + r;
    assert (q2 * c + r2) * b == q2 * (b * c) + r2 * b;
    assert 0 <= r2 * b;
    assert r2 * b + r < b * c by { MulLe(b, r2 + 1, c); }
    DivModUnique(a, b * c, q2, r2 * b + r);
  }

  lemma Parity(x: int, y: int)
    ensures (x * y) % 2 == (x % 2) * (y % 2)
  {
    var u, v, i, j := x / 2, y / 2, x % 2, y % 2;
    calc {
      x * y;
      (2 * u + i) * (2 * v + j);
      2 * (2 * (u * v) + u * j + v * i) + i * j;
    }
    DivModUnique(x * y, 2, 2 * (u * v) + u * j + v * i, i * j);
  }

  // ----- powers -----

  function Pow2(k: nat): (r: nat)
    ensures 1 <= r && (k == 0 ==> r == 1)
  {
    if k == 0 then 1 else 2 * Pow2(k - 1)
  }

  lemma Pow2Step(k: nat)
    ensures Pow2(k + 1) == 2 * Pow2(k)
  {}

  lemma {:induction false} Pow2Add(a: nat, b: nat)
    ensures Pow2(a + b) == Pow2(a) * Pow2(b)
  {
    if a == 0 {
    } else {
      Pow2Add(a - 1, b);
      MulAssoc(2, Pow2(a - 1), Pow2(b));
    }
  }

  lemma {:induction false} Pow2Monotone(a: nat, b: nat)
    requires a <= b
    ensures Pow2(a) <= Pow2(b)
  {
    if a < b { Pow2Monotone(a, b - 1); }
  }

  function Pow(a: int, e: nat): (r: int)
  {
    if e == 0 then 1 else a * Pow(a, e - 1)
  }

  lemma {:induction false} PowAdd(a: int, e: nat, f: nat)
    ensures Pow(a, e + f) == Pow(a, e) * Pow(a, f)
  {
    if e == 0 {
    } else {
      PowAdd(a, e - 1, f);
      assert Pow(a, e) * Pow(a, f) == a * (Pow(a, e - 1) * Pow(a, f));
    }
  }

  lemma {:induction false} PowNegate(a: int, e: nat)
    ensures Pow(-a, e) == if e % 2 == 0 then Pow(a, e) else -Pow(a, e)
  {
    if e == 0 {
    } else {
      PowNegate(a, e - 1);
      assert (-a) * Pow(-a, e - 1) == -(a * Pow(-a, e - 1));
      assert a * -Pow(a, e - 1) == -(a * Pow(a, e - 1));
    }
  }

  // ----- congruence -----

  ghost predicate Cong(a: int, b: int, n: int)
  {
    exists k: int :: a - b == k * n
  }

  lemma CongIntro(a: int, b: int, n: int, k: int)
    requires a - b == k * n
    ensures Cong(a, b, n)
  {}

  lemma CongWitness(a: int, b: int, n: int) returns (k: int)
    requires Cong(a, b, n)
    ensures a - b == k * n
  {
    k :| a - b == k * n;
  }

  lemma CongRefl(a: int, n: int)
    ensures Cong(a, a, n)
  {
    CongIntro(a, a, n, 0);
  }

  lemma CongSym(a: int, b: int, n: int)
    requires Cong(a, b, n)
    ensures Cong(b, a, n)
  {
    var k := CongWitness(a, b, n);
    CongIntro(b, a, n, -k);
  }

  lemma CongTrans(a: int, b: int, c: int, n: int)
    requires Cong(a, b, n) && Cong(b, c, n)
    ensures Cong(a, c, n)
  {
    var k := CongWitness(a, b, n);
    var l := CongWitness(b, c, n);
    assert (k + l) * n == k * n + l * n;
    CongIntro(a, c, n, k + l);
  }

  lemma CongMul(a: int, b: int, c: int, d: int, n: int)
    requires Cong(a, b, n) && Cong(c, d, n)
    ensures Cong(a * c, b * d, n)
  {
    var k := CongWitness(a, b, n);
    var l := CongWitness(c, d, n);
    calc {
      a * c - b * d;
      (a - b) * c + b * (c - d);
      (k * n) * c + b * (l * n);
      (k * c + b * l) * n;
    }
    CongIntro(a * c, b * d, n, k * c + b * l);
  }

  lemma CongAdd(a: int, b: int, c: int, d: int, n: int)
    requires Cong(a, b, n) && Cong(c, d, n)
    ensures Cong(a + c, b + d, n)
  {
    var k := CongWitness(a, b, n);
    var l := CongWitness(c, d, n);
    assert (k + l) * n == k * n + l * n;
    CongIntro(a + c, b + d, n, k + l);
  }

  lemma CongWeaken(a: int, b: int, n: int, m: int)
    requires Cong(a, b, n * m)
    ensures Cong(a, b, n)
  {
    var k := CongWitness(a, b, n * m);
    MulAssoc(k, m, n);
    CongIntro(a, b, n, k * m);
  }

  lemma CongNeg(a: int, b: int, n: int)
    requires Cong(a, b, n)
    ensures Cong(-a, -b, n)
  {
    var k := CongWitness(a, b, n);
    CongIntro(-a, -b, n, -k);
  }

  lemma CongMod(a: int, n: int)
    requires 0 < n
    ensures Cong(a % n, a, n)
  {
    CongIntro(a % n, a, n, -(a / n));
  }

  /** Congruent residues below the modulus are equal. */
  lemma CongUnique(a: int, b: int, n: int)
    requires Cong(a, b, n) && 0 <= a < n && 0 <= b < n
    ensures a == b
  {
    var k := CongWitness(a, b, n);
    if k >= 1 { MulLe(n, 1, k); }
    if k <= -1 { MulLe(n, k, -1); }
  }

  lemma CongHalve(a: int, b: int, n: int)
    requires n % 2 == 1 && Cong(2 * a, 2 * b, n)
    ensures Cong(a, b, n)
  {
    var w := CongWitness(2 * a, 2 * b, n);
    Parity(w, n);
    assert w == 2 * (w / 2);
    assert 2 * (a - b) == 2 * ((w / 2) * n);
    CongIntro(a, b, n, w / 2);
  }

  /** Powers of two are invertible modulo an odd number. */
  lemma {:induction false} CongCancelPow2(a: int, b: int, k: nat, n: int)
    requires n % 2 == 1 && Cong(a * Pow2(k), b * Pow2(k), n)
    ensures Cong(a, b, n)
  {
    if k == 0 {
    } else {
      assert a * Pow2(k) == 2 * (a * Pow2(k - 1)) && b * Pow2(k) == 2 * (b * Pow2(k - 1));
      CongHalve(a * Pow2(k - 1), b * Pow2(k - 1), n);
      CongCancelPow2(a, b, k - 1, n);
    }
  }

  // ----- divisibility and greatest common divisor -----

  ghost predicate Divides(d: int, a: int)
  {
    exists k: int :: a == d * k
  }

  lemma DividesIntro(d: int, a: int, k: int)
    requires a == d * k
    ensures Divides(d, a)
  {}

  lemma DividesWitness(d: int, a: int) returns (k: int)
    requires Divides(d, a)
    ensures a == d * k
  {
    k :| a == d * k;
  }

  /** d | a and d | b give d | x*a + y*b. */
  lemma DividesCombination(d: int, a: int, b: int, x: int, y: int)
    requires Divides(d, a) && Divides(d, b)
    ensures Divides(d, x * a + y * b)
  {
    var k := DividesWitness(d, a);
    var l := DividesWitness(d, b);
    calc {
      x * a + y * b;
      x * (d * k) + y * (d * l);
      d * (x * k + y * l);
    }
    DividesIntro(d, x * a + y * b, x * k + y * l);
  }

  lemma DividesAntisymmetric(a: nat, b: nat)
    requires Divides(a, b) && Divides(b, a)
    ensures a == b
  {
    var k := DividesWitness(a, b);
    var l := DividesWitness(b, a);
    if a != 0 && b != 0 {
      if k <= 0 { MulLe(a, k, 0); }
      if l <= 0 { MulLe(b, l, 0); }
      MulLe(a, 1, k);
      MulLe(b, 1, l);
    }
  }

  /** Euclid's definition of the greatest common divisor; Gcd(a, 0) == a. */
  function Gcd(a: nat, b: nat): (g: nat)
    decreases b
  {
    if b == 0 then a else Gcd(b, a % b)
  }

  /** Gcd is the common divisor that every common divisor divides. */
  lemma {:induction false} GcdCharacterised(a: nat, b: nat)
    ensures Divides(Gcd(a, b), a) && Divides(Gcd(a, b), b)
    ensures forall d: int :: Divides(d, a) && Divides(d, b) ==> Divides(d, Gcd(a, b))
    decreases b
  {
    if b == 0 {
      DividesIntro(a, a, 1);
      DividesIntro(a, 0, 0);
    } else {
      var q, r := a / b, a % b;
      GcdCharacterised(b, r);
      DividesCombination(Gcd(a, b), b, r, q, 1);
      assert a == q * b + 1 * r;
      forall d: int | Divides(d, a) && Divides(d, b)
        ensures Divides(d, Gcd(a, b))
      {
        DividesCombination(d, a, b, 1, -q);
        assert r == 1 * a + (-q) * b;
      }
    }
  }

  /** Any number with the two defining properties is the greatest common divisor. */
  lemma GcdUnique(a: nat, b: nat, g: nat)
    requires Divides(g, a) && Divides(g, b)
    requires forall d: int :: Divides(d, a) && Divides(d, b) ==> Divides(d, g)
    ensures g == Gcd(a, b)
  {
    GcdCharacterised(a, b);
    DividesAntisymmetric(g, Gcd(a, b));
  }

  lemma GcdSymmetric(a: nat, b: nat)
    ensures Gcd(a, b) == Gcd(b, a)
  {
    GcdCharacterised(b, a);
    GcdUnique(a, b, Gcd(b, a));
  }

  lemma {:induction false} GcdScale(a: nat, b: nat, c: nat)
    ensures Gcd(a * c, b * c) == Gcd(a, b) * c
    decreases b
  {
    if b == 0 || c == 0 {
      if c == 0 { assert a * c == 0 && b * c == 0; }
    } else {
      var q, r := a / b, a % b;
      assert a * c == q * (b * c) + r * c by { assert a == q * b + r; }
      MulLt(c, r, b);
      DivModUnique(a * c, b * c, q, r * c);
      GcdScale(b, r, c);
    }
  }

  /** gcd(a, b) == gcd(a - b, b). */
  lemma GcdSubtract(a: nat, b: nat)
    requires b <= a
    ensures Gcd(a, b) == Gcd(a - b, b)
  {
    GcdCharacterised(a, b);
    var g := Gcd(a, b);
    DividesCombination(g, a, b, 1, -1);
    assert 1 * a + (-1) * b == a - b;
    forall d: int | Divides(d, a - b) && Divides(d, b)
      ensures Divides(d, g)
    {
      DividesCombination(d, a - b, b, 1, 1);
      assert 1 * (a - b) + 1 * b == a;
    }
    GcdUnique(a - b, b, g);
  }

  lemma HalveProduct(a: int, g: int, k: int)
    requires 2 * a == g * k && k % 2 == 0
    ensures a == g * (k / 2)
  {
    var h := k / 2;
    assert g * k == 2 * (g * h);
  }

  /** Against an odd number, a factor two in the other argument does not matter. */
  lemma GcdHalve(a: nat, b: nat)
    requires b % 2 == 1
    ensures Gcd(2 * a, b) == Gcd(a, b)
  {
    GcdCharacterised(2 * a, b);
    GcdCharacterised(a, b);
    var g, h := Gcd(2 * a, b), Gcd(a, b);
    DividesCombination(h, a, b, 2, 0);
    assert 2 * a + 0 * b == 2 * a;
    // g is odd because it divides b, so g | 2a gives g | a.
    var k := DividesWitness(g, 2 * a);
    var l := DividesWitness(g, b);
    Parity(g, l);
    Parity(g, k);
    HalveProduct(a, g, k);
    DividesIntro(g, a, k / 2);
    DividesAntisymmetric(g, h);
  }

  /** Removing powers of two from one argument keeps the gcd with an odd number. */
  lemma {:induction false} GcdStripPow2(a: nat, b: nat, k: nat)
    requires b % 2 == 1
    ensures Gcd(a * Pow2(k), b) == Gcd(a, b)
  {
    if k == 0 {
    } else {
      assert a * Pow2(k) == 2 * (a * Pow2(k - 1));
      GcdHalve(a * Pow2(k - 1), b);
      GcdStripPow2(a, b, k - 1);
    }
  }

  /** Two numbers with gcd 1 are not both even. */
  lemma CoprimeNotBothEven(a: nat, b: nat)
    requires Gcd(a, b) == 1
    ensures a % 2 == 1 || b % 2 == 1
  {
    if a % 2 == 0 && b % 2 == 0 {
      GcdScale(a / 2, b / 2, 2);
      assert false;
    }
  }

  /** A divisor of a product that has nothing in common with one factor divides the other. */
  lemma CoprimeDivides(n: nat, a: nat, p: nat)
    requires Gcd(a, n) == 1 && Divides(n, a * p)
    ensures Divides(n, p)
  {
    hide Gcd, Divides;
    GcdScale(a, n, p);
    DividesIntro(n, n * p, p);
    GcdCharacterised(a * p, n * p);
  }

  /** A number that divides a power of a coprime base is 1. */
  lemma {:induction false} CoprimePower(a: nat, e: nat, n: nat)
    requires Gcd(a, n) == 1 && Divides(n, Pow(a, e)) && 0 <= Pow(a, e)
    ensures n == 1
    decreases e
  {
    hide Gcd, Divides;
    if e == 0 {
      DividesIntro(1, n, n);
      DividesAntisymmetric(n, 1);
    } else {
      PowNat(a, e - 1);
      CoprimeDivides(n, a, Pow(a, e - 1));
      CoprimePower(a, e - 1, n);
    }
  }

  lemma {:induction false} PowNat(a: nat, e: nat)
    ensures 0 <= Pow(a, e)
  {
    if e > 0 {
      PowNat(a, e - 1);
      MulLe(a, 0, Pow(a, e - 1));
    }
  }

  lemma FactorNonNegative(g: int, x: int)
    requires 0 < g && 0 <= g * x
    ensures 0 <= x
  {
    if x < 0 { MulLt(g, x, 0); }
  }

  /** Divided by their gcd, two numbers are coprime. */
  lemma CoprimeQuotients(a: nat, n: nat) returns (a': nat, n': nat)
    requires 0 < n
    ensures a == Gcd(a, n) * a' && n == Gcd(a, n) * n' && 0 < n' && 0 < Gcd(a, n)
    ensures n' == n / Gcd(a, n) && Gcd(a', n') == 1
  {
    hide Gcd, Divides;
    var g := Gcd(a, n);
    GcdCharacterised(a, n);
    var x := DividesWitness(g, a);
    var y := DividesWitness(g, n);
    if y <= 0 { MulLe(g, y, 0); }
    FactorNonNegative(g, x);
    a', n' := x, y;
    GcdScale(a', n', g);
    MulEqCancel(g, Gcd(a', n'), 1);
    DivModUnique(n, g, n', 0);
  }

  lemma QuotientPositive(a: nat, n: nat)
    requires 0 < n
    ensures 0 < Gcd(a, n) && 0 < n / Gcd(a, n)
  {
    var _, _ := CoprimeQuotients(a, n);
  }

  /** Does some power of a up to the e-th absorb all of n: is the part of n that is left 1 after
      taking out, e times, what it has in common with a?  Needs gcds of shrinking numbers only. */
  predicate Absorbed(a: nat, e: nat, n: nat)
    requires 0 < n
    decreases e
  {
    QuotientPositive(a, n);
    n == 1 || (e > 0 && Gcd(a, n) > 1 && Absorbed(a, e - 1, n / Gcd(a, n)))
  }

  /** Exactly then n divides a^e. */
  lemma {:induction false} AbsorbedIff(a: nat, e: nat, n: nat)
    requires 0 < n
    ensures Absorbed(a, e, n) <==> Divides(n, Pow(a, e))
    decreases e
  {
    hide Gcd, Divides;
    if n == 1 {
      DividesIntro(1, Pow(a, e), Pow(a, e));
    } else if e == 0 {
      if Divides(n, 1) {
        DividesIntro(1, n, n);
        DividesAntisymmetric(n, 1);
      }
    } else {
      var g, p := Gcd(a, n), Pow(a, e - 1);
      var a', n' := CoprimeQuotients(a, n);
      PowNat(a, e - 1);
      PowNat(a, e);
      if g == 1 {
        if Divides(n, Pow(a, e)) { CoprimePower(a, e, n); }
      } else {
        AbsorbedIff(a, e - 1, n');
        DividesCommonFactor(g, n', a' * p);
        MulAssoc(g, a', p);
        if Divides(n', a' * p) { CoprimeDivides(n', a', p); }
        if Divides(n', p) { DividesMultiple(n', p, a'); }
      }
    }
  }

  /** A common factor does not matter for divisibility. */
  lemma DividesCommonFactor(g: nat, d: nat, x: int)
    requires 0 < g
    ensures Divides(g * d, g * x) <==> Divides(d, x)
  {
    if Divides(d, x) {
      var k := DividesWitness(d, x);
      MulAssoc(g, d, k);
      DividesIntro(g * d, g * x, k);
    }
    if Divides(g * d, g * x) {
      var k := DividesWitness(g * d, g * x);
      MulAssoc(g, d, k);
      MulEqCancel(g, x, d * k);
      DividesIntro(d, x, k);
    }
  }

  lemma DividesMultiple(d: int, x: int, m: int)
    requires Divides(d, x)
    ensures Divides(d, m * x)
  {
    var k := DividesWitness(d, x);
    MulSwap(d, k, m);
    DividesIntro(d, m * x, m * k);
  }

  lemma DividesIsZeroRemainder(d: nat, x: int)
    requires 0 < d
    ensures Divides(d, x) <==> x % d == 0
  {
    DivModIdentity(x, d);
    if x % d == 0 { DividesIntro(d, x, x / d); }
    if Divides(d, x) {
      var k := DividesWitness(d, x);
      ModOfMultiple(k, d);
    }
  }

  lemma CoprimeHalf(a: nat, b: nat)
    requires Gcd(2 * a, b) == 1
    ensures Gcd(a, b) == 1
  {
    GcdCharacterised(2 * a, b);
    GcdCharacterised(a, b);
    var h := Gcd(a, b);
    DividesCombination(h, a, b, 2, 0);
    assert 2 * a + 0 * b == 2 * a;
    DividesIntro(1, h, h);
    DividesAntisymmetric(h, 1);
  }
}
