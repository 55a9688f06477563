/** Numbers as text in radix 2 to 16. */
module RadixText {
  import opened Numbers
  import opened Limbs
  import opened MpiCore
  import opened MpiAdd
  import opened MpiMul
  import opened MpiDiv
  import opened MpiMod
  import opened BitReader

  // ----- what a text denotes -----

  /** mpi_get_digit: 255 for a character that is no digit in any radix. */
  function DigitOf(c: char): (d: nat)
    ensures d < 16 || d == 255
  {
    if '0' <= c <= '9' then c as int - 0x30
    else if 'A' <= c <= 'F' then c as int - 0x37
    else if 'a' <= c <= 'f' then c as int - 0x57
    else 255
  }

  function DigitChar(r: nat): (c: char)
    requires r < 16
    ensures DigitOf(c) == r && c != '-'
  {
    if r < 10 then (r + 0x30) as char else (r + 0x37) as char
  }

  /** The characters: both cases are read, upper case is written, and nothing else is a digit. */
  lemma DigitTable(r: nat, c: char)
    ensures r < 16 ==> DigitChar(r) == "0123456789ABCDEF"[r]
    ensures r < 16 ==> DigitOf("0123456789ABCDEF"[r]) == DigitOf("0123456789abcdef"[r]) == r
    ensures c !in "0123456789ABCDEFabcdef" ==> DigitOf(c) == 255
  {}

  predicate AllDigits(s: string, radix: nat)
  {
    forall i :: 0 <= i < |s| ==> DigitOf(s[i]) < radix
  }

  /** Horner's rule. */
  function Magnitude(s: string, radix: nat): (v: nat)
  {
    if s == [] then 0 else Magnitude(s[..|s| - 1], radix) * radix + DigitOf(s[|s| - 1])
  }

  datatype Parsed = Number(v: int) | NotANumber

  /** The number a text denotes: an optional minus sign, then digits (possibly none). */
  function Parse(s: string, radix: nat): (r: Parsed)
  {
    if |s| > 0 && s[0] == '-' then
      if AllDigits(s[1..], radix) then Number(0 - Magnitude(s[1..], radix)) else NotANumber
    else
      if AllDigits(s, radix) then Number(Magnitude(s, radix)) else NotANumber
  }

  lemma MagnitudeLast(s: string, c: char, radix: nat)
    ensures Magnitude(s + [c], radix) == Magnitude(s, radix) * radix + DigitOf(c)
  {
    hide DigitOf;
    assert (s + [c])[..|s|] == s;
  }

  /** A leading digit has the weight of the digits after it. */
  lemma {:induction false} MagnitudeCons(c: char, s: string, radix: nat)
    ensures Magnitude([c] + s, radix) == DigitOf(c) * Pow(radix, |s|) + Magnitude(s, radix)
    decreases |s|
  {
    hide DigitOf, Magnitude;
    MagnitudeEmpty(radix);
    if s == [] {
      MagnitudeLast([], c, radix);
      assert [c] + s == [] + [c];
    } else {
      var n := |s| - 1;
      var x := s[n];
      MagnitudeCons(c, s[..n], radix);
      assert [c] + s == ([c] + s[..n]) + [x] && s == s[..n] + [x];
      MagnitudeLast([c] + s[..n], x, radix);
      MagnitudeLast(s[..n], x, radix);
      HornerCons(DigitOf(c), Pow(radix, n), Magnitude(s[..n], radix), DigitOf(x), radix);
    }
  }

  lemma HornerCons(d: nat, w: int, m: nat, x: nat, r: nat)
    ensures (d * w + m) * r + x == d * (r * w) + (m * r + x)
  {}

  // ----- reading -----

  /** Read a text into X  (mbedtls_mpi_read_string). */
  method ReadString(X: Mpi, radix: int, s: string) returns (ret: Status)
    modifies X
    ensures ret == if radix < 2 || radix > 16 then Err(BadInputData)
                   else if Parse(s, radix) == NotANumber then Err(InvalidCharacter) else Ok
    ensures ret.Ok? ==> X.Val() == Parse(s, radix).v
  {
    if radix < 2 || radix > 16 { return Err(BadInputData); }
    if radix == 16 {
      ret := ReadHex(X, s);
    } else {
      ret := ReadHorner(X, radix, s);
    }
  }

  /** The loop for radices below 16: multiply by the radix, add the digit. */
  method ReadHorner(X: Mpi, radix: int, s: string) returns (ret: Status)
    requires 2 <= radix < 16
    modifies X
    ensures ret == if Parse(s, radix) == NotANumber then Err(InvalidCharacter) else Ok
    ensures ret.Ok? ==> X.Val() == Parse(s, radix).v
  {
    hide Value, Magnitude, DigitOf;
    Lset(X, 0);
    var T := new Mpi();
    var i := 0;
    var st := if |s| > 0 && s[0] == '-' then 1 else 0;
    assert s[st..st] == [];
    MagnitudeEmpty(radix);
    while i < |s|
      invariant 0 <= i <= |s| && X.p != [] && fresh(T)
      invariant i < st ==> X.Val() == 0 && X.s == 1
      invariant i >= st ==> AllDigits(s[st..i], radix) && X.s == (if st == 1 then -1 else 1)
      invariant i >= st ==> X.Abs() == Magnitude(s[st..i], radix)
    {
      if i == 0 && s[i] == '-' {
        X.s := -1;
        i := i + 1;
        continue;
      }
      var d := DigitOf(s[i]);
      if d >= radix {
        NotDigits(s, st, i, radix);
        return Err(InvalidCharacter);
      }
      MagnitudeSnoc(s, st, i, radix);
      TimesRadixPlus(X, T, radix, d);
      i := i + 1;
    }
    assert s[st..|s|] == s[st..];
    if st == 0 { assert s[0..] == s; }
    return Ok;
  }

  /** |X| = |X| * radix + d, whatever the sign of X. */
  method TimesRadixPlus(X: Mpi, T: Mpi, radix: nat, d: nat)
    requires X != T && X.p != [] && radix <= 16 && d < 16
    modifies X, T
    ensures X.p != [] && X.s == old(X.s) && X.Abs() == old(X.Abs()) * radix + d
  {
    hide Value;
    ghost var a := X.Abs();
    MulLe(radix, 0, a);
    assert (0 - a) * radix == 0 - a * radix;
    MulInt(T, X, radix);
    if X.s == 1 {
      AddInt(X, T, d);
    } else {
      SubInt(X, T, d);
    }
  }

  lemma MagnitudeEmpty(radix: nat)
    ensures Magnitude([], radix) == 0
  {}

  lemma NotDigits(s: string, st: nat, i: nat, radix: nat)
    requires st <= i < |s| && st == (if |s| > 0 && s[0] == '-' then 1 else 0)
    requires DigitOf(s[i]) >= radix
    ensures Parse(s, radix) == NotANumber
  {
    hide DigitOf, Magnitude;
    if st == 1 { assert s[1..][i - 1] == s[i]; }
  }

  lemma MagnitudeSnoc(s: string, st: nat, i: nat, radix: nat)
    requires st <= i < |s|
    ensures Magnitude(s[st..i + 1], radix) == Magnitude(s[st..i], radix) * radix + DigitOf(s[i])
    ensures DigitOf(s[i]) < radix && AllDigits(s[st..i], radix) ==> AllDigits(s[st..i + 1], radix)
  {
    hide DigitOf;
    assert s[st..i + 1][..i - st] == s[st..i];
    assert s[st..i + 1][i - st] == s[i];
  }

  /** The loop for radix 16: each digit is or-ed into its place, last character first. */
  method ReadHex(X: Mpi, s: string) returns (ret: Status)
    modifies X
    ensures ret == if Parse(s, 16) == NotANumber then Err(InvalidCharacter) else Ok
    ensures ret.Ok? ==> X.Val() == Parse(s, 16).v
  {
    hide Value, Magnitude, DigitOf, BitOr, Pow2;
    var n := BitsToLimbs(|s| * 4);
    Grow(X, n);
    Lset(X, 0);
    var i := |s|;
    var j := 0;
    assert s[i..] == [];
    MagnitudeEmpty(16);
    while i > 0
      invariant 0 <= i <= |s| && i + j == |s| && X.s == 1 && |X.p| >= n
      invariant AllDigits(s[i..], 16) && X.Abs() == Magnitude(s[i..], 16) < Pow2(4 * j)
    {
      if i == 1 && s[i - 1] == '-' {
        X.s := -1;
        return Ok;
      }
      var d := DigitOf(s[i - 1]);
      if d >= 16 {
        NotDigits(s, if s[0] == '-' then 1 else 0, i - 1, 16);
        return Err(InvalidCharacter);
      }
      HexPlace(X.p, j, d);
      HexFront(s, i - 1);
      X.p := X.p[j / 16 := BitOr(X.p[j / 16], d * Pow2(4 * (j % 16)))];
      i := i - 1;
      j := j + 1;
    }
    assert s[0..] == s;
    if |s| > 0 && s[0] == '-' { MinusIsNoDigit(); assert false; }
    return Ok;
  }

  lemma MinusIsNoDigit()
    ensures DigitOf('-') == 255
  {}

  lemma HexFront(s: string, i: nat)
    requires i < |s| && DigitOf(s[i]) < 16
    ensures Magnitude(s[i..], 16) == DigitOf(s[i]) * Pow2(4 * (|s| - i - 1)) + Magnitude(s[i + 1..], 16)
    ensures AllDigits(s[i + 1..], 16) ==> AllDigits(s[i..], 16)
  {
    hide DigitOf, Magnitude, Pow2, Pow;
    assert s[i..] == [s[i]] + s[i + 1..];
    MagnitudeCons(s[i], s[i + 1..], 16);
    Pow16(|s| - i - 1);
  }

  lemma {:induction false} Pow16(k: nat)
    ensures Pow(16, k) == Pow2(4 * k)
  {
    if k > 0 {
      Pow16(k - 1);
      Pow2Add(4, 4 * (k - 1));
      SixteenIsPow2();
    }
  }

  lemma SixteenIsPow2()
    ensures Pow2(4) == 16 && Pow2(8) == 256
  {
    hide Pow2;
    Pow2Step(0); Pow2Step(1); Pow2Step(2); Pow2Step(3);
    Pow2Add(4, 4);
  }

  /** Or-ing a digit in at position j adds its weight. */
  lemma HexPlace(p: seq<Limb>, j: nat, d: nat)
    requires Value(p) < Pow2(4 * j) && d < 16 && 4 * (j + 1) <= |p| * BIL
    ensures j / 16 < |p| && 0 <= d * Pow2(4 * (j % 16))
    ensures BitOr(p[j / 16], d * Pow2(4 * (j % 16))) < BASE
    ensures Value(p[j / 16 := BitOr(p[j / 16], d * Pow2(4 * (j % 16)))]) == Value(p) + d * Pow2(4 * j)
    ensures Value(p) + d * Pow2(4 * j) < Pow2(4 * (j + 1))
  {
    hide Pow2, Value, BitOr, PowB;
    var k, t := j / 16, 4 * (j % 16);
    PowBIsPow2(k);
    Pow2Add(k * BIL, t);
    assert 4 * j == k * BIL + t;
    LimbBelow(p, k, t);
    MulLe(d, 0, Pow2(t));
    HexLimb(p[k], d, t);
    ValueUpdate(p, k, p[k] + d * Pow2(t));
    MulAssoc(d, Pow2(t), PowB(k));
    HexGrows(Value(p), d, j);
  }

  lemma HexGrows(v: nat, d: nat, j: nat)
    requires v < Pow2(4 * j) && d < 16
    ensures v + d * Pow2(4 * j) < Pow2(4 * (j + 1))
  {
    hide Pow2;
    Pow2Add(4, 4 * j);
    SixteenIsPow2();
    TwoDigits(d, v, Pow2(4 * j), 16);
  }

  lemma HexLimb(x: Limb, d: nat, t: nat)
    requires t + 4 <= BIL && x < Pow2(t) && d < 16
    ensures BitOr(x, d * Pow2(t)) == x + d * Pow2(t) < BASE
  {
    hide Pow2, BitOr;
    BitOrCommutes(x, d * Pow2(t));
    BitOrDisjoint(d, x, t);
    Pow2Add(4, t);
    SixteenIsPow2();
    TwoDigits(d, x, Pow2(t), 16);
    BaseSplit(t + 4, BIL - t - 4);
    MulLe(Pow2(t + 4), 1, Pow2(BIL - t - 4));
  }

  lemma LimbBelow(p: seq<Limb>, k: nat, t: nat)
    requires k < |p| && Value(p) < PowB(k) * Pow2(t)
    ensures p[k] < Pow2(t)
  {
    hide Pow2, Value, PowB;
    ValueSplit(p, k);
    ValueSuffixStep(p, k);
    MulLtCancel(PowB(k), Value(p[k..]), Pow2(t));
  }

  // ----- writing -----

  /** The digits of v, most significant first, without leading zeros (mpi_write_hlp). */
  function Digits(v: nat, radix: nat): (t: string)
    requires 2 <= radix <= 16
    ensures |t| >= 1
    decreases v
  {
    DivSmaller(v, radix);
    if v / radix == 0 then [DigitChar(v % radix)]
    else Digits(v / radix, radix) + [DigitChar(v % radix)]
  }

  lemma DivSmaller(v: nat, radix: nat)
    requires 2 <= radix
    ensures 0 <= v / radix && (v > 0 ==> v / radix < v) && v % radix < radix
    ensures v == (v / radix) * radix + v % radix
  {
    DivModIdentity(v, radix);
    DivLe(v, radix);
    if v > 0 && v / radix == v { MulLe(v, 2, radix); }
  }

  /** Two hexadecimal digits per byte, without leading zero bytes. */
  function ByteText(v: nat): (t: string)
    ensures |t| >= 2
    decreases v
  {
    (if v / 256 == 0 then "" else ByteText(v / 256)) + HexPair(v % 256)
  }

  function HexPair(c: nat): (t: string)
    requires c < 256
    ensures |t| == 2
  {
    [DigitChar(c / 16), DigitChar(c % 16)]
  }

  /** The digits for a number of n limbs; without limbs there is no byte to write. */
  function Body(v: nat, n: nat, radix: nat): (t: string)
    requires 2 <= radix <= 16
  {
    if radix != 16 then Digits(v, radix) else if n == 0 then "" else ByteText(v)
  }

  /** The text of a number with sign s: a minus for every negative sign, zero included. */
  function Text(s: Sign, v: nat, n: nat, radix: nat): (t: string)
    requires 2 <= radix <= 16
  {
    (if s == -1 then "-" else "") + Body(v, n, radix)
  }

  predicate PlainDigits(t: string, v: nat, radix: nat)
  {
    AllDigits(t, radix) && (t == "" || t[0] != '-') && Magnitude(t, radix) == v
  }

  lemma PlainSnoc(t: string, v: nat, c: char, radix: nat)
    requires (t == "" && v == 0) || PlainDigits(t, v, radix)
    requires DigitOf(c) < radix && c != '-'
    ensures PlainDigits(t + [c], v * radix + DigitOf(c), radix)
  {
    hide DigitOf, Magnitude;
    MagnitudeLast(t, c, radix);
    MagnitudeEmpty(radix);
  }

  lemma {:induction false} DigitsDenote(v: nat, radix: nat)
    requires 2 <= radix <= 16
    ensures PlainDigits(Digits(v, radix), v, radix)
    decreases v
  {
    hide DigitOf, Magnitude, PlainDigits, DigitChar;
    DivSmaller(v, radix);
    if v / radix == 0 {
      PlainSnoc("", 0, DigitChar(v % radix), radix);
      assert "" + [DigitChar(v % radix)] == [DigitChar(v % radix)];
    } else {
      DigitsDenote(v / radix, radix);
      PlainSnoc(Digits(v / radix, radix), v / radix, DigitChar(v % radix), radix);
    }
  }

  lemma PairDenotes(t: string, v: nat, c: nat)
    requires (t == "" && v == 0) || PlainDigits(t, v, 16)
    requires c < 256
    ensures PlainDigits(t + HexPair(c), v * 256 + c, 16)
  {
    hide DigitOf, Magnitude, PlainDigits, DigitChar;
    PlainSnoc(t, v, DigitChar(c / 16), 16);
    PlainSnoc(t + [DigitChar(c / 16)], v * 16 + c / 16, DigitChar(c % 16), 16);
    assert t + HexPair(c) == (t + [DigitChar(c / 16)]) + [DigitChar(c % 16)];
  }

  lemma {:induction false} ByteTextDenotes(v: nat)
    ensures PlainDigits(ByteText(v), v, 16)
    decreases v
  {
    hide PlainDigits, HexPair;
    if v / 256 == 0 {
      PairDenotes("", 0, v);
    } else {
      ByteTextDenotes(v / 256);
      PairDenotes(ByteText(v / 256), v / 256, v % 256);
    }
  }

  /** No more digits than needed: no leading zero, in hexadecimal no leading zero byte. */
  lemma {:induction false} DigitsAreShortest(v: nat, radix: nat)
    requires 2 <= radix <= 16
    ensures Digits(v, radix)[0] == '0' ==> v == 0 && Digits(v, radix) == "0"
    decreases v
  {
    DivSmaller(v, radix);
    hide DigitChar;
    DigitZero(v % radix);
    if v / radix != 0 {
      DigitsAreShortest(v / radix, radix);
      assert Digits(v, radix)[0] == Digits(v / radix, radix)[0];
    } else {
      assert Digits(v, radix) == [DigitChar(v % radix)];
    }
  }

  lemma DigitZero(r: nat)
    requires r < 16
    ensures DigitChar(r) == '0' <==> r == 0
  {}

  lemma {:induction false} BytesAreShortest(v: nat)
    ensures |ByteText(v)| % 2 == 0
    ensures ByteText(v)[0] == ByteText(v)[1] == '0' ==> v == 0 && ByteText(v) == "00"
    decreases v
  {
    hide DigitChar;
    DigitZero(v % 256 / 16);
    DigitZero(v % 256 % 16);
    if v / 256 != 0 {
      BytesAreShortest(v / 256);
      assert ByteText(v)[0] == ByteText(v / 256)[0] && ByteText(v)[1] == ByteText(v / 256)[1];
    } else {
      assert ByteText(v) == HexPair(v);
    }
  }

  lemma BodyDenotes(v: nat, n: nat, radix: nat)
    requires 2 <= radix <= 16 && v < PowB(n)
    ensures PlainDigits(Body(v, n, radix), v, radix)
  {
    hide Digits, ByteText;
    if radix != 16 {
      DigitsDenote(v, radix);
    } else if n > 0 {
      ByteTextDenotes(v);
    } else {
      MagnitudeEmpty(16);
    }
  }

  /** Reading what was written gives the number back, for every number, sign and radix. */
  lemma ReadAfterWrite(s: Sign, v: nat, n: nat, radix: nat)
    requires 2 <= radix <= 16 && v < PowB(n)
    ensures Parse(Text(s, v, n, radix), radix) == Number(if s == -1 then 0 - v else v)
  {
    hide DigitOf, Magnitude, Body, PowB;
    BodyDenotes(v, n, radix);
    var t := Text(s, v, n, radix);
    if s == -1 {
      assert t[1..] == Body(v, n, radix);
    } else {
      assert t == Body(v, n, radix);
    }
  }

  // ----- the length bound -----

  /** Number of bits of v. */
  function Bits(v: nat): (n: nat)
  {
    if v == 0 then 0 else 1 + Bits(v / 2)
  }

  lemma {:induction false} BitsIsBitLen(v: nat)
    ensures IsBitLen(v, Bits(v))
  {
    if v > 0 {
      BitsIsBitLen(v / 2);
      if v / 2 == 0 { assert v == 1; }
    }
  }

  lemma BitLenUnique(v: nat, m: nat, n: nat)
    requires IsBitLen(v, m) && IsBitLen(v, n)
    ensures m == n
  {
    hide Pow2;
    if m < n { Pow2Monotone(m, n - 1); }
    if n < m { Pow2Monotone(n, m - 1); }
  }

  /** The buffer length the routine asks for, from the bit length. */
  function BufferNeed(bits: nat, radix: nat): (n: nat)
  {
    var n := if radix >= 4 then bits / 2 else bits;
    var n := if radix >= 16 then n / 2 else n;
    n + 3 + (n + 1) % 2
  }

  /** The buffer asked for: the even number that is 3 or 4 more than the bits, half or a quarter of them. */
  lemma NeedIs(bits: nat, radix: nat)
    requires 2 <= radix <= 16
    ensures BufferNeed(bits, radix) % 2 == 0
    ensures var n := bits / (if radix == 16 then 4 else if radix >= 4 then 2 else 1);
      n + 3 <= BufferNeed(bits, radix) <= n + 4
  {}

  lemma QuotientBits(q: int, r: nat, radix: nat, bits: nat)
    requires 1 <= q && radix >= 2 && q * radix + r < Pow2(bits)
    ensures 1 <= bits && q < Pow2(bits - 1)
    ensures radix >= 4 ==> 2 <= bits && q < Pow2(bits - 2)
  {
    hide Pow2;
    MulLe(q, 2, radix);
    if radix >= 4 { MulLe(q, 4, radix); }
    Pow2Zero();
    if bits >= 1 { Pow2Step(bits - 1); }
    if bits >= 2 { Pow2Step(bits - 2); }
  }

  lemma Pow2Zero()
    ensures Pow2(0) == 1
  {}

  lemma {:induction false} DigitsLength(v: nat, radix: nat, bits: nat)
    requires 2 <= radix <= 16 && v < Pow2(bits)
    ensures radix < 4 ==> |Digits(v, radix)| <= (if bits == 0 then 1 else bits)
    ensures radix >= 4 ==> |Digits(v, radix)| <= (if bits == 0 then 1 else (bits + 1) / 2)
    decreases v
  {
    hide Pow2, DigitChar;
    DivSmaller(v, radix);
    if v / radix != 0 {
      QuotientBits(v / radix, v % radix, radix, bits);
      DigitsLength(v / radix, radix, if radix < 4 then bits - 1 else bits - 2);
    }
  }

  lemma {:induction false} ByteTextLength(v: nat, bits: nat)
    requires v < Pow2(bits)
    ensures |ByteText(v)| <= 2 * (if bits == 0 then 1 else (bits + 7) / 8)
    decreases v
  {
    hide Pow2, HexPair;
    if v / 256 != 0 {
      SixteenIsPow2();
      if bits < 8 {
        Pow2Monotone(bits, 8);
      } else {
        Pow2Add(8, bits - 8);
        ByteTextLength(v / 256, bits - 8);
      }
    }
  }

  /** Sign, digits and the terminating zero always fit in the length asked for. */
  lemma TextFits(s: Sign, v: nat, n: nat, radix: nat)
    requires 2 <= radix <= 16
    ensures |Text(s, v, n, radix)| + 1 <= BufferNeed(Bits(v), radix)
  {
    hide Digits, ByteText, Pow2, Bits, BufferNeed;
    BitsIsBitLen(v);
    if radix == 16 { ByteTextLength(v, Bits(v)); } else { DigitsLength(v, radix, Bits(v)); }
    NeedCovers(|Body(v, n, radix)|, Bits(v), radix);
  }

  lemma NeedCovers(len: nat, bits: nat, radix: nat)
    requires 2 <= radix <= 16
    requires radix < 4 ==> len <= (if bits == 0 then 1 else bits)
    requires 4 <= radix < 16 ==> len <= (if bits == 0 then 1 else (bits + 1) / 2)
    requires radix == 16 ==> len <= 2 * (if bits == 0 then 1 else (bits + 7) / 8)
    ensures len + 2 <= BufferNeed(bits, radix)
  {}

  // ----- the writing routine -----

  /** Write the digits of X from position p on; X is consumed  (mpi_write_hlp). */
  method WriteHlp(X: Mpi, radix: int, buf: array<char>, p: nat) returns (p': nat)
    requires 2 <= radix <= 16 && X.s == 1 && (X.p == [] ==> radix != 2)
    requires p + |Digits(X.Abs(), radix)| <= buf.Length
    modifies X, buf
    ensures p' == p + |Digits(old(X.Abs()), radix)|
    ensures buf[..p'] == old(buf[..p]) + Digits(old(X.Abs()), radix)
    ensures buf[p'..] == old(buf[p'..])
    decreases X.Abs()
  {
    hide Value, SafeModulus, ModLimbs, DigitChar;
    ghost var v := X.Abs();
    DivSmaller(v, radix);
    SmallIsSafe(radix);
    var _, r := ModInt(X, radix);
    var _ := DivInt(X, null, X, radix);
    p' := p;
    var cmp := CmpInt(X, 0);
    if cmp != 0 {
      p' := WriteHlp(X, radix, buf, p');
    }
    buf[p'] := DigitChar(r);
    p' := p' + 1;
  }

  function Written(v: nat): (t: string)
  {
    if v == 0 then "" else ByteText(v)
  }

  /** The limbs of e above position (n, left) have been written as the text t. */
  ghost predicate HexState(e: seq<Limb>, n: nat, left: nat, pre: nat, t: string)
  {
    Consumed(e, n, left, pre) && t == if n == 0 && left == 0 then ByteText(pre) else Written(pre)
  }

  lemma HexStep(e: seq<Limb>, n: nat, left: nat, pre: nat, c: nat, t: string)
    requires 8 <= left <= BIL && HexState(e, n, left, pre, t)
    requires c == e[n] / Pow2(left - 8) % 256
    ensures c < 256
    ensures HexState(e, n, left - 8, 256 * pre + c,
                     if c == 0 && t == "" && !(n == 0 && left == 8) then "" else t + HexPair(c))
  {
    hide Consumed, Pow2, HexPair, Value;
    SixteenIsPow2();
    ConsumedBits(e, n, left, 8, pre, c);
    ByteTextSnoc(pre, c);
  }

  lemma ByteTextSnoc(pre: nat, c: nat)
    requires c < 256
    ensures ByteText(256 * pre + c) == Written(pre) + HexPair(c)
  {
    hide HexPair;
    DivModUnique(256 * pre + c, 256, pre, c);
  }

  lemma {:induction false} ByteTextGrows(u: nat, v: nat)
    requires u <= v
    ensures |ByteText(u)| <= |ByteText(v)|
    decreases v
  {
    hide HexPair;
    if u / 256 > 0 { ByteTextGrows(u / 256, v / 256); }
  }

  /** The text of the part read so far is no longer than the whole text. */
  lemma HexFits(e: seq<Limb>, n: nat, left: nat, pre: nat, t: string)
    requires HexState(e, n, left, pre, t)
    ensures |t| <= |ByteText(Value(e))|
  {
    hide Pow2, Value, PowB, ByteText;
    ValueSplit(e, n);
    PrefixBelow(pre, Pow2(left), Value(e[n..]), PowB(n), Value(e));
    ByteTextGrows(pre, Value(e));
  }

  lemma PrefixBelow(pre: nat, a: nat, w: nat, b: nat, v: nat)
    requires 1 <= a && 1 <= b && pre * a <= w && b * w <= v
    ensures pre <= v
  {
    MulLe(pre, 1, a);
    MulLe(w, 1, b);
  }

  /** Write the limbs in hexadecimal from position p on, skipping leading zero bytes. */
  method WriteHex(e: seq<Limb>, buf: array<char>, p: nat) returns (p': nat)
    requires e != [] && p + |ByteText(Value(e))| <= buf.Length
    modifies buf
    ensures p' == p + |ByteText(Value(e))|
    ensures buf[..p'] == old(buf[..p]) + ByteText(Value(e))
    ensures buf[p'..] == old(buf[p'..])
  {
    hide Consumed, Pow2, Value, HexState, HexPair, Written, ByteText;
    p' := p;
    var i, k := |e|, false;
    ghost var pre: nat, t := 0, "";
    HexStart(e);
    while i > 0
      invariant 0 <= i <= |e| && HexState(e, i, 0, pre, t) && k == (t != "")
      invariant p' == p + |t| <= buf.Length && buf[..p'] == old(buf[..p]) + t
      invariant buf[p'..] == old(buf[p'..])
    {
      var j := 8;
      HexRefill(e, i, pre, t);
      while j > 0
        invariant 0 <= j <= 8 && HexState(e, i - 1, 8 * j, pre, t) && k == (t != "")
        invariant p' == p + |t| <= buf.Length && buf[..p'] == old(buf[..p]) + t
        invariant buf[p'..] == old(buf[p'..])
      {
        var c := e[i - 1] / Pow2(8 * (j - 1)) % 256;
        HexStep(e, i - 1, 8 * j, pre, c, t);
        pre := 256 * pre + c;
        if c == 0 && !k && i + j != 2 {
          j := j - 1;
          continue;
        }
        t := t + HexPair(c);
        HexFits(e, i - 1, 8 * (j - 1), pre, t);
        p' := PutPair(buf, p', c);
        k := true;
        j := j - 1;
      }
      i := i - 1;
    }
    HexDone(e, pre, t);
  }

  method PutPair(buf: array<char>, p: nat, c: nat) returns (p': nat)
    requires c < 256 && p + 2 <= buf.Length
    modifies buf
    ensures p' == p + 2 && buf[..p'] == old(buf[..p]) + HexPair(c)
    ensures forall m :: p' <= m <= buf.Length ==> buf[m..] == old(buf[m..])
  {
    buf[p] := DigitChar(c / 16);
    buf[p + 1] := DigitChar(c % 16);
    p' := p + 2;
  }

  lemma HexStart(e: seq<Limb>)
    requires e != []
    ensures HexState(e, |e|, 0, 0, "")
  {
    hide Consumed, ByteText;
    ConsumedNothing(e);
  }

  lemma HexRefill(e: seq<Limb>, i: nat, pre: nat, t: string)
    requires 0 < i && HexState(e, i, 0, pre, t)
    ensures HexState(e, i - 1, BIL, pre, t)
  {
    hide Consumed, ByteText;
    ConsumedRefill(e, i, pre);
  }

  lemma HexDone(e: seq<Limb>, pre: nat, t: string)
    requires HexState(e, 0, 0, pre, t)
    ensures t == ByteText(Value(e))
  {
    hide Consumed, ByteText;
    ConsumedAll(e, pre);
  }

  /** Export into a zero-terminated text  (mbedtls_mpi_write_string): `olen` is the length used,
      or the length needed when the buffer is too small. */
  method WriteString(X: Mpi, radix: int, buf: array<char>, buflen: nat) returns (ret: Status, olen: nat)
    requires buflen <= buf.Length && (X.p == [] ==> radix != 2)
    modifies buf
    ensures radix < 2 || radix > 16 ==> ret == Err(BadInputData)
    ensures 2 <= radix <= 16 ==> ret == if buflen < BufferNeed(Bits(X.Abs()), radix) then Err(BufferTooSmall) else Ok
    ensures ret == Err(BufferTooSmall) ==> olen == BufferNeed(Bits(X.Abs()), radix)
    ensures ret == Ok ==> olen == |Text(X.s, X.Abs(), |X.p|, radix)| + 1 <= buflen
    ensures ret == Ok ==> buf[..olen] == Text(X.s, X.Abs(), |X.p|, radix) + [0 as char]
    ensures ret == Ok ==> buf[olen..] == old(buf[olen..])
    ensures ret != Ok ==> buf[..] == old(buf[..])
  {
    hide Value, Bits, Digits, ByteText, IsBitLen, BufferNeed;
    olen := 0;
    if radix < 2 || radix > 16 { return Err(BadInputData), olen; }
    ghost var v := X.Abs();
    var bits := BitLen(X);
    BitsIsBitLen(v);
    BitLenUnique(v, bits, Bits(v));
    var n := BufferNeed(bits, radix);
    if buflen < n { return Err(BufferTooSmall), n; }
    TextFits(X.s, v, |X.p|, radix);
    var p := 0;
    if X.s == -1 {
      buf[p] := '-';
      p := p + 1;
    }
    assert buf[..p] == if X.s == -1 then "-" else "";
    p := WriteBody(X, radix, buf, p);
    assert buf[p + 1..] == buf[p..][1..] && old(buf[p + 1..]) == old(buf[p..])[1..];
    buf[p] := 0 as char;
    return Ok, p + 1;
  }

  /** The digits of X without its sign, from position p on. */
  method WriteBody(X: Mpi, radix: int, buf: array<char>, p: nat) returns (p': nat)
    requires 2 <= radix <= 16 && (X.p == [] ==> radix != 2)
    requires p + |Body(X.Abs(), |X.p|, radix)| <= buf.Length
    modifies buf
    ensures p' == p + |Body(X.Abs(), |X.p|, radix)|
    ensures buf[..p'] == old(buf[..p]) + Body(X.Abs(), |X.p|, radix)
    ensures buf[p'..] == old(buf[p'..])
  {
    hide Value, Digits, ByteText;
    if radix == 16 {
      p' := p;
      if X.p != [] { p' := WriteHex(X.p, buf, p); }
    } else {
      var T := new Mpi();
      Copy(T, X);
      if T.s == -1 { T.s := 1; }
      p' := WriteHlp(T, radix, buf, p);
    }
  }
}
