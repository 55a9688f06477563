/** Base64 symbol by symbol and byte by byte (section 4 of RFC 4648). */
module Base64Bytes {
  import opened Base64Text

  /** Byte i, or zero behind the end. */
  function ByteOrZero(s: seq<Byte>, i: nat): (b: Byte)
  {
    if i < |s| then s[i] else 0
  }

  /** The 24 bits of group g. */
  function Bits24(s: seq<Byte>, g: nat): (n: nat)
  {
    ByteOrZero(s, 3 * g) * 65536 + ByteOrZero(s, 3 * g + 1) * 256 + ByteOrZero(s, 3 * g + 2)
  }

  /** Six of 24 bits, the highest first. */
  function Six(n: nat, r: nat): (v: nat)
    requires r < 4
    ensures v < 64
  {
    if r == 0 then n / 262144 % 64 else if r == 1 then n / 4096 % 64 else if r == 2 then n / 64 % 64 else n % 64
  }

  /** Eight of 24 bits, the highest first. */
  function Eight(n: nat, k: nat): (b: Byte)
    requires k < 3
  {
    if k == 0 then n / 65536 % 256 else if k == 1 then n / 256 % 256 else n % 256
  }

  /** Where the six-bit pieces come from. */
  lemma SixOfBytes(a: Byte, b: Byte, c: Byte)
    ensures var n := a * 65536 + b * 256 + c;
      && Six(n, 0) == a / 4 && Six(n, 1) == a % 4 * 16 + b / 16
      && Six(n, 2) == b % 16 * 4 + c / 64 && Six(n, 3) == c % 64
  {
    SixSplit(a / 4, a % 4, b / 16, b % 16, c / 64, c % 64);
  }

  lemma SixSplit(p: nat, q: nat, r: nat, s: nat, t: nat, u: nat)
    requires p < 64 && q < 4 && r < 16 && s < 16 && t < 4 && u < 64
    ensures var n := (4 * p + q) * 65536 + (16 * r + s) * 256 + (64 * t + u);
      && Six(n, 0) == p && Six(n, 1) == 16 * q + r && Six(n, 2) == 4 * s + t && Six(n, 3) == u
  {
    var n := (4 * p + q) * 65536 + (16 * r + s) * 256 + (64 * t + u);
    var v, w := 16 * q + r, 4 * s + t;
    assert n == ((p * 64 + v) * 64 + w) * 64 + u;
    Sixes(p, v, w, u);
  }

  lemma Sixes(p: nat, v: nat, w: nat, u: nat)
    requires p < 64 && v < 64 && w < 64 && u < 64
    ensures var n := ((p * 64 + v) * 64 + w) * 64 + u;
      Six(n, 0) == p && Six(n, 1) == v && Six(n, 2) == w && Six(n, 3) == u
  {
    var n := ((p * 64 + v) * 64 + w) * 64 + u;
    assert n / 64 == (p * 64 + v) * 64 + w;
    assert n / 4096 == p * 64 + v;
    assert n / 262144 == p;
  }

  lemma Bits24Shift(s: seq<Byte>, g: nat)
    requires |s| >= 3
    ensures Bits24(s[3..], g) == Bits24(s, g + 1)
  {}

  /** Symbol i of the text stands for the bits 6 * i to 6 * i + 5 of the bytes, as long as any byte
      reaches there; behind that stands a pad. */
  lemma {:induction false} SymbolAt(s: seq<Byte>, i: nat)
    requires i < |Encoded(s)|
    ensures Encoded(s)[i] ==
            if 6 * i < 8 * |s| then Letter(Six(Bits24(s, i / 4), i % 4)) else 0x3D
    decreases |s|
  {
    hide EncMap, Six, Bits24, Letter, Encoded, Quad;
    EncodedStep(s);
    if |s| > 3 && i >= 4 {
      SymbolAt(s[3..], i - 4);
      Bits24Shift(s, i / 4 - 1);
    } else {
      FirstSymbols(s, i);
    }
  }

  lemma FirstSymbols(s: seq<Byte>, i: nat)
    requires s != [] && i < 4
    ensures |Encoded(s)| >= 4
    ensures Encoded(s)[i] == if 6 * i < 8 * |s| then Letter(Six(Bits24(s, 0), i)) else 0x3D
  {
    hide EncMap, Six, Letter, Encoded;
    var a, b, c := s[0], ByteOrZero(s, 1), ByteOrZero(s, 2);
    SixOfBytes(a, b, c);
    FirstGroup(s);
    EncMapIsAlphabet(Six(Bits24(s, 0), i));
  }

  lemma FirstGroup(s: seq<Byte>)
    requires s != []
    ensures var a, b, c := s[0], ByteOrZero(s, 1), ByteOrZero(s, 2);
      && |Encoded(s)| >= 4
      && Encoded(s)[0] == EncMap(a / 4) && Encoded(s)[1] == EncMap(a % 4 * 16 + b / 16)
      && Encoded(s)[2] == (if |s| > 1 then EncMap(b % 16 * 4 + c / 64) else 0x3D)
      && Encoded(s)[3] == if |s| > 2 then EncMap(c % 64) else 0x3D
  {
    hide EncMap;
    EncodedStep(s);
  }

  // ----- decoding -----

  /** v is what symbol c stands for; a pad stands for zero. */
  predicate StandsFor(c: Byte, v: nat)
  {
    (v < 64 && c as int == Letter(v)) || (c == 0x3D && v == 0)
  }

  /** Byte k of whole group g of the symbols, as far as it is decoded at all, is made of the bits of the
      group's four symbols. */
  lemma {:induction false} ByteAt(y: seq<Byte>, g: nat, k: nat, v0: nat, v1: nat, v2: nat, v3: nat)
    requires PadsAtEnd(y) && 4 * g + 4 <= |y| && k < 3 && 3 * g + k < |Decoded(y)|
    requires StandsFor(y[4 * g], v0) && StandsFor(y[4 * g + 1], v1)
    requires StandsFor(y[4 * g + 2], v2) && StandsFor(y[4 * g + 3], v3)
    ensures Decoded(y)[3 * g + k] == Eight(v0 * 262144 + v1 * 4096 + v2 * 64 + v3, k)
    decreases g
  {
    hide Decoded, Pads, PadsAtEnd, StandsFor, Eight;
    DecodedSplit(y);
    PadsAtEndRest(y);
    if g == 0 {
      GroupIs(y[..4], v0, v1, v2, v3);
      TopBytesAt(GroupValue(y[..4]), 3 - Pads(y[..4]), k);
      if Pads(y[..4]) > 0 {
        PadInGroup(y);
        DecodedFirst(y[4..]);
      }
    } else {
      if Pads(y[..4]) > 0 { PadInGroup(y); }
      ByteAt(y[4..], g - 1, k, v0, v1, v2, v3);
    }
  }

  lemma SextetIs(c: Byte, v: nat)
    requires StandsFor(c, v)
    ensures Sextet(c) == v
  {
    hide EncMap, Letter, Sextet;
    EncMapIsAlphabet(v);
    SextetOf(v);
  }

  lemma GroupIs(q: seq<Byte>, v0: nat, v1: nat, v2: nat, v3: nat)
    requires |q| == 4 && StandsFor(q[0], v0) && StandsFor(q[1], v1) && StandsFor(q[2], v2) && StandsFor(q[3], v3)
    ensures GroupValue(q) == v0 * 262144 + v1 * 4096 + v2 * 64 + v3
  {
    hide StandsFor, Sextet;
    SextetIs(q[0], v0);
    SextetIs(q[1], v1);
    SextetIs(q[2], v2);
    SextetIs(q[3], v3);
  }

  lemma TopBytesAt(v: nat, n: int, k: nat)
    requires v < 0x1_000000 && k < 3
    ensures k < |TopBytes(v, n)| ==> TopBytes(v, n)[k] == Eight(v, k)
  {}

  lemma DecodedSplit(y: seq<Byte>)
    requires |y| >= 4
    ensures Decoded(y) == TopBytes(GroupValue(y[..4]), 3 - Pads(y[..4])) + Decoded(y[4..])
  {
    hide GroupValue, TopBytes, Pads;
  }

  // ----- which texts are accepted -----

  /** From i on there are spaces up to j, where the line or the text ends. */
  predicate SpacesTo(t: seq<Byte>, i: nat, j: nat)
  {
    && i <= j <= |t| && (forall k :: i <= k < j ==> t[k] == 0x20)
    && (j == |t| || t[j] == 0x0A || (t[j] == 0x0D && j + 1 < |t| && t[j + 1] == 0x0A))
  }

  lemma {:induction false} OnlySpacesTo(t: seq<Byte>, i: nat)
    requires i <= |t|
    ensures OnlySpaces(t, i) <==> exists j :: SpacesTo(t, i, j)
    decreases |t| - i
  {
    if LineEnd(t, i) {
      assert SpacesTo(t, i, i);
    } else if t[i] == SPACE {
      var n := i + 1;
      OnlySpacesTo(t, n);
      if j :| SpacesTo(t, n, j) { assert SpacesTo(t, i, j); }
      if j :| SpacesTo(t, i, j) { assert SpacesTo(t, n, j); }
    } else {
      forall j ensures !SpacesTo(t, i, j) {}
    }
  }

  /** c is a letter of the alphabet. */
  ghost predicate IsLetter(c: Byte)
  {
    exists v: nat :: v < 64 && c as int == Letter(v)
  }

  lemma LettersAre(c: Byte)
    ensures DecMap(c) < 64 <==> IsLetter(c)
  {
    hide Letter;
    if DecMap(c) < 64 {
      MapsAgree(0, c);
      EncMapIsAlphabet(DecMap(c));
    }
    if v: nat :| v < 64 && c as int == Letter(v) {
      EncMapIsAlphabet(v);
      SextetOf(v);
      MapsAgree(v, c);
    }
  }

  /** The characters a text may have: letters, pads, line feeds; a carriage return before a line feed;
      spaces before the end of a line or of the text. */
  lemma CharsExactly(t: seq<Byte>, i: nat)
    requires i < |t|
    ensures CharFits(t, i) <==>
            || IsLetter(t[i]) || t[i] == 0x3D || t[i] == 0x0A
            || (t[i] == 0x0D && i + 1 < |t| && t[i + 1] == 0x0A)
            || (t[i] == 0x20 && exists j :: SpacesTo(t, i, j))
  {
    hide IsLetter, OnlySpaces, SpacesTo;
    OnlySpacesTo(t, i);
    LettersAre(t[i]);
    MapsAgree(0, t[i]);
  }

  /** The pads: at most two, at the very end of the symbols. */
  lemma PadsExactly(y: seq<Byte>)
    ensures PadsAtEnd(y) <==> exists k: nat :: PadsFrom(y, k)
  {
    hide Pads;
    if PadsAtEnd(y) {
      var k := FirstPad(y);
      PadsSplit(y, k);
      assert PadsFrom(y, k);
    }
    if k: nat :| PadsFrom(y, k) {
      PadsSplit(y, k);
    }
  }

  predicate PadsFrom(y: seq<Byte>, k: nat)
  {
    && |y| - 2 <= k <= |y|
    && (forall i :: 0 <= i < k ==> y[i] != 0x3D) && forall i :: k <= i < |y| ==> y[i] == 0x3D
  }

  lemma FirstPad(y: seq<Byte>) returns (k: nat)
    requires PadsAtEnd(y)
    ensures k <= |y| && (forall i :: 0 <= i < k ==> y[i] != PAD) && forall i :: k <= i < |y| ==> y[i] == PAD
  {
    hide Pads;
    k := 0;
    while k < |y| && y[k] != PAD
      invariant 0 <= k <= |y| && forall i :: 0 <= i < k ==> y[i] != PAD
    {
      k := k + 1;
    }
  }

  lemma PadsSplit(y: seq<Byte>, k: nat)
    requires k <= |y| && (forall i :: 0 <= i < k ==> y[i] != PAD) && forall i :: k <= i < |y| ==> y[i] == PAD
    ensures Pads(y) == |y| - k
  {
    hide Pads;
    PadsNone(y[..k]);
    PadsAll(y[k..]);
    PadsAppend(y[..k], y[k..]);
    assert y == y[..k] + y[k..];
  }

  /** The symbols are what is left without line feeds, carriage returns and spaces. */
  lemma SymbolsAre(t: seq<Byte>, c: Byte)
    ensures Symbols([]) == []
    ensures Symbols(t + [c]) == if c == 0x0A || c == 0x0D || c == 0x20 then Symbols(t) else Symbols(t) + [c]
  {
    hide Symbols;
    SymbolsNone();
    SymbolsSnoc(t, c);
  }
}
