/** Base64 text (section 4 of RFC 4648): the alphabet, what a byte string is encoded as, which
    texts are accepted, and what an accepted text decodes to. */
module Base64Text {

  type Byte = x: int | 0 <= x < 256

  const SPACE: Byte := 0x20
  const CR: Byte := 0x0D
  const LF: Byte := 0x0A
  const PAD: Byte := 0x3D
  const NO_SYMBOL := 127

  /** base64_enc_map: A-Z, a-z, 0-9, + and /. */
  function EncMap(v: nat): (c: Byte)
    requires v < 64
  {
    if v < 26 then 0x41 + v
    else if v < 52 then 0x61 + (v - 26)
    else if v < 62 then 0x30 + (v - 52)
    else if v == 62 then 0x2B else 0x2F
  }

  /** base64_dec_map: 64 for the pad, 127 for a character that is no symbol. */
  function DecMap(c: Byte): (v: nat)
  {
    if 0x41 <= c <= 0x5A then c - 0x41
    else if 0x61 <= c <= 0x7A then c - 0x61 + 26
    else if 0x30 <= c <= 0x39 then c - 0x30 + 52
    else if c == 0x2B then 62
    else if c == 0x2F then 63
    else if c == PAD then 64
    else NO_SYMBOL
  }

  /** The maps are inverse to each other, and no symbol is white space. */
  lemma MapsAgree(v: nat, c: Byte)
    ensures v < 64 ==> DecMap(EncMap(v)) == v && !White(EncMap(v)) && EncMap(v) != PAD
    ensures DecMap(c) < 64 ==> EncMap(DecMap(c)) == c
    ensures DecMap(c) < 64 || DecMap(c) == NO_SYMBOL || c == PAD
    ensures White(c) ==> DecMap(c) == NO_SYMBOL
  {}

  const UPPER := "ABCDEFGHIJKLMNOPQRSTUVWXYZ"
  const LOWER := "abcdefghijklmnopqrstuvwxyz"
  const FIGURES := "0123456789"

  /** The alphabet of section 4 of RFC 4648. */
  const ALPHABET := UPPER + LOWER + FIGURES + "+/"

  function Letter(v: nat): (c: int)
    requires v < 64
  {
    assert |ALPHABET| == 64;
    ALPHABET[v] as int
  }

  /** The symbols are the characters of the alphabet in its order. */
  lemma EncMapIsAlphabet(v: nat)
    requires v < 64
    ensures EncMap(v) == Letter(v)
  {
    if v < 26 {
      UpperAt(v);
      assert ALPHABET[v] == UPPER[v];
    } else if v < 52 {
      LowerAt(v - 26);
      assert ALPHABET[v] == LOWER[v - 26];
    } else if v < 62 {
      FigureAt(v - 52);
      assert ALPHABET[v] == FIGURES[v - 52];
    } else {
      assert ALPHABET[v] == "+/"[v - 62];
    }
  }

  lemma UpperAt(v: nat)
    requires v < 26
    ensures |UPPER| == 26 && UPPER[v] as int == 0x41 + v
  {}

  lemma LowerAt(v: nat)
    requires v < 26
    ensures |LOWER| == 26 && LOWER[v] as int == 0x61 + v
  {}

  lemma FigureAt(v: nat)
    requires v < 10
    ensures |FIGURES| == 10 && FIGURES[v] as int == 0x30 + v
  {}

  predicate White(c: Byte)
  {
    c == CR || c == LF || c == SPACE
  }

  // ----- encoding -----

  /** Three bytes become four symbols; one or two bytes at the end are padded. */
  function Encoded(s: seq<Byte>): (t: seq<Byte>)
    ensures |t| == (|s| + 2) / 3 * 4
  {
    if s == [] then []
    else if |s| == 1 then [EncMap(s[0] / 4), EncMap(s[0] % 4 * 16), PAD, PAD]
    else if |s| == 2 then [EncMap(s[0] / 4), EncMap(s[0] % 4 * 16 + s[1] / 16), EncMap(s[1] % 16 * 4), PAD]
    else Quad(s[0], s[1], s[2]) + Encoded(s[3..])
  }

  function Quad(a: Byte, b: Byte, c: Byte): (q: seq<Byte>)
    ensures |q| == 4
  {
    [EncMap(a / 4), EncMap(a % 4 * 16 + b / 16), EncMap(b % 16 * 4 + c / 64), EncMap(c % 64)]
  }

  // ----- accepted texts -----

  /** The symbols of a text: everything but white space. */
  function Symbols(t: seq<Byte>): (y: seq<Byte>)
    ensures |y| <= |t|
  {
    if t == [] then []
    else if White(t[|t| - 1]) then Symbols(t[..|t| - 1])
    else Symbols(t[..|t| - 1]) + [t[|t| - 1]]
  }

  function Pads(y: seq<Byte>): (j: nat)
    ensures j <= |y|
  {
    if y == [] then 0 else Pads(y[..|y| - 1]) + (if y[|y| - 1] == PAD then 1 else 0)
  }

  predicate LineEnd(t: seq<Byte>, i: nat)
    requires i <= |t|
  {
    i == |t| || t[i] == LF || (t[i] == CR && i + 1 < |t| && t[i + 1] == LF)
  }

  /** Nothing but spaces up to the end of the line. */
  predicate OnlySpaces(t: seq<Byte>, i: nat)
    requires i <= |t|
    decreases |t| - i
  {
    LineEnd(t, i) || (t[i] == SPACE && OnlySpaces(t, i + 1))
  }

  /** Character i may stand where it stands: spaces only at line ends, CR only before LF. */
  predicate CharFits(t: seq<Byte>, i: nat)
    requires i < |t|
  {
    DecMap(t[i]) != NO_SYMBOL || t[i] == LF
    || (t[i] == CR && LineEnd(t, i)) || (t[i] == SPACE && OnlySpaces(t, i))
  }

  /** At most two pads, and nothing behind a pad but pads. */
  predicate PadsAtEnd(y: seq<Byte>)
  {
    Pads(y) <= 2 && forall a, b :: 0 <= a < b < |y| && y[a] == PAD ==> y[b] == PAD
  }

  predicate Acceptable(t: seq<Byte>)
  {
    (forall i :: 0 <= i < |t| ==> CharFits(t, i)) && PadsAtEnd(Symbols(t))
  }

  // ----- decoding -----

  /** The six bits of a symbol; a pad counts as zero. */
  function Sextet(c: Byte): (v: nat)
    ensures v < 64
  {
    DecMap(c) % 64
  }

  function GroupValue(g: seq<Byte>): (v: nat)
    requires |g| == 4
    ensures v < 0x1_000000
  {
    ((Sextet(g[0]) * 64 + Sextet(g[1])) * 64 + Sextet(g[2])) * 64 + Sextet(g[3])
  }

  /** The first n bytes of a 24-bit number. */
  function TopBytes(v: nat, n: int): (s: seq<Byte>)
    requires v < 0x1_000000
    ensures |s| == if n < 0 then 0 else if n > 3 then 3 else n
  {
    (if n > 0 then [v / 65536] else []) + (if n > 1 then [v / 256 % 256] else [])
    + (if n > 2 then [v % 256] else [])
  }

  /** Whole groups of four symbols, each giving a byte less for every pad; a rest is dropped. */
  function Decoded(y: seq<Byte>): (s: seq<Byte>)
  {
    if |y| < 4 then []
    else TopBytes(GroupValue(y[..4]), 3 - Pads(y[..4])) + Decoded(y[4..])
  }

  /** The length that the first pass computes from n symbols with j pads. */
  function Needed(n: nat, j: int): int
  {
    6 * (n / 8) + (6 * (n % 8) + 7) / 8 - j
  }

  // ----- laws -----

  lemma SymbolsNone()
    ensures Symbols([]) == []
  {}

  lemma SymbolsSnoc(t: seq<Byte>, c: Byte)
    ensures Symbols(t + [c]) == if White(c) then Symbols(t) else Symbols(t) + [c]
  {
    assert (t + [c])[..|t|] == t;
  }

  lemma {:induction false} SymbolsAppend(a: seq<Byte>, b: seq<Byte>)
    ensures Symbols(a + b) == Symbols(a) + Symbols(b)
    decreases |b|
  {
    hide Symbols, White;
    if b == [] {
      assert a + b == a;
      SymbolsNone();
    } else {
      var m := |b| - 1;
      SymbolsAppend(a, b[..m]);
      SymbolsSnoc(a + b[..m], b[m]);
      SymbolsSnoc(b[..m], b[m]);
      assert a + b == (a + b[..m]) + [b[m]] && b == b[..m] + [b[m]];
    }
  }

  lemma {:induction false} PadsAppend(a: seq<Byte>, b: seq<Byte>)
    ensures Pads(a + b) == Pads(a) + Pads(b)
    decreases |b|
  {
    if b == [] {
      assert a + b == a;
    } else {
      var m := |b| - 1;
      PadsAppend(a, b[..m]);
      assert (a + b)[..|a| + m] == a + b[..m];
    }
  }

  lemma {:induction false} PadsNone(y: seq<Byte>)
    requires forall i :: 0 <= i < |y| ==> y[i] != PAD
    ensures Pads(y) == 0
  {
    if y != [] { PadsNone(y[..|y| - 1]); }
  }

  lemma {:induction false} PadsAll(y: seq<Byte>)
    requires forall i :: 0 <= i < |y| ==> y[i] == PAD
    ensures Pads(y) == |y|
  {
    if y != [] { PadsAll(y[..|y| - 1]); }
  }

  lemma NeededStep(n: nat, j: int, p: int)
    ensures Needed(n + 4, j + p) == Needed(n, j) + 3 - p
  {}

  lemma NeededSmall(n: nat, j: int)
    requires n < 4
    ensures Needed(n, j) == n - j
  {}

  lemma DecodedFirst(y: seq<Byte>)
    ensures |y| < 4 ==> Decoded(y) == []
    ensures |y| >= 4 ==> |Decoded(y)| == (if Pads(y[..4]) > 3 then 0 else 3 - Pads(y[..4])) + |Decoded(y[4..])|
  {
    hide Pads, GroupValue;
  }

  lemma PadsAtEndRest(y: seq<Byte>)
    requires |y| >= 4 && PadsAtEnd(y)
    ensures PadsAtEnd(y[4..]) && Pads(y) == Pads(y[..4]) + Pads(y[4..])
  {
    hide Pads;
    assert y == y[..4] + y[4..];
    PadsAppend(y[..4], y[4..]);
    var rest := y[4..];
    forall a, b | 0 <= a < b < |rest| && rest[a] == PAD ensures rest[b] == PAD {
      assert rest[a] == y[a + 4] && rest[b] == y[b + 4];
    }
  }

  /** How many bytes are written, against the length computed beforehand: never more, and exactly as
      many when there are at least as many pads as symbols behind the last whole group, so whenever
      the number of symbols is a multiple of four. */
  lemma {:induction false} WrittenAgainstComputed(y: seq<Byte>)
    requires PadsAtEnd(y)
    ensures |Decoded(y)| <= Needed(|y|, Pads(y))
    ensures |Decoded(y)| == Needed(|y|, Pads(y)) <==> Pads(y) >= |y| % 4
  {
    hide Pads, Needed, PadsAtEnd, Decoded;
    DecodedFirst(y);
    if |y| < 4 {
      NeededSmall(|y|, Pads(y));
    } else {
      PadsAtEndRest(y);
      WrittenAgainstComputed(y[4..]);
      NeededStep(|y| - 4, Pads(y[4..]), Pads(y[..4]));
      if Pads(y[..4]) > 0 { PadInGroup(y); }
    }
  }

  /** A pad in the first group: all that follows is pads, too few for another group. */
  lemma PadInGroup(y: seq<Byte>)
    requires |y| >= 4 && PadsAtEnd(y) && Pads(y[..4]) > 0
    ensures Pads(y[4..]) == |y| - 4 <= 1 && Pads(y[..4]) <= 2
  {
    hide Pads;
    var g, rest := y[..4], y[4..];
    assert y == g + rest;
    PadsAppend(g, rest);
    if forall i :: 0 <= i < 4 ==> g[i] != PAD { PadsNone(g); assert false; }
    var i :| 0 <= i < 4 && g[i] == PAD;
    assert y[i] == PAD;
    forall b | 0 <= b < |rest| ensures rest[b] == PAD { assert rest[b] == y[b + 4]; }
    PadsAll(rest);
  }

  // ----- round trip -----

  predicate IsSymbol(c: Byte)
  {
    DecMap(c) != NO_SYMBOL
  }

  lemma SextetOf(v: nat)
    requires v < 64
    ensures Sextet(EncMap(v)) == v && IsSymbol(EncMap(v)) && EncMap(v) != PAD
    ensures Sextet(PAD) == 0 && IsSymbol(PAD)
  {}

  lemma TopBytesIs(v: nat, a: Byte, b: Byte, c: Byte)
    requires v == a * 65536 + b * 256 + c
    ensures v < 0x1_000000
    ensures TopBytes(v, 3) == [a, b, c] && TopBytes(v, 2) == [a, b] && TopBytes(v, 1) == [a]
  {
    assert v / 256 == a * 256 + b;
  }

  lemma SextetsOfBytes(a: Byte, b: Byte, c: Byte)
    ensures ((a / 4 * 64 + (a % 4 * 16 + b / 16)) * 64 + (b % 16 * 4 + c / 64)) * 64 + c % 64 == a * 65536 + b * 256 + c
  {
    assert a == a / 4 * 4 + a % 4 && b == b / 16 * 16 + b % 16 && c == c / 64 * 64 + c % 64;
  }

  /** The symbols of three bytes stand for the number that the bytes form. */
  lemma QuadValue(a: Byte, b: Byte, c: Byte)
    ensures GroupValue(Quad(a, b, c)) == a * 65536 + b * 256 + c
    ensures forall i :: 0 <= i < 4 ==> IsSymbol(Quad(a, b, c)[i]) && Quad(a, b, c)[i] != PAD
  {
    SextetOf(a / 4);
    SextetOf(a % 4 * 16 + b / 16);
    SextetOf(b % 16 * 4 + c / 64);
    SextetOf(c % 64);
    hide Sextet, EncMap, IsSymbol;
    SextetsOfBytes(a, b, c);
  }

  lemma QuadBack(a: Byte, b: Byte, c: Byte)
    ensures var q := Quad(a, b, c);
      && TopBytes(GroupValue(q), 3) == [a, b, c] && Pads(q) == 0
      && forall i :: 0 <= i < 4 ==> IsSymbol(q[i]) && q[i] != PAD
  {
    hide GroupValue, TopBytes, Quad, IsSymbol;
    QuadValue(a, b, c);
    TopBytesIs(GroupValue(Quad(a, b, c)), a, b, c);
    PadsNone(Quad(a, b, c));
  }

  /** The last group: what is missing counts as zero. */
  lemma TailValue(s: seq<Byte>)
    requires 1 <= |s| <= 2
    ensures var b: int := if |s| == 2 then s[1] else 0;
      |Encoded(s)| == 4 && GroupValue(Encoded(s)) == s[0] * 65536 + b * 256
    ensures forall i :: 0 <= i < 4 ==> IsSymbol(Encoded(s)[i]) && (Encoded(s)[i] == PAD <==> i > |s|)
  {
    var b: Byte := if |s| == 2 then s[1] else 0;
    SextetOf(s[0] / 4);
    SextetOf(s[0] % 4 * 16 + b / 16);
    SextetOf(b % 16 * 4);
    hide Sextet, EncMap, IsSymbol;
    SextetsOfBytes(s[0], b, 0);
  }

  lemma TailBack(s: seq<Byte>)
    requires 1 <= |s| <= 2
    ensures var g := Encoded(s);
      && |g| == 4 && TopBytes(GroupValue(g), 3 - Pads(g)) == s && PadsAtEnd(g)
      && forall i :: 0 <= i < 4 ==> IsSymbol(g[i])
  {
    hide GroupValue, TopBytes, Encoded, IsSymbol, Pads;
    var g := Encoded(s);
    TailValue(s);
    TopBytesIs(GroupValue(g), s[0], if |s| == 2 then s[1] else 0, 0);
    PadsNone(g[..|s| + 1]);
    PadsAll(g[|s| + 1..]);
    PadsAppend(g[..|s| + 1], g[|s| + 1..]);
    assert g == g[..|s| + 1] + g[|s| + 1..];
    assert if |s| == 1 then s == [s[0]] else s == [s[0], s[1]];
  }

  /** Decoding the encoding gives the bytes back, and the encoding is well formed. */
  lemma {:induction false} EncodedBack(s: seq<Byte>)
    ensures Decoded(Encoded(s)) == s && PadsAtEnd(Encoded(s))
    ensures forall i :: 0 <= i < |Encoded(s)| ==> IsSymbol(Encoded(s)[i])
  {
    hide GroupValue, TopBytes, IsSymbol, Encoded, Decoded, Pads, PadsAtEnd, Quad;
    EncodedStep(s);
    if s == [] {
      NothingDecoded();
    } else if |s| <= 2 {
      TailBack(s);
      DecodedGroup(Encoded(s), []);
      NothingDecoded();
      assert Encoded(s) + [] == Encoded(s);
    } else {
      var q := Quad(s[0], s[1], s[2]);
      QuadBack(s[0], s[1], s[2]);
      EncodedBack(s[3..]);
      DecodedGroup(q, Encoded(s[3..]));
      PadsAtEndBehind(q, Encoded(s[3..]));
      assert s == [s[0], s[1], s[2]] + s[3..];
    }
  }

  lemma EncodedStep(s: seq<Byte>)
    ensures |s| >= 3 ==> Encoded(s) == Quad(s[0], s[1], s[2]) + Encoded(s[3..])
    ensures s == [] ==> Encoded(s) == []
  {}

  lemma NothingDecoded()
    ensures Decoded([]) == [] && PadsAtEnd([])
  {}

  lemma DecodedGroup(g: seq<Byte>, y: seq<Byte>)
    requires |g| == 4
    ensures Decoded(g + y) == TopBytes(GroupValue(g), 3 - Pads(g)) + Decoded(y)
  {
    hide GroupValue, Pads, TopBytes;
    assert (g + y)[..4] == g && (g + y)[4..] == y;
  }

  lemma PadsAtEndBehind(q: seq<Byte>, y: seq<Byte>)
    requires PadsAtEnd(y) && Pads(q) == 0 && forall i :: 0 <= i < |q| ==> q[i] != PAD
    ensures PadsAtEnd(q + y)
  {
    hide Pads;
    PadsAppend(q, y);
    var t := q + y;
    forall a, b | 0 <= a < b < |t| && t[a] == PAD ensures t[b] == PAD {
      assert t[a] == y[a - |q|] && t[b] == y[b - |q|];
    }
  }

  /** t is e with line breaks put in: before any symbol and at the end, LF or CR LF, with any
      number of spaces before each. */
  predicate Broken(t: seq<Byte>, e: seq<Byte>)
    decreases |t|
  {
    if t == [] then e == []
    else if t[0] == LF || t[0] == CR || t[0] == SPACE then CharFits(t, 0) && Broken(t[1..], e)
    else e != [] && t[0] == e[0] && Broken(t[1..], e[1..])
  }

  lemma {:induction false} OnlySpacesShift(t: seq<Byte>, i: nat)
    requires 1 <= i <= |t|
    ensures OnlySpaces(t, i) == OnlySpaces(t[1..], i - 1) && LineEnd(t, i) == LineEnd(t[1..], i - 1)
    decreases |t| - i
  {
    if i < |t| { OnlySpacesShift(t, i + 1); }
  }

  /** A text with line breaks put in has the same symbols and is accepted if they are. */
  lemma {:induction false} BrokenHasSymbols(t: seq<Byte>, e: seq<Byte>)
    requires Broken(t, e) && forall i :: 0 <= i < |e| ==> IsSymbol(e[i])
    ensures Symbols(t) == e
    ensures forall i :: 0 <= i < |t| ==> CharFits(t, i)
    decreases |t|
  {
    hide OnlySpaces, LineEnd, DecMap;
    if t != [] {
      var rest := t[1..];
      assert t == [t[0]] + rest;
      SymbolsAppend([t[0]], rest);
      SymbolsSnoc([], t[0]);
      assert [] + [t[0]] == [t[0]];
      MapsAgree(0, t[0]);
      BrokenHasSymbols(rest, if White(t[0]) then e else e[1..]);
      forall i | 1 <= i < |t| ensures CharFits(t, i) {
        OnlySpacesShift(t, i);
        assert CharFits(rest, i - 1);
      }
    }
  }

  lemma MultipleOfFour(k: nat)
    ensures k * 4 % 4 == 0
  {}

  /** The law of the two routines: every text that is the encoding of s with line breaks put in is
      accepted and decodes to s, and the computed length is exact. */
  lemma RoundTrip(s: seq<Byte>, t: seq<Byte>)
    requires Broken(t, Encoded(s))
    ensures Acceptable(t) && Decoded(Symbols(t)) == s
    ensures Needed(|Symbols(t)|, Pads(Symbols(t))) == |s|
  {
    hide CharFits, Pads, Decoded, Encoded, Needed, Broken, IsSymbol, Symbols, PadsAtEnd;
    EncodedBack(s);
    MultipleOfFour((|s| + 2) / 3);
    BrokenHasSymbols(t, Encoded(s));
    WrittenAgainstComputed(Encoded(s));
  }

  /** In particular the encoding itself. */
  lemma {:induction false} UnbrokenIsBroken(e: seq<Byte>)
    requires forall i :: 0 <= i < |e| ==> IsSymbol(e[i])
    ensures Broken(e, e)
  {
    if e != [] {
      MapsAgree(0, e[0]);
      UnbrokenIsBroken(e[1..]);
    }
  }

  /** So decoding what was encoded gives the bytes back. */
  lemma PlainRoundTrip(s: seq<Byte>, t: seq<Byte>, y: seq<Byte>)
    requires t == Encoded(s) && y == Symbols(t)
    ensures Acceptable(t) && Decoded(y) == s && Needed(|y|, Pads(y)) == |s|
  {
    hide Encoded, Decoded, Symbols, Acceptable, Needed, Pads, IsSymbol, Broken;
    EncodedBack(s);
    UnbrokenIsBroken(t);
    RoundTrip(s, t);
  }
}
