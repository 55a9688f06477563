/** The base64 routines. */
module Base64 {
  import opened Base64Text
  import opened Numbers

  datatype Status = Ok | InvalidCharacter | BufferTooSmall

  const SIZE_T_MAX: nat := 0xFFFF_FFFF_FFFF_FFFF

  // ----- mbedtls_base64_encode -----

  /** Encode src into dst, with a terminating zero; olen is the length written without the zero, or
      the length needed (as far as a size can express it). */
  method Encode(dst: array?<Byte>, dlen: nat, src: seq<Byte>) returns (ret: Status, olen: nat)
    requires dst != null ==> dlen <= dst.Length
    requires dlen <= SIZE_T_MAX && |src| <= SIZE_T_MAX
    modifies dst
    ensures ret == if src != [] && (dst == null || dlen < |Encoded(src)| + 1) then BufferTooSmall else Ok
    ensures ret == BufferTooSmall ==>
              olen == if |Encoded(src)| + 1 > SIZE_T_MAX then SIZE_T_MAX else |Encoded(src)| + 1
    ensures ret == Ok ==> olen == |Encoded(src)|
    ensures ret == Ok && src != [] ==>
              dst[..olen + 1] == Encoded(src) + [0] && dst[olen + 1..] == old(dst[olen + 1..])
    ensures dst != null && (ret != Ok || src == []) ==> dst[..] == old(dst[..])
  {
    hide Encoded;
    if src == [] { return Ok, 0; }
    var slen := |src|;
    var n := slen / 3 + (if slen % 3 != 0 then 1 else 0);
    GroupCount(slen);
    if n > (SIZE_T_MAX - 1) / 4 {
      return BufferTooSmall, SIZE_T_MAX;
    }
    n := n * 4;
    if dlen < n + 1 || dst == null {
      return BufferTooSmall, n + 1;
    }
    var p := Fill(dst, src);
    dst[p] := 0;
    return Ok, p;
  }

  lemma GroupCount(slen: nat)
    ensures slen / 3 + (if slen % 3 != 0 then 1 else 0) == (slen + 2) / 3
  {}

  /** The loop over whole groups, and the padded group at the end. */
  method Fill(dst: array<Byte>, src: seq<Byte>) returns (p: nat)
    requires |Encoded(src)| <= dst.Length
    modifies dst
    ensures p == |Encoded(src)| && dst[..p] == Encoded(src)
    ensures forall k :: p <= k < dst.Length ==> dst[k] == old(dst[k])
  {
    hide Encoded, EncMap, Quad;
    var n := |src| / 3 * 3;
    var i := 0;
    p := 0;
    assert src[0..] == src;
    while i < n
      invariant i % 3 == 0 && 0 <= i <= n && p <= dst.Length
      invariant dst[..p] + Encoded(src[i..]) == Encoded(src)
      invariant forall k :: p <= k < dst.Length ==> dst[k] == old(dst[k])
    {
      EncodedRest(src, i);
      ghost var was := dst[..p];
      EncodeThree(dst, p, src[i], src[i + 1], src[i + 2]);
      Regroup(was, Quad(src[i], src[i + 1], src[i + 2]), Encoded(src[i + 3..]));
      i := i + 3;
      p := p + 4;
    }
    if i < |src| {
      p := EncodeLast(dst, p, src[i..]);
    } else {
      assert src[i..] == [];
      EncodedStep([]);
    }
  }

  lemma Regroup(a: seq<Byte>, b: seq<Byte>, c: seq<Byte>)
    ensures (a + b) + c == a + (b + c)
  {}

  lemma EncodedRest(src: seq<Byte>, i: nat)
    requires i + 3 <= |src|
    ensures Encoded(src[i..]) == Quad(src[i], src[i + 1], src[i + 2]) + Encoded(src[i + 3..])
  {
    hide Encoded, Quad;
    EncodedStep(src[i..]);
    assert src[i..][3..] == src[i + 3..];
  }

  method EncodeThree(dst: array<Byte>, p: nat, C1: Byte, C2: Byte, C3: Byte)
    requires p + 4 <= dst.Length
    modifies dst
    ensures dst[..p + 4] == old(dst[..p]) + Quad(C1, C2, C3)
    ensures forall k :: p + 4 <= k < dst.Length ==> dst[k] == old(dst[k])
  {
    hide EncMap;
    dst[p] := EncMap(C1 / 4 % 64);
    dst[p + 1] := EncMap((C1 % 4 * 16 + C2 / 16) % 64);
    dst[p + 2] := EncMap((C2 % 16 * 4 + C3 / 64) % 64);
    dst[p + 3] := EncMap(C3 % 64);
  }

  method EncodeLast(dst: array<Byte>, p: nat, rest: seq<Byte>) returns (p': nat)
    requires 1 <= |rest| <= 2 && p + 4 <= dst.Length
    modifies dst
    ensures p' == p + 4 && dst[..p'] == old(dst[..p]) + Encoded(rest)
    ensures forall k :: p' <= k < dst.Length ==> dst[k] == old(dst[k])
  {
    hide EncMap;
    var C1: int := rest[0];
    var C2: int := if 1 < |rest| then rest[1] else 0;
    dst[p] := EncMap(C1 / 4 % 64);
    dst[p + 1] := EncMap((C1 % 4 * 16 + C2 / 16) % 64);
    if 1 < |rest| {
      dst[p + 2] := EncMap(C2 % 16 * 4 % 64);
    } else {
      dst[p + 2] := PAD;
    }
    dst[p + 3] := PAD;
    p' := p + 4;
  }

  // ----- mbedtls_base64_decode -----

  /** Decode src into dst; olen is the length written, or the length needed. */
  method Decode(dst: array?<Byte>, dlen: nat, src: seq<Byte>) returns (ret: Status, olen: nat)
    requires dst != null ==> dlen <= dst.Length
    modifies dst
    ensures ret == InvalidCharacter <==> !Acceptable(src)
    ensures Acceptable(src) ==>
      (ret == BufferTooSmall <==>
        Symbols(src) != [] && (dst == null || dlen < Needed(|Symbols(src)|, Pads(Symbols(src)))))
    ensures ret == BufferTooSmall ==> olen == Needed(|Symbols(src)|, Pads(Symbols(src)))
    ensures ret == Ok ==> olen == |Decoded(Symbols(src))|
    ensures ret == Ok && Symbols(src) != [] ==>
              dst != null && olen <= dlen && dst[..olen] == Decoded(Symbols(src))
              && forall k :: olen <= k < dst.Length ==> dst[k] == old(dst[k])
    ensures dst != null && (ret != Ok || Symbols(src) == []) ==> dst[..] == old(dst[..])
  {
    hide Symbols, Pads, Decoded, Acceptable;
    olen := 0;
    var ok, n, j := Scan(src);
    if !ok { return InvalidCharacter, olen; }
    if n == 0 {
      DecodedFirst(Symbols(src));
      return Ok, olen;
    }
    WrittenFits(src);
    n := 6 * (n / 8) + (6 * (n % 8) + 7) / 8 - j;
    if dst == null || dlen < n {
      return BufferTooSmall, n;
    }
    olen := Emit(dst, src);
    return Ok, olen;
  }

  lemma WrittenFits(src: seq<Byte>)
    requires Acceptable(src)
    ensures |Decoded(Symbols(src))| <= Needed(|Symbols(src)|, Pads(Symbols(src)))
  {
    hide Decoded, Needed, Symbols, Pads, PadsAtEnd;
    WrittenAgainstComputed(Symbols(src));
  }

  /** The first pass: are the characters valid, and how many symbols and pads are there? */
  method Scan(src: seq<Byte>) returns (ok: bool, n: nat, j: nat)
    ensures ok == Acceptable(src)
    ensures ok ==> n == |Symbols(src)| && j == Pads(Symbols(src))
  {
    hide Symbols, Pads, PadsAtEnd, CharFits, OnlySpaces, Scanned, Acceptable;
    var i := 0;
    n, j := 0, 0;
    ScanStart(src);
    while i < |src|
      invariant 0 <= i <= |src| && Scanned(src, i, n, j)
      decreases |src| - i
    {
      var x := 0;
      ghost var i0 := i;
      while i < |src| && src[i] == SPACE
        invariant i0 <= i <= |src| && x == i - i0
        invariant forall k :: i0 <= k < i ==> src[k] == SPACE
        decreases |src| - i
      {
        i := i + 1;
        x := x + 1;
      }
      ScanSpaces(src, i0, i, n, j);
      if i == |src| { break; }
      if |src| - i >= 2 && src[i] == CR && src[i + 1] == LF {
        ScanWhite(src, i, n, j);
        i := i + 1;
        continue;
      }
      if src[i] == LF {
        ScanWhite(src, i, n, j);
        i := i + 1;
        continue;
      }
      if x != 0 {
        return false, n, j;
      }
      if src[i] == PAD {
        j := j + 1;
        if j > 2 {
          ScanBad(src, i, n, j - 1);
          return false, n, j;
        }
      }
      if src[i] > 127 || DecMap(src[i]) == NO_SYMBOL {
        ScanNoSymbol(src, i);
        return false, n, j;
      }
      MapsAgree(0, src[i]);
      if DecMap(src[i]) < 64 && j != 0 {
        ScanBad(src, i, n, j);
        return false, n, j;
      }
      ScanSymbol(src, i, n, if src[i] == PAD then j - 1 else j);
      n := n + 1;
      i := i + 1;
    }
    ScanDone(src, n, j);
    return true, n, j;
  }

  /** Everything before position i fits and the pads there are at the end. */
  ghost predicate Scanned(src: seq<Byte>, i: nat, n: nat, j: nat)
  {
    && i <= |src|
    && (forall k :: 0 <= k < i ==> CharFits(src, k))
    && var y := Symbols(src[..i]);
    n == |y| && j == Pads(y) && PadsAtEnd(y)
  }

  lemma ScanStart(src: seq<Byte>)
    ensures Scanned(src, 0, 0, 0)
  {}

  /** Spaces from i0 to i, and something else at i. */
  lemma ScanSpaces(src: seq<Byte>, i0: nat, i: nat, n: nat, j: nat)
    requires Scanned(src, i0, n, j) && i0 <= i <= |src|
    requires forall k :: i0 <= k < i ==> src[k] == SPACE
    requires i < |src| ==> src[i] != SPACE
    ensures LineEnd(src, i) || i == i0 ==> Scanned(src, i, n, j)
    ensures !LineEnd(src, i) && i0 < i ==> !Acceptable(src)
  {
    hide Symbols, Pads, PadsAtEnd, LineEnd, OnlySpaces;
    OnlySpacesRun(src, i0, i);
    SymbolsSpaces(src, i0, i);
    if !LineEnd(src, i) && i0 < i { assert !CharFits(src, i0); }
  }

  lemma {:induction false} OnlySpacesRun(src: seq<Byte>, i0: nat, i: nat)
    requires i0 <= i <= |src| && forall k :: i0 <= k < i ==> src[k] == SPACE
    requires i < |src| ==> src[i] != SPACE
    ensures forall k :: i0 <= k <= i ==> OnlySpaces(src, k) == LineEnd(src, i)
    decreases i - i0
  {
    if i0 < i { OnlySpacesRun(src, i0 + 1, i); }
  }

  lemma {:induction false} SymbolsSpaces(src: seq<Byte>, i0: nat, i: nat)
    requires i0 <= i <= |src| && forall k :: i0 <= k < i ==> src[k] == SPACE
    ensures Symbols(src[..i]) == Symbols(src[..i0])
  {
    hide Symbols;
    if i0 < i {
      SymbolsSpaces(src, i0, i - 1);
      PrefixSymbols(src, i - 1);
    }
  }

  lemma PrefixSymbols(src: seq<Byte>, i: nat)
    requires i < |src|
    ensures Symbols(src[..i + 1]) == if White(src[i]) then Symbols(src[..i]) else Symbols(src[..i]) + [src[i]]
  {
    hide Symbols, White;
    assert src[..i + 1] == src[..i] + [src[i]];
    SymbolsSnoc(src[..i], src[i]);
  }

  lemma ScanWhite(src: seq<Byte>, i: nat, n: nat, j: nat)
    requires i < |src| && Scanned(src, i, n, j)
    requires src[i] == LF || (src[i] == CR && i + 1 < |src| && src[i + 1] == LF)
    ensures Scanned(src, i + 1, n, j)
  {
    hide Symbols, Pads, PadsAtEnd;
    PrefixSymbols(src, i);
  }

  lemma ScanSymbol(src: seq<Byte>, i: nat, n: nat, j: nat)
    requires i < |src| && Scanned(src, i, n, j) && DecMap(src[i]) != NO_SYMBOL
    requires if src[i] == PAD then j < 2 else j == 0
    ensures Scanned(src, i + 1, n + 1, if src[i] == PAD then j + 1 else j)
  {
    hide Symbols, DecMap, Pads;
    MapsAgree(0, src[i]);
    PrefixSymbols(src, i);
    PadsSnoc(Symbols(src[..i]), src[i]);
  }

  lemma PadsSnoc(y: seq<Byte>, c: Byte)
    requires PadsAtEnd(y)
    ensures Pads(y + [c]) == Pads(y) + if c == PAD then 1 else 0
    ensures PadsAtEnd(y + [c]) <==> if c == PAD then Pads(y) < 2 else Pads(y) == 0
  {
    var t := y + [c];
    assert t[..|y|] == y;
    if c != PAD {
      hide Pads;
      if Pads(y) == 0 {
        NoPads(y);
      } else if forall i :: 0 <= i < |y| ==> y[i] != PAD {
        PadsNone(y);
        assert false;
      } else {
        var i :| 0 <= i < |y| && y[i] == PAD;
        assert t[i] == PAD && t[|y|] != PAD;
      }
    } else {
      hide Pads;
      forall a, b | 0 <= a < b < |t| && t[a] == PAD ensures t[b] == PAD {
        if b < |y| { assert y[a] == PAD; }
      }
    }
  }

  lemma {:induction false} NoPads(y: seq<Byte>)
    requires Pads(y) == 0
    ensures forall i :: 0 <= i < |y| ==> y[i] != PAD
  {
    if y != [] { NoPads(y[..|y| - 1]); }
  }

  /** A third pad, or a symbol behind a pad. */
  lemma ScanBad(src: seq<Byte>, i: nat, n: nat, j: nat)
    requires i < |src| && Scanned(src, i, n, j) && !White(src[i])
    requires if src[i] == PAD then j >= 2 else j > 0
    ensures !Acceptable(src)
  {
    hide Symbols, Pads, White;
    var y := Symbols(src[..i]);
    PrefixSymbols(src, i);
    PadsSnoc(y, src[i]);
    assert src == src[..i + 1] + src[i + 1..];
    SymbolsAppend(src[..i + 1], src[i + 1..]);
    if PadsAtEnd(Symbols(src)) { PadsAtEndFront(y + [src[i]], Symbols(src[i + 1..])); }
  }

  lemma PadsAtEndFront(a: seq<Byte>, b: seq<Byte>)
    requires PadsAtEnd(a + b)
    ensures PadsAtEnd(a)
  {
    hide Pads;
    PadsAppend(a, b);
    forall i, k | 0 <= i < k < |a| && a[i] == PAD ensures a[k] == PAD {
      assert (a + b)[i] == a[i] && (a + b)[k] == a[k];
    }
  }

  lemma ScanNoSymbol(src: seq<Byte>, i: nat)
    requires i < |src| && DecMap(src[i]) == NO_SYMBOL && src[i] != SPACE && src[i] != LF
    requires src[i] == CR ==> !(i + 1 < |src| && src[i + 1] == LF)
    ensures !Acceptable(src)
  {
    assert !CharFits(src, i);
  }

  lemma ScanDone(src: seq<Byte>, n: nat, j: nat)
    requires Scanned(src, |src|, n, j)
    ensures Acceptable(src) && n == |Symbols(src)| && j == Pads(Symbols(src))
  {
    assert src[..|src|] == src;
  }

  // ----- the second pass -----

  /** Write the bytes of every group of four symbols. */
  method Emit(dst: array<Byte>, src: seq<Byte>) returns (p: nat)
    requires Acceptable(src) && |Decoded(Symbols(src))| <= dst.Length
    modifies dst
    ensures p == |Decoded(Symbols(src))| && dst[..p] == Decoded(Symbols(src))
    ensures forall k :: p <= k < dst.Length ==> dst[k] == old(dst[k])
  {
    hide Symbols, Decoded, Emitted, White, DecMap, TopBytes, Acceptable;
    var n: nat, x: nat := 0, 0;
    var j: int := 3;
    p := 0;
    var i := 0;
    EmitStart(src, dst[..0]);
    while i < |src|
      invariant i <= |src| && n < 4 && p <= dst.Length && Emitted(src, i, n, j, x, dst[..p])
      invariant forall k :: p <= k < dst.Length ==> dst[k] == old(dst[k])
      decreases |src| - i
    {
      EmitStep(src, i, n, j, x, dst[..p]);
      if White(src[i]) {
        i := i + 1;
        continue;
      }
      j := j - (if DecMap(src[i]) == 64 then 1 else 0);
      x := (x * 64 + DecMap(src[i]) % 64) % 0x1_0000_0000;
      n := n + 1;
      if n == 4 {
        n := 0;
        EmitRoom(src, i + 1, j, x, dst[..p] + TopBytes(x % 0x1_000000, j));
        p := EmitGroup(dst, p, j, x);
      }
      i := i + 1;
    }
    EmitDone(src, n, j, x, dst[..p]);
  }

  /** The three conditional writes. */
  method EmitGroup(dst: array<Byte>, p: nat, j: int, x: nat) returns (p': nat)
    requires p + |TopBytes(x % 0x1_000000, j)| <= dst.Length
    modifies dst
    ensures p' == p + |TopBytes(x % 0x1_000000, j)|
    ensures dst[..p'] == old(dst[..p]) + TopBytes(x % 0x1_000000, j)
    ensures forall k :: p' <= k < dst.Length ==> dst[k] == old(dst[k])
  {
    p' := p;
    LowThreeBytes(x);
    if j > 0 { dst[p'] := x / 65536 % 256; p' := p' + 1; }
    if j > 1 { dst[p'] := x / 256 % 256; p' := p' + 1; }
    if j > 2 { dst[p'] := x % 256; p' := p' + 1; }
  }

  lemma LowThreeBytes(x: nat)
    ensures var v := x % 0x1_000000;
      v / 65536 == x / 65536 % 256 && v / 256 % 256 == x / 256 % 256 && v % 256 == x % 256
  {
    var t, c := x / 256, x % 256;
    var u, b := t / 256, t % 256;
    var q, a := u / 256, u % 256;
    var v := a * 65536 + b * 256 + c;
    DivModUnique(x, 0x1_000000, q, v);
    DivModUnique(x, 65536, u, b * 256 + c);
    DivModUnique(v, 65536, a, b * 256 + c);
    DivModUnique(v, 256, a * 256 + b, c);
    DivModUnique(a * 256 + b, 256, a, b);
  }

  /** The number that symbols form. */
  function Horner(g: seq<Byte>): (v: nat)
  {
    if g == [] then 0 else Horner(g[..|g| - 1]) * 64 + Sextet(g[|g| - 1])
  }

  /** 64 to the power n, for an incomplete group. */
  function Low(n: nat): (m: nat)
  {
    if n == 0 then 1 else if n == 1 then 64 else if n == 2 then 4096 else if n == 3 then 262144 else 0x1_000000
  }

  /** The symbols y have been read: whole groups are written out, and the low bits of x hold the n
      symbols behind them. */
  ghost predicate Grouped(y: seq<Byte>, n: nat, j: int, x: nat, out: seq<Byte>)
  {
    && n < 4 && n == |y| % 4 && j == 3 - Pads(y)
    && out == Decoded(y[..|y| - n])
    && x % Low(n) == Horner(y[|y| - n..])
  }

  /** The state of the second pass at position i. */
  ghost predicate Emitted(src: seq<Byte>, i: nat, n: nat, j: int, x: nat, out: seq<Byte>)
  {
    i <= |src| && n < 4 && Acceptable(src) && Grouped(Symbols(src[..i]), n, j, x, out)
  }

  lemma EmitStart(src: seq<Byte>, out: seq<Byte>)
    requires Acceptable(src) && out == []
    ensures Emitted(src, 0, 0, 3, 0, out)
  {
    hide Acceptable;
    assert src[..0] == [];
    SymbolsNone();
    DecodedFirst([]);
  }

  lemma EmitStep(src: seq<Byte>, i: nat, n: nat, j: int, x: nat, out: seq<Byte>)
    requires i < |src| && Emitted(src, i, n, j, x, out)
    ensures White(src[i]) ==> Emitted(src, i + 1, n, j, x, out)
    ensures !White(src[i]) ==>
      var c := src[i];
      var j' := j - (if DecMap(c) == 64 then 1 else 0);
      var x' := (x * 64 + DecMap(c) % 64) % 0x1_0000_0000;
      && (n < 3 ==> Emitted(src, i + 1, n + 1, j', x', out))
      && (n == 3 ==> Emitted(src, i + 1, 0, j', x', out + TopBytes(x' % 0x1_000000, j')))
  {
    hide Symbols, Grouped, White, DecMap, TopBytes, PadsAtEnd;
    var y, c := Symbols(src[..i]), src[i];
    PrefixSymbols(src, i);
    if !White(c) {
      SymbolHere(src, i);
      assert src == src[..i + 1] + src[i + 1..];
      SymbolsAppend(src[..i + 1], src[i + 1..]);
      PadsAtEndFront(y + [c], Symbols(src[i + 1..]));
      if n < 3 { GroupedMore(y, c, n, j, x, out); } else { GroupedFull(y, c, j, x, out); }
    }
  }

  lemma SymbolHere(src: seq<Byte>, i: nat)
    requires i < |src| && Acceptable(src) && !White(src[i])
    ensures DecMap(src[i]) != NO_SYMBOL && (DecMap(src[i]) == 64 <==> src[i] == PAD)
  {
    assert CharFits(src, i);
    MapsAgree(0, src[i]);
  }

  lemma HornerSnoc(g: seq<Byte>, c: Byte)
    ensures Horner(g + [c]) == Horner(g) * 64 + Sextet(c) && Horner([]) == 0
  {
    hide Sextet;
    assert (g + [c])[..|g|] == g;
  }

  /** Shifting six bits in, seen through the low bits. */
  lemma ShiftIn(x: nat, v: nat, n: nat)
    requires v < 64 && n < 4
    ensures (x * 64 + v) % 0x1_0000_0000 % Low(n + 1) == x % Low(n) * 64 + v
  {
    var m, w := Low(n), x * 64 + v;
    var k := w / 0x1_0000_0000;
    LowDivides(n);
    DivModIdentity(x, m);
    DivModIdentity(w, 0x1_0000_0000);
    hide Low;
    MoveOut(x / m, k, 0x1_0000_0000 / (64 * m), 64 * m, x % m * 64 + v);
    assert w == (x / m) * (64 * m) + (x % m * 64 + v) by { MulAssoc(x / m, 64, m); }
  }

  lemma LowDivides(n: nat)
    requires n < 4
    ensures Low(n) > 0 && Low(n + 1) == 64 * Low(n)
    ensures 0x1_0000_0000 / (64 * Low(n)) * (64 * Low(n)) == 0x1_0000_0000
  {}

  lemma MoveOut(q: nat, k: nat, p: nat, m: nat, r: nat)
    requires 0 < m && r < m
    ensures (q * m + r - k * (p * m)) % m == r
  {
    assert q * m + r - k * (p * m) == (q - k * p) * m + r;
    DivModUnique(q * m + r - k * (p * m), m, q - k * p, r);
  }

  lemma GroupedMore(y: seq<Byte>, c: Byte, n: nat, j: int, x: nat, out: seq<Byte>)
    requires n < 3 && Grouped(y, n, j, x, out) && PadsAtEnd(y + [c])
    ensures Grouped(y + [c], n + 1, j - (if c == PAD then 1 else 0), (x * 64 + Sextet(c)) % 0x1_0000_0000, out)
  {
    hide Sextet, Horner, Decoded, Pads, PadsAtEnd, Low;
    var m := |y| - n;
    ShiftIn(x, Sextet(c), n);
    HornerSnoc(y[m..], c);
    PadsAppend(y, [c]);
    OnePad(c);
    assert (y + [c])[m..] == y[m..] + [c] && (y + [c])[..m] == y[..m];
  }

  lemma OnePad(c: Byte)
    ensures Pads([c]) == if c == PAD then 1 else 0
  {
    assert [c][..0] == [];
  }

  lemma GroupedFull(y: seq<Byte>, c: Byte, j: int, x: nat, out: seq<Byte>)
    requires Grouped(y, 3, j, x, out) && PadsAtEnd(y + [c])
    ensures var j' := j - (if c == PAD then 1 else 0);
      var x' := (x * 64 + Sextet(c)) % 0x1_0000_0000;
      Grouped(y + [c], 0, j', x', out + TopBytes(x' % 0x1_000000, j'))
  {
    hide Sextet, Horner, Decoded, Pads, PadsAtEnd, TopBytes, GroupValue;
    var m, all := |y| - 3, y + [c];
    var x' := (x * 64 + Sextet(c)) % 0x1_0000_0000;
    ShiftIn(x, Sextet(c), 3);
    HornerSnoc(y[m..], c);
    PadsAppend(y, [c]);
    OnePad(c);
    assert all[m..] == y[m..] + [c] && all[..m] == y[..m] && all == all[..m] + all[m..];
    GroupIsHorner(all[m..]);
    DecodedConcat(all[..m], all[m..]);
    DecodedGroup(all[m..], []);
    NothingDecoded();
    assert all[m..] + [] == all[m..];
    PadsOnlyInLast(all[..m], all[m..]);
    HornerSnoc([], c);
    assert all[..|all|] == all && all[|all|..] == [];
  }

  lemma GroupIsHorner(g: seq<Byte>)
    requires |g| == 4
    ensures GroupValue(g) == Horner(g)
  {
    hide Sextet, Horner;
    HornerSnoc([], g[0]);
    HornerSnoc([g[0]], g[1]);
    HornerSnoc([g[0], g[1]], g[2]);
    HornerSnoc([g[0], g[1], g[2]], g[3]);
    assert [] + [g[0]] == [g[0]] && [g[0]] + [g[1]] == [g[0], g[1]];
    assert [g[0], g[1]] + [g[2]] == [g[0], g[1], g[2]] && g == [g[0], g[1], g[2]] + [g[3]];
  }

  /** A whole group stands behind the pads of a only if a has none. */
  lemma PadsOnlyInLast(a: seq<Byte>, g: seq<Byte>)
    requires |g| == 4 && PadsAtEnd(a + g)
    ensures Pads(a + g) == Pads(g)
  {
    hide Pads;
    PadsAppend(a, g);
    if exists i :: 0 <= i < |a| && a[i] == PAD {
      var i :| 0 <= i < |a| && a[i] == PAD;
      forall k | 0 <= k < 4 ensures g[k] == PAD { assert (a + g)[i] == PAD && (a + g)[|a| + k] == g[k]; }
      PadsAll(g);
    } else {
      PadsNone(a);
    }
  }

  lemma {:induction false} DecodedConcat(a: seq<Byte>, b: seq<Byte>)
    requires |a| % 4 == 0
    ensures Decoded(a + b) == Decoded(a) + Decoded(b)
  {
    hide Decoded, TopBytes, GroupValue, Pads;
    if a == [] {
      NothingDecoded();
      assert a + b == b && [] + Decoded(b) == Decoded(b);
    } else {
      DecodedConcat(a[4..], b);
      DecodedGroup(a[..4], a[4..]);
      DecodedGroup(a[..4], a[4..] + b);
      assert a[..4] + a[4..] == a && a + b == a[..4] + (a[4..] + b);
    }
  }

  lemma EmitRoom(src: seq<Byte>, i: nat, j: int, x: nat, out: seq<Byte>)
    requires Emitted(src, i, 0, j, x, out)
    ensures |out| <= |Decoded(Symbols(src))|
  {
    hide Symbols, Decoded, Pads, Acceptable, Horner, Low;
    var y := Symbols(src[..i]);
    assert src == src[..i] + src[i..];
    SymbolsAppend(src[..i], src[i..]);
    assert y[..|y|] == y;
    DecodedConcat(y, Symbols(src[i..]));
  }

  lemma EmitDone(src: seq<Byte>, n: nat, j: int, x: nat, out: seq<Byte>)
    requires Emitted(src, |src|, n, j, x, out)
    ensures out == Decoded(Symbols(src))
  {
    hide Symbols, Decoded, Pads, Acceptable, Horner, Low;
    assert src[..|src|] == src;
    var y := Symbols(src);
    assert y == y[..|y| - n] + y[|y| - n..];
    FullGroups(|y|);
    DecodedConcat(y[..|y| - n], y[|y| - n..]);
    DecodedFirst(y[|y| - n..]);
  }

  lemma FullGroups(k: nat)
    ensures (k - k % 4) % 4 == 0
  {}
}
