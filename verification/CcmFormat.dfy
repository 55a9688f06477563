/** What CCM computes, stated byte by byte (Appendix A of NIST SP 800-38C): the blocks that are
    authenticated, the counter blocks, and the tag and ciphertext they give. */
module CcmFormat {
  import opened BlockCipher
  import opened Numbers
  import opened NumberBytes
  import opened Ccm

  /** A block of flags, nonce, and a number in the bytes behind it, the lowest byte last. */
  ghost predicate HasFields(b: Block, flags: nat, iv: seq<Byte>, n: nat)
    requires 7 <= |iv| <= 13
  {
    && b[0] as nat == flags
    && b[1..1 + |iv|] == iv
    && forall k :: 0 <= k < 15 - |iv| ==> b[15 - k] as nat == Digit(n, k)
  }

  lemma {:induction false} BigEndianAt(n: nat, q: nat, k: nat)
    requires k < q
    ensures BigEndian(n, q)[q - 1 - k] as nat == Digit(n, k)
    decreases q
  {
    hide ByteFor, Digit;
    DigitNext(n, if k == 0 then 0 else k - 1);
    if k == 0 {
      ByteForMod(n);
      ByteForBack(n % 256);
    } else {
      BigEndianAt(n / 256, q - 1, k - 1);
    }
  }

  lemma FieldsOf(flags: nat, iv: seq<Byte>, n: nat)
    requires 7 <= |iv| <= 13 && flags < 256
    ensures HasFields([ByteFor(flags)] + iv + BigEndian(n, 15 - |iv|), flags, iv, n)
  {
    hide ByteFor, BigEndian, Digit;
    var q := 15 - |iv|;
    var b: Block := [ByteFor(flags)] + iv + BigEndian(n, q);
    ByteForBack(flags);
    forall k | 0 <= k < q ensures b[15 - k] as nat == Digit(n, k) {
      BigEndianAt(n, q, k);
      assert b[15 - k] == BigEndian(n, q)[q - 1 - k];
    }
  }

  /** The fields determine the block. */
  lemma FieldsUnique(a: Block, b: Block, flags: nat, iv: seq<Byte>, n: nat)
    requires 7 <= |iv| <= 13 && HasFields(a, flags, iv, n) && HasFields(b, flags, iv, n)
    ensures a == b
  {
    hide Digit;
    forall i | 0 <= i < 16 ensures a[i] == b[i] {
      if i == 0 {
        SameByte(a[0], b[0]);
      } else if i < 1 + |iv| {
        assert a[i] == a[1..1 + |iv|][i - 1] && b[i] == b[1..1 + |iv|][i - 1];
      } else {
        assert a[15 - (15 - i)] as nat == Digit(n, 15 - i) == b[15 - (15 - i)] as nat;
        SameByte(a[i], b[i]);
      }
    }
  }

  lemma SameByte(a: Byte, b: Byte)
    requires a as nat == b as nat
    ensures a == b
  {
    hide ByteFor;
    ByteValueBack(a);
    ByteValueBack(b);
  }

  /** The parameters accepted: a tag of 0, 4, 6, .., 16 bytes, a nonce of 7 to 13 bytes, at most 65280
      bytes of additional data, and a length that fits in what the nonce leaves of the block. */
  lemma AcceptsExactly(ivLen: nat, addLen: nat, tagLen: nat, length: nat)
    ensures Accepts(ivLen, addLen, tagLen, length) <==>
            && tagLen in {0, 4, 6, 8, 10, 12, 14, 16} && ivLen in {7, 8, 9, 10, 11, 12, 13} && addLen <= 65280
            && length < Weight(15 - ivLen)
  {
    hide Pow;
  }

  // ----- the authenticated blocks -----

  /** The flags of the first block, as a number. */
  function FlagsValue(addLen: nat, tagLen: nat, q: nat): (f: nat)
    requires 1 <= q && (tagLen == 0 || tagLen >= 4)
  {
    if tagLen == 0 then 248 + (q - 1)
    else (if addLen > 0 then 64 else 0) + 8 * ((tagLen - 2) / 2) + (q - 1)
  }

  /** n rounded up to whole blocks. */
  function Whole(n: nat): (r: nat)
    ensures n <= r && r % 16 == 0
  {
    (n + 15) / 16 * 16
  }

  predicate Is(b: Byte, n: nat) { b as nat == n }

  /** The additional data as it is authenticated: nothing if there is none, otherwise its length in two
      bytes, the data, and zeros to a whole block. */
  ghost predicate AddField(g: seq<Byte>, add: seq<Byte>)
  {
    if add == [] then g == []
    else
      && |g| == Whole(2 + |add|)
      && Is(g[0], |add| / 256) && Is(g[1], |add| % 256)
      && g[2..2 + |add|] == add
      && forall j :: 2 + |add| <= j < |g| ==> g[j] == 0
  }

  /** f is the formatted input: first block, additional data, and the message with zeros to a whole
      block. */
  ghost predicate Formatted(f: seq<Byte>, iv: seq<Byte>, add: seq<Byte>, m: seq<Byte>, tagLen: nat)
    requires 7 <= |iv| <= 13 && (tagLen == 0 || tagLen >= 4)
  {
    var i := if add == [] then 16 else 16 + Whole(2 + |add|);
    && |f| == i + Whole(|m|)
    && HasFields(f[..16], FlagsValue(|add|, tagLen, 15 - |iv|), iv, |m|)
    && AddField(f[16..i], add)
    && f[i..i + |m|] == m
    && forall j :: i + |m| <= j < |f| ==> f[j] == 0
  }

  /** Cipher block chaining over f from y: each block goes under the cipher xored with the one before. */
  ghost predicate Links(e: Block -> Block, y: Block, f: seq<Byte>, ys: seq<Block>)
  {
    |f| == 16 * |ys| && forall i :: 0 <= i < |ys| ==> Link(e, y, f, ys, i)
  }

  ghost predicate Link(e: Block -> Block, y: Block, f: seq<Byte>, ys: seq<Block>, i: nat)
    requires i < |ys| && |f| == 16 * |ys|
  {
    ys[i] == e(Xor(f[16 * i..16 * i + 16], if i == 0 then y else ys[i - 1]))
  }

  lemma LinksTail(e: Block -> Block, y: Block, f: seq<Byte>, ys: seq<Block>)
    requires Links(e, y, f, ys) && ys != []
    ensures |f| >= 16 && ys[0] == e(Xor(f[..16], y)) && Links(e, ys[0], f[16..], ys[1..])
  {
    var g, zs := f[16..], ys[1..];
    assert Link(e, y, f, ys, 0);
    assert f[16 * 0..16 * 0 + 16] == f[..16];
    forall i | 0 <= i < |zs| ensures Link(e, ys[0], g, zs, i) {
      assert Link(e, y, f, ys, i + 1);
      assert g[16 * i..16 * i + 16] == f[16 * (i + 1)..16 * (i + 1) + 16];
    }
  }

  /** The last link, or y when there is none. */
  function Last(y: Block, ys: seq<Block>): (r: Block)
  {
    if ys == [] then y else ys[|ys| - 1]
  }

  function Filled(s: seq<Byte>): (r: seq<Byte>)
    ensures |r| == Whole(|s|) && r[..|s|] == s && forall j :: |s| <= j < |r| ==> r[j] == 0
  {
    s + Zeros(Whole(|s|) - |s|)
  }

  lemma FilledFirst(s: seq<Byte>, rest: seq<Byte>)
    requires s != []
    ensures var f := Filled(s) + rest; var n := Front(s);
      && |f| >= 16 && f[..16] == Padded(s[..n]) && f[16..] == Filled(s[n..]) + rest
  {
    var g, n := Filled(s), Front(s);
    assert g[..16] == Padded(s[..n]) && g[16..] == Filled(s[n..]);
    assert (g + rest)[..16] == g[..16] && (g + rest)[16..] == g[16..] + rest;
  }

  /** The recursive CBC-MAC walks along a chain: after the blocks of s, it stands at their last link. */
  lemma {:induction false} MacIsChain(e: Block -> Block, y: Block, s: seq<Byte>, rest: seq<Byte>, ys: seq<Block>)
    requires Links(e, y, Filled(s) + rest, ys)
    ensures var k := Whole(|s|) / 16;
      && k <= |ys| && Links(e, Mac(e, y, s), rest, ys[k..])
      && Last(Mac(e, y, s), ys[k..]) == Last(y, ys)
    decreases |s|
  {
    hide Links, Mac, Padded, Filled, Last;
    if s == [] {
      MacNothing(e, y);
      assert Filled(s) + rest == rest && ys[0..] == ys;
    } else {
      var n := Front(s);
      FilledFirst(s, rest);
      SomeLinks(e, y, Filled(s) + rest, ys);
      LinksTail(e, y, Filled(s) + rest, ys);
      MacFirst(e, y, s);
      XorTwice(Padded(s[..n]), y);
      MacIsChain(e, ys[0], s[n..], rest, ys[1..]);
      var k := Whole(|s|) / 16;
      assert Whole(|s[n..]|) / 16 == k - 1 && ys[1..][k - 1..] == ys[k..];
      LastTail(y, ys);
    }
  }

  lemma LastTail(y: Block, ys: seq<Block>)
    requires ys != []
    ensures Last(ys[0], ys[1..]) == Last(y, ys)
  {}

  lemma WholeZero()
    ensures Whole(0) == 0
  {}

  lemma NoLinks(e: Block -> Block, y: Block, f: seq<Byte>, ys: seq<Block>)
    requires Links(e, y, f, ys)
    ensures |f| < 16 ==> ys == []
  {}

  lemma SomeLinks(e: Block -> Block, y: Block, f: seq<Byte>, ys: seq<Block>)
    requires Links(e, y, f, ys)
    ensures |f| >= 16 ==> ys != []
  {}

  // ----- the tag -----

  lemma FlagsAreValue(addLen: nat, tagLen: nat, q: nat)
    requires tagLen != 2 && tagLen <= 16 && tagLen % 2 == 0 && 2 <= q <= 8
    ensures Flags(addLen, tagLen, q) as nat == FlagsValue(addLen, tagLen, q) < 256
  {
    hide Flags, ByteFor, Or;
    if tagLen >= 4 {
      FlagsAreFields(addLen, tagLen, q);
    } else {
      NoTagFlags(addLen, q);
    }
  }

  /** Without a tag the tag field wraps to all ones. */
  lemma NoTagFlags(addLen: nat, q: nat)
    requires 2 <= q <= 8
    ensures Flags(addLen, 0, q) as nat == 248 + (q - 1)
  {
    hide ByteFor, Or;
    var n := 0xFFFF_FFFF_FFFF_FFFE / 2 * 8;
    assert n % 256 == 248;
    ByteForMod(n);
    HighField();
    LowFieldIs(q - 1);
    HighFieldOr(if addLen > 0 then 0x40 else 0, ByteFor(q - 1));
    ByteForSum(248, q - 1);
    ByteForBack(248 + (q - 1));
  }

  lemma HighField()
    ensures ByteFor(248) == 0xF8
  {
    hide ByteFor;
    MidField(7);
    MidField(8);
    ByteForSum(64, 64);
    ByteForSum(128, 64);
    ByteForSum(192, 56);
  }

  lemma HighFieldOr(a: Byte, r: Byte)
    requires a == 0 || a == 0x40
    requires r < 8
    ensures Or(Or(a, 0xF8), r) == 0xF8 + r
  {}

  lemma FirstBlockFields(iv: seq<Byte>, length: nat, addLen: nat, tagLen: nat)
    requires Accepts(|iv|, addLen, tagLen, length)
    ensures HasFields(FirstBlock(iv, length, addLen, tagLen), FlagsValue(addLen, tagLen, 15 - |iv|), iv, length)
  {
    hide Flags, BigEndian, ByteFor, HasFields, FlagsValue;
    var q := 15 - |iv|;
    FlagsAreValue(addLen, tagLen, q);
    ByteValueBack(Flags(addLen, tagLen, q));
    FieldsOf(FlagsValue(addLen, tagLen, q), iv, length);
  }

  lemma CounterFields(iv: seq<Byte>, n: nat)
    requires 7 <= |iv| <= 13
    ensures HasFields(CounterBlock(iv, n), 14 - |iv|, iv, n)
  {
    hide BigEndian, ByteFor, HasFields;
    FieldsOf(14 - |iv|, iv, n);
  }

  /** The encoded additional data: nothing, or two bytes of length and the data. */
  function AddPart(add: seq<Byte>): (s: seq<Byte>)
  {
    if add == [] then [] else [ByteFor(|add| / 256), ByteFor(|add|)] + add
  }

  lemma FilledUnique(r: seq<Byte>, s: seq<Byte>)
    requires |r| == Whole(|s|) && r[..|s|] == s && forall j :: |s| <= j < |r| ==> r[j] == 0
    ensures r == Filled(s)
  {
    hide Whole;
    assert r == r[..|s|] + r[|s|..];
  }

  /** The formatted input in its three parts. */
  lemma FormatParts(f: seq<Byte>, iv: seq<Byte>, add: seq<Byte>, m: seq<Byte>, tagLen: nat)
    requires Accepts(|iv|, |add|, tagLen, |m|) && Formatted(f, iv, add, m, tagLen)
    ensures f == FirstBlock(iv, |m|, |add|, tagLen) + (Filled(AddPart(add)) + Filled(m))
  {
    hide Pow, FirstBlock, Filled, AddPart, HasFields, FlagsValue, Whole;
    var i := if add == [] then 16 else 16 + Whole(2 + |add|);
    FirstBlockFields(iv, |m|, |add|, tagLen);
    FieldsUnique(f[..16], FirstBlock(iv, |m|, |add|, tagLen), FlagsValue(|add|, tagLen, 15 - |iv|), iv, |m|);
    AddFilled(f[16..i], add);
    assert f[i..][..|m|] == f[i..i + |m|];
    FilledUnique(f[i..], m);
    assert f == f[..16] + (f[16..i] + f[i..]);
  }

  lemma LengthField(hi: Byte, lo: Byte, n: nat)
    requires n < 65536
    ensures Is(hi, n / 256) && Is(lo, n % 256) <==> hi == ByteFor(n / 256) && lo == ByteFor(n)
  {
    hide ByteFor;
    ByteForMod(n);
    ByteForBack(n / 256);
    ByteForBack(n % 256);
    ByteValueBack(hi);
    ByteValueBack(lo);
  }

  lemma AddFilled(g: seq<Byte>, add: seq<Byte>)
    requires |add| <= 0xFF00 && AddField(g, add)
    ensures g == Filled(AddPart(add))
  {
    hide ByteFor, Whole, Filled, Is;
    WholeZero();
    if add != [] {
      LengthField(g[0], g[1], |add|);
      assert g[..2 + |add|] == [g[0], g[1]] + g[2..2 + |add|];
    }
    FilledUnique(g, AddPart(add));
  }

  /** The tag: the formatted input is chained from the zero block, and the last link, under the
      encrypted counter block 0, is cut to the tag length. */
  lemma TagIsChain(e: Block -> Block, iv: seq<Byte>, add: seq<Byte>, m: seq<Byte>, tagLen: nat,
                   f: seq<Byte>, ys: seq<Block>, mask: Block)
    requires Accepts(|iv|, |add|, tagLen, |m|)
    requires Formatted(f, iv, add, m, tagLen) && Links(e, Zeros(16), f, ys)
    requires HasFields(mask, 14 - |iv|, iv, 0)
    ensures ys != [] && Tag(e, iv, add, m, tagLen) == Xor(ys[|ys| - 1], e(mask))[..tagLen]
  {
    hide Formatted, Links, HasFields, Pow, FirstBlock, CounterBlock, Mac, Filled, AddPart;
    FormatParts(f, iv, add, m, tagLen);
    var b0, a, t := FirstBlock(iv, |m|, |add|, tagLen), Filled(AddPart(add)), Filled(m);
    SomeLinks(e, Zeros(16), f, ys);
    LinksTail(e, Zeros(16), f, ys);
    assert f[..16] == b0 && f[16..] == a + t;
    XorTwice(b0, Zeros(16));
    AuthenticateIs(e, iv, add, m, tagLen, ys[0], ys[1..]);
    LastTail(Zeros(16), ys);
    CounterFields(iv, 0);
    FieldsUnique(mask, CounterBlock(iv, 0), 14 - |iv|, iv, 0);
  }

  lemma AuthenticateIs(e: Block -> Block, iv: seq<Byte>, add: seq<Byte>, m: seq<Byte>, tagLen: nat,
                       y: Block, ys: seq<Block>)
    requires 7 <= |iv| <= 13 && y == MacStep(e, Zeros(16), FirstBlock(iv, |m|, |add|, tagLen))
    requires Links(e, y, Filled(AddPart(add)) + Filled(m), ys)
    ensures Authenticate(e, iv, add, m, tagLen) == Last(y, ys)
  {
    hide Links, FirstBlock, Mac, MacStep, Whole, ByteFor, Filled;
    var z, k := Mac(e, y, AddPart(add)), Whole(|AddPart(add)|) / 16;
    MacIsChain(e, y, AddPart(add), Filled(m), ys);
    assert Filled(m) + [] == Filled(m);
    MacIsChain(e, z, m, [], ys[k..]);
    NoLinks(e, Mac(e, z, m), [], ys[k..][Whole(|m|) / 16..]);
    if add == [] { MacNothing(e, y); }
  }

  /** The formatted input and its chain exist, so the tag is always given this way. */
  lemma ChainExists(e: Block -> Block, iv: seq<Byte>, add: seq<Byte>, m: seq<Byte>, tagLen: nat)
    returns (f: seq<Byte>, ys: seq<Block>, mask: Block)
    requires Accepts(|iv|, |add|, tagLen, |m|)
    ensures Formatted(f, iv, add, m, tagLen) && Links(e, Zeros(16), f, ys) && HasFields(mask, 14 - |iv|, iv, 0)
  {
    hide Links, HasFields, Pow, FirstBlock, CounterBlock, Filled, FlagsValue, Whole;
    var b0 := FirstBlock(iv, |m|, |add|, tagLen);
    var a, t := Filled(AddPart(add)), Filled(m);
    f := b0 + a + t;
    mask := CounterBlock(iv, 0);
    CounterFields(iv, 0);
    FirstBlockFields(iv, |m|, |add|, tagLen);
    AddBytes(add);
    AtFormat(f, iv, add, m, tagLen, b0, a, t);
    ys := LinksExist(e, Zeros(16), f);
  }

  lemma AddBytes(add: seq<Byte>)
    requires |add| <= 0xFF00
    ensures AddField(Filled(AddPart(add)), add)
  {
    hide ByteFor, Whole, Filled, Is;
    WholeZero();
    if add != [] {
      LengthField(ByteFor(|add| / 256), ByteFor(|add|), |add|);
      var g, p := Filled(AddPart(add)), AddPart(add);
      assert g[..|p|] == p;
      assert g[0] == p[0] && g[1] == p[1] && g[2..2 + |add|] == p[2..];
    }
  }

  lemma AtFormat(f: seq<Byte>, iv: seq<Byte>, add: seq<Byte>, m: seq<Byte>, tagLen: nat,
                 b0: Block, a: seq<Byte>, t: seq<Byte>)
    requires Accepts(|iv|, |add|, tagLen, |m|) && f == b0 + a + t
    requires HasFields(b0, FlagsValue(|add|, tagLen, 15 - |iv|), iv, |m|)
    requires |a| == (if add == [] then 0 else Whole(2 + |add|)) && AddField(a, add) && t == Filled(m)
    ensures Formatted(f, iv, add, m, tagLen)
  {
    hide HasFields, FlagsValue, Pow, Filled, Whole, AddField;
    var i := 16 + |a|;
    assert f[..16] == b0 && f[16..i] == a && f[i..] == t;
    assert f[i..i + |m|] == t[..|m|];
    forall j | i + |m| <= j < |f| ensures f[j] == 0 { assert f[j] == t[j - i]; }
  }

  lemma {:induction false} LinksExist(e: Block -> Block, y: Block, f: seq<Byte>) returns (ys: seq<Block>)
    requires |f| % 16 == 0
    ensures Links(e, y, f, ys)
    decreases |f|
  {
    hide Links, Xor;
    if f == [] {
      ys := [];
      LinksNone(e, y);
    } else {
      var k := |f| / 16 - 1;
      var front, back := f[..16 * k], f[16 * k..];
      var xs := LinksExist(e, y, front);
      ys := xs + [e(Xor(back, Last(y, xs)))];
      LinksSnoc(e, y, front, back, xs);
      assert f == front + back;
    }
  }

  lemma SliceBehind(f: seq<Byte>, g: seq<Byte>, i: nat)
    requires i + 16 <= |g|
    ensures (f + g)[|f| + i..|f| + i + 16] == g[i..i + 16]
  {}

  lemma SliceBefore(f: seq<Byte>, g: seq<Byte>, i: nat)
    requires i + 16 <= |f|
    ensures (f + g)[i..i + 16] == f[i..i + 16]
  {}

  lemma LinksNone(e: Block -> Block, y: Block)
    ensures Links(e, y, [], [])
  {}

  lemma LinksSnoc(e: Block -> Block, y: Block, f: seq<Byte>, b: Block, xs: seq<Block>)
    requires Links(e, y, f, xs)
    ensures Links(e, y, f + b, xs + [e(Xor(b, Last(y, xs)))])
  {
    hide Xor;
    var ys := xs + [e(Xor(b, Last(y, xs)))];
    forall i | 0 <= i < |ys| ensures Link(e, y, f + b, ys, i) {
      if i < |xs| {
        assert Link(e, y, f, xs, i);
        SliceBefore(f, b, 16 * i);
      } else {
        SliceBehind(f, b, 0);
        assert 16 * i == |f| && b[..16] == b;
      }
    }
  }

  // ----- the text -----

  /** Every byte of the text is put under its byte of an encrypted counter block. */
  lemma {:induction false} CounterAt(e: Block -> Block, iv: seq<Byte>, i: nat, s: seq<Byte>, k: nat, ctr: Block)
    requires 7 <= |iv| <= 13 && k < |s| && HasFields(ctr, 14 - |iv|, iv, i + k / 16)
    ensures Counter(e, iv, i, s)[k] == s[k] ^ e(ctr)[k % 16]
    decreases k
  {
    hide CounterBlock, HasFields, Counter;
    var n := Front(s);
    CounterFirst(e, iv, i, s);
    if k < 16 {
      CounterFields(iv, i);
      FieldsUnique(ctr, CounterBlock(iv, i), 14 - |iv|, iv, i);
    } else {
      CounterAt(e, iv, i + 1, s[16..], k - 16, ctr);
    }
  }
}
