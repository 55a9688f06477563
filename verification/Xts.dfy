/** XTS mode (IEEE Std 1619) with ciphertext stealing. */
module Xts {
  import opened BlockCipher

  // ----- the tweak: multiplication by alpha in GF(2^128) -----

  /** A little-endian 64-bit word from eight bytes. */
  function Get64(x0: Byte, x1: Byte, x2: Byte, x3: Byte, x4: Byte, x5: Byte, x6: Byte, x7: Byte): (w: bv64)
  {
    At(x7, 56) | At(x6, 48) | At(x5, 40) | At(x4, 32) | At(x3, 24) | At(x2, 16) | At(x1, 8) | At(x0, 0)
  }

  function At(x: Byte, shift: bv7): (w: bv64)
    requires shift <= 64
  {
    (x as bv64) << shift
  }

  function ByteOf(w: bv64, shift: bv7): (b: Byte)
    requires shift <= 64
  {
    ((w >> shift) & 0xFF) as bv8
  }

  /** The eight bytes of a word, the lowest first. */
  function Put64(w: bv64): (s: seq<Byte>)
    ensures |s| == 8
    ensures forall i :: 0 <= i < 8 ==> s[i] == ByteOf(w, Shift(i))
  {
    seq(8, i requires 0 <= i < 8 => ByteOf(w, Shift(i)))
  }

  function Shift(i: nat): (s: bv7)
    ensures s <= 64
  {
    match i
    case 0 => 0 case 1 => 8 case 2 => 16 case 3 => 24
    case 4 => 32 case 5 => 40 case 6 => 48 case _ => 56
  }

  /** mbedtls_gf128mul_x_ble, on two 64-bit words. */
  function MulX(x: Block): (r: Block)
  {
    var a, b := WordAt(x, 0), WordAt(x, 8);
    Put64(LowWord(a, b)) + Put64(HighWord(a, b))
  }

  function WordAt(x: Block, i: nat): (w: bv64)
    requires i + 8 <= 16
  {
    Get64(x[i], x[i + 1], x[i + 2], x[i + 3], x[i + 4], x[i + 5], x[i + 6], x[i + 7])
  }

  /** 0x87 is shifted out unless the top bit of b is set. */
  function LowWord(a: bv64, b: bv64): (r: bv64)
  {
    var shift := 8 - ((b >> (63 as bv7)) << (3 as bv7));
    (a << (1 as bv7)) ^ ((0x87 as bv64) >> shift)
  }

  function HighWord(a: bv64, b: bv64): (r: bv64)
  {
    (a >> (63 as bv7)) | (b << (1 as bv7))
  }

  /** The same multiplication byte by byte. */
  function ShiftedByte(low: Byte, high: Byte): (r: Byte)
  {
    (high << (1 as bv4)) | (low >> (7 as bv4))
  }

  lemma GetByte(x0: Byte, x1: Byte, x2: Byte, x3: Byte, x4: Byte, x5: Byte, x6: Byte, x7: Byte)
    ensures var w := Get64(x0, x1, x2, x3, x4, x5, x6, x7);
      && ByteOf(w, 0) == x0 && ByteOf(w, 8) == x1 && ByteOf(w, 16) == x2 && ByteOf(w, 24) == x3
      && ByteOf(w, 32) == x4 && ByteOf(w, 40) == x5 && ByteOf(w, 48) == x6 && ByteOf(w, 56) == x7
  {}

  lemma WordByte(x: Block, i: nat, j: nat)
    requires i + 8 <= 16 && j < 8
    ensures ByteOf(WordAt(x, i), Shift(j)) == x[i + j]
  {
    hide Get64, ByteOf;
    GetByte(x[i], x[i + 1], x[i + 2], x[i + 3], x[i + 4], x[i + 5], x[i + 6], x[i + 7]);
    match j case 0 => case 1 => case 2 => case 3 => case 4 => case 5 => case 6 => case _ =>
  }

  lemma LowWordByte(a: bv64, b: bv64, j: nat)
    requires j < 8
    ensures j == 0 ==> ByteOf(LowWord(a, b), Shift(j)) ==
                         ShiftedByte(0, ByteOf(a, Shift(0))) ^ (if ByteOf(b, Shift(7)) & 0x80 != 0 then 0x87 else 0)
    ensures j > 0 ==> ByteOf(LowWord(a, b), Shift(j)) == ShiftedByte(ByteOf(a, Shift(j - 1)), ByteOf(a, Shift(j)))
  {
    match j case 0 => case 1 => case 2 => case 3 => case 4 => case 5 => case 6 => case _ =>
  }

  lemma HighWordByte(a: bv64, b: bv64, j: nat)
    requires j < 8
    ensures ByteOf(HighWord(a, b), Shift(j)) ==
              ShiftedByte(if j == 0 then ByteOf(a, Shift(7)) else ByteOf(b, Shift(j - 1)), ByteOf(b, Shift(j)))
  {
    match j case 0 => case 1 => case 2 => case 3 => case 4 => case 5 => case 6 => case _ =>
  }

  lemma MulXByte(x: Block, i: nat)
    requires i < 16
    ensures i == 0 ==> MulX(x)[i] == ShiftedByte(0, x[0]) ^ (if x[15] & 0x80 != 0 then 0x87 else 0)
    ensures i > 0 ==> MulX(x)[i] == ShiftedByte(x[i - 1], x[i])
  {
    hide Get64, LowWord, HighWord, ShiftedByte, ByteOf, WordAt, Shift;
    var a, b := WordAt(x, 0), WordAt(x, 8);
    var j := if i < 8 then i else i - 8;
    WordByte(x, if i < 8 then 0 else 8, j);
    if j > 0 { WordByte(x, if i < 8 then 0 else 8, j - 1); }
    WordByte(x, 8, 7);
    WordByte(x, 0, 7);
    if i < 8 { LowWordByte(a, b, j); } else { HighWordByte(a, b, j); }
  }

  function Mask(j: nat): (m: Byte)
  {
    match j
    case 0 => 0x01 case 1 => 0x02 case 2 => 0x04 case 3 => 0x08
    case 4 => 0x10 case 5 => 0x20 case 6 => 0x40 case _ => 0x80
  }

  predicate Bit(b: Byte, j: nat) { b & Mask(j) != 0 }

  /** The coefficient of alpha^k. */
  predicate Coefficient(x: Block, k: nat)
    requires k < 128
  {
    Bit(x[k / 8], k % 8)
  }

  lemma ShiftedBit(low: Byte, high: Byte, j: nat)
    requires j < 8
    ensures Bit(ShiftedByte(low, high), j) <==> if j == 0 then Bit(low, 7) else Bit(high, j - 1)
  {}

  lemma ReducedBit(low: Byte, high: Byte, top: Byte, j: nat)
    requires j < 8
    ensures Bit(high ^ (if top & 0x80 != 0 then 0x87 else 0), j) <==>
              (Bit(high, j) != (Bit(top, 7) && (j == 0 || j == 1 || j == 2 || j == 7)))
  {}

  /** MulX multiplies by alpha modulo alpha^128 + alpha^7 + alpha^2 + alpha + 1: every coefficient
      moves up one place, and the one that leaves at the top comes back as 1 + alpha + alpha^2 + alpha^7. */
  lemma MulXIsTimesAlpha(x: Block, k: nat)
    requires k < 128
    ensures Coefficient(MulX(x), k) <==>
              ((k > 0 && Coefficient(x, k - 1)) != (Coefficient(x, 127) && (k == 0 || k == 1 || k == 2 || k == 7)))
  {
    hide MulX, ShiftedByte, Mask, Bit;
    var i, j := k / 8, k % 8;
    MulXByte(x, i);
    if i == 0 {
      ReducedBit(0, ShiftedByte(0, x[0]), x[15], j);
      ShiftedBit(0, x[0], j);
      NoBits(7);
    } else {
      ShiftedBit(x[i - 1], x[i], j);
    }
  }

  lemma NoBits(j: nat)
    ensures !Bit(0, j)
  {}

  // ----- the mode -----

  /** One block under tweak t. */
  function Blk(f: Block -> Block, t: Block, p: Block): (c: Block)
  {
    Xor(f(Xor(p, t)), t)
  }

  /** Encryption of a data unit whose first block has tweak t (section 5.3). With b bytes left over,
      the last two pieces are swapped and the second last block's end is stolen. */
  function Enc(f: Block -> Block, t: Block, s: seq<Byte>): (r: seq<Byte>)
    requires |s| >= 16
    ensures |r| == |s|
    decreases |s|
  {
    if |s| == 16 then Blk(f, t, s)
    else if |s| < 32 then
      var b := |s| - 16;
      var cc := Blk(f, t, s[..16]);
      Blk(f, MulX(t), s[16..] + cc[b..]) + cc[..b]
    else Blk(f, t, s[..16]) + Enc(f, MulX(t), s[16..])
  }

  /** Decryption (section 5.4); the last two tweaks are used in the other order. */
  function Dec(g: Block -> Block, t: Block, s: seq<Byte>): (r: seq<Byte>)
    requires |s| >= 16
    ensures |r| == |s|
    decreases |s|
  {
    if |s| == 16 then Blk(g, t, s)
    else if |s| < 32 then
      var b := |s| - 16;
      var pp := Blk(g, MulX(t), s[..16]);
      Blk(g, t, s[16..] + pp[b..]) + pp[..b]
    else Blk(g, t, s[..16]) + Dec(g, MulX(t), s[16..])
  }

  function Crypt(mode: Mode, f: Block -> Block, t: Block, s: seq<Byte>): (r: seq<Byte>)
    requires |s| >= 16
    ensures |r| == |s|
  {
    if mode == Encrypt then Enc(f, t, s) else Dec(f, t, s)
  }

  /** What stealing makes of the block before and the bytes left over. */
  function Stolen(f: Block -> Block, t: Block, prev: Block, rest: seq<Byte>): (r: seq<Byte>)
    requires 0 < |rest| < 16
    ensures |r| == 16 + |rest|
  {
    Blk(f, t, rest + prev[|rest|..]) + prev[..|rest|]
  }

  lemma CryptFirst(mode: Mode, f: Block -> Block, t: Block, s: seq<Byte>)
    requires |s| == 16 || |s| >= 32
    ensures |s| == 16 ==> Crypt(mode, f, t, s) == Blk(f, t, s)
    ensures |s| >= 32 ==> Crypt(mode, f, t, s) == Blk(f, t, s[..16]) + Crypt(mode, f, MulX(t), s[16..])
  {
    hide Blk, MulX;
  }

  lemma CryptLast(mode: Mode, f: Block -> Block, t: Block, s: seq<Byte>)
    requires 16 < |s| < 32
    ensures Crypt(mode, f, t, s) ==
      Stolen(f, if mode == Decrypt then t else MulX(t),
             Blk(f, if mode == Decrypt then MulX(t) else t, s[..16]), s[16..])
  {
    hide Blk, MulX;
  }

  /** The tweak of block k: alpha^k times the first. */
  function Tweak(t: Block, k: nat): (r: Block)
    decreases k
  {
    if k == 0 then t else Tweak(MulX(t), k - 1)
  }

  lemma BlkBack(c: Cipher, t: Block, p: Block)
    requires Inverse(c)
    ensures Blk(c.dec, t, Blk(c.enc, t, p)) == p
  {
    XorTwice(c.enc(Xor(p, t)), t);
    XorTwice(p, t);
  }

  /** Decryption inverts encryption, for every length from 16 bytes on. */
  lemma {:induction false} DecryptsEncrypted(c: Cipher, t: Block, s: seq<Byte>)
    requires Inverse(c) && |s| >= 16
    ensures Dec(c.dec, t, Enc(c.enc, t, s)) == s
    decreases |s|
  {
    hide Inverse, Blk, MulX;
    if |s| == 16 {
      BlkBack(c, t, s);
    } else if |s| < 32 {
      StealBack(c, t, s);
    } else {
      var head: seq<Byte> := Blk(c.enc, t, s[..16]);
      var tail: seq<Byte> := Enc(c.enc, MulX(t), s[16..]);
      DecryptsEncrypted(c, MulX(t), s[16..]);
      BlkBack(c, t, s[..16]);
      assert (head + tail)[..16] == head && (head + tail)[16..] == tail;
      assert s == s[..16] + s[16..];
    }
  }

  lemma StealBack(c: Cipher, t: Block, s: seq<Byte>)
    requires Inverse(c) && 16 < |s| < 32
    ensures Dec(c.dec, t, Enc(c.enc, t, s)) == s
  {
    hide Inverse, Blk, MulX;
    var b := |s| - 16;
    var cc := Blk(c.enc, t, s[..16]);
    var pp: Block := s[16..] + cc[b..];
    var last: seq<Byte> := Blk(c.enc, MulX(t), pp);
    var e := last + cc[..b];
    assert e[..16] == last && e[16..] == cc[..b];
    BlkBack(c, MulX(t), pp);
    BlkBack(c, t, s[..16]);
    assert pp[b..] == cc[b..] && pp[..b] == s[16..];
    assert cc == cc[..b] + cc[b..];
    assert s == s[..16] + s[16..];
  }

  /** Block j of the result, unless stealing touches it: block j of the text under alpha^j times the
      first tweak. */
  lemma {:induction false} BlockAt(mode: Mode, f: Block -> Block, t: Block, s: seq<Byte>, j: nat)
    requires 16 * j + 16 <= |s| && (|s| % 16 == 0 || 16 * j + 32 <= |s|)
    ensures Crypt(mode, f, t, s)[16 * j..16 * j + 16] == Blk(f, Tweak(t, j), s[16 * j..16 * j + 16])
    decreases j
  {
    hide Blk, MulX, Crypt;
    CryptFirst(mode, f, t, s);
    if |s| == 16 {
      WholeSlice(s);
      WholeSlice(Crypt(mode, f, t, s));
    } else {
      var e, tail: seq<Byte> := Crypt(mode, f, t, s), Crypt(mode, f, MulX(t), s[16..]);
      if j == 0 {
        SliceFront(Blk(f, t, s[..16]), tail);
      } else {
        BlockAt(mode, f, MulX(t), s[16..], j - 1);
        SliceBehind(s[..16], s[16..], 16 * j - 16, 16 * j);
        SliceBehind(Blk(f, t, s[..16]), tail, 16 * j - 16, 16 * j);
        assert s == s[..16] + s[16..];
      }
    }
  }

  /** The two pieces that stealing touches, when block m is incomplete: the last whole block is
      processed first, and what is stolen from it completes block m. Encryption uses the tweaks
      alpha^(m-1) and alpha^m in this order, decryption in the other. */
  lemma {:induction false} StolenPieces(mode: Mode, f: Block -> Block, t: Block, s: seq<Byte>, m: nat)
    requires 1 <= m && 16 * m < |s| < 16 * m + 16
    ensures var first, second := if mode == Encrypt then Tweak(t, m - 1) else Tweak(t, m),
                                 if mode == Encrypt then Tweak(t, m) else Tweak(t, m - 1);
      Crypt(mode, f, t, s)[16 * m - 16..] == Stolen(f, second, Blk(f, first, s[16 * m - 16..16 * m]), s[16 * m..])
    decreases m
  {
    hide Blk, MulX, Crypt, Stolen;
    if m == 1 {
      CryptLast(mode, f, t, s);
      FirstTweaks(t);
      assert s[0..16] == s[..16] && Crypt(mode, f, t, s)[0..] == Crypt(mode, f, t, s);
    } else {
      CryptFirst(mode, f, t, s);
      var tail: seq<Byte> := Crypt(mode, f, MulX(t), s[16..]);
      StolenPieces(mode, f, MulX(t), s[16..], m - 1);
      TailBehind(Blk(f, t, s[..16]), tail, 16 * m - 32);
      SliceBehind(s[..16], s[16..], 16 * m - 32, 16 * m - 16);
      TailBehind(s[..16], s[16..], 16 * m - 16);
      assert s == s[..16] + s[16..];
    }
  }

  lemma FirstTweaks(t: Block)
    ensures Tweak(t, 0) == t && Tweak(t, 1) == MulX(t)
  {
    hide MulX;
  }

  lemma TailBehind(a: seq<Byte>, b: seq<Byte>, i: nat)
    requires i <= |b|
    ensures (a + b)[|a| + i..] == b[i..]
  {}

  lemma WholeSlice(s: seq<Byte>)
    ensures s[0..|s|] == s
  {}

  lemma SliceFront(a: seq<Byte>, b: seq<Byte>)
    ensures (a + b)[0..|a|] == a
  {}

  lemma SliceBehind(a: seq<Byte>, b: seq<Byte>, i: nat, j: nat)
    requires i <= j <= |b|
    ensures (a + b)[|a| + i..|a| + j] == b[i..j]
  {}

  // ----- the routine -----

  /** Keys of the data and of the tweak. */
  datatype Context = Context(crypt: Cipher, tweak: Cipher)

  datatype Status = Ok | InvalidInputLength

  /** mbedtls_aes_crypt_xts; input and output are different buffers. */
  method CryptXts(ctx: Context, mode: Mode, length: nat, dataUnit: Block, input: seq<Byte>, output: array<Byte>)
    returns (ret: Status)
    requires length == |input| <= output.Length
    modifies output
    ensures ret == if 16 <= length <= 0x100_0000 then Ok else InvalidInputLength
    ensures ret == Ok ==>
      var f := if mode == Encrypt then ctx.crypt.enc else ctx.crypt.dec;
      output[..length] == Crypt(mode, f, ctx.tweak.enc(dataUnit), input)
    ensures forall k :: (ret != Ok || length <= k) && 0 <= k < output.Length ==> output[k] == old(output[k])
  {
    hide Pending, StealPending, Crypt, MulX, Blk;
    var blocks := length / 16;
    var leftover := length % 16;
    if length < 16 { return InvalidInputLength; }
    if length > 0x100_0000 { return InvalidInputLength; }
    var f: Block -> Block := if mode == Encrypt then ctx.crypt.enc else ctx.crypt.dec;
    var tweak: Block := ctx.tweak.enc(dataUnit);
    var prev_tweak: Block := tweak;
    var k := 0;
    ghost var t0: Block := tweak;
    PendingStart(mode, f, t0, input, output[..0]);
    while blocks > 0
      invariant k + 16 * blocks + leftover == length && blocks >= 0 && 0 <= k <= length
      invariant blocks > 0 || leftover == 0 ==> Pending(mode, f, t0, input, tweak, k, output[..k])
      invariant blocks == 0 && leftover > 0 ==>
                  StealPending(mode, f, t0, input, if mode == Decrypt then prev_tweak else tweak, k, output[..k])
      invariant forall i :: k <= i < output.Length ==> output[i] == old(output[i])
    {
      blocks := blocks - 1;
      ghost var was: seq<Byte>, t: Block := output[..k], tweak;
      if leftover > 0 && mode == Decrypt && blocks == 0 {
        prev_tweak := tweak;
        tweak := MulX(tweak);
      }
      var tmp: Block := Xor(input[k..k + 16], tweak);
      tmp := f(tmp);
      PutXor(output, k, tmp, tweak);
      assert output[..k + 16] == was + Blk(f, tweak, input[k..k + 16]) by { BlkIs(f, tweak, input[k..k + 16]); }
      if blocks == 0 && leftover > 0 {
        PendingSteal(mode, f, t0, input, t, k, was, output[..k + 16]);
      } else {
        PendingStep(mode, f, t0, input, t, k, was, output[..k + 16]);
      }
      tweak := MulX(tweak);
      k := k + 16;
    }
    if leftover > 0 {
      var t := if mode == Decrypt then prev_tweak else tweak;
      ghost var before := output[..k];
      assert before[..k - 16] == output[..k - 16] && before[k - 16..] == output[k - 16..k];
      Steal(f, t, input[k..], output, k);
      StealDone(mode, f, t0, input, t, k, before, output[..length]);
    } else {
      PendingDone(mode, f, t0, input, tweak, output[..k]);
    }
    return Ok;
  }

  lemma BlkIs(f: Block -> Block, t: Block, p: Block)
    ensures Blk(f, t, p) == Xor(f(Xor(p, t)), t)
  {}

  /** Write a block under its tweak, byte by byte. */
  method PutXor(output: array<Byte>, at: nat, tmp: Block, t: Block)
    requires at + 16 <= output.Length
    modifies output
    ensures output[..at + 16] == old(output[..at]) + Xor(tmp, t)
    ensures forall i :: at + 16 <= i < output.Length ==> output[i] == old(output[i])
  {
    for i := 0 to 16
      invariant output[..at + i] == old(output[..at]) + Xor(tmp, t)[..i]
      invariant forall j :: at + i <= j < output.Length ==> output[j] == old(output[j])
    {
      output[at + i] := tmp[i] ^ t[i];
    }
  }

  /** The last step: bytes of the block before position `at` move behind it, and that block is
      replaced. */
  method Steal(f: Block -> Block, t: Block, rest: seq<Byte>, output: array<Byte>, at: nat)
    requires 0 < |rest| < 16 && 16 <= at && at + |rest| <= output.Length
    modifies output
    ensures output[..at + |rest|] == old(output[..at - 16]) + Stolen(f, t, old(output[at - 16..at]), rest)
    ensures forall i :: at + |rest| <= i < output.Length ==> output[i] == old(output[i])
  {
    hide Blk, Stolen;
    ghost var prev: seq<Byte> := output[at - 16..at];
    var b := |rest|;
    var tmp := Gather(t, rest, output, at);
    tmp := f(tmp);
    ghost var moved := output[at..at + b];
    PutBack(output, at - 16, tmp, t);
    StolenIs(f, t, prev, rest, output[at - 16..at], moved);
    assert output[at..at + b] == moved;
    ThreePieces(output[..at + b], at - 16, at);
  }

  lemma StolenIs(f: Block -> Block, t: Block, prev: Block, rest: seq<Byte>, head: seq<Byte>, moved: seq<Byte>)
    requires 0 < |rest| < 16 && moved == prev[..|rest|]
    requires head == Xor(f(Xor(rest + prev[|rest|..], t)), t)
    ensures head + moved == Stolen(f, t, prev, rest)
  {
    hide Blk;
    BlkIs(f, t, rest + prev[|rest|..]);
  }

  lemma ThreePieces(s: seq<Byte>, i: nat, j: nat)
    requires i <= j <= |s|
    ensures s == s[..i] + (s[i..j] + s[j..])
  {}

  /** The copy loops: the leftover bytes and the stolen ones, under the tweak. */
  method Gather(t: Block, rest: seq<Byte>, output: array<Byte>, at: nat) returns (tmp: Block)
    requires 0 < |rest| < 16 && 16 <= at && at + |rest| <= output.Length
    modifies output
    ensures tmp == Xor(rest + old(output[at - 16..at])[|rest|..], t)
    ensures output[at..at + |rest|] == old(output[at - 16..at])[..|rest|]
    ensures forall i :: 0 <= i < output.Length && (i < at || at + |rest| <= i) ==> output[i] == old(output[i])
  {
    var buf: seq<Byte> := [];
    var i := 0;
    ghost var prev := output[at - 16..at];
    while i < |rest|
      invariant 0 <= i <= |rest| && |buf| == i
      invariant output[at - 16..at] == prev && output[at..at + i] == prev[..i]
      invariant forall j :: 0 <= j < i ==> buf[j] == rest[j] ^ t[j]
      invariant forall j :: 0 <= j < output.Length && (j < at || at + |rest| <= j) ==> output[j] == old(output[j])
    {
      assert output[at - 16 + i] == prev[i];
      output[at + i] := output[at - 16 + i];
      buf := buf + [rest[i] ^ t[i]];
      i := i + 1;
    }
    while i < 16
      invariant |rest| <= i <= 16 && |buf| == i
      invariant forall j :: 0 <= j < |rest| ==> buf[j] == rest[j] ^ t[j]
      invariant forall j :: |rest| <= j < i ==> buf[j] == prev[j] ^ t[j]
    {
      assert output[at - 16 + i] == prev[i];
      buf := buf + [output[at - 16 + i] ^ t[i]];
      i := i + 1;
    }
    tmp := buf;
  }

  /** Overwrite the block before with the result of the last round under its tweak. */
  method PutBack(output: array<Byte>, at: nat, tmp: Block, t: Block)
    requires at + 16 <= output.Length
    modifies output
    ensures output[at..at + 16] == Xor(tmp, t)
    ensures forall i :: 0 <= i < output.Length && (i < at || at + 16 <= i) ==> output[i] == old(output[i])
  {
    for i := 0 to 16
      invariant forall j :: 0 <= j < i ==> output[at + j] == tmp[j] ^ t[j]
      invariant forall j :: 0 <= j < output.Length && (j < at || at + 16 <= j) ==> output[j] == old(output[j])
    {
      output[at + i] := tmp[i] ^ t[i];
    }
  }

  // ----- what has been written so far -----

  /** out is the result up to position k; the rest is the result of the rest under `tweak`. */
  ghost predicate Pending(mode: Mode, f: Block -> Block, t0: Block, input: seq<Byte>, tweak: Block, k: nat,
                          out: seq<Byte>)
  {
    && 16 <= |input| && k <= |input| && |out| == k
    && (k == |input| ==> out == Crypt(mode, f, t0, input))
    && (k < |input| ==> 16 <= |input| - k && Crypt(mode, f, t0, input) == out + Crypt(mode, f, tweak, input[k..]))
  }

  /** All whole blocks are written; stealing under t remains. */
  ghost predicate StealPending(mode: Mode, f: Block -> Block, t0: Block, input: seq<Byte>, t: Block, k: nat,
                               out: seq<Byte>)
  {
    && 16 <= k < |input| < k + 16 && |out| == k
    && Crypt(mode, f, t0, input) == out[..k - 16] + Stolen(f, t, out[k - 16..], input[k..])
  }

  lemma PendingStart(mode: Mode, f: Block -> Block, t0: Block, input: seq<Byte>, out: seq<Byte>)
    requires 16 <= |input| && out == []
    ensures Pending(mode, f, t0, input, t0, 0, out)
  {
    hide Crypt;
    assert input[0..] == input;
    assert [] + Crypt(mode, f, t0, input) == Crypt(mode, f, t0, input);
  }

  lemma PendingDone(mode: Mode, f: Block -> Block, t0: Block, input: seq<Byte>, tweak: Block, out: seq<Byte>)
    requires Pending(mode, f, t0, input, tweak, |input|, out)
    ensures out == Crypt(mode, f, t0, input)
  {}

  lemma PendingStep(mode: Mode, f: Block -> Block, t0: Block, input: seq<Byte>, t: Block, k: nat,
                    was: seq<Byte>, now: seq<Byte>)
    requires k + 16 == |input| || k + 32 <= |input|
    requires now == was + Blk(f, t, input[k..k + 16])
    requires Pending(mode, f, t0, input, t, k, was)
    ensures Pending(mode, f, t0, input, MulX(t), k + 16, now)
  {
    hide Crypt, Blk, MulX;
    var s := input[k..];
    CryptFirst(mode, f, t, s);
    assert s[..16] == input[k..k + 16] && s[16..] == input[k + 16..];
    if |s| == 16 {
      assert s[..16] == s;
    } else {
      Regroup(was, Blk(f, t, s[..16]), Crypt(mode, f, MulX(t), s[16..]));
    }
  }

  lemma FrontAndBack(a: seq<Byte>, b: seq<Byte>, c: seq<Byte>)
    requires c == a + b
    ensures c[..|a|] == a && c[|a|..] == b
  {}

  lemma Regroup(a: seq<Byte>, b: seq<Byte>, c: seq<Byte>)
    ensures (a + b) + c == a + (b + c)
  {}

  lemma PendingSteal(mode: Mode, f: Block -> Block, t0: Block, input: seq<Byte>, t: Block, k: nat,
                     was: seq<Byte>, now: seq<Byte>)
    requires k + 16 < |input| < k + 32
    requires now == was + Blk(f, if mode == Decrypt then MulX(t) else t, input[k..k + 16])
    requires Pending(mode, f, t0, input, t, k, was)
    ensures StealPending(mode, f, t0, input, if mode == Decrypt then t else MulX(t), k + 16, now)
  {
    hide Blk, MulX, Crypt;
    var s := input[k..];
    CryptLast(mode, f, t, s);
    assert s[..16] == input[k..k + 16] && s[16..] == input[k + 16..];
    hide Stolen;
    FrontAndBack(was, Blk(f, if mode == Decrypt then MulX(t) else t, s[..16]), now);
  }

  lemma StealDone(mode: Mode, f: Block -> Block, t0: Block, input: seq<Byte>, t: Block, k: nat,
                  was: seq<Byte>, now: seq<Byte>)
    requires StealPending(mode, f, t0, input, t, k, was)
    requires now == was[..k - 16] + Stolen(f, t, was[k - 16..], input[k..])
    ensures now == Crypt(mode, f, t0, input)
  {}
}
