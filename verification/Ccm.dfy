/** CCM authenticated encryption (NIST SP 800-38C), and CCM* with short tags. */
module Ccm {
  import opened BlockCipher
  import opened Numbers

  // ----- blocks -----

  /** The low q bytes of n, most significant first. */
  function BigEndian(n: nat, q: nat): (s: seq<Byte>)
    ensures |s| == q
    decreases q
  {
    if q == 0 then [] else BigEndian(n / 256, q - 1) + [ByteFor(n)]
  }

  function Zeros(n: nat): (s: seq<Byte>)
    ensures |s| == n && forall i :: 0 <= i < n ==> s[i] == 0
  {
    seq(n, _ => 0)
  }

  function Or(a: Byte, b: Byte): (c: Byte)
    ensures c == 0 <==> a == 0 && b == 0
  {
    a | b
  }

  /** Flags of the first block: additional data present, encoded tag length, length of the length.
      The tag length is a 64-bit quantity, so for an empty tag the middle field has all bits set. */
  function Flags(addLen: nat, tagLen: nat, q: nat): (f: Byte)
    requires 1 <= q
  {
    Or(Or(if addLen > 0 then 0x40 else 0, ByteFor((tagLen + 0xFFFF_FFFF_FFFF_FFFE) % 0x1_0000_0000_0000_0000 / 2 * 8)),
       ByteFor(q - 1))
  }

  /** For the tag lengths of the standard, the flags are its sum of fields: 64 if there is additional
      data, 8 times (tagLen - 2) / 2, and q - 1. */
  lemma FlagsAreFields(addLen: nat, tagLen: nat, q: nat)
    requires 4 <= tagLen <= 16 && tagLen % 2 == 0 && 2 <= q <= 8
    ensures Flags(addLen, tagLen, q) as nat == (if addLen > 0 then 64 else 0) + 8 * ((tagLen - 2) / 2) + (q - 1)
  {
    hide ByteFor, Or;
    var m, r := (tagLen - 2) / 2, q - 1;
    TagField(tagLen);
    FieldsOr(addLen > 0, m, r);
    ByteForBack((if addLen > 0 then 64 else 0) + (8 * m + r));
  }

  lemma FieldsOr(present: bool, m: nat, r: nat)
    requires m < 8 && r < 8
    ensures Or(Or(if present then 0x40 else 0, ByteFor(8 * m)), ByteFor(r)) ==
            ByteFor((if present then 64 else 0) + (8 * m + r))
  {
    hide ByteFor, Or;
    FieldBytes(m, r);
    OrIsSum(if present then 0x40 else 0, ByteFor(8 * m), ByteFor(r));
    ByteForSum(8 * m, r);
    ByteForSum(if present then 64 else 0, 8 * m + r);
  }

  lemma TagField(tagLen: nat)
    requires 4 <= tagLen <= 16 && tagLen % 2 == 0
    ensures (tagLen + 0xFFFF_FFFF_FFFF_FFFE) % 0x1_0000_0000_0000_0000 / 2 * 8 == 8 * ((tagLen - 2) / 2)
  {
    assert (tagLen + 0xFFFF_FFFF_FFFF_FFFE) % 0x1_0000_0000_0000_0000 == tagLen - 2;
  }

  /** The three fields occupy different bits. */
  lemma OrIsSum(a: Byte, m: Byte, r: Byte)
    requires a & 0xBF == 0 && m & 0xC7 == 0 && r & 0xF8 == 0
    ensures Or(Or(a, m), r) == a + (m + r)
  {}

  lemma {:induction false} ByteForSum(m: nat, n: nat)
    requires m + n < 256
    ensures ByteFor(m + n) == ByteFor(m) + ByteFor(n)
  {
    hide ByteFor;
    if n == 0 {
      ByteOne();
    } else {
      ByteForSum(m, n - 1);
      ByteForNext(m + n - 1);
      ByteForNext(n - 1);
    }
  }

  lemma FieldBytes(m: nat, r: nat)
    requires m < 8 && r < 8
    ensures ByteFor(8 * m) & 0xC7 == 0 && ByteFor(r) & 0xF8 == 0 && ByteFor(64) == 0x40 && ByteFor(0) == 0
  {
    hide ByteFor;
    LowField(r);
    MidField(m);
    MidField(8);
    ByteOne();
  }

  lemma {:induction false} LowField(r: nat)
    requires r <= 8
    ensures ByteFor(r) <= 8 && (r < 8 ==> ByteFor(r) & 0xF8 == 0) && (r == 8 ==> ByteFor(r) == 8)
  {
    LowFieldIs(r);
  }

  lemma LowFieldIs(r: nat)
    requires r <= 8
    ensures ByteFor(r) == (match r case 0 => 0 case 1 => 1 case 2 => 2 case 3 => 3 case 4 => 4 case 5 => 5
                           case 6 => 6 case 7 => 7 case _ => 8)
  {
    hide ByteFor;
    ByteOne();
    if r > 1 {
      LowFieldIs(r - 1);
      ByteForNext(r - 1);
    }
  }

  lemma MidField(m: nat)
    requires m <= 8
    ensures ByteFor(8 * m) == (match m case 0 => 0 case 1 => 8 case 2 => 16 case 3 => 24 case 4 => 32 case 5 => 40
                               case 6 => 48 case 7 => 56 case _ => 64)
  {
    hide ByteFor;
    ByteOne();
    if m > 0 {
      MidField(m - 1);
      LowFieldIs(8);
      ByteForSum(8 * (m - 1), 8);
    }
  }

  /** B_0: flags, nonce, message length. */
  function FirstBlock(iv: seq<Byte>, length: nat, addLen: nat, tagLen: nat): (b: Block)
    requires 7 <= |iv| <= 13
  {
    [Flags(addLen, tagLen, 15 - |iv|)] + iv + BigEndian(length, 15 - |iv|)
  }

  /** Counter block i: flags, nonce, counter. */
  function CounterBlock(iv: seq<Byte>, i: nat): (b: Block)
    requires 7 <= |iv| <= 13
  {
    [ByteFor(14 - |iv|)] + iv + BigEndian(i, 15 - |iv|)
  }

  // ----- the mode -----

  function MacStep(e: Block -> Block, y: Block, b: Block): (r: Block)
  {
    e(Xor(y, b))
  }

  function Padded(s: seq<Byte>): (b: Block)
    requires |s| <= 16
  {
    s + Zeros(16 - |s|)
  }

  function Front(s: seq<Byte>): (n: nat)
    ensures n <= |s| && n <= 16 && (n == 0 <==> s == [])
  {
    if |s| > 16 then 16 else |s|
  }

  /** CBC-MAC over s, zero-padded to whole blocks. */
  function Mac(e: Block -> Block, y: Block, s: seq<Byte>): (r: Block)
    decreases |s|
  {
    if s == [] then y else Mac(e, MacStep(e, y, Padded(s[..Front(s)])), s[Front(s)..])
  }

  /** CBC-MAC over first block, encoded additional data, message. */
  function Authenticate(e: Block -> Block, iv: seq<Byte>, add: seq<Byte>, m: seq<Byte>, tagLen: nat): (r: Block)
    requires 7 <= |iv| <= 13
  {
    var y0 := MacStep(e, Zeros(16), FirstBlock(iv, |m|, |add|, tagLen));
    var y1 := if add == [] then y0 else Mac(e, y0, [ByteFor(|add| / 256), ByteFor(|add|)] + add);
    Mac(e, y1, m)
  }

  /** Counter mode from counter i on. */
  function Counter(e: Block -> Block, iv: seq<Byte>, i: nat, s: seq<Byte>): (r: seq<Byte>)
    requires 7 <= |iv| <= 13
    ensures |r| == |s|
    decreases |s|
  {
    if s == [] then [] else
      Xor(s[..Front(s)], e(CounterBlock(iv, i))[..Front(s)]) + Counter(e, iv, i + 1, s[Front(s)..])
  }

  /** The tag: the CBC-MAC under counter block 0, cut. */
  function Tag(e: Block -> Block, iv: seq<Byte>, add: seq<Byte>, m: seq<Byte>, tagLen: nat): (t: seq<Byte>)
    requires 7 <= |iv| <= 13 && tagLen <= 16
    ensures |t| == tagLen
  {
    Xor(Authenticate(e, iv, add, m, tagLen), e(CounterBlock(iv, 0)))[..tagLen]
  }

  // ----- laws -----

  /** Counter mode undoes itself. */
  lemma {:induction false} CounterTwice(e: Block -> Block, iv: seq<Byte>, i: nat, s: seq<Byte>)
    requires 7 <= |iv| <= 13
    ensures Counter(e, iv, i, Counter(e, iv, i, s)) == s
    decreases |s|
  {
    hide CounterBlock;
    if s != [] {
      var n := Front(s);
      var head, tail: seq<Byte> := Xor(s[..n], e(CounterBlock(iv, i))[..n]), Counter(e, iv, i + 1, s[n..]);
      CounterTwice(e, iv, i + 1, s[n..]);
      XorTwice(s[..n], e(CounterBlock(iv, i))[..n]);
      assert (head + tail)[..n] == head && (head + tail)[n..] == tail;
      assert s == s[..n] + s[n..];
    }
  }

  lemma {:induction false} BigEndianInjective(m: nat, n: nat, q: nat)
    requires m < Pow(256, q) && n < Pow(256, q) && BigEndian(m, q) == BigEndian(n, q)
    ensures m == n
    decreases q
  {
    hide ByteFor;
    if q > 0 {
      var a, b: seq<Byte> := BigEndian(m / 256, q - 1), BigEndian(n / 256, q - 1);
      assert BigEndian(m, q)[..q - 1] == a && BigEndian(n, q)[..q - 1] == b;
      assert BigEndian(m, q)[q - 1] == ByteFor(m) && BigEndian(n, q)[q - 1] == ByteFor(n);
      BigEndianInjective(m / 256, n / 256, q - 1);
      LowByte(m, n);
    }
  }

  lemma LowByte(m: nat, n: nat)
    requires ByteFor(m) == ByteFor(n) && m / 256 == n / 256
    ensures m == n
  {
    ByteForInjective(m % 256, n % 256);
  }

  /** The counter blocks of a message are pairwise different, and different from the block that
      masks the tag: the length check keeps every counter below 256^q. */
  lemma CountersDistinct(iv: seq<Byte>, length: nat, i: nat, j: nat)
    requires 7 <= |iv| <= 13 && length < Pow(256, 15 - |iv|)
    requires i <= (length + 15) / 16 && j <= (length + 15) / 16
    ensures CounterBlock(iv, i) == CounterBlock(iv, j) <==> i == j
  {
    hide BigEndian, Pow;
    var q := 15 - |iv|;
    PowPositive(q);
    if CounterBlock(iv, i) == CounterBlock(iv, j) {
      assert CounterBlock(iv, i)[1 + |iv|..] == BigEndian(i, q);
      assert CounterBlock(iv, j)[1 + |iv|..] == BigEndian(j, q);
      BigEndianInjective(i, j, q);
    }
  }

  lemma PowPositive(q: nat)
    ensures q > 0 ==> Pow(256, q) >= 256
    ensures Pow(256, q) >= 1
  {
    if q > 0 { PowPositive(q - 1); }
  }

  // ----- the routines -----

  datatype Status = Ok | BadInput | AuthFailed

  /** What the parameters must satisfy. */
  predicate Accepts(ivLen: nat, addLen: nat, tagLen: nat, length: nat)
  {
    && tagLen != 2 && tagLen <= 16 && tagLen % 2 == 0
    && 7 <= ivLen <= 13 && addLen <= 0xFF00 && length < Pow(256, 15 - ivLen)
  }

  /** The message that is authenticated, given the input of either direction. */
  function Message(mode: Mode, e: Block -> Block, iv: seq<Byte>, input: seq<Byte>): (m: seq<Byte>)
    requires 7 <= |iv| <= 13
    ensures |m| == |input|
  {
    if mode == Encrypt then input else Counter(e, iv, 1, input)
  }

  /** ccm_auth_crypt: encrypt or decrypt, and compute the tag. */
  method AuthCrypt(e: Block -> Block, mode: Mode, iv: seq<Byte>, add: seq<Byte>, input: seq<Byte>,
                   output: array<Byte>, tagLen: nat) returns (ret: Status, tag: seq<Byte>)
    requires |input| <= output.Length
    modifies output
    ensures ret == if Accepts(|iv|, |add|, tagLen, |input|) then Ok else BadInput
    ensures ret == Ok ==> output[..|input|] == Counter(e, iv, 1, input)
    ensures ret == Ok ==> tag == Tag(e, iv, add, Message(mode, e, iv, input), tagLen)
    ensures ret != Ok ==> output[..] == old(output[..])
    ensures forall k :: |input| <= k < output.Length ==> output[k] == old(output[k])
  {
    hide Pow, Counter, CounterBlock, Mac, MacStep, BigEndian, Flags;
    tag := [];
    if tagLen == 2 || tagLen > 16 || tagLen % 2 != 0 { return BadInput, tag; }
    if |iv| < 7 || |iv| > 13 { return BadInput, tag; }
    if |add| > 0xFF00 { return BadInput, tag; }
    var q := 15 - |iv|;
    var flags := Flags(|add|, tagLen, q);
    var ok, lenBytes := LengthBytes(|input|, q);
    if !ok { return BadInput, tag; }
    var y: Block := MacStep(e, Zeros(16), [flags] + iv + lenBytes);
    if |add| > 0 {
      y := MacAdditional(e, y, add);
    }
    var y0 := y;
    var ctr: Block := [ByteFor(q - 1)] + iv + Zeros(q - 1) + [1];
    FirstCounter(iv);
    y, ctr := CryptMessage(e, mode, iv, input, output, y, ctr);
    ctr := ResetCounter(ctr, q, iv);
    tag := Xor(y, e(ctr))[..tagLen];
    return Ok, tag;
  }

  /** The length field, lowest byte first; not ok when the length does not fit. */
  method LengthBytes(length: nat, q: nat) returns (ok: bool, bytes: seq<Byte>)
    ensures ok == (length < Pow(256, q))
    ensures bytes == BigEndian(length, q)
  {
    hide Pow, BigEndian;
    var lenLeft: nat := length;
    bytes := [];
    FieldStart(length, q);
    for i := 0 to q
      invariant BigEndian(length, q) == BigEndian(lenLeft, q - i) + bytes
      invariant length < Pow(256, q) <==> lenLeft < Pow(256, q - i)
    {
      FieldStep(lenLeft, q - i, bytes);
      bytes := [ByteFor(lenLeft)] + bytes;
      lenLeft := lenLeft / 256;
    }
    FieldEnd(lenLeft);
    ok := !(lenLeft > 0);
  }

  lemma FieldStart(length: nat, q: nat)
    ensures BigEndian(length, q) == BigEndian(length, q) + []
  {}

  lemma FieldEnd(n: nat)
    ensures BigEndian(n, 0) == [] && (n < Pow(256, 0) <==> n == 0)
    ensures forall b: seq<Byte> :: BigEndian(n, 0) + b == b
  {}

  lemma FieldStep(n: nat, q: nat, bytes: seq<Byte>)
    requires q > 0
    ensures BigEndian(n, q) + bytes == BigEndian(n / 256, q - 1) + ([ByteFor(n)] + bytes)
    ensures n < Pow(256, q) <==> n / 256 < Pow(256, q - 1)
  {
    hide ByteFor;
    PowPositive(q - 1);
    DivBelow(n, Pow(256, q - 1));
  }

  lemma DivBelow(n: nat, p: nat)
    ensures n < 256 * p <==> n / 256 < p
  {}

  /** CBC-MAC over the encoded length of the additional data, and the data. */
  method MacAdditional(e: Block -> Block, y: Block, add: seq<Byte>) returns (y': Block)
    requires 0 < |add| <= 0xFF00
    ensures y' == Mac(e, y, [ByteFor(|add| / 256), ByteFor(|add|)] + add)
  {
    hide MacStep, Mac, ByteFor;
    ghost var s := [ByteFor(|add| / 256), ByteFor(|add|)] + add;
    var lenLeft := |add|;
    var src := 0;
    var useLen := if lenLeft < 14 then lenLeft else 14;
    var b: Block := [ByteFor(|add| / 256), ByteFor(|add|)] + add[..useLen] + Zeros(14 - useLen);
    MacFirst(e, y, s);
    assert s[..Front(s)] == [ByteFor(|add| / 256), ByteFor(|add|)] + add[..useLen];
    assert s[Front(s)..] == add[useLen..];
    assert b == Padded(s[..Front(s)]);
    lenLeft := lenLeft - useLen;
    src := src + useLen;
    y' := MacStep(e, y, b);
    while lenLeft > 0
      invariant 0 <= src && lenLeft >= 0 && src + lenLeft == |add|
      invariant Mac(e, y, s) == Mac(e, y', add[src..])
    {
      useLen := if lenLeft > 16 then 16 else lenLeft;
      MacFirst(e, y', add[src..]);
      assert add[src..][..useLen] == add[src..src + useLen] && add[src..][useLen..] == add[src + useLen..];
      b := add[src..src + useLen] + Zeros(16 - useLen);
      y' := MacStep(e, y', b);
      lenLeft := lenLeft - useLen;
      src := src + useLen;
    }
    MacNothing(e, y');
  }

  lemma MacFirst(e: Block -> Block, y: Block, s: seq<Byte>)
    requires s != []
    ensures Mac(e, y, s) == Mac(e, MacStep(e, y, Padded(s[..Front(s)])), s[Front(s)..])
  {}

  lemma MacNothing(e: Block -> Block, y: Block)
    ensures Mac(e, y, []) == y
  {}

  lemma CounterFirst(e: Block -> Block, iv: seq<Byte>, i: nat, s: seq<Byte>)
    requires 7 <= |iv| <= 13
    ensures s != [] ==>
              Counter(e, iv, i, s) ==
              Xor(s[..Front(s)], e(CounterBlock(iv, i))[..Front(s)]) + Counter(e, iv, i + 1, s[Front(s)..])
    ensures s == [] ==> Counter(e, iv, i, s) == []
  {
    hide CounterBlock;
  }

  /** What remains to be done from position k, where the counter is i. */
  ghost predicate Pending(mode: Mode, e: Block -> Block, iv: seq<Byte>, input: seq<Byte>, k: nat, i: nat,
                          out: seq<Byte>, y0: Block, y: Block)
  {
    && 7 <= |iv| <= 13 && k <= |input|
    && Counter(e, iv, 1, input) == out + Counter(e, iv, i, input[k..])
    && Mac(e, y0, Message(mode, e, iv, input)) ==
         Mac(e, y, if mode == Encrypt then input[k..] else Counter(e, iv, i, input[k..]))
  }

  lemma PendingStart(mode: Mode, e: Block -> Block, iv: seq<Byte>, input: seq<Byte>, y: Block)
    requires 7 <= |iv| <= 13
    ensures Pending(mode, e, iv, input, 0, 1, [], y, y)
  {
    hide Counter, Mac;
    assert input[0..] == input;
    assert [] + Counter(e, iv, 1, input) == Counter(e, iv, 1, input);
  }

  lemma PendingStep(mode: Mode, e: Block -> Block, iv: seq<Byte>, input: seq<Byte>, k: nat, i: nat,
                    out: seq<Byte>, y0: Block, y: Block)
    requires Pending(mode, e, iv, input, k, i, out, y0, y) && k < |input|
    ensures var n := Front(input[k..]);
      var src := input[k..k + n];
      var dst := Xor(src, e(CounterBlock(iv, i))[..n]);
      Pending(mode, e, iv, input, k + n, i + 1, out + dst, y0,
              MacStep(e, y, Padded(if mode == Encrypt then src else dst)))
  {
    hide Counter, CounterBlock, Mac, MacStep, Message;
    var s := input[k..];
    var n := Front(s);
    var src := input[k..k + n];
    var dst := Xor(src, e(CounterBlock(iv, i))[..n]);
    SplitAt(s, n, input, k);
    CounterFirst(e, iv, i, s);
    var rest := Counter(e, iv, i + 1, input[k + n..]);
    Regroup(out, dst, rest);
    MacSplit(e, y, src, input[k + n..]);
    MacSplit(e, y, dst, rest);
  }

  lemma SplitAt(s: seq<Byte>, n: nat, input: seq<Byte>, k: nat)
    requires k <= |input| && s == input[k..] && n <= |s|
    ensures s[..n] == input[k..k + n] && s[n..] == input[k + n..]
    ensures s == input[k..k + n] + input[k + n..]
  {}

  /** The first block of the MAC's input; only the last may be incomplete. */
  lemma MacSplit(e: Block -> Block, y: Block, first: seq<Byte>, rest: seq<Byte>)
    requires 0 < |first| <= 16 && (|first| == 16 || rest == [])
    ensures Mac(e, y, first + rest) == Mac(e, MacStep(e, y, Padded(first)), rest)
  {
    hide MacStep, Mac, Padded;
    MacFirst(e, y, first + rest);
    assert (first + rest)[..|first|] == first && (first + rest)[|first|..] == rest;
  }

  lemma Regroup(a: seq<Byte>, b: seq<Byte>, c: seq<Byte>)
    ensures (a + b) + c == a + (b + c)
  {}

  lemma PendingDone(mode: Mode, e: Block -> Block, iv: seq<Byte>, input: seq<Byte>, i: nat,
                    out: seq<Byte>, y0: Block, y: Block)
    requires Pending(mode, e, iv, input, |input|, i, out, y0, y)
    ensures out == Counter(e, iv, 1, input) && y == Mac(e, y0, Message(mode, e, iv, input))
  {
    hide CounterBlock, MacStep;
    assert input[|input|..] == [];
  }

  /** The payload loop: authenticate and encrypt, or decrypt and authenticate, block by block. */
  method CryptMessage(e: Block -> Block, mode: Mode, iv: seq<Byte>, input: seq<Byte>, output: array<Byte>,
                      y0: Block, ctr0: Block) returns (y: Block, ctr: Block)
    requires 7 <= |iv| <= 13 && |input| < Pow(256, 15 - |iv|) && |input| <= output.Length
    requires ctr0 == CounterBlock(iv, 1)
    modifies output
    ensures output[..|input|] == Counter(e, iv, 1, input)
    ensures y == Mac(e, y0, Message(mode, e, iv, input))
    ensures exists i :: ctr == CounterBlock(iv, i)
    ensures forall k :: |input| <= k < output.Length ==> output[k] == old(output[k])
  {
    hide Pending, Counter, CounterBlock, Mac, MacStep, Message, Pow;
    var q := 15 - |iv|;
    y, ctr := y0, ctr0;
    var k := 0;
    ghost var i := 1;
    assert output[..0] == [];
    PendingStart(mode, e, iv, input, y0);
    while k < |input|
      invariant 0 <= k <= |input| && 1 <= i && ctr == CounterBlock(iv, i)
      invariant Pending(mode, e, iv, input, k, i, output[..k], y0, y)
      invariant forall j :: |input| <= j < output.Length ==> output[j] == old(output[j])
    {
      var lenLeft := |input| - k;
      var useLen := if lenLeft > 16 then 16 else lenLeft;
      PendingStep(mode, e, iv, input, k, i, output[..k], y0, y);
      if mode == Encrypt {
        y := MacStep(e, y, Padded(input[k..k + useLen]));
      }
      var b := e(ctr);
      CtrCrypt(output, k, input[k..k + useLen], b);
      if mode == Decrypt {
        y := MacStep(e, y, Padded(output[k..k + useLen]));
      }
      k := k + useLen;
      ctr := Increment(ctr, q, iv, i);
      i := i + 1;
    }
    PendingDone(mode, e, iv, input, i, output[..k], y0, y);
  }

  /** Put a piece of text under an encrypted counter block. */
  method CtrCrypt(output: array<Byte>, k: nat, src: seq<Byte>, b: Block)
    requires |src| <= 16 && k + |src| <= output.Length
    modifies output
    ensures output[..k + |src|] == old(output[..k]) + Xor(src, b[..|src|])
    ensures output[k..k + |src|] == Xor(src, b[..|src|])
    ensures forall j :: k + |src| <= j < output.Length ==> output[j] == old(output[j])
  {
    for i := 0 to |src|
      invariant output[..k + i] == old(output[..k]) + Xor(src, b[..|src|])[..i]
      invariant forall j :: k + i <= j < output.Length ==> output[j] == old(output[j])
    {
      output[k + i] := src[i] ^ b[i];
    }
  }

  lemma FirstCounter(iv: seq<Byte>)
    requires 7 <= |iv| <= 13
    ensures CounterBlock(iv, 1) == [ByteFor(14 - |iv|)] + iv + Zeros(14 - |iv|) + [1]
  {
    SmallBigEndian(14 - |iv|);
    assert ByteFor(1) == 1 by { ByteOne(); }
  }

  lemma ByteOne()
    ensures ByteFor(1) == 1 && ByteFor(0) == 0
  {}

  lemma SmallBigEndian(q: nat)
    ensures BigEndian(0, q) == Zeros(q)
  {
    ByteOne();
    if q > 0 { SmallBigEndian(q - 1); }
  }

  /** Increment the last q bytes, lowest first, until one does not wrap. */
  method Increment(ctr: Block, q: nat, iv: seq<Byte>, ghost i: nat) returns (ctr': Block)
    requires 7 <= |iv| <= 13 && q == 15 - |iv| && ctr == CounterBlock(iv, i)
    ensures ctr' == CounterBlock(iv, i + 1)
  {
    hide ByteFor, BigEndian;
    ctr' := ctr;
    ghost var head := [ByteFor(14 - |iv|)] + iv;
    ghost var m := i;
    CarryStart(i, q);
    for j := 0 to q
      invariant ctr' == head + (BigEndian(m, q - j) + Zeros(j))
      invariant BigEndian(i + 1, q) == BigEndian(m + 1, q - j) + Zeros(j)
    {
      CarryStep(m, q - j, j);
      assert ctr'[15 - j] == ByteFor(m);
      var next := ctr'[15 - j] + 1;
      assert ctr'[15 - j := next] == head + (BigEndian(m / 256, q - j - 1) + ([next] + Zeros(j)));
      ctr' := ctr'[15 - j := next];
      m := m / 256;
      if next != 0 { return; }
      assert [0] + Zeros(j) == Zeros(j + 1);
    }
    assert BigEndian(m, 0) == BigEndian(m + 1, 0) == [];
  }

  lemma CarryStart(i: nat, q: nat)
    ensures BigEndian(i, q) + Zeros(0) == BigEndian(i, q)
    ensures BigEndian(i + 1, q) + Zeros(0) == BigEndian(i + 1, q)
  {}

  lemma CarryStep(m: nat, q: nat, j: nat)
    requires q > 0
    ensures BigEndian(m, q) == BigEndian(m / 256, q - 1) + [ByteFor(m)]
    ensures ByteFor(m) + 1 != 0 ==> BigEndian(m + 1, q) == BigEndian(m / 256, q - 1) + [ByteFor(m) + 1]
    ensures ByteFor(m) + 1 == 0 ==> BigEndian(m + 1, q) == BigEndian(m / 256 + 1, q - 1) + [0]
  {
    hide ByteFor;
    ByteOne();
    ByteForNext(m % 256);
    ByteForMod(m);
    ByteForMod(m + 1);
    CarryArithmetic(m);
  }

  lemma ByteForMod(m: nat)
    ensures ByteFor(m) == ByteFor(m % 256)
  {}

  lemma CarryArithmetic(m: nat)
    ensures (m + 1) / 256 == if m % 256 == 255 then m / 256 + 1 else m / 256
    ensures (m + 1) % 256 == if m % 256 == 255 then 0 else m % 256 + 1
  {}

  /** Counter back to zero. */
  method ResetCounter(ctr: Block, q: nat, iv: seq<Byte>) returns (ctr': Block)
    requires 7 <= |iv| <= 13 && q == 15 - |iv| && exists i :: ctr == CounterBlock(iv, i)
    ensures ctr' == CounterBlock(iv, 0)
  {
    hide ByteFor, BigEndian;
    ctr' := ctr;
    ghost var head := [ByteFor(14 - |iv|)] + iv;
    for i := 0 to q
      invariant ctr'[..1 + |iv|] == head
      invariant forall j :: 16 - i <= j < 16 ==> ctr'[j] == 0
    {
      ctr' := ctr'[15 - i := 0];
    }
    SmallBigEndian(q);
    assert ctr' == ctr'[..1 + |iv|] + ctr'[1 + |iv|..];
    assert ctr'[1 + |iv|..] == Zeros(q);
  }

  /** mbedtls_ccm_encrypt_and_tag. */
  method EncryptAndTag(e: Block -> Block, iv: seq<Byte>, add: seq<Byte>, input: seq<Byte>,
                       output: array<Byte>, tagLen: nat) returns (ret: Status, tag: seq<Byte>)
    requires |input| <= output.Length
    modifies output
    ensures ret == if tagLen != 0 && Accepts(|iv|, |add|, tagLen, |input|) then Ok else BadInput
    ensures ret == Ok ==> output[..|input|] == Counter(e, iv, 1, input) && tag == Tag(e, iv, add, input, tagLen)
    ensures ret != Ok ==> output[..] == old(output[..])
    ensures forall k :: |input| <= k < output.Length ==> output[k] == old(output[k])
  {
    hide Accepts, Counter, Tag;
    if tagLen == 0 { return BadInput, []; }
    ret, tag := AuthCrypt(e, Encrypt, iv, add, input, output, tagLen);
  }

  /** mbedtls_ccm_auth_decrypt: the plaintext, or zeros when the tag is wrong. */
  method AuthDecrypt(e: Block -> Block, iv: seq<Byte>, add: seq<Byte>, input: seq<Byte>,
                     output: array<Byte>, tag: seq<Byte>) returns (ret: Status)
    requires |input| <= output.Length
    modifies output
    ensures ret == BadInput <==> !(|tag| != 0 && Accepts(|iv|, |add|, |tag|, |input|))
    ensures ret != BadInput ==>
      (ret == Ok <==> tag == Tag(e, iv, add, Counter(e, iv, 1, input), |tag|))
    ensures ret == Ok ==> output[..|input|] == Counter(e, iv, 1, input)
    ensures ret == AuthFailed ==> output[..|input|] == Zeros(|input|)
    ensures ret == BadInput ==> output[..] == old(output[..])
    ensures forall k :: |input| <= k < output.Length ==> output[k] == old(output[k])
  {
    hide Accepts, Counter, Tag;
    if |tag| == 0 { return BadInput; }
    var checkTag: seq<Byte>;
    ret, checkTag := AuthCrypt(e, Decrypt, iv, add, input, output, |tag|);
    if ret != Ok { return; }
    var diff: Byte := 0;
    for i := 0 to |tag|
      invariant diff == 0 <==> tag[..i] == checkTag[..i]
    {
      diff := Or(diff, Difference(tag[i], checkTag[i]));
      assert tag[..i + 1] == tag[..i] + [tag[i]] && checkTag[..i + 1] == checkTag[..i] + [checkTag[i]];
    }
    assert tag[..|tag|] == tag && checkTag[..|tag|] == checkTag;
    if diff != 0 {
      for i := 0 to |input|
        invariant output[..i] == Zeros(|input|)[..i]
        invariant forall k :: |input| <= k < output.Length ==> output[k] == old(output[k])
      {
        output[i] := 0;
      }
      return AuthFailed;
    }
    return Ok;
  }

  function Difference(a: Byte, b: Byte): (c: Byte)
    ensures c == 0 <==> a == b
  {
    a ^ b
  }

  /** Whatever encryption outputs is accepted by decryption, which gives the plaintext back. */
  lemma DecryptionAccepts(e: Block -> Block, iv: seq<Byte>, add: seq<Byte>, m: seq<Byte>, tagLen: nat)
    requires Accepts(|iv|, |add|, tagLen, |m|)
    ensures var ct, tag := Counter(e, iv, 1, m), Tag(e, iv, add, m, tagLen);
      && Accepts(|iv|, |add|, |tag|, |ct|)
      && tag == Tag(e, iv, add, Counter(e, iv, 1, ct), |tag|)
      && Counter(e, iv, 1, ct) == m
  {
    hide Tag, Counter, Pow;
    CounterTwice(e, iv, 1, m);
  }
}
