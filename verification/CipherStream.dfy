/** The CBC branch of the generic cipher layer: a context that is fed pieces of any size. */
module CipherStream {
  import opened BlockCipher
  import opened Cbc
  import opened Padding

  datatype Status = Ok | FullBlockExpected | InvalidPadding

  /** done has been processed into emitted, and iv is the vector for what follows. */
  ghost predicate Processed(c: Cipher, mode: Mode, start: Block, done: seq<Byte>, emitted: seq<Byte>, iv: Block)
  {
    |done| % 16 == 0 && emitted == Crypt(c, mode, start, done) && iv == NextIv(c, mode, start, done)
  }

  lemma ProcessedNothing(c: Cipher, mode: Mode, start: Block)
    ensures Processed(c, mode, start, [], [], start)
  {}

  lemma ProcessMore(c: Cipher, mode: Mode, start: Block, done: seq<Byte>, emitted: seq<Byte>, iv: Block, p: seq<Byte>)
    requires Processed(c, mode, start, done, emitted, iv) && |p| % 16 == 0
    ensures Processed(c, mode, start, done + p, emitted + Crypt(c, mode, iv, p), NextIv(c, mode, iv, p))
  {
    hide Crypt, NextIv;
    CryptAppend(c, mode, start, done, p);
  }

  lemma ProcessedWhole(c: Cipher, mode: Mode, start: Block, done: seq<Byte>, emitted: seq<Byte>, iv: Block)
    requires Processed(c, mode, start, done, emitted, iv)
    ensures |done| % 16 == 0 && emitted == Crypt(c, mode, start, done) && |emitted| == |done|
  {}

  /** The message with its padding. */
  function PadMessage(p: Scheme, m: seq<Byte>): (s: seq<Byte>)
    requires p != NoPadding
    ensures |s| % 16 == 0 && |s| == |m| - |m| % 16 + 16
  {
    m + PaddingOf(p, |m| % 16)
  }

  /** The padded message byte by byte: up to the next whole block, with k bytes added. */
  lemma PaddedMessageBytes(p: Scheme, m: seq<Byte>, i: nat)
    requires p != NoPadding && |m| <= i < |PadMessage(p, m)|
    ensures var s := PadMessage(p, m); var k := |s| - |m|;
      && |s| % 16 == 0 && 1 <= k <= 16 && s[..|m|] == m
      && s[i] as nat ==
           match p
           case Pkcs7 => k
           case OneAndZeros => if i == |m| then 128 else 0
           case ZerosAndLen => if i == |s| - 1 then k else 0
           case _ => 0
  {
    hide PaddingOf;
    var n := |m| % 16;
    PaddingBytes(p, n, n + (i - |m|));
    assert PadMessage(p, m)[i] == PaddingOf(p, n)[i - |m|];
  }

  /** How many of n bytes are held back. A decrypting context that removes padding keeps a whole
      block back, since it may be the last; otherwise only the incomplete block is kept. */
  function Held(keepsBlock: bool, n: nat): (h: nat)
    ensures h <= n && h <= 16 && (n - h) % 16 == 0
    ensures !keepsBlock ==> h < 16
    ensures keepsBlock && n > 0 ==> h > 0
  {
    if keepsBlock && n > 0 && n % 16 == 0 then 16 else n % 16
  }

  lemma HeldUnique(keepsBlock: bool, n: nat, h: nat)
    requires h <= n && (n - h) % 16 == 0
    requires if keepsBlock && n > 0 then 1 <= h <= 16 else h < 16
    ensures h == Held(keepsBlock, n)
  {}

  class CipherContext {
    const cipher: Cipher
    const operation: Mode
    const padding: Scheme
    const unprocessedData: array<Byte>
    var unprocessedLen: nat
    var iv: Block
    ghost var start: Block
    ghost var fed: seq<Byte>
    ghost var emitted: seq<Byte>

    predicate KeepsBlock() { operation == Decrypt && padding != NoPadding }

    /** What has been emitted is the one-shot result for everything fed but the held bytes: the way
        the input was cut does not matter. */
    ghost predicate Valid()
      reads this, unprocessedData
    {
      && unprocessedData.Length == 16
      && unprocessedLen == Held(KeepsBlock(), |fed|)
      && fed[|fed| - unprocessedLen..] == unprocessedData[..unprocessedLen]
      && Processed(cipher, operation, start, fed[..|fed| - unprocessedLen], emitted, iv)
    }

    constructor (cipher: Cipher, operation: Mode, padding: Scheme, iv: Block)
      ensures Valid() && fed == [] && emitted == [] && start == iv && fresh(unprocessedData)
      ensures this.cipher == cipher && this.operation == operation && this.padding == padding
    {
      this.cipher, this.operation, this.padding := cipher, operation, padding;
      this.iv := iv;
      unprocessedData := new Byte[16];
      unprocessedLen := 0;
      start, fed, emitted := iv, [], [];
      new;
      hide Processed, Crypt, NextIv;
      ProcessedNothing(cipher, operation, iv);
    }

    /** Append input to the held bytes. */
    method Cache(input: seq<Byte>)
      requires unprocessedData.Length == 16 && unprocessedLen + |input| <= 16
      modifies this`unprocessedLen, unprocessedData
      ensures unprocessedLen == old(unprocessedLen) + |input|
      ensures unprocessedData[..unprocessedLen] == old(unprocessedData[..unprocessedLen]) + input
    {
      for i := 0 to |input|
        invariant unprocessedLen + i <= 16
        invariant unprocessedData[..unprocessedLen + i] == old(unprocessedData[..unprocessedLen]) + input[..i]
      {
        unprocessedData[unprocessedLen + i] := input[i];
      }
      unprocessedLen := unprocessedLen + |input|;
    }

    /** The condition under which all of the input is only cached. */
    predicate OnlyCaches(ilen: nat)
      reads this
      requires unprocessedLen <= 16
    {
      (operation == Decrypt && padding != NoPadding && ilen <= 16 - unprocessedLen)
      || (operation == Decrypt && padding == NoPadding && ilen < 16 - unprocessedLen)
      || (operation == Encrypt && ilen < 16 - unprocessedLen)
    }

    /** mbedtls_cipher_update in CBC mode; input and output are different buffers. */
    method Update(input: seq<Byte>, output: array<Byte>) returns (olen: nat)
      requires Valid() && |input| + 16 <= output.Length && output != unprocessedData
      modifies this`unprocessedLen, this`iv, this`fed, this`emitted, unprocessedData, output
      ensures Valid() && start == old(start)
      ensures fed == old(fed) + input
      ensures olen <= |input| + 16 && emitted == old(emitted) + output[..olen]
      ensures forall i :: olen <= i < output.Length ==> output[i] == old(output[i])
    {
      hide Processed, Crypt, NextIv;
      ghost var total, d := fed + input, |fed| - unprocessedLen;
      olen := 0;
      if OnlyCaches(|input|) {
        Cache(input);
        HeldUnique(KeepsBlock(), |total|, unprocessedLen);
        assert total[..d] == fed[..d] && total[d..] == fed[d..] + input;
        fed := total;
        return;
      }
      var rest := input;
      ghost var done := fed[..d];
      assert total == done + (fed[d..] + input);
      fed := total;
      if unprocessedLen != 0 {
        var copyLen := 16 - unprocessedLen;
        Cache(rest[..copyLen]);
        olen := ProcessBlocks(unprocessedData[..16], output, 0, done);
        done := done + unprocessedData[..16];
        unprocessedLen := 0;
        rest := rest[copyLen..];
      }
      assert total == done + rest;
      olen := UpdateWhole(rest, output, olen, done);
    }

    /** The second half of the update, when nothing is cached: cache the end, process the rest. */
    method UpdateWhole(rest: seq<Byte>, output: array<Byte>, at: nat, ghost done: seq<Byte>) returns (olen: nat)
      requires unprocessedLen == 0 && unprocessedData.Length == 16 && output != unprocessedData
      requires at + |rest| <= output.Length && fed == done + rest
      requires Processed(cipher, operation, start, done, emitted, iv)
      requires KeepsBlock() ==> rest != []
      modifies this`unprocessedLen, this`iv, this`emitted, unprocessedData, output
      ensures Valid()
      ensures at <= olen <= at + |rest| && emitted == old(emitted) + output[at..olen]
      ensures output[..at] == old(output[..at])
      ensures forall i :: olen <= i < output.Length ==> output[i] == old(output[i])
    {
      hide Processed, Crypt, NextIv;
      var ilen := |rest|;
      if ilen != 0 {
        var copyLen := ilen % 16;
        if copyLen == 0 && operation == Decrypt && padding != NoPadding {
          copyLen := 16;
        }
        Cache(rest[ilen - copyLen..]);
        ilen := ilen - copyLen;
      }
      olen := at;
      if ilen != 0 {
        olen := ProcessBlocks(rest[..ilen], output, at, done);
      }
      assert rest[..0] == [] && done + [] == done;
      ProcessedWhole(cipher, operation, start, done + rest[..ilen], emitted, iv);
      assert fed == (done + rest[..ilen]) + rest[ilen..];
      HeldUnique(KeepsBlock(), |fed|, unprocessedLen);
    }

    /** Run the cipher over whole blocks. */
    method ProcessBlocks(p: seq<Byte>, output: array<Byte>, at: nat, ghost done: seq<Byte>) returns (olen: nat)
      requires |p| % 16 == 0 && at + |p| <= output.Length && output != unprocessedData
      requires Processed(cipher, operation, start, done, emitted, iv)
      modifies this`iv, this`emitted, output
      ensures olen == at + |p| && Processed(cipher, operation, start, done + p, emitted, iv)
      ensures emitted == old(emitted) + output[at..olen] && output[..at] == old(output[..at])
      ensures forall i :: olen <= i < output.Length ==> output[i] == old(output[i])
    {
      hide Processed, Crypt, NextIv;
      ProcessMore(cipher, operation, start, done, emitted, iv, p);
      ghost var front := output[..at];
      var _, v := CryptCbc(cipher, operation, iv, p, output, at);
      ghost var out := Crypt(cipher, operation, iv, p);
      assert output[..at + |p|] == front + out;
      assert output[at..at + |p|] == out && output[..at] == front;
      iv := v;
      emitted := emitted + out;
      return at + |p|;
    }

    /** mbedtls_cipher_finish in CBC mode. */
    method Finish(output: array<Byte>) returns (ret: Status, olen: nat)
      requires Valid() && 16 <= output.Length && output != unprocessedData
      modifies this`iv, unprocessedData, output
      ensures padding == NoPadding ==> ret == (if |fed| % 16 == 0 then Ok else FullBlockExpected) && olen == 0
      ensures padding != NoPadding && operation == Encrypt ==>
        ret == Ok && olen == 16 && emitted + output[..16] == CbcEnc(cipher.enc, start, PadMessage(padding, fed))
      ensures padding != NoPadding && operation == Decrypt && (fed == [] || |fed| % 16 != 0) ==>
        ret == FullBlockExpected && olen == 0
      ensures padding != NoPadding && operation == Decrypt && fed != [] && |fed| % 16 == 0 ==>
        && emitted + output[..16] == CbcDec(cipher.dec, start, fed)
        && ret == (if Unpad(padding, output[..16]) == BadPadding then InvalidPadding else Ok)
        && (ret == Ok ==> olen == Unpad(padding, output[..16]).n)
      ensures forall i :: 16 <= i < output.Length ==> output[i] == old(output[i])
      ensures ret == FullBlockExpected ==> output[..] == old(output[..])
    {
      hide Processed, Crypt, NextIv, CbcEnc, CbcDec, Unpad, PaddingOf;
      olen := 0;
      ghost var done := fed[..|fed| - unprocessedLen];
      ProcessedWhole(cipher, operation, start, done, emitted, iv);
      if operation == Encrypt {
        if padding == NoPadding {
          return if unprocessedLen != 0 then FullBlockExpected else Ok, olen;
        }
        AddPadding(padding, unprocessedData, unprocessedLen);
        assert unprocessedData[..] == fed[|fed| - unprocessedLen..] + PaddingOf(padding, unprocessedLen);
        assert PadMessage(padding, fed) == done + unprocessedData[..];
      } else if 16 != unprocessedLen {
        if padding == NoPadding && 0 == unprocessedLen {
          return Ok, olen;
        }
        return FullBlockExpected, olen;
      } else {
        assert unprocessedData[..] == unprocessedData[..16];
        assert fed == done + unprocessedData[..];
      }
      ProcessMore(cipher, operation, start, done, emitted, iv, unprocessedData[..]);
      ghost var front, out := output[..0], Crypt(cipher, operation, iv, unprocessedData[..]);
      var _, v := CryptCbc(cipher, operation, iv, unprocessedData[..], output, 0);
      assert front + out == out && output[..16] == out;
      ProcessedWhole(cipher, operation, start, done + unprocessedData[..], emitted + output[..16], v);
      CryptIs(cipher, operation, start, done + unprocessedData[..]);
      iv := v;
      if operation == Decrypt {
        var bad, dataLen := GetPadding(padding, output[..16]);
        return if bad then InvalidPadding else Ok, dataLen;
      }
      return Ok, 16;
    }
  }

  /** Two contexts that started alike and were fed the same bytes, each in pieces of its own, have
      emitted the same bytes, hold back the same bytes and go on with the same vector. */
  lemma ChunkingIrrelevant(a: CipherContext, b: CipherContext)
    requires a.Valid() && b.Valid() && a.cipher == b.cipher && a.operation == b.operation && a.padding == b.padding
    requires a.start == b.start && a.fed == b.fed
    ensures a.emitted == b.emitted && a.iv == b.iv
    ensures a.unprocessedLen == b.unprocessedLen
    ensures a.unprocessedData[..a.unprocessedLen] == b.unprocessedData[..b.unprocessedLen]
  {
    hide Crypt, NextIv;
  }

  lemma CryptIs(c: Cipher, mode: Mode, iv: Block, s: seq<Byte>)
    requires |s| % 16 == 0
    ensures Crypt(c, mode, iv, s) == if mode == Encrypt then CbcEnc(c.enc, iv, s) else CbcDec(c.dec, iv, s)
  {}

  /** What decrypting contexts make of the output of encrypting ones: all blocks but the last, and the
      data bytes of the last, are the message. Zero padding does this exactly for messages whose
      last partial block does not end in a zero byte. */
  lemma StreamRoundTrip(c: Cipher, iv: Block, p: Scheme, m: seq<Byte>)
    requires Inverse(c) && p != NoPadding
    ensures var ct := CbcEnc(c.enc, iv, PadMessage(p, m));
      var pt := CbcDec(c.dec, iv, ct);
      var last: Block := pt[|pt| - 16..];
      && ct != [] && |ct| % 16 == 0
      && (p != Zeros ==> Unpad(p, last) == DataLength(|m| % 16))
      && (p == Zeros ==> (Unpad(p, last) == DataLength(|m| % 16) <==> |m| % 16 == 0 || m[|m| - 1] != 0))
      && pt[..|pt| - 16] + last[..|m| % 16] == m
  {
    hide Inverse, CbcEnc, CbcDec, Unpad, PaddingOf;
    var k := |m| - |m| % 16;
    Cbc.DecryptsEncrypted(c, iv, PadMessage(p, m));
    PaddingBack(p, m[k..]);
    assert PadMessage(p, m)[k..] == m[k..] + PaddingOf(p, |m| % 16);
    assert m == m[..k] + m[k..];
  }
}
