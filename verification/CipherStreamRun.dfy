/** Whole runs of the cipher layer: an encrypting and a decrypting context, each fed in pieces. */
module CipherStreamRun {
  import opened BlockCipher
  import opened Cbc
  import opened Padding
  import opened CipherStream

  /** Feed data in pieces of the given sizes, and what is left as a last piece. */
  method FeedPieces(ctx: CipherContext, data: seq<Byte>, sizes: seq<nat>) returns (out: seq<Byte>)
    requires ctx.Valid()
    modifies ctx, ctx.unprocessedData
    ensures ctx.Valid() && ctx.start == old(ctx.start)
    ensures ctx.fed == old(ctx.fed) + data && ctx.emitted == old(ctx.emitted) + out
  {
    hide CipherContext.Valid;
    out := [];
    var pos := 0;
    for i := 0 to |sizes|
      invariant ctx.Valid() && ctx.start == old(ctx.start) && 0 <= pos <= |data|
      invariant ctx.fed == old(ctx.fed) + data[..pos] && ctx.emitted == old(ctx.emitted) + out
    {
      var n := if sizes[i] <= |data| - pos then sizes[i] else |data| - pos;
      var more := FeedPiece(ctx, data[pos..pos + n]);
      assert data[..pos + n] == data[..pos] + data[pos..pos + n];
      out := out + more;
      pos := pos + n;
    }
    var more := FeedPiece(ctx, data[pos..]);
    assert data == data[..pos] + data[pos..];
    out := out + more;
  }

  method FeedPiece(ctx: CipherContext, piece: seq<Byte>) returns (out: seq<Byte>)
    requires ctx.Valid()
    modifies ctx, ctx.unprocessedData
    ensures ctx.Valid() && ctx.start == old(ctx.start)
    ensures ctx.fed == old(ctx.fed) + piece && ctx.emitted == old(ctx.emitted) + out
  {
    hide CipherContext.Valid;
    var buffer := new Byte[|piece| + 16];
    var olen := ctx.Update(piece, buffer);
    out := buffer[..olen];
  }

  /** Encrypt a message: all bytes that a context emits for it. */
  method Send(c: Cipher, p: Scheme, iv: Block, m: seq<Byte>, sizes: seq<nat>) returns (ret: Status, ct: seq<Byte>)
    ensures p != NoPadding ==> ret == Ok && ct == CbcEnc(c.enc, iv, PadMessage(p, m))
    ensures p == NoPadding ==> ret == if |m| % 16 == 0 then Ok else FullBlockExpected
    ensures p == NoPadding && ret == Ok ==> ct == CbcEnc(c.enc, iv, m)
  {
    hide CipherContext.Valid, CbcEnc, PadMessage;
    var ctx := new CipherContext(c, Encrypt, p, iv);
    ct := FeedPieces(ctx, m, sizes);
    assert ctx.fed == m && ctx.emitted == ct;
    EmittedWhole(ctx);
    var last := new Byte[16];
    var olen: nat;
    ret, olen := ctx.Finish(last);
    ct := ct + last[..olen];
  }

  /** Decrypt: all bytes that a context emits, and the data bytes of its last block. */
  method Receive(c: Cipher, p: Scheme, iv: Block, ct: seq<Byte>, sizes: seq<nat>)
    returns (ret: Status, text: seq<Byte>)
    ensures |ct| % 16 != 0 || (p != NoPadding && ct == []) ==> ret == FullBlockExpected
    ensures |ct| % 16 == 0 && p == NoPadding ==> ret == Ok && text == CbcDec(c.dec, iv, ct)
    ensures |ct| % 16 == 0 && p != NoPadding && ct != [] ==>
      var pt := CbcDec(c.dec, iv, ct);
      var last: Block := pt[|pt| - 16..];
      && ret == (if Unpad(p, last) == BadPadding then InvalidPadding else Ok)
      && (ret == Ok ==> text == pt[..|pt| - 16] + last[..Unpad(p, last).n])
  {
    hide CipherContext.Valid, CbcDec, Unpad;
    var ctx := new CipherContext(c, Decrypt, p, iv);
    text := FeedPieces(ctx, ct, sizes);
    assert ctx.fed == ct && ctx.emitted == text;
    EmittedWhole(ctx);
    var last := new Byte[16];
    var n: nat;
    ret, n := ctx.Finish(last);
    if ret == Ok {
      if p != NoPadding { assert text + last[..16] == CbcDec(c.dec, iv, ct); }
      text := text + last[..n];
    }
  }

  /** How much a context has emitted when its input was whole blocks. */
  lemma EmittedWhole(ctx: CipherContext)
    requires ctx.Valid()
    ensures |ctx.emitted| == |ctx.fed| - Held(ctx.KeepsBlock(), |ctx.fed|)
    ensures !ctx.KeepsBlock() && |ctx.fed| % 16 == 0 ==>
              ctx.emitted == Crypt(ctx.cipher, ctx.operation, ctx.start, ctx.fed)
  {
    hide Crypt, NextIv;
    assert ctx.fed[..|ctx.fed|] == ctx.fed;
  }

  /** Encrypting and decrypting contexts give the message back, however both sides cut their input;
      with zero padding exactly if the last partial block does not end in a zero byte; without
      padding exactly if the message is whole blocks, and otherwise the sender reports it. */
  method SendAndReceive(c: Cipher, p: Scheme, iv: Block, m: seq<Byte>, sent: seq<nat>, received: seq<nat>)
    returns (ret: Status, text: seq<Byte>)
    requires Inverse(c)
    ensures p != NoPadding && p != Zeros ==> ret == Ok && text == m
    ensures p == Zeros ==> ret == Ok && (text == m <==> |m| % 16 == 0 || m[|m| - 1] != 0)
    ensures p == NoPadding ==> ret == if |m| % 16 == 0 then Ok else FullBlockExpected
    ensures p == NoPadding && ret == Ok ==> text == m
  {
    hide Inverse, CbcEnc, CbcDec, Unpad;
    var ct: seq<Byte>;
    ret, ct := Send(c, p, iv, m, sent);
    if ret != Ok { return ret, []; }
    if p == NoPadding {
      Cbc.DecryptsEncrypted(c, iv, m);
    } else {
      StreamRoundTrip(c, iv, p, m);
    }
    ret, text := Receive(c, p, iv, ct, received);
    if p == Zeros {
      ghost var pt := CbcDec(c.dec, iv, ct);
      ghost var last: Block := pt[|pt| - 16..];
      ZerosAlwaysUnpad(last);
      assert |text| == |m| ==> Unpad(p, last).n == |m| % 16;
    }
  }

  lemma ZerosAlwaysUnpad(b: Block)
    ensures Unpad(Zeros, b).DataLength?
  {}
}
