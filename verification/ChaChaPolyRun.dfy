/** Whole runs of ChaCha20-Poly1305, fed in pieces. */
module ChaChaPolyRun {
  import opened BlockCipher
  import opened ChaCha20
  import opened ChaCha20Vector
  import opened ChaChaPoly

  /** Feed additional data in pieces of the given sizes; what is left, if anything, is a last piece. */
  method FeedAad(ctx: ChaChaPoly.Context, data: seq<Byte>, sizes: seq<nat>)
    requires ctx.Valid() && ctx.state == AAD
    modifies ctx`aadLen, ctx`aad, ctx.poly`fed
    ensures ctx.Valid() && ctx.aad == old(ctx.aad) + data
  {
    hide ChaChaPoly.Context.Valid;
    var pos := 0;
    for i := 0 to |sizes|
      invariant ctx.Valid() && 0 <= pos <= |data| && ctx.aad == old(ctx.aad) + data[..pos]
    {
      var n := if sizes[i] <= |data| - pos then sizes[i] else |data| - pos;
      var _ := ctx.UpdateAad(data[pos..pos + n]);
      assert data[..pos + n] == data[..pos] + data[pos..pos + n];
      pos := pos + n;
    }
    if pos < |data| {
      var _ := ctx.UpdateAad(data[pos..]);
    }
    assert data == data[..pos] + data[pos..];
  }

  /** Feed text likewise; out is everything that was put out. */
  method FeedText(ctx: ChaChaPoly.Context, input: seq<Byte>, sizes: seq<nat>) returns (out: seq<Byte>)
    requires ctx.Valid() && (ctx.state == AAD || ctx.state == CIPHERTEXT)
    modifies ctx`state, ctx`ciphertextLen, ctx`pt, ctx`ct, ctx.poly`fed
    modifies ctx.chacha`keystreamBytesUsed, ctx.chacha`pos, ctx.chacha.state, ctx.chacha.keystream8
    ensures ctx.Valid() && (ctx.state == AAD || ctx.state == CIPHERTEXT)
    ensures out == XorStream(ctx.chacha.origin, 64 + |old(ctx.ct)|, input)
    ensures ctx.ct == old(ctx.ct) + CtPart(ctx.mode, input, out)
  {
    hide ChaChaPoly.Context.Valid, XorStream, CtPart, PtPart, KeyByte, TextFed;
    out := [];
    var pos := 0;
    ghost var s, k, mode, ct0 := ctx.chacha.origin, 64 + |ctx.ct|, ctx.mode, ctx.ct;
    NothingFed(s, k, mode, input, ct0);
    for i := 0 to |sizes|
      invariant ctx.Valid() && (ctx.state == AAD || ctx.state == CIPHERTEXT) && 0 <= pos <= |input|
      invariant TextFed(s, k, mode, input, pos, out, ct0, ctx.ct)
    {
      var n := if sizes[i] <= |input| - pos then sizes[i] else |input| - pos;
      var more := FeedPiece(ctx, input[pos..pos + n], s, k, input, pos, out, ct0);
      out := out + more;
      pos := pos + n;
    }
    if pos < |input| {
      var more := FeedPiece(ctx, input[pos..], s, k, input, pos, out, ct0);
      out := out + more;
      pos := |input|;
    }
    AllFed(s, k, mode, input, out, ct0, ctx.ct);
  }

  /** The first pos bytes of the input have been fed, and out has been put out for them. */
  ghost predicate TextFed(s: State, k: nat, mode: Mode, input: seq<Byte>, pos: nat, out: seq<Byte>,
                          ct0: seq<Byte>, ct: seq<Byte>)
  {
    && pos <= |input| && k == 64 + |ct0|
    && out == XorStream(s, k, input[..pos]) && ct == ct0 + CtPart(mode, input[..pos], out)
  }

  method FeedPiece(ctx: ChaChaPoly.Context, piece: seq<Byte>, ghost s: State, ghost k: nat, ghost input: seq<Byte>,
                   ghost pos: nat, ghost out: seq<Byte>, ghost ct0: seq<Byte>) returns (more: seq<Byte>)
    requires ctx.Valid() && (ctx.state == AAD || ctx.state == CIPHERTEXT) && s == ctx.chacha.origin
    requires pos + |piece| <= |input| && piece == input[pos..pos + |piece|]
    requires TextFed(s, k, ctx.mode, input, pos, out, ct0, ctx.ct)
    modifies ctx`state, ctx`ciphertextLen, ctx`pt, ctx`ct, ctx.poly`fed
    modifies ctx.chacha`keystreamBytesUsed, ctx.chacha`pos, ctx.chacha.state, ctx.chacha.keystream8
    ensures ctx.Valid() && ctx.state == CIPHERTEXT
    ensures TextFed(s, k, ctx.mode, input, pos + |piece|, out + more, ct0, ctx.ct)
  {
    hide ChaChaPoly.Context.Valid, XorStream, CtPart, PtPart, KeyByte, TextFed;
    ghost var ct := ctx.ct;
    var buffer := new Byte[|piece|];
    var _ := ctx.Update(piece, buffer);
    more := buffer[..|piece|];
    PieceFed(s, k, ctx.mode, input, pos, piece, out, more, ct0, ct, ctx.ct);
  }

  lemma NothingFed(s: State, k: nat, mode: Mode, input: seq<Byte>, ct0: seq<Byte>)
    requires k == 64 + |ct0|
    ensures TextFed(s, k, mode, input, 0, [], ct0, ct0)
  {
    assert input[..0] == [];
  }

  lemma AllFed(s: State, k: nat, mode: Mode, input: seq<Byte>, out: seq<Byte>, ct0: seq<Byte>, ct: seq<Byte>)
    requires TextFed(s, k, mode, input, |input|, out, ct0, ct)
    ensures out == XorStream(s, k, input) && ct == ct0 + CtPart(mode, input, out)
  {
    hide XorStream, CtPart, KeyByte;
    assert input[..|input|] == input;
  }

  lemma PieceFed(s: State, k: nat, mode: Mode, input: seq<Byte>, pos: nat, piece: seq<Byte>, out: seq<Byte>,
                 more: seq<Byte>, ct0: seq<Byte>, ct: seq<Byte>, ct': seq<Byte>)
    requires pos + |piece| <= |input| && piece == input[pos..pos + |piece|]
    requires TextFed(s, k, mode, input, pos, out, ct0, ct)
    requires more == XorStream(s, 64 + |ct|, piece) && ct' == ct + CtPart(mode, piece, more)
    ensures TextFed(s, k, mode, input, pos + |piece|, out + more, ct0, ct')
  {
    hide XorStream, CtPart, KeyByte;
    XorStreamAppend(s, k, input[..pos], piece);
    assert input[..pos + |piece|] == input[..pos] + piece;
    CtPartAppend(mode, input[..pos], piece, out, more, ct0);
  }

  lemma CtPartAppend(mode: Mode, a: seq<Byte>, b: seq<Byte>, x: seq<Byte>, y: seq<Byte>, front: seq<Byte>)
    ensures (front + CtPart(mode, a, x)) + CtPart(mode, b, y) == front + CtPart(mode, a + b, x + y)
  {}

  /** One run with everything in pieces: the output and the tag do not depend on the pieces. */
  method Run(key: seq<Byte>, mac: (seq<Byte>, seq<Byte>) -> Block, nonce: seq<Byte>, mode: Mode,
             data: seq<Byte>, input: seq<Byte>, dataSizes: seq<nat>, sizes: seq<nat>)
    returns (out: seq<Byte>, tag: Block)
    requires |key| == 32 && |nonce| == 12
    ensures var s := StartState(key, nonce, 0);
      && out == XorStream(s, 64, input)
      && tag == mac(XorStream(s, 0, Fill(64, 0)), Transcript(data, CtPart(mode, input, out)))
  {
    hide ChaChaPoly.Context.Valid, XorStream, CtPart, Transcript, Fill, StartState, Origin;
    var ctx := new ChaChaPoly.Context(key, mac);
    OriginIsStart(key, nonce);
    ctx.Starts(nonce, mode);
    FeedAad(ctx, data, dataSizes);
    assert ctx.aad == data;
    out := FeedText(ctx, input, sizes);
    assert ctx.ct == CtPart(mode, input, out);
    var _, t := ctx.Finish();
    tag := t;
  }

  /** The authenticator's key is the key block with counter 0, and the text is under the key stream that
      starts with the block with counter 1. */
  lemma KeyAndText(s: State, m: seq<Byte>)
    ensures XorStream(s, 0, Fill(64, 0)) == KeyBlock(s)
    ensures XorStream(s, 64, m) == XorStream(s[12 := s[12] + 1], 0, m)
  {
    hide KeyBlock, KeyByte;
    var k := XorStream(s, 0, Fill(64, 0));
    forall i | 0 <= i < 64 ensures k[i] == KeyBlock(s)[i] {
      NextBlock(s, i);
      ZeroXor(KeyByte(s, i));
    }
    var t := s[12 := s[12] + 1];
    forall i | 0 <= i < |m| ensures XorStream(s, 64, m)[i] == XorStream(t, 0, m)[i] {
      NextBlock(s, i);
    }
  }

  lemma ZeroXor(b: Byte)
    ensures 0 ^ b == b
  {}

  lemma OriginIsStart(key: seq<Byte>, nonce: seq<Byte>)
    requires |key| == 32 && |nonce| == 12
    ensures Origin(StartState(key, Fill(12, 0), 0)[..12], nonce) == StartState(key, nonce, 0)
  {
    hide WordAt;
  }

  /** An encrypting run and a decrypting run over its output, with the same key, nonce and additional
      data, each cut in its own way: the tags agree and the message comes back. */
  method SealAndOpen(key: seq<Byte>, mac: (seq<Byte>, seq<Byte>) -> Block, nonce: seq<Byte>,
                     data: seq<Byte>, m: seq<Byte>, sealSizes: (seq<nat>, seq<nat>), openSizes: (seq<nat>, seq<nat>))
    returns (accepted: bool, text: seq<Byte>)
    requires |key| == 32 && |nonce| == 12
    ensures accepted && text == m
  {
    hide XorStream, CtPart, Transcript, StartState;
    var ct, tag := Run(key, mac, nonce, Encrypt, data, m, sealSizes.0, sealSizes.1);
    var checkTag: Block;
    text, checkTag := Run(key, mac, nonce, Decrypt, data, ct, openSizes.0, openSizes.1);
    DirectionsAgree(StartState(key, nonce, 0), m);
    accepted := SameTag(tag, checkTag);
  }
}
