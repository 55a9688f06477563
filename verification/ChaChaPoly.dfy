/** ChaCha20-Poly1305 (section 2.8 of RFC 7539): which bytes are authenticated, and in which order the
    routines may be called. */
module ChaChaPoly {
  import opened BlockCipher
  import opened ChaCha20
  import opened Numbers
  import opened NumberBytes

  // ----- the authenticated bytes -----

  /** Zero bytes up to a multiple of 16. */
  function Pad16(n: nat): (s: seq<Byte>)
    ensures (n + |s|) % 16 == 0 && |s| < 16
  {
    Fill(if n % 16 == 0 then 0 else 16 - n % 16, 0)
  }

  /** The low q bytes of n, least significant first. */
  function LittleEndian(n: nat, q: nat): (s: seq<Byte>)
    ensures |s| == q
    decreases q
  {
    if q == 0 then [] else [ByteFor(n)] + LittleEndian(n / 256, q - 1)
  }

  function Lengths(aadLen: nat, ctLen: nat): (s: seq<Byte>)
    ensures |s| == 16
  {
    LittleEndian(aadLen, 8) + LittleEndian(ctLen, 8)
  }

  /** What Poly1305 is fed in a whole run. */
  function Transcript(aad: seq<Byte>, ct: seq<Byte>): (s: seq<Byte>)
  {
    aad + Pad16(|aad|) + ct + Pad16(|ct|) + Lengths(|aad|, |ct|)
  }

  lemma {:induction false} LittleEndianInjective(m: nat, n: nat, q: nat)
    requires LittleEndian(m, q) == LittleEndian(n, q) && Below(m, q) && Below(n, q)
    ensures m == n
    decreases q
  {
    hide ByteFor;
    if q > 0 {
      assert LittleEndian(m, q)[1..] == LittleEndian(m / 256, q - 1);
      assert LittleEndian(n, q)[1..] == LittleEndian(n / 256, q - 1);
      assert ByteFor(m) == LittleEndian(m, q)[0] && ByteFor(n) == LittleEndian(n, q)[0];
      LittleEndianInjective(m / 256, n / 256, q - 1);
      LowByte(m, n);
    }
  }

  /** n < 256^q. */
  predicate Below(n: nat, q: nat)
  {
    if q == 0 then n == 0 else Below(n / 256, q - 1)
  }

  lemma LowByte(m: nat, n: nat)
    requires ByteFor(m) == ByteFor(n) && m / 256 == n / 256
    ensures m == n
  {
    ByteForInjective(m % 256, n % 256);
  }

  lemma {:induction false} BelowBound(n: nat, q: nat, bound: nat)
    requires n < bound && bound == Bound(q)
    ensures Below(n, q)
    decreases q
  {
    if q > 0 { BelowBound(n / 256, q - 1, Bound(q - 1)); }
  }

  function Bound(q: nat): (b: nat)
  {
    if q == 0 then 1 else 256 * Bound(q - 1)
  }

  lemma EightBytes()
    ensures Bound(8) == 0x1_0000_0000_0000_0000
  {
    assert Bound(4) == 0x1_0000_0000;
  }

  /** Different inputs are authenticated differently: the transcript determines additional data and
      ciphertext, as long as their lengths fit in 64 bits. */
  lemma TranscriptInjective(a1: seq<Byte>, c1: seq<Byte>, a2: seq<Byte>, c2: seq<Byte>)
    requires |a1| < 0x1_0000_0000_0000_0000 && |c1| < 0x1_0000_0000_0000_0000
    requires |a2| < 0x1_0000_0000_0000_0000 && |c2| < 0x1_0000_0000_0000_0000
    requires Transcript(a1, c1) == Transcript(a2, c2)
    ensures a1 == a2 && c1 == c2
  {
    hide LittleEndian, Pad16, Below, Bound;
    Parts(a1, c1);
    Parts(a2, c2);
    EightBytes();
    BelowBound(|a1|, 8, Bound(8));
    BelowBound(|a2|, 8, Bound(8));
    BelowBound(|c1|, 8, Bound(8));
    BelowBound(|c2|, 8, Bound(8));
    LittleEndianInjective(|a1|, |a2|, 8);
    LittleEndianInjective(|c1|, |c2|, 8);
  }

  lemma Parts(a: seq<Byte>, c: seq<Byte>)
    ensures var t := Transcript(a, c); var i := |a| + |Pad16(|a|)|; var n := |t|;
      && n >= 16 && i + |c| <= n && |a| <= n
      && t[n - 16..n - 8] == LittleEndian(|a|, 8) && t[n - 8..] == LittleEndian(|c|, 8)
      && t[..|a|] == a && t[i..i + |c|] == c
  {
    hide LittleEndian, Pad16;
  }

  /** The authenticated bytes one by one (section 2.8 of RFC 7539): the additional data, zeros to a
      multiple of 16, the ciphertext, zeros to a multiple of 16, and both lengths in eight bytes each,
      the lowest byte first. */
  lemma TranscriptBytes(aad: seq<Byte>, ct: seq<Byte>)
    ensures var t := Transcript(aad, ct);
      var i := (|aad| + 15) / 16 * 16;
      var n := i + (|ct| + 15) / 16 * 16;
      && |t| == n + 16 && t[..|aad|] == aad && t[i..i + |ct|] == ct
      && (forall j :: |aad| <= j < i || i + |ct| <= j < n ==> t[j] == 0)
      && forall k :: 0 <= k < 8 ==> t[n + k] as nat == Digit(|aad|, k) && t[n + 8 + k] as nat == Digit(|ct|, k)
  {
    hide LittleEndian, Digit;
    var t := Transcript(aad, ct);
    var n := |t| - 16;
    PaddedLength(|aad|);
    PaddedLength(|ct|);
    forall k | 0 <= k < 8
      ensures t[n + k] as nat == Digit(|aad|, k) && t[n + 8 + k] as nat == Digit(|ct|, k)
    {
      assert t[n + k] == LittleEndian(|aad|, 8)[k] && t[n + 8 + k] == LittleEndian(|ct|, 8)[k];
      LittleEndianAt(|aad|, 8, k);
      LittleEndianAt(|ct|, 8, k);
    }
  }

  lemma PaddedLength(n: nat)
    ensures n + |Pad16(n)| == (n + 15) / 16 * 16
  {}

  lemma {:induction false} LittleEndianAt(n: nat, q: nat, k: nat)
    requires k < q
    ensures LittleEndian(n, q)[k] as nat == Digit(n, k)
    decreases q
  {
    hide ByteFor, Digit;
    DigitNext(n, if k == 0 then 0 else k - 1);
    if k == 0 {
      LowByteFor(n);
    } else {
      LittleEndianAt(n / 256, q - 1, k - 1);
    }
  }

  lemma LowByteFor(n: nat)
    ensures ByteFor(n) as nat == n % 256
  {
    ByteForBack(n % 256);
  }

  // ----- Poly1305, as far as it is used here -----

  /** Poly1305 gathers its input; `mac` stands for the authenticator itself. */
  class Poly1305 {
    const mac: (seq<Byte>, seq<Byte>) -> Block
    var key: seq<Byte>
    var fed: seq<Byte>

    constructor (mac: (seq<Byte>, seq<Byte>) -> Block)
      ensures this.mac == mac && fed == []
    {
      this.mac := mac;
      key, fed := [], [];
    }

    method Starts(key: seq<Byte>)
      modifies this
      ensures this.key == key && fed == []
    {
      this.key, fed := key, [];
    }

    method Update(data: seq<Byte>)
      modifies this`fed
      ensures fed == old(fed) + data
    {
      fed := fed + data;
    }

    method Finish() returns (tag: Block)
      ensures tag == mac(key, fed)
    {
      tag := mac(key, fed);
    }
  }

  // ----- the combined context -----

  datatype Phase = INIT | AAD | CIPHERTEXT | FINISHED

  datatype Status = Ok | BadState | AuthFailed

  const TWO64: nat := 0x1_0000_0000_0000_0000

  /** What the authenticator has been fed in a phase. */
  function FedIn(phase: Phase, aad: seq<Byte>, ct: seq<Byte>): (s: seq<Byte>)
  {
    if phase == AAD then aad else aad + Pad16(|aad|) + ct
  }

  /** Which of input and output is the ciphertext, and which the plaintext. */
  function CtPart(mode: Mode, input: seq<Byte>, output: seq<Byte>): (s: seq<Byte>)
    ensures |input| == |output| ==> |s| == |input|
  {
    if mode == Encrypt then output else input
  }

  function PtPart(mode: Mode, input: seq<Byte>, output: seq<Byte>): (s: seq<Byte>)
    ensures |input| == |output| ==> |s| == |input|
  {
    if mode == Encrypt then input else output
  }

  class Context {
    const chacha: ChaCha20.Context
    const poly: Poly1305
    var state: Phase
    var mode: Mode
    var aadLen: nat
    var ciphertextLen: nat
    /** All additional data, plaintext and ciphertext of the run so far. */
    ghost var aad: seq<Byte>
    ghost var pt: seq<Byte>
    ghost var ct: seq<Byte>

    ghost predicate Valid()
      reads this, chacha, poly, chacha.state, chacha.keystream8
    {
      && chacha.Valid()
      && aadLen == |aad| % TWO64 && ciphertextLen == |ct| % TWO64
      && (state == AAD ==> ct == [])
      && (state == AAD || state == CIPHERTEXT ==>
            && poly.fed == FedIn(state, aad, ct)
            && chacha.pos == 64 + |pt|
            && ct == XorStream(chacha.origin, 64, pt))
    }

    /** init and setkey. */
    constructor (key: seq<Byte>, mac: (seq<Byte>, seq<Byte>) -> Block)
      requires |key| == 32
      ensures Valid() && state == INIT && poly.mac == mac
      ensures chacha.state[..] == StartState(key, Fill(12, 0), 0)
      ensures fresh(chacha) && fresh(poly) && fresh(chacha.state) && fresh(chacha.keystream8)
    {
      chacha := new ChaCha20.Context(key);
      poly := new Poly1305(mac);
      state, mode, aadLen, ciphertextLen := INIT, Encrypt, 0, 0;
      aad, pt, ct := [], [], [];
    }

    /** mbedtls_chachapoly_starts: the authenticator's key is key block 0, so the text is encrypted
        from key block 1 on. */
    method Starts(nonce: seq<Byte>, mode: Mode)
      requires Valid() && |nonce| == 12
      modifies this, chacha, chacha.state, chacha.keystream8, poly
      ensures Valid() && state == AAD && this.mode == mode && aad == [] && ct == [] && pt == []
      ensures chacha.origin == Origin(old(chacha.state[..12]), nonce)
      ensures poly.key == XorStream(chacha.origin, 0, Fill(64, 0))
    {
      hide XorStream, WordAt, KeyByte, Fill, Advanced;
      hide ChaCha20.Context.Valid;
      var polyKey := DeriveKey(nonce);
      poly.Starts(polyKey);
      this.mode := mode;
      aadLen, ciphertextLen, state := 0, 0, AAD;
      aad, pt, ct := [], [], [];
      EmptyStream(chacha.origin);
    }

    /** Key block 0 of the stream, as the encryption of zeros. */
    method DeriveKey(nonce: seq<Byte>) returns (polyKey: seq<Byte>)
      requires chacha.Valid() && |nonce| == 12
      modifies chacha, chacha.state, chacha.keystream8
      ensures chacha.Valid() && chacha.pos == 64
      ensures chacha.state.Length == 16 && chacha.origin == Origin(old(chacha.state[..12]), nonce)
      ensures polyKey == XorStream(chacha.origin, 0, Fill(64, 0))
    {
      hide XorStream, WordAt, KeyByte, Advanced;
      chacha.Starts(nonce, 0);
      var buffer := new Byte[64];
      chacha.Update(Fill(64, 0), buffer);
      polyKey := buffer[..];
    }

    /** chachapoly_crypt_and_tag: one whole run. */
    method CryptAndTag(mode: Mode, nonce: seq<Byte>, data: seq<Byte>, input: seq<Byte>, output: array<Byte>)
      returns (tag: Block)
      requires Valid() && |nonce| == 12 && |input| <= output.Length && output != chacha.keystream8
      modifies this, chacha, chacha.state, chacha.keystream8, poly, output
      ensures Valid() && state == FINISHED
      ensures var s := Origin(old(chacha.state[..12]), nonce);
        var ct := CtPart(mode, input, output[..|input|]);
        && output[..|input|] == XorStream(s, 64, input)
        && tag == poly.mac(XorStream(s, 0, Fill(64, 0)), Transcript(data, ct))
      ensures forall j :: |input| <= j < output.Length ==> output[j] == old(output[j])
    {
      hide XorStream, WordAt, KeyByte, Fill, Advanced, CtPart, PtPart, Transcript, Lengths, Origin;
      hide Context.Valid, ChaCha20.Context.Valid;
      StateLength();
      Starts(nonce, mode);
      var _ := UpdateAad(data);
      assert aad == data;
      var _ := Update(input, output);
      assert ct == CtPart(mode, input, output[..|input|]);
      var r3: Status;
      r3, tag := Finish();
    }

    lemma StateLength()
      requires Valid()
      ensures chacha.state.Length == 16
    {}

    /** mbedtls_chachapoly_auth_decrypt. */
    method AuthDecrypt(nonce: seq<Byte>, data: seq<Byte>, tag: Block, input: seq<Byte>, output: array<Byte>)
      returns (ret: Status)
      requires Valid() && |nonce| == 12 && |input| <= output.Length && output != chacha.keystream8
      modifies this, chacha, chacha.state, chacha.keystream8, poly, output
      ensures Valid() && (ret == Ok || ret == AuthFailed)
      ensures var s := Origin(old(chacha.state[..12]), nonce);
        && (ret == Ok <==> tag == poly.mac(XorStream(s, 0, Fill(64, 0)), Transcript(data, input)))
        && (ret == Ok ==> output[..|input|] == XorStream(s, 64, input))
        && (ret == AuthFailed ==> output[..|input|] == Fill(|input|, 0))
      ensures forall j :: |input| <= j < output.Length ==> output[j] == old(output[j])
    {
      hide XorStream, WordAt, KeyByte, Advanced, Transcript, Lengths, Origin;
      hide Context.Valid, ChaCha20.Context.Valid;
      var checkTag := CryptAndTag(Decrypt, nonce, data, input, output);
      var same := SameTag(tag, checkTag);
      if !same {
        Zeroize(output, |input|);
        return AuthFailed;
      }
      return Ok;
    }

    /** mbedtls_chachapoly_update_aad: only before any text. */
    method UpdateAad(data: seq<Byte>) returns (ret: Status)
      requires Valid()
      modifies this`aadLen, this`aad, poly`fed
      ensures Valid() && ret == if state == AAD then Ok else BadState
      ensures aad == if ret == Ok then old(aad) + data else old(aad)
      ensures ret != Ok ==> poly.fed == old(poly.fed)
    {
      if state != AAD { return BadState; }
      aadLen := (aadLen + |data|) % TWO64;
      aad := aad + data;
      poly.Update(data);
      return Ok;
    }

    /** chachapoly_pad_aad. */
    method PadAad()
      requires Valid() && state == AAD
      modifies poly`fed
      ensures poly.fed == aad + Pad16(|aad|)
    {
      PadFrom(aadLen, |aad|);
      var partial := aadLen % 16;
      if partial != 0 {
        poly.Update(Fill(16 - partial, 0));
      }
    }

    /** mbedtls_chachapoly_update: the authenticator gets the ciphertext, in either direction. */
    method Update(input: seq<Byte>, output: array<Byte>) returns (ret: Status)
      requires Valid() && |input| <= output.Length && output != chacha.keystream8
      modifies this`state, this`ciphertextLen, this`pt, this`ct, poly`fed, output
      modifies chacha`keystreamBytesUsed, chacha`pos, chacha.state, chacha.keystream8
      ensures Valid() && ret == if old(state) == AAD || old(state) == CIPHERTEXT then Ok else BadState
      ensures ret == Ok ==> state == CIPHERTEXT
      ensures ret == Ok ==> output[..|input|] == XorStream(chacha.origin, 64 + |old(ct)|, input)
      ensures ret == Ok ==> ct == old(ct) + CtPart(mode, input, output[..|input|])
      ensures ret == Ok ==> pt == old(pt) + PtPart(mode, input, output[..|input|])
      ensures ret != Ok ==> state == old(state) && output[..] == old(output[..])
      ensures ret != Ok ==> pt == old(pt) && ct == old(ct) && poly.fed == old(poly.fed)
      ensures forall j :: |input| <= j < output.Length ==> output[j] == old(output[j])
    {
      hide XorStream, FedIn, CtPart, PtPart;
      hide Context.Valid, ChaCha20.Context.Valid;
      if state != AAD && state != CIPHERTEXT { return BadState; }
      if state == AAD { EnterText(); }
      CryptText(input, output);
      return Ok;
    }

    /** The second half of the update. */
    method CryptText(input: seq<Byte>, output: array<Byte>)
      requires Valid() && |input| <= output.Length && output != chacha.keystream8 && state == CIPHERTEXT
      modifies this`ciphertextLen, this`pt, this`ct, poly`fed, output
      modifies chacha`keystreamBytesUsed, chacha`pos, chacha.state, chacha.keystream8
      ensures Valid()
      ensures output[..|input|] == XorStream(chacha.origin, 64 + |old(ct)|, input)
      ensures ct == old(ct) + CtPart(mode, input, output[..|input|])
      ensures pt == old(pt) + PtPart(mode, input, output[..|input|])
      ensures forall j :: |input| <= j < output.Length ==> output[j] == old(output[j])
    {
      hide XorStream, FedIn, Pad16, CtPart, PtPart, KeyByte, Fill;
      hide ChaCha20.Context.Valid;
      ghost var p, c, s, f := pt, ct, chacha.origin, poly.fed;
      ciphertextLen := (ciphertextLen + |input|) % TWO64;
      CryptAndFeed(input, output);
      ghost var other := output[..|input|];
      FedMore(aad, c, CtPart(mode, input, other));
      StreamMore(s, p, c, input, other, mode);
      LengthMore(|c|, |input|);
      pt := p + PtPart(mode, input, other);
      ct := c + CtPart(mode, input, other);
    }

    method CryptAndFeed(input: seq<Byte>, output: array<Byte>)
      requires chacha.Valid() && |input| <= output.Length && output != chacha.keystream8
      modifies poly`fed, output, chacha`keystreamBytesUsed, chacha`pos, chacha.state, chacha.keystream8
      ensures chacha.Valid() && chacha.pos == old(chacha.pos) + |input|
      ensures output[..|input|] == XorStream(chacha.origin, old(chacha.pos), input)
      ensures poly.fed == old(poly.fed) + CtPart(mode, input, output[..|input|])
      ensures forall j :: |input| <= j < output.Length ==> output[j] == old(output[j])
    {
      hide XorStream;
      hide ChaCha20.Context.Valid;
      if mode == Encrypt {
        chacha.Update(input, output);
        poly.Update(output[..|input|]);
      } else {
        poly.Update(input);
        chacha.Update(input, output);
      }
    }

    /** The change to the text phase: the additional data is padded. */
    method EnterText()
      requires Valid() && state == AAD
      modifies this`state, poly`fed
      ensures Valid() && state == CIPHERTEXT
    {
      hide XorStream;
      hide ChaCha20.Context.Valid;
      PadAad();
      state := CIPHERTEXT;
      assert aad + Pad16(|aad|) + [] == aad + Pad16(|aad|);
    }

    /** mbedtls_chachapoly_finish: the tag is that of the whole transcript. A finished context may be
        finished again; it then feeds the length block once more. */
    method Finish() returns (ret: Status, tag: Block)
      requires Valid()
      modifies this`state, poly`fed
      ensures Valid() && ret == if old(state) == INIT then BadState else Ok
      ensures ret == Ok ==> state == FINISHED && tag == poly.mac(poly.key, poly.fed)
      ensures ret == Ok && old(state) != FINISHED ==> poly.fed == Transcript(aad, ct)
      ensures ret == Ok && old(state) == FINISHED ==> poly.fed == old(poly.fed) + Lengths(aadLen, ciphertextLen)
      ensures ret != Ok ==> state == INIT && poly.fed == old(poly.fed)
    {
      hide XorStream, Lengths;
      hide ChaCha20.Context.Valid;
      if state == INIT { return BadState, Fill(16, 0); }
      if state == AAD {
        PadAad();
        assert poly.fed == aad + Pad16(|aad|) + ct + Pad16(|ct|);
      } else if state == CIPHERTEXT {
        PadFrom(ciphertextLen, |ct|);
        var partial := ciphertextLen % 16;
        if partial != 0 {
          poly.Update(Fill(16 - partial, 0));
        }
        assert poly.fed == aad + Pad16(|aad|) + ct + Pad16(|ct|);
      }
      LengthsLow(|aad|, |ct|);
      state := FINISHED;
      poly.Update(Lengths(aadLen, ciphertextLen));
      tag := poly.Finish();
      return Ok, tag;
    }
  }

  lemma LengthMore(n: nat, k: nat)
    ensures (n % TWO64 + k) % TWO64 == (n + k) % TWO64
  {}

  /** A length counted modulo 2^64 is encoded like the length itself. */
  lemma {:induction false} LittleEndianLow(n: nat, q: nat)
    ensures Bound(q) > 0 && LittleEndian(n % Bound(q), q) == LittleEndian(n, q)
    decreases q
  {
    hide ByteFor;
    if q > 0 {
      LittleEndianLow(n / 256, q - 1);
      SplitModulo(n, Bound(q - 1));
      LowByteOnly(n % Bound(q), n);
    }
  }

  lemma SplitModulo(n: nat, b: nat)
    requires b > 0
    ensures 256 * b > 0 && n % (256 * b) / 256 == (n / 256) % b && n % (256 * b) % 256 == n % 256
  {
    var q, r := n / 256, n % 256;
    var k, m := q / b, q % b;
    DivModIdentity(q, b);
    assert n == k * (256 * b) + (m * 256 + r);
    DivModUnique(n, 256 * b, k, m * 256 + r);
    DivModUnique(m * 256 + r, 256, m, r);
  }

  lemma LowByteOnly(m: nat, n: nat)
    requires m % 256 == n % 256
    ensures ByteFor(m) == ByteFor(n)
  {}

  lemma LengthsLow(m: nat, n: nat)
    ensures Lengths(m % TWO64, n % TWO64) == Lengths(m, n)
  {
    hide LittleEndian, Bound;
    EightBytes();
    LittleEndianLow(m, 8);
    LittleEndianLow(n, 8);
  }

  lemma FedMore(aad: seq<Byte>, ct: seq<Byte>, more: seq<Byte>)
    ensures FedIn(CIPHERTEXT, aad, ct) + more == FedIn(CIPHERTEXT, aad, ct + more)
  {}

  lemma StreamMore(s: State, pt: seq<Byte>, ct: seq<Byte>, input: seq<Byte>, other: seq<Byte>, mode: Mode)
    requires ct == XorStream(s, 64, pt) && other == XorStream(s, 64 + |pt|, input)
    ensures ct + CtPart(mode, input, other) == XorStream(s, 64, pt + PtPart(mode, input, other))
  {
    hide XorStream;
    XorStreamAppend(s, 64, pt, PtPart(mode, input, other));
    XorStreamTwice(s, 64 + |pt|, input);
  }

  /** The stream's starting state: constants and key as they are, counter 0, nonce. */
  function Origin(key: seq<Word>, nonce: seq<Byte>): (s: State)
    requires |key| == 12 && |nonce| == 12
  {
    key + [0, WordAt(nonce, 0), WordAt(nonce, 1), WordAt(nonce, 2)]
  }

  /** Compare all sixteen bytes without stopping early. */
  method SameTag(a: Block, b: Block) returns (same: bool)
    ensures same == (a == b)
  {
    var diff: Byte := 0;
    for i := 0 to 16
      invariant diff == 0 <==> a[..i] == b[..i]
    {
      diff := Gather(diff, a[i], b[i]);
      assert a[..i + 1] == a[..i] + [a[i]] && b[..i + 1] == b[..i] + [b[i]];
    }
    assert a[..16] == a && b[..16] == b;
    same := diff == 0;
  }

  function Gather(diff: Byte, a: Byte, b: Byte): (d: Byte)
    ensures d == 0 <==> diff == 0 && a == b
  {
    diff | (a ^ b)
  }

  method Zeroize(output: array<Byte>, n: nat)
    requires n <= output.Length
    modifies output
    ensures output[..n] == Fill(n, 0)
    ensures forall j :: n <= j < output.Length ==> output[j] == old(output[j])
  {
    for i := 0 to n
      invariant forall j :: 0 <= j < i ==> output[j] == 0
      invariant forall j :: n <= j < output.Length ==> output[j] == old(output[j])
    {
      output[i] := 0;
    }
  }

  /** A decrypting run that gets an encrypting run's output authenticates the same ciphertext and
      puts out the plaintext. */
  lemma DirectionsAgree(s: State, m: seq<Byte>)
    ensures var ct := XorStream(s, 64, m);
      var text := XorStream(s, 64, ct);
      text == m && CtPart(Decrypt, ct, text) == CtPart(Encrypt, m, ct)
  {
    hide XorStream;
    XorStreamTwice(s, 64, m);
  }

  lemma EmptyStream(s: State)
    ensures XorStream(s, 64, []) == []
  {}

  lemma PadFrom(len: nat, n: nat)
    requires len == n % TWO64
    ensures len % 16 == n % 16
  {}
}
