/** CBC mode over whole blocks. */
module Cbc {
  import opened BlockCipher

  function CbcEnc(f: Block -> Block, iv: Block, s: seq<Byte>): (r: seq<Byte>)
    requires |s| % 16 == 0
    ensures |r| == |s|
    decreases |s|
  {
    if s == [] then [] else
      var c := f(Xor(s[..16], iv));
      c + CbcEnc(f, c, s[16..])
  }

  function CbcDec(g: Block -> Block, iv: Block, s: seq<Byte>): (r: seq<Byte>)
    requires |s| % 16 == 0
    ensures |r| == |s|
    decreases |s|
  {
    if s == [] then [] else Xor(g(s[..16]), iv) + CbcDec(g, s[..16], s[16..])
  }

  /** The next initialisation vector: the last ciphertext block, if there is one. */
  function LastBlock(iv: Block, ct: seq<Byte>): (r: Block)
    requires |ct| % 16 == 0
  {
    if ct == [] then iv else ct[|ct| - 16..]
  }

  function Crypt(c: Cipher, mode: Mode, iv: Block, s: seq<Byte>): (r: seq<Byte>)
    requires |s| % 16 == 0
    ensures |r| == |s|
  {
    if mode == Encrypt then CbcEnc(c.enc, iv, s) else CbcDec(c.dec, iv, s)
  }

  /** The vector after s has been processed. */
  function NextIv(c: Cipher, mode: Mode, iv: Block, s: seq<Byte>): (r: Block)
    requires |s| % 16 == 0
  {
    LastBlock(iv, if mode == Encrypt then CbcEnc(c.enc, iv, s) else s)
  }

  lemma LastOf(iv: Block, a: seq<Byte>, b: seq<Byte>)
    requires |a| % 16 == 0 && |b| % 16 == 0
    ensures (|a| + |b|) % 16 == 0 && LastBlock(iv, a + b) == LastBlock(LastBlock(iv, a), b)
  {
    assert b == [] ==> a + b == a;
    if b != [] { assert (a + b)[|a + b| - 16..] == b[|b| - 16..]; }
  }

  lemma FirstBlock(a: seq<Byte>, b: seq<Byte>)
    requires |a| >= 16
    ensures (a + b)[..16] == a[..16] && (a + b)[16..] == a[16..] + b
    ensures a == a[..16] + a[16..]
  {}

  lemma Regroup(a: seq<Byte>, b: seq<Byte>, c: seq<Byte>)
    ensures (a + b) + c == a + (b + c)
  {}

  /** The first block is passed on as the vector of the rest. */
  lemma NextIvFirst(c: Cipher, mode: Mode, iv: Block, s: seq<Byte>)
    requires |s| % 16 == 0 && s != []
    ensures var x: Block := if mode == Encrypt then c.enc(Xor(s[..16], iv)) else s[..16];
      var y: Block := if mode == Encrypt then x else Xor(c.dec(s[..16]), iv);
      && NextIv(c, mode, iv, s) == NextIv(c, mode, x, s[16..])
      && Crypt(c, mode, iv, s) == y + Crypt(c, mode, x, s[16..])
  {
    var x: Block := if mode == Encrypt then c.enc(Xor(s[..16], iv)) else s[..16];
    var t := if mode == Encrypt then CbcEnc(c.enc, x, s[16..]) else s[16..];
    LastOf(iv, x, t);
    hide Xor;
    FirstBlock(s, []);
  }

  lemma NothingLeft(c: Cipher, mode: Mode, iv: Block)
    ensures Crypt(c, mode, iv, []) == [] && NextIv(c, mode, iv, []) == iv
  {}

  /** Processing in two goes is processing in one. */
  lemma {:induction false} CryptAppend(c: Cipher, mode: Mode, iv: Block, a: seq<Byte>, b: seq<Byte>)
    requires |a| % 16 == 0 && |b| % 16 == 0
    ensures (|a| + |b|) % 16 == 0
    ensures Crypt(c, mode, iv, a + b) == Crypt(c, mode, iv, a) + Crypt(c, mode, NextIv(c, mode, iv, a), b)
    ensures NextIv(c, mode, iv, a + b) == NextIv(c, mode, NextIv(c, mode, iv, a), b)
    decreases |a|
  {
    hide Crypt, NextIv, Xor;
    if a == [] {
      NothingLeft(c, mode, iv);
      assert a + b == b;
    } else {
      var x: Block := if mode == Encrypt then c.enc(Xor(a[..16], iv)) else a[..16];
      var y: Block := if mode == Encrypt then x else Xor(c.dec(a[..16]), iv);
      CryptAppend(c, mode, x, a[16..], b);
      NextIvFirst(c, mode, iv, a);
      FirstBlock(a, b);
      NextIvFirst(c, mode, iv, a + b);
      Regroup(y, Crypt(c, mode, x, a[16..]), Crypt(c, mode, NextIv(c, mode, iv, a), b));
    }
  }

  /** Block k - 1, or the vector before the first block. */
  function Before(iv: Block, s: seq<Byte>, k: nat): (b: Block)
    requires 16 * k <= |s|
  {
    if k == 0 then iv else s[16 * k - 16..16 * k]
  }

  lemma BeforeFirst(iv: Block, s: seq<Byte>)
    ensures Before(iv, s, 0) == iv
  {}

  lemma BehindFirst(s: seq<Byte>, i: nat, j: nat)
    requires 16 <= i <= j <= |s|
    ensures s[16..][i - 16..j - 16] == s[i..j]
  {}

  lemma BeforeRest(iv: Block, s: seq<Byte>, k: nat)
    requires 1 <= k && 16 * k + 16 <= |s|
    ensures Before(s[..16], s[16..], k - 1) == Before(iv, s, k)
    ensures s[16..][16 * (k - 1)..16 * (k - 1) + 16] == s[16 * k..16 * k + 16]
  {
    BehindFirst(s, 16 * k, 16 * k + 16);
    if k > 1 { BehindFirst(s, 16 * k - 16, 16 * k); }
  }

  lemma EncFirst(f: Block -> Block, iv: Block, s: seq<Byte>)
    requires |s| % 16 == 0 && s != []
    ensures var c := f(Xor(s[..16], iv)); var r := CbcEnc(f, iv, s);
      r[..16] == c && r[16..] == CbcEnc(f, c, s[16..])
  {
    hide Xor;
  }

  lemma DecFirst(g: Block -> Block, iv: Block, s: seq<Byte>)
    requires |s| % 16 == 0 && s != []
    ensures var r := CbcDec(g, iv, s); r[..16] == Xor(g(s[..16]), iv) && r[16..] == CbcDec(g, s[..16], s[16..])
  {
    hide Xor;
  }

  lemma IsXor(x: Block, a: Block, b: Block)
    requires forall i :: 0 <= i < 16 ==> x[i] == a[i] ^ b[i]
    ensures x == Xor(a, b)
  {}

  /** Block k of the ciphertext is block k of the text, xored with the ciphertext block before, under the
      cipher. */
  lemma {:induction false} EncBlockAt(f: Block -> Block, iv: Block, s: seq<Byte>, k: nat, x: Block)
    requires |s| % 16 == 0 && 16 * k + 16 <= |s|
    requires forall i :: 0 <= i < 16 ==> x[i] == s[16 * k..16 * k + 16][i] ^ Before(iv, CbcEnc(f, iv, s), k)[i]
    ensures CbcEnc(f, iv, s)[16 * k..16 * k + 16] == f(x)
    decreases k
  {
    hide Before, Xor, CbcEnc;
    var r := CbcEnc(f, iv, s);
    var c := f(Xor(s[..16], iv));
    EncFirst(f, iv, s);
    if k == 0 {
      BeforeFirst(iv, r);
      IsXor(x, s[..16], iv);
    } else {
      BeforeRest(iv, r, k);
      EncBlockAt(f, c, s[16..], k - 1, x);
    }
  }

  /** Block k of the plaintext is block k of the ciphertext under the inverse cipher, xored with the
      ciphertext block before. */
  lemma {:induction false} DecBlockAt(g: Block -> Block, iv: Block, s: seq<Byte>, k: nat)
    requires |s| % 16 == 0 && 16 * k + 16 <= |s|
    ensures forall i :: 0 <= i < 16 ==>
      CbcDec(g, iv, s)[16 * k..16 * k + 16][i] == g(s[16 * k..16 * k + 16])[i] ^ Before(iv, s, k)[i]
    decreases k
  {
    hide Before, CbcDec;
    var r := CbcDec(g, iv, s);
    DecFirst(g, iv, s);
    if k == 0 {
      BeforeFirst(iv, s);
      assert s[0..16] == s[..16] && r[0..16] == r[..16];
    } else {
      BeforeRest(iv, s, k);
      DecBlockAt(g, s[..16], s[16..], k - 1);
      BehindFirst(r, 16 * k, 16 * k + 16);
    }
  }

  /** The vector handed on is the last block of the ciphertext. */
  lemma VectorIsLastBlock(c: Cipher, mode: Mode, iv: Block, s: seq<Byte>)
    requires |s| % 16 == 0 && s != []
    ensures NextIv(c, mode, iv, s) == if mode == Encrypt then Crypt(c, mode, iv, s)[|s| - 16..] else s[|s| - 16..]
  {
    hide CbcEnc, CbcDec;
  }

  /** Decryption inverts encryption. */
  lemma {:induction false} DecryptsEncrypted(c: Cipher, iv: Block, s: seq<Byte>)
    requires Inverse(c) && |s| % 16 == 0
    ensures CbcDec(c.dec, iv, CbcEnc(c.enc, iv, s)) == s
    decreases |s|
  {
    hide Inverse;
    if s != [] {
      var x: Block := c.enc(Xor(s[..16], iv));
      DecryptsEncrypted(c, x, s[16..]);
      BlockBack(c, iv, s[..16]);
      FirstBlock(x, CbcEnc(c.enc, x, s[16..]));
      FirstBlock(s, []);
      assert CbcEnc(c.enc, iv, s)[16..] == CbcEnc(c.enc, x, s[16..]);
    }
  }

  lemma BlockBack(c: Cipher, iv: Block, p: Block)
    requires Inverse(c)
    ensures Xor(c.dec(c.enc(Xor(p, iv))), iv) == p
  {
    XorTwice(p, iv);
  }

  /** mbedtls_aes_crypt_cbc: the vector is updated in place, so it is returned. */
  method CryptCbc(c: Cipher, mode: Mode, iv: Block, input: seq<Byte>, output: array<Byte>, at: nat)
    returns (ok: bool, iv': Block)
    requires at + |input| <= output.Length
    modifies output
    ensures ok == (|input| % 16 == 0)
    ensures !ok ==> iv' == iv && output[..] == old(output[..])
    ensures ok ==> output[..at + |input|] == old(output[..at]) + Crypt(c, mode, iv, input)
    ensures ok ==> iv' == NextIv(c, mode, iv, input)
    ensures forall i :: at + |input| <= i < output.Length ==> output[i] == old(output[i])
  {
    hide Crypt, NextIv, Xor;
    iv' := iv;
    if |input| % 16 != 0 { return false, iv'; }
    var i := 0;
    assert input[..0] == [];
    NothingLeft(c, mode, iv);
    while i < |input|
      invariant 0 <= i <= |input| && i % 16 == 0 && iv' == NextIv(c, mode, iv, input[..i])
      invariant output[..at + i] == old(output[..at]) + Crypt(c, mode, iv, input[..i])
      invariant forall k :: at + i <= k < output.Length ==> output[k] == old(output[k])
    {
      var block: Block := input[i..i + 16];
      StepInput(input, i);
      CryptAppend(c, mode, iv, input[..i], block);
      iv' := CryptBlock(c, mode, iv', block, output, at + i);
      i := i + 16;
    }
    assert input[..i] == input;
    return true, iv';
  }

  /** The loop bodies for the two directions. */
  method CryptBlock(c: Cipher, mode: Mode, iv: Block, block: Block, output: array<Byte>, at: nat) returns (iv': Block)
    requires at + 16 <= output.Length
    modifies output
    ensures output[..at + 16] == old(output[..at]) + Crypt(c, mode, iv, block) && iv' == NextIv(c, mode, iv, block)
    ensures forall i :: at + 16 <= i < output.Length ==> output[i] == old(output[i])
  {
    hide Crypt, NextIv, Xor;
    OneBlock(c, mode, iv, block);
    if mode == Decrypt {
      var temp := block;
      PutBlock(output, at, Xor(c.dec(block), iv));
      iv' := temp;
    } else {
      var out: Block := c.enc(Xor(block, iv));
      PutBlock(output, at, out);
      iv' := out;
    }
  }

  lemma StepInput(input: seq<Byte>, i: nat)
    requires i + 16 <= |input|
    ensures input[..i + 16] == input[..i] + input[i..i + 16]
  {}

  lemma OneBlock(c: Cipher, mode: Mode, iv: Block, p: Block)
    ensures var x: Block := if mode == Encrypt then c.enc(Xor(p, iv)) else p;
      NextIv(c, mode, iv, p) == x && Crypt(c, mode, iv, p) == if mode == Encrypt then x else Xor(c.dec(p), iv)
  {
    hide Crypt, NextIv, Xor;
    NextIvFirst(c, mode, iv, p);
    assert p[..16] == p && p[16..] == [];
    NothingLeft(c, mode, if mode == Encrypt then c.enc(Xor(p, iv)) else p);
  }

  method PutBlock(output: array<Byte>, at: nat, b: Block)
    requires at + 16 <= output.Length
    modifies output
    ensures output[..at + 16] == old(output[..at]) + b
    ensures forall i :: at + 16 <= i < output.Length ==> output[i] == old(output[i])
  {
    for i := 0 to 16
      invariant output[..at + i] == old(output[..at]) + b[..i]
      invariant forall j :: at + i <= j < output.Length ==> output[j] == old(output[j])
    {
      output[at + i] := b[i];
    }
  }
}
