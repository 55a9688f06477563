/** Sixteen-byte blocks, and a block cipher as a pair of functions. */
module BlockCipher {

  type Byte = bv8

  type Block = b: seq<Byte> | |b| == 16 witness seq(16, i => 0)

  /** A block cipher under a fixed key. */
  datatype Cipher = Cipher(enc: Block -> Block, dec: Block -> Block)

  ghost predicate Inverse(c: Cipher)
  {
    forall b: Block :: c.dec(c.enc(b)) == b && c.enc(c.dec(b)) == b
  }

  datatype Mode = Encrypt | Decrypt

  /** Byte-wise exclusive or. */
  function Xor(a: seq<Byte>, b: seq<Byte>): (c: seq<Byte>)
    requires |a| == |b|
    ensures |c| == |a|
    ensures forall i :: 0 <= i < |c| ==> c[i] == a[i] ^ b[i]
  {
    seq(|a|, i requires 0 <= i < |a| => a[i] ^ b[i])
  }

  lemma XorTwice(a: seq<Byte>, b: seq<Byte>)
    requires |a| == |b|
    ensures Xor(Xor(a, b), b) == a
    ensures Xor(a, b) == Xor(b, a)
  {
    forall i | 0 <= i < |a| ensures Xor(Xor(a, b), b)[i] == a[i] && Xor(a, b)[i] == Xor(b, a)[i] {
      ByteXorTwice(a[i], b[i]);
    }
  }

  lemma ByteXorTwice(a: Byte, b: Byte)
    ensures (a ^ b) ^ b == a && a ^ b == b ^ a
  {}

  /** The byte with value n modulo 256. */
  function ByteFor(n: nat): (b: Byte)
  {
    (n % 256) as bv8
  }

  lemma ByteForBack(n: nat)
    requires n < 256
    ensures ByteFor(n) as nat == n
  {
    hide ByteFor;
    SmallByteFor(n);
    SmallConversion(n);
  }

  lemma ByteValueBack(b: Byte)
    ensures b as nat < 256 && ByteFor(b as nat) == b
  {
    hide ByteFor;
    ConversionBack(b);
    SmallByteFor(b as nat);
  }

  lemma ConversionBack(b: Byte)
    ensures b as nat < 256 && (b as nat) as bv8 == b
  {}

  lemma SmallByteFor(n: nat)
    requires n < 256
    ensures ByteFor(n) == n as bv8
  {
    assert n % 256 == n;
  }

  lemma SmallConversion(n: nat)
    requires n < 256
    ensures (n as bv8) as nat == n
  {
    var b := ByteWithValue(n);
    ConversionBack(b);
  }

  lemma {:induction false} ByteWithValue(n: nat) returns (b: Byte)
    requires n < 256
    ensures b as nat == n
  {
    if n == 0 {
      b := 0;
    } else {
      b := ByteWithValue(n - 1);
      ByteSuccessor(b);
      ConversionBack(b);
      b := b + 1;
    }
  }

  lemma ByteForInjective(m: nat, n: nat)
    requires m < 256 && n < 256 && ByteFor(m) == ByteFor(n)
    ensures m == n
  {
    hide ByteFor;
    ByteForBack(m);
    ByteForBack(n);
  }

  lemma ByteSuccessor(x: Byte)
    ensures (x + 1) as nat == if x == 255 then 0 else (x as nat) + 1
  {}

  /** Adding one to a byte wraps at 256. */
  lemma ByteForNext(n: nat)
    requires n < 256
    ensures ByteFor(n) + 1 == if n == 255 then 0 else ByteFor(n + 1)
    ensures ByteFor(n) + 1 == 0 <==> n == 255
  {
    hide ByteFor;
    var x := ByteFor(n);
    ByteForBack(n);
    ByteSuccessor(x);
    ByteValueBack(x + 1);
    if n < 255 { ByteForBack(n + 1); }
  }
}
