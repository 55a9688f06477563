/** The ChaCha20 block function against the numbers of RFC 7539. */
module ChaCha20Vector {
  import opened BlockCipher
  import opened ChaCha20

  // ----- which words a round turns -----

  /** The quarter round of section 2.1 on four words. */
  function Turned(q: Quarter): (r: Quarter)
  {
    HalfQuarter(HalfQuarter(q, 16, 12), 8, 7)
  }

  lemma QuarterAt(s: State, a: nat, b: nat, c: nat, d: nat, r: Quarter)
    requires a < 16 && b < 16 && c < 16 && d < 16
    requires a != b && a != c && a != d && b != c && b != d && c != d
    requires Turned(Quarter(s[a], s[b], s[c], s[d])) == r
    ensures var t := QuarterRound(s, a, b, c, d);
      && t[a] == r.a && t[b] == r.b && t[c] == r.c && t[d] == r.d
      && forall i :: 0 <= i < 16 && i != a && i != b && i != c && i != d ==> t[i] == s[i]
  {
    hide HalfQuarter;
    var q := HalfQuarter(Quarter(s[a], s[b], s[c], s[d]), 16, 12);
    PlacesOf(s, a, b, c, d, q);
    var t := HalfRound(s, a, b, c, d, 16, 12);
    PlacesOf(t, a, b, c, d, r);
  }

  /** From s to t the words at four places are turned. */
  predicate TurnedAt(s: State, t: State, a: nat, b: nat, c: nat, d: nat)
    requires a < 16 && b < 16 && c < 16 && d < 16
  {
    Turned(Quarter(s[a], s[b], s[c], s[d])) == Quarter(t[a], t[b], t[c], t[d])
  }

  predicate ColumnsTurned(s: State, t: State)
  {
    && TurnedAt(s, t, 0, 4, 8, 12) && TurnedAt(s, t, 1, 5, 9, 13)
    && TurnedAt(s, t, 2, 6, 10, 14) && TurnedAt(s, t, 3, 7, 11, 15)
  }

  predicate DiagonalsTurned(s: State, t: State)
  {
    && TurnedAt(s, t, 0, 5, 10, 15) && TurnedAt(s, t, 1, 6, 11, 12)
    && TurnedAt(s, t, 2, 7, 8, 13) && TurnedAt(s, t, 3, 4, 9, 14)
  }

  lemma SixteenEqual(s: State, t: State)
    requires s[0] == t[0] && s[1] == t[1] && s[2] == t[2] && s[3] == t[3]
    requires s[4] == t[4] && s[5] == t[5] && s[6] == t[6] && s[7] == t[7]
    requires s[8] == t[8] && s[9] == t[9] && s[10] == t[10] && s[11] == t[11]
    requires s[12] == t[12] && s[13] == t[13] && s[14] == t[14] && s[15] == t[15]
    ensures s == t
  {}

  lemma ColumnsAre(s: State, t: State)
    requires ColumnsTurned(s, t)
    ensures Inner(s, 4) == t
  {
    hide Turned, QuarterRound;
    var x1 := QuarterRound(s, 0, 4, 8, 12);
    var x2 := QuarterRound(x1, 1, 5, 9, 13);
    var x3 := QuarterRound(x2, 2, 6, 10, 14);
    QuarterAt(s, 0, 4, 8, 12, Quarter(t[0], t[4], t[8], t[12]));
    QuarterAt(x1, 1, 5, 9, 13, Quarter(t[1], t[5], t[9], t[13]));
    QuarterAt(x2, 2, 6, 10, 14, Quarter(t[2], t[6], t[10], t[14]));
    QuarterAt(x3, 3, 7, 11, 15, Quarter(t[3], t[7], t[11], t[15]));
    SixteenEqual(QuarterRound(x3, 3, 7, 11, 15), t);
    assert x1 == Inner(s, 1);
    assert x2 == Inner(s, 2);
    assert x3 == Inner(s, 3);
  }

  lemma DiagonalsAre(s: State, t: State, u: State)
    requires DiagonalsTurned(t, u) && Inner(s, 4) == t
    ensures Inner(s, 8) == u
  {
    hide Turned, QuarterRound;
    var x5 := QuarterRound(t, 0, 5, 10, 15);
    var x6 := QuarterRound(x5, 1, 6, 11, 12);
    var x7 := QuarterRound(x6, 2, 7, 8, 13);
    QuarterAt(t, 0, 5, 10, 15, Quarter(u[0], u[5], u[10], u[15]));
    QuarterAt(x5, 1, 6, 11, 12, Quarter(u[1], u[6], u[11], u[12]));
    QuarterAt(x6, 2, 7, 8, 13, Quarter(u[2], u[7], u[8], u[13]));
    QuarterAt(x7, 3, 4, 9, 14, Quarter(u[3], u[4], u[9], u[14]));
    SixteenEqual(QuarterRound(x7, 3, 4, 9, 14), u);
    assert x5 == Inner(s, 5);
    assert x6 == Inner(s, 6);
    assert x7 == Inner(s, 7);
  }

  /** A double round turns the columns and then the diagonals of the square of words. */
  lemma InnerBlockTurns(s: State, t: State, u: State)
    requires ColumnsTurned(s, t) && DiagonalsTurned(t, u)
    ensures InnerBlock(s) == u
  {
    hide ColumnsTurned, DiagonalsTurned, Inner;
    ColumnsAre(s, t);
    DiagonalsAre(s, t, u);
  }

  lemma TurnedVector()
    ensures Turned(Quarter(0x11111111, 0x01020304, 0x9b8d6f43, 0x01234567)) ==
            Quarter(0xea2a92f4, 0xcb1cf8ce, 0x4581472e, 0x5881c4bb)
  {}

  /** The quarter round of section 2.1.1, on any four places of a state. */
  lemma QuarterVector(s: State, a: nat, b: nat, c: nat, d: nat)
    requires a < 16 && b < 16 && c < 16 && d < 16
    requires a != b && a != c && a != d && b != c && b != d && c != d
    requires s[a] == 0x11111111 && s[b] == 0x01020304 && s[c] == 0x9b8d6f43 && s[d] == 0x01234567
    ensures var t := QuarterRound(s, a, b, c, d);
      && t[a] == 0xea2a92f4 && t[b] == 0xcb1cf8ce && t[c] == 0x4581472e && t[d] == 0x5881c4bb
      && forall i :: 0 <= i < 16 && i != a && i != b && i != c && i != d ==> t[i] == s[i]
  {
    hide Turned, QuarterRound;
    TurnedVector();
    QuarterAt(s, a, b, c, d, Turned(Quarter(s[a], s[b], s[c], s[d])));
  }

  // ----- the counter -----

  /** The first 64 bytes of the key stream are the block of the state, and from byte 64 on it is the key
      stream of the state with the counter one higher (modulo 2^32). */
  lemma NextBlock(s: State, k: nat)
    ensures k < 64 ==> KeyByte(s, k) == KeyBlock(s)[k]
    ensures KeyByte(s, 64 + k) == KeyByte(s[12 := s[12] + 1], k)
  {
    hide KeyBlock;
    AdvancedLater(s, k / 64);
    assert (64 + k) / 64 == 1 + k / 64 && (64 + k) % 64 == k % 64;
  }

  lemma {:induction false} AdvancedLater(s: State, i: nat)
    ensures Advanced(s, 1 + i) == Advanced(s[12 := s[12] + 1], i)
  {
    if i > 0 { AdvancedLater(s, i - 1); }
  }

  // ----- the block of section 2.3.2 -----

  const KEY0: seq<Byte> := [
    0x00, 0x01, 0x02, 0x03, 0x04, 0x05, 0x06, 0x07, 0x08, 0x09, 0x0a, 0x0b, 0x0c, 0x0d, 0x0e, 0x0f]

  const KEY1: seq<Byte> := [
    0x10, 0x11, 0x12, 0x13, 0x14, 0x15, 0x16, 0x17, 0x18, 0x19, 0x1a, 0x1b, 0x1c, 0x1d, 0x1e, 0x1f]

  const NONCE: seq<Byte> := [0x00, 0x00, 0x00, 0x09, 0x00, 0x00, 0x00, 0x4a, 0x00, 0x00, 0x00, 0x00]

  const ROW0: seq<Byte> := [
    0x10, 0xf1, 0xe7, 0xe4, 0xd1, 0x3b, 0x59, 0x15, 0x50, 0x0f, 0xdd, 0x1f, 0xa3, 0x20, 0x71, 0xc4]

  const ROW1: seq<Byte> := [
    0xc7, 0xd1, 0xf4, 0xc7, 0x33, 0xc0, 0x68, 0x03, 0x04, 0x22, 0xaa, 0x9a, 0xc3, 0xd4, 0x6c, 0x4e]

  const ROW2: seq<Byte> := [
    0xd2, 0x82, 0x64, 0x46, 0x07, 0x9f, 0xaa, 0x09, 0x14, 0xc2, 0xd7, 0x05, 0xd9, 0x8b, 0x02, 0xa2]

  const ROW3: seq<Byte> := [
    0xb5, 0x12, 0x9c, 0xd1, 0xde, 0x16, 0x4e, 0xb9, 0xcb, 0xd0, 0x83, 0xe8, 0xa2, 0x50, 0x3c, 0x4e]

  // The state before the first round, and after each of the twenty rounds.

  const S0: State := [
    0x61707865, 0x3320646e, 0x79622d32, 0x6b206574,
    0x03020100, 0x07060504, 0x0b0a0908, 0x0f0e0d0c,
    0x13121110, 0x17161514, 0x1b1a1918, 0x1f1e1d1c,
    0x00000001, 0x09000000, 0x4a000000, 0x00000000]

  const S1: State := [
    0xabbaa25c, 0x1efa51ea, 0x7354fbdf, 0x83d2dc69,
    0x3a465196, 0x1c7e64f6, 0xb12fb628, 0xf05b6976,
    0x6b3ca454, 0x08eb14b1, 0xbf8a9ac9, 0xe444df3b,
    0xdec62ed2, 0x8862cc77, 0x6e35b345, 0x52a647f1]

  const S2: State := [
    0xcd52e917, 0x85ab03b4, 0xb3457395, 0xf96de7dd,
    0xc4b7cd22, 0x5c2e187a, 0xc95eb461, 0x316c801a,
    0x7bf7d740, 0x7eddd644, 0xf1a1bdf5, 0x761246ca,
    0x6b0d58a3, 0x6798471a, 0xd737f167, 0xf173888d]

  const S3: State := [
    0xe3e1111b, 0xa6291491, 0x5a82b80c, 0x4500fd45,
    0xd65b5b5b, 0xf56af099, 0x4ccc8103, 0xc94d29e2,
    0xe67aec54, 0xf7a52d82, 0xdb470914, 0xdfb40f1d,
    0x7be81c0d, 0x1d92d0fd, 0x13139f8c, 0x7a26ecaa]

  const S4: State := [
    0xcf1a7584, 0x048927ec, 0x54051fda, 0xc244ff28,
    0x901d2f40, 0x7974b81c, 0x378dcfb4, 0xcd47fd0e,
    0x2dafb216, 0x27c89cd6, 0xcd3c9aa0, 0x79fc89c7,
    0x10aef18d, 0x16218765, 0x68f76705, 0x04d6ee22]

  const S5: State := [
    0xa22695f2, 0xa908cf6c, 0xe6ae05b2, 0xfe0ff04b,
    0x1ece4458, 0xe82b726f, 0x5a21ab90, 0x87698c64,
    0xf2d36da6, 0xf4dab980, 0x7baf5573, 0xa78c270d,
    0x6fda6bf7, 0x65a4b0ce, 0x25e6d76e, 0x1b7b11ec]

  const S6: State := [
    0x03a14032, 0x66b15927, 0x9d6b6b42, 0xb84c4109,
    0xa7143ae0, 0xa09b33dd, 0xa5daaf88, 0x2fd91a73,
    0xc90c6b18, 0x5a202413, 0xc20e01b6, 0x72cd6b74,
    0xba35d777, 0xb360f1bf, 0x8178315b, 0x2cd11b1a]

  const S7: State := [
    0xfecd0838, 0x160ab468, 0x9a0ddf4e, 0xbac7154a,
    0xcedf6624, 0xb11de6c4, 0xbd7810ef, 0xd22b5643,
    0x1d8a33ea, 0x87dc1ca9, 0x89bd34a5, 0x5505ef62,
    0xa818b852, 0xb100446a, 0x9c1d70b1, 0xa1d1befa]

  const S8: State := [
    0x9a2d3589, 0x0b23fc4e, 0x40af3b6b, 0xceea8144,
    0x0a1bffc6, 0x5e5993f7, 0x9904c2e7, 0x0d334718,
    0xe46c6354, 0xc9503229, 0x04fef5aa, 0xf8933f72,
    0x2687d476, 0x54e65231, 0x3594ffc5, 0x2b3bb2ca]

  const S9: State := [
    0x85e7824a, 0x4940cd9e, 0xfbe7684b, 0x7335d03d,
    0x1c133ea1, 0xbba40b0f, 0x9413992a, 0xa4ab2040,
    0xa3a66a86, 0xc0b4754f, 0x771b4ecb, 0x165151a1,
    0xde008464, 0x34f0058b, 0x70846cfa, 0xa3271b09]

  const S10: State := [
    0xc53318c5, 0xca325d96, 0x7e7d11cb, 0x3404e2ca,
    0x26d7cf73, 0x6088d379, 0xc0f0e9bd, 0xe310cdb9,
    0xae2ca8db, 0x42f67c72, 0x71669aca, 0x975c171d,
    0x9e5ec228, 0x7d85a9f3, 0x201d0756, 0x63fa6953]

  const S11: State := [
    0x9950b826, 0xcac7ccc6, 0x84a67673, 0xdb3109a6,
    0x2121065a, 0xc12bdadb, 0xcae3acd1, 0x594616cb,
    0x19078de2, 0x178ecc02, 0xe6adbdb2, 0x52a9d50e,
    0x40ca72b3, 0x3b9bf852, 0x78690378, 0xe17d4902]

  const S12: State := [
    0x04a3131a, 0x66176309, 0x0415bab1, 0x61b880a2,
    0x36cc86c7, 0xbf8a4465, 0xf77dd720, 0xfc0bdc90,
    0x07d13aca, 0xeb0be9af, 0x61599491, 0x918512dc,
    0x33b6686d, 0x795cc671, 0xc0049972, 0xa0a81bde]

  const S13: State := [
    0x57c5e6da, 0x35ce46a8, 0x0c041bb9, 0xfa91df79,
    0x8e85d82f, 0xb4819d06, 0xb63be200, 0xacd221e4,
    0x434b4749, 0x1d459c00, 0x111cfe2c, 0x55942604,
    0x49ee03a6, 0xd11a5554, 0xa7202e04, 0x7d2215bc]

  const S14: State := [
    0x9b70f51f, 0x7ea8ac11, 0x21e54da9, 0xca393b2f,
    0x93b08686, 0x6a4c50ae, 0x19212a5a, 0x9b032958,
    0xd839165e, 0x4c06e28a, 0xd3fde99e, 0x26acc13d,
    0xa609f555, 0x2c246549, 0x95151853, 0x2c847a0d]

  const S15: State := [
    0xc0b18aee, 0x087445ba, 0x36e52ad9, 0xa777426a,
    0xdeb54e9c, 0x802c883b, 0x06e86889, 0x3c002680,
    0xa82d65d4, 0x687f11eb, 0xe9d36207, 0x4242ddae,
    0x4103c64e, 0x82816a91, 0xb584ca56, 0xfd0bd2b9]

  const S16: State := [
    0xca5c85dd, 0x93a4f90e, 0xd9f0df58, 0x26dd82dd,
    0x982563f8, 0x712aa9ff, 0x279a61e8, 0x970f72bd,
    0x1c25931a, 0x5180bb10, 0x779c27e7, 0x54077e08,
    0xa9b751fb, 0x382f3ce2, 0x8db1757d, 0xcc38080b]

  const S17: State := [
    0x765c6e9c, 0x5ab09b11, 0x3ee7da04, 0x37c31203,
    0x9046ecaa, 0x7b88d882, 0xb9b577dd, 0x156de7ed,
    0x46fa091e, 0x5117e9b5, 0x862ff22b, 0xa3fcc7a6,
    0x72a5aace, 0x5fa7f1c5, 0xda563e0a, 0x5263d7ca]

  const S18: State := [
    0xb6b87de6, 0x9a016148, 0x93859815, 0x4915e6cc,
    0xdc33c122, 0x98e18fa3, 0x5ffbe8fc, 0xf7154b8b,
    0x28c1fcb3, 0xc4b38f9d, 0x83e2f5d7, 0x7d24b98b,
    0x21078b22, 0xb193e7a3, 0xb2f49389, 0x6cde6026]

  const S19: State := [
    0x8a07ff15, 0x0cadc51c, 0x017c8da9, 0x4afbe5df,
    0x913768fe, 0x442a0c0c, 0x598fe3bb, 0x47d18828,
    0x0a39aedc, 0xc1428029, 0x7b48135f, 0x5a5f1098,
    0x2d4cfe3e, 0xe5466d1b, 0xe4ccdc13, 0x8ac92a18]

  const S20: State := [
    0x837778ab, 0xe238d763, 0xa67ae21e, 0x5950bb2f,
    0xc4f2d0c7, 0xfc62bb2f, 0x8fa018fc, 0x3f5ec7b7,
    0x335271c2, 0xf29489f3, 0xeabda8fc, 0x82e46ebd,
    0xd19c12b4, 0xb04e16de, 0x9e83d0cb, 0x4e3c50a2]

  lemma Columns1()
    ensures Turned(Quarter(0x61707865, 0x03020100, 0x13121110, 0x00000001)) ==
            Quarter(0xabbaa25c, 0x3a465196, 0x6b3ca454, 0xdec62ed2)
    ensures Turned(Quarter(0x3320646e, 0x07060504, 0x17161514, 0x09000000)) ==
            Quarter(0x1efa51ea, 0x1c7e64f6, 0x08eb14b1, 0x8862cc77)
    ensures Turned(Quarter(0x79622d32, 0x0b0a0908, 0x1b1a1918, 0x4a000000)) ==
            Quarter(0x7354fbdf, 0xb12fb628, 0xbf8a9ac9, 0x6e35b345)
    ensures Turned(Quarter(0x6b206574, 0x0f0e0d0c, 0x1f1e1d1c, 0x00000000)) ==
            Quarter(0x83d2dc69, 0xf05b6976, 0xe444df3b, 0x52a647f1)
  {}

  lemma Diagonals1()
    ensures Turned(Quarter(0xabbaa25c, 0x1c7e64f6, 0xbf8a9ac9, 0x52a647f1)) ==
            Quarter(0xcd52e917, 0x5c2e187a, 0xf1a1bdf5, 0xf173888d)
    ensures Turned(Quarter(0x1efa51ea, 0xb12fb628, 0xe444df3b, 0xdec62ed2)) ==
            Quarter(0x85ab03b4, 0xc95eb461, 0x761246ca, 0x6b0d58a3)
    ensures Turned(Quarter(0x7354fbdf, 0xf05b6976, 0x6b3ca454, 0x8862cc77)) ==
            Quarter(0xb3457395, 0x316c801a, 0x7bf7d740, 0x6798471a)
    ensures Turned(Quarter(0x83d2dc69, 0x3a465196, 0x08eb14b1, 0x6e35b345)) ==
            Quarter(0xf96de7dd, 0xc4b7cd22, 0x7eddd644, 0xd737f167)
  {}

  lemma DoubleRound1()
    ensures InnerBlock(S0) == S2
  {
    hide Turned, InnerBlock;
    Columns1();
    Diagonals1();
    InnerBlockTurns(S0, S1, S2);
  }

  lemma Columns2()
    ensures Turned(Quarter(0xcd52e917, 0xc4b7cd22, 0x7bf7d740, 0x6b0d58a3)) ==
            Quarter(0xe3e1111b, 0xd65b5b5b, 0xe67aec54, 0x7be81c0d)
    ensures Turned(Quarter(0x85ab03b4, 0x5c2e187a, 0x7eddd644, 0x6798471a)) ==
            Quarter(0xa6291491, 0xf56af099, 0xf7a52d82, 0x1d92d0fd)
    ensures Turned(Quarter(0xb3457395, 0xc95eb461, 0xf1a1bdf5, 0xd737f167)) ==
            Quarter(0x5a82b80c, 0x4ccc8103, 0xdb470914, 0x13139f8c)
    ensures Turned(Quarter(0xf96de7dd, 0x316c801a, 0x761246ca, 0xf173888d)) ==
            Quarter(0x4500fd45, 0xc94d29e2, 0xdfb40f1d, 0x7a26ecaa)
  {}

  lemma Diagonals2()
    ensures Turned(Quarter(0xe3e1111b, 0xf56af099, 0xdb470914, 0x7a26ecaa)) ==
            Quarter(0xcf1a7584, 0x7974b81c, 0xcd3c9aa0, 0x04d6ee22)
    ensures Turned(Quarter(0xa6291491, 0x4ccc8103, 0xdfb40f1d, 0x7be81c0d)) ==
            Quarter(0x048927ec, 0x378dcfb4, 0x79fc89c7, 0x10aef18d)
    ensures Turned(Quarter(0x5a82b80c, 0xc94d29e2, 0xe67aec54, 0x1d92d0fd)) ==
            Quarter(0x54051fda, 0xcd47fd0e, 0x2dafb216, 0x16218765)
    ensures Turned(Quarter(0x4500fd45, 0xd65b5b5b, 0xf7a52d82, 0x13139f8c)) ==
            Quarter(0xc244ff28, 0x901d2f40, 0x27c89cd6, 0x68f76705)
  {}

  lemma DoubleRound2()
    ensures InnerBlock(S2) == S4
  {
    hide Turned, InnerBlock;
    Columns2();
    Diagonals2();
    InnerBlockTurns(S2, S3, S4);
  }

  lemma Columns3()
    ensures Turned(Quarter(0xcf1a7584, 0x901d2f40, 0x2dafb216, 0x10aef18d)) ==
            Quarter(0xa22695f2, 0x1ece4458, 0xf2d36da6, 0x6fda6bf7)
    ensures Turned(Quarter(0x048927ec, 0x7974b81c, 0x27c89cd6, 0x16218765)) ==
            Quarter(0xa908cf6c, 0xe82b726f, 0xf4dab980, 0x65a4b0ce)
    ensures Turned(Quarter(0x54051fda, 0x378dcfb4, 0xcd3c9aa0, 0x68f76705)) ==
            Quarter(0xe6ae05b2, 0x5a21ab90, 0x7baf5573, 0x25e6d76e)
    ensures Turned(Quarter(0xc244ff28, 0xcd47fd0e, 0x79fc89c7, 0x04d6ee22)) ==
            Quarter(0xfe0ff04b, 0x87698c64, 0xa78c270d, 0x1b7b11ec)
  {}

  lemma Diagonals3()
    ensures Turned(Quarter(0xa22695f2, 0xe82b726f, 0x7baf5573, 0x1b7b11ec)) ==
            Quarter(0x03a14032, 0xa09b33dd, 0xc20e01b6, 0x2cd11b1a)
    ensures Turned(Quarter(0xa908cf6c, 0x5a21ab90, 0xa78c270d, 0x6fda6bf7)) ==
            Quarter(0x66b15927, 0xa5daaf88, 0x72cd6b74, 0xba35d777)
    ensures Turned(Quarter(0xe6ae05b2, 0x87698c64, 0xf2d36da6, 0x65a4b0ce)) ==
            Quarter(0x9d6b6b42, 0x2fd91a73, 0xc90c6b18, 0xb360f1bf)
    ensures Turned(Quarter(0xfe0ff04b, 0x1ece4458, 0xf4dab980, 0x25e6d76e)) ==
            Quarter(0xb84c4109, 0xa7143ae0, 0x5a202413, 0x8178315b)
  {}

  lemma DoubleRound3()
    ensures InnerBlock(S4) == S6
  {
    hide Turned, InnerBlock;
    Columns3();
    Diagonals3();
    InnerBlockTurns(S4, S5, S6);
  }

  lemma Columns4()
    ensures Turned(Quarter(0x03a14032, 0xa7143ae0, 0xc90c6b18, 0xba35d777)) ==
            Quarter(0xfecd0838, 0xcedf6624, 0x1d8a33ea, 0xa818b852)
    ensures Turned(Quarter(0x66b15927, 0xa09b33dd, 0x5a202413, 0xb360f1bf)) ==
            Quarter(0x160ab468, 0xb11de6c4, 0x87dc1ca9, 0xb100446a)
    ensures Turned(Quarter(0x9d6b6b42, 0xa5daaf88, 0xc20e01b6, 0x8178315b)) ==
            Quarter(0x9a0ddf4e, 0xbd7810ef, 0x89bd34a5, 0x9c1d70b1)
    ensures Turned(Quarter(0xb84c4109, 0x2fd91a73, 0x72cd6b74, 0x2cd11b1a)) ==
            Quarter(0xbac7154a, 0xd22b5643, 0x5505ef62, 0xa1d1befa)
  {}

  lemma Diagonals4()
    ensures Turned(Quarter(0xfecd0838, 0xb11de6c4, 0x89bd34a5, 0xa1d1befa)) ==
            Quarter(0x9a2d3589, 0x5e5993f7, 0x04fef5aa, 0x2b3bb2ca)
    ensures Turned(Quarter(0x160ab468, 0xbd7810ef, 0x5505ef62, 0xa818b852)) ==
            Quarter(0x0b23fc4e, 0x9904c2e7, 0xf8933f72, 0x2687d476)
    ensures Turned(Quarter(0x9a0ddf4e, 0xd22b5643, 0x1d8a33ea, 0xb100446a)) ==
            Quarter(0x40af3b6b, 0x0d334718, 0xe46c6354, 0x54e65231)
    ensures Turned(Quarter(0xbac7154a, 0xcedf6624, 0x87dc1ca9, 0x9c1d70b1)) ==
            Quarter(0xceea8144, 0x0a1bffc6, 0xc9503229, 0x3594ffc5)
  {}

  lemma DoubleRound4()
    ensures InnerBlock(S6) == S8
  {
    hide Turned, InnerBlock;
    Columns4();
    Diagonals4();
    InnerBlockTurns(S6, S7, S8);
  }

  lemma Columns5()
    ensures Turned(Quarter(0x9a2d3589, 0x0a1bffc6, 0xe46c6354, 0x2687d476)) ==
            Quarter(0x85e7824a, 0x1c133ea1, 0xa3a66a86, 0xde008464)
    ensures Turned(Quarter(0x0b23fc4e, 0x5e5993f7, 0xc9503229, 0x54e65231)) ==
            Quarter(0x4940cd9e, 0xbba40b0f, 0xc0b4754f, 0x34f0058b)
    ensures Turned(Quarter(0x40af3b6b, 0x9904c2e7, 0x04fef5aa, 0x3594ffc5)) ==
            Quarter(0xfbe7684b, 0x9413992a, 0x771b4ecb, 0x70846cfa)
    ensures Turned(Quarter(0xceea8144, 0x0d334718, 0xf8933f72, 0x2b3bb2ca)) ==
            Quarter(0x7335d03d, 0xa4ab2040, 0x165151a1, 0xa3271b09)
  {}

  lemma Diagonals5()
    ensures Turned(Quarter(0x85e7824a, 0xbba40b0f, 0x771b4ecb, 0xa3271b09)) ==
            Quarter(0xc53318c5, 0x6088d379, 0x71669aca, 0x63fa6953)
    ensures Turned(Quarter(0x4940cd9e, 0x9413992a, 0x165151a1, 0xde008464)) ==
            Quarter(0xca325d96, 0xc0f0e9bd, 0x975c171d, 0x9e5ec228)
    ensures Turned(Quarter(0xfbe7684b, 0xa4ab2040, 0xa3a66a86, 0x34f0058b)) ==
            Quarter(0x7e7d11cb, 0xe310cdb9, 0xae2ca8db, 0x7d85a9f3)
    ensures Turned(Quarter(0x7335d03d, 0x1c133ea1, 0xc0b4754f, 0x70846cfa)) ==
            Quarter(0x3404e2ca, 0x26d7cf73, 0x42f67c72, 0x201d0756)
  {}

  lemma DoubleRound5()
    ensures InnerBlock(S8) == S10
  {
    hide Turned, InnerBlock;
    Columns5();
    Diagonals5();
    InnerBlockTurns(S8, S9, S10);
  }

  lemma Columns6()
    ensures Turned(Quarter(0xc53318c5, 0x26d7cf73, 0xae2ca8db, 0x9e5ec228)) ==
            Quarter(0x9950b826, 0x2121065a, 0x19078de2, 0x40ca72b3)
    ensures Turned(Quarter(0xca325d96, 0x6088d379, 0x42f67c72, 0x7d85a9f3)) ==
            Quarter(0xcac7ccc6, 0xc12bdadb, 0x178ecc02, 0x3b9bf852)
    ensures Turned(Quarter(0x7e7d11cb, 0xc0f0e9bd, 0x71669aca, 0x201d0756)) ==
            Quarter(0x84a67673, 0xcae3acd1, 0xe6adbdb2, 0x78690378)
    ensures Turned(Quarter(0x3404e2ca, 0xe310cdb9, 0x975c171d, 0x63fa6953)) ==
            Quarter(0xdb3109a6, 0x594616cb, 0x52a9d50e, 0xe17d4902)
  {}

  lemma Diagonals6()
    ensures Turned(Quarter(0x9950b826, 0xc12bdadb, 0xe6adbdb2, 0xe17d4902)) ==
            Quarter(0x04a3131a, 0xbf8a4465, 0x61599491, 0xa0a81bde)
    ensures Turned(Quarter(0xcac7ccc6, 0xcae3acd1, 0x52a9d50e, 0x40ca72b3)) ==
            Quarter(0x66176309, 0xf77dd720, 0x918512dc, 0x33b6686d)
    ensures Turned(Quarter(0x84a67673, 0x594616cb, 0x19078de2, 0x3b9bf852)) ==
            Quarter(0x0415bab1, 0xfc0bdc90, 0x07d13aca, 0x795cc671)
    ensures Turned(Quarter(0xdb3109a6, 0x2121065a, 0x178ecc02, 0x78690378)) ==
            Quarter(0x61b880a2, 0x36cc86c7, 0xeb0be9af, 0xc0049972)
  {}

  lemma DoubleRound6()
    ensures InnerBlock(S10) == S12
  {
    hide Turned, InnerBlock;
    Columns6();
    Diagonals6();
    InnerBlockTurns(S10, S11, S12);
  }

  lemma Columns7()
    ensures Turned(Quarter(0x04a3131a, 0x36cc86c7, 0x07d13aca, 0x33b6686d)) ==
            Quarter(0x57c5e6da, 0x8e85d82f, 0x434b4749, 0x49ee03a6)
    ensures Turned(Quarter(0x66176309, 0xbf8a4465, 0xeb0be9af, 0x795cc671)) ==
            Quarter(0x35ce46a8, 0xb4819d06, 0x1d459c00, 0xd11a5554)
    ensures Turned(Quarter(0x0415bab1, 0xf77dd720, 0x61599491, 0xc0049972)) ==
            Quarter(0x0c041bb9, 0xb63be200, 0x111cfe2c, 0xa7202e04)
    ensures Turned(Quarter(0x61b880a2, 0xfc0bdc90, 0x918512dc, 0xa0a81bde)) ==
            Quarter(0xfa91df79, 0xacd221e4, 0x55942604, 0x7d2215bc)
  {}

  lemma Diagonals7()
    ensures Turned(Quarter(0x57c5e6da, 0xb4819d06, 0x111cfe2c, 0x7d2215bc)) ==
            Quarter(0x9b70f51f, 0x6a4c50ae, 0xd3fde99e, 0x2c847a0d)
    ensures Turned(Quarter(0x35ce46a8, 0xb63be200, 0x55942604, 0x49ee03a6)) ==
            Quarter(0x7ea8ac11, 0x19212a5a, 0x26acc13d, 0xa609f555)
    ensures Turned(Quarter(0x0c041bb9, 0xacd221e4, 0x434b4749, 0xd11a5554)) ==
            Quarter(0x21e54da9, 0x9b032958, 0xd839165e, 0x2c246549)
    ensures Turned(Quarter(0xfa91df79, 0x8e85d82f, 0x1d459c00, 0xa7202e04)) ==
            Quarter(0xca393b2f, 0x93b08686, 0x4c06e28a, 0x95151853)
  {}

  lemma DoubleRound7()
    ensures InnerBlock(S12) == S14
  {
    hide Turned, InnerBlock;
    Columns7();
    Diagonals7();
    InnerBlockTurns(S12, S13, S14);
  }

  lemma Columns8()
    ensures Turned(Quarter(0x9b70f51f, 0x93b08686, 0xd839165e, 0xa609f555)) ==
            Quarter(0xc0b18aee, 0xdeb54e9c, 0xa82d65d4, 0x4103c64e)
    ensures Turned(Quarter(0x7ea8ac11, 0x6a4c50ae, 0x4c06e28a, 0x2c246549)) ==
            Quarter(0x087445ba, 0x802c883b, 0x687f11eb, 0x82816a91)
    ensures Turned(Quarter(0x21e54da9, 0x19212a5a, 0xd3fde99e, 0x95151853)) ==
            Quarter(0x36e52ad9, 0x06e86889, 0xe9d36207, 0xb584ca56)
    ensures Turned(Quarter(0xca393b2f, 0x9b032958, 0x26acc13d, 0x2c847a0d)) ==
            Quarter(0xa777426a, 0x3c002680, 0x4242ddae, 0xfd0bd2b9)
  {}

  lemma Diagonals8()
    ensures Turned(Quarter(0xc0b18aee, 0x802c883b, 0xe9d36207, 0xfd0bd2b9)) ==
            Quarter(0xca5c85dd, 0x712aa9ff, 0x779c27e7, 0xcc38080b)
    ensures Turned(Quarter(0x087445ba, 0x06e86889, 0x4242ddae, 0x4103c64e)) ==
            Quarter(0x93a4f90e, 0x279a61e8, 0x54077e08, 0xa9b751fb)
    ensures Turned(Quarter(0x36e52ad9, 0x3c002680, 0xa82d65d4, 0x82816a91)) ==
            Quarter(0xd9f0df58, 0x970f72bd, 0x1c25931a, 0x382f3ce2)
    ensures Turned(Quarter(0xa777426a, 0xdeb54e9c, 0x687f11eb, 0xb584ca56)) ==
            Quarter(0x26dd82dd, 0x982563f8, 0x5180bb10, 0x8db1757d)
  {}

  lemma DoubleRound8()
    ensures InnerBlock(S14) == S16
  {
    hide Turned, InnerBlock;
    Columns8();
    Diagonals8();
    InnerBlockTurns(S14, S15, S16);
  }

  lemma Columns9()
    ensures Turned(Quarter(0xca5c85dd, 0x982563f8, 0x1c25931a, 0xa9b751fb)) ==
            Quarter(0x765c6e9c, 0x9046ecaa, 0x46fa091e, 0x72a5aace)
    ensures Turned(Quarter(0x93a4f90e, 0x712aa9ff, 0x5180bb10, 0x382f3ce2)) ==
            Quarter(0x5ab09b11, 0x7b88d882, 0x5117e9b5, 0x5fa7f1c5)
    ensures Turned(Quarter(0xd9f0df58, 0x279a61e8, 0x779c27e7, 0x8db1757d)) ==
            Quarter(0x3ee7da04, 0xb9b577dd, 0x862ff22b, 0xda563e0a)
    ensures Turned(Quarter(0x26dd82dd, 0x970f72bd, 0x54077e08, 0xcc38080b)) ==
            Quarter(0x37c31203, 0x156de7ed, 0xa3fcc7a6, 0x5263d7ca)
  {}

  lemma Diagonals9()
    ensures Turned(Quarter(0x765c6e9c, 0x7b88d882, 0x862ff22b, 0x5263d7ca)) ==
            Quarter(0xb6b87de6, 0x98e18fa3, 0x83e2f5d7, 0x6cde6026)
    ensures Turned(Quarter(0x5ab09b11, 0xb9b577dd, 0xa3fcc7a6, 0x72a5aace)) ==
            Quarter(0x9a016148, 0x5ffbe8fc, 0x7d24b98b, 0x21078b22)
    ensures Turned(Quarter(0x3ee7da04, 0x156de7ed, 0x46fa091e, 0x5fa7f1c5)) ==
            Quarter(0x93859815, 0xf7154b8b, 0x28c1fcb3, 0xb193e7a3)
    ensures Turned(Quarter(0x37c31203, 0x9046ecaa, 0x5117e9b5, 0xda563e0a)) ==
            Quarter(0x4915e6cc, 0xdc33c122, 0xc4b38f9d, 0xb2f49389)
  {}

  lemma DoubleRound9()
    ensures InnerBlock(S16) == S18
  {
    hide Turned, InnerBlock;
    Columns9();
    Diagonals9();
    InnerBlockTurns(S16, S17, S18);
  }

  lemma Columns10()
    ensures Turned(Quarter(0xb6b87de6, 0xdc33c122, 0x28c1fcb3, 0x21078b22)) ==
            Quarter(0x8a07ff15, 0x913768fe, 0x0a39aedc, 0x2d4cfe3e)
    ensures Turned(Quarter(0x9a016148, 0x98e18fa3, 0xc4b38f9d, 0xb193e7a3)) ==
            Quarter(0x0cadc51c, 0x442a0c0c, 0xc1428029, 0xe5466d1b)
    ensures Turned(Quarter(0x93859815, 0x5ffbe8fc, 0x83e2f5d7, 0xb2f49389)) ==
            Quarter(0x017c8da9, 0x598fe3bb, 0x7b48135f, 0xe4ccdc13)
    ensures Turned(Quarter(0x4915e6cc, 0xf7154b8b, 0x7d24b98b, 0x6cde6026)) ==
            Quarter(0x4afbe5df, 0x47d18828, 0x5a5f1098, 0x8ac92a18)
  {}

  lemma Diagonals10()
    ensures Turned(Quarter(0x8a07ff15, 0x442a0c0c, 0x7b48135f, 0x8ac92a18)) ==
            Quarter(0x837778ab, 0xfc62bb2f, 0xeabda8fc, 0x4e3c50a2)
    ensures Turned(Quarter(0x0cadc51c, 0x598fe3bb, 0x5a5f1098, 0x2d4cfe3e)) ==
            Quarter(0xe238d763, 0x8fa018fc, 0x82e46ebd, 0xd19c12b4)
    ensures Turned(Quarter(0x017c8da9, 0x47d18828, 0x0a39aedc, 0xe5466d1b)) ==
            Quarter(0xa67ae21e, 0x3f5ec7b7, 0x335271c2, 0xb04e16de)
    ensures Turned(Quarter(0x4afbe5df, 0x913768fe, 0xc1428029, 0xe4ccdc13)) ==
            Quarter(0x5950bb2f, 0xc4f2d0c7, 0xf29489f3, 0x9e83d0cb)
  {}

  lemma DoubleRound10()
    ensures InnerBlock(S18) == S20
  {
    hide Turned, InnerBlock;
    Columns10();
    Diagonals10();
    InnerBlockTurns(S18, S19, S20);
  }

  lemma TenDoubleRounds()
    ensures Rounds(S0, 10) == S20
  {
    hide InnerBlock, Rounds;
    RoundsStart(S0);
    RoundsStep(S0, 0);
    DoubleRound1();
    RoundsStep(S0, 1);
    DoubleRound2();
    RoundsStep(S0, 2);
    DoubleRound3();
    RoundsStep(S0, 3);
    DoubleRound4();
    RoundsStep(S0, 4);
    DoubleRound5();
    RoundsStep(S0, 5);
    DoubleRound6();
    RoundsStep(S0, 6);
    DoubleRound7();
    RoundsStep(S0, 7);
    DoubleRound8();
    RoundsStep(S0, 8);
    DoubleRound9();
    RoundsStep(S0, 9);
    DoubleRound10();
  }

  lemma KeyWords0()
    ensures WordAt(KEY0, 0) == S0[4] && WordAt(KEY0, 1) == S0[5]
    ensures WordAt(KEY0, 2) == S0[6] && WordAt(KEY0, 3) == S0[7]
  {}

  lemma KeyWords1()
    ensures WordAt(KEY1, 0) == S0[8] && WordAt(KEY1, 1) == S0[9]
    ensures WordAt(KEY1, 2) == S0[10] && WordAt(KEY1, 3) == S0[11]
  {}

  lemma WordsOfSum(a: seq<Byte>, b: seq<Byte>, i: nat)
    requires |a| == 16 && 4 * i + 4 <= |b|
    ensures WordAt(a + b, 4 + i) == WordAt(b, i)
    ensures i < 4 ==> WordAt(a + b, i) == WordAt(a, i)
  {
    hide FromBytes;
  }

  lemma NonceWords()
    ensures WordAt(NONCE, 0) == S0[13] && WordAt(NONCE, 1) == S0[14] && WordAt(NONCE, 2) == S0[15]
  {}

  lemma StartVector()
    ensures StartState(KEY0 + KEY1, NONCE, 1) == S0
  {
    hide WordAt;
    KeyWords0();
    KeyWords1();
    NonceWords();
    WordsOfSum(KEY0, KEY1, 0);
    WordsOfSum(KEY0, KEY1, 1);
    WordsOfSum(KEY0, KEY1, 2);
    WordsOfSum(KEY0, KEY1, 3);
    SixteenEqual(StartState(KEY0 + KEY1, NONCE, 1), S0);
  }

  /** Word k of the sum of two states makes bytes 4 * j to 4 * j + 3 of the row. */
  predicate WordGiven(w: State, s: State, k: nat, row: seq<Byte>, j: nat)
    requires k < 16 && j < 4 && |row| == 16
  {
    var b := WordBytes(Plus(w[k], s[k]));
    && b[0] == row[4 * j] && b[1] == row[4 * j + 1] && b[2] == row[4 * j + 2] && b[3] == row[4 * j + 3]
  }

  lemma Words0()
    ensures WordGiven(S20, S0, 0, ROW0, 0) && WordGiven(S20, S0, 1, ROW0, 1)
    ensures WordGiven(S20, S0, 2, ROW0, 2) && WordGiven(S20, S0, 3, ROW0, 3)
  {}

  lemma Words1()
    ensures WordGiven(S20, S0, 4, ROW1, 0) && WordGiven(S20, S0, 5, ROW1, 1)
    ensures WordGiven(S20, S0, 6, ROW1, 2) && WordGiven(S20, S0, 7, ROW1, 3)
  {}

  lemma Words2()
    ensures WordGiven(S20, S0, 8, ROW2, 0) && WordGiven(S20, S0, 9, ROW2, 1)
    ensures WordGiven(S20, S0, 10, ROW2, 2) && WordGiven(S20, S0, 11, ROW2, 3)
  {}

  lemma Words3()
    ensures WordGiven(S20, S0, 12, ROW3, 0) && WordGiven(S20, S0, 13, ROW3, 1)
    ensures WordGiven(S20, S0, 14, ROW3, 2) && WordGiven(S20, S0, 15, ROW3, 3)
  {}

  lemma RowOf(w: State, s: State, r: nat, row: seq<Byte>)
    requires r < 4 && |row| == 16 && Rounds(s, 10) == w
    requires WordGiven(w, s, 4 * r, row, 0) && WordGiven(w, s, 4 * r + 1, row, 1)
    requires WordGiven(w, s, 4 * r + 2, row, 2) && WordGiven(w, s, 4 * r + 3, row, 3)
    ensures KeyBlock(s)[16 * r..16 * r + 16] == row
  {
    hide Rounds, WordBytes, Plus, KeyBlock;
    KeyBlockAt(s, 4 * r);
    KeyBlockAt(s, 4 * r + 1);
    KeyBlockAt(s, 4 * r + 2);
    KeyBlockAt(s, 4 * r + 3);
  }

  /** The key stream block for key 00..1f and counter 1. */
  lemma BlockVector()
    ensures KeyBlock(StartState(KEY0 + KEY1, NONCE, 1)) == ROW0 + ROW1 + ROW2 + ROW3
  {
    hide Rounds, KeyBlock, StartState, WordGiven;
    StartVector();
    TenDoubleRounds();
    Words0();
    Words1();
    Words2();
    Words3();
    RowOf(S20, S0, 0, ROW0);
    RowOf(S20, S0, 1, ROW1);
    RowOf(S20, S0, 2, ROW2);
    RowOf(S20, S0, 3, ROW3);
    FourRows(KeyBlock(S0), ROW0, ROW1, ROW2, ROW3);
  }

  lemma FourRows(b: seq<Byte>, r0: seq<Byte>, r1: seq<Byte>, r2: seq<Byte>, r3: seq<Byte>)
    requires |b| == 64 && b[..16] == r0 && b[16..32] == r1 && b[32..48] == r2 && b[48..64] == r3
    ensures b == r0 + r1 + r2 + r3
  {}
}
