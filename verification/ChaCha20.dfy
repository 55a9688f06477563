/** The ChaCha20 stream cipher (RFC 7539): the block function, and a context that is fed pieces of
    any size. */
module ChaCha20 {
  import opened BlockCipher
  import opened Numbers

  type Word = bv32

  type State = s: seq<Word> | |s| == 16 witness seq(16, i => 0)

  // ----- the block function -----

  predicate Amount(n: nat) { n == 16 || n == 12 || n == 8 || n == 7 }

  /** ROTL32, by one of the four amounts in use. */
  function RotateLeft(x: Word, n: nat): (r: Word)
    requires Amount(n)
  {
    if n == 16 then (x << (16 as bv6)) | (x >> (16 as bv6))
    else if n == 12 then (x << (12 as bv6)) | (x >> (20 as bv6))
    else if n == 8 then (x << (8 as bv6)) | (x >> (24 as bv6))
    else (x << (7 as bv6)) | (x >> (25 as bv6))
  }

  function RotateRight(x: Word, n: nat): (r: Word)
    requires Amount(n)
  {
    if n == 16 then (x >> (16 as bv6)) | (x << (16 as bv6))
    else if n == 12 then (x >> (12 as bv6)) | (x << (20 as bv6))
    else if n == 8 then (x >> (8 as bv6)) | (x << (24 as bv6))
    else (x >> (7 as bv6)) | (x << (25 as bv6))
  }

  function Plus(x: Word, y: Word): (r: Word) { x + y }

  function Minus(x: Word, y: Word): (r: Word) { x - y }

  function Mix(x: Word, y: Word): (r: Word) { x ^ y }

  datatype Quarter = Quarter(a: Word, b: Word, c: Word, d: Word)

  /** Two of the four steps of a quarter round, which differ from the other two only in the amounts of
      the rotations. */
  function HalfQuarter(q: Quarter, m: nat, n: nat): (r: Quarter)
    requires Amount(m) && Amount(n)
  {
    var a := Plus(q.a, q.b);
    var d := RotateLeft(Mix(q.d, a), m);
    var c := Plus(q.c, d);
    Quarter(a, RotateLeft(Mix(q.b, c), n), c, d)
  }

  /** Half a quarter round on four places of the state. */
  function HalfRound(s: State, a: nat, b: nat, c: nat, d: nat, m: nat, n: nat): (r: State)
    requires a < 16 && b < 16 && c < 16 && d < 16 && Amount(m) && Amount(n)
  {
    var q := HalfQuarter(Quarter(s[a], s[b], s[c], s[d]), m, n);
    s[a := q.a][b := q.b][c := q.c][d := q.d]
  }

  function QuarterRound(s: State, a: nat, b: nat, c: nat, d: nat): (r: State)
    requires a < 16 && b < 16 && c < 16 && d < 16
  {
    HalfRound(HalfRound(s, a, b, c, d, 16, 12), a, b, c, d, 8, 7)
  }

  /** A column round and a diagonal round. */
  function InnerBlock(s: State): (r: State)
  {
    Inner(s, 8)
  }

  /** After the first k of the eight quarter rounds. */
  function Inner(s: State, k: nat): (r: State)
  {
    if k == 0 then s
    else if k == 1 then QuarterRound(Inner(s, 0), 0, 4, 8, 12)
    else if k == 2 then QuarterRound(Inner(s, 1), 1, 5, 9, 13)
    else if k == 3 then QuarterRound(Inner(s, 2), 2, 6, 10, 14)
    else if k == 4 then QuarterRound(Inner(s, 3), 3, 7, 11, 15)
    else if k == 5 then QuarterRound(Inner(s, 4), 0, 5, 10, 15)
    else if k == 6 then QuarterRound(Inner(s, 5), 1, 6, 11, 12)
    else if k == 7 then QuarterRound(Inner(s, 6), 2, 7, 8, 13)
    else QuarterRound(Inner(s, 7), 3, 4, 9, 14)
  }

  function Rounds(s: State, n: nat): (r: State)
  {
    if n == 0 then s else InnerBlock(Rounds(s, n - 1))
  }

  function ByteOf(w: Word, shift: bv6): (b: Byte)
    requires shift <= 32
  {
    ((w >> shift) & 0xFF) as bv8
  }

  function WordBytes(w: Word): (s: seq<Byte>)
    ensures |s| == 4
  {
    [ByteOf(w, 0), ByteOf(w, 8), ByteOf(w, 16), ByteOf(w, 24)]
  }

  /** Sixty-four bytes of key stream: the state after ten double rounds, plus the state before. */
  function KeyBlock(s: State): (k: seq<Byte>)
    ensures |k| == 64
  {
    var w := Rounds(s, 10);
    seq(64, i requires 0 <= i < 64 => WordBytes(Plus(w[i / 4], s[i / 4]))[i % 4])
  }

  // ----- the rounds are a permutation -----

  function HalfBack(q: Quarter, m: nat, n: nat): (r: Quarter)
    requires Amount(m) && Amount(n)
  {
    var b := Mix(RotateRight(q.b, n), q.c);
    var c := Minus(q.c, q.d);
    var d := Mix(RotateRight(q.d, m), q.a);
    Quarter(Minus(q.a, b), b, c, d)
  }

  lemma RotateBack(x: Word, n: nat)
    requires Amount(n)
    ensures RotateRight(RotateLeft(x, n), n) == x
  {
    hide RotateLeft, RotateRight;
    if n == 16 { RotateBack16(x); } else if n == 12 { RotateBack12(x); }
    else if n == 8 { RotateBack8(x); } else { RotateBack7(x); }
  }

  lemma RotateBack16(x: Word)
    ensures RotateRight(RotateLeft(x, 16), 16) == x
  {}

  lemma RotateBack12(x: Word)
    ensures RotateRight(RotateLeft(x, 12), 12) == x
  {}

  lemma RotateBack8(x: Word)
    ensures RotateRight(RotateLeft(x, 8), 8) == x
  {}

  lemma RotateBack7(x: Word)
    ensures RotateRight(RotateLeft(x, 7), 7) == x
  {}

  lemma MixBack(x: Word, y: Word)
    ensures Mix(Mix(x, y), y) == x
  {}

  lemma PlusBack(x: Word, y: Word)
    ensures Minus(Plus(x, y), y) == x
  {
    hide Minus;
    SumBack(x, y);
  }

  lemma SumBack(x: Word, y: Word)
    ensures Minus(x + y, y) == x
  {}

  lemma HalfBackIs(q: Quarter, m: nat, n: nat)
    requires Amount(m) && Amount(n)
    ensures HalfBack(HalfQuarter(q, m, n), m, n) == q
  {
    hide RotateLeft, RotateRight, Plus, Minus, Mix;
    var a := Plus(q.a, q.b);
    var d := RotateLeft(Mix(q.d, a), m);
    var c := Plus(q.c, d);
    RotateBack(Mix(q.d, a), m);
    RotateBack(Mix(q.b, c), n);
    MixBack(q.d, a);
    MixBack(q.b, c);
    PlusBack(q.c, d);
    PlusBack(q.a, q.b);
  }

  lemma HalfRoundInjective(s: State, t: State, a: nat, b: nat, c: nat, d: nat, m: nat, n: nat)
    requires a < 16 && b < 16 && c < 16 && d < 16
    requires a != b && a != c && a != d && b != c && b != d && c != d
    requires Amount(m) && Amount(n) && HalfRound(s, a, b, c, d, m, n) == HalfRound(t, a, b, c, d, m, n)
    ensures s == t
  {
    hide HalfBack, HalfQuarter;
    var p, q := Quarter(s[a], s[b], s[c], s[d]), Quarter(t[a], t[b], t[c], t[d]);
    HalfBackIs(p, m, n);
    HalfBackIs(q, m, n);
    PlacesOf(s, a, b, c, d, HalfQuarter(p, m, n));
    PlacesOf(t, a, b, c, d, HalfQuarter(q, m, n));
    assert p == q;
    forall i | 0 <= i < 16 ensures s[i] == t[i] {
      if i != a && i != b && i != c && i != d {
        assert s[i] == HalfRound(s, a, b, c, d, m, n)[i];
      }
    }
  }

  lemma PlacesOf(s: State, a: nat, b: nat, c: nat, d: nat, q: Quarter)
    requires a < 16 && b < 16 && c < 16 && d < 16
    requires a != b && a != c && a != d && b != c && b != d && c != d
    ensures var t := s[a := q.a][b := q.b][c := q.c][d := q.d];
      && q == Quarter(t[a], t[b], t[c], t[d])
      && forall i :: 0 <= i < 16 && i != a && i != b && i != c && i != d ==> t[i] == s[i]
  {}

  lemma QuarterInjective(s: State, t: State, a: nat, b: nat, c: nat, d: nat)
    requires a < 16 && b < 16 && c < 16 && d < 16
    requires a != b && a != c && a != d && b != c && b != d && c != d
    requires QuarterRound(s, a, b, c, d) == QuarterRound(t, a, b, c, d)
    ensures s == t
  {
    hide HalfRound;
    HalfRoundInjective(HalfRound(s, a, b, c, d, 16, 12), HalfRound(t, a, b, c, d, 16, 12), a, b, c, d, 8, 7);
    HalfRoundInjective(s, t, a, b, c, d, 16, 12);
  }

  lemma InnerInjective(s: State, t: State, k: nat)
    requires k <= 8 && Inner(s, k) == Inner(t, k)
    ensures s == t
  {
    hide QuarterRound;
    if k > 0 {
      var x, y := Inner(s, k - 1), Inner(t, k - 1);
      if k == 1 { QuarterInjective(x, y, 0, 4, 8, 12); }
      else if k == 2 { QuarterInjective(x, y, 1, 5, 9, 13); }
      else if k == 3 { QuarterInjective(x, y, 2, 6, 10, 14); }
      else if k == 4 { QuarterInjective(x, y, 3, 7, 11, 15); }
      else if k == 5 { QuarterInjective(x, y, 0, 5, 10, 15); }
      else if k == 6 { QuarterInjective(x, y, 1, 6, 11, 12); }
      else if k == 7 { QuarterInjective(x, y, 2, 7, 8, 13); }
      else { QuarterInjective(x, y, 3, 4, 9, 14); }
      InnerInjective(s, t, k - 1);
    }
  }

  /** The rounds lose nothing: different states stay different. */
  lemma {:induction false} RoundsInjective(s: State, t: State, n: nat)
    requires Rounds(s, n) == Rounds(t, n)
    ensures s == t
  {
    hide Inner;
    if n > 0 {
      InnerInjective(Rounds(s, n - 1), Rounds(t, n - 1), 8);
      RoundsInjective(s, t, n - 1);
    }
  }

  // ----- the block routine, in place -----

  /** chacha20_quarter_round. */
  method QuarterRoundInPlace(state: array<Word>, a: nat, b: nat, c: nat, d: nat)
    requires state.Length == 16 && a < 16 && b < 16 && c < 16 && d < 16
    requires a != b && a != c && a != d && b != c && b != d && c != d
    modifies state
    ensures state[..] == QuarterRound(old(state[..]), a, b, c, d)
  {
    hide HalfRound;
    HalfRoundInPlace(state, a, b, c, d, 16, 12);
    HalfRoundInPlace(state, a, b, c, d, 8, 7);
  }

  /** Two of its four lines. */
  method HalfRoundInPlace(state: array<Word>, a: nat, b: nat, c: nat, d: nat, m: nat, n: nat)
    requires state.Length == 16 && a < 16 && b < 16 && c < 16 && d < 16
    requires a != b && a != c && a != d && b != c && b != d && c != d
    requires Amount(m) && Amount(n)
    modifies state
    ensures state[..] == HalfRound(old(state[..]), a, b, c, d, m, n)
  {
    hide RotateLeft, Plus, Mix;
    state[a] := Plus(state[a], state[b]);
    state[d] := Mix(state[d], state[a]);
    state[d] := RotateLeft(state[d], m);
    state[c] := Plus(state[c], state[d]);
    state[b] := Mix(state[b], state[c]);
    state[b] := RotateLeft(state[b], n);
  }

  /** chacha20_inner_block. */
  method InnerBlockInPlace(state: array<Word>)
    requires state.Length == 16
    modifies state
    ensures state[..] == InnerBlock(old(state[..]))
  {
    hide QuarterRound;
    ghost var s: State := state[..];
    QuarterRoundInPlace(state, 0, 4, 8, 12);
    assert state[..] == Inner(s, 1);
    QuarterRoundInPlace(state, 1, 5, 9, 13);
    assert state[..] == Inner(s, 2);
    QuarterRoundInPlace(state, 2, 6, 10, 14);
    assert state[..] == Inner(s, 3);
    QuarterRoundInPlace(state, 3, 7, 11, 15);
    assert state[..] == Inner(s, 4);
    QuarterRoundInPlace(state, 0, 5, 10, 15);
    assert state[..] == Inner(s, 5);
    QuarterRoundInPlace(state, 1, 6, 11, 12);
    assert state[..] == Inner(s, 6);
    QuarterRoundInPlace(state, 2, 7, 8, 13);
    assert state[..] == Inner(s, 7);
    QuarterRoundInPlace(state, 3, 4, 9, 14);
    assert state[..] == Inner(s, 8);
  }

  /** chacha20_block. */
  method Block64(initial: State, keystream: array<Byte>)
    requires keystream.Length == 64
    modifies keystream
    ensures keystream[..] == KeyBlock(initial)
  {
    hide InnerBlock, WordBytes, Plus, Rounds, KeyBlock;
    var working := new Word[16](i requires 0 <= i < 16 => initial[i]);
    assert working[..] == initial;
    RoundsStart(initial);
    for i := 0 to 10
      invariant working[..] == Rounds(initial, i)
    {
      RoundsStep(initial, i);
      InnerBlockInPlace(working);
    }
    ghost var w := working[..];
    for i := 0 to 16
      invariant forall j :: 0 <= j < i ==> working[j] == Plus(w[j], initial[j])
      invariant forall j :: i <= j < 16 ==> working[j] == w[j]
    {
      working[i] := Plus(working[i], initial[i]);
    }
    ghost var sum := working[..];
    for i := 0 to 16
      invariant working[..] == sum
      invariant forall j :: 0 <= j < 4 * i ==> keystream[j] == KeyBlock(initial)[j]
    {
      KeyBlockAt(initial, i);
      assert sum[i] == working[i];
      PutWord(keystream, 4 * i, working[i]);
    }
  }

  lemma KeyBlockAt(s: State, i: nat)
    requires i < 16
    ensures forall j :: 4 * i <= j < 4 * i + 4 ==> KeyBlock(s)[j] == WordBytes(Plus(Rounds(s, 10)[i], s[i]))[j - 4 * i]
  {
    hide WordBytes, Plus, Rounds;
    forall j | 4 * i <= j < 4 * i + 4
      ensures KeyBlock(s)[j] == WordBytes(Plus(Rounds(s, 10)[i], s[i]))[j - 4 * i]
    {
      assert j / 4 == i && j % 4 == j - 4 * i;
    }
  }

  lemma RoundsStart(s: State)
    ensures Rounds(s, 0) == s
  {}

  lemma RoundsStep(s: State, n: nat)
    ensures Rounds(s, n + 1) == InnerBlock(Rounds(s, n))
  {
    hide InnerBlock;
  }

  method PutWord(keystream: array<Byte>, offset: nat, w: Word)
    requires offset + 4 <= keystream.Length
    modifies keystream
    ensures forall j :: offset <= j < offset + 4 ==> keystream[j] == WordBytes(w)[j - offset]
    ensures forall j :: 0 <= j < keystream.Length && (j < offset || offset + 4 <= j) ==>
              keystream[j] == old(keystream[j])
  {
    hide ByteOf;
    keystream[offset] := ByteOf(w, 0);
    keystream[offset + 1] := ByteOf(w, 8);
    keystream[offset + 2] := ByteOf(w, 16);
    keystream[offset + 3] := ByteOf(w, 24);
  }

  // ----- the stream -----

  /** The state whose counter has been incremented i times; the counter wraps at 32 bits. */
  function Advanced(s: State, i: nat): (r: State)
  {
    if i == 0 then s else
      var t := Advanced(s, i - 1);
      t[12 := Plus(t[12], 1)]
  }

  /** Byte k of the key stream. */
  function KeyByte(s: State, k: nat): (b: Byte)
  {
    KeyBlock(Advanced(s, k / 64))[k % 64]
  }

  /** data from position k of the stream on, under the key stream. */
  function XorStream(s: State, k: nat, data: seq<Byte>): (r: seq<Byte>)
    ensures |r| == |data|
    ensures forall i :: 0 <= i < |data| ==> r[i] == data[i] ^ KeyByte(s, k + i)
  {
    seq(|data|, i requires 0 <= i < |data| => data[i] ^ KeyByte(s, k + i))
  }

  /** Cutting the data anywhere makes no difference. */
  lemma XorStreamAppend(s: State, k: nat, a: seq<Byte>, b: seq<Byte>)
    ensures XorStream(s, k, a + b) == XorStream(s, k, a) + XorStream(s, k + |a|, b)
  {
    hide KeyByte;
  }

  lemma XorStreamTwice(s: State, k: nat, data: seq<Byte>)
    ensures XorStream(s, k, XorStream(s, k, data)) == data
  {
    hide KeyByte;
    var r := XorStream(s, k, data);
    forall i | 0 <= i < |data| ensures r[i] ^ KeyByte(s, k + i) == data[i] {
      ByteXorTwice(data[i], KeyByte(s, k + i));
    }
  }

  function FromBytes(a: Byte, b: Byte, c: Byte, d: Byte): (w: Word)
  {
    (a as bv32) | ((b as bv32) << (8 as bv6)) | ((c as bv32) << (16 as bv6)) | ((d as bv32) << (24 as bv6))
  }

  /** Word i of a little-endian byte string. */
  function WordAt(b: seq<Byte>, i: nat): (w: Word)
    requires 4 * i + 4 <= |b|
  {
    FromBytes(b[4 * i], b[4 * i + 1], b[4 * i + 2], b[4 * i + 3])
  }

  /** Constants, key, counter, nonce. */
  function StartState(key: seq<Byte>, nonce: seq<Byte>, counter: Word): (s: State)
    requires |key| == 32 && |nonce| == 12
  {
    [0x61707865, 0x3320646e, 0x79622d32, 0x6b206574,
     WordAt(key, 0), WordAt(key, 1), WordAt(key, 2), WordAt(key, 3),
     WordAt(key, 4), WordAt(key, 5), WordAt(key, 6), WordAt(key, 7),
     counter, WordAt(nonce, 0), WordAt(nonce, 1), WordAt(nonce, 2)]
  }

  /** How many bytes of the current key block are used: all of them at a block boundary. */
  function Used(pos: nat): (n: nat)
    ensures 1 <= n <= 64
  {
    if pos % 64 == 0 then 64 else pos % 64
  }

  class Context {
    const state: array<Word>
    const keystream8: array<Byte>
    var keystreamBytesUsed: nat
    /** The state the stream started with, and how many bytes it has been used for. */
    ghost var origin: State
    ghost var pos: nat

    ghost predicate Valid()
      reads this, state, keystream8
    {
      && state.Length == 16 && keystream8.Length == 64
      && keystreamBytesUsed == Used(pos)
      && state[..] == Advanced(origin, (pos + 63) / 64)
      && (pos % 64 != 0 ==> keystream8[..] == KeyBlock(Advanced(origin, pos / 64)))
    }

    /** init and setkey. */
    constructor (key: seq<Byte>)
      requires |key| == 32
      ensures Valid() && pos == 0 && fresh(state) && fresh(keystream8)
      ensures state[..] == StartState(key, Fill(12, 0), 0)
    {
      hide WordAt;
      var s := StartState(key, Fill(12, 0), 0);
      ZeroWords();
      state := new Word[16](i requires 0 <= i < 16 => s[i]);
      keystream8 := new Byte[64](_ => 0);
      keystreamBytesUsed := 64;
      origin, pos := s, 0;
      new;
      assert state[..] == s;
    }

    /** mbedtls_chacha20_starts. */
    method Starts(nonce: seq<Byte>, counter: Word)
      requires Valid() && |nonce| == 12
      modifies this, state, keystream8
      ensures Valid() && pos == 0 && origin == state[..]
      ensures origin[..12] == old(state[..12]) && origin[12] == counter
      ensures origin[13..] == [WordAt(nonce, 0), WordAt(nonce, 1), WordAt(nonce, 2)]
    {
      hide WordAt;
      state[12] := counter;
      state[13] := WordAt(nonce, 0);
      state[14] := WordAt(nonce, 1);
      state[15] := WordAt(nonce, 2);
      keystreamBytesUsed := 64;
      origin, pos := state[..], 0;
    }

    /** mbedtls_chacha20_update: leftover key bytes first, then whole blocks, then a partial block. */
    method Update(input: seq<Byte>, output: array<Byte>)
      requires Valid() && |input| <= output.Length && output != keystream8
      modifies this`keystreamBytesUsed, this`pos, state, keystream8, output
      ensures Valid() && pos == old(pos) + |input|
      ensures output[..|input|] == XorStream(origin, old(pos), input)
      ensures forall j :: |input| <= j < output.Length ==> output[j] == old(output[j])
    {
      hide KeyByte, KeyBlock, Advanced;
      hide Context.Valid;
      ghost var p0 := pos;
      var offset := UseLeftover(input, output);
      offset := WholeBlocks(input, output, offset, p0);
      if offset < |input| {
        LastPart(input, output, offset, p0);
      }
    }

    /** The first loop: key bytes left over from before. */
    method UseLeftover(input: seq<Byte>, output: array<Byte>) returns (offset: nat)
      requires Valid() && |input| <= output.Length && output != keystream8
      modifies this`keystreamBytesUsed, this`pos, output
      ensures Valid() && offset <= |input| && pos == old(pos) + offset
      ensures offset < |input| ==> pos % 64 == 0
      ensures forall j :: 0 <= j < offset ==> output[j] == input[j] ^ KeyByte(origin, old(pos) + j)
      ensures forall j :: |input| <= j < output.Length ==> output[j] == old(output[j])
    {
      hide KeyByte, KeyBlock, Advanced;
      hide Context.Valid;
      offset := 0;
      ghost var p0 := pos;
      while offset < |input| && keystreamBytesUsed < 64
        invariant offset <= |input| && Valid() && pos == p0 + offset
        invariant forall j :: 0 <= j < offset ==> output[j] == input[j] ^ KeyByte(origin, p0 + j)
        invariant forall j :: |input| <= j < output.Length ==> output[j] == old(output[j])
      {
        LeftoverByte(input[offset], output, offset);
        offset := offset + 1;
      }
      AtBoundary();
    }

    method LeftoverByte(b: Byte, output: array<Byte>, at: nat)
      requires Valid() && keystreamBytesUsed < 64 && at < output.Length && output != keystream8
      modifies this`keystreamBytesUsed, this`pos, output
      ensures Valid() && pos == old(pos) + 1
      ensures output[at] == b ^ KeyByte(origin, old(pos))
      ensures forall j :: 0 <= j < output.Length && j != at ==> output[j] == old(output[j])
    {
      hide KeyByte, KeyBlock, Advanced;
      KeyByteIs(origin, pos);
      output[at] := b ^ keystream8[keystreamBytesUsed];
      keystreamBytesUsed := keystreamBytesUsed + 1;
      NextPos(pos);
      pos := pos + 1;
    }

    lemma AtBoundary()
      requires Valid()
      ensures keystreamBytesUsed <= 64 && (keystreamBytesUsed == 64 <==> pos % 64 == 0)
    {}

    /** The second loop. */
    method WholeBlocks(input: seq<Byte>, output: array<Byte>, start: nat, ghost p0: nat) returns (offset: nat)
      requires Valid() && start <= |input| <= output.Length && output != keystream8
      requires pos == p0 + start && (start < |input| ==> pos % 64 == 0)
      requires forall j :: 0 <= j < start ==> output[j] == input[j] ^ KeyByte(origin, p0 + j)
      modifies this`keystreamBytesUsed, this`pos, state, keystream8, output
      ensures Valid() && start <= offset <= |input| < offset + 64 && pos == p0 + offset
      ensures offset < |input| ==> pos % 64 == 0
      ensures forall j :: 0 <= j < offset ==> output[j] == input[j] ^ KeyByte(origin, p0 + j)
      ensures forall j :: |input| <= j < output.Length ==> output[j] == old(output[j])
    {
      hide KeyByte, KeyBlock, Advanced;
      hide Context.Valid;
      offset := start;
      while |input| - offset >= 64
        invariant start <= offset <= |input| && Valid() && pos == p0 + offset
        invariant offset < |input| ==> pos % 64 == 0
        invariant forall j :: 0 <= j < offset ==> output[j] == input[j] ^ KeyByte(origin, p0 + j)
        invariant forall j :: |input| <= j < output.Length ==> output[j] == old(output[j])
      {
        OneBlock(input, output, offset, 64);
        offset := offset + 64;
      }
    }

    /** The rest, shorter than a block. */
    method LastPart(input: seq<Byte>, output: array<Byte>, offset: nat, ghost p0: nat)
      requires Valid() && offset < |input| <= output.Length && |input| < offset + 64 && output != keystream8
      requires pos == p0 + offset && pos % 64 == 0
      requires forall j :: 0 <= j < offset ==> output[j] == input[j] ^ KeyByte(origin, p0 + j)
      modifies this`keystreamBytesUsed, this`pos, state, keystream8, output
      ensures Valid() && pos == p0 + |input|
      ensures forall j :: 0 <= j < |input| ==> output[j] == input[j] ^ KeyByte(origin, p0 + j)
      ensures forall j :: |input| <= j < output.Length ==> output[j] == old(output[j])
    {
      hide KeyByte, KeyBlock, Advanced;
      hide Context.Valid;
      OneBlock(input, output, offset, |input| - offset);
    }

    /** A new key block, of which n bytes are used. */
    method OneBlock(input: seq<Byte>, output: array<Byte>, offset: nat, n: nat)
      requires Valid() && 0 < n <= 64 && offset + n <= |input| <= output.Length && output != keystream8
      requires pos % 64 == 0
      modifies this`keystreamBytesUsed, this`pos, state, keystream8, output
      ensures Valid() && pos == old(pos) + n
      ensures forall j :: offset <= j < offset + n ==> output[j] == input[j] ^ KeyByte(origin, old(pos) + (j - offset))
      ensures forall j :: 0 <= j < output.Length && (j < offset || offset + n <= j) ==> output[j] == old(output[j])
    {
      hide KeyByte, KeyBlock, Advanced;
      NextKeyBlock();
      XorBlock(input[offset..offset + n], output, offset);
      if n < 64 { keystreamBytesUsed := n; }
      BlockPos(pos, n);
      pos := pos + n;
    }

    /** Generate the next key block and count it. */
    method NextKeyBlock()
      requires Valid() && pos % 64 == 0
      modifies state, keystream8
      ensures state.Length == 16 && keystream8.Length == 64
      ensures keystream8[..] == KeyBlock(Advanced(origin, pos / 64))
      ensures state[..] == Advanced(origin, pos / 64 + 1)
    {
      hide KeyBlock, Advanced, Plus;
      BlockPos(pos, 0);
      AdvancedStep(origin, pos / 64);
      Block64(state[..], keystream8);
      state[12] := Plus(state[12], 1);
    }

    /** Put a piece of text under the current key block. */
    method XorBlock(part: seq<Byte>, output: array<Byte>, at: nat)
      requires |part| <= 64 && at + |part| <= output.Length && output != keystream8 && pos % 64 == 0
      requires keystream8.Length == 64 && keystream8[..] == KeyBlock(Advanced(origin, pos / 64))
      modifies output
      ensures forall j :: at <= j < at + |part| ==> output[j] == part[j - at] ^ KeyByte(origin, pos + (j - at))
      ensures forall j :: 0 <= j < output.Length && (j < at || at + |part| <= j) ==> output[j] == old(output[j])
    {
      hide KeyBlock, Advanced, KeyByte;
      for i := 0 to |part|
        invariant forall j :: at <= j < at + i ==> output[j] == part[j - at] ^ KeyByte(origin, pos + (j - at))
        invariant forall j :: 0 <= j < output.Length && (j < at || at + i <= j) ==> output[j] == old(output[j])
      {
        KeyByteIs(origin, pos + i);
        BlockPos(pos, i);
        output[at + i] := part[i] ^ keystream8[i];
      }
    }
  }

  function Fill(n: nat, b: Byte): (s: seq<Byte>)
    ensures |s| == n
  {
    seq(n, _ => b)
  }

  lemma ZeroWords()
    ensures forall s: State :: Advanced(s, 0) == s
  {}

  lemma AdvancedStep(s: State, i: nat)
    ensures Advanced(s, i + 1) == Advanced(s, i)[12 := Plus(Advanced(s, i)[12], 1)]
  {
    hide Plus;
  }

  lemma KeyByteIs(s: State, k: nat)
    ensures KeyByte(s, k) == KeyBlock(Advanced(s, k / 64))[k % 64]
  {
    hide KeyBlock, Advanced;
  }

  lemma NextPos(pos: nat)
    ensures pos % 64 != 0 ==> (pos + 64) / 64 == (pos + 63) / 64 && Used(pos + 1) == Used(pos) + 1
    ensures pos % 64 != 0 && (pos + 1) % 64 != 0 ==> (pos + 1) / 64 == pos / 64
  {
    var q, r := pos / 64, pos % 64;
    DivModUnique(pos + 64, 64, q + 1, r);
    if r > 0 {
      DivModUnique(pos + 63, 64, q + 1, r - 1);
      if r < 63 { DivModUnique(pos + 1, 64, q, r + 1); } else { DivModUnique(pos + 1, 64, q + 1, 0); }
    }
  }

  lemma BlockPos(pos: nat, n: nat)
    requires pos % 64 == 0 && n <= 64
    ensures (pos + 63) / 64 == pos / 64
    ensures n > 0 ==> (pos + n + 63) / 64 == pos / 64 + 1 && Used(pos + n) == n
    ensures n < 64 ==> (pos + n) / 64 == pos / 64 && (pos + n) % 64 == n
    ensures n == 64 ==> (pos + n) % 64 == 0
  {
    var q := pos / 64;
    DivModUnique(pos + 63, 64, q, 63);
    if n > 0 { DivModUnique(pos + n + 63, 64, q + 1, n - 1); }
    if n < 64 { DivModUnique(pos + n, 64, q, n); } else { DivModUnique(pos + n, 64, q + 1, 0); }
  }
}
