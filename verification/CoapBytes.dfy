/** The option bytes as numbers (section 3.1 of RFC 7252): what the encoder writes for a list, and
    which bytes the parser takes for which options. */
module CoapBytes {
  import opened OptionOrder
  import opened CoapWire
  import opened CoapCodec

  // ----- the encoder -----

  /** How many bytes a delta or length takes besides its four bits in the header. */
  function Size(x: U16): (n: nat)
  {
    if x < 13 then 0 else if x < 269 then 1 else 2
  }

  /** Two bytes in network order. */
  function Pair(hi: Byte, lo: Byte): (n: nat) { hi * 256 + lo }

  /** The four bits and the bytes from i on stand for x. */
  predicate Stands(b: seq<Byte>, bits: nat, i: nat, x: U16)
  {
    if x < 13 then bits == x
    else if x < 269 then bits == 13 && i < |b| && b[i] == x - 13
    else bits == 14 && i + 1 < |b| && Pair(b[i], b[i + 1]) == x - 269
  }

  function OptionSize(o: Opt, last: U16): (n: nat)
  {
    1 + Size((o.no - last) % 65536) + Size(|o.val|) + |o.val|
  }

  /** b is the option o behind the number last: the header, whose upper four bits belong to the delta and
      lower four to the length, the further bytes of both in this order, and the value. */
  predicate Laid(b: seq<Byte>, o: Opt, last: U16)
  {
    var d, l := (o.no - last) % 65536, |o.val|;
    var i := 1 + Size(d);
    var j := i + Size(l);
    && |b| == j + l
    && Stands(b, b[0] / 16, 1, d) && Stands(b, b[0] % 16, i, l)
    && b[j..] == o.val
  }

  /** b is the options of s one after the other. */
  predicate Layout(b: seq<Byte>, s: seq<Opt>, last: U16)
    decreases |s|
  {
    if s == [] then b == []
    else
      var n := OptionSize(s[0], last);
      n <= |b| && Laid(b[..n], s[0], last) && Layout(b[n..], s[1..], s[0].no)
  }

  /** What the encoder writes for one option is laid out in this way. */
  lemma OptionBytes(o: Opt, last: U16)
    ensures Laid(RawBytes(RawFor(o, last)), o, last)
  {
    var r := RawFor(o, last);
    var d, l: U16 := (o.no - last) % 65536, |o.val|;
    FieldNumbers(d);
    FieldNumbers(l);
    hide FieldOf, Nibble, Extra, Stands;
    FourPieces([Header(r)], Extra(r.delta), Extra(r.len), r.val);
    StandsAt(RawBytes(r), d, 1);
    StandsAt(RawBytes(r), l, 1 + Size(d));
  }

  /** Only one string of bytes is. */
  lemma LaidUnique(a: seq<Byte>, b: seq<Byte>, o: Opt, last: U16)
    requires Laid(a, o, last) && Laid(b, o, last)
    ensures a == b
  {
    var d, l: U16 := (o.no - last) % 65536, |o.val|;
    var i := 1 + Size(d);
    var j := i + Size(l);
    StandsUnique(a, b, a[0] / 16, b[0] / 16, 1, d);
    StandsUnique(a, b, a[0] % 16, b[0] % 16, i, l);
    hide Stands, Size;
    SameHeader(a[0], b[0]);
    SplitFour(a, 1, i, j, |a|);
    SplitFour(b, 1, i, j, |b|);
    assert a[..1] == b[..1] && a[..|a|] == a && b[..|b|] == b;
  }

  lemma SameHeader(a: Byte, b: Byte)
    requires a / 16 == b / 16 && a % 16 == b % 16
    ensures a == b
  {}

  lemma StandsUnique(a: seq<Byte>, b: seq<Byte>, m: nat, n: nat, i: nat, x: U16)
    requires Stands(a, m, i, x) && Stands(b, n, i, x) && i + Size(x) <= |a| && i + Size(x) <= |b|
    ensures m == n && a[i..i + Size(x)] == b[i..i + Size(x)]
  {
    if x >= 269 { TwoBytes(a[i], a[i + 1], b[i], b[i + 1]); }
  }

  lemma TwoBytes(p: Byte, q: Byte, r: Byte, s: Byte)
    requires p * 256 + q == r * 256 + s
    ensures p == r && q == s
  {}

  /** A field's four bits and further bytes, apart from each other. */
  lemma FieldNumbers(x: U16)
    ensures |Extra(FieldOf(x))| == Size(x) && Stands(Extra(FieldOf(x)), Nibble(FieldOf(x)), 0, x)
    ensures Nibble(FieldOf(x)) < 15
  {}

  lemma StandsAt(b: seq<Byte>, x: U16, i: nat)
    requires i + Size(x) <= |b| && b[i..i + Size(x)] == Extra(FieldOf(x))
    ensures Stands(b, Nibble(FieldOf(x)), i, x)
  {
    FieldNumbers(x);
    hide FieldOf, Nibble, Extra;
    var e := b[i..i + Size(x)];
    if x >= 13 { assert e[0] == b[i]; }
    if x >= 269 { assert e[1] == b[i + 1]; }
  }

  lemma FourPieces(h: seq<Byte>, d: seq<Byte>, l: seq<Byte>, v: seq<Byte>)
    requires |h| == 1
    ensures var b := h + d + l + v; var i := 1 + |d|; var j := i + |l|;
      b[0] == h[0] && b[1..i] == d && b[i..j] == l && b[j..] == v && |b| == j + |v|
  {}

  /** The encoder's bytes are the layout of the list, and the only bytes that are. */
  lemma {:induction false} WireIsLayout(b: seq<Byte>, s: seq<Opt>, last: U16)
    ensures b == Wire(Raws(s, last)) <==> Layout(b, s, last)
    decreases |s|
  {
    hide RawBytes, RawFor, Wire, Raws, Laid;
    if s == [] {
      NoWire(last);
    } else {
      var o := s[0];
      var n := OptionSize(o, last);
      var front := RawBytes(RawFor(o, last));
      OptionBytes(o, last);
      LaidSize(front, o, last);
      WireFirst(s, last);
      AppendFront(front, [], Wire(Raws(s[1..], o.no)));
      if n <= |b| {
        WireIsLayout(b[n..], s[1..], o.no);
        if Laid(b[..n], o, last) { LaidUnique(b[..n], front, o, last); }
        assert b == b[..n] + b[n..];
      }
    }
  }

  lemma LaidSize(b: seq<Byte>, o: Opt, last: U16)
    requires Laid(b, o, last)
    ensures |b| == OptionSize(o, last)
  {
    hide Stands;
  }

  lemma NoWire(last: U16)
    ensures Wire(Raws([], last)) == []
  {}

  lemma WireFirst(s: seq<Opt>, last: U16)
    requires s != []
    ensures Wire(Raws(s, last)) == RawBytes(RawFor(s[0], last)) + Wire(Raws(s[1..], s[0].no))
  {
    hide RawBytes, RawFor;
    WireCons(RawFor(s[0], last), Raws(s[1..], s[0].no));
  }

  // ----- the parser -----

  /** The number that the parser takes four bits and the bytes from i on for; -1 if it rejects them. Of
      two further bytes it reads the first one twice, and their sum with 269 in 16 bits. */
  function Number(b: seq<Byte>, bits: Byte, i: nat): (x: int)
    ensures -1 <= x < 65536
  {
    if bits < 13 then bits
    else if bits == 13 && i < |b| then b[i] as int + 13
    else if bits == 14 && i + 1 < |b| then (Pair(b[i], b[i]) + 269) % 65536
    else -1
  }

  function Further(bits: Byte): (n: nat)
  {
    if bits < 13 then 0 else if bits == 13 then 1 else 2
  }

  /** The parser's reading of the bytes from an option on, behind the number last: s and payload. */
  predicate ReadAs(b: seq<Byte>, last: U16, s: seq<Opt>, payload: seq<Byte>)
    decreases |b|
  {
    if b == [] then s == [] && payload == []
    else if b[0] == 255 then s == [] && payload != [] && payload == b[1..]
    else
      var i := 1 + Further(b[0] / 16);
      var j := i + Further(b[0] % 16);
      var d, l := Number(b, b[0] / 16, 1), Number(b, b[0] % 16, i);
      && 0 <= d && 0 <= l <= 1034 && j + l <= |b| && s != []
      && s[0] == Opt((last + d) % 65536, b[j..j + l])
      && ReadAs(b[j + l..], (last + d) % 65536, s[1..], payload)
  }

  /** The first option, as the decoder takes it. */
  lemma TakenNumbers(b: seq<Byte>)
    requires b != []
    ensures var i := 1 + Further(b[0] / 16);
      var j := i + Further(b[0] % 16);
      var d, l := Number(b, b[0] / 16, 1), Number(b, b[0] % 16, i);
      && (Take(b).Took? <==> 0 <= d && 0 <= l <= 1034 && j + l <= |b|)
      && (Take(b).Took? ==>
            Take(b).size == j + l && Take(b).raw.val == b[j..j + l] && Meaning(Take(b).raw.delta) == d)
  {
    hide FieldAt, Meaning, Number, Further, ExtraSize;
    FieldNumber(b, b[0] / 16, 1);
    FieldNumber(b, b[0] % 16, 1 + Further(b[0] / 16));
  }

  lemma FieldNumber(b: seq<Byte>, bits: Byte, i: nat)
    requires 1 <= i && bits < 16
    ensures bits < 15 ==> ExtraSize(bits) == Further(bits)
    ensures Number(b, bits, i) >= 0 ==> bits < 15 && (ExtraSize(bits) == 0 || i + ExtraSize(bits) <= |b|)
    ensures Number(b, bits, i) < 0 ==> bits == 15 || i + ExtraSize(bits) > |b|
    ensures bits < 15 && i + ExtraSize(bits) <= |b| ==> Meaning(FieldAt(b, bits, i)) == Number(b, bits, i)
  {}

  lemma ReadsStep(b: seq<Byte>, last: U16, s: seq<Opt>, payload: seq<Byte>)
    requires b != [] && b[0] != 255
    ensures !Take(b).Took? ==> !ReadAs(b, last, s, payload)
    ensures Take(b).Took? ==>
      var raw, n := Take(b).raw, Take(b).size;
      var no := (last + Meaning(raw.delta)) % 65536;
      && |raw.val| < 65536
      && (ReadAs(b, last, s, payload) <==>
            s != [] && s[0] == Opt(no, raw.val) && ReadAs(b[n..], no, s[1..], payload))
  {
    TakenNumbers(b);
    hide Take, Meaning, Number, Further;
  }

  /** That is what the decoder accepts, and what the accepted options mean. */
  lemma {:induction false} RestReads(b: seq<Byte>, last: U16, s: seq<Opt>, payload: seq<Byte>)
    ensures var r := Rest(b);
      r.Good? && AllAcceptable(r.raws) && Meanings(r.raws, last) == s && r.payload == payload
      <==> ReadAs(b, last, s, payload)
    decreases |b|
  {
    hide Take, Meanings, AllAcceptable, Rest, Acceptable, ReadAs, Meaning;
    if b == [] || b[0] == 255 {
      RestEnds(b);
      ReadsEnd(b, last, s, payload);
      NoMeanings(last);
    } else {
      ReadsStep(b, last, s, payload);
      if Take(b).Took? {
        var raw, n := Take(b).raw, Take(b).size;
        var no := (last + Meaning(raw.delta)) % 65536;
        RestStep(b);
        TakeIsFront(b);
        if Rest(b[n..]).Good? {
          RestSound(b[n..]);
          MeaningsCons(raw, Rest(b[n..]).raws, last);
        }
        if s != [] {
          RestReads(b[n..], no, s[1..], payload);
          assert s == [s[0]] + s[1..];
        }
      } else {
        RestRejects(b);
      }
    }
  }

  lemma ReadsEnd(b: seq<Byte>, last: U16, s: seq<Opt>, payload: seq<Byte>)
    requires b == [] || b[0] == 255
    ensures ReadAs(b, last, s, payload) <==>
            s == [] && if b == [] then payload == [] else payload != [] && payload == b[1..]
  {}

  lemma RestEnds(b: seq<Byte>)
    requires b == [] || b[0] == 255
    ensures Rest(b) == if b == [] then Good([], []) else if |b| < 2 then Malformed else Good([], b[1..])
    ensures AllAcceptable([])
  {}

  lemma RestRejects(b: seq<Byte>)
    requires b != [] && b[0] != 255 && !Take(b).Took?
    ensures Rest(b) == Malformed
  {
    hide Take;
  }

  /** The whole option part: a marker at its very start is rejected, and everything else is read from
      number 0 on. */
  lemma DecodeReads(b: seq<Byte>, s: seq<Opt>, payload: seq<Byte>)
    ensures var d := Decode(b);
      d.Good? && AllAcceptable(d.raws) && Meanings(d.raws, 0) == s && d.payload == payload
      <==> (b == [] || b[0] != 255) && ReadAs(b, 0, s, payload)
  {
    hide Rest, ReadAs, Meanings, AllAcceptable;
    RestReads(b, 0, s, payload);
  }

  /** The payload pointer stands right behind a marker byte, and everything from there on is the payload;
      without payload it is null. */
  lemma PayloadPlace(b: seq<Byte>)
    requires Decode(b).Good?
    ensures var d := Decode(b);
      && |d.payload| <= |b|
      && (d.payload == [] <==> PayloadAt(d, |b|) == Null)
      && (d.payload != [] ==>
            var p := PayloadAt(d, |b|);
            p.At? && 1 <= p.index <= |b| && b[p.index - 1] == 255 && b[p.index..] == d.payload)
  {
    hide Rest, Wire, AllAcceptable, AllWellFormed;
    RestSound(b);
    var d := Rest(b);
    var w := Wire(d.raws);
    AppendFront(w, [], Tail(d.payload));
    if d.payload != [] { assert (w + ([255] + d.payload))[|w| + 1..] == d.payload; }
  }

  /** The whole encoded message part: the layout of the options, and a payload behind a marker byte. */
  lemma FormIsLayout(s: seq<Opt>, payload: seq<Byte>)
    ensures var b := Form(Raws(s, 0), payload);
      var n := |b| - (if payload == [] then 0 else 1 + |payload|);
      && 0 <= n && Layout(b[..n], s, 0)
      && (payload != [] ==> b[n] == 255 && b[n + 1..] == payload)
  {
    hide Layout, Wire, Raws;
    var w := Wire(Raws(s, 0));
    WireIsLayout(w, s, 0);
    AppendFront(w, [], Tail(payload));
    if payload != [] {
      assert (w + ([255] + payload))[|w| + 1..] == payload;
    } else {
      assert w + [] == w;
    }
  }
}
