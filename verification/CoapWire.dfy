/** The option format on the wire (section 3.1 of RFC 7252), as this codec writes and reads it. */
module CoapWire {
  import opened OptionOrder

  const MAX_OPTION_SIZE := 1034

  /** A delta or a length: in the header nibble, in one more byte, or in two. */
  datatype Field = Short(n: U16) | One(b: Byte) | Two(hi: Byte, lo: Byte)

  datatype Raw = Raw(delta: Field, len: Field, val: seq<Byte>)

  function Nibble(f: Field): (n: nat)
  {
    match f case Short(n) => n case One(_) => 13 case Two(_, _) => 14
  }

  function Extra(f: Field): (b: seq<Byte>)
  {
    match f case Short(_) => [] case One(b) => [b] case Two(hi, lo) => [hi, lo]
  }

  function ByteExtended(b: Byte): (n: U16)
  {
    b + 13
  }

  /** 16-bit arithmetic: the sum may wrap. */
  function WordExtended(hi: Byte, lo: Byte): (n: U16)
  {
    (hi * 256 + lo + 269) % 65536
  }

  /** What the parser takes a field for: of a two-byte field it reads the first byte twice. */
  function Meaning(f: Field): (n: U16)
  {
    match f case Short(n) => n case One(b) => ByteExtended(b) case Two(hi, lo) => WordExtended(hi, hi)
  }

  /** The field that the encoder writes. */
  function FieldOf(x: U16): (f: Field)
    ensures WellFormed(f)
  {
    if x < 13 then Short(x) else if x < 269 then One(x - 13) else Two((x - 269) / 256, (x - 269) % 256)
  }

  predicate WellFormed(f: Field)
  {
    f.Short? ==> f.n < 13
  }

  predicate Acceptable(r: Raw)
  {
    WellFormed(r.delta) && WellFormed(r.len) && |r.val| == Meaning(r.len) <= MAX_OPTION_SIZE
  }

  predicate AllAcceptable(rs: seq<Raw>)
  {
    forall i :: 0 <= i < |rs| ==> Acceptable(rs[i])
  }

  function Header(r: Raw): (h: Byte)
    requires WellFormed(r.delta) && WellFormed(r.len)
    ensures h / 16 == Nibble(r.delta) && h % 16 == Nibble(r.len) && h != 255
  {
    Nibble(r.delta) * 16 + Nibble(r.len)
  }

  function RawBytes(r: Raw): (b: seq<Byte>)
    requires WellFormed(r.delta) && WellFormed(r.len)
    ensures |b| >= 1 && b[0] != 255
  {
    [Header(r)] + Extra(r.delta) + Extra(r.len) + r.val
  }

  predicate AllWellFormed(rs: seq<Raw>)
  {
    forall i :: 0 <= i < |rs| ==> WellFormed(rs[i].delta) && WellFormed(rs[i].len)
  }

  function Wire(rs: seq<Raw>): (b: seq<Byte>)
    requires AllWellFormed(rs)
  {
    if rs == [] then [] else RawBytes(rs[0]) + Wire(rs[1..])
  }

  /** A payload, when there is one, follows a marker byte. */
  function Tail(payload: seq<Byte>): (b: seq<Byte>)
  {
    if payload == [] then [] else [255] + payload
  }

  // ----- parsing -----

  datatype Decoded = Malformed | Good(raws: seq<Raw>, payload: seq<Byte>)

  function ExtraSize(nibble: nat): (n: nat)
  {
    if nibble == 13 then 1 else if nibble == 14 then 2 else 0
  }

  /** The field with the given nibble whose further bytes stand at position i. */
  function FieldAt(b: seq<Byte>, nibble: Byte, i: nat): (f: Field)
    requires i + ExtraSize(nibble) <= |b|
    ensures nibble < 15 ==> WellFormed(f) && Nibble(f) == nibble && Extra(f) == b[i..i + ExtraSize(nibble)]
  {
    if nibble == 13 then One(b[i]) else if nibble == 14 then Two(b[i], b[i + 1]) else Short(nibble)
  }

  datatype Taken = Nothing | Took(raw: Raw, size: nat)

  /** The option at the start of b. */
  function Take(b: seq<Byte>): (t: Taken)
    requires b != []
    ensures t.Took? ==> 0 < t.size <= |b|
  {
    var d, l := b[0] / 16, b[0] % 16;
    var i := 1 + ExtraSize(d);
    var j := i + ExtraSize(l);
    if d == 15 || l == 15 || j > |b| then Nothing
    else
      var fd, fl := FieldAt(b, d, 1), FieldAt(b, l, i);
      var n := Meaning(fl);
      if n > MAX_OPTION_SIZE || j + n > |b| then Nothing
      else Took(Raw(fd, fl, b[j..j + n]), j + n)
  }

  lemma TakeIsFront(b: seq<Byte>)
    requires b != [] && Take(b).Took?
    ensures Acceptable(Take(b).raw) && b[..Take(b).size] == RawBytes(Take(b).raw)
  {
    var d, l := b[0] / 16, b[0] % 16;
    var i := 1 + ExtraSize(d);
    var j := i + ExtraSize(l);
    var raw, n := Take(b).raw, Take(b).size;
    hide Take;
    SplitFour(b, 1, i, j, n);
    assert b[..1] == [b[0]];
  }

  lemma SplitFour(b: seq<Byte>, h: nat, i: nat, j: nat, n: nat)
    requires h <= i <= j <= n <= |b|
    ensures b[..n] == b[..h] + b[h..i] + b[i..j] + b[j..n]
  {}

  lemma AppendFront(a: seq<Byte>, b: seq<Byte>, c: seq<Byte>)
    ensures (a + b) + c == a + (b + c)
    ensures (a + c)[|a|..] == c && (a + c)[..|a|] == a
  {}

  /** Options to the end of b, or to a payload marker that a payload follows. */
  function Rest(b: seq<Byte>): (d: Decoded)
    decreases |b|
  {
    if b == [] then Good([], [])
    else if b[0] == 255 then (if |b| < 2 then Malformed else Good([], b[1..]))
    else match Take(b)
      case Nothing => Malformed
      case Took(raw, n) => Prepend([raw], Rest(b[n..]))
  }

  function Prepend(rs: seq<Raw>, d: Decoded): (r: Decoded)
  {
    if d.Malformed? then Malformed else Good(rs + d.raws, d.payload)
  }

  /** The option part of a message; it may not start with the payload marker. */
  function Decode(b: seq<Byte>): (d: Decoded)
  {
    if b != [] && b[0] == 255 then Malformed else Rest(b)
  }

  lemma WireCons(r: Raw, rs: seq<Raw>)
    requires WellFormed(r.delta) && WellFormed(r.len) && AllWellFormed(rs)
    ensures AllWellFormed([r] + rs) && Wire([r] + rs) == RawBytes(r) + Wire(rs)
  {
    assert ([r] + rs)[1..] == rs;
  }

  /** Whatever is accepted is the wire form of what was read. */
  lemma {:induction false} RestSound(b: seq<Byte>)
    requires Rest(b).Good?
    ensures AllAcceptable(Rest(b).raws) && AllWellFormed(Rest(b).raws)
    ensures b == Wire(Rest(b).raws) + Tail(Rest(b).payload)
    decreases |b|
  {
    hide Acceptable, RawBytes, Take, Wire, AllAcceptable, AllWellFormed, WellFormed, Rest, Tail;
    if b == [] || b[0] == 255 {
      RestWithoutOptions(b);
      NoOptions(Rest(b).payload);
    } else {
      RestIsTaken(b);
      var t := Take(b);
      RestSound(b[t.size..]);
      var rs := Rest(b[t.size..]).raws;
      TakeIsFront(b);
      AcceptableForm(t.raw, rs);
      WireCons(t.raw, rs);
      AppendFront(RawBytes(t.raw), Wire(rs), Tail(Rest(b).payload));
      assert b == b[..t.size] + b[t.size..];
    }
  }

  lemma RestWithoutOptions(b: seq<Byte>)
    requires (b == [] || b[0] == 255) && Rest(b).Good?
    ensures Rest(b).raws == [] && b == Tail(Rest(b).payload)
  {
    if b != [] { assert b == [255] + b[1..]; }
  }

  lemma RestIsTaken(b: seq<Byte>)
    requires b != [] && b[0] != 255 && Rest(b).Good?
    ensures Take(b).Took? && Rest(b) == Prepend([Take(b).raw], Rest(b[Take(b).size..]))
    ensures Rest(b[Take(b).size..]).Good?
  {
    hide Take;
  }

  lemma NoOptions(payload: seq<Byte>)
    ensures AllAcceptable([]) && AllWellFormed([]) && Wire([]) + Tail(payload) == Tail(payload)
  {}

  lemma AcceptableForm(r: Raw, rs: seq<Raw>)
    requires Acceptable(r) && AllAcceptable(rs)
    ensures WellFormed(r.delta) && WellFormed(r.len) && AllWellFormed(rs) && AllAcceptable([r] + rs)
  {}

  /** An option in front is read back, whatever follows it. */
  lemma TakeFront(r: Raw, rest: seq<Byte>)
    requires WellFormed(r.delta) && WellFormed(r.len)
    ensures Take(RawBytes(r) + rest).Took? && |r.val| == Meaning(r.len) ==>
              Take(RawBytes(r) + rest) == Took(r, |RawBytes(r)|)
    ensures Acceptable(r) ==> Take(RawBytes(r) + rest) == Took(r, |RawBytes(r)|)
    ensures Take(RawBytes(r) + rest).Took? ==>
              var t := Take(RawBytes(r) + rest).raw; t.delta == r.delta && t.len == r.len
  {
    var b := RawBytes(r) + rest;
    var i := 1 + |Extra(r.delta)|;
    var j := i + |Extra(r.len)|;
    FivePieces([Header(r)], Extra(r.delta), Extra(r.len), r.val, rest);
    FieldReadBack(b, r.delta, 1);
    FieldReadBack(b, r.len, i);
  }

  lemma FieldReadBack(b: seq<Byte>, f: Field, i: nat)
    requires WellFormed(f) && i + |Extra(f)| <= |b| && b[i..i + |Extra(f)|] == Extra(f)
    ensures FieldAt(b, Nibble(f), i) == f
  {
    var e := b[i..i + |Extra(f)|];
    assert f.One? ==> e[0] == b[i];
    assert f.Two? ==> e[0] == b[i] && e[1] == b[i + 1];
  }

  lemma FivePieces(h: seq<Byte>, d: seq<Byte>, l: seq<Byte>, v: seq<Byte>, rest: seq<Byte>)
    requires |h| == 1
    ensures var b := h + d + l + v + rest; var i := 1 + |d|; var j := i + |l|;
      b[0] == h[0] && b[1..i] == d && b[i..j] == l && b[j..j + |v|] == v
  {}

  lemma RestOfTail(payload: seq<Byte>)
    ensures Rest(Tail(payload)) == Good([], payload)
  {}

  lemma RestStep(b: seq<Byte>)
    requires b != [] && b[0] != 255 && Take(b).Took?
    ensures Rest(b) == Prepend([Take(b).raw], Rest(b[Take(b).size..]))
  {
    hide Take;
  }

  /** Every sequence of acceptable options, with or without a payload, is accepted as such. */
  lemma {:induction false} RestComplete(rs: seq<Raw>, payload: seq<Byte>)
    requires AllAcceptable(rs) && AllWellFormed(rs)
    ensures Rest(Wire(rs) + Tail(payload)) == Good(rs, payload)
  {
    hide Acceptable, RawBytes, Take, WellFormed, Rest;
    if rs == [] {
      RestOfTail(payload);
      assert Wire(rs) + Tail(payload) == Tail(payload);
    } else {
      var front, rest := RawBytes(rs[0]), Wire(rs[1..]) + Tail(payload);
      RestComplete(rs[1..], payload);
      TakeFront(rs[0], rest);
      AppendFront(front, Wire(rs[1..]), Tail(payload));
      AppendFront(front, [], rest);
      RestStep(front + rest);
      assert [rs[0]] + rs[1..] == rs;
    }
  }

  /** The wire form of options and payload. */
  function Form(rs: seq<Raw>, payload: seq<Byte>): (b: seq<Byte>)
    requires AllWellFormed(rs)
  {
    Wire(rs) + Tail(payload)
  }

  /** The parser accepts exactly the wire forms of acceptable options (a payload needs at least
      one option before it), and reads each of them in only one way. */
  lemma DecodeExactly(b: seq<Byte>, rs: seq<Raw>, payload: seq<Byte>)
    ensures Decode(b) == Good(rs, payload)
       <==> AllAcceptable(rs) && AllWellFormed(rs) && b == Form(rs, payload) && (rs == [] ==> payload == [])
  {
    hide Rest, Wire, AllAcceptable, AllWellFormed, RawBytes;
    if AllAcceptable(rs) && AllWellFormed(rs) {
      RestComplete(rs, payload);
      FormStart(rs, payload);
    }
    if Rest(b).Good? {
      RestSound(b);
      FormStart(Rest(b).raws, Rest(b).payload);
    }
  }

  lemma FormStart(rs: seq<Raw>, payload: seq<Byte>)
    requires AllWellFormed(rs)
    ensures rs != [] ==> Form(rs, payload) != [] && Form(rs, payload)[0] != 255
    ensures rs == [] ==> Form(rs, payload) == Tail(payload)
  {
    hide RawBytes;
  }

  // ----- options as values -----

  /** What the raw options mean, when `last` is the number of the option before them. */
  function Meanings(rs: seq<Raw>, last: U16): (s: seq<Opt>)
    requires AllAcceptable(rs)
    ensures |s| == |rs|
  {
    if rs == [] then [] else
      var no := (last + Meaning(rs[0].delta)) % 65536;
      [Opt(no, rs[0].val)] + Meanings(rs[1..], no)
  }

  function LastNo(rs: seq<Raw>, last: U16): (n: U16)
    requires AllAcceptable(rs)
  {
    if rs == [] then last else LastNo(rs[1..], (last + Meaning(rs[0].delta)) % 65536)
  }

  lemma MeaningsCons(r: Raw, rs: seq<Raw>, last: U16)
    requires AllAcceptable(rs) && Acceptable(r)
    ensures AllAcceptable([r] + rs)
    ensures var no := (last + Meaning(r.delta)) % 65536;
      && LastNo([r] + rs, last) == LastNo(rs, no)
      && |r.val| < 65536 && Meanings([r] + rs, last) == [Opt(no, r.val)] + Meanings(rs, no)
  {
    assert ([r] + rs)[1..] == rs;
  }

  lemma {:induction false} MeaningsSnoc(rs: seq<Raw>, r: Raw, last: U16)
    requires AllAcceptable(rs) && Acceptable(r)
    ensures AllAcceptable(rs + [r]) && |r.val| < 65536
    ensures LastNo(rs + [r], last) == (LastNo(rs, last) + Meaning(r.delta)) % 65536
    ensures Meanings(rs + [r], last) == Meanings(rs, last) + [Opt(LastNo(rs + [r], last), r.val)]
  {
    hide Acceptable, Meaning, Meanings, LastNo;
    if rs == [] {
      MeaningsCons(r, [], last);
      NoMeanings((last + Meaning(r.delta)) % 65536);
      NoMeanings(last);
      assert rs + [r] == [r] && [r] + [] == [r];
    } else {
      var no := (last + Meaning(rs[0].delta)) % 65536;
      MeaningsSnoc(rs[1..], r, no);
      MeaningsCons(rs[0], rs[1..], last);
      MeaningsCons(rs[0], rs[1..] + [r], last);
      assert rs == [rs[0]] + rs[1..];
      assert rs + [r] == [rs[0]] + (rs[1..] + [r]);
    }
  }

  lemma NoMeanings(last: U16)
    ensures Meanings([], last) == [] && LastNo([], last) == last
  {}

  /** The raw options that stand for s. */
  function Raws(s: seq<Opt>, last: U16): (rs: seq<Raw>)
    ensures AllWellFormed(rs)
  {
    if s == [] then [] else
      [RawFor(s[0], last)] + Raws(s[1..], s[0].no)
  }

  function RawFor(o: Opt, last: U16): (r: Raw)
    ensures WellFormed(r.delta) && WellFormed(r.len) && r.val == o.val
  {
    Raw(FieldOf((o.no - last) % 65536), FieldOf(|o.val|), o.val)
  }

  // ----- round trip -----

  /** A number that survives being written as a field and read again. */
  predicate Carried(x: U16)
  {
    x < 269 || (x - 269) / 256 == (x - 269) % 256
  }

  lemma CarriedIff(x: U16)
    ensures Meaning(FieldOf(x)) == x <==> Carried(x)
  {
    if x >= 269 { TwiceTheHighByte((x - 269) / 256, (x - 269) % 256); }
  }

  lemma TwiceTheHighByte(hi: nat, lo: nat)
    requires hi < 256 && lo < 256 && hi * 256 + lo + 269 < 65536
    ensures (hi * 256 + hi + 269) % 65536 == hi * 256 + lo + 269 <==> hi == lo
  {}

  /** Every delta and every length is carried, and no value is longer than the parser allows. */
  predicate Fits(s: seq<Opt>, last: U16)
  {
    s == [] || (Carried((s[0].no - last) % 65536) && Carried(|s[0].val|) && |s[0].val| <= MAX_OPTION_SIZE
                && Fits(s[1..], s[0].no))
  }

  /** How far option i is ahead of the one before it. */
  function Delta(s: seq<Opt>, last: U16, i: nat): (d: int)
    requires i < |s|
  {
    s[i].no - (if i == 0 then last else s[i - 1].no)
  }

  /** In particular, deltas and lengths below 269 are always carried. */
  lemma {:induction false} SmallStepsFit(s: seq<Opt>, last: U16)
    requires forall i :: 0 <= i < |s| ==> |s[i].val| < 269 && 0 <= Delta(s, last, i) < 269
    ensures Fits(s, last)
  {
    if s != [] {
      var rest := s[1..];
      var d := Delta(s, last, 0);
      assert d % 65536 == d && |s[0].val| < 269;
      forall i | 0 <= i < |rest| ensures |rest[i].val| < 269 && 0 <= Delta(rest, s[0].no, i) < 269 {
        assert Delta(rest, s[0].no, i) == Delta(s, last, i + 1);
        assert rest[i] == s[i + 1];
      }
      SmallStepsFit(rest, s[0].no);
    }
  }

  lemma FirstCarried(o: Opt, last: U16)
    ensures Acceptable(RawFor(o, last)) <==> Carried(|o.val|) && |o.val| <= MAX_OPTION_SIZE
    ensures (last + Meaning(RawFor(o, last).delta)) % 65536 == o.no <==> Carried((o.no - last) % 65536)
  {
    CarriedIff(|o.val|);
    CarriedIff((o.no - last) % 65536);
    SameResidue(last, Meaning(RawFor(o, last).delta), o.no);
  }

  lemma SameResidue(last: U16, d: U16, no: U16)
    ensures (last + d) % 65536 == no <==> d == (no - last) % 65536
  {}

  lemma {:induction false} FitsMeans(s: seq<Opt>, last: U16)
    requires Fits(s, last)
    ensures AllAcceptable(Raws(s, last)) && Meanings(Raws(s, last), last) == s
  {
    hide Acceptable, Carried, RawFor, Meaning, Meanings;
    if s == [] {
      NoMeanings(last);
    } else {
      FirstCarried(s[0], last);
      FitsMeans(s[1..], s[0].no);
      MeaningsCons(RawFor(s[0], last), Raws(s[1..], s[0].no), last);
      assert [s[0]] + s[1..] == s;
    }
  }

  lemma {:induction false} OnlyIfFits(s: seq<Opt>, last: U16, payload: seq<Byte>)
    requires var d := Rest(Form(Raws(s, last), payload));
      d.Good? && AllAcceptable(d.raws) && Meanings(d.raws, last) == s
    ensures Fits(s, last)
  {
    hide Acceptable, Carried, RawFor, Meaning, Meanings, Take, RawBytes, AllWellFormed, Tail, Rest, Form;
    if s != [] {
      var r, rs := RawFor(s[0], last), Raws(s[1..], s[0].no);
      var b, rest := Form(Raws(s, last), payload), Form(rs, payload);
      FormCons(r, rs, payload);
      RestIsTaken(b);
      var t := Take(b);
      var more := Rest(b[t.size..]);
      FirstRead(r, rest, t, s[0], last, more.raws);
      OnlyIfFits(s[1..], s[0].no, payload);
    }
  }

  /** The first option was read with the fields it was written with; if it also came back with
      the same number and value, then both fields were carried and exactly its bytes were taken. */
  lemma FirstRead(r: Raw, rest: seq<Byte>, t: Taken, o: Opt, last: U16, more: seq<Raw>)
    requires r == RawFor(o, last) && t == Take(RawBytes(r) + rest) && t.Took?
    requires AllAcceptable([t.raw] + more) && Meanings([t.raw] + more, last)[0] == o
    ensures Carried((o.no - last) % 65536) && Carried(|o.val|) && |o.val| <= MAX_OPTION_SIZE
    ensures t == Took(r, |RawBytes(r)|)
    ensures AllAcceptable(more) && Meanings([t.raw] + more, last)[1..] == Meanings(more, o.no)
  {
    hide Carried, RawFor, Meaning, Meanings, Take, RawBytes;
    assert forall i :: 0 <= i < |more| ==> more[i] == ([t.raw] + more)[i + 1];
    TakeIsFront(RawBytes(r) + rest);
    TakeFront(r, rest);
    MeaningsCons(t.raw, more, last);
    assert t.raw == r;
    FirstCarried(o, last);
  }

  lemma FormCons(r: Raw, rs: seq<Raw>, payload: seq<Byte>)
    requires WellFormed(r.delta) && WellFormed(r.len) && AllWellFormed(rs)
    ensures AllWellFormed([r] + rs) && Form([r] + rs, payload) == RawBytes(r) + Form(rs, payload)
    ensures Form([r] + rs, payload)[|RawBytes(r)|..] == Form(rs, payload)
  {
    hide Wire, RawBytes;
    WireCons(r, rs);
    AppendFront(RawBytes(r), Wire(rs), Tail(payload));
    AppendFront(RawBytes(r), [], Form(rs, payload));
  }

  /** Encoding a list and parsing the bytes gives the list and the payload back when every delta
      and length is carried, and never gives the list back otherwise. */
  lemma RoundTrip(s: seq<Opt>, payload: seq<Byte>)
    requires s != []
    ensures var d := Decode(Form(Raws(s, 0), payload));
      && (Fits(s, 0) ==> d.Good? && d.payload == payload && AllAcceptable(d.raws) && Meanings(d.raws, 0) == s)
      && (d.Good? && AllAcceptable(d.raws) && Meanings(d.raws, 0) == s ==> Fits(s, 0))
  {
    hide Fits, Meanings, Form, AllAcceptable, AllWellFormed, Rest, RawFor;
    var rs := Raws(s, 0);
    FormStart(rs, payload);
    if Fits(s, 0) {
      FitsMeans(s, 0);
      DecodeExactly(Form(rs, payload), rs, payload);
    }
    var d := Decode(Form(rs, payload));
    if d.Good? && AllAcceptable(d.raws) && Meanings(d.raws, 0) == s { OnlyIfFits(s, 0, payload); }
  }
}
