/** Which lists survive encoding, parsing and insertion into an option list. */
module CoapRoundTrip {
  import opened OptionOrder
  import opened CoapWire

  // ----- lengths -----

  predicate LengthFits(o: Opt)
  {
    Carried(|o.val|) && |o.val| <= MAX_OPTION_SIZE
  }

  /** The parser never takes a field for a number that would not survive the trip. */
  lemma MeaningIsCarried(f: Field)
    requires WellFormed(f)
    ensures Carried(Meaning(f))
  {
    if f.Two? && f.hi < 254 { SameBytes(f.hi); }
  }

  lemma SameBytes(hi: nat)
    requires hi < 254
    ensures (hi * 256 + hi) / 256 == hi && (hi * 256 + hi) % 256 == hi
  {}

  lemma {:induction false} MeaningsFit(rs: seq<Raw>, last: U16)
    requires AllAcceptable(rs)
    ensures forall o :: o in Meanings(rs, last) ==> LengthFits(o)
  {
    hide Carried, Meaning;
    if rs != [] {
      assert Acceptable(rs[0]);
      MeaningIsCarried(rs[0].len);
      MeaningsFit(rs[1..], (last + Meaning(rs[0].delta)) % 65536);
    }
  }

  lemma {:induction false} FittingLengthsAcceptable(s: seq<Opt>, last: U16)
    requires forall o :: o in s ==> LengthFits(o)
    ensures AllAcceptable(Raws(s, last))
  {
    hide Carried, Meaning, RawFor, Acceptable;
    if s != [] {
      assert s[0] in s;
      FirstCarried(s[0], last);
      FittingLengthsAcceptable(s[1..], s[0].no);
    }
  }

  // ----- numbers -----

  /** The number that the parser arrives at for the first option of s, when it stands at m and the
      encoder stood at n. */
  function NumberRead(s: seq<Opt>, n: U16, m: U16): (k: U16)
    requires s != []
  {
    (m + Meaning(FieldOf((s[0].no - n) % 65536))) % 65536
  }

  lemma FirstMeaning(s: seq<Opt>, n: U16, m: U16)
    requires s != [] && AllAcceptable(Raws(s, n))
    ensures AllAcceptable(Raws(s[1..], s[0].no))
    ensures Meanings(Raws(s, n), m) ==
            [Opt(NumberRead(s, n, m), s[0].val)] + Meanings(Raws(s[1..], s[0].no), NumberRead(s, n, m))
  {
    hide Acceptable, Meaning, FieldOf, Meanings;
    var r, rs := RawFor(s[0], n), Raws(s[1..], s[0].no);
    assert Raws(s, n)[0] == r && Raws(s, n)[1..] == rs;
    MeaningsCons(r, rs, m);
  }

  /** A misread delta gains at most one part in 256. */
  lemma GainIsSmall(d: U16)
    ensures 256 * Meaning(FieldOf(d)) <= 257 * d
  {
    if d >= 269 { MisreadGain((d - 269) / 256, (d - 269) % 256); }
  }

  lemma MisreadGain(hi: nat, lo: nat)
    ensures (hi * 256 + hi + 269) % 65536 <= hi * 256 + hi + 269
    ensures 256 * (hi * 256 + hi + 269) <= 257 * (hi * 256 + lo + 269)
  {}

  /** Once the parser is ahead of a number of at least 255 that it may not fall below, it never comes
      back to it: a wrapped number would be below 255. */
  lemma {:induction false} StaysAhead(s: seq<Opt>, n: U16, m: U16, floor: U16)
    requires Sorted(s) && (s != [] ==> n <= s[0].no) && AllAcceptable(Raws(s, n))
    requires 255 <= floor < m && 256 * m <= 257 * n
    requires forall o :: o in Meanings(Raws(s, n), m) ==> floor <= o.no
    ensures forall o :: o in Meanings(Raws(s, n), m) ==> floor < o.no
  {
    hide Acceptable, Meaning, FieldOf, Meanings, Raws, AllAcceptable;
    NothingMeant(s, n, m);
    if s != [] {
      var k := NumberRead(s, n, m);
      var all := Meanings(Raws(s, n), m);
      FirstMeaning(s, n, m);
      assert all[0] in all && all[0].no == k;
      AheadStep(n, m, s[0].no, k, floor);
      var rest := Meanings(Raws(s[1..], s[0].no), k);
      assert forall o :: o in all <==> o == all[0] || o in rest;
      StaysAhead(s[1..], s[0].no, k, floor);
    }
  }

  lemma NothingMeant(s: seq<Opt>, n: U16, m: U16)
    ensures s == [] ==> AllAcceptable(Raws(s, n)) && Meanings(Raws(s, n), m) == []
  {}

  lemma AheadStep(n: U16, m: U16, no: U16, k: U16, floor: U16)
    requires n <= no && k == (m + Meaning(FieldOf((no - n) % 65536))) % 65536
    requires 255 <= floor < m && 256 * m <= 257 * n && floor <= k
    ensures floor < k && 256 * k <= 257 * no
  {
    hide Meaning, FieldOf;
    var d: int := no - n;
    assert d % 65536 == d;
    GainIsSmall(d);
    WrapOnce(m + Meaning(FieldOf(d)), k);
  }

  lemma WrapOnce(x: nat, k: nat)
    requires x < 131072 && k == x % 65536
    ensures k == if x < 65536 then x else x - 65536
  {}

  /** If all lengths are right and the options read are those of the list, number by number, then
      they were read in the order of the list. */
  lemma {:induction false} ReadInStep(s: seq<Opt>, last: U16)
    requires Sorted(s) && (s != [] ==> last <= s[0].no) && AllAcceptable(Raws(s, last))
    requires forall n: U16 :: Numbered(Meanings(Raws(s, last), last), n) == Numbered(s, n)
    ensures Meanings(Raws(s, last), last) == s
  {
    hide Acceptable, Meaning, FieldOf, Meanings, Raws, AllAcceptable, Numbered;
    NothingMeant(s, last, last);
    if s != [] {
      var all := Meanings(Raws(s, last), last);
      FirstMeaning(s, last, last);
      FirstInStep(s, last, all);
      forall n: U16 ensures Numbered(all[1..], n) == Numbered(s[1..], n) { SameTail(all, s, n); }
      ReadInStep(s[1..], s[0].no);
      assert s == [s[0]] + s[1..];
    }
  }

  lemma SameOptions(a: seq<Opt>, b: seq<Opt>)
    requires forall n: U16 :: Numbered(a, n) == Numbered(b, n)
    ensures forall o :: o in a ==> o in b
  {
    hide Numbered;
    forall o | o in a ensures o in b { assert o in Numbered(a, o.no); }
  }

  /** The first number cannot be read too low, since nothing in the list is that low, nor too high,
      since then the first number would be missing from what was read. */
  lemma FirstInStep(s: seq<Opt>, last: U16, all: seq<Opt>)
    requires s != [] && Sorted(s) && last <= s[0].no && AllAcceptable(Raws(s, last))
    requires all == Meanings(Raws(s, last), last)
    requires forall n: U16 :: Numbered(all, n) == Numbered(s, n)
    ensures all != [] && all[0] == s[0]
  {
    hide Acceptable, Meaning, FieldOf, Meanings, Raws, AllAcceptable, Numbered;
    var k, no := NumberRead(s, last, last), s[0].no;
    FirstMeaning(s, last, last);
    SameOptions(all, s);
    SameOptions(s, all);
    forall o | o in all ensures no <= o.no {
      var j :| 0 <= j < |s| && s[j] == o;
    }
    assert all[0] in all && all[0].no == k;
    assert s[0] in s && s[0] in all;
    if k > no {
      TooHigh(last, no, k);
      var rest := Meanings(Raws(s[1..], no), k);
      assert all == [all[0]] + rest;
      StaysAhead(s[1..], no, k, no);
    }
  }

  lemma TooHigh(last: U16, no: U16, k: U16)
    requires last <= no < k && k == (last + Meaning(FieldOf((no - last) % 65536))) % 65536
    ensures 269 <= no && 256 * k <= 257 * no
  {
    hide Meaning, FieldOf;
    var d: int := no - last;
    assert d % 65536 == d;
    GainIsSmall(d);
    CarriedIff(d);
    WrapOnce(last + Meaning(FieldOf(d)), k);
  }

  // ----- the round trip of a list -----

  /** Encoding a list in order, parsing the bytes and inserting what was read into an empty list
      rebuilds the list if and only if every delta and every length is carried and no value is
      longer than the parser allows. */
  lemma ListRoundTrip(s: seq<Opt>, payload: seq<Byte>)
    requires s != [] && Sorted(s)
    ensures var d := Decode(Form(Raws(s, 0), payload));
      (d.Good? && AllAcceptable(d.raws) && InsertAll([], Meanings(d.raws, 0)) == s) <==> Fits(s, 0)
  {
    hide Fits, Meanings, Form, AllAcceptable, AllWellFormed, Rest, Raws, InsertAll, Sorted, Decode;
    var d := Decode(Form(Raws(s, 0), payload));
    RoundTrip(s, payload);
    if Fits(s, 0) {
      InsertAllSorted(s);
    }
    if d.Good? && AllAcceptable(d.raws) && InsertAll([], Meanings(d.raws, 0)) == s {
      RebuiltFits(s, payload, d);
    }
  }

  lemma RebuiltFits(s: seq<Opt>, payload: seq<Byte>, d: Decoded)
    requires s != [] && Sorted(s) && d == Decode(Form(Raws(s, 0), payload))
    requires d.Good? && AllAcceptable(d.raws) && InsertAll([], Meanings(d.raws, 0)) == s
    ensures Fits(s, 0)
  {
    hide Fits, Meanings, Form, AllAcceptable, AllWellFormed, Rest, Raws, InsertAll, Decode, Numbered, LengthFits;
    var all := Meanings(d.raws, 0);
    InsertAllStableSorts([], all);
    assert [] + all == all;
    SameOptions(s, all);
    MeaningsFit(d.raws, 0);
    FittingLengthsAcceptable(s, 0);
    NotEmpty(s);
    DecodeExactly(Form(Raws(s, 0), payload), Raws(s, 0), payload);
    ReadInStep(s, 0);
    RoundTrip(s, payload);
  }

  lemma NotEmpty(s: seq<Opt>)
    requires s != []
    ensures Raws(s, 0) != []
  {}

  lemma ReadAs269()
    ensures Meaning(FieldOf(270)) == 269 && !Carried(270)
    ensures NumberRead([Opt(270, [])], 0, 0) == 269
  {
    FieldOf270(270);
    hide FieldOf, Meaning;
    CarriedIff(270);
  }

  lemma FieldOf270(x: U16)
    requires x == 270
    ensures FieldOf(x) == Two(0, 1) && Meaning(Two(0, 1)) == 269
  {}

  lemma EmptyFits(s: seq<Opt>)
    requires s == [Opt(270, [])]
    ensures !Fits(s, 0) && Sorted(s) && Raws(s, 0) != [] && s[1..] == []
    ensures forall o :: o in s ==> LengthFits(o)
  {}

  /** A list that is not rebuilt: its only delta is 270, and 269 is read. */
  lemma Delta270IsMisread()
    ensures var s := [Opt(270, [])]; var d := Decode(Form(Raws(s, 0), []));
      && !Fits(s, 0) && d.Good? && AllAcceptable(d.raws)
      && Meanings(d.raws, 0) == [Opt(269, [])] && InsertAll([], Meanings(d.raws, 0)) != s
  {
    var s: seq<Opt> := [Opt(270, [])];
    ReadAs269();
    EmptyFits(s);
    hide Acceptable, Meaning, FieldOf, Meanings, Raws, AllAcceptable, Fits, Form, Decode, InsertAll, NumberRead;
    hide AllWellFormed, LengthFits;
    FittingLengthsAcceptable(s, 0);
    FirstMeaning(s, 0, 0);
    NothingMeant([], 270, 269);
    DecodeExactly(Form(Raws(s, 0), []), Raws(s, 0), []);
    ListRoundTrip(s, []);
  }
}
