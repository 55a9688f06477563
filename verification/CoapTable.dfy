/** The option table of section 5.10 of RFC 7252 with its extensions, as numbers, and what the error mask
    of a check means in terms of it. */
module CoapTable {
  import opened OptionOrder
  import opened CoapOptionSet

  /** Shortest and longest value, and whether the option may occur only once. */
  datatype Entry = Entry(min: nat, max: nat, once: bool)

  const TABLE: map<int, Entry> := map[
    1 := Entry(0, 8, false), 3 := Entry(1, 255, true), 4 := Entry(1, 8, false), 5 := Entry(0, 0, true),
    6 := Entry(0, 3, true), 7 := Entry(0, 2, true), 8 := Entry(0, 255, false), 11 := Entry(0, 255, false),
    12 := Entry(0, 2, true), 14 := Entry(0, 4, true), 15 := Entry(0, 255, false), 17 := Entry(0, 2, true),
    20 := Entry(0, 255, false), 23 := Entry(0, 3, true), 27 := Entry(0, 3, true), 28 := Entry(0, 4, true),
    35 := Entry(1, 1034, true), 39 := Entry(1, 255, true), 60 := Entry(0, 4, true)]

  lemma TableIs(no: U16)
    ensures Known(no) <==> no in TABLE
    ensures no in TABLE ==>
      MinLen(no) == TABLE[no].min && MaxLen(no) == TABLE[no].max && Once(no) == TABLE[no].once
    ensures no !in TABLE ==> !Once(no)
  {}

  predicate Unknown(s: seq<Opt>, i: nat)
    requires i < |s|
  {
    s[i].no !in TABLE
  }

  predicate BadLength(s: seq<Opt>, i: nat)
    requires i < |s|
  {
    s[i].no in TABLE && !(TABLE[s[i].no].min <= |s[i].val| <= TABLE[s[i].no].max)
  }

  predicate Again(s: seq<Opt>, i: nat)
    requires i < |s|
  {
    s[i].no in TABLE && TABLE[s[i].no].once && exists j :: 0 <= j < i && s[j].no == s[i].no
  }

  predicate Odd(s: seq<Opt>, i: nat)
    requires i < |s|
  {
    s[i].no % 2 == 1
  }

  lemma FaultsAre(s: seq<Opt>, i: nat)
    requires i < |s|
    ensures UnknownAt(s, i) == Unknown(s, i) && LenFaultAt(s, i) == BadLength(s, i) && RepeatAt(s, i) == Again(s, i)
    ensures CriticalAt(s, i) <==> Odd(s, i) && (Unknown(s, i) || BadLength(s, i) || Again(s, i))
  {
    TableIs(s[i].no);
    hide TABLE, Known, Once, MinLen, MaxLen;
  }

  /** The four bits of the mask, and no others. */
  lemma MaskMeans(mask: bv16, s: seq<Opt>)
    requires MaskTells(mask, s, |s|)
    ensures mask & 0x1 != 0 <==> exists i :: 0 <= i < |s| && Unknown(s, i)
    ensures mask & 0x2 != 0 <==> exists i :: 0 <= i < |s| && Again(s, i)
    ensures mask & 0x4 != 0 <==> exists i :: 0 <= i < |s| && BadLength(s, i)
    ensures mask & 0x100 != 0 <==>
            exists i :: 0 <= i < |s| && Odd(s, i) && (Unknown(s, i) || BadLength(s, i) || Again(s, i))
    ensures mask & 0xFEF8 == 0
  {
    forall i | 0 <= i < |s|
      ensures UnknownAt(s, i) == Unknown(s, i) && LenFaultAt(s, i) == BadLength(s, i) && RepeatAt(s, i) == Again(s, i)
      ensures CriticalAt(s, i) <==> Odd(s, i) && (Unknown(s, i) || BadLength(s, i) || Again(s, i))
    {
      FaultsAre(s, i);
    }
    hide UnknownAt, LenFaultAt, RepeatAt, CriticalAt, Unknown, BadLength, Again, Odd;
  }
}
