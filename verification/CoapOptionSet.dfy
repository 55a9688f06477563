/** The option set of a message: adding options, and checking them against the option table of
    section 5.10 of RFC 7252. */
module CoapOptionSet {
  import opened OptionOrder
  import opened CoapOption

  datatype ErrCode = OK | OUT_OF_MEM | MSG_FORMAT_ERROR

  // ----- the option table -----

  const KnownNumbers: set<U16> := {1, 3, 4, 5, 6, 7, 8, 11, 12, 14, 15, 17, 20, 23, 27, 28, 35, 39, 60}

  predicate Known(no: U16) { no in KnownNumbers }

  /** The numbers that may occur only once. */
  const OnceNumbers: set<U16> := {3, 5, 6, 7, 12, 14, 17, 35, 39, 60, 28, 27, 23}

  predicate Once(no: U16) { no in OnceNumbers }

  function MinLen(no: U16): (n: nat)
  {
    if no in [3, 4, 35, 39] then 1 else 0
  }

  function MaxLen(no: U16): (n: nat)
  {
    if no == 5 then 0
    else if no in [7, 12, 17] then 2
    else if no in [6, 27, 23] then 3
    else if no in [14, 60, 28] then 4
    else if no in [1, 4] then 8
    else if no == 35 then 1034
    else 255
  }

  predicate LenFits(o: Opt) { MinLen(o.no) <= |o.val| <= MaxLen(o.no) }

  predicate Critical(no: U16) { no % 2 == 1 }

  /** The status bit of a known number. */
  function StatusBit(no: U16): (b: bv32)
  {
    match no
    case 1 => 0x1 case 3 => 0x2 case 4 => 0x4 case 5 => 0x8
    case 7 => 0x10 case 8 => 0x20 case 11 => 0x40 case 12 => 0x80
    case 14 => 0x100 case 15 => 0x200 case 17 => 0x400 case 20 => 0x800
    case 35 => 0x1000 case 39 => 0x2000 case 60 => 0x4000 case 28 => 0x8000
    case 27 => 0x1_0000 case 23 => 0x2_0000 case 6 => 0x4_0000
    case _ => 0
  }

  const CRITICAL: bv16 := 0x100
  const UNKNOWN: bv16 := 0x1
  const REPEATED: bv16 := 0x2
  const LEN_RANGE: bv16 := 0x4

  // ----- faults -----

  predicate UnknownAt(s: seq<Opt>, i: nat)
    requires i < |s|
  {
    !Known(s[i].no)
  }

  predicate LenFaultAt(s: seq<Opt>, i: nat)
    requires i < |s|
  {
    Known(s[i].no) && !LenFits(s[i])
  }

  predicate RepeatAt(s: seq<Opt>, i: nat)
    requires i < |s|
  {
    Once(s[i].no) && exists j :: 0 <= j < i && s[j].no == s[i].no
  }

  predicate CriticalAt(s: seq<Opt>, i: nat)
    requires i < |s|
  {
    Critical(s[i].no) && (UnknownAt(s, i) || LenFaultAt(s, i) || RepeatAt(s, i))
  }

  predicate Occurs(s: seq<Opt>, n: nat, no: U16)
    requires n <= |s|
  {
    exists i :: 0 <= i < n && s[i].no == no
  }

  /** The mask tells exactly which kinds of fault the first n options have, and nothing else. */
  predicate MaskTells(mask: bv16, s: seq<Opt>, n: nat)
    requires n <= |s|
  {
    && (mask & UNKNOWN != 0 <==> exists i :: 0 <= i < n && UnknownAt(s, i))
    && (mask & LEN_RANGE != 0 <==> exists i :: 0 <= i < n && LenFaultAt(s, i))
    && (mask & REPEATED != 0 <==> exists i :: 0 <= i < n && RepeatAt(s, i))
    && (mask & CRITICAL != 0 <==> exists i :: 0 <= i < n && CriticalAt(s, i))
    && mask & 0xFEF8 == 0
  }

  predicate HasBit(status: bv32, no: U16)
  {
    status & StatusBit(no) != 0
  }

  /** The bits that belong to no option. */
  function Unused(status: bv32): (b: bv32)
  {
    status & 0xFFF8_0000
  }

  /** The status has gained exactly the bits of the known numbers among the first n options. */
  ghost predicate StatusTells(was: bv32, status: bv32, s: seq<Opt>, n: nat)
    requires n <= |s|
  {
    && (forall no: U16 :: Known(no) ==>
          (HasBit(status, no) <==> HasBit(was, no) || Occurs(s, n, no)))
    && Unused(status) == Unused(was)
  }

  /** base::set_bit. */
  function SetBit(value: bv32, bitmask: bv32): (r: bv32)
  {
    value | bitmask
  }

  function OrMask(a: bv16, b: bv16): (r: bv16)
  {
    a | b
  }

  // ----- what one option adds -----

  function UnknownError(no: U16): (e: bv16)
  {
    if Critical(no) then CRITICAL | UNKNOWN else UNKNOWN
  }

  function LenError(no: U16, fits: bool): (e: bv16)
  {
    if fits then 0 else if Critical(no) then CRITICAL | LEN_RANGE else LEN_RANGE
  }

  function RepeatError(no: U16, again: bool): (e: bv16)
  {
    if !again then 0 else if Critical(no) then CRITICAL | REPEATED else REPEATED
  }

  function OptionError(o: Opt, seen: bool): (e: bv16)
  {
    if !Known(o.no) then UnknownError(o.no)
    else if !Once(o.no) then LenError(o.no, LenFits(o))
    else OrMask(LenError(o.no, LenFits(o)), RepeatError(o.no, seen))
  }

  lemma OrBits(a: bv16, b: bv16, m: bv16)
    ensures (a | b) & m != 0 <==> a & m != 0 || b & m != 0
    ensures (a | b) & m == (a & m) | (b & m)
  {
    assert (a | b) & m == (a & m) | (b & m);
    assert (a & m) | (b & m) == 0 <==> a & m == 0 && b & m == 0;
  }

  lemma OrBits32(a: bv32, b: bv32, m: bv32)
    ensures (a | b) & m != 0 <==> a & m != 0 || b & m != 0
    ensures (a | b) & m == (a & m) | (b & m)
  {
    assert (a | b) & m == (a & m) | (b & m);
    assert (a & m) | (b & m) == 0 <==> a & m == 0 && b & m == 0;
  }

  lemma ErrorBits(known: bool, once: bool, no: U16, fits: bool, again: bool)
    ensures var e := if !known then UnknownError(no) else if !once then LenError(no, fits)
                     else LenError(no, fits) | RepeatError(no, again);
      && (e & UNKNOWN != 0 <==> !known)
      && (e & LEN_RANGE != 0 <==> known && !fits)
      && (e & REPEATED != 0 <==> known && once && again)
      && (e & CRITICAL != 0 <==> Critical(no) && (!known || !fits || (once && again)))
      && e & 0xFEF8 == 0
  {}

  lemma OnceIsKnown(no: U16)
    requires Once(no)
    ensures Known(no)
  {}

  lemma MaskStep(mask: bv16, s: seq<Opt>, n: nat)
    requires n < |s| && MaskTells(mask, s, n)
    ensures MaskTells(OrMask(mask, OptionError(s[n], Occurs(s, n, s[n].no))), s, n + 1)
  {
    hide Known, Once, LenFits, Critical, LenError, RepeatError, UnknownError;
    var o := s[n];
    var seen := Occurs(s, n, o.no);
    var e := OptionError(o, seen);
    ErrorBits(Known(o.no), Once(o.no), o.no, LenFits(o), seen);
    if Once(o.no) { OnceIsKnown(o.no); }
    assert RepeatAt(s, n) <==> Once(o.no) && seen;
    assert UnknownAt(s, n) <==> !Known(o.no);
    assert LenFaultAt(s, n) <==> Known(o.no) && !LenFits(o);
    assert CriticalAt(s, n) <==> Critical(o.no) && (UnknownAt(s, n) || LenFaultAt(s, n) || RepeatAt(s, n));
    hide UnknownAt, LenFaultAt, RepeatAt, CriticalAt;
    OrBits(mask, e, UNKNOWN);
    OrBits(mask, e, LEN_RANGE);
    OrBits(mask, e, REPEATED);
    OrBits(mask, e, CRITICAL);
    OrBits(mask, e, 0xFEF8);
  }

  /** The number that a status bit stands for. */
  function BitOwner(b: bv32): (no: U16)
  {
    if b == 0x1 then 1 else if b == 0x2 then 3 else if b == 0x4 then 4 else if b == 0x8 then 5
    else if b == 0x10 then 7 else if b == 0x20 then 8 else if b == 0x40 then 11 else if b == 0x80 then 12
    else if b == 0x100 then 14 else if b == 0x200 then 15 else if b == 0x400 then 17
    else if b == 0x800 then 20 else if b == 0x1000 then 35 else if b == 0x2000 then 39
    else if b == 0x4000 then 60 else if b == 0x8000 then 28 else if b == 0x1_0000 then 27
    else if b == 0x2_0000 then 23 else 6
  }

  lemma OwnBit(a: U16)
    requires Known(a)
    ensures BitOwner(StatusBit(a)) == a
  {}

  lemma OneBitOnly(a: U16)
    requires Known(a)
    ensures var b := StatusBit(a); b != 0 && b & (b - 1) == 0 && b & 0xFFF8_0000 == 0
  {}

  lemma SingleBits(x: bv32, y: bv32)
    requires x != 0 && x & (x - 1) == 0 && y != 0 && y & (y - 1) == 0 && x & y != 0
    ensures x == y
  {}

  /** Setting the bit of m sets no other known number's bit. */
  lemma SetBitOf(status: bv32, m: U16, no: U16)
    requires Known(m) && Known(no)
    ensures (status | StatusBit(m)) & StatusBit(no) != 0 <==> status & StatusBit(no) != 0 || m == no
    ensures (status | StatusBit(m)) & 0xFFF8_0000 == status & 0xFFF8_0000
  {
    hide Known, StatusBit, BitOwner;
    OwnBit(m);
    OwnBit(no);
    OneBitOnly(m);
    OneBitOnly(no);
    var x, y := StatusBit(m), StatusBit(no);
    if x & y != 0 { SingleBits(x, y); }
    SetSingleBit(status, x, y);
  }

  lemma SetSingleBit(status: bv32, x: bv32, y: bv32)
    ensures (status | x) & y != 0 <==> status & y != 0 || x & y != 0
    ensures x & 0xFFF8_0000 == 0 ==> (status | x) & 0xFFF8_0000 == status & 0xFFF8_0000
    ensures x != 0 ==> x & x != 0
  {
    OrBits32(status, x, y);
    OrBits32(status, x, 0xFFF8_0000);
  }

  lemma OccursStep(s: seq<Opt>, n: nat, no: U16)
    requires n < |s|
    ensures Occurs(s, n + 1, no) <==> Occurs(s, n, no) || no == s[n].no
  {}

  /** now is status with the bit of m, and only that, set. */
  ghost predicate Gains(status: bv32, now: bv32, m: U16)
  {
    && (forall no: U16 :: Known(no) ==> (HasBit(now, no) <==> HasBit(status, no) || no == m))
    && Unused(now) == Unused(status)
  }

  lemma SettingGains(status: bv32, m: U16)
    requires Known(m)
    ensures Gains(status, SetBit(status, StatusBit(m)), m)
  {
    hide Known, StatusBit, HasBit, Unused;
    forall no: U16 | Known(no)
      ensures HasBit(status | StatusBit(m), no) <==> HasBit(status, no) || no == m
    {
      SetBitHas(status, m, no);
    }
    SetBitHas(status, m, m);
  }

  lemma StatusStep(was: bv32, status: bv32, now: bv32, s: seq<Opt>, n: nat)
    requires n < |s| && StatusTells(was, status, s, n)
    requires if Known(s[n].no) then Gains(status, now, s[n].no) else now == status
    ensures StatusTells(was, now, s, n + 1)
  {
    hide Known, StatusBit, HasBit, Unused, Occurs;
    forall no: U16 | Known(no)
      ensures HasBit(now, no) <==> HasBit(was, no) || Occurs(s, n + 1, no)
    {
      OccursStep(s, n, no);
    }
  }

  lemma SetBitHas(status: bv32, m: U16, no: U16)
    requires Known(m) && Known(no)
    ensures HasBit(status | StatusBit(m), no) <==> HasBit(status, no) || m == no
    ensures Unused(status | StatusBit(m)) == Unused(status)
  {
    hide Known, StatusBit;
    SetBitOf(status, m, no);
  }

  // ----- the scratch table -----

  /** The table holds the once-only numbers among the first n options, each once, in its first k
      slots; the other slots are empty. */
  ghost predicate Table(t: seq<U16>, k: nat, s: seq<Opt>, n: nat)
    requires n <= |s|
  {
    && k <= |t| == 13
    && (forall i :: 0 <= i < k ==> Once(t[i]))
    && (forall i :: k <= i < 13 ==> t[i] == 0)
    && (forall i, j :: 0 <= i < j < k ==> t[i] != t[j])
    && (forall no: U16 :: Once(no) ==> (no in t <==> Occurs(s, n, no)))
  }

  function Elements(t: seq<U16>): (r: set<U16>)
  {
    set x | x in t
  }

  lemma {:induction false} DistinctCount(t: seq<U16>)
    requires forall i, j :: 0 <= i < j < |t| ==> t[i] != t[j]
    ensures |Elements(t)| == |t|
  {
    if t != [] {
      DistinctCount(t[1..]);
      assert Elements(t) == {t[0]} + Elements(t[1..]);
      assert t[0] !in t[1..];
    }
  }

  lemma {:induction false} SubsetCount(a: set<U16>, b: set<U16>)
    requires a <= b
    ensures |a| <= |b|
  {
    if a != {} {
      var x :| x in a;
      SubsetCount(a - {x}, b - {x});
    }
  }

  lemma ThirteenNumbers()
    ensures |OnceNumbers| == 13
  {
    var t: seq<U16> := [3, 5, 6, 7, 12, 14, 17, 35, 39, 60, 28, 27, 23];
    DistinctCount(t);
    assert OnceNumbers == Elements(t);
  }

  /** There is always a free slot for a number that is not in the table yet. */
  lemma NeverFull(t: seq<U16>, k: nat, s: seq<Opt>, n: nat, no: U16)
    requires n <= |s| && Table(t, k, s, n) && Once(no) && no !in t
    ensures k < 13
  {
    hide Occurs;
    if k == 13 {
      DistinctCount(t + [no]);
      SubsetCount(Elements(t + [no]), OnceNumbers);
      ThirteenNumbers();
    }
  }

  lemma TableSlots(t: seq<U16>, k: nat, s: seq<Opt>, n: nat, no: U16)
    requires n <= |s| && Table(t, k, s, n)
    ensures k <= |t| == 13 && (forall i :: 0 <= i < k ==> t[i] != 0) && forall i :: k <= i < 13 ==> t[i] == 0
    ensures Once(no) ==> (no in t <==> Occurs(s, n, no))
  {
    hide Once, Occurs;
    NoZero();
  }

  lemma TableStep(t: seq<U16>, k: nat, s: seq<Opt>, n: nat, now: seq<U16>)
    requires n < |s| && Table(t, k, s, n)
    requires now == if Once(s[n].no) && s[n].no !in t && k < 13 then t[k := s[n].no] else t
    ensures Table(now, if now == t then k else k + 1, s, n + 1)
  {
    hide Occurs, Once;
    var no := s[n].no;
    if Once(no) && no !in t { NeverFull(t, k, s, n, no); }
    NoZero();
    forall m: U16 | Once(m) ensures m in now <==> Occurs(s, n + 1, m) {
      OccursStep(s, n, m);
      if Once(no) && no !in t {
        assert now[k] == no;
        assert m in t ==> exists i :: 0 <= i < k && t[i] == m && now[i] == m;
      }
    }
  }

  lemma NoZero()
    ensures !Once(0)
  {}

  /** find_option_no_in_repeat_array: 0xFF when the number is not there. */
  method FindInRepeatArray(scratch: array<U16>, no: U16) returns (idx: nat)
    requires scratch.Length == 13
    ensures idx == 0xFF <==> no !in scratch[..]
    ensures idx != 0xFF ==> idx < 13 && scratch[idx] == no
  {
    for i := 0 to scratch.Length
      invariant no !in scratch[..i]
    {
      if no == scratch[i] { return i; }
    }
    assert scratch[..] == scratch[..scratch.Length];
    return 0xFF;
  }

  /** add_option_no_to_repeat_array: into the first empty slot, if there is one. */
  method AddToRepeatArray(scratch: array<U16>, no: U16, ghost k: nat)
    requires k <= scratch.Length == 13
    requires forall i :: 0 <= i < k ==> scratch[i] != 0
    requires forall i :: k <= i < 13 ==> scratch[i] == 0
    modifies scratch
    ensures scratch[..] == if k < 13 then old(scratch[..])[k := no] else old(scratch[..])
  {
    for i := 0 to scratch.Length
      invariant i <= k && scratch[..] == old(scratch[..])
    {
      if 0 == scratch[i] {
        scratch[i] := no;
        return;
      }
    }
  }

  /** check_option_no_repeated. */
  method CheckNoRepeated(scratch: array<U16>, no: U16, ghost k: nat) returns (e: bv16)
    requires k <= scratch.Length == 13
    requires forall i :: 0 <= i < k ==> scratch[i] != 0
    requires forall i :: k <= i < 13 ==> scratch[i] == 0
    modifies scratch
    ensures e == RepeatError(no, no in old(scratch[..]))
    ensures scratch[..] == if no !in old(scratch[..]) && k < 13 then old(scratch[..])[k := no] else old(scratch[..])
  {
    var idx := FindInRepeatArray(scratch, no);
    if idx == 0xFF {
      AddToRepeatArray(scratch, no, k);
    } else {
      return if no % 2 == 1 then CRITICAL | REPEATED else REPEATED;
    }
    return 0;
  }

  /** check_option_for_length. */
  method CheckLength(o: Option, min: nat, max: nat) returns (e: bv16)
    ensures e == LenError(o.no, min <= |o.val| <= max)
  {
    if |o.val| < min || |o.val| > max {
      return if o.no % 2 == 1 then CRITICAL | LEN_RANGE else LEN_RANGE;
    }
    return 0;
  }

  /** The nodes of a list after a change: nodes that were there, or new ones. */
  twostate predicate OldOrFresh(was: seq<Option>, new now: seq<Option>)
  {
    forall i :: 0 <= i < |now| ==> now[i] in was || fresh(now[i])
  }

  class OptionsSet {
    const optionList: OptionList
    var status: bv32

    ghost predicate Valid()
      reads this, optionList, optionList.nodes
    {
      optionList.Valid() && Sorted(optionList.Contents())
    }

    constructor ()
      ensures Valid() && optionList.nodes == [] && status == 0 && fresh(optionList)
    {
      optionList := new OptionList();
      status := 0;
    }

    /** Add an option; only a failing allocation changes nothing. */
    method AddOption(no: U16, val: OptVal) returns (ret: ErrCode)
      requires Valid()
      modifies optionList, optionList.nodes
      ensures Valid() && (ret == OK || ret == OUT_OF_MEM)
      ensures ret == OK ==> optionList.Contents() == StableInsert(old(optionList.Contents()), Opt(no, val))
      ensures ret != OK ==> optionList.nodes == old(optionList.nodes)
      ensures ret != OK ==> optionList.Contents() == old(optionList.Contents())
      ensures OldOrFresh(old(optionList.nodes), optionList.nodes)
    {
      hide StableInsert;
      var available: bool := *;
      if available {
        var opt := new Option(no, val);
        InsertKeepsOrder(optionList.Contents(), Opt(no, val));
        optionList.Insert(opt);
        return OK;
      }
      return OUT_OF_MEM;
    }

    method FreeOptions() returns (ret: ErrCode)
      requires Valid()
      modifies optionList, optionList.nodes
      ensures ret == OK && Valid() && optionList.nodes == []
      ensures forall n :: n in old(optionList.nodes) ==> !n.live
    {
      optionList.FreeList();
      return OK;
    }

    /** Check every option; the scratch table may hold anything before. */
    method CheckOptions(scratch: array<U16>) returns (errMask: bv16)
      requires Valid() && scratch.Length == 13
      modifies this`status, scratch
      ensures Valid() && optionList.nodes == old(optionList.nodes)
      ensures MaskTells(errMask, optionList.Contents(), |optionList.Contents()|)
      ensures StatusTells(old(status), status, optionList.Contents(), |optionList.Contents()|)
    {
      hide CheckState, StatusTells, MaskTells, Sorted, Distinct, Following;
      ClearTable(scratch);
      errMask := CheckAll(scratch, optionList.first, optionList.nodes);
    }

    /** The loop over the list. */
    method CheckAll(scratch: array<U16>, first: Option?, ghost nodes: seq<Option>) returns (errMask: bv16)
      requires scratch.Length == 13 && forall i :: 0 <= i < 13 ==> scratch[i] == 0
      requires first == if nodes == [] then null else nodes[0]
      requires forall i :: 0 <= i < |nodes| ==> nodes[i].next == Following(nodes, i)
      modifies this`status, scratch
      ensures MaskTells(errMask, Values(nodes), |nodes|)
      ensures StatusTells(old(status), status, Values(nodes), |nodes|)
    {
      hide CheckState, StatusTells, MaskTells;
      errMask := 0;
      ghost var s, n, k := Values(nodes), 0, 0;
      CheckStart(s, scratch[..], status);
      var it := first;
      while it != null
        invariant n <= |s| && it == if n < |s| then nodes[n] else null
        invariant CheckState(scratch[..], k, errMask, old(status), status, s, n)
        decreases |s| - n
      {
        errMask, k := CheckNext(scratch, it, errMask, k, old(status), s, n);
        it := it.next;
        n := n + 1;
      }
      CheckDone(scratch[..], k, errMask, old(status), status, s);
    }

    /** The loop body. */
    method CheckNext(scratch: array<U16>, o: Option, errMask: bv16, ghost k: nat, ghost start: bv32,
                     ghost s: seq<Opt>, ghost n: nat) returns (mask: bv16, ghost k': nat)
      requires scratch.Length == 13 && n < |s| && s[n] == o.Get()
      requires CheckState(scratch[..], k, errMask, start, status, s, n)
      modifies this`status, scratch
      ensures CheckState(scratch[..], k', mask, start, status, s, n + 1)
    {
      hide CheckState, StatusTells, MaskTells, OptionError, Occurs, OrMask, Known, Once, Gains;
      ghost var t, was := scratch[..], status;
      var e := CheckOne(scratch, o, k, errMask, start, s, n);
      CheckStep(t, k, scratch[..], errMask, start, was, status, s, n);
      k' := if scratch[..] == t then k else k + 1;
      mask := OrMask(errMask, e);
    }

    /** The switch over the option number. */
    method CheckOne(scratch: array<U16>, o: Option, ghost k: nat, ghost mask: bv16, ghost start: bv32,
                    ghost s: seq<Opt>, ghost n: nat) returns (e: bv16)
      requires scratch.Length == 13 && n < |s| && s[n] == o.Get()
      requires CheckState(scratch[..], k, mask, start, status, s, n)
      modifies this`status, scratch
      ensures e == OptionError(s[n], Occurs(s, n, o.no))
      ensures if Known(o.no) then Gains(old(status), status, o.no) else status == old(status)
      ensures scratch[..] == if Once(o.no) && o.no !in old(scratch[..]) && k < 13 then old(scratch[..])[k := o.no]
                             else old(scratch[..])
    {
      hide Gains, Table, Occurs, OptionError, Row, Known, Once, MaskTells, StatusTells;
      TableRow(o.no);
      match o.no
      case 1 => e := CheckRepeatable(o, 0x1, 0, 8);
      case 3 => e := CheckSingle(scratch, o, 0x2, 1, 255, k, s, n);
      case 4 => e := CheckRepeatable(o, 0x4, 1, 8);
      case 5 => e := CheckSingle(scratch, o, 0x8, 0, 0, k, s, n);
      case 6 => e := CheckSingle(scratch, o, 0x4_0000, 0, 3, k, s, n);
      case 7 => e := CheckSingle(scratch, o, 0x10, 0, 2, k, s, n);
      case 8 => e := CheckRepeatable(o, 0x20, 0, 255);
      case 11 => e := CheckRepeatable(o, 0x40, 0, 255);
      case 12 => e := CheckSingle(scratch, o, 0x80, 0, 2, k, s, n);
      case 14 => e := CheckSingle(scratch, o, 0x100, 0, 4, k, s, n);
      case 15 => e := CheckRepeatable(o, 0x200, 0, 255);
      case 17 => e := CheckSingle(scratch, o, 0x400, 0, 2, k, s, n);
      case 20 => e := CheckRepeatable(o, 0x800, 0, 255);
      case 35 => e := CheckSingle(scratch, o, 0x1000, 1, 1034, k, s, n);
      case 39 => e := CheckSingle(scratch, o, 0x2000, 1, 255, k, s, n);
      case 60 => e := CheckSingle(scratch, o, 0x4000, 0, 4, k, s, n);
      case 28 => e := CheckSingle(scratch, o, 0x8000, 0, 4, k, s, n);
      case 27 => e := CheckSingle(scratch, o, 0x1_0000, 0, 3, k, s, n);
      case 23 => e := CheckSingle(scratch, o, 0x2_0000, 0, 3, k, s, n);
      case _ => e := CheckUnknown(o);
    }

    /** The default case of the switch. */
    method CheckUnknown(o: Option) returns (e: bv16)
      requires !Known(o.no)
      ensures forall seen :: e == OptionError(o.Get(), seen)
    {
      hide Known, Once;
      e := if o.no % 2 == 1 then CRITICAL | UNKNOWN else UNKNOWN;
    }

    /** A case of the switch for a number that may occur more than once. */
    method CheckRepeatable(o: Option, bit: bv32, min: nat, max: nat) returns (e: bv16)
      requires Row(o.no, false, bit, min, max)
      modifies this`status
      ensures forall seen :: e == OptionError(o.Get(), seen)
      ensures Known(o.no) && !Once(o.no)
      ensures Gains(old(status), status, o.no)
    {
      hide Known, Once, StatusBit, MinLen, MaxLen, Gains, LenError, Occurs, RepeatError, UnknownError, SetBit;
      SettingGains(status, o.no);
      status := SetBit(status, bit);
      e := CheckLength(o, min, max);
    }

    /** A case of the switch for a number that may occur only once. */
    method CheckSingle(scratch: array<U16>, o: Option, bit: bv32, min: nat, max: nat,
                       ghost k: nat, ghost s: seq<Opt>, ghost n: nat) returns (e: bv16)
      requires scratch.Length == 13 && n < |s| && s[n] == o.Get() && Table(scratch[..], k, s, n)
      requires Row(o.no, true, bit, min, max)
      modifies this`status, scratch
      ensures e == OptionError(s[n], Occurs(s, n, o.no))
      ensures Known(o.no) && Once(o.no)
      ensures Gains(old(status), status, o.no)
      ensures scratch[..] == if o.no !in old(scratch[..]) && k < 13 then old(scratch[..])[k := o.no]
                             else old(scratch[..])
    {
      hide Known, Once, StatusBit, MinLen, MaxLen, Gains, Occurs, LenError, RepeatError, UnknownError;
      hide SetBit, OrMask, Table;
      TableSlots(scratch[..], k, s, n, o.no);
      SettingGains(status, o.no);
      status := SetBit(status, bit);
      e := CheckLength(o, min, max);
      var r := CheckNoRepeated(scratch, o.no, k);
      e := OrMask(e, r);
    }
  }

  predicate Row(no: U16, once: bool, bit: bv32, min: nat, max: nat)
  {
    Known(no) && Once(no) == once && StatusBit(no) == bit && MinLen(no) == min && MaxLen(no) == max
  }

  /** The option table, row by row. */
  lemma TableRow(no: U16)
    ensures Row(1, false, 0x1, 0, 8) && Row(3, true, 0x2, 1, 255) && Row(4, false, 0x4, 1, 8)
    ensures Row(5, true, 0x8, 0, 0) && Row(6, true, 0x4_0000, 0, 3) && Row(7, true, 0x10, 0, 2)
    ensures Row(8, false, 0x20, 0, 255) && Row(11, false, 0x40, 0, 255) && Row(12, true, 0x80, 0, 2)
    ensures Row(14, true, 0x100, 0, 4) && Row(15, false, 0x200, 0, 255) && Row(17, true, 0x400, 0, 2)
    ensures Row(20, false, 0x800, 0, 255) && Row(35, true, 0x1000, 1, 1034) && Row(39, true, 0x2000, 1, 255)
    ensures Row(60, true, 0x4000, 0, 4) && Row(28, true, 0x8000, 0, 4)
    ensures Row(27, true, 0x1_0000, 0, 3) && Row(23, true, 0x2_0000, 0, 3)
    ensures Known(no) ==> no in [1, 3, 4, 5, 6, 7, 8, 11, 12, 14, 15, 17, 20, 23, 27, 28, 35, 39, 60]
    ensures Once(no) ==> Known(no)
  {
    hide Row;
    LowRows();
    HighRows();
    Numbers(no);
  }

  lemma LowRows()
    ensures Row(1, false, 0x1, 0, 8) && Row(3, true, 0x2, 1, 255) && Row(4, false, 0x4, 1, 8)
    ensures Row(5, true, 0x8, 0, 0) && Row(6, true, 0x4_0000, 0, 3) && Row(7, true, 0x10, 0, 2)
    ensures Row(8, false, 0x20, 0, 255) && Row(11, false, 0x40, 0, 255) && Row(12, true, 0x80, 0, 2)
  {}

  lemma HighRows()
    ensures Row(14, true, 0x100, 0, 4) && Row(15, false, 0x200, 0, 255) && Row(17, true, 0x400, 0, 2)
    ensures Row(20, false, 0x800, 0, 255) && Row(35, true, 0x1000, 1, 1034) && Row(39, true, 0x2000, 1, 255)
    ensures Row(60, true, 0x4000, 0, 4) && Row(28, true, 0x8000, 0, 4)
    ensures Row(27, true, 0x1_0000, 0, 3) && Row(23, true, 0x2_0000, 0, 3)
  {}

  lemma Numbers(no: U16)
    ensures Known(no) ==> no in [1, 3, 4, 5, 6, 7, 8, 11, 12, 14, 15, 17, 20, 23, 27, 28, 35, 39, 60]
    ensures Once(no) ==> Known(no)
  {}

  /** Every slot is emptied before the check. */
  method ClearTable(scratch: array<U16>)
    requires scratch.Length == 13
    modifies scratch
    ensures forall i :: 0 <= i < 13 ==> scratch[i] == 0
  {
    for i := 0 to scratch.Length
      invariant forall j :: 0 <= j < i ==> scratch[j] == 0
    {
      scratch[i] := 0;
    }
  }

  /** What holds after the first n options have been checked. */
  ghost predicate CheckState(t: seq<U16>, k: nat, mask: bv16, start: bv32, status: bv32, s: seq<Opt>, n: nat)
    requires n <= |s|
  {
    Table(t, k, s, n) && MaskTells(mask, s, n) && StatusTells(start, status, s, n)
  }

  lemma CheckStep(t: seq<U16>, k: nat, now: seq<U16>, mask: bv16, start: bv32, was: bv32, status: bv32,
                  s: seq<Opt>, n: nat)
    requires n < |s| && CheckState(t, k, mask, start, was, s, n) && |t| == 13
    requires if Known(s[n].no) then Gains(was, status, s[n].no) else status == was
    requires now == if Once(s[n].no) && s[n].no !in t && k < 13 then t[k := s[n].no] else t
    ensures CheckState(now, if now == t then k else k + 1,
                       OrMask(mask, OptionError(s[n], Occurs(s, n, s[n].no))), start, status, s, n + 1)
  {
    hide Table, MaskTells, StatusTells, Known, Once, Gains, OrMask, OptionError, Occurs;
    MaskStep(mask, s, n);
    TableStep(t, k, s, n, now);
    StatusStep(start, was, status, s, n);
  }

  lemma CheckDone(t: seq<U16>, k: nat, mask: bv16, start: bv32, status: bv32, s: seq<Opt>)
    requires CheckState(t, k, mask, start, status, s, |s|)
    ensures MaskTells(mask, s, |s|) && StatusTells(start, status, s, |s|)
  {}

  lemma CheckStart(s: seq<Opt>, t: seq<U16>, status: bv32)
    requires |t| == 13 && forall i :: 0 <= i < 13 ==> t[i] == 0
    ensures CheckState(t, 0, 0, status, status, s, 0)
  {
    hide Once;
    NoZero();
  }
}
