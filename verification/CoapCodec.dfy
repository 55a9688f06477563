/** The option encoder and the two option parsers of the message codec. */
module CoapCodec {
  import opened OptionOrder
  import opened CoapWire
  import opened CoapOption
  import opened CoapOptionSet

  datatype Pointer = Null | At(index: nat)

  // ----- encoding -----

  /** Write the list's options into outBuff; bufLen is a 16-bit count, so the options must take
      less than 65536 bytes. */
  method EncodeOptions(list: OptionList, outBuff: array<Byte>) returns (bufLen: nat)
    requires list.Valid() && list.nodes != []
    requires |Wire(Raws(list.Contents(), 0))| <= outBuff.Length
    requires |Wire(Raws(list.Contents(), 0))| < 65536
    modifies outBuff
    ensures bufLen == |Wire(Raws(list.Contents(), 0))|
    ensures outBuff[..bufLen] == Wire(Raws(list.Contents(), 0))
    ensures forall k :: bufLen <= k < outBuff.Length ==> outBuff[k] == old(outBuff[k])
  {
    hide Wire, RawBytes, RawFor, Distinct, Raws, AllWellFormed, Encoded;
    var curByteIdx: nat := 0;
    var lastOptionNo: U16 := 0;
    var curOption := list.first;
    ghost var s, n: nat := list.Contents(), 0;
    ghost var nodes := list.nodes;
    EncodedStart(outBuff[..], s);
    while true
      invariant n < |s| && curOption == nodes[n]
      invariant forall i :: 0 <= i < |nodes| ==> nodes[i].next == Following(nodes, i)
      invariant Encoded(outBuff[..], curByteIdx, s, n, lastOptionNo)
      invariant forall k :: curByteIdx <= k < outBuff.Length ==> outBuff[k] == old(outBuff[k])
      decreases |s| - n
    {
      ghost var was, i, last := outBuff[..], curByteIdx, lastOptionNo;
      assert s[n] == curOption.Get();
      EncodedRoom(was, i, s, n, last);
      curByteIdx := EncodeOne(curOption, outBuff, curByteIdx, lastOptionNo);
      EncodedStep(was, i, s, n, last, outBuff[..], curByteIdx);
      lastOptionNo := curOption.no;
      var it := curOption.next;
      n := n + 1;
      if it == null { break; }
      curOption := it;
    }
    EncodedDone(outBuff[..], curByteIdx, s, lastOptionNo);
    return curByteIdx;
  }

  /** The loop body: one option with its header, its extended delta and length, and its value. */
  method EncodeOne(curOption: Option, outBuff: array<Byte>, start: nat, lastOptionNo: U16) returns (i: nat)
    requires start + |RawBytes(RawFor(curOption.Get(), lastOptionNo))| <= outBuff.Length
    modifies outBuff
    ensures i == start + |RawBytes(RawFor(curOption.Get(), lastOptionNo))|
    ensures outBuff[..i] == old(outBuff[..start]) + RawBytes(RawFor(curOption.Get(), lastOptionNo))
    ensures forall k :: i <= k < outBuff.Length ==> outBuff[k] == old(outBuff[k])
  {
    hide FieldOf, Extra, Nibble;
    ghost var r := RawFor(curOption.Get(), lastOptionNo);
    var curDelta: U16 := (curOption.no - lastOptionNo) % 65536;
    var curOptionLen := |curOption.val|;
    i := start + 1;
    outBuff[start] := 0;
    i := PutField(outBuff, start, 16, i, curDelta);
    assert outBuff[..i] == old(outBuff[..start]) + [Nibble(r.delta) * 16] + Extra(r.delta);
    i := PutField(outBuff, start, 1, i, curOptionLen);
    assert outBuff[..i] == old(outBuff[..start]) + [Header(r)] + Extra(r.delta) + Extra(r.len);
    ghost var front := outBuff[..i];
    i := PutValue(outBuff, i, curOption.val);
    assert outBuff[..i] == front + r.val;
    AppendFront(old(outBuff[..start]), [Header(r)] + Extra(r.delta) + Extra(r.len), r.val);
  }

  /** A delta or a length: its nibble is or-ed into the header, whose bits there are still zero;
      its further bytes go to position i. The byte for 13 to 268 is computed in 8 bits. */
  method PutField(outBuff: array<Byte>, header: nat, weight: nat, i: nat, x: U16) returns (j: nat)
    requires header < i && i + |Extra(FieldOf(x))| <= outBuff.Length
    requires (weight == 1 || weight == 16) && outBuff[header] + Nibble(FieldOf(x)) * weight < 256
    modifies outBuff
    ensures j == i + |Extra(FieldOf(x))|
    ensures outBuff[..j] ==
            old(outBuff[..i])[header := old(outBuff[header]) + Nibble(FieldOf(x)) * weight] + Extra(FieldOf(x))
    ensures forall k :: j <= k < outBuff.Length ==> outBuff[k] == old(outBuff[k])
  {
    hide Extra;
    outBuff[header] := outBuff[header] + (if x < 13 then x else if x < 269 then 13 else 14) * weight;
    j := PutExtra(outBuff, i, x);
  }

  method PutExtra(outBuff: array<Byte>, i: nat, x: U16) returns (j: nat)
    requires i + |Extra(FieldOf(x))| <= outBuff.Length
    modifies outBuff
    ensures j == i + |Extra(FieldOf(x))|
    ensures outBuff[..j] == old(outBuff[..i]) + Extra(FieldOf(x))
    ensures forall k :: j <= k < outBuff.Length ==> outBuff[k] == old(outBuff[k])
  {
    j := i;
    if 13 <= x < 269 {
      outBuff[j] := (x % 256 - 13) % 256;
      j := j + 1;
    } else if 269 <= x {
      outBuff[j] := (x - 269) / 256;
      j := j + 1;
      outBuff[j] := (x - 269) % 256;
      j := j + 1;
    }
  }

  method PutValue(outBuff: array<Byte>, i: nat, val: seq<Byte>) returns (j: nat)
    requires i + |val| <= outBuff.Length
    modifies outBuff
    ensures j == i + |val|
    ensures outBuff[..j] == old(outBuff[..i]) + val
    ensures forall k :: j <= k < outBuff.Length ==> outBuff[k] == old(outBuff[k])
  {
    j := i;
    for t := 0 to |val|
      invariant j == i + t
      invariant outBuff[..j] == old(outBuff[..i]) + val[..t]
      invariant forall k :: j <= k < outBuff.Length ==> outBuff[k] == old(outBuff[k])
    {
      outBuff[j] := val[t];
      j := j + 1;
    }
  }

  /** The first n options are written to buf[..i], and `last` is the number of the last of them. */
  ghost predicate Encoded(buf: seq<Byte>, i: nat, s: seq<Opt>, n: nat, last: U16)
  {
    && n <= |s| && i <= |buf|
    && buf[..i] + Wire(Raws(s[n..], last)) == Wire(Raws(s, 0))
  }

  lemma EncodedStart(buf: seq<Byte>, s: seq<Opt>)
    ensures Encoded(buf, 0, s, 0, 0)
  {
    assert s[0..] == s;
    assert buf[..0] + Wire(Raws(s, 0)) == Wire(Raws(s, 0));
  }

  lemma EncodedRoom(buf: seq<Byte>, i: nat, s: seq<Opt>, n: nat, last: U16)
    requires n < |s| && Encoded(buf, i, s, n, last)
    ensures i + |RawBytes(RawFor(s[n], last))| <= |Wire(Raws(s, 0))|
  {
    hide Wire, RawBytes, RawFor;
    RawsFirst(s, n, last);
  }

  lemma EncodedDone(buf: seq<Byte>, i: nat, s: seq<Opt>, last: U16)
    requires Encoded(buf, i, s, |s|, last)
    ensures i <= |buf| && buf[..i] == Wire(Raws(s, 0))
  {
    assert s[|s|..] == [];
    assert buf[..i] + [] == buf[..i];
  }

  lemma EncodedStep(buf: seq<Byte>, i: nat, s: seq<Opt>, n: nat, last: U16, now: seq<Byte>, j: nat)
    requires n < |s| && Encoded(buf, i, s, n, last) && |now| == |buf|
    requires j <= |now| && now[..j] == buf[..i] + RawBytes(RawFor(s[n], last))
    ensures Encoded(now, j, s, n + 1, s[n].no)
  {
    hide Wire, RawBytes, RawFor;
    RawsFirst(s, n, last);
    AppendFront(buf[..i], RawBytes(RawFor(s[n], last)), Wire(Raws(s[n + 1..], s[n].no)));
  }

  lemma RawsFirst(s: seq<Opt>, n: nat, last: U16)
    requires n < |s|
    ensures Wire(Raws(s[n..], last)) == RawBytes(RawFor(s[n], last)) + Wire(Raws(s[n + 1..], s[n].no))
  {
    hide RawBytes, RawFor;
    assert s[n..][1..] == s[n + 1..];
    WireCons(RawFor(s[n], last), Raws(s[n + 1..], s[n].no));
  }

  // ----- parsing -----

  /** Status and payload position that belong to what was decoded. */
  function StatusOf(d: Decoded): (ret: ErrCode)
  {
    if d.Malformed? then MSG_FORMAT_ERROR else OK
  }

  function PayloadAt(d: Decoded, optionLen: nat): (p: Pointer)
    requires d.Good? ==> |d.payload| <= optionLen
  {
    if d.Malformed? || d.payload == [] then Null else At(optionLen - |d.payload|)
  }

  /** Parse without building options. Up to three bytes behind the options may be read; they do not
      matter. */
  method ParseOnlyOptions(inByteArray: array<Byte>, optionLen: nat) returns (status: ErrCode, payloadStart: Pointer)
    requires 0 < optionLen <= 65530 && optionLen + 3 <= inByteArray.Length
    ensures var d := Decode(inByteArray[..optionLen]);
      status == StatusOf(d) && (d.Good? ==> |d.payload| <= optionLen) && payloadStart == PayloadAt(d, optionLen)
  {
    hide Rest, Take, Acceptable, Progress, Decode, ByteExtended, WordExtended;
    var curByteIndex: U16 := 0;
    var lastOptionNum: U16 := 0;
    payloadStart := Null;
    ghost var m, b := inByteArray[..], inByteArray[..optionLen];
    ghost var rs: seq<Raw> := [];
    if inByteArray[0] == 255 {
      MarkerFirst(b);
      return MSG_FORMAT_ERROR, payloadStart;
    }
    ProgressStart(b);
    while curByteIndex < optionLen
      invariant curByteIndex <= optionLen && payloadStart == Null
      invariant Progress(b, curByteIndex, rs, lastOptionNum)
      decreases optionLen - curByteIndex
    {
      if inByteArray[curByteIndex] == 255 {
        ProgressMarker(b, curByteIndex, rs, lastOptionNum);
        if optionLen - curByteIndex < 2 {
          return MSG_FORMAT_ERROR, payloadStart;
        } else {
          curByteIndex := curByteIndex + 1;
          payloadStart := At(curByteIndex);
          return OK, payloadStart;
        }
      } else {
        ghost var start := curByteIndex;
        var option_delta: U16 := inByteArray[curByteIndex] / 16;
        var option_length: U16 := inByteArray[curByteIndex] % 16;
        curByteIndex := curByteIndex + 1;
        if option_delta == 13 || option_delta == 14 {
          option_delta, curByteIndex := ReadExtended(inByteArray, option_delta, curByteIndex);
        } else if option_delta == 15 {
          ProgressBad(m, optionLen, start, rs, lastOptionNum);
          return MSG_FORMAT_ERROR, payloadStart;
        }
        if option_length == 13 || option_length == 14 {
          option_length, curByteIndex := ReadExtended(inByteArray, option_length, curByteIndex);
        } else if option_length == 15 {
          ProgressBad(m, optionLen, start, rs, lastOptionNum);
          return MSG_FORMAT_ERROR, payloadStart;
        }
        ReadStep(m, optionLen, start, rs, lastOptionNum);
        assert option_delta == ReadDelta(m, start) && option_length == ReadLength(m, start);
        assert curByteIndex == ValueStart(m, start);
        if option_length > MAX_OPTION_SIZE || optionLen - curByteIndex < option_length {
          return MSG_FORMAT_ERROR, payloadStart;
        }
        lastOptionNum := (lastOptionNum + option_delta) % 65536;
        curByteIndex := curByteIndex + option_length;
        rs := rs + [Take(b[start..]).raw];
      }
    }
    ProgressDone(b, rs, lastOptionNum);
    return OK, payloadStart;
  }

  /** Parse and add every option to the set; on any error the set is emptied. */
  method ParseOptions(options: OptionsSet, inByteArray: array<Byte>, optionLen: nat)
    returns (status: ErrCode, payloadStart: Pointer)
    requires options.Valid() && 0 < optionLen <= 65530 && optionLen + 3 <= inByteArray.Length
    modifies options.optionList, options.optionList.nodes
    ensures options.Valid()
    ensures var d := Decode(inByteArray[..optionLen]);
      && (status == OUT_OF_MEM || status == StatusOf(d))
      && (d.Good? ==> |d.payload| <= optionLen && AllAcceptable(d.raws))
      && payloadStart == (if status == OK then PayloadAt(d, optionLen) else Null)
      && (status == OK ==>
            options.optionList.Contents() == InsertAll(old(options.optionList.Contents()), Meanings(d.raws, 0)))
    ensures status != OK ==> options.optionList.nodes == []
  {
    status, payloadStart := ParseAndAdd(options, inByteArray, optionLen, options.optionList.Contents());
    if status != OK {
      var _ := options.FreeOptions();
    }
  }

  /** The parser up to its exit label. */
  method ParseAndAdd(options: OptionsSet, inByteArray: array<Byte>, optionLen: nat, ghost was: seq<Opt>)
    returns (status: ErrCode, payloadStart: Pointer)
    requires options.Valid() && 0 < optionLen <= 65530 && optionLen + 3 <= inByteArray.Length
    requires was == options.optionList.Contents()
    modifies options.optionList, options.optionList.nodes
    ensures options.Valid()
    ensures var d := Decode(inByteArray[..optionLen]);
      && (status == OUT_OF_MEM || status == StatusOf(d))
      && (d.Good? ==> |d.payload| <= optionLen && AllAcceptable(d.raws))
      && payloadStart == (if status == OK then PayloadAt(d, optionLen) else Null)
      && (status == OK ==> options.optionList.Contents() == InsertAll(was, Meanings(d.raws, 0)))
    ensures OldOrFresh(old(options.optionList.nodes), options.optionList.nodes)
  {
    hide Rest, Take, Acceptable, Progress, Decode, Meanings, Loaded, InsertAll, LastNo;
    hide OptionsSet.Valid, OptionList.Valid, OptionList.Contents;
    var curByteIndex: U16 := 0;
    var lastOptionNum: U16 := 0;
    payloadStart := Null;
    ghost var m, b := inByteArray[..], inByteArray[..optionLen];
    ghost var rs: seq<Raw> := [];
    DecodedSize(b);
    if inByteArray[0] == 255 {
      MarkerFirst(b);
      return MSG_FORMAT_ERROR, payloadStart;
    }
    ProgressStart(b);
    LoadedStart(was);
    while curByteIndex < optionLen
      invariant curByteIndex <= optionLen && payloadStart == Null
      invariant Progress(b, curByteIndex, rs, lastOptionNum)
      invariant options.Valid() && Loaded(was, rs, options.optionList.Contents())
      invariant OldOrFresh(old(options.optionList.nodes), options.optionList.nodes)
      decreases optionLen - curByteIndex
    {
      if inByteArray[curByteIndex] == 255 {
        ProgressMarker(b, curByteIndex, rs, lastOptionNum);
        if optionLen - curByteIndex < 2 {
          return MSG_FORMAT_ERROR, payloadStart;
        } else {
          curByteIndex := curByteIndex + 1;
          payloadStart := At(curByteIndex);
          LoadedDone(was, rs, options.optionList.Contents());
          return OK, payloadStart;
        }
      } else {
        ghost var start, last := curByteIndex, lastOptionNum;
        var ok, option_delta, option_length, next := ReadOption(inByteArray, optionLen, curByteIndex, rs, last);
        if !ok {
          return MSG_FORMAT_ERROR, payloadStart;
        }
        curByteIndex := next;
        lastOptionNum := (lastOptionNum + option_delta) % 65536;
        ghost var raw := Take(b[start..]).raw;
        status := LoadOption(options, lastOptionNum, inByteArray[curByteIndex..curByteIndex + option_length],
                             was, rs, raw);
        if status != OK {
          return status, payloadStart;
        }
        curByteIndex := curByteIndex + option_length;
        rs := rs + [raw];
      }
    }
    ProgressDone(b, rs, lastOptionNum);
    LoadedDone(was, rs, options.optionList.Contents());
    return OK, payloadStart;
  }

  /** Add one parsed option to the set. */
  method LoadOption(options: OptionsSet, no: U16, value: OptVal, ghost was: seq<Opt>,
                    ghost rs: seq<Raw>, ghost raw: Raw)
    returns (status: ErrCode)
    requires options.Valid() && Loaded(was, rs, options.optionList.Contents())
    requires Acceptable(raw) && raw.val == value && AllAcceptable(rs + [raw]) && LastNo(rs + [raw], 0) == no
    modifies options.optionList, options.optionList.nodes
    ensures options.Valid() && (status == OK || status == OUT_OF_MEM)
    ensures status == OK ==> Loaded(was, rs + [raw], options.optionList.Contents())
    ensures OldOrFresh(old(options.optionList.nodes), options.optionList.nodes)
  {
    hide Loaded, Acceptable, StableInsert, LastNo;
    hide OptionsSet.Valid, OptionList.Valid, OptionList.Contents;
    LoadedStep(was, rs, options.optionList.Contents(), raw, no);
    status := options.AddOption(no, value);
  }

  /** Header, extended delta and extended length of the option at position `start`, as the first
      half of the loop body of ParseOptions reads them; not ok when the format is violated. */
  method ReadOption(inByteArray: array<Byte>, optionLen: nat, start: U16, ghost rs: seq<Raw>, ghost last: U16)
    returns (ok: bool, option_delta: U16, option_length: U16, curByteIndex: U16)
    requires start < optionLen <= 65530 && optionLen + 3 <= inByteArray.Length && inByteArray[start] != 255
    requires Progress(inByteArray[..optionLen], start, rs, last)
    ensures !ok ==> Decode(inByteArray[..optionLen]) == Malformed
    ensures ok ==> (
      start < curByteIndex && curByteIndex + option_length <= optionLen && option_length <= MAX_OPTION_SIZE
      && var b := inByteArray[..optionLen]; var no := (last + option_delta) % 65536;
        && Take(b[start..]).Took? && Acceptable(Take(b[start..]).raw)
        && AllAcceptable(rs + [Take(b[start..]).raw]) && LastNo(rs + [Take(b[start..]).raw], 0) == no
        && Take(b[start..]).raw.val == inByteArray[curByteIndex..curByteIndex + option_length]
        && Progress(b, curByteIndex + option_length, rs + [Take(b[start..]).raw], no))
  {
    hide Rest, Take, Acceptable, Progress, Decode, ByteExtended, WordExtended, AllAcceptable, LastNo;
    ghost var m := inByteArray[..];
    assert m[..optionLen] == inByteArray[..optionLen];
    curByteIndex := start;
    option_delta := inByteArray[curByteIndex] / 16;
    option_length := inByteArray[curByteIndex] % 16;
    curByteIndex := curByteIndex + 1;
    if option_delta == 13 || option_delta == 14 {
      option_delta, curByteIndex := ReadExtended(inByteArray, option_delta, curByteIndex);
    } else if option_delta == 15 {
      ProgressBad(m, optionLen, start, rs, last);
      ok := false;
      return;
    }
    if option_length == 13 || option_length == 14 {
      option_length, curByteIndex := ReadExtended(inByteArray, option_length, curByteIndex);
    } else if option_length == 15 {
      ProgressBad(m, optionLen, start, rs, last);
      ok := false;
      return;
    }
    ReadStep(m, optionLen, start, rs, last);
    assert option_delta == ReadDelta(m, start) && option_length == ReadLength(m, start);
    assert curByteIndex == ValueStart(m, start);
    ok := option_length <= MAX_OPTION_SIZE && option_length <= optionLen - curByteIndex;
  }

  /** s is what the list `was` became when the options meant by rs were added to it. */
  ghost predicate Loaded(was: seq<Opt>, rs: seq<Raw>, s: seq<Opt>)
  {
    AllAcceptable(rs) && s == InsertAll(was, Meanings(rs, 0))
  }

  lemma LoadedStart(was: seq<Opt>)
    ensures Loaded(was, [], was)
  {}

  lemma LoadedStep(was: seq<Opt>, rs: seq<Raw>, s: seq<Opt>, r: Raw, no: U16)
    requires Loaded(was, rs, s) && Acceptable(r) && AllAcceptable(rs + [r]) && LastNo(rs + [r], 0) == no
    ensures |r.val| < 65536 && Loaded(was, rs + [r], StableInsert(s, Opt(no, r.val)))
  {
    hide Acceptable, StableInsert, LastNo, Meanings;
    MeaningsSnoc(rs, r, 0);
    var all, o := Meanings(rs, 0), Opt(no, r.val);
    assert (all + [o])[..|all|] == all;
  }

  lemma LoadedDone(was: seq<Opt>, rs: seq<Raw>, s: seq<Opt>)
    requires Loaded(was, rs, s)
    ensures AllAcceptable(rs) && s == InsertAll(was, Meanings(rs, 0))
  {}

  lemma DecodedSize(b: seq<Byte>)
    ensures Decode(b).Good? ==> |Decode(b).payload| <= |b| && AllAcceptable(Decode(b).raws)
  {
    hide Rest;
    if Rest(b).Good? { RestSound(b); }
  }

  /** A list in order whose deltas and lengths are carried is rebuilt from its encoding, and the
      payload is found. */
  lemma ListRebuilt(s: seq<Opt>, payload: seq<Byte>)
    requires s != [] && Sorted(s) && Fits(s, 0)
    ensures var b := Form(Raws(s, 0), payload); var d := Decode(b);
      && d.Good? && d.payload == payload && AllAcceptable(d.raws) && InsertAll([], Meanings(d.raws, 0)) == s
      && PayloadAt(d, |b|) == if payload == [] then Null else At(|b| - |payload|)
  {
    hide Rest, Fits, Raws, Meanings, InsertAll, Sorted, Form;
    RoundTrip(s, payload);
    InsertAllSorted(s);
    DecodedSize(Form(Raws(s, 0), payload));
  }

  /** The value of a field whose nibble is 13 or 14, and the position behind it. Both bytes of a
      16-bit value are read from the same place. */
  method ReadExtended(inByteArray: array<Byte>, nibble: Byte, curByteIndex: U16) returns (value: U16, next: U16)
    requires curByteIndex + 2 < 65536 && curByteIndex < inByteArray.Length && 13 <= nibble <= 14
    ensures value == ReadField(inByteArray[..], nibble, curByteIndex)
    ensures next == curByteIndex + ExtraSize(nibble)
  {
    if nibble == 13 {
      value := ByteExtended(inByteArray[curByteIndex]);
      next := curByteIndex + 1;
    } else {
      value := WordExtended(inByteArray[curByteIndex], inByteArray[curByteIndex]);
      next := curByteIndex + 2;
    }
  }

  // ----- what has been parsed so far -----

  /** rs are the raw options in b[..i], the last of them numbered `last`; what b decodes to depends
      on what follows. */
  ghost predicate Progress(b: seq<Byte>, i: nat, rs: seq<Raw>, last: U16)
  {
    i <= |b| && AllAcceptable(rs) && LastNo(rs, 0) == last && Decode(b) == Prepend(rs, Rest(b[i..]))
  }

  lemma MarkerFirst(b: seq<Byte>)
    requires b != [] && b[0] == 255
    ensures Decode(b) == Malformed
  {}

  lemma ProgressStart(b: seq<Byte>)
    requires b != [] && b[0] != 255
    ensures Progress(b, 0, [], 0)
  {
    hide Rest;
    assert b[0..] == b;
    PrependNothing(Rest(b));
    NoMeanings(0);
  }

  lemma PrependNothing(d: Decoded)
    ensures Prepend([], d) == d
  {}

  lemma ProgressMarker(b: seq<Byte>, i: nat, rs: seq<Raw>, last: U16)
    requires i < |b| && b[i] == 255 && Progress(b, i, rs, last)
    ensures Decode(b) == if |b| - i < 2 then Malformed else Good(rs, b[i + 1..])
  {
    assert b[i..][1..] == b[i + 1..];
    assert rs + [] == rs;
  }

  lemma ProgressDone(b: seq<Byte>, rs: seq<Raw>, last: U16)
    requires Progress(b, |b|, rs, last)
    ensures Decode(b) == Good(rs, []) && AllAcceptable(rs) && LastNo(rs, 0) == last
  {
    assert rs + [] == rs;
  }

  /** What the code computes from the bytes m for a field with the given nibble; its further bytes
      stand at position i. */
  function ReadField(m: seq<Byte>, nibble: Byte, i: nat): (n: U16)
    requires i < |m|
  {
    if nibble == 13 then ByteExtended(m[i])
    else if nibble == 14 then WordExtended(m[i], m[i])
    else nibble
  }

  function ReadDelta(m: seq<Byte>, c: nat): (n: U16)
    requires c + 3 < |m|
  {
    ReadField(m, m[c] / 16, c + 1)
  }

  function ReadLength(m: seq<Byte>, c: nat): (n: U16)
    requires c + 3 < |m|
  {
    ReadField(m, m[c] % 16, c + 1 + ExtraSize(m[c] / 16))
  }

  function ValueStart(m: seq<Byte>, c: nat): (n: nat)
    requires c < |m|
  {
    c + 1 + ExtraSize(m[c] / 16) + ExtraSize(m[c] % 16)
  }

  /** The code's reading, which may run past the end, and the option at the start of the rest. */
  lemma ReadIsTake(m: seq<Byte>, len: nat, c: nat)
    requires c < len && len + 3 <= |m| && m[c] / 16 != 15 && m[c] % 16 != 15
    ensures var t := Take(m[c..len]); var v := ValueStart(m, c); var n := ReadLength(m, c);
      && (t.Nothing? <==> n > MAX_OPTION_SIZE || len - v < n)
      && (t.Took? ==> Meaning(t.raw.delta) == ReadDelta(m, c) && t.size == v + n - c && t.raw.val == m[v..v + n])
  {
    hide Meaning, FieldAt, ReadField, ExtraSize, Take;
    var b := m[c..len];
    var d, l := m[c] / 16, m[c] % 16;
    assert b[0] == m[c];
    TakeParts(b);
    var v, n := ValueStart(m, c), ReadLength(m, c);
    if v <= len {
      SameField(m, len, c, d, 1);
      SameField(m, len, c, l, 1 + ExtraSize(d));
      if v + n <= len { SliceOfSlice(m, c, len, v - c, v + n - c); }
    }
  }

  lemma TakeParts(b: seq<Byte>)
    requires b != [] && b[0] / 16 != 15 && b[0] % 16 != 15
    ensures var d, l := b[0] / 16, b[0] % 16; var i := 1 + ExtraSize(d); var j := i + ExtraSize(l);
      if j > |b| then Take(b) == Nothing
      else var n := Meaning(FieldAt(b, l, i));
        Take(b) == if n > MAX_OPTION_SIZE || j + n > |b| then Nothing
                   else Took(Raw(FieldAt(b, d, 1), FieldAt(b, l, i), b[j..j + n]), j + n)
  {
    hide Meaning, FieldAt, ExtraSize;
  }

  lemma SliceOfSlice(m: seq<Byte>, c: nat, len: nat, i: nat, j: nat)
    requires c <= len <= |m| && i <= j <= len - c
    ensures m[c..len][i..j] == m[c + i..c + j]
  {
    assert forall k :: 0 <= k < j - i ==> m[c..len][i..j][k] == m[c + i + k];
  }

  lemma SameField(m: seq<Byte>, len: nat, c: nat, nibble: Byte, i: nat)
    requires c + i + ExtraSize(nibble) <= len < |m|
    ensures Meaning(FieldAt(m[c..len], nibble, i)) == ReadField(m, nibble, c + i)
  {}

  /** A reserved nibble. */
  lemma ProgressBad(m: seq<Byte>, len: nat, c: nat, rs: seq<Raw>, last: U16)
    requires c < len <= |m| && m[c] != 255 && (m[c] / 16 == 15 || m[c] % 16 == 15)
    requires Progress(m[..len], c, rs, last)
    ensures Decode(m[..len]) == Malformed
  {
    assert m[..len][c..][0] == m[c];
  }

  lemma ReadStep(m: seq<Byte>, len: nat, c: nat, rs: seq<Raw>, last: U16)
    requires c < len && len + 3 <= |m| && m[c] != 255 && m[c] / 16 != 15 && m[c] % 16 != 15
    requires Progress(m[..len], c, rs, last)
    ensures var b, v, n := m[..len], ValueStart(m, c), ReadLength(m, c);
      && (n > MAX_OPTION_SIZE || len - v < n ==> Decode(b) == Malformed)
      && (n <= MAX_OPTION_SIZE && n <= len - v ==>
            && Take(b[c..]).Took? && Take(b[c..]).raw.val == m[v..v + n] && Acceptable(Take(b[c..]).raw)
            && AllAcceptable(rs + [Take(b[c..]).raw])
            && LastNo(rs + [Take(b[c..]).raw], 0) == (last + ReadDelta(m, c)) % 65536
            && Progress(b, v + n, rs + [Take(b[c..]).raw], (last + ReadDelta(m, c)) % 65536))
  {
    hide Take, Acceptable, Meaning, ReadDelta, ReadLength, ValueStart, LastNo;
    var b := m[..len];
    assert b[c..] == m[c..len];
    ReadIsTake(m, len, c);
    var t := Take(b[c..]);
    if t.Took? {
      TakeIsFront(b[c..]);
      MeaningsSnoc(rs, t.raw, 0);
      var rest := b[c..][t.size..];
      assert rest == b[c + t.size..];
      PrependTwice(rs, t.raw, Rest(rest));
    }
  }

  lemma PrependTwice(rs: seq<Raw>, r: Raw, d: Decoded)
    ensures Prepend(rs, Prepend([r], d)) == Prepend(rs + [r], d)
  {
    if d.Good? { assert rs + ([r] + d.raws) == (rs + [r]) + d.raws; }
  }
}
