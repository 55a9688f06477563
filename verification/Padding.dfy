/** The padding schemes of the cipher layer, for 16-byte blocks. */
module Padding {
  import opened BlockCipher

  datatype Scheme = NoPadding | Pkcs7 | OneAndZeros | ZerosAndLen | Zeros

  function Fill(n: nat, b: Byte): (s: seq<Byte>)
    ensures |s| == n && forall i :: 0 <= i < n ==> s[i] == b
  {
    seq(n, _ => b)
  }

  /** What is put behind n bytes of data. */
  function PaddingOf(p: Scheme, n: nat): (s: seq<Byte>)
    requires p != NoPadding && n < 16
    ensures |s| == 16 - n
  {
    match p
    case Pkcs7 => Fill(16 - n, (16 - n) as bv8)
    case OneAndZeros => [0x80] + Fill(15 - n, 0)
    case ZerosAndLen => Fill(15 - n, 0) + [(16 - n) as bv8]
    case Zeros => Fill(16 - n, 0)
  }

  datatype Unpadded = BadPadding | DataLength(n: nat)

  /** Length of s without its trailing zero bytes. */
  function Content(s: seq<Byte>): (n: nat)
    ensures n <= |s|
    ensures n > 0 ==> s[n - 1] != 0
    ensures forall i :: n <= i < |s| ==> s[i] == 0
  {
    if s == [] then 0 else if s[|s| - 1] != 0 then |s| else Content(s[..|s| - 1])
  }

  /** How many bytes of a decrypted last block are data. */
  function Unpad(p: Scheme, b: Block): (u: Unpadded)
    ensures u.DataLength? ==> u.n <= 16
  {
    match p
    case NoPadding => DataLength(16)
    case Pkcs7 =>
      var k := b[15] as nat;
      if 1 <= k <= 16 && forall i :: 16 - k <= i < 16 ==> b[i] == b[15] then DataLength(16 - k) else BadPadding
    case ZerosAndLen =>
      var k := b[15] as nat;
      if 1 <= k <= 16 && forall i :: 16 - k <= i < 15 ==> b[i] == 0 then DataLength(16 - k) else BadPadding
    case OneAndZeros =>
      var n := Content(b);
      if n > 0 && b[n - 1] == 0x80 then DataLength(n - 1) else BadPadding
    case Zeros => DataLength(Content(b))
  }

  lemma SmallByte(k: nat, b: Byte)
    requires k <= 16
    ensures (k as bv8) as nat == k
    ensures b == k as bv8 <==> b as nat == k
  {}

  lemma ContentIs(s: seq<Byte>, n: nat)
    requires n <= |s| && (n > 0 ==> s[n - 1] != 0) && forall i :: n <= i < |s| ==> s[i] == 0
    ensures Content(s) == n
  {
    hide Content;
    var m := Content(s);
  }

  /** The three unambiguous schemes: a block has n bytes of data exactly if the padding for n bytes
      follows them. */
  lemma UnpadExactly(p: Scheme, b: Block, n: nat)
    requires p == Pkcs7 || p == OneAndZeros || p == ZerosAndLen
    ensures Unpad(p, b) == DataLength(n) <==> n < 16 && b[n..] == PaddingOf(p, n)
  {
    hide Content;
    if n < 16 {
      SmallByte(16 - n, b[15]);
      assert b[n..][15 - n] == b[15];
    }
    match p
    case Pkcs7 => Pkcs7Exactly(b, n);
    case ZerosAndLen => ZerosAndLenExactly(b, n);
    case OneAndZeros => OneAndZerosExactly(b, n);
  }

  lemma Pkcs7Exactly(b: Block, n: nat)
    ensures Unpad(Pkcs7, b) == DataLength(n) <==> n < 16 && b[n..] == PaddingOf(Pkcs7, n)
  {
    if n < 16 {
      SmallByte(16 - n, b[15]);
      var t := b[n..];
      if t == PaddingOf(Pkcs7, n) {
        assert t[15 - n] == b[15];
        forall i | n <= i < 16 ensures b[i] == b[15] { assert b[i] == t[i - n]; }
      }
    }
  }

  lemma ZerosAndLenExactly(b: Block, n: nat)
    ensures Unpad(ZerosAndLen, b) == DataLength(n) <==> n < 16 && b[n..] == PaddingOf(ZerosAndLen, n)
  {
    if n < 16 {
      SmallByte(16 - n, b[15]);
      var t := b[n..];
      if t == PaddingOf(ZerosAndLen, n) {
        assert t[15 - n] == b[15];
        forall i | n <= i < 15 ensures b[i] == 0 { assert b[i] == t[i - n]; }
      }
    }
  }

  lemma OneAndZerosExactly(b: Block, n: nat)
    ensures Unpad(OneAndZeros, b) == DataLength(n) <==> n < 16 && b[n..] == PaddingOf(OneAndZeros, n)
  {
    hide Content;
    if n < 16 {
      var t := b[n..];
      if t == PaddingOf(OneAndZeros, n) {
        assert t[0] == b[n];
        forall i | n + 1 <= i < 16 ensures b[i] == 0 { assert b[i] == t[i - n]; }
        ContentIs(b, n + 1);
      }
    }
  }

  /** The padding behind n bytes, byte by byte: the number of bytes added in each of them; 0x80 and
      zeros; zeros and the number; zeros (PKCS #7, ISO/IEC 7816-4, ANSI X.923). */
  lemma PaddingBytes(p: Scheme, n: nat, i: nat)
    requires p != NoPadding && n <= i < 16
    ensures |PaddingOf(p, n)| == 16 - n
    ensures PaddingOf(p, n)[i - n] as nat ==
            match p
            case Pkcs7 => 16 - n
            case OneAndZeros => if i == n then 128 else 0
            case ZerosAndLen => if i == 15 then 16 - n else 0
            case _ => 0
  {
    SmallByte(16 - n, 0);
  }

  /** Without padding a block is all data; zero padding ends at the last byte that is not zero. */
  lemma UnpadOthersExactly(b: Block, n: nat)
    ensures Unpad(NoPadding, b) == DataLength(16)
    ensures Unpad(Zeros, b) == DataLength(n) <==>
            n <= 16 && (n > 0 ==> b[n - 1] != 0) && forall i :: n <= i < 16 ==> b[i] == 0
  {
    hide Content;
    if n <= 16 && (n > 0 ==> b[n - 1] != 0) && forall i :: n <= i < 16 ==> b[i] == 0 { ContentIs(b, n); }
  }

  /** Adding and removing padding gives the data length back; zero padding does so exactly when the
      data does not end in a zero byte. */
  lemma PaddingBack(p: Scheme, tail: seq<Byte>)
    requires p != NoPadding && |tail| < 16
    ensures p != Zeros ==> Unpad(p, tail + PaddingOf(p, |tail|)) == DataLength(|tail|)
    ensures p == Zeros ==>
              (Unpad(p, tail + PaddingOf(p, |tail|)) == DataLength(|tail|) <==>
                tail == [] || tail[|tail| - 1] != 0)
  {
    hide Content;
    var b := tail + PaddingOf(p, |tail|);
    assert b[|tail|..] == PaddingOf(p, |tail|);
    if p != Zeros {
      UnpadExactly(p, b, |tail|);
    } else {
      if tail == [] || tail[|tail| - 1] != 0 { ContentIs(b, |tail|); }
      assert tail != [] ==> b[|tail| - 1] == tail[|tail| - 1];
    }
  }

  // ----- the routines -----

  /** The add_padding functions. */
  method AddPadding(p: Scheme, output: array<Byte>, dataLen: nat)
    requires p != NoPadding && output.Length == 16 && dataLen < 16
    modifies output
    ensures output[..] == old(output[..dataLen]) + PaddingOf(p, dataLen)
  {
    var paddingLen := 16 - dataLen;
    match p
    case Pkcs7 => PutFill(output, dataLen, 16, paddingLen as bv8);
    case OneAndZeros =>
      output[dataLen] := 0x80;
      PutFill(output, dataLen + 1, 16, 0);
    case ZerosAndLen =>
      PutFill(output, dataLen, 15, 0);
      output[15] := paddingLen as bv8;
    case Zeros => PutFill(output, dataLen, 16, 0);
  }

  method PutFill(output: array<Byte>, from: nat, to: nat, b: Byte)
    requires from <= to <= output.Length
    modifies output
    ensures forall i :: from <= i < to ==> output[i] == b
    ensures forall i :: 0 <= i < output.Length && (i < from || to <= i) ==> output[i] == old(output[i])
  {
    for i := from to to
      invariant forall j :: from <= j < i ==> output[j] == b
      invariant forall j :: 0 <= j < output.Length && (j < from || i <= j) ==> output[j] == old(output[j])
    {
      output[i] := b;
    }
  }

  /** The get_padding functions: `bad` gathers the faults without a branch on secret data. */
  method GetPadding(p: Scheme, input: Block) returns (bad: bool, dataLen: nat)
    ensures bad == (Unpad(p, input) == BadPadding)
    ensures !bad ==> dataLen == Unpad(p, input).n
  {
    match p
    case NoPadding => return false, 16;
    case Pkcs7 => bad, dataLen := GetCounted(input, 16, input[15]);
    case ZerosAndLen => bad, dataLen := GetCounted(input, 15, 0);
    case OneAndZeros => bad, dataLen := GetOneAndZeros(input);
    case Zeros => bad, dataLen := GetZeros(input);
  }

  /** get_pkcs_padding (all 16 bytes are compared with the last) and get_zeros_and_len_padding (the
      first 15 are compared with zero). The data length wraps when the count is too large. */
  method GetCounted(input: Block, checked: nat, filler: Byte) returns (bad: bool, dataLen: nat)
    requires (checked == 16 && filler == input[15]) || (checked == 15 && filler == 0)
    ensures bad == (Unpad(if checked == 16 then Pkcs7 else ZerosAndLen, input) == BadPadding)
    ensures !bad ==> dataLen == Unpad(if checked == 16 then Pkcs7 else ZerosAndLen, input).n
  {
    var paddingLen: int := input[15] as int;
    dataLen := (16 - paddingLen) % 0x1_0000_0000_0000_0000;
    var faults: Byte := 0;
    if paddingLen > 16 { faults := OrFault(faults, 1); }
    if paddingLen == 0 { faults := OrFault(faults, 1); }
    var padIdx := dataLen;
    for i := 0 to checked
      invariant faults == 0 <==> 1 <= paddingLen <= 16 && forall j :: 0 <= j < i && j >= padIdx ==> input[j] == filler
    {
      faults := OrFault(faults, if i >= padIdx then Difference(input[i], filler) else 0);
    }
    bad := faults != 0;
  }

  function OrFault(a: Byte, b: Byte): (c: Byte)
    ensures c == 0 <==> a == 0 && b == 0
  {
    a | b
  }

  function Difference(a: Byte, b: Byte): (c: Byte)
    ensures c == 0 <==> a == b
  {
    a ^ b
  }

  method GetOneAndZeros(input: Block) returns (bad: bool, dataLen: nat)
    ensures bad == (Unpad(OneAndZeros, input) == BadPadding)
    ensures !bad ==> dataLen == Unpad(OneAndZeros, input).n
  {
    hide Content;
    var done, rest: Byte := false, 0x80;
    dataLen := 0;
    var i := 16;
    while i > 0
      invariant 0 <= i <= 16
      invariant !done ==> rest == 0x80 && forall j :: i <= j < 16 ==> input[j] == 0
      invariant done ==> Content(input) == dataLen + 1 && rest == Difference(0x80, input[dataLen])
    {
      var prevDone := done;
      done := done || input[i - 1] != 0;
      if done != prevDone {
        dataLen := i - 1;
        rest := Difference(rest, input[i - 1]);
        ContentIs(input, i);
      }
      i := i - 1;
    }
    if !done { ContentIs(input, 0); }
    bad := rest != 0;
  }

  method GetZeros(input: Block) returns (bad: bool, dataLen: nat)
    ensures !bad && DataLength(dataLen) == Unpad(Zeros, input)
  {
    hide Content;
    var done := false;
    dataLen := 0;
    var i := 16;
    while i > 0
      invariant 0 <= i <= 16
      invariant !done ==> dataLen == 0 && forall j :: i <= j < 16 ==> input[j] == 0
      invariant done ==> Content(input) == dataLen
    {
      var prevDone := done;
      done := done || input[i - 1] != 0;
      if done != prevDone {
        dataLen := i;
        ContentIs(input, i);
      }
      i := i - 1;
    }
    if !done { ContentIs(input, 0); }
    bad := false;
  }
}
