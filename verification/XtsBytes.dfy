/** XTS byte by byte (IEEE Std 1619, section 5): which bytes go through the cipher under which tweak. */
module XtsBytes {
  import opened BlockCipher
  import opened Xts

  /** b is a multiplied by alpha modulo alpha^128 + alpha^7 + alpha^2 + alpha + 1. */
  ghost predicate TimesAlpha(a: Block, b: Block)
  {
    forall k :: 0 <= k < 128 ==>
      (Coefficient(b, k) <==> (k > 0 && Coefficient(a, k - 1)) != (Coefficient(a, 127) && k in {0, 1, 2, 7}))
  }

  /** ts are the tweaks of a data unit: each is alpha times the one before. */
  ghost predicate Tweaks(ts: seq<Block>)
  {
    ts != [] && forall k :: 0 <= k < |ts| - 1 ==> TimesAlpha(ts[k], ts[k + 1])
  }

  lemma ByteOfBits(a: Byte, b: Byte)
    requires forall j :: 0 <= j < 8 ==> Bit(a, j) == Bit(b, j)
    ensures a == b
  {
    assert Bit(a, 0) == Bit(b, 0) && Bit(a, 1) == Bit(b, 1) && Bit(a, 2) == Bit(b, 2) && Bit(a, 3) == Bit(b, 3);
    assert Bit(a, 4) == Bit(b, 4) && Bit(a, 5) == Bit(b, 5) && Bit(a, 6) == Bit(b, 6) && Bit(a, 7) == Bit(b, 7);
  }

  /** There is only one such b. */
  lemma TimesAlphaIsMulX(a: Block, b: Block)
    ensures TimesAlpha(a, b) <==> b == MulX(a)
  {
    hide MulX, Bit;
    var m := MulX(a);
    forall k | 0 <= k < 128
      ensures Coefficient(m, k) <==> (k > 0 && Coefficient(a, k - 1)) != (Coefficient(a, 127) && k in {0, 1, 2, 7})
    {
      MulXIsTimesAlpha(a, k);
    }
    if TimesAlpha(a, b) {
      forall i | 0 <= i < 16 ensures b[i] == m[i] {
        forall j | 0 <= j < 8 ensures Bit(b[i], j) == Bit(m[i], j) {
          assert Coefficient(b, 8 * i + j) == Coefficient(m, 8 * i + j);
        }
        ByteOfBits(b[i], m[i]);
      }
    }
  }

  lemma {:induction false} TweakIs(ts: seq<Block>, k: nat)
    requires Tweaks(ts) && k < |ts|
    ensures ts[k] == Tweak(ts[0], k)
    decreases k
  {
    hide MulX, TimesAlpha;
    if k > 0 {
      var us := ts[1..];
      forall i | 0 <= i < |us| - 1 ensures TimesAlpha(us[i], us[i + 1]) {
        assert TimesAlpha(ts[i + 1], ts[i + 2]);
      }
      TweakIs(us, k - 1);
      assert TimesAlpha(ts[0], ts[1]);
      TimesAlphaIsMulX(ts[0], ts[1]);
    }
  }

  /** c is p, put under the cipher as x, with the tweak added before and after. */
  predicate Under(f: Block -> Block, t: Block, p: Block, x: Block, c: Block)
  {
    forall i :: 0 <= i < 16 ==> x[i] == p[i] ^ t[i] && c[i] == f(x)[i] ^ t[i]
  }

  lemma UnderIsBlk(f: Block -> Block, t: Block, p: Block, x: Block, c: Block)
    requires Under(f, t, p, x, c)
    ensures c == Blk(f, t, p)
  {
    assert x == Xor(p, t);
  }

  lemma BlkIsUnder(f: Block -> Block, t: Block, p: Block)
    ensures Under(f, t, p, Xor(p, t), Blk(f, t, p))
  {}

  /** A data unit of whole blocks, or the blocks of another that stealing does not touch: block j of the
      result is block j of the text under the cipher and the tweak alpha^j times the first one. */
  lemma UnitBlock(mode: Mode, f: Block -> Block, ts: seq<Block>, s: seq<Byte>, j: nat, x: Block, c: Block)
    requires Tweaks(ts) && j < |ts| && 16 * j + 16 <= |s| && (|s| % 16 == 0 || 16 * j + 32 <= |s|)
    requires Under(f, ts[j], s[16 * j..16 * j + 16], x, c)
    ensures Crypt(mode, f, ts[0], s)[16 * j..16 * j + 16] == c
  {
    hide Crypt, Blk, Tweaks, Under, Tweak;
    BlockAt(mode, f, ts[0], s, j);
    TweakIs(ts, j);
    UnderIsBlk(f, ts[j], s[16 * j..16 * j + 16], x, c);
  }

  /** The end of a data unit with r bytes behind m whole blocks. The last whole block becomes c under the
      first of two tweaks; the first r bytes of c go to the very end; the r bytes left over, filled up
      with the other bytes of c, become d under the second tweak, in the place of the last whole block.
      Encryption uses the tweaks of blocks m - 1 and m in this order, decryption in the other. */
  lemma UnitEnd(mode: Mode, f: Block -> Block, ts: seq<Block>, s: seq<Byte>, m: nat,
                x: Block, c: Block, p: Block, z: Block, d: Block)
    requires Tweaks(ts) && 1 <= m < |ts| && 16 * m < |s| < 16 * m + 16
    requires var t := if mode == Encrypt then ts[m - 1] else ts[m]; Under(f, t, s[16 * m - 16..16 * m], x, c)
    requires forall i :: 0 <= i < 16 ==> p[i] == if i < |s| - 16 * m then s[16 * m + i] else c[i]
    requires var t := if mode == Encrypt then ts[m] else ts[m - 1]; Under(f, t, p, z, d)
    ensures Crypt(mode, f, ts[0], s)[16 * m - 16..16 * m] == d
    ensures Crypt(mode, f, ts[0], s)[16 * m..] == c[..|s| - 16 * m]
  {
    hide Crypt, Blk, Tweaks, Under, Tweak, Stolen;
    var first, second := if mode == Encrypt then ts[m - 1] else ts[m], if mode == Encrypt then ts[m] else ts[m - 1];
    StolenPieces(mode, f, ts[0], s, m);
    TweakIs(ts, m);
    TweakIs(ts, m - 1);
    UnderIsBlk(f, first, s[16 * m - 16..16 * m], x, c);
    UnderIsBlk(f, second, p, z, d);
    StolenIs(f, second, c, s[16 * m..], p);
    var e := Crypt(mode, f, ts[0], s);
    Ends(e, 16 * m - 16, d, c[..|s| - 16 * m]);
  }

  lemma StolenIs(f: Block -> Block, t: Block, c: Block, rest: seq<Byte>, p: Block)
    requires 0 < |rest| < 16 && forall i :: 0 <= i < 16 ==> p[i] == if i < |rest| then rest[i] else c[i]
    ensures Stolen(f, t, c, rest) == Blk(f, t, p) + c[..|rest|]
  {
    hide Blk;
    assert p == rest + c[|rest|..];
  }

  lemma Ends(e: seq<Byte>, i: nat, d: Block, c: seq<Byte>)
    requires i + 16 <= |e| && e[i..] == d + c
    ensures e[i..i + 16] == d && e[i + 16..] == c
  {
    assert e[i..][..16] == e[i..i + 16] && e[i..][16..] == e[i + 16..];
  }

  /** The tweaks and the blocks exist, so every data unit is covered. */
  lemma {:induction false} TweaksExist(t: Block, n: nat) returns (ts: seq<Block>)
    ensures Tweaks(ts) && |ts| == n + 1 && ts[0] == t
  {
    hide TimesAlpha, MulX;
    if n == 0 {
      ts := [t];
    } else {
      var us := TweaksExist(t, n - 1);
      TimesAlphaIsMulX(us[n - 1], MulX(us[n - 1]));
      ts := us + [MulX(us[n - 1])];
      forall k | 0 <= k < |ts| - 1 ensures TimesAlpha(ts[k], ts[k + 1]) {
        if k < n - 1 { assert TimesAlpha(us[k], us[k + 1]); }
      }
    }
  }
}
