/** Reading the limbs of a number from the most significant bit down, a few bits at a time. */
module BitReader {
  import opened Numbers
  import opened Limbs

  /** pre is the number formed by the bits consumed: limbs n and up, all but the `left` low bits
      of limb n. */
  ghost predicate Consumed(e: seq<Limb>, n: nat, left: nat, pre: nat)
  {
    n <= |e| && left <= BIL && (left > 0 ==> n < |e|)
    && Value(e[n..]) == pre * Pow2(left) + (if left > 0 then e[n] % Pow2(left) else 0)
  }

  lemma ConsumedNothing(e: seq<Limb>)
    ensures Consumed(e, |e|, 0, 0)
  {}

  lemma ConsumedAll(e: seq<Limb>, pre: nat)
    requires Consumed(e, 0, 0, pre)
    ensures Value(e) == pre
  {
    assert e[0..] == e;
  }

  lemma ConsumedRefill(e: seq<Limb>, n: nat, pre: nat)
    requires 0 < n && Consumed(e, n, 0, pre)
    ensures Consumed(e, n - 1, BIL, pre)
  {
    hide Pow2, Value;
    ValueSuffixStep(e, n - 1);
    BaseIsPow2();
    DivModUnique(e[n - 1], BASE, 0, e[n - 1]);
  }

  /** The next w bits, most significant first. */
  lemma ConsumedBits(e: seq<Limb>, n: nat, left: nat, w: nat, pre: nat, b: nat)
    requires 0 < w <= left && Consumed(e, n, left, pre)
    requires b == e[n] / Pow2(left - w) % Pow2(w)
    ensures Consumed(e, n, left - w, Pow2(w) * pre + b) && b < Pow2(w)
  {
    hide Pow2, Value;
    var x, d, m := e[n], Pow2(left - w), Pow2(w);
    Pow2Add(w, left - w);
    SplitDigits(x, d, m);
    assert pre * (m * d) + b * d == (m * pre + b) * d;
    if left == w { DivModUnique(x, 1, x, 0); }
  }

  lemma SplitDigits(x: nat, d: nat, m: nat)
    requires 0 < d && 0 < m
    ensures 0 < m * d && x % (m * d) == (x / d % m) * d + x % d
    ensures 0 <= x / d && x / d % m < m
  {
    var q, r := x / d, x % d;
    DivModIdentity(x, d);
    DivLe(x, d);
    DivModIdentity(q, m);
    MulLt(m, 0, d);
    TwoDigits(q % m, r, d, m);
    assert q * d == (q / m) * (m * d) + (q % m) * d by { MulAssoc(q / m, m, d); }
    DivModUnique(x, m * d, q / m, (q % m) * d + r);
  }
}
