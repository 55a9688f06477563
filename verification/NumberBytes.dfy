/** The bytes of a number. */
module NumberBytes {
  import opened Numbers

  function Weight(k: nat): (w: nat)
    ensures 1 <= w
  {
    WeightPositive(k);
    Pow(256, k)
  }

  lemma WeightPositive(k: nat)
    ensures 1 <= Pow(256, k)
  {
    if k > 0 { WeightPositive(k - 1); }
  }

  /** Byte k of n, the lowest being byte 0. */
  function Digit(n: nat, k: nat): (d: nat)
    ensures d < 256
  {
    n / Weight(k) % 256
  }

  lemma DigitNext(n: nat, k: nat)
    ensures Digit(n, 0) == n % 256 && Digit(n, k + 1) == Digit(n / 256, k)
  {
    hide Pow;
    WeightNext(k);
    var p := Weight(k);
    var a, r := n / 256, n % 256;
    var b, c := a / p, a % p;
    DivModIdentity(a, p);
    MulDistrib(256, b * p, c);
    MulAssoc(b, 256, p);
    assert n == b * (256 * p) + (256 * c + r);
    DivModUnique(n, 256 * p, b, 256 * c + r);
  }

  lemma WeightNext(k: nat)
    ensures Weight(0) == 1 && Weight(k + 1) == 256 * Weight(k)
  {}
}
