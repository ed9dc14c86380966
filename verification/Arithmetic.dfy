/** Division facts that the solver does not find alone. */
module Arithmetic {

  lemma MulMonotone(a: nat, x: int, y: int)
    requires x <= y
    ensures a * x <= a * y
  {
  }

  lemma QuotientUnique(w: nat, p: nat, q: nat, r: nat)
    requires r < p && w == p * q + r
    ensures w / p == q && w % p == r
  {
    var e := q - w / p;
    assert p * e == w % p - r;
    if e > 0 { MulMonotone(p, 1, e); }
    if e < 0 { MulMonotone(p, e, -1); }
  }

  lemma Euclid(w: nat, p: nat)
    requires p >= 1
    ensures w == p * (w / p) + w % p == (w / p) * p + w % p
  {
  }

  lemma Distribute(p: nat, x: nat, y: nat)
    ensures p * (x + y) == p * x + p * y
  {
  }

  lemma Associate(p: nat, b: nat, d: nat)
    ensures p * (b * d) == (b * p) * d
  {
  }

  lemma DigitPlace(w: nat, p: nat, b: nat, q: nat, r: nat, d: nat, m: nat)
    requires r < p && m < b && w == p * q + r && q == b * d + m
    ensures b * p >= 1 && w / (b * p) == d && w % (b * p) == r + m * p
  {
    Distribute(p, b * d, m);
    Associate(p, b, d);
    MulMonotone(p, m + 1, b);
    Distribute(p, m, 1);
    QuotientUnique(w, b * p, d, p * m + r);
  }

  /** The digits of `w`, in base `b`, below and at the place worth `p`. */
  lemma SplitDigit(w: nat, p: nat, b: nat)
    requires p >= 1 && b >= 1
    ensures b * p >= 1
    ensures w % (b * p) == w % p + (w / p % b) * p
    ensures w / (b * p) == w / p / b
  {
    Euclid(w, p);
    Euclid(w / p, b);
    DigitPlace(w, p, b, w / p, w % p, w / p / b, w / p % b);
  }

  lemma WithoutRemainder(w: nat, p: nat)
    requires p >= 1
    ensures (w - w % p) / p == w / p
  {
    Euclid(w, p);
    QuotientUnique(w - w % p, p, w / p, 0);
  }

  /** Taking a remainder first does not change the digits below it. */
  lemma DigitsOfRemainder(w: nat, p: nat, b: nat)
    requires p >= 1 && b >= 1
    ensures b * p >= 1
    ensures w % (b * p) / p == w / p % b && w % (b * p) % p == w % p
  {
    SplitDigit(w, p, b);
    QuotientUnique(w % (b * p), p, w / p % b, w % p);
  }

  lemma QuotientSmaller(v: nat, b: nat)
    requires b >= 2 && v >= 1
    ensures v / b < v
  {
    if v / b >= v { MulMonotone(b, v, v / b); MulMonotone(v, 2, b); }
  }

  lemma QuotientBelow(v: nat, b: nat, p: nat)
    requires b >= 1
    ensures v / b < p <==> v < b * p
  {
    if v / b < p { MulMonotone(b, v / b, p - 1); } else { MulMonotone(b, p, v / b); }
  }
}
