/** Division facts used where the code divides by something other than a constant. */
module Arith {

  lemma ProductBounds(p: int, d: int)
    requires p > 0
    ensures d >= 1 ==> p * d >= p
    ensures d <= -1 ==> p * d <= -p
  {
    if d >= 1 {
      assert p * d == p * (d - 1) + p;
    } else if d <= -1 {
      assert p * d == p * (d + 1) - p;
    }
  }

  /** Quotient and remainder are unique. */
  lemma DivModOf(q: int, r: int, p: nat)
    requires 0 <= r < p
    ensures (p * q + r) % p == r && (p * q + r) / p == q
  {
    var x := p * q + r;
    var d := x / p - q;
    assert p * (x / p) == p * q + p * d;
    ProductBounds(p, d);
  }

  lemma NextModulo(k: nat, p: nat)
    requires p >= 2
    ensures (k + 1) % p == if k % p + 1 == p then 0 else k % p + 1
  {
    var q, r := k / p, k % p;
    assert k == p * q + r;
    if r + 1 == p {
      assert k + 1 == p * (q + 1) + 0;
      DivModOf(q + 1, 0, p);
    } else {
      DivModOf(q, r + 1, p);
    }
  }

  lemma Monotone(a: int, b: int, c: int)
    requires c >= 0
    ensures a <= b ==> a * c <= b * c
  {
    if a <= b {
      assert b * c == a * c + (b - a) * c;
    }
  }

  /** Dividing a positive number by at least 2 makes it smaller. */
  lemma Quotient(v: nat, p: int)
    requires 2 <= p
    ensures 0 <= v / p <= v && (v > 0 ==> v / p < v)
    ensures 0 <= v % p < p && v == v / p * p + v % p
  {
    var q := v / p;
    ProductBounds(p, q);
    Monotone(2, p, if q >= 0 then q else 0);
  }

  /** A number below b*m gives a quotient below m for every divisor from b up. */
  lemma QuotientBelow(v: nat, p: int, b: int, m: nat)
    requires 2 <= b <= p && v < b * m
    ensures v / p < m
  {
    Quotient(v, p);
    Monotone(m, v / p, p);
    Monotone(b, p, m);
  }
}
