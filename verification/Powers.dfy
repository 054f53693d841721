/** Powers, powers of two, and monotonicity of products. */
module Powers {
  function Pow2(n: nat): (p: nat)
    ensures p >= 1
  {
    if n == 0 then 1 else 2 * Pow2(n - 1)
  }

  lemma Pow2Values()
    ensures Pow2(0) == 1 && Pow2(1) == 2 && Pow2(2) == 4 && Pow2(3) == 8 && Pow2(4) == 16
    ensures Pow2(5) == 32 && Pow2(6) == 64 && Pow2(7) == 128 && Pow2(8) == 256
  {
    assert Pow2(3) == 8;
    assert Pow2(6) == 64;
  }

  function Power(base: int, n: nat): int {
    if n == 0 then 1 else base * Power(base, n - 1)
  }

  lemma Monotone(x: int, y: int, u: int)
    requires x <= y && 0 <= u
    ensures x * u <= y * u
  {
    assert 0 <= (y - x) * u;
  }

  lemma QuotientIs(x: nat, d: nat, q: nat, r: nat)
    requires d > 0 && x == d * q + r && r < d
    ensures x / d == q
  {
    var y := x / d;
    DivisionStep(x, d, y);
    if y > q {
      Monotone(q + 1, y, d);
    } else if y < q {
      Monotone(y + 1, q, d);
    }
  }

  lemma DivisionStep(x: nat, d: nat, y: nat)
    requires d > 0 && y == x / d
    ensures d * y <= x < d * y + d
  {
    assert x == d * (x / d) + x % d;
  }

  /** Dividing by c and then by p is dividing by their product. */
  lemma DivideTwice(x: nat, c: nat, p: nat)
    requires c > 0 && p > 0
    ensures c * p > 0 && x / c / p == x / (c * p)
  {
    var a, q := x / c, x / c / p;
    DivisionStep(x, c, a);
    DivisionStep(a, p, q);
    Monotone(1, p, c);
    var r := a - p * q;
    Monotone(r + 1, p, c);
    SpreadProduct(c, p, q, r);
    QuotientIs(x, c * p, q, c * r + (x - c * a));
  }

  lemma SpreadProduct(c: nat, p: nat, q: nat, r: nat)
    ensures c * (p * q + r) == (c * p) * q + c * r && (r + 1) * c == c * r + c
  {
  }
}
