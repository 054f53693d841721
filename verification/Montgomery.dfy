/**
  The scalar reductions of ML-KEM on 16-bit coefficients (poly.h, poly.c). Casts and
  shifts are written out; every intermediate that C holds in an int16_t or int32_t
  has the corresponding type here, so no step leaves its range.
*/
module Montgomery {
  import opened ModQ
  import opened Powers

  type int16 = x: int | -0x8000 <= x < 0x8000
  type int32 = x: int | -0x8000_0000 <= x < 0x8000_0000
  type uint16 = x: int | 0 <= x < 0x1_0000

  /** The inverse of 2^16 modulo q. */
  const R_INV := 169

  function SignedCast(x: uint16): (r: int16)
    ensures r == x || r == x - 0x1_0000
  {
    if x < 0x8000 then x else x - 0x1_0000
  }

  function QuotientFactor(a: int32): (t: int16)
  {
    SignedCast(((a % 0x1_0000) * 62209) % 0x1_0000)
  }

  /** 62209 q == 3160 2^16 + 1. */
  lemma InverseOfQ(a: int, x: int, low: int, w: int, t: int)
    requires a == 0x1_0000 * x + low && t == low * 62209 - 0x1_0000 * w
    ensures a - t * Q == 0x1_0000 * (x - 3160 * low + w * Q)
  {
  }

  lemma MultipleOf2To16(d: int, k: int)
    requires d == 0x1_0000 * k
    ensures d % 0x1_0000 == 0
  {
  }

  /** 62209 inverts q modulo 2^16, so the difference below is a multiple of 2^16. */
  lemma QuotientFactorExact(a: int32)
    ensures (a - QuotientFactor(a) * Q) % 0x1_0000 == 0
  {
    hide QuotientFactor;
    var w := QuotientFactorIs(a);
    var t: int := QuotientFactor(a);
    var x, low := a / 0x1_0000, a % 0x1_0000;
    InverseOfQ(a, x, low, w, t);
    MultipleOf2To16(a - t * Q, x - 3160 * low + w * Q);
  }

  lemma QuotientFactorIs(a: int32) returns (w: int)
    ensures QuotientFactor(a) == (a % 0x1_0000) * 62209 - 0x1_0000 * w
  {
    var u := (a % 0x1_0000) * 62209;
    w := if u % 0x1_0000 < 0x8000 then u / 0x1_0000 else u / 0x1_0000 + 1;
  }

  predicate Reducible(a: int) {
    -(0x7FFF_FFFF - 0x8000 * Q) < a < 0x7FFF_FFFF - 0x8000 * Q
  }

  function MontgomeryReduce(a: int32): (r: int16)
    requires Reducible(a)
    ensures Cong(0x1_0000 * r, a)
    ensures -(if a < 0 then -a else a) - 0x8000 * Q <= 0x1_0000 * r <= (if a < 0 then -a else a) + 0x8000 * Q
  {
    QuotientFactorExact(a);
    var t: int := QuotientFactor(a);
    CongIntro(a - t * Q, a, -t);
    var r: int32 := a - t * Q;
    r / 0x1_0000
  }

  lemma ProductBound(a: int, b: int, m: int, n: int)
    requires 0 <= m && 0 <= n && -m <= a <= m && -n <= b <= n
    ensures -(m * n) <= a * b <= m * n
  {
    var c := if 0 <= a then a else -a;
    Monotone(b, n, c);
    Monotone(-n, b, c);
    Monotone(c, m, n);
    assert (-n) * c == -(n * c) && n * c == c * n && b * (-c) == -(b * c);
  }

  /** Montgomery multiplication by a signed canonical factor. */
  function FqMul(a: int16, b: int16): (r: int16)
    requires -Q_HALF < b < Q_HALF
    ensures Cong(0x1_0000 * r, a * b)
    ensures -Q < r < Q
  {
    ProductBound(a, b, 0x8000, 1664);
    MontgomeryReduce(a * b)
  }

  /** Dividing by 2^16 modulo q. */
  lemma CancelR(r: int, x: int)
    requires Cong(0x1_0000 * r, x)
    ensures Cong(r, R_INV * x)
  {
    var w := CongElim(0x1_0000 * r, x);
    assert R_INV * 0x1_0000 == Q * 3327 + 1;
    CongIntro(r, R_INV * x, R_INV * w - 3327 * r);
  }

  lemma FqMulRoot(a: int16, b: int16)
    requires -Q_HALF < b < Q_HALF
    ensures Cong(FqMul(a, b), (b * R_INV) * a)
  {
    hide FqMul;
    CancelR(FqMul(a, b), a * b);
    assert R_INV * (a * b) == (b * R_INV) * a;
  }

  /** The centred representative. */
  function BarrettReduce(a: int16): (r: int16)
    ensures Cong(r, a)
    ensures -Q_HALF < r < Q_HALF
  {
    var t: int32 := (20159 * a + 0x200_0000) / 0x400_0000;
    CongIntro(a - t * Q, a, -t);
    a - t * Q
  }

  /** Adds q to a negative representative. */
  function SignedToUnsigned(c: int16): (r: int16)
    requires -Q < c < Q
    ensures Cong(r, c) && 0 <= r < Q
  {
    if c < 0 then c + Q else c
  }

  /** Two congruent numbers in the canonical range are equal. */
  lemma CanonicalUnique(x: int, y: int)
    requires Cong(x, y) && 0 <= x < Q && 0 <= y < Q
    ensures x == y
  {
    var w := CongElim(x, y);
  }

  /** Reduction to the canonical range computes the remainder modulo q. */
  lemma CanonicalReduce(a: int16)
    ensures SignedToUnsigned(BarrettReduce(a)) == a % Q
  {
    hide BarrettReduce, SignedToUnsigned;
    var r := SignedToUnsigned(BarrettReduce(a));
    CongTrans(r, BarrettReduce(a), a);
    CongIntro(a, a % Q, a / Q);
    CongTrans(r, a, a % Q);
    CanonicalUnique(r, a % Q);
  }
}
