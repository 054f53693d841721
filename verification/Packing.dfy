/**
  Packing of d-bit values into bytes (compress.c): the statements of one group of
  values, as shifts, masks and bitwise or. Packing and unpacking keep the number
  whose little-endian digits the values and the bytes are, so both are the byte
  encodings of Algorithms 5 and 6 of FIPS 203 and undo each other.
*/
module Packing {
  import opened Powers

  /** Bitwise or. */
  function Or(x: nat, y: nat): nat
    decreases x + y
  {
    if x == 0 && y == 0 then 0
    else (if x % 2 == 1 || y % 2 == 1 then 1 else 0) + 2 * Or(x / 2, y / 2)
  }

  /** Without a common bit it is the sum. */
  lemma {:induction false} OrDisjoint(x: nat, w: nat, k: nat)
    requires x < Pow2(k)
    ensures Or(x, Pow2(k) * w) == x + Pow2(k) * w
    decreases k
  {
    if k == 0 {
      OrZero(w);
    } else {
      var p := Pow2(k - 1);
      assert Pow2(k) * w == 2 * (p * w);
      OrDisjoint(x / 2, w, k - 1);
    }
  }

  lemma {:induction false} OrZero(y: nat)
    ensures Or(0, y) == y
    decreases y
  {
    if y > 0 {
      OrZero(y / 2);
    }
  }

  predicate Shift(s: nat) {
    s == 2 || s == 4 || s == 8 || s == 16 || s == 32 || s == 64 || s == 128 || s == 256 || s == 512 || s == 1024
  }

  /** The same for the shifts in use. */
  lemma Combine(x: nat, w: nat, s: nat)
    requires Shift(s) && x < s
    ensures Or(x, w * s) == x + s * w
  {
    hide Or;
    Pow2Values();
    assert Pow2(9) == 512 && Pow2(10) == 1024;
    var k := if s == 2 then 1 else if s == 4 then 2 else if s == 8 then 3 else if s == 16 then 4 else if s == 32 then 5
             else if s == 64 then 6 else if s == 128 then 7 else if s == 256 then 8 else if s == 512 then 9 else 10;
    OrDisjoint(x, w, k);
  }

  lemma Remainder(r: int, w: int, m: int)
    requires 0 <= r < m
    ensures (m * w + r) % m == r
  {
    var x := m * w + r;
    var k := x / m;
    assert x == m * k + x % m;
    assert m * w - m * k == m * (w - k);
    if w - k >= 1 {
      MulAtLeast(m, w - k);
    } else if w - k <= -1 {
      MulAtLeast(m, k - w);
    }
  }

  lemma MulAtLeast(m: int, w: int)
    requires m >= 0 && w >= 1
    ensures m * w >= m && m * (-w) <= -m
  {
    assert m * (-w) == -(m * w);
  }

  lemma LowDigit(x: int, y: int, u: int, v: int, base: int)
    requires 0 <= x < base && 0 <= y < base && x + base * u == y + base * v
    ensures x == y && u == v
  {
    assert base * u - base * v == base * (u - v);
    if u > v {
      MulAtLeast(base, u - v);
    } else if u < v {
      MulAtLeast(base, v - u);
    }
  }

  lemma Cut2(x: int, a: int)
    requires 0 < a
    ensures x == x % a + a * (x / a)
  {
  }

  lemma Expand(a: int, b: int, h: int, e: int, r: int)
    ensures a * (b * h + e) + r == (a * b) * h + (a * e + r)
  {
    assert a * (b * h) == (a * b) * h;
  }

  lemma Below(a: int, b: int, e: int, r: int)
    requires 0 < a && 0 <= e < b && 0 <= r < a
    ensures 0 <= a * e + r < a * b
  {
    Monotone(e + 1, b, a);
    Monotone(0, e, a);
    assert (e + 1) * a == a * e + a && b * a == a * b && e * a == a * e;
  }

  /** Three fields of x, of a, of b and of the remaining bits. */
  lemma Cut3(x: int, a: int, b: int, c: int)
    requires 0 < a && 0 < b && c == a * b && 0 < c
    ensures x == x % a + a * (x / a % b) + c * (x / c)
  {
    var q, r := x / a, x % a;
    var h, e := q / b, q % b;
    Cut2(x, a);
    Cut2(q, b);
    Cut2(x, c);
    Expand(a, b, h, e, r);
    Below(a, b, e, r);
    LowDigit(x % c, a * e + r, x / c, h, c);
  }

  lemma HalfDivParts(s: int, h: int, e: int)
    requires 0 <= e <= 1
    ensures s * (2 * h + e) == (2 * s) * h + s * e && s * e == (if e == 0 then 0 else s)
  {
    assert s * (2 * h) == (2 * s) * h;
  }

  /** One bit of x / s. */
  lemma HalfDiv(x: int, s: int)
    requires 0 < s
    ensures x / s == x / s % 2 + 2 * (x / (2 * s))
  {
    var q, r := x / s, x % s;
    var e, h := q % 2, q / 2;
    assert x == s * q + r && q == 2 * h + e;
    HalfDivParts(s, h, e);
    LowDigit(x % (2 * s), s * e + r, x / (2 * s), h, 2 * s);
  }

  lemma Mask(x: int, v: int, s: int, y: int, m: int)
    requires 0 <= x < s && 0 < y && m == s * y
    ensures (x + s * v) % m == x + s * (v % y)
  {
    var w, r := v / y, v % y;
    assert s * v == m * w + s * r by {
      assert v == y * w + r;
      assert s * (y * w + r) == (s * y) * w + s * r;
    }
    assert 0 <= s * r && s * r + s <= m by {
      assert s * (r + 1) <= s * y;
    }
    Remainder(x + s * r, w, m);
  }

  lemma MaskCombined(x: nat, v: nat, s: nat, y: nat, m: nat)
    requires Shift(s) && x < s && 0 < y && m == s * y
    ensures Or(x, v * s) % m == x + s * (v % y)
  {
    hide Or;
    Combine(x, v, s);
    Mask(x, v, s, y, m);
  }

  lemma CombineMasked(x: nat, v: nat, s: nat, y: nat, m: nat)
    requires Shift(s) && x < s && 0 < y && m == s * y
    ensures Or(x, v * s % m) == x + s * (v % y)
  {
    hide Or;
    Mask(0, v, s, y, m);
    assert v * s == 0 + s * v && (v % y) * s == 0 + s * (v % y);
    Combine(x, v % y, s);
  }

  predicate Digits(s: seq<int>, base: int) {
    forall i :: 0 <= i < |s| ==> 0 <= s[i] < base
  }

  /** The number with the digits s, least significant first. */
  function Number(s: seq<int>, base: int): int {
    if s == [] then 0 else s[0] + base * Number(s[1..], base)
  }

  // ---------- 1 bit: 8 values in 1 byte ----------

  function PackD1(t: seq<int>): (b: seq<int>)
    requires |t| == 8 && Digits(t, 2)
    ensures |b| == 1
  {
    [Or(Or(Or(Or(Or(Or(Or(t[0], t[1] * 2), t[2] * 4), t[3] * 8), t[4] * 16), t[5] * 32), t[6] * 64), t[7] * 128)]
  }

  function UnpackD1(b: seq<int>): (t: seq<int>)
    requires |b| == 1 && Digits(b, 256)
    ensures |t| == 8
  {
    [b[0] % 2,
     b[0] / 2 % 2,
     b[0] / 4 % 2,
     b[0] / 8 % 2,
     b[0] / 16 % 2,
     b[0] / 32 % 2,
     b[0] / 64 % 2,
     b[0] / 128 % 2]
  }

  // ---------- 4 bits: 2 values in 1 byte ----------

  function PackD4(t: seq<int>): (b: seq<int>)
    requires |t| == 2 && Digits(t, 16)
    ensures |b| == 1
  {
    [Or(t[0], t[1] * 16) % 256]
  }

  function UnpackD4(b: seq<int>): (t: seq<int>)
    requires |b| == 1 && Digits(b, 256)
    ensures |t| == 2
  {
    [b[0] % 16,
     b[0] / 16 % 16]
  }

  // ---------- 5 bits: 8 values in 5 bytes ----------

  function PackD5(t: seq<int>): (b: seq<int>)
    requires |t| == 8 && Digits(t, 32)
    ensures |b| == 5
  {
    [Or(t[0], t[1] * 32) % 256,
     Or(Or(t[1] / 8, t[2] * 4), t[3] * 128) % 256,
     Or(t[3] / 2, t[4] * 16) % 256,
     Or(Or(t[4] / 16, t[5] * 2), t[6] * 64) % 256,
     Or(t[6] / 4, t[7] * 8) % 256]
  }

  function UnpackD5(b: seq<int>): (t: seq<int>)
    requires |b| == 5 && Digits(b, 256)
    ensures |t| == 8
  {
    [b[0] % 32,
     Or(b[0] / 32, b[1] * 8) % 32,
     b[1] / 4 % 32,
     Or(b[1] / 128, b[2] * 2) % 32,
     Or(b[2] / 16, b[3] * 16) % 32,
     b[3] / 2 % 32,
     Or(b[3] / 64, b[4] * 4) % 32,
     b[4] / 8 % 32]
  }

  // ---------- 10 bits: 4 values in 5 bytes ----------

  function PackD10(t: seq<int>): (b: seq<int>)
    requires |t| == 4 && Digits(t, 1024)
    ensures |b| == 5
  {
    [t[0] % 256,
     Or(t[0] / 256, t[1] * 4 % 256),
     Or(t[1] / 64, t[2] * 16 % 256),
     Or(t[2] / 16, t[3] * 64 % 256),
     t[3] / 4]
  }

  function UnpackD10(b: seq<int>): (t: seq<int>)
    requires |b| == 5 && Digits(b, 256)
    ensures |t| == 4
  {
    [Or(b[0], b[1] * 256) % 1024,
     Or(b[1] / 4, b[2] * 64) % 1024,
     Or(b[2] / 16, b[3] * 16) % 1024,
     Or(b[3] / 64, b[4] * 4) % 1024]
  }

  // ---------- 11 bits: 8 values in 11 bytes ----------

  function PackD11(t: seq<int>): (b: seq<int>)
    requires |t| == 8 && Digits(t, 2048)
    ensures |b| == 11
  {
    [t[0] % 256,
     Or(t[0] / 256, t[1] * 8 % 256),
     Or(t[1] / 32, t[2] * 64 % 256),
     t[2] / 4 % 256,
     Or(t[2] / 1024, t[3] * 2 % 256),
     Or(t[3] / 128, t[4] * 16 % 256),
     Or(t[4] / 16, t[5] * 128 % 256),
     t[5] / 2 % 256,
     Or(t[5] / 512, t[6] * 4 % 256),
     Or(t[6] / 64, t[7] * 32 % 256),
     t[7] / 8]
  }

  function UnpackD11(b: seq<int>): (t: seq<int>)
    requires |b| == 11 && Digits(b, 256)
    ensures |t| == 8
  {
    [Or(b[0], b[1] * 256) % 2048,
     Or(b[1] / 8, b[2] * 32) % 2048,
     Or(Or(b[2] / 64, b[3] * 4), b[4] * 1024) % 2048,
     Or(b[4] / 2, b[5] * 128) % 2048,
     Or(b[5] / 16, b[6] * 16) % 2048,
     Or(Or(b[6] / 128, b[7] * 2), b[8] * 512) % 2048,
     Or(b[8] / 4, b[9] * 64) % 2048,
     Or(b[9] / 32, b[10] * 8) % 2048]
  }

  // ---------- 12 bits: 2 values in 3 bytes ----------

  function PackD12(t: seq<int>): (b: seq<int>)
    requires |t| == 2 && Digits(t, 4096)
    ensures |b| == 3
  {
    [t[0] % 256,
     Or(t[0] / 256, t[1] * 16 % 256),
     t[1] / 16]
  }

  function UnpackD12(b: seq<int>): (t: seq<int>)
    requires |b| == 3 && Digits(b, 256)
    ensures |t| == 2
  {
    [Or(b[0], b[1] * 256 % 4096),
     Or(b[1] / 16, b[2] * 16)]
  }

  lemma PackD1Sums(t: seq<int>)
    requires |t| == 8 && Digits(t, 2)
    ensures PackD1(t) == [t[0] + 2 * t[1] + 4 * t[2] + 8 * t[3] + 16 * t[4] + 32 * t[5] + 64 * t[6] + 128 * t[7]]
  {
    hide Or;
    Combine(t[0], t[1], 2);
    Combine(t[0] + 2 * t[1], t[2], 4);
    Combine(t[0] + 2 * t[1] + 4 * t[2], t[3], 8);
    Combine(t[0] + 2 * t[1] + 4 * t[2] + 8 * t[3], t[4], 16);
    Combine(t[0] + 2 * t[1] + 4 * t[2] + 8 * t[3] + 16 * t[4], t[5], 32);
    Combine(t[0] + 2 * t[1] + 4 * t[2] + 8 * t[3] + 16 * t[4] + 32 * t[5], t[6], 64);
    Combine(t[0] + 2 * t[1] + 4 * t[2] + 8 * t[3] + 16 * t[4] + 32 * t[5] + 64 * t[6], t[7], 128);
  }

  lemma PackD4Sums(t: seq<int>)
    requires |t| == 2 && Digits(t, 16)
    ensures PackD4(t) == [t[0] + 16 * (t[1] % 16)]
  {
    hide Or;
    MaskCombined(t[0], t[1], 16, 16, 256);
  }

  lemma UnpackD4Sums(b: seq<int>)
    requires |b| == 1 && Digits(b, 256)
    ensures UnpackD4(b) == [b[0] % 16, b[0] / 16 % 16]
  {
    hide Or;
  }

  lemma PackD5Sums(t: seq<int>)
    requires |t| == 8 && Digits(t, 32)
    ensures PackD5(t) == [t[0] + 32 * (t[1] % 8), t[1] / 8 + 4 * t[2] + 128 * (t[3] % 2), t[3] / 2 + 16 * (t[4] % 16),
                          t[4] / 16 + 2 * t[5] + 64 * (t[6] % 4), t[6] / 4 + 8 * (t[7] % 32)]
  {
    hide Or;
    MaskCombined(t[0], t[1], 32, 8, 256);
    Combine(t[1] / 8, t[2], 4);
    MaskCombined(t[1] / 8 + 4 * t[2], t[3], 128, 2, 256);
    MaskCombined(t[3] / 2, t[4], 16, 16, 256);
    Combine(t[4] / 16, t[5], 2);
    MaskCombined(t[4] / 16 + 2 * t[5], t[6], 64, 4, 256);
    MaskCombined(t[6] / 4, t[7], 8, 32, 256);
  }

  lemma UnpackD5Sums(b: seq<int>)
    requires |b| == 5 && Digits(b, 256)
    ensures UnpackD5(b)
            == [b[0] % 32, b[0] / 32 + 8 * (b[1] % 4), b[1] / 4 % 32, b[1] / 128 + 2 * (b[2] % 16),
                b[2] / 16 + 16 * (b[3] % 2), b[3] / 2 % 32, b[3] / 64 + 4 * (b[4] % 8), b[4] / 8 % 32]
  {
    hide Or;
    MaskCombined(b[0] / 32, b[1], 8, 4, 32);
    MaskCombined(b[1] / 128, b[2], 2, 16, 32);
    MaskCombined(b[2] / 16, b[3], 16, 2, 32);
    MaskCombined(b[3] / 64, b[4], 4, 8, 32);
  }

  lemma PackD10Sums(t: seq<int>)
    requires |t| == 4 && Digits(t, 1024)
    ensures PackD10(t)
            == [t[0] % 256, t[0] / 256 + 4 * (t[1] % 64), t[1] / 64 + 16 * (t[2] % 16), t[2] / 16 + 64 * (t[3] % 4),
                t[3] / 4]
  {
    hide Or;
    CombineMasked(t[0] / 256, t[1], 4, 64, 256);
    CombineMasked(t[1] / 64, t[2], 16, 16, 256);
    CombineMasked(t[2] / 16, t[3], 64, 4, 256);
  }

  lemma UnpackD10Sums(b: seq<int>)
    requires |b| == 5 && Digits(b, 256)
    ensures UnpackD10(b)
            == [b[0] + 256 * (b[1] % 4), b[1] / 4 + 64 * (b[2] % 16), b[2] / 16 + 16 * (b[3] % 64),
                b[3] / 64 + 4 * (b[4] % 256)]
  {
    hide Or;
    MaskCombined(b[0], b[1], 256, 4, 1024);
    MaskCombined(b[1] / 4, b[2], 64, 16, 1024);
    MaskCombined(b[2] / 16, b[3], 16, 64, 1024);
    MaskCombined(b[3] / 64, b[4], 4, 256, 1024);
  }

  lemma PackD11Sums(t: seq<int>)
    requires |t| == 8 && Digits(t, 2048)
    ensures PackD11(t)
            == [t[0] % 256, t[0] / 256 + 8 * (t[1] % 32), t[1] / 32 + 64 * (t[2] % 4), t[2] / 4 % 256,
                t[2] / 1024 + 2 * (t[3] % 128), t[3] / 128 + 16 * (t[4] % 16), t[4] / 16 + 128 * (t[5] % 2),
                  t[5] / 2 % 256, t[5] / 512 + 4 * (t[6] % 64), t[6] / 64 + 32 * (t[7] % 8), t[7] / 8]
  {
    hide Or;
    CombineMasked(t[0] / 256, t[1], 8, 32, 256);
    CombineMasked(t[1] / 32, t[2], 64, 4, 256);
    CombineMasked(t[2] / 1024, t[3], 2, 128, 256);
    CombineMasked(t[3] / 128, t[4], 16, 16, 256);
    CombineMasked(t[4] / 16, t[5], 128, 2, 256);
    CombineMasked(t[5] / 512, t[6], 4, 64, 256);
    CombineMasked(t[6] / 64, t[7], 32, 8, 256);
  }

  lemma UnpackD11Sums(b: seq<int>)
    requires |b| == 11 && Digits(b, 256)
    ensures UnpackD11(b)
            == [b[0] + 256 * (b[1] % 8), b[1] / 8 + 32 * (b[2] % 64), b[2] / 64 + 4 * b[3] + 1024 * (b[4] % 2),
                b[4] / 2 + 128 * (b[5] % 16), b[5] / 16 + 16 * (b[6] % 128), b[6] / 128 + 2 * b[7] + 512 * (b[8] % 4),
                  b[8] / 4 + 64 * (b[9] % 32), b[9] / 32 + 8 * (b[10] % 256)]
  {
    hide Or;
    MaskCombined(b[0], b[1], 256, 8, 2048);
    MaskCombined(b[1] / 8, b[2], 32, 64, 2048);
    Combine(b[2] / 64, b[3], 4);
    MaskCombined(b[2] / 64 + 4 * b[3], b[4], 1024, 2, 2048);
    MaskCombined(b[4] / 2, b[5], 128, 16, 2048);
    MaskCombined(b[5] / 16, b[6], 16, 128, 2048);
    Combine(b[6] / 128, b[7], 2);
    MaskCombined(b[6] / 128 + 2 * b[7], b[8], 512, 4, 2048);
    MaskCombined(b[8] / 4, b[9], 64, 32, 2048);
    MaskCombined(b[9] / 32, b[10], 8, 256, 2048);
  }

  lemma PackD12Sums(t: seq<int>)
    requires |t| == 2 && Digits(t, 4096)
    ensures PackD12(t) == [t[0] % 256, t[0] / 256 + 16 * (t[1] % 16), t[1] / 16]
  {
    hide Or;
    CombineMasked(t[0] / 256, t[1], 16, 16, 256);
  }

  lemma UnpackD12Sums(b: seq<int>)
    requires |b| == 3 && Digits(b, 256)
    ensures UnpackD12(b) == [b[0] + 256 * (b[1] % 16), b[1] / 16 + 16 * b[2]]
  {
    hide Or;
    CombineMasked(b[0], b[1], 256, 16, 4096);
    Combine(b[1] / 16, b[2], 16);
  }

  // ---------- The number is kept ----------

  lemma Suffix(s: seq<int>, base: int, i: nat)
    requires i < |s|
    ensures Number(s[i..], base) == s[i] + base * Number(s[i + 1..], base)
  {
    assert s[i..][1..] == s[i + 1..];
  }

  lemma Number1(s: seq<int>, base: int)
    requires |s| == 1
    ensures Number(s, base) == s[0]
  {
    hide Number;
    NumberEmpty(s[1..], base);
    assert s[0..] == s;
    Suffix(s, base, 0);
  }

  lemma Number2(s: seq<int>, base: int)
    requires |s| == 2
    ensures Number(s, base) == s[0] + base * (s[1])
  {
    hide Number;
    NumberEmpty(s[2..], base);
    assert s[0..] == s;
    Suffix(s, base, 1);
    Suffix(s, base, 0);
  }

  lemma Number3(s: seq<int>, base: int)
    requires |s| == 3
    ensures Number(s, base) == s[0] + base * (s[1] + base * (s[2]))
  {
    hide Number;
    NumberEmpty(s[3..], base);
    assert s[0..] == s;
    Suffix(s, base, 2);
    Suffix(s, base, 1);
    Suffix(s, base, 0);
  }

  lemma Number4(s: seq<int>, base: int)
    requires |s| == 4
    ensures Number(s, base) == s[0] + base * (s[1] + base * (s[2] + base * (s[3])))
  {
    hide Number;
    NumberEmpty(s[4..], base);
    assert s[0..] == s;
    Suffix(s, base, 3);
    Suffix(s, base, 2);
    Suffix(s, base, 1);
    Suffix(s, base, 0);
  }

  lemma Number5(s: seq<int>, base: int)
    requires |s| == 5
    ensures Number(s, base) == s[0] + base * (s[1] + base * (s[2] + base * (s[3] + base * (s[4]))))
  {
    hide Number;
    NumberEmpty(s[5..], base);
    assert s[0..] == s;
    Suffix(s, base, 4);
    Suffix(s, base, 3);
    Suffix(s, base, 2);
    Suffix(s, base, 1);
    Suffix(s, base, 0);
  }

  lemma Number8(s: seq<int>, base: int)
    requires |s| == 8
    ensures Number(s, base) ==
            s[0] + base * (s[1] + base * (s[2] + base * (s[3] + base * (s[4]
            + base * (s[5] + base * (s[6] + base * (s[7])))))))
  {
    hide Number;
    NumberEmpty(s[8..], base);
    assert s[0..] == s;
    Suffix(s, base, 7);
    Suffix(s, base, 6);
    Suffix(s, base, 5);
    Suffix(s, base, 4);
    Suffix(s, base, 3);
    Suffix(s, base, 2);
    Suffix(s, base, 1);
    Suffix(s, base, 0);
  }

  lemma Number11(s: seq<int>, base: int)
    requires |s| == 11
    ensures Number(s, base) ==
            s[0] + base * (s[1] + base * (s[2] + base * (s[3] + base * (s[4]
            + base * (s[5] + base * (s[6] + base * (s[7] + base * (s[8] + base * (s[9] + base * (s[10]))))))))))
  {
    hide Number;
    NumberEmpty(s[11..], base);
    assert s[0..] == s;
    Suffix(s, base, 10);
    Suffix(s, base, 9);
    Suffix(s, base, 8);
    Suffix(s, base, 7);
    Suffix(s, base, 6);
    Suffix(s, base, 5);
    Suffix(s, base, 4);
    Suffix(s, base, 3);
    Suffix(s, base, 2);
    Suffix(s, base, 1);
    Suffix(s, base, 0);
  }

  lemma NumberEmpty(s: seq<int>, base: int)
    requires s == []
    ensures Number(s, base) == 0
  {
  }

  lemma SameD1(t: seq<int>, b: seq<int>, p0: int, p1: int, p2: int, p3: int, p4: int, p5: int, p6: int, p7: int)
    requires |t| == 8 && |b| == 1
    requires t[0] == p0 && t[1] == p1 && t[2] == p2 && t[3] == p3
    requires t[4] == p4 && t[5] == p5 && t[6] == p6 && t[7] == p7
    requires b[0] == p0 + 2 * p1 + 4 * p2 + 8 * p3 + 16 * p4 + 32 * p5 + 64 * p6 + 128 * p7
    ensures Number(t, 2) == Number(b, 256)
  {
    hide Number;
    Number8(t, 2);
    Number1(b, 256);
  }

  lemma PackD1Keeps(t: seq<int>)
    requires |t| == 8 && Digits(t, 2)
    ensures Digits(PackD1(t), 256) && Number(PackD1(t), 256) == Number(t, 2)
  {
    hide PackD1, Number;
    var b := PackD1(t);
    PackD1Sums(t);
    var p0, p1, p2, p3, p4 := t[0], t[1], t[2], t[3], t[4];
    var p5, p6, p7 := t[5], t[6], t[7];
    assert b[0] == p0 + 2 * p1 + 4 * p2 + 8 * p3 + 16 * p4 + 32 * p5 + 64 * p6 + 128 * p7;
    SameD1(t, b, p0, p1, p2, p3, p4, p5, p6, p7);
  }

  lemma ByteBits(b: int)
    requires 0 <= b < 256
    ensures b == b % 2 + 2 * (b / 2 % 2) + 4 * (b / 4 % 2) + 8 * (b / 8 % 2) + 16 * (b / 16 % 2) + 32 * (b / 32 % 2)
            + 64 * (b / 64 % 2) + 128 * (b / 128 % 2)
  {
    HalfDiv(b, 1); HalfDiv(b, 2); HalfDiv(b, 4); HalfDiv(b, 8); HalfDiv(b, 16); HalfDiv(b, 32); HalfDiv(b, 64);
    BitChain(b, b / 2, b / 4, b / 8, b / 16, b / 32, b / 64, b / 128, b % 2, b / 2 % 2, b / 4 % 2, b / 8 % 2,
             b / 16 % 2, b / 32 % 2, b / 64 % 2);
    TopBit(b);
  }

  lemma BitChain(q0: int, q1: int, q2: int, q3: int, q4: int, q5: int, q6: int, q7: int,
                 e0: int, e1: int, e2: int, e3: int, e4: int, e5: int, e6: int)
    requires q0 == e0 + 2 * q1 && q1 == e1 + 2 * q2 && q2 == e2 + 2 * q3 && q3 == e3 + 2 * q4
    requires q4 == e4 + 2 * q5 && q5 == e5 + 2 * q6 && q6 == e6 + 2 * q7
    ensures q0 == e0 + 2 * e1 + 4 * e2 + 8 * e3 + 16 * e4 + 32 * e5 + 64 * e6 + 128 * q7
  {
  }

  lemma TopBit(b: int)
    requires 0 <= b < 256
    ensures b / 128 % 2 == b / 128
  {
  }

  lemma UnpackD1Keeps(b: seq<int>)
    requires |b| == 1 && Digits(b, 256)
    ensures Digits(UnpackD1(b), 2) && Number(UnpackD1(b), 2) == Number(b, 256)
  {
    hide Number;
    var t := UnpackD1(b);
    ByteBits(b[0]);
    SameD1(t, b, t[0], t[1], t[2], t[3], t[4], t[5], t[6], t[7]);
  }

  lemma PackD4Keeps(t: seq<int>)
    requires |t| == 2 && Digits(t, 16)
    ensures Digits(PackD4(t), 256) && Number(PackD4(t), 256) == Number(t, 16)
  {
    hide PackD4, Number;
    var b := PackD4(t);
    PackD4Sums(t);
    Number2(t, 16);
    Number1(b, 256);
  }

  lemma UnpackD4Keeps(b: seq<int>)
    requires |b| == 1 && Digits(b, 256)
    ensures Digits(UnpackD4(b), 16) && Number(UnpackD4(b), 16) == Number(b, 256)
  {
    hide UnpackD4, Number;
    var t := UnpackD4(b);
    UnpackD4Sums(b);
    Number1(b, 256);
    Number2(t, 16);
  }

  lemma SameD5(t: seq<int>, b: seq<int>, p0: int, p1: int, p2: int, p3: int, p4: int, p5: int, p6: int, p7: int,
               p8: int, p9: int, p10: int, p11: int)
    requires |t| == 8 && |b| == 5
    requires t[0] == p0 && t[1] == p1 + 8 * p2 && t[2] == p3 && t[3] == p4 + 2 * p5
    requires t[4] == p6 + 16 * p7 && t[5] == p8 && t[6] == p9 + 4 * p10 && t[7] == p11
    requires b[0] == p0 + 32 * p1 && b[1] == p2 + 4 * p3 + 128 * p4 && b[2] == p5 + 16 * p6
             && b[3] == p7 + 2 * p8 + 64 * p9
    requires b[4] == p10 + 8 * p11
    ensures Number(t, 32) == Number(b, 256)
  {
    hide Number;
    Number8(t, 32);
    Number5(b, 256);
  }

  lemma PackD5Digits(t: seq<int>)
    requires |t| == 8 && Digits(t, 32)
    ensures Digits(PackD5(t), 256)
  {
    hide PackD5;
    PackD5Sums(t);
  }

  lemma PackD5Keeps(t: seq<int>)
    requires |t| == 8 && Digits(t, 32)
    ensures Digits(PackD5(t), 256) && Number(PackD5(t), 256) == Number(t, 32)
  {
    hide PackD5, Number;
    var b := PackD5(t);
    PackD5Sums(t);
    PackD5Digits(t);
    var p0, p1, p2, p3, p4 := t[0], t[1] % 8, t[1] / 8, t[2], t[3] % 2;
    var p5, p6, p7, p8, p9 := t[3] / 2, t[4] % 16, t[4] / 16, t[5], t[6] % 4;
    var p10, p11 := t[6] / 4, t[7];
    Cut2(t[1], 8);
    Cut2(t[3], 2);
    Cut2(t[4], 16);
    Cut2(t[6], 4);
    assert b[0] == p0 + 32 * p1;
    assert b[1] == p2 + 4 * p3 + 128 * p4;
    assert b[2] == p5 + 16 * p6;
    assert b[3] == p7 + 2 * p8 + 64 * p9;
    assert b[4] == p10 + 8 * p11;
    SameD5(t, b, p0, p1, p2, p3, p4, p5, p6, p7, p8, p9, p10, p11);
  }

  lemma UnpackD5Digits(b: seq<int>)
    requires |b| == 5 && Digits(b, 256)
    ensures Digits(UnpackD5(b), 32)
  {
    hide UnpackD5;
    UnpackD5Sums(b);
  }

  lemma UnpackD5Keeps(b: seq<int>)
    requires |b| == 5 && Digits(b, 256)
    ensures Digits(UnpackD5(b), 32) && Number(UnpackD5(b), 32) == Number(b, 256)
  {
    hide UnpackD5, Number;
    var t := UnpackD5(b);
    UnpackD5Sums(b);
    UnpackD5Digits(b);
    var p0, p1, p2, p3, p4 := b[0] % 32, b[0] / 32, b[1] % 4, b[1] / 4 % 32, b[1] / 128;
    var p5, p6, p7, p8, p9 := b[2] % 16, b[2] / 16, b[3] % 2, b[3] / 2 % 32, b[3] / 64;
    var p10, p11 := b[4] % 8, b[4] / 8;
    Cut2(b[0], 32);
    Cut3(b[1], 4, 32, 128);
    Cut2(b[2], 16);
    Cut3(b[3], 2, 32, 64);
    Cut2(b[4], 8);
    assert t[0] == p0;
    assert t[1] == p1 + 8 * p2;
    assert t[2] == p3;
    assert t[3] == p4 + 2 * p5;
    assert t[4] == p6 + 16 * p7;
    assert t[5] == p8;
    assert t[6] == p9 + 4 * p10;
    assert t[7] == p11;
    SameD5(t, b, p0, p1, p2, p3, p4, p5, p6, p7, p8, p9, p10, p11);
  }

  lemma PackD10Keeps(t: seq<int>)
    requires |t| == 4 && Digits(t, 1024)
    ensures Digits(PackD10(t), 256) && Number(PackD10(t), 256) == Number(t, 1024)
  {
    hide PackD10, Number;
    var b := PackD10(t);
    PackD10Sums(t);
    Number4(t, 1024);
    Number5(b, 256);
  }

  lemma UnpackD10Keeps(b: seq<int>)
    requires |b| == 5 && Digits(b, 256)
    ensures Digits(UnpackD10(b), 1024) && Number(UnpackD10(b), 1024) == Number(b, 256)
  {
    hide UnpackD10, Number;
    var t := UnpackD10(b);
    UnpackD10Sums(b);
    Number5(b, 256);
    Number4(t, 1024);
  }

  lemma SameD11(t: seq<int>, b: seq<int>, p0: int, p1: int, p2: int, p3: int, p4: int, p5: int, p6: int, p7: int,
                p8: int, p9: int, p10: int, p11: int, p12: int, p13: int, p14: int, p15: int, p16: int, p17: int)
    requires |t| == 8 && |b| == 11
    requires t[0] == p0 + 256 * p1 && t[1] == p2 + 32 * p3 && t[2] == p4 + 4 * p5 + 1024 * p6 && t[3] == p7 + 128 * p8
    requires t[4] == p9 + 16 * p10 && t[5] == p11 + 2 * p12 + 512 * p13 && t[6] == p14 + 64 * p15
             && t[7] == p16 + 8 * p17
    requires b[0] == p0 && b[1] == p1 + 8 * p2 && b[2] == p3 + 64 * p4 && b[3] == p5
    requires b[4] == p6 + 2 * p7 && b[5] == p8 + 16 * p9 && b[6] == p10 + 128 * p11 && b[7] == p12
    requires b[8] == p13 + 4 * p14 && b[9] == p15 + 32 * p16 && b[10] == p17
    ensures Number(t, 2048) == Number(b, 256)
  {
    hide Number;
    Number8(t, 2048);
    Number11(b, 256);
  }

  lemma PackD11Digits(t: seq<int>)
    requires |t| == 8 && Digits(t, 2048)
    ensures Digits(PackD11(t), 256)
  {
    hide PackD11;
    PackD11Sums(t);
  }

  lemma PackD11Keeps(t: seq<int>)
    requires |t| == 8 && Digits(t, 2048)
    ensures Digits(PackD11(t), 256) && Number(PackD11(t), 256) == Number(t, 2048)
  {
    hide PackD11, Number;
    var b := PackD11(t);
    PackD11Sums(t);
    PackD11Digits(t);
    var p0, p1, p2, p3, p4 := t[0] % 256, t[0] / 256, t[1] % 32, t[1] / 32, t[2] % 4;
    var p5, p6, p7, p8, p9 := t[2] / 4 % 256, t[2] / 1024, t[3] % 128, t[3] / 128, t[4] % 16;
    var p10, p11, p12, p13, p14 := t[4] / 16, t[5] % 2, t[5] / 2 % 256, t[5] / 512, t[6] % 64;
    var p15, p16, p17 := t[6] / 64, t[7] % 8, t[7] / 8;
    Cut2(t[0], 256);
    Cut2(t[1], 32);
    Cut3(t[2], 4, 256, 1024);
    Cut2(t[3], 128);
    Cut2(t[4], 16);
    Cut3(t[5], 2, 256, 512);
    Cut2(t[6], 64);
    Cut2(t[7], 8);
    assert b[0] == p0;
    assert b[1] == p1 + 8 * p2;
    assert b[2] == p3 + 64 * p4;
    assert b[3] == p5;
    assert b[4] == p6 + 2 * p7;
    assert b[5] == p8 + 16 * p9;
    assert b[6] == p10 + 128 * p11;
    assert b[7] == p12;
    assert b[8] == p13 + 4 * p14;
    assert b[9] == p15 + 32 * p16;
    assert b[10] == p17;
    SameD11(t, b, p0, p1, p2, p3, p4, p5, p6, p7, p8, p9, p10, p11, p12, p13, p14, p15, p16, p17);
  }

  lemma UnpackD11Digits(b: seq<int>)
    requires |b| == 11 && Digits(b, 256)
    ensures Digits(UnpackD11(b), 2048)
  {
    hide UnpackD11;
    UnpackD11Sums(b);
  }

  lemma UnpackD11Keeps(b: seq<int>)
    requires |b| == 11 && Digits(b, 256)
    ensures Digits(UnpackD11(b), 2048) && Number(UnpackD11(b), 2048) == Number(b, 256)
  {
    hide UnpackD11, Number;
    var t := UnpackD11(b);
    UnpackD11Sums(b);
    UnpackD11Digits(b);
    var p0, p1, p2, p3, p4 := b[0], b[1] % 8, b[1] / 8, b[2] % 64, b[2] / 64;
    var p5, p6, p7, p8, p9 := b[3], b[4] % 2, b[4] / 2, b[5] % 16, b[5] / 16;
    var p10, p11, p12, p13, p14 := b[6] % 128, b[6] / 128, b[7], b[8] % 4, b[8] / 4;
    var p15, p16, p17 := b[9] % 32, b[9] / 32, b[10];
    Cut2(b[1], 8);
    Cut2(b[2], 64);
    Cut2(b[4], 2);
    Cut2(b[5], 16);
    Cut2(b[6], 128);
    Cut2(b[8], 4);
    Cut2(b[9], 32);
    assert t[0] == p0 + 256 * p1;
    assert t[1] == p2 + 32 * p3;
    assert t[2] == p4 + 4 * p5 + 1024 * p6;
    assert t[3] == p7 + 128 * p8;
    assert t[4] == p9 + 16 * p10;
    assert t[5] == p11 + 2 * p12 + 512 * p13;
    assert t[6] == p14 + 64 * p15;
    assert t[7] == p16 + 8 * p17;
    SameD11(t, b, p0, p1, p2, p3, p4, p5, p6, p7, p8, p9, p10, p11, p12, p13, p14, p15, p16, p17);
  }

  lemma PackD12Keeps(t: seq<int>)
    requires |t| == 2 && Digits(t, 4096)
    ensures Digits(PackD12(t), 256) && Number(PackD12(t), 256) == Number(t, 4096)
  {
    hide PackD12, Number;
    var b := PackD12(t);
    PackD12Sums(t);
    Number2(t, 4096);
    Number3(b, 256);
  }

  lemma UnpackD12Keeps(b: seq<int>)
    requires |b| == 3 && Digits(b, 256)
    ensures Digits(UnpackD12(b), 4096) && Number(UnpackD12(b), 4096) == Number(b, 256)
  {
    hide UnpackD12, Number;
    var t := UnpackD12(b);
    UnpackD12Sums(b);
    Number3(b, 256);
    Number2(t, 4096);
  }

  // ---------- Any number of groups ----------

  predicate PackWidth(d: nat) { d == 1 || d == 4 || d == 5 || d == 10 || d == 11 || d == 12 }

  /** 2^d. */
  function Base(d: nat): nat
    requires PackWidth(d)
  {
    if d == 1 then 2 else if d == 4 then 16 else if d == 5 then 32
    else if d == 10 then 1024 else if d == 11 then 2048 else 4096
  }

  function GroupValues(d: nat): (g: nat)
    requires PackWidth(d)
    ensures 1 <= g && d * g == 8 * GroupBytes(d) && 256 % g == 0
  {
    if d == 4 || d == 12 then 2 else if d == 10 then 4 else 8
  }

  function GroupBytes(d: nat): (m: nat)
    requires PackWidth(d)
    ensures 1 <= m
  {
    if d == 1 || d == 4 then 1 else if d == 5 || d == 10 then 5 else if d == 11 then 11 else 3
  }

  function Pack(t: seq<int>, d: nat): (b: seq<int>)
    requires PackWidth(d) && |t| == GroupValues(d) && Digits(t, Base(d))
    ensures |b| == GroupBytes(d)
  {
    if d == 1 then PackD1(t) else if d == 4 then PackD4(t) else if d == 5 then PackD5(t)
    else if d == 10 then PackD10(t) else if d == 11 then PackD11(t) else PackD12(t)
  }

  function Unpack(b: seq<int>, d: nat): (t: seq<int>)
    requires PackWidth(d) && |b| == GroupBytes(d) && Digits(b, 256)
    ensures |t| == GroupValues(d)
  {
    if d == 1 then UnpackD1(b) else if d == 4 then UnpackD4(b) else if d == 5 then UnpackD5(b)
    else if d == 10 then UnpackD10(b) else if d == 11 then UnpackD11(b) else UnpackD12(b)
  }

  lemma PackKeeps(t: seq<int>, d: nat)
    requires PackWidth(d) && |t| == GroupValues(d) && Digits(t, Base(d))
    ensures Digits(Pack(t, d), 256) && Number(Pack(t, d), 256) == Number(t, Base(d))
  {
    hide Number, Digits, PackD1, PackD4, PackD5, PackD10, PackD11, PackD12;
    if d == 1 {
      PackD1Keeps(t);
    } else if d == 4 {
      PackD4Keeps(t);
    } else if d == 5 {
      PackD5Keeps(t);
    } else if d == 10 {
      PackD10Keeps(t);
    } else if d == 11 {
      PackD11Keeps(t);
    } else {
      PackD12Keeps(t);
    }
  }

  lemma UnpackKeeps(b: seq<int>, d: nat)
    requires PackWidth(d) && |b| == GroupBytes(d) && Digits(b, 256)
    ensures Digits(Unpack(b, d), Base(d)) && Number(Unpack(b, d), Base(d)) == Number(b, 256)
  {
    hide Number, Digits, UnpackD1, UnpackD4, UnpackD5, UnpackD10, UnpackD11, UnpackD12;
    if d == 1 {
      UnpackD1Keeps(b);
    } else if d == 4 {
      UnpackD4Keeps(b);
    } else if d == 5 {
      UnpackD5Keeps(b);
    } else if d == 10 {
      UnpackD10Keeps(b);
    } else if d == 11 {
      UnpackD11Keeps(b);
    } else {
      UnpackD12Keeps(b);
    }
  }

  lemma OneLess(x: nat, m: nat)
    requires 0 < m && x % m == 0 && 0 < x
    ensures m <= x && (x - m) % m == 0
  {
    var w := x / m;
    assert x == m * w;
    if w <= 0 {
      Monotone(w, 0, m);
    } else {
      Monotone(1, w, m);
    }
    assert x - m == m * (w - 1) + 0;
    Remainder(0, w - 1, m);
  }

  /** The byte encoding of a whole number of groups. */
  function Encode(t: seq<int>, d: nat): (b: seq<int>)
    requires PackWidth(d) && |t| % GroupValues(d) == 0 && Digits(t, Base(d))
  {
    hide GroupValues, Base, Pack;
    var g := GroupValues(d);
    if t == [] then []
    else
      OneLess(|t|, g);
      Pack(t[..g], d) + Encode(t[g..], d)
  }

  function Decode(b: seq<int>, d: nat): (t: seq<int>)
    requires PackWidth(d) && |b| % GroupBytes(d) == 0 && Digits(b, 256)
  {
    hide GroupBytes, Unpack;
    var m := GroupBytes(d);
    if b == [] then []
    else
      OneLess(|b|, m);
      Unpack(b[..m], d) + Decode(b[m..], d)
  }

  lemma {:induction false} NumberConcat(x: seq<int>, s: seq<int>, base: int)
    ensures Number(x + s, base) == Number(x, base) + Power(base, |x|) * Number(s, base)
    decreases |x|
  {
    if x == [] {
      assert x + s == s;
    } else {
      NumberConcat(x[1..], s, base);
      assert (x + s)[1..] == x[1..] + s;
      Spread(base, Number(x[1..], base), Power(base, |x| - 1), Number(s, base));
    }
  }

  lemma Spread(base: int, k: int, p: int, n: int)
    ensures base * (k + p * n) == base * k + (base * p) * n
  {
    assert base * (p * n) == (base * p) * n;
  }

  /** A group of values and its bytes have the same number of bits. */
  lemma GroupPower(d: nat)
    requires PackWidth(d)
    ensures Power(Base(d), GroupValues(d)) == Power(256, GroupBytes(d))
  {
    assert Power(2, 8) == Power(256, 1) by { Power8(2); Power1(256); }
    assert Power(16, 2) == Power(256, 1) by { Power2(16); Power1(256); }
    assert Power(32, 8) == Power(256, 5) by { Power8(32); Power5(256); }
    assert Power(1024, 4) == Power(256, 5) by { Power4(1024); Power5(256); }
    assert Power(2048, 8) == Power(256, 11) by { Power8(2048); Power11(256); }
    assert Power(4096, 2) == Power(256, 3) by { Power2(4096); Power3(256); }
  }

  lemma Power1(base: int)
    ensures Power(base, 1) == base
  {
    hide Power;
    PowerZero(base);
    PowerStep(base, 1);
  }

  lemma Power2(base: int)
    ensures Power(base, 2) == base * (base)
  {
    hide Power;
    PowerZero(base);
    PowerStep(base, 1);
    PowerStep(base, 2);
  }

  lemma Power3(base: int)
    ensures Power(base, 3) == base * (base * (base))
  {
    hide Power;
    PowerZero(base);
    PowerStep(base, 1);
    PowerStep(base, 2);
    PowerStep(base, 3);
  }

  lemma Power4(base: int)
    ensures Power(base, 4) == base * (base * (base * (base)))
  {
    hide Power;
    PowerZero(base);
    PowerStep(base, 1);
    PowerStep(base, 2);
    PowerStep(base, 3);
    PowerStep(base, 4);
  }

  lemma Power5(base: int)
    ensures Power(base, 5) == base * (base * (base * (base * (base))))
  {
    hide Power;
    PowerZero(base);
    PowerStep(base, 1);
    PowerStep(base, 2);
    PowerStep(base, 3);
    PowerStep(base, 4);
    PowerStep(base, 5);
  }

  lemma Power8(base: int)
    ensures Power(base, 8) == base * (base * (base * (base * (base * (base * (base * (base)))))))
  {
    hide Power;
    PowerZero(base);
    PowerStep(base, 1);
    PowerStep(base, 2);
    PowerStep(base, 3);
    PowerStep(base, 4);
    PowerStep(base, 5);
    PowerStep(base, 6);
    PowerStep(base, 7);
    PowerStep(base, 8);
  }

  lemma Power11(base: int)
    ensures Power(base, 11)
            == base * (base * (base * (base * (base * (base * (base * (base * (base * (base * (base))))))))))
  {
    hide Power;
    PowerZero(base);
    PowerStep(base, 1);
    PowerStep(base, 2);
    PowerStep(base, 3);
    PowerStep(base, 4);
    PowerStep(base, 5);
    PowerStep(base, 6);
    PowerStep(base, 7);
    PowerStep(base, 8);
    PowerStep(base, 9);
    PowerStep(base, 10);
    PowerStep(base, 11);
  }

  lemma PowerStep(base: int, n: nat)
    requires 1 <= n
    ensures Power(base, n) == base * Power(base, n - 1)
  {
  }

  lemma PowerZero(base: int)
    ensures Power(base, 0) == 1
  {
  }

  lemma EncodeUnfold(t: seq<int>, d: nat)
    requires PackWidth(d) && |t| % GroupValues(d) == 0 && Digits(t, Base(d)) && t != []
    ensures var g := GroupValues(d);
            && g <= |t| && |t[g..]| % g == 0 && Digits(t[..g], Base(d)) && Digits(t[g..], Base(d))
            && Encode(t, d) == Pack(t[..g], d) + Encode(t[g..], d)
  {
    hide Pack, Base, GroupValues;
    OneLess(|t|, GroupValues(d));
  }

  lemma DecodeUnfold(b: seq<int>, d: nat)
    requires PackWidth(d) && |b| % GroupBytes(d) == 0 && Digits(b, 256) && b != []
    ensures var m := GroupBytes(d);
            && m <= |b| && |b[m..]| % m == 0 && Digits(b[..m], 256) && Digits(b[m..], 256)
            && Decode(b, d) == Unpack(b[..m], d) + Decode(b[m..], d)
  {
    hide Unpack, GroupBytes;
    OneLess(|b|, GroupBytes(d));
  }

  /** Encoding keeps the number, digit by digit of its own base. */
  lemma {:induction false} EncodeKeeps(t: seq<int>, d: nat)
    requires PackWidth(d) && |t| % GroupValues(d) == 0 && Digits(t, Base(d))
    ensures Digits(Encode(t, d), 256) && 8 * |Encode(t, d)| == d * |t| && |Encode(t, d)| % GroupBytes(d) == 0
    ensures Number(Encode(t, d), 256) == Number(t, Base(d))
    decreases |t|
  {
    if t != [] {
      EncodeKeepsStep(t, d, GroupValues(d));
    }
  }

  lemma {:induction false} EncodeKeepsStep(t: seq<int>, d: nat, g: nat)
    requires PackWidth(d) && g == GroupValues(d) && |t| % g == 0 && Digits(t, Base(d)) && t != []
    ensures Digits(Encode(t, d), 256) && 8 * |Encode(t, d)| == d * |t| && |Encode(t, d)| % GroupBytes(d) == 0
    ensures Number(Encode(t, d), 256) == Number(t, Base(d))
    decreases |t|, 0
  {
    hide Number, Encode, Pack, Power, Base, Digits, GroupValues, GroupBytes;
    EncodeUnfold(t, d);
    var x, rest := t[..g], t[g..];
    PackKeeps(x, d);
    EncodeKeeps(rest, d);
    NumberConcat(x, rest, Base(d));
    NumberConcat(Pack(x, d), Encode(rest, d), 256);
    GroupPower(d);
    assert x + rest == t;
    DigitsConcat(Pack(x, d), Encode(rest, d), 256);
    GroupLength(d, |Encode(rest, d)|, |rest|);
  }

  lemma GroupLength(d: nat, b: nat, t: nat)
    requires PackWidth(d) && 8 * b == d * t && b % GroupBytes(d) == 0 && t % GroupValues(d) == 0
    ensures 8 * (GroupBytes(d) + b) == d * (GroupValues(d) + t)
    ensures (GroupBytes(d) + b) % GroupBytes(d) == 0 && (GroupValues(d) + t) % GroupValues(d) == 0
  {
    hide GroupBytes, GroupValues;
    var g, m := GroupValues(d), GroupBytes(d);
    assert d * (g + t) == d * g + d * t;
    OneMore(b, m);
    OneMore(t, g);
  }

  lemma OneMore(x: nat, m: nat)
    requires 0 < m && x % m == 0
    ensures (m + x) % m == 0
  {
    var w := x / m;
    assert m + x == m * (w + 1);
    Remainder(0, w + 1, m);
  }

  lemma DigitsConcat(s: seq<int>, t: seq<int>, base: int)
    requires Digits(s, base) && Digits(t, base)
    ensures Digits(s + t, base)
  {
  }

  lemma {:induction false} DecodeKeeps(b: seq<int>, d: nat)
    requires PackWidth(d) && |b| % GroupBytes(d) == 0 && Digits(b, 256)
    ensures Digits(Decode(b, d), Base(d)) && 8 * |b| == d * |Decode(b, d)| && |Decode(b, d)| % GroupValues(d) == 0
    ensures Number(Decode(b, d), Base(d)) == Number(b, 256)
    decreases |b|
  {
    if b != [] {
      DecodeKeepsStep(b, d, GroupBytes(d));
    }
  }

  lemma {:induction false} DecodeKeepsStep(b: seq<int>, d: nat, m: nat)
    requires PackWidth(d) && m == GroupBytes(d) && |b| % m == 0 && Digits(b, 256) && b != []
    ensures Digits(Decode(b, d), Base(d)) && 8 * |b| == d * |Decode(b, d)| && |Decode(b, d)| % GroupValues(d) == 0
    ensures Number(Decode(b, d), Base(d)) == Number(b, 256)
    decreases |b|, 0
  {
    hide Number, Decode, Unpack, Power, Base, Digits, GroupValues, GroupBytes;
    DecodeUnfold(b, d);
    var x, rest := b[..m], b[m..];
    UnpackKeeps(x, d);
    DecodeKeeps(rest, d);
    NumberConcat(x, rest, 256);
    NumberConcat(Unpack(x, d), Decode(rest, d), Base(d));
    GroupPower(d);
    assert x + rest == b;
    DigitsConcat(Unpack(x, d), Decode(rest, d), Base(d));
    GroupLength(d, |rest|, |Decode(rest, d)|);
  }

  /** Digits determine the number and the number its digits. */
  lemma {:induction false} DigitsUnique(s: seq<int>, t: seq<int>, base: int)
    requires |s| == |t| && Digits(s, base) && Digits(t, base) && Number(s, base) == Number(t, base)
    ensures s == t
    decreases |s|
  {
    if s != [] {
      LowDigit(s[0], t[0], Number(s[1..], base), Number(t[1..], base), base);
      DigitsUnique(s[1..], t[1..], base);
      assert s == [s[0]] + s[1..] && t == [t[0]] + t[1..];
    }
  }

  lemma CancelFactor(d: int, x: int, y: int)
    requires d >= 1 && d * x == d * y
    ensures x == y
  {
    assert d * (x - y) == d * x - d * y && d * (y - x) == d * y - d * x;
    if x > y {
      MulAtLeast(d, x - y);
    } else if x < y {
      MulAtLeast(d, y - x);
    }
  }

  /** Decoding an encoding gives the values back. */
  lemma DecodeEncode(t: seq<int>, d: nat)
    requires PackWidth(d) && |t| % GroupValues(d) == 0 && Digits(t, Base(d))
    ensures |Encode(t, d)| % GroupBytes(d) == 0 && Digits(Encode(t, d), 256)
    ensures Decode(Encode(t, d), d) == t
  {
    hide Number, Encode, Decode, GroupValues, GroupBytes, Base;
    EncodeKeeps(t, d);
    var b := Encode(t, d);
    DecodeKeeps(b, d);
    CancelFactor(d, |Decode(b, d)|, |t|);
    DigitsUnique(Decode(b, d), t, Base(d));
  }

  /** Encoding a decoding gives the bytes back. */
  lemma EncodeDecode(b: seq<int>, d: nat)
    requires PackWidth(d) && |b| % GroupBytes(d) == 0 && Digits(b, 256)
    ensures |Decode(b, d)| % GroupValues(d) == 0 && Digits(Decode(b, d), Base(d))
    ensures Encode(Decode(b, d), d) == b
  {
    hide Number, Encode, Decode, GroupValues, GroupBytes, Base;
    DecodeKeeps(b, d);
    var t := Decode(b, d);
    EncodeKeeps(t, d);
    DigitsUnique(Encode(t, d), b, 256);
  }
}
