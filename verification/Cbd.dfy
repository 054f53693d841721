/**
  Centred binomial noise (sampling.c): the masked additions that count bits two or
  three at a time, and the coefficients of Algorithm 8 of FIPS 203, each the
  difference of two counts of eta input bits.
*/
module Cbd {
  import opened Bytes
  import opened Powers
  import opened Montgomery
  import opened PolyNtt
  import opened Packing
  import opened Verify

  predicate Eta(e: nat) { e == 2 || e == 3 }

  /** x >> k. */
  function Shift(x: nat, k: nat): nat
    decreases k
  {
    if k == 0 then x else Shift(x / 2, k - 1)
  }

  lemma {:induction false} ShiftShift(x: nat, j: nat, k: nat)
    ensures Shift(Shift(x, j), k) == Shift(x, j + k)
    decreases j
  {
    if j > 0 {
      ShiftShift(x / 2, j - 1, k);
    }
  }

  /** The number of ones among the low e bits. */
  function Count(x: nat, e: nat): (n: nat)
    ensures n <= e
    decreases e
  {
    if e == 0 then 0 else x % 2 + Count(x / 2, e - 1)
  }

  /** Fields of e bits, each the count of ones of the same field of x. */
  function Counts(x: nat, e: nat, n: nat): nat
    requires Eta(e)
    decreases n
  {
    if n == 0 then 0 else Count(x, e) + Pow2(e) * Counts(Shift(x, e), e, n - 1)
  }

  /** The lowest bit of every field: 0x55555555 and 0x249249. */
  function Mask(e: nat, n: nat): nat
    requires Eta(e)
    decreases n
  {
    if n == 0 then 0 else 1 + Pow2(e) * Mask(e, n - 1)
  }

  lemma AndZero(x: nat)
    ensures And(x, 0) == 0
    decreases x
  {
    if x > 0 {
      AndZero(x / 2);
    }
  }

  lemma AndStep(x: nat, y: nat)
    ensures And(x, y) == (if x % 2 == 1 && y % 2 == 1 then 1 else 0) + 2 * And(x / 2, y / 2)
  {
    if x == 0 {
      assert And(0, y / 2) == 0;
    }
  }

  lemma AndMask2(x: nat, m: nat)
    ensures And(x, 1 + 4 * m) == x % 2 + 4 * And(Shift(x, 2), m)
  {
    hide And;
    AndStep(x, 1 + 4 * m);
    AndStep(x / 2, 2 * m);
    assert (1 + 4 * m) / 2 == 2 * m;
    assert Shift(x, 2) == x / 2 / 2;
  }

  lemma AndMask3(x: nat, m: nat)
    ensures And(x, 1 + 8 * m) == x % 2 + 8 * And(Shift(x, 3), m)
  {
    hide And;
    AndStep(x, 1 + 8 * m);
    AndStep(x / 2, 4 * m);
    AndStep(x / 2 / 2, 2 * m);
    assert (1 + 8 * m) / 2 == 4 * m;
    assert Shift(x, 3) == x / 2 / 2 / 2;
  }

  /** The masked copies, added up. */
  function MaskedSum(x: nat, e: nat, mask: nat): nat
    requires Eta(e)
  {
    And(x, mask) + And(Shift(x, 1), mask) + (if e == 3 then And(Shift(x, 2), mask) else 0)
  }

  lemma {:induction false} MaskedSumCounts(x: nat, e: nat, n: nat)
    requires Eta(e)
    ensures MaskedSum(x, e, Mask(e, n)) == Counts(x, e, n)
    decreases n
  {
    hide And, Shift, Count;
    Pow2Values();
    if n == 0 {
      AndZero(x);
      AndZero(Shift(x, 1));
      AndZero(Shift(x, 2));
    } else {
      var m := Mask(e, n - 1);
      MaskedSumCounts(Shift(x, e), e, n - 1);
      CountBits(x);
      ShiftShift(x, 1, e);
      ShiftShift(x, 2, e);
      ShiftShift(x, e, 1);
      ShiftShift(x, e, 2);
      if e == 2 {
        AndMask2(x, m);
        AndMask2(Shift(x, 1), m);
      } else {
        AndMask3(x, m);
        AndMask3(Shift(x, 1), m);
        AndMask3(Shift(x, 2), m);
      }
    }
  }

  lemma CountBits(x: nat)
    ensures Count(x, 2) == x % 2 + Shift(x, 1) % 2 && Count(x, 3) == x % 2 + Shift(x, 1) % 2 + Shift(x, 2) % 2
  {
    assert Count(x / 2 / 2, 1) == x / 2 / 2 % 2 + Count(x / 2 / 2 / 2, 0);
    assert Count(x / 2, 1) == x / 2 % 2 + Count(x / 2 / 2, 0);
    assert Shift(x, 2) == x / 2 / 2;
  }

  /** One field at a time: shifting by e drops the low field. */
  lemma CountsShift(x: nat, e: nat, n: nat)
    requires Eta(e) && 1 <= n
    ensures Shift(Counts(x, e, n), e) == Counts(Shift(x, e), e, n - 1)
    ensures Counts(x, e, n) % Pow2(e) == Count(x, e)
  {
    hide Counts, Count, Shift;
    Pow2Values();
    CountsStep(x, e, n);
    ShiftLow(Count(x, e), Counts(Shift(x, e), e, n - 1), e);
  }

  lemma CountsStep(x: nat, e: nat, n: nat)
    requires Eta(e) && 1 <= n
    ensures Counts(x, e, n) == Count(x, e) + Pow2(e) * Counts(Shift(x, e), e, n - 1)
  {
  }

  lemma HalfOf(c: nat, q: nat)
    ensures (c + 2 * q) / 2 == c / 2 + q && (c + 2 * q) % 2 == c % 2
  {
  }

  lemma ShiftLow(c: nat, rest: nat, e: nat)
    requires Eta(e) && c <= e
    ensures Shift(c + Pow2(e) * rest, e) == rest && (c + Pow2(e) * rest) % Pow2(e) == c
  {
    Pow2Values();
    if e == 2 {
      HalfOf(c, 2 * rest);
      HalfOf(c / 2, rest);
      assert Shift(c + 4 * rest, 2) == (c + 4 * rest) / 2 / 2;
      Remainder(c, rest, 4);
    } else {
      HalfOf(c, 4 * rest);
      HalfOf(c / 2, 2 * rest);
      HalfOf(c / 2 / 2, rest);
      assert Shift(c + 8 * rest, 3) == (c + 8 * rest) / 2 / 2 / 2;
      Remainder(c, rest, 8);
    }
  }

  /** Field k of the sum counts the ones of field k of x. */
  lemma {:induction false} FieldCount(x: nat, e: nat, n: nat, k: nat)
    requires Eta(e) && k < n
    ensures Shift(Counts(x, e, n), e * k) % Pow2(e) == Count(Shift(x, e * k), e)
    decreases k
  {
    hide Counts, Count;
    CountsShift(x, e, n);
    if k > 0 {
      FieldCount(Shift(x, e), e, n - 1, k - 1);
      ShiftShift(Counts(x, e, n), e, e * (k - 1));
      ShiftShift(x, e, e * (k - 1));
      assert e + e * (k - 1) == e * k;
    } else {
      assert e * 0 == 0;
    }
  }

  // ---------- Words of the input ----------

  lemma Doubled(p: nat, rest: nat)
    ensures (2 * p) * rest == 2 * (p * rest) && p * rest >= 0
  {
  }

  lemma TwicePow2(p: nat)
    requires p > 0
    ensures Pow2(p) == 2 * Pow2(p - 1)
  {
  }

  lemma ShiftOne(x: nat, s: nat)
    requires s > 0
    ensures Shift(x, s) == Shift(x / 2, s - 1)
  {
  }

  lemma {:induction false} ShiftAdd(w: nat, rest: nat, p: nat, s: nat)
    requires s <= p
    ensures Shift(w + Pow2(p) * rest, s) == Shift(w, s) + Pow2(p - s) * rest
    decreases s
  {
    hide Shift, Pow2;
    if s == 0 {
      ShiftZero(w);
      ShiftZero(w + Pow2(p) * rest);
    } else {
      var q := Pow2(p - 1) * rest;
      TwicePow2(p);
      Doubled(Pow2(p - 1), rest);
      HalfOf(w, q);
      ShiftAdd(w / 2, rest, p - 1, s - 1);
      ShiftOne(w, s);
      ShiftOne(w + Pow2(p) * rest, s);
    }
  }

  lemma CountStep(x: nat, e: nat)
    requires 1 <= e
    ensures Count(x, e) == x % 2 + Count(x / 2, e - 1)
  {
  }

  lemma CountNone(x: nat)
    ensures Count(x, 0) == 0
  {
  }

  lemma {:induction false} CountAdd(x: nat, rest: nat, q: nat, e: nat)
    requires e <= q
    ensures Count(x + Pow2(q) * rest, e) == Count(x, e)
    decreases e
  {
    hide Count;
    if e == 0 {
      CountNone(x);
      CountNone(x + Pow2(q) * rest);
    } else {
      var h := Pow2(q - 1) * rest;
      Doubled(Pow2(q - 1), rest);
      HalfOf(x, h);
      CountStep(x, e);
      CountStep(x + Pow2(q) * rest, e);
      CountAdd(x / 2, rest, q - 1, e - 1);
    }
  }

  /** Bits inside the low p bits do not see what lies above. */
  lemma LowBits(w: nat, rest: nat, p: nat, s: nat, e: nat)
    requires s + e <= p
    ensures Count(Shift(w + Pow2(p) * rest, s), e) == Count(Shift(w, s), e)
  {
    hide Shift, Count, Pow2;
    ShiftAdd(w, rest, p, s);
    CountAdd(Shift(w, s), rest, p - s, e);
  }

  lemma ByteShift(b: byte, rest: nat)
    ensures Shift(b + 256 * rest, 8) == rest
  {
    Pow2Values();
    ShiftAdd(b, rest, 8, 8);
    ByteGone(b);
  }

  lemma ByteGone(b: byte)
    ensures Shift(b, 8) == 0
  {
    hide Shift;
    ShiftShift(b, 4, 4);
    NibbleShift(b);
    NibbleShift(b / 16);
  }

  lemma NibbleShift(x: nat)
    ensures Shift(x, 4) == x / 16
  {
    assert Shift(x, 4) == x / 2 / 2 / 2 / 2;
  }

  lemma {:induction false} NumberNonneg(b: seq<byte>)
    ensures Number(b, 256) >= 0
    decreases |b|
  {
    if b != [] {
      NumberNonneg(b[1..]);
    }
  }

  ghost function Value(b: seq<byte>): nat {
    NumberNonneg(b);
    Number(b, 256)
  }

  lemma ShiftZero(x: nat)
    ensures Shift(x, 0) == x
  {
  }

  lemma {:induction false} DropBytes(b: seq<byte>, k: nat)
    requires k <= |b|
    ensures Shift(Value(b), 8 * k) == Value(b[k..])
    decreases k
  {
    hide Shift;
    if k == 0 {
      assert b[0..] == b;
      ShiftZero(Value(b));
    } else {
      NumberNonneg(b[1..]);
      ByteShift(b[0], Value(b[1..]));
      DropBytes(b[1..], k - 1);
      assert b[1..][k - 1..] == b[k..];
      ShiftShift(Value(b), 8, 8 * (k - 1));
    }
  }

  /** mlk_load32_littleendian and mlk_load24_littleendian. */
  method Load(x: seq<byte>) returns (t: u32)
    requires |x| == 3 || |x| == 4
    ensures t == Value(x)
  {
    hide Or;
    Pow2Values();
    var b0: int, b1: int, b2: int := x[0], x[1], x[2];
    assert Pow2(16) == 65536 && Pow2(24) == 16777216 by { Pow2High(); }
    OrDisjoint(b0, b1, 8);
    OrDisjoint(b0 + 256 * b1, b2, 16);
    var r: nat := Or(b0, 256 * b1);
    r := Or(r, 65536 * b2);
    if |x| == 3 {
      Number3(x, 256);
    } else {
      var b3: int := x[3];
      OrDisjoint(b0 + 256 * b1 + 65536 * b2, b3, 24);
      r := Or(r, 16777216 * b3);
      Number4(x, 256);
    }
    t := r;
  }

  lemma Pow2High()
    ensures Pow2(16) == 65536 && Pow2(24) == 16777216
  {
    assert Pow2(12) == 4096;
    assert Pow2(20) == 1048576;
  }

  lemma {:induction false} AndAtMost(x: nat, y: nat)
    ensures And(x, y) <= y
    decreases x
  {
    if x > 0 {
      AndAtMost(x / 2, y / 2);
    }
  }

  lemma MaskValues()
    ensures Mask(2, 16) == 0x5555_5555 && Mask(3, 8) == 0x24_9249
  {
    Pow2Values();
    assert Mask(2, 4) == 0x55;
    assert Mask(2, 8) == 0x5555;
    assert Mask(2, 12) == 0x55_5555;
    assert Mask(3, 4) == 0x249;
  }

  /** Coefficient k: ones among eta bits, minus ones among the next eta bits. */
  ghost function Coefficient(buf: seq<byte>, e: nat, k: nat): int {
    Count(Shift(Value(buf), 2 * e * k), e) - Count(Shift(Value(buf), 2 * e * k + e), e)
  }

  /** Bit n of a byte string, low bit of each byte first. */
  function BitAt(buf: seq<byte>, n: nat): nat
    requires n / 8 < |buf|
  {
    var b: int := buf[n / 8];
    b / Pow2(n % 8) % 2
  }

  /** The ones among e bits. */
  function Ones(buf: seq<byte>, at: nat, e: nat): nat
    requires at + e <= 8 * |buf|
    decreases e
  {
    if e == 0 then 0 else BitAt(buf, at) + Ones(buf, at + 1, e - 1)
  }

  lemma {:induction false} ShiftDivides(x: nat, t: nat)
    ensures Shift(x, t) == x / Pow2(t)
    decreases t
  {
    if t > 0 {
      ShiftDivides(x / 2, t - 1);
      DivideTwice(x, 2, Pow2(t - 1));
    }
  }

  /** Bit n of the number is bit n % 8 of byte n / 8. */
  lemma ValueBit(buf: seq<byte>, n: nat)
    requires n / 8 < |buf|
    ensures Shift(Value(buf), n) % 2 == BitAt(buf, n)
  {
    hide Shift, Pow2;
    var k, t := n / 8, n % 8;
    DropBytes(buf, k);
    ShiftShift(Value(buf), 8 * k, t);
    var tail := buf[k..];
    NumberNonneg(tail[1..]);
    var low: int, rest: nat := tail[0], Value(tail[1..]);
    assert Value(tail) == low + 256 * rest;
    BitBelow(low, rest, t);
  }

  /** What lies above a byte does not change its bits. */
  lemma BitBelow(low: byte, rest: nat, t: nat)
    requires t < 8
    ensures Shift(low + 256 * rest, t) % 2 == low / Pow2(t) % 2
  {
    hide Shift, Pow2;
    Pow2Values();
    ShiftAdd(low, rest, 8, t);
    ShiftDivides(low, t);
    TwicePow2(8 - t);
    Doubled(Pow2(7 - t), rest);
    HalfOf(Shift(low, t), Pow2(7 - t) * rest);
  }

  lemma {:induction false} CountIsOnes(buf: seq<byte>, at: nat, e: nat)
    requires at + e <= 8 * |buf|
    ensures Count(Shift(Value(buf), at), e) == Ones(buf, at, e)
    decreases e
  {
    hide Shift, Value;
    if e > 0 {
      ValueBit(buf, at);
      CountIsOnes(buf, at + 1, e - 1);
      ShiftShift(Value(buf), at, 1);
      HalfShift(Shift(Value(buf), at));
      CountStep(Shift(Value(buf), at), e);
    }
  }

  lemma HalfShift(x: nat)
    ensures Shift(x, 1) == x / 2
  {
    assert Shift(x / 2, 0) == x / 2;
  }

  /** Algorithm 8 of FIPS 203: the ones among eta bits less those among the next eta. */
  lemma CoefficientIsOnes(buf: seq<byte>, e: nat, k: nat)
    requires Eta(e) && |buf| == 64 * e && k < 256
    ensures 2 * e * k + e + e <= 8 * |buf|
    ensures Coefficient(buf, e, k) == Ones(buf, 2 * e * k, e) - Ones(buf, 2 * e * k + e, e)
  {
    hide Count, Shift, Value, Ones;
    CountIsOnes(buf, 2 * e * k, e);
    CountIsOnes(buf, 2 * e * k + e, e);
  }

  function WordBytes(e: nat): nat
    requires Eta(e)
  {
    if e == 2 then 4 else 3
  }

  function WordCoefficients(e: nat): nat
    requires Eta(e)
  {
    if e == 2 then 8 else 4
  }

  /** The word at the front of b, and what follows it. */
  lemma FrontWord(b: seq<byte>, e: nat)
    requires Eta(e) && WordBytes(e) <= |b|
    ensures Value(b) == Value(b[..WordBytes(e)]) + Pow2(8 * WordBytes(e)) * Value(b[WordBytes(e)..])
  {
    hide Number;
    var m := WordBytes(e);
    NumberConcat(b[..m], b[m..], 256);
    assert b[..m] + b[m..] == b;
    Power4(256);
    Power3(256);
    Pow2High();
    assert Pow2(32) == 4294967296 by { Pow2Top(); }
  }

  lemma Pow2Top()
    ensures Pow2(32) == 4294967296
  {
    Pow2High();
    assert Pow2(28) == 268435456;
  }

  /** A coefficient computed from its word is the coefficient of the whole input. */
  lemma WordCoefficient(buf: seq<byte>, e: nat, i: nat, j: nat, at: nat, t: nat)
    requires Eta(e) && j < WordCoefficients(e) && at == WordBytes(e) * i && at + WordBytes(e) <= |buf|
    requires t == Value(buf[at..at + WordBytes(e)])
    ensures Count(Shift(t, e * (2 * j)), e) - Count(Shift(t, e * (2 * j + 1)), e)
            == Coefficient(buf, e, WordCoefficients(e) * i + j)
  {
    hide Shift, Count, Pow2, Number;
    var m, b := WordBytes(e), buf[at..];
    DropBytes(buf, at);
    FrontWord(b, e);
    assert b[..m] == buf[at..at + m];
    var rest := Value(b[m..]);
    LowBits(t, rest, 8 * m, e * (2 * j), e);
    LowBits(t, rest, 8 * m, e * (2 * j + 1), e);
    ShiftShift(Value(buf), 8 * at, e * (2 * j));
    ShiftShift(Value(buf), 8 * at, e * (2 * j + 1));
    assert 8 * at + e * (2 * j) == 2 * e * (WordCoefficients(e) * i + j);
    assert 8 * at + e * (2 * j + 1) == 2 * e * (WordCoefficients(e) * i + j) + e;
  }

  /** mlk_poly_cbd2 and mlk_poly_cbd3. */
  method PolyCbd(r: array<int16>, buf: seq<byte>, e: nat)
    requires Eta(e) && r.Length == 256 && |buf| == 64 * e
    modifies r
    ensures forall k :: 0 <= k < 256 ==> r[k] == Coefficient(buf, e, k)
    ensures AbsBound(r[..], e + 1)
  {
    hide Shift, Count, Pow2, Coefficient, Counts, And, MaskedSum, Mask, Value;
    MaskValues();
    Pow2Values();
    var m, g := WordBytes(e), WordCoefficients(e);
    var mask: u32 := if e == 2 then 0x5555_5555 else 0x24_9249;
    var i := 0;
    while i < 256 / g
      invariant 0 <= i <= 256 / g
      invariant forall k :: 0 <= k < g * i ==> r[k] == Coefficient(buf, e, k) && -(e + 1) < r[k] < e + 1
    {
      var t := Load(buf[m * i..m * i + m]);
      SumFits32(t, e, mask);
      var d: u32 := MaskedSum(t, e, mask);
      MaskedSumCounts(t, e, 2 * g);
      for j := 0 to g
        invariant forall k :: 0 <= k < g * i + j ==> r[k] == Coefficient(buf, e, k) && -(e + 1) < r[k] < e + 1
      {
        FieldCount(t, e, 2 * g, 2 * j);
        FieldCount(t, e, 2 * g, 2 * j + 1);
        WordCoefficient(buf, e, i, j, m * i, t);
        var a := Shift(d, e * (2 * j)) % Pow2(e);
        var b := Shift(d, e * (2 * j + 1)) % Pow2(e);
        r[g * i + j] := a - b;
      }
      i := i + 1;
    }
  }

  /** The masked additions stay within 32 bits. */
  lemma SumFits32(t: nat, e: nat, mask: nat)
    requires Eta(e) && mask == (if e == 2 then 0x5555_5555 else 0x24_9249)
    ensures MaskedSum(t, e, mask) < U32_LIMIT
  {
    hide And, Shift;
    AndAtMost(t, mask);
    AndAtMost(Shift(t, 1), mask);
    AndAtMost(Shift(t, 2), mask);
  }
}
