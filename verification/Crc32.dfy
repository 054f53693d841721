/**
  CRC-32 with the reflected polynomial 0xEDB88320 (crc32.hpp): the table-driven
  loop, the bit-serial division it stands for (section 8 of RFC 1952), and what
  damage it is certain to notice. A uint32_t register is its 32 bits, low bit
  first, so the shift, mask and exclusive-or of the source act on bit positions.
*/
module Crc32 {
  import opened Bytes
  import opened Powers

  type Bits = seq<bool>
  type Reg = c: Bits | |c| == 32 witness seq(32, i => false)

  /** 0xEDB88320, low bit first. */
  const POLY: Reg := [
    false, false, false, false, false, true, false, false,
    true, true, false, false, false, false, false, true,
    false, false, false, true, true, true, false, true,
    true, false, true, true, false, true, true, true]
  const ONES: Reg := [
    true, true, true, true, true, true, true, true,
    true, true, true, true, true, true, true, true,
    true, true, true, true, true, true, true, true,
    true, true, true, true, true, true, true, true]

  function Zeros(n: nat): Bits { seq(n, i => false) }

  function Xor(a: Reg, b: Reg): Reg { seq(32, i requires 0 <= i < 32 => a[i] != b[i]) }

  /** The register moved down by n places. */
  function Down(c: Reg, n: nat): Reg
    requires n <= 32
  {
    c[n..] + Zeros(n)
  }

  /** At most 32 bits, zero-extended. */
  function Ext(w: Bits): Reg
    requires |w| <= 32
  {
    w + Zeros(32 - |w|)
  }

  function Bit(b: bool): int { if b then 1 else 0 }

  /** The n low bits of x. */
  function BitsOf(x: nat, n: nat): (w: Bits)
    ensures |w| == n
  {
    if n == 0 then [] else [x % 2 == 1] + BitsOf(x / 2, n - 1)
  }

  /** The number a bit string stands for. */
  function NatOf(w: Bits): (x: nat)
    ensures x < Pow2(|w|)
  {
    if w == [] then 0 else Bit(w[0]) + 2 * NatOf(w[1..])
  }

  function ByteBits(b: byte): (w: Bits)
    ensures |w| == 8
  {
    BitsOf(b, 8)
  }

  function FromBits(w: Bits): byte
    requires |w| == 8
  {
    assert Pow2(8) == 256;
    NatOf(w)
  }

  /** The four bytes of a register, low byte first, as memcpy stores them. */
  function RegBytes(c: Reg): (r: Bytes)
    ensures |r| == 4
  {
    [FromBits(c[..8]), FromBits(c[8..16]), FromBits(c[16..24]), FromBits(c[24..])]
  }

  function AllBits(data: Bytes): (w: Bits)
    ensures |w| == 8 * |data|
  {
    if data == [] then [] else AllBits(data[..|data| - 1]) + ByteBits(data[|data| - 1])
  }

  lemma PolyByte0()
    ensures FromBits(POLY[..8]) == 0x20
  {
    hide FromBits;
    assert !POLY[0] && !POLY[1] && !POLY[2] && !POLY[3] && !POLY[4] && POLY[5] && !POLY[6] && !POLY[7];
    Byte8(POLY[..8]);
  }

  lemma PolyByte1()
    ensures FromBits(POLY[8..16]) == 0x83
  {
    hide FromBits;
    assert POLY[8] && POLY[9] && !POLY[10] && !POLY[11] && !POLY[12] && !POLY[13] && !POLY[14] && POLY[15];
    Byte8(POLY[8..16]);
  }

  lemma PolyByte2()
    ensures FromBits(POLY[16..24]) == 0xB8
  {
    hide FromBits;
    assert !POLY[16] && !POLY[17] && !POLY[18] && POLY[19] && POLY[20] && POLY[21] && !POLY[22] && POLY[23];
    Byte8(POLY[16..24]);
  }

  lemma PolyByte3()
    ensures FromBits(POLY[24..]) == 0xED
  {
    hide FromBits;
    assert POLY[24] && !POLY[25] && POLY[26] && POLY[27] && !POLY[28] && POLY[29] && POLY[30] && POLY[31];
    Byte8(POLY[24..]);
  }

  lemma Byte8(w: Bits)
    requires |w| == 8
    ensures FromBits(w) == Bit(w[0]) + 2 * (Bit(w[1]) + 2 * (Bit(w[2]) + 2 * (Bit(w[3])
                         + 2 * (Bit(w[4]) + 2 * (Bit(w[5]) + 2 * (Bit(w[6]) + 2 * Bit(w[7])))))))
  {
    hide NatOf;
    NatAt(w, 0); NatAt(w, 1); NatAt(w, 2); NatAt(w, 3); NatAt(w, 4); NatAt(w, 5); NatAt(w, 6); NatAt(w, 7);
    NatNone(w[8..]);
    assert w[0..] == w;
  }

  lemma NatNone(w: Bits)
    requires w == []
    ensures NatOf(w) == 0
  {
  }

  lemma NatAt(w: Bits, i: nat)
    requires i < |w|
    ensures NatOf(w[i..]) == Bit(w[i]) + 2 * NatOf(w[i + 1..])
  {
    assert w[i..][1..] == w[i + 1..];
  }

  /** The register that stands for the polynomial. */
  lemma PolyValue()
    ensures FromLe32(RegBytes(POLY)) == 0xEDB8_8320
  {
    hide FromBits;
    PolyByte0();
    PolyByte1();
    PolyByte2();
    PolyByte3();
  }

  // ---------- Reference: divide the message one bit at a time, low bit first ----------

  function BitStep(c: Reg, bit: bool): Reg {
    if c[0] != bit then Xor(POLY, Down(c, 1)) else Down(c, 1)
  }

  function Divide(c: Reg, w: Bits): Reg {
    if w == [] then c else BitStep(Divide(c, w[..|w| - 1]), w[|w| - 1])
  }

  // ---------- The table form ----------

  /** One round of the table builder's inner loop. */
  function Shift(c: Reg): Reg {
    if c[0] then Xor(POLY, Down(c, 1)) else Down(c, 1)
  }

  function Shifts(c: Reg, n: nat): Reg
    decreases n
  {
    if n == 0 then c else Shift(Shifts(c, n - 1))
  }

  /** crc32_table()[n]. */
  function TableEntry(n: byte): Reg { Shifts(Ext(ByteBits(n)), 8) }

  function TableStep(c: Reg, b: byte): Reg {
    Xor(TableEntry(FromBits(Xor(c, Ext(ByteBits(b)))[..8])), Down(c, 8))
  }

  /** The register after `data`, starting from `c`. */
  function Update(c: Reg, data: Bytes): Reg {
    if data == [] then c
    else TableStep(Update(c, data[..|data| - 1]), data[|data| - 1])
  }

  /** The checksum stored in a record: preset to ones, inverted at the end. */
  function Crc(data: Bytes): u32 {
    FromLe32(RegBytes(Xor(Update(ONES, data), ONES)))
  }

  method EntryLoop(n: byte) returns (c: Reg)
    ensures c == TableEntry(n)
  {
    c := Ext(ByteBits(n));
    for k := 0 to 8
      invariant c == Shifts(Ext(ByteBits(n)), k)
    {
      c := if c[0] then Xor(POLY, Down(c, 1)) else Down(c, 1);
    }
  }

  method BuildTable() returns (t: array<Reg>)
    ensures fresh(t) && t.Length == 256
    ensures forall n: byte :: t[n] == TableEntry(n)
  {
    hide TableEntry;
    t := new Reg[256](_ => ONES);
    for n := 0 to 256
      invariant forall m: byte :: m < n ==> t[m] == TableEntry(m)
    {
      t[n] := EntryLoop(n);
    }
  }

  /** crc32_update: the table loop leaves the register the bit-by-bit division leaves. */
  method UpdateLoop(crc: Reg, data: Bytes) returns (c: Reg)
    ensures c == Divide(crc, AllBits(data))
  {
    var t := BuildTable();
    c := crc;
    for i := 0 to |data|
      invariant c == Update(crc, data[..i])
    {
      var n := FromBits(Xor(c, Ext(ByteBits(data[i])))[..8]);
      c := Xor(t[n], Down(c, 8));
      assert data[..i + 1][..i] == data[..i];
    }
    assert data[..|data|] == data;
    TableIsDivision(crc, data);
  }

  // ---------- Bits and numbers ----------

  lemma RegBytesInjective(c: Reg, d: Reg)
    requires FromLe32(RegBytes(c)) == FromLe32(RegBytes(d))
    ensures c == d
  {
    hide FromLe32, Le32, FromBits, ByteBits;
    Le32Injective(RegBytes(c));
    Le32Injective(RegBytes(d));
    assert RegBytes(c)[0] == RegBytes(d)[0] && RegBytes(c)[1] == RegBytes(d)[1];
    assert RegBytes(c)[2] == RegBytes(d)[2] && RegBytes(c)[3] == RegBytes(d)[3];
    ByteBitsOf(c[..8]);
    ByteBitsOf(c[8..16]);
    ByteBitsOf(c[16..24]);
    ByteBitsOf(c[24..]);
    ByteBitsOf(d[..8]);
    ByteBitsOf(d[8..16]);
    ByteBitsOf(d[16..24]);
    ByteBitsOf(d[24..]);
    assert c == c[..8] + c[8..16] + c[16..24] + c[24..];
    assert d == d[..8] + d[8..16] + d[16..24] + d[24..];
  }

  lemma ByteBitsInjective(a: byte, b: byte)
    requires ByteBits(a) == ByteBits(b)
    ensures a == b
  {
    FromByteBits(a);
    FromByteBits(b);
  }

  lemma {:induction false} NatOfBits(x: nat, n: nat)
    requires x < Pow2(n)
    ensures NatOf(BitsOf(x, n)) == x
  {
    if n > 0 {
      NatOfBits(x / 2, n - 1);
      assert BitsOf(x, n)[1..] == BitsOf(x / 2, n - 1);
    }
  }

  lemma {:induction false} BitsOfNat(w: Bits)
    ensures BitsOf(NatOf(w), |w|) == w
  {
    if w != [] {
      BitsOfNat(w[1..]);
      assert NatOf(w) / 2 == NatOf(w[1..]);
      assert w == [w[0]] + w[1..];
    }
  }

  lemma FromByteBits(b: byte)
    ensures FromBits(ByteBits(b)) == b
  {
    assert Pow2(8) == 256;
    NatOfBits(b, 8);
  }

  lemma ByteBitsOf(w: Bits)
    requires |w| == 8
    ensures ByteBits(FromBits(w)) == w
  {
    BitsOfNat(w);
  }

  lemma AllBitsSnoc(v: Bytes, b: byte)
    ensures AllBits(v + [b]) == AllBits(v) + ByteBits(b)
  {
    hide ByteBits;
    assert (v + [b])[..|v|] == v;
  }

  lemma AllBitsNone(v: Bytes)
    requires v == []
    ensures AllBits(v) == []
  {
  }

  lemma Regroup(u: Bits, v: Bits, w: Bits)
    ensures u + v + w == u + (v + w)
  {
  }

  lemma {:induction false} AllBitsConcat(v: Bytes, w: Bytes)
    ensures AllBits(v + w) == AllBits(v) + AllBits(w)
    decreases |w|
  {
    hide AllBits, ByteBits;
    if w == [] {
      AllBitsNone(w);
      assert v + w == v;
    } else {
      var init, b := w[..|w| - 1], w[|w| - 1];
      assert w == init + [b] && v + w == v + init + [b];
      AllBitsConcat(v, init);
      AllBitsSnoc(init, b);
      AllBitsSnoc(v + init, b);
      Regroup(AllBits(v), AllBits(init), ByteBits(b));
    }
  }

  lemma {:induction false} AllBitsInjective(v: Bytes, w: Bytes)
    requires |v| == |w| && AllBits(v) == AllBits(w)
    ensures v == w
  {
    if v != [] {
      var n := |v| - 1;
      assert AllBits(v)[..8 * n] == AllBits(v[..n]) && AllBits(w)[..8 * n] == AllBits(w[..n]);
      assert AllBits(v)[8 * n..] == ByteBits(v[n]) && AllBits(w)[8 * n..] == ByteBits(w[n]);
      AllBitsInjective(v[..n], w[..n]);
      ByteBitsInjective(v[n], w[n]);
      assert v == v[..n] + [v[n]] && w == w[..n] + [w[n]];
    }
  }

  // ---------- Linearity of the register ----------

  lemma XorAssoc(a: Reg, b: Reg, c: Reg)
    ensures Xor(Xor(a, b), c) == Xor(a, Xor(b, c))
  {
  }

  lemma XorCancel(c: Reg, a: Reg, b: Reg)
    requires Xor(c, a) == Xor(c, b)
    ensures a == b
  {
    forall i | 0 <= i < 32
      ensures a[i] == b[i]
    {
      assert Xor(c, a)[i] == Xor(c, b)[i];
    }
  }

  lemma XorCommutes(a: Reg, b: Reg)
    ensures Xor(a, b) == Xor(b, a)
  {
  }

  lemma ShiftXor(a: Reg, b: Reg)
    ensures Shift(Xor(a, b)) == Xor(Shift(a), Shift(b))
  {
    forall i | 0 <= i < 32
      ensures Shift(Xor(a, b))[i] == Xor(Shift(a), Shift(b))[i]
    {
      assert Down(Xor(a, b), 1)[i] == (Down(a, 1)[i] != Down(b, 1)[i]);
    }
  }

  lemma {:induction false} ShiftsXor(a: Reg, b: Reg, n: nat)
    ensures Shifts(Xor(a, b), n) == Xor(Shifts(a, n), Shifts(b, n))
  {
    if n > 0 {
      ShiftsXor(a, b, n - 1);
      ShiftXor(Shifts(a, n - 1), Shifts(b, n - 1));
    }
  }

  /** The polynomial's top bit is set, so a step of the register loses nothing. */
  lemma ShiftInjective(a: Reg, b: Reg)
    requires Shift(a) == Shift(b)
    ensures a == b
  {
    assert POLY[31];
    assert Shift(a)[31] == a[0] && Shift(b)[31] == b[0];
    forall i | 1 <= i < 32
      ensures a[i] == b[i]
    {
      assert Shift(a)[i - 1] == Shift(b)[i - 1];
      assert Down(a, 1)[i - 1] == a[i] && Down(b, 1)[i - 1] == b[i];
    }
  }

  lemma {:induction false} ShiftsInjective(a: Reg, b: Reg, n: nat)
    requires Shifts(a, n) == Shifts(b, n)
    ensures a == b
  {
    if n > 0 {
      ShiftInjective(Shifts(a, n - 1), Shifts(b, n - 1));
      ShiftsInjective(a, b, n - 1);
    }
  }

  /** A value whose low n bits are clear only moves down. */
  lemma {:induction false} ShiftsClear(h: Reg, n: nat)
    requires n <= 32 && forall i :: 0 <= i < n ==> !h[i]
    ensures Shifts(h, n) == Down(h, n)
  {
    if n == 0 {
      assert Down(h, 0) == h;
    } else {
      ShiftsClear(h, n - 1);
      assert !Down(h, n - 1)[0];
      assert Down(Down(h, n - 1), 1) == Down(h, n);
    }
  }

  /** Dividing at most 32 bits is exclusive-oring them in, then stepping the register. */
  lemma {:induction false} DivideIsShifts(c: Reg, w: Bits)
    requires |w| <= 32
    ensures Divide(c, w) == Shifts(Xor(c, Ext(w)), |w|)
  {
    var n := |w|;
    if n == 0 {
      assert Xor(c, Ext(w)) == c;
    } else {
      var v := w[..n - 1];
      DivideIsShifts(c, v);
      // w is v and one more bit at place n - 1
      var last: Reg := Zeros(n - 1) + [w[n - 1]] + Zeros(32 - n);
      assert Ext(w) == Xor(Ext(v), last);
      XorAssoc(c, Ext(v), last);
      ShiftsXor(Xor(c, Ext(v)), last, n - 1);
      ShiftsClear(last, n - 1);
      var bottom := Down(last, n - 1);
      assert bottom == Ext([w[n - 1]]);
      BitStepXor(Divide(c, v), w[n - 1]);
    }
  }

  lemma BitStepXor(c: Reg, bit: bool)
    ensures BitStep(c, bit) == Shift(Xor(c, Ext([bit])))
  {
    assert Down(Xor(c, Ext([bit])), 1) == Down(c, 1);
  }

  lemma {:induction false} DivideConcat(c: Reg, v: Bits, w: Bits)
    ensures Divide(c, v + w) == Divide(Divide(c, v), w)
  {
    if w == [] {
      assert v + w == v;
    } else {
      DivideConcat(c, v, w[..|w| - 1]);
      assert (v + w)[..|v + w| - 1] == v + w[..|w| - 1];
    }
  }

  /** The two parts of a register under one byte: the byte that indexes the table, and the rest. */
  lemma LowAndHigh(c: Reg, w: Reg, x: Reg, lo: Reg, hi: Reg)
    requires x == Xor(c, w) && (forall i :: 8 <= i < 32 ==> !w[i])
    requires lo == Ext(x[..8]) && hi == Zeros(8) + x[8..]
    ensures x == Xor(lo, hi) && Down(hi, 8) == Down(c, 8)
  {
  }

  /** One table look-up is eight steps of the division. */
  lemma TableStepIsDivision(c: Reg, b: byte)
    ensures TableStep(c, b) == Divide(c, ByteBits(b))
  {
    hide Shifts, Divide, FromBits, ByteBits;
    var w := Ext(ByteBits(b));
    var x := Xor(c, w);
    var lo, hi: Reg := Ext(x[..8]), Zeros(8) + x[8..];
    ByteBitsOf(x[..8]);
    LowAndHigh(c, w, x, lo, hi);
    ShiftsXor(lo, hi, 8);
    ShiftsClear(hi, 8);
    DivideIsShifts(c, ByteBits(b));
  }

  /** The table-driven register is the bit-by-bit division. */
  lemma {:induction false} TableIsDivision(c: Reg, data: Bytes)
    ensures Update(c, data) == Divide(c, AllBits(data))
  {
    if data != [] {
      var n := |data| - 1;
      TableIsDivision(c, data[..n]);
      TableStepIsDivision(Update(c, data[..n]), data[n]);
      DivideConcat(c, AllBits(data[..n]), ByteBits(data[n]));
    }
  }

  /** Feeding chunks one after the other is feeding their concatenation. */
  lemma Chunks(c: Reg, a: Bytes, b: Bytes)
    ensures Update(c, a + b) == Update(Update(c, a), b)
  {
    hide TableStep;
    TableIsDivision(c, a + b);
    TableIsDivision(c, a);
    TableIsDivision(Divide(c, AllBits(a)), b);
    AllBitsConcat(a, b);
    DivideConcat(c, AllBits(a), AllBits(b));
  }

  // ---------- Damage detection ----------

  lemma {:induction false} UpdateInjective(c: Reg, d: Reg, data: Bytes)
    requires Update(c, data) == Update(d, data)
    ensures c == d
  {
    if data != [] {
      var n := |data| - 1;
      var u, v, w := Update(c, data[..n]), Update(d, data[..n]), ByteBits(data[n]);
      TableStepIsDivision(u, data[n]);
      TableStepIsDivision(v, data[n]);
      DivideIsShifts(u, w);
      DivideIsShifts(v, w);
      ShiftsInjective(Xor(u, Ext(w)), Xor(v, Ext(w)), 8);
      XorCommutes(u, Ext(w));
      XorCommutes(v, Ext(w));
      XorCancel(Ext(w), u, v);
      UpdateInjective(c, d, data[..n]);
    }
  }

  /** From one register, two different windows of at most four bytes leave different registers. */
  lemma WindowInjective(c: Reg, v: Bytes, w: Bytes)
    requires |v| == |w| <= 4 && Update(c, v) == Update(c, w)
    ensures v == w
  {
    var x, y := AllBits(v), AllBits(w);
    TableIsDivision(c, v);
    TableIsDivision(c, w);
    DivideIsShifts(c, x);
    DivideIsShifts(c, y);
    ShiftsInjective(Xor(c, Ext(x)), Xor(c, Ext(y)), |x|);
    XorCancel(c, Ext(x), Ext(y));
    assert Ext(x)[..|x|] == x && Ext(y)[..|x|] == y;
    AllBitsInjective(v, w);
  }

  lemma CrcInjective(a: Bytes, b: Bytes)
    requires Crc(a) == Crc(b)
    ensures Update(ONES, a) == Update(ONES, b)
  {
    var x, y := Update(ONES, a), Update(ONES, b);
    RegBytesInjective(Xor(x, ONES), Xor(y, ONES));
    XorCommutes(x, ONES);
    XorCommutes(y, ONES);
    XorCancel(ONES, x, y);
  }

  /** Equal surroundings, a different window of at most four bytes: a different register. */
  lemma WindowDetected(c: Reg, a: Bytes, v: Bytes, w: Bytes, z: Bytes)
    requires |v| == |w| <= 4 && Update(c, a + v + z) == Update(c, a + w + z)
    ensures v == w
  {
    var u := Update(c, a);
    Chunks(c, a + v, z);
    Chunks(c, a, v);
    Chunks(c, a + w, z);
    Chunks(c, a, w);
    UpdateInjective(Update(u, v), Update(u, w), z);
    WindowInjective(u, v, w);
  }

  lemma SplitAtBurst(d: Bytes, e: Bytes, i: nat) returns (k: nat)
    requires |d| == |e| && i <= |d|
    requires forall j :: 0 <= j < |d| && d[j] != e[j] ==> i <= j < i + 4
    ensures i <= k <= i + 4 && k <= |d|
    ensures d == d[..i] + d[i..k] + d[k..] && e == d[..i] + e[i..k] + d[k..]
  {
    k := if i + 4 <= |d| then i + 4 else |d|;
    assert d[..i] == e[..i];
    assert d[k..] == e[k..];
  }

  /** Two messages of one length, any length, that differ but only inside four
      consecutive bytes never have the same checksum. */
  lemma BurstDetected(d: Bytes, e: Bytes, i: nat)
    requires |d| == |e| && d != e && i <= |d|
    requires forall j :: 0 <= j < |d| && d[j] != e[j] ==> i <= j < i + 4
    ensures Crc(d) != Crc(e)
  {
    if Crc(d) == Crc(e) {
      CrcInjective(d, e);
      var k := SplitAtBurst(d, e, i);
      WindowDetected(ONES, d[..i], d[i..k], e[i..k], d[k..]);
    }
  }
}
