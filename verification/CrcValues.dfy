/**
  What the checksum is as a number. A register is read off a 32-bit word, one bit per
  mask; one step of the division is then a shift and an exclusive or with 0xEDB88320.
  From that: the checksum of the empty message, the constant residue of a message
  followed by its own checksum, and the check value of "123456789".
*/
module CrcValues {
  import opened Bytes
  import opened Crc32

  /** One bit of the division. */
  function Step(c: bv32): bv32 { if c & 1 == 1 then Half(c) ^ 0xEDB8_8320 else Half(c) }

  function Steps(c: bv32, n: nat): bv32
    decreases n
  {
    if n == 0 then c else Steps(Step(c), n - 1)
  }

  // ---------- Registers as words ----------

  function Twice(m: bv32): bv32 { m << 1 }

  function Half(c: bv32): bv32 { c >> 1 }

  function Mask(i: nat): bv32 { if i == 0 then 1 else Twice(Mask(i - 1)) }

  predicate Hit(c: bv32, m: bv32) { c & m != 0 }

  predicate At(c: bv32, i: nat) { Hit(c, Mask(i)) }

  function RegOf(c: bv32): Reg { seq(32, i requires 0 <= i < 32 => At(c, i)) }

  lemma {:induction false} MaskOneBit(i: nat)
    ensures Mask(i) & (Mask(i) - 1) == 0
  {
    if i > 0 {
      MaskOneBit(i - 1);
      TwiceOneBit(Mask(i - 1));
    }
  }

  lemma TwiceOneBit(m: bv32)
    requires m & (m - 1) == 0
    ensures Twice(m) & (Twice(m) - 1) == 0
  {
  }

  lemma XorBit(c: bv32, d: bv32, m: bv32)
    requires m & (m - 1) == 0
    ensures Hit(c ^ d, m) <==> Hit(c, m) != Hit(d, m)
  {
  }

  lemma XorOf(c: bv32, d: bv32)
    ensures Xor(RegOf(c), RegOf(d)) == RegOf(c ^ d)
  {
    hide Mask, Hit;
    forall i | 0 <= i < 32
      ensures Xor(RegOf(c), RegOf(d))[i] == RegOf(c ^ d)[i]
    {
      MaskOneBit(i);
      XorBit(c, d, Mask(i));
    }
  }

  lemma HalfBit(c: bv32, m: bv32)
    ensures Hit(Half(c), m) == Hit(c, Twice(m))
  {
  }

  lemma NextMask(i: nat)
    ensures Mask(i + 1) == Twice(Mask(i))
  {
  }

  lemma Masks(i: nat, m: bv32)
    requires Mask(i) == m
    ensures Mask(i + 1) == Twice(m) && Mask(i + 2) == Twice(Twice(m)) && Mask(i + 3) == Twice(Twice(Twice(m)))
    ensures Mask(i + 4) == Twice(Twice(Twice(Twice(m))))
  {
    hide Mask, Twice;
    NextMask(i);
    NextMask(i + 1);
    NextMask(i + 2);
    NextMask(i + 3);
  }

  lemma MaskValues()
    ensures Mask(0) == 0x1 && Mask(1) == 0x2 && Mask(2) == 0x4 && Mask(3) == 0x8
    ensures Mask(4) == 0x10 && Mask(5) == 0x20 && Mask(6) == 0x40 && Mask(7) == 0x80
    ensures Mask(8) == 0x100 && Mask(9) == 0x200 && Mask(10) == 0x400 && Mask(11) == 0x800
    ensures Mask(12) == 0x1000 && Mask(13) == 0x2000 && Mask(14) == 0x4000 && Mask(15) == 0x8000
    ensures Mask(16) == 0x10000 && Mask(17) == 0x20000 && Mask(18) == 0x40000 && Mask(19) == 0x80000
    ensures Mask(20) == 0x100000 && Mask(21) == 0x200000 && Mask(22) == 0x400000 && Mask(23) == 0x800000
    ensures Mask(24) == 0x1000000 && Mask(25) == 0x2000000 && Mask(26) == 0x4000000 && Mask(27) == 0x8000000
    ensures Mask(28) == 0x10000000 && Mask(29) == 0x20000000 && Mask(30) == 0x40000000 && Mask(31) == 0x80000000
    ensures Mask(32) == 0
  {
    hide Mask;
    FirstMask();
    Masks(0, 0x1);
    Masks(4, 0x10);
    Masks(8, 0x100);
    Masks(12, 0x1000);
    Masks(16, 0x10000);
    Masks(20, 0x100000);
    Masks(24, 0x1000000);
    Masks(28, 0x10000000);
  }

  lemma FirstMask()
    ensures Mask(0) == 1
  {
  }

  lemma DownBit(c: bv32, i: nat)
    requires i < 32
    ensures At(Half(c), i) == (i < 31 && At(c, i + 1))
  {
    hide Mask, Hit, Half, Twice;
    if i == 31 {
      MaskValues();
      TopBit(c);
    } else {
      NextMask(i);
      HalfBit(c, Mask(i));
    }
  }

  lemma TopBit(c: bv32)
    ensures !Hit(Half(c), 0x8000_0000)
  {
  }

  lemma DownOf(c: bv32)
    ensures Down(RegOf(c), 1) == RegOf(Half(c))
  {
    hide At, Half;
    forall i | 0 <= i < 32
      ensures Down(RegOf(c), 1)[i] == RegOf(Half(c))[i]
    {
      DownBit(c, i);
    }
  }

  lemma PolyBits0()
    ensures forall i :: 0 <= i < 8 ==> POLY[i] == At(0xEDB8_8320, i)
  {
    hide Mask;
    MaskValues();
    assert !At(0xEDB8_8320, 0) && !At(0xEDB8_8320, 1) && !At(0xEDB8_8320, 2) && !At(0xEDB8_8320, 3);
    assert !At(0xEDB8_8320, 4) && At(0xEDB8_8320, 5) && !At(0xEDB8_8320, 6) && !At(0xEDB8_8320, 7);
    assert !POLY[0] && !POLY[1] && !POLY[2] && !POLY[3] && !POLY[4] && POLY[5] && !POLY[6] && !POLY[7];
  }

  lemma PolyBits1()
    ensures forall i :: 8 <= i < 16 ==> POLY[i] == At(0xEDB8_8320, i)
  {
    hide Mask;
    MaskValues();
    assert At(0xEDB8_8320, 8) && At(0xEDB8_8320, 9) && !At(0xEDB8_8320, 10) && !At(0xEDB8_8320, 11);
    assert !At(0xEDB8_8320, 12) && !At(0xEDB8_8320, 13) && !At(0xEDB8_8320, 14) && At(0xEDB8_8320, 15);
    assert POLY[8] && POLY[9] && !POLY[10] && !POLY[11] && !POLY[12] && !POLY[13] && !POLY[14] && POLY[15];
  }

  lemma PolyBits2()
    ensures forall i :: 16 <= i < 24 ==> POLY[i] == At(0xEDB8_8320, i)
  {
    hide Mask;
    MaskValues();
    assert !At(0xEDB8_8320, 16) && !At(0xEDB8_8320, 17) && !At(0xEDB8_8320, 18) && At(0xEDB8_8320, 19);
    assert At(0xEDB8_8320, 20) && At(0xEDB8_8320, 21) && !At(0xEDB8_8320, 22) && At(0xEDB8_8320, 23);
    assert !POLY[16] && !POLY[17] && !POLY[18] && POLY[19] && POLY[20] && POLY[21] && !POLY[22] && POLY[23];
  }

  lemma PolyBits3()
    ensures forall i :: 24 <= i < 32 ==> POLY[i] == At(0xEDB8_8320, i)
  {
    hide Mask;
    MaskValues();
    assert At(0xEDB8_8320, 24) && !At(0xEDB8_8320, 25) && At(0xEDB8_8320, 26) && At(0xEDB8_8320, 27);
    assert !At(0xEDB8_8320, 28) && At(0xEDB8_8320, 29) && At(0xEDB8_8320, 30) && At(0xEDB8_8320, 31);
    assert POLY[24] && !POLY[25] && POLY[26] && POLY[27] && !POLY[28] && POLY[29] && POLY[30] && POLY[31];
  }

  lemma PolyOf()
    ensures POLY == RegOf(0xEDB8_8320)
  {
    hide At;
    PolyBits0();
    PolyBits1();
    PolyBits2();
    PolyBits3();
    forall i | 0 <= i < 32
      ensures POLY[i] == RegOf(0xEDB8_8320)[i]
    {
    }
  }

  lemma AllSet(m: bv32)
    ensures m != 0 ==> Hit(0xFFFF_FFFF, m)
  {
  }

  lemma MaskSet(i: nat)
    requires i < 32
    ensures Mask(i) != 0
  {
    hide Mask;
    MaskValues();
  }

  lemma OnesOf()
    ensures ONES == RegOf(0xFFFF_FFFF)
  {
    hide Mask, Hit;
    forall i | 0 <= i < 32
      ensures ONES[i] == RegOf(0xFFFF_FFFF)[i]
    {
      MaskSet(i);
      AllSet(Mask(i));
    }
  }

  lemma XorSwap(c: bv32, d: bv32)
    ensures c ^ d == d ^ c
  {
  }

  lemma LowBit(c: bv32)
    ensures RegOf(c)[0] == (c & 1 == 1)
  {
    assert c & 1 == 1 || c & 1 == 0;
  }

  lemma ShiftOf(c: bv32)
    ensures Shift(RegOf(c)) == RegOf(Step(c))
  {
    hide At, RegOf, Down, Xor, Half;
    LowBit(c);
    DownOf(c);
    PolyOf();
    XorOf(0xEDB8_8320, Half(c));
    XorSwap(0xEDB8_8320, Half(c));
  }

  lemma {:induction false} ShiftsOf(c: bv32, n: nat)
    ensures Shifts(RegOf(c), n) == RegOf(Steps(c, n))
    decreases n
  {
    hide Shift, Step, RegOf;
    if n > 0 {
      ShiftOf(c);
      ShiftsOf(Step(c), n - 1);
      ShiftFirst(RegOf(c), n);
    }
  }

  lemma {:induction false} ShiftFirst(c: Reg, n: nat)
    requires n > 0
    ensures Shifts(c, n) == Shifts(Shift(c), n - 1)
  {
    hide Shift;
    if n > 1 {
      ShiftFirst(c, n - 1);
    }
  }

  /** The register after one more byte, whose bits are those of the word b. */
  lemma After(data: Bytes, c: bv32, n: byte, b: bv32)
    requires Update(ONES, data) == RegOf(c) && Ext(ByteBits(n)) == RegOf(b)
    ensures Update(ONES, data + [n]) == RegOf(Steps(c ^ b, 8))
  {
    hide RegOf, Steps, Shifts, TableStep, Divide, Xor, Ext, ByteBits;
    assert (data + [n])[..|data|] == data;
    TableStepIsDivision(RegOf(c), n);
    DivideIsShifts(RegOf(c), ByteBits(n));
    XorOf(c, b);
    ShiftsOf(c ^ b, 8);
  }

  /** The checksum of a message that leaves the word c in the register. */
  lemma CrcOf(data: Bytes, c: bv32)
    requires Update(ONES, data) == RegOf(c)
    ensures Crc(data) == FromLe32(RegBytes(RegOf(c ^ 0xFFFF_FFFF)))
  {
    hide RegBytes, FromLe32, Update, Xor, RegOf;
    OnesOf();
    XorOf(c, 0xFFFF_FFFF);
  }

  lemma NothingRead()
    ensures Update(ONES, []) == ONES
  {
  }

  // ---------- Words as numbers ----------

  lemma ResidueByte0()
    ensures FromBits(RegOf(0x2144_DF1C)[..8]) == 0x1C
  {
    hide FromBits, Mask;
    MaskValues();
    var w := RegOf(0x2144_DF1C)[..8];
    assert !At(0x2144_DF1C, 0) && !At(0x2144_DF1C, 1) && At(0x2144_DF1C, 2) && At(0x2144_DF1C, 3);
    assert At(0x2144_DF1C, 4) && !At(0x2144_DF1C, 5) && !At(0x2144_DF1C, 6) && !At(0x2144_DF1C, 7);
    assert !w[0] && !w[1] && w[2] && w[3] && w[4] && !w[5] && !w[6] && !w[7];
    Byte8(w);
  }

  lemma ResidueByte1()
    ensures FromBits(RegOf(0x2144_DF1C)[8..16]) == 0xDF
  {
    hide FromBits, Mask;
    MaskValues();
    var w := RegOf(0x2144_DF1C)[8..16];
    assert At(0x2144_DF1C, 8) && At(0x2144_DF1C, 9) && At(0x2144_DF1C, 10) && At(0x2144_DF1C, 11);
    assert At(0x2144_DF1C, 12) && !At(0x2144_DF1C, 13) && At(0x2144_DF1C, 14) && At(0x2144_DF1C, 15);
    assert w[0] && w[1] && w[2] && w[3] && w[4] && !w[5] && w[6] && w[7];
    Byte8(w);
  }

  lemma ResidueByte2()
    ensures FromBits(RegOf(0x2144_DF1C)[16..24]) == 0x44
  {
    hide FromBits, Mask;
    MaskValues();
    var w := RegOf(0x2144_DF1C)[16..24];
    assert !At(0x2144_DF1C, 16) && !At(0x2144_DF1C, 17) && At(0x2144_DF1C, 18) && !At(0x2144_DF1C, 19);
    assert !At(0x2144_DF1C, 20) && !At(0x2144_DF1C, 21) && At(0x2144_DF1C, 22) && !At(0x2144_DF1C, 23);
    assert !w[0] && !w[1] && w[2] && !w[3] && !w[4] && !w[5] && w[6] && !w[7];
    Byte8(w);
  }

  lemma ResidueByte3()
    ensures FromBits(RegOf(0x2144_DF1C)[24..]) == 0x21
  {
    hide FromBits, Mask;
    MaskValues();
    var w := RegOf(0x2144_DF1C)[24..];
    assert At(0x2144_DF1C, 24) && !At(0x2144_DF1C, 25) && !At(0x2144_DF1C, 26) && !At(0x2144_DF1C, 27);
    assert !At(0x2144_DF1C, 28) && At(0x2144_DF1C, 29) && !At(0x2144_DF1C, 30) && !At(0x2144_DF1C, 31);
    assert w[0] && !w[1] && !w[2] && !w[3] && !w[4] && w[5] && !w[6] && !w[7];
    Byte8(w);
  }

  lemma ResidueValue()
    ensures FromLe32(RegBytes(RegOf(0x2144_DF1C))) == 0x2144_DF1C
  {
    hide FromBits, RegOf;
    ResidueByte0();
    ResidueByte1();
    ResidueByte2();
    ResidueByte3();
  }

  lemma CheckByte0()
    ensures FromBits(RegOf(0xCBF4_3926)[..8]) == 0x26
  {
    hide FromBits, Mask;
    MaskValues();
    var w := RegOf(0xCBF4_3926)[..8];
    assert !At(0xCBF4_3926, 0) && At(0xCBF4_3926, 1) && At(0xCBF4_3926, 2) && !At(0xCBF4_3926, 3);
    assert !At(0xCBF4_3926, 4) && At(0xCBF4_3926, 5) && !At(0xCBF4_3926, 6) && !At(0xCBF4_3926, 7);
    assert !w[0] && w[1] && w[2] && !w[3] && !w[4] && w[5] && !w[6] && !w[7];
    Byte8(w);
  }

  lemma CheckByte1()
    ensures FromBits(RegOf(0xCBF4_3926)[8..16]) == 0x39
  {
    hide FromBits, Mask;
    MaskValues();
    var w := RegOf(0xCBF4_3926)[8..16];
    assert At(0xCBF4_3926, 8) && !At(0xCBF4_3926, 9) && !At(0xCBF4_3926, 10) && At(0xCBF4_3926, 11);
    assert At(0xCBF4_3926, 12) && At(0xCBF4_3926, 13) && !At(0xCBF4_3926, 14) && !At(0xCBF4_3926, 15);
    assert w[0] && !w[1] && !w[2] && w[3] && w[4] && w[5] && !w[6] && !w[7];
    Byte8(w);
  }

  lemma CheckByte2()
    ensures FromBits(RegOf(0xCBF4_3926)[16..24]) == 0xF4
  {
    hide FromBits, Mask;
    MaskValues();
    var w := RegOf(0xCBF4_3926)[16..24];
    assert !At(0xCBF4_3926, 16) && !At(0xCBF4_3926, 17) && At(0xCBF4_3926, 18) && !At(0xCBF4_3926, 19);
    assert At(0xCBF4_3926, 20) && At(0xCBF4_3926, 21) && At(0xCBF4_3926, 22) && At(0xCBF4_3926, 23);
    assert !w[0] && !w[1] && w[2] && !w[3] && w[4] && w[5] && w[6] && w[7];
    Byte8(w);
  }

  lemma CheckByte3()
    ensures FromBits(RegOf(0xCBF4_3926)[24..]) == 0xCB
  {
    hide FromBits, Mask;
    MaskValues();
    var w := RegOf(0xCBF4_3926)[24..];
    assert At(0xCBF4_3926, 24) && At(0xCBF4_3926, 25) && !At(0xCBF4_3926, 26) && At(0xCBF4_3926, 27);
    assert !At(0xCBF4_3926, 28) && !At(0xCBF4_3926, 29) && At(0xCBF4_3926, 30) && At(0xCBF4_3926, 31);
    assert w[0] && w[1] && !w[2] && w[3] && !w[4] && !w[5] && w[6] && w[7];
    Byte8(w);
  }

  lemma CheckValueWord()
    ensures FromLe32(RegBytes(RegOf(0xCBF4_3926))) == 0xCBF4_3926
  {
    hide FromBits, RegOf;
    CheckByte0();
    CheckByte1();
    CheckByte2();
    CheckByte3();
  }

  lemma ZeroByte0()
    ensures FromBits(RegOf(0x0000_0000)[..8]) == 0x00
  {
    hide FromBits, Mask;
    MaskValues();
    var w := RegOf(0x0000_0000)[..8];
    assert !At(0x0000_0000, 0) && !At(0x0000_0000, 1) && !At(0x0000_0000, 2) && !At(0x0000_0000, 3);
    assert !At(0x0000_0000, 4) && !At(0x0000_0000, 5) && !At(0x0000_0000, 6) && !At(0x0000_0000, 7);
    assert !w[0] && !w[1] && !w[2] && !w[3] && !w[4] && !w[5] && !w[6] && !w[7];
    Byte8(w);
  }

  lemma ZeroByte1()
    ensures FromBits(RegOf(0x0000_0000)[8..16]) == 0x00
  {
    hide FromBits, Mask;
    MaskValues();
    var w := RegOf(0x0000_0000)[8..16];
    assert !At(0x0000_0000, 8) && !At(0x0000_0000, 9) && !At(0x0000_0000, 10) && !At(0x0000_0000, 11);
    assert !At(0x0000_0000, 12) && !At(0x0000_0000, 13) && !At(0x0000_0000, 14) && !At(0x0000_0000, 15);
    assert !w[0] && !w[1] && !w[2] && !w[3] && !w[4] && !w[5] && !w[6] && !w[7];
    Byte8(w);
  }

  lemma ZeroByte2()
    ensures FromBits(RegOf(0x0000_0000)[16..24]) == 0x00
  {
    hide FromBits, Mask;
    MaskValues();
    var w := RegOf(0x0000_0000)[16..24];
    assert !At(0x0000_0000, 16) && !At(0x0000_0000, 17) && !At(0x0000_0000, 18) && !At(0x0000_0000, 19);
    assert !At(0x0000_0000, 20) && !At(0x0000_0000, 21) && !At(0x0000_0000, 22) && !At(0x0000_0000, 23);
    assert !w[0] && !w[1] && !w[2] && !w[3] && !w[4] && !w[5] && !w[6] && !w[7];
    Byte8(w);
  }

  lemma ZeroByte3()
    ensures FromBits(RegOf(0x0000_0000)[24..]) == 0x00
  {
    hide FromBits, Mask;
    MaskValues();
    var w := RegOf(0x0000_0000)[24..];
    assert !At(0x0000_0000, 24) && !At(0x0000_0000, 25) && !At(0x0000_0000, 26) && !At(0x0000_0000, 27);
    assert !At(0x0000_0000, 28) && !At(0x0000_0000, 29) && !At(0x0000_0000, 30) && !At(0x0000_0000, 31);
    assert !w[0] && !w[1] && !w[2] && !w[3] && !w[4] && !w[5] && !w[6] && !w[7];
    Byte8(w);
  }

  lemma ZeroValue()
    ensures FromLe32(RegBytes(RegOf(0x0000_0000))) == 0x0000_0000
  {
    hide FromBits, RegOf;
    ZeroByte0();
    ZeroByte1();
    ZeroByte2();
    ZeroByte3();
  }

  // ---------- The three values ----------

  /** The empty message has checksum 0. */
  lemma EmptyCrc()
    ensures Crc([]) == 0
  {
    hide RegOf, RegBytes, FromLe32, Update;
    OnesOf();
    NothingRead();
    CrcOf([], 0xFFFF_FFFF);
    ZeroValue();
  }

  /** A register followed by its own complement leaves what ones leave after 32 steps. */
  lemma OwnComplement(u: Reg)
    ensures Divide(u, AllBits(RegBytes(Xor(u, ONES)))) == Shifts(ONES, 32)
  {
    hide Divide, Shifts, FromBits, ByteBits, AllBits;
    var v := Xor(u, ONES);
    RegBits(v);
    DivideIsShifts(u, v);
    assert Ext(v) == v;
    assert Xor(u, v) == ONES;
  }

  /** The bits of the bytes of a register are its bits. */
  lemma RegBits(v: Reg)
    ensures AllBits(RegBytes(v)) == v
  {
    hide FromBits, ByteBits, AllBits;
    var b := RegBytes(v);
    AllBitsNone([]);
    AllBitsSnoc([], b[0]);
    AllBitsSnoc([b[0]], b[1]);
    AllBitsSnoc([b[0], b[1]], b[2]);
    AllBitsSnoc([b[0], b[1], b[2]], b[3]);
    assert [] + [b[0]] == [b[0]] && [b[0]] + [b[1]] == [b[0], b[1]];
    assert [b[0], b[1]] + [b[2]] == [b[0], b[1], b[2]] && [b[0], b[1], b[2]] + [b[3]] == b;
    ByteBitsOf(v[..8]);
    ByteBitsOf(v[8..16]);
    ByteBitsOf(v[16..24]);
    ByteBitsOf(v[24..]);
    assert v == v[..8] + v[8..16] + v[16..24] + v[24..];
  }

  lemma Ones32()
    ensures Steps(0xFFFF_FFFF, 32) == 0xDEBB_20E3
  {
    assert Steps(0xFFFF_FFFF, 8) == 0x2DFD_1072;
    assert Steps(0x2DFD_1072, 8) == 0xBE26_ED00;
    assert Steps(0xBE26_ED00, 8) == 0x00BE_26ED;
    assert Steps(0x00BE_26ED, 8) == 0xDEBB_20E3;
    StepsSum(0xFFFF_FFFF, 8, 24);
    StepsSum(0x2DFD_1072, 8, 16);
    StepsSum(0xBE26_ED00, 8, 8);
  }

  lemma {:induction false} StepsSum(c: bv32, m: nat, n: nat)
    ensures Steps(c, m + n) == Steps(Steps(c, m), n)
    decreases m
  {
    hide Step;
    if m > 0 {
      StepsSum(Step(c), m - 1, n);
    }
  }

  /** Every message followed by its own checksum has the same checksum. */
  lemma Residue(data: Bytes)
    ensures Crc(data + Le32(Crc(data))) == 0x2144_DF1C
  {
    hide Update, Divide, AllBits, RegBytes, FromLe32, Le32, Shifts, Steps, RegOf, Xor;
    var u := Update(ONES, data);
    var v := RegBytes(Xor(u, ONES));
    Le32Injective(v);
    assert Le32(Crc(data)) == v;
    Chunks(ONES, data, v);
    TableIsDivision(u, v);
    OwnComplement(u);
    OnesOf();
    ShiftsOf(0xFFFF_FFFF, 32);
    Ones32();
    CrcOf(data + v, 0xDEBB_20E3);
    ResidueValue();
  }

  lemma {:induction false} NoHighBits(b: bv32, i: nat)
    requires b <= 0xFF && 8 <= i
    ensures !At(b, i)
  {
    hide Mask, Hit;
    HighMask(i);
    HighMaskMisses(b, Mask(i));
  }

  lemma {:induction false} HighMask(i: nat)
    requires 8 <= i
    ensures Mask(i) & 0xFF == 0
  {
    if i == 8 {
      MaskValues();
    } else {
      HighMask(i - 1);
      TwiceHigh(Mask(i - 1));
    }
  }

  lemma TwiceHigh(m: bv32)
    requires m & 0xFF == 0
    ensures Twice(m) & 0xFF == 0
  {
  }

  lemma HighMaskMisses(b: bv32, m: bv32)
    requires b <= 0xFF && m & 0xFF == 0
    ensures !Hit(b, m)
  {
  }

  /** A byte with the given bits, as a register. */
  lemma ByteWord(n: byte, b: bv32, w: Bits)
    requires |w| == 8 && FromBits(w) == n && b <= 0xFF && forall i :: 0 <= i < 8 ==> w[i] == At(b, i)
    ensures Ext(ByteBits(n)) == RegOf(b)
  {
    hide FromBits, ByteBits, At;
    ByteBitsOf(w);
    forall i | 0 <= i < 32
      ensures Ext(w)[i] == RegOf(b)[i]
    {
      if i >= 8 {
        NoHighBits(b, i);
      }
    }
  }

  lemma Digit1()
    ensures Ext(ByteBits(49)) == RegOf(49)
  {
    hide FromBits, ByteBits, Ext, RegOf, Mask;
    MaskValues();
    var w := [true, false, false, false, true, true, false, false];
    Byte8(w);
    assert At(49, 0) && !At(49, 1) && !At(49, 2) && !At(49, 3) && At(49, 4) && At(49, 5) && !At(49, 6) && !At(49, 7);
    ByteWord(49, 49, w);
  }

  lemma Digit2()
    ensures Ext(ByteBits(50)) == RegOf(50)
  {
    hide FromBits, ByteBits, Ext, RegOf, Mask;
    MaskValues();
    var w := [false, true, false, false, true, true, false, false];
    Byte8(w);
    assert !At(50, 0) && At(50, 1) && !At(50, 2) && !At(50, 3) && At(50, 4) && At(50, 5) && !At(50, 6) && !At(50, 7);
    ByteWord(50, 50, w);
  }

  lemma Digit3()
    ensures Ext(ByteBits(51)) == RegOf(51)
  {
    hide FromBits, ByteBits, Ext, RegOf, Mask;
    MaskValues();
    var w := [true, true, false, false, true, true, false, false];
    Byte8(w);
    assert At(51, 0) && At(51, 1) && !At(51, 2) && !At(51, 3) && At(51, 4) && At(51, 5) && !At(51, 6) && !At(51, 7);
    ByteWord(51, 51, w);
  }

  lemma Digit4()
    ensures Ext(ByteBits(52)) == RegOf(52)
  {
    hide FromBits, ByteBits, Ext, RegOf, Mask;
    MaskValues();
    var w := [false, false, true, false, true, true, false, false];
    Byte8(w);
    assert !At(52, 0) && !At(52, 1) && At(52, 2) && !At(52, 3) && At(52, 4) && At(52, 5) && !At(52, 6) && !At(52, 7);
    ByteWord(52, 52, w);
  }

  lemma Digit5()
    ensures Ext(ByteBits(53)) == RegOf(53)
  {
    hide FromBits, ByteBits, Ext, RegOf, Mask;
    MaskValues();
    var w := [true, false, true, false, true, true, false, false];
    Byte8(w);
    assert At(53, 0) && !At(53, 1) && At(53, 2) && !At(53, 3) && At(53, 4) && At(53, 5) && !At(53, 6) && !At(53, 7);
    ByteWord(53, 53, w);
  }

  lemma Digit6()
    ensures Ext(ByteBits(54)) == RegOf(54)
  {
    hide FromBits, ByteBits, Ext, RegOf, Mask;
    MaskValues();
    var w := [false, true, true, false, true, true, false, false];
    Byte8(w);
    assert !At(54, 0) && At(54, 1) && At(54, 2) && !At(54, 3) && At(54, 4) && At(54, 5) && !At(54, 6) && !At(54, 7);
    ByteWord(54, 54, w);
  }

  lemma Digit7()
    ensures Ext(ByteBits(55)) == RegOf(55)
  {
    hide FromBits, ByteBits, Ext, RegOf, Mask;
    MaskValues();
    var w := [true, true, true, false, true, true, false, false];
    Byte8(w);
    assert At(55, 0) && At(55, 1) && At(55, 2) && !At(55, 3) && At(55, 4) && At(55, 5) && !At(55, 6) && !At(55, 7);
    ByteWord(55, 55, w);
  }

  lemma Digit8()
    ensures Ext(ByteBits(56)) == RegOf(56)
  {
    hide FromBits, ByteBits, Ext, RegOf, Mask;
    MaskValues();
    var w := [false, false, false, true, true, true, false, false];
    Byte8(w);
    assert !At(56, 0) && !At(56, 1) && !At(56, 2) && At(56, 3) && At(56, 4) && At(56, 5) && !At(56, 6) && !At(56, 7);
    ByteWord(56, 56, w);
  }

  lemma Digit9()
    ensures Ext(ByteBits(57)) == RegOf(57)
  {
    hide FromBits, ByteBits, Ext, RegOf, Mask;
    MaskValues();
    var w := [true, false, false, true, true, true, false, false];
    Byte8(w);
    assert At(57, 0) && !At(57, 1) && !At(57, 2) && At(57, 3) && At(57, 4) && At(57, 5) && !At(57, 6) && !At(57, 7);
    ByteWord(57, 57, w);
  }

  lemma Step1()
    ensures Steps(0xFFFF_FFFF ^ 49, 8) == 0x7C23_1048
  {
  }

  lemma Step2()
    ensures Steps(0x7C23_1048 ^ 50, 8) == 0xB0AC_BB32
  {
  }

  lemma Step3()
    ensures Steps(0xB0AC_BB32 ^ 51, 8) == 0x77B7_9C2D
  {
  }

  lemma Step4()
    ensures Steps(0x77B7_9C2D ^ 52, 8) == 0x641C_1F5C
  {
  }

  lemma Step5()
    ensures Steps(0x641C_1F5C ^ 53, 8) == 0x340A_C5E3
  {
  }

  lemma Step6()
    ensures Steps(0x340A_C5E3 ^ 54, 8) == 0xF68D_2C9E
  {
  }

  lemma Step7()
    ensures Steps(0xF68D_2C9E ^ 55, 8) == 0xAFFC_9660
  {
  }

  lemma Step8()
    ensures Steps(0xAFFC_9660 ^ 56, 8) == 0x651F_2550
  {
  }

  lemma Step9()
    ensures Steps(0x651F_2550 ^ 57, 8) == 0x340B_C6D9
  {
  }

  /** The check value: the checksum of "123456789". */
  lemma CheckValue()
    ensures Crc([49, 50, 51, 52, 53, 54, 55, 56, 57]) == 0xCBF4_3926
  {
    hide Update, RegOf, Ext, ByteBits, RegBytes, FromLe32, Steps;
    OnesOf();
    NothingRead();
    Digit1();
    assert [] + [49] == [49];
    After([], 0xFFFF_FFFF, 49, 49);
    Step1();
    Digit2();
    assert [49] + [50] == [49, 50];
    After([49], 0x7C23_1048, 50, 50);
    Step2();
    Digit3();
    assert [49, 50] + [51] == [49, 50, 51];
    After([49, 50], 0xB0AC_BB32, 51, 51);
    Step3();
    Digit4();
    assert [49, 50, 51] + [52] == [49, 50, 51, 52];
    After([49, 50, 51], 0x77B7_9C2D, 52, 52);
    Step4();
    Digit5();
    assert [49, 50, 51, 52] + [53] == [49, 50, 51, 52, 53];
    After([49, 50, 51, 52], 0x641C_1F5C, 53, 53);
    Step5();
    Digit6();
    assert [49, 50, 51, 52, 53] + [54] == [49, 50, 51, 52, 53, 54];
    After([49, 50, 51, 52, 53], 0x340A_C5E3, 54, 54);
    Step6();
    Digit7();
    assert [49, 50, 51, 52, 53, 54] + [55] == [49, 50, 51, 52, 53, 54, 55];
    After([49, 50, 51, 52, 53, 54], 0xF68D_2C9E, 55, 55);
    Step7();
    Digit8();
    assert [49, 50, 51, 52, 53, 54, 55] + [56] == [49, 50, 51, 52, 53, 54, 55, 56];
    After([49, 50, 51, 52, 53, 54, 55], 0xAFFC_9660, 56, 56);
    Step8();
    Digit9();
    assert [49, 50, 51, 52, 53, 54, 55, 56] + [57] == [49, 50, 51, 52, 53, 54, 55, 56, 57];
    After([49, 50, 51, 52, 53, 54, 55, 56], 0x651F_2550, 57, 57);
    Step9();
    CrcOf([49, 50, 51, 52, 53, 54, 55, 56, 57], 0x340B_C6D9);
    CheckValueWord();
  }
}
