/**
  The table of twiddle factors against its definition: entry k is, in Montgomery form,
  17 to the power of the 7 bits of k in reverse order (section 4.3 and appendix A of
  FIPS 203). The entries in the order of their exponents are a chain in which each is
  17 times the one before.
*/
module ZetaPowers {
  import opened ModQ
  import opened Powers
  import opened Zetas

  /** The low `bits` bits of k in reverse order. */
  function BitRev(k: nat, bits: nat): nat
    decreases bits
  {
    if bits == 0 then 0 else (k % 2) * Pow2(bits - 1) + BitRev(k / 2, bits - 1)
  }

  /** z is 17^e in Montgomery form. */
  ghost predicate IsPower(z: int, e: nat) { Cong(z * 169, Power(17, e)) }

  ghost predicate Graded(t: Tree, e: nat) {
    IsPower(t.z, e) && (t.Fork? ==> Graded(t.left, e / 2) && Graded(t.right, 64 + e / 2))
  }

  lemma NextPower(z: int, e: nat, y: int)
    requires IsPower(z, e) && (17 * z - y) % Q == 0
    ensures IsPower(y, e + 1)
  {
    var w := CongElim(z * 169, Power(17, e));
    var k := (17 * z - y) / Q;
    assert 17 * z - y == Q * k;
    CongIntro(y * 169, Power(17, e + 1), 17 * w - 169 * k);
  }

  lemma PowersFrom0()
    ensures IsPower(-1044, 0) && IsPower(-1103, 1) && IsPower(1223, 2) && IsPower(817, 3)
    ensures IsPower(573, 4) && IsPower(-246, 5) && IsPower(-853, 6) && IsPower(-1185, 7)
    ensures IsPower(-171, 8) && IsPower(422, 9) && IsPower(516, 10) && IsPower(-1215, 11)
    ensures IsPower(-681, 12) && IsPower(-1590, 13) && IsPower(-398, 14) && IsPower(-108, 15)
  {
    hide IsPower;
    FirstPower();
    NextPower(-1044, 0, -1103);
    NextPower(-1103, 1, 1223);
    NextPower(1223, 2, 817);
    NextPower(817, 3, 573);
    NextPower(573, 4, -246);
    NextPower(-246, 5, -853);
    NextPower(-853, 6, -1185);
    NextPower(-1185, 7, -171);
    NextPower(-171, 8, 422);
    NextPower(422, 9, 516);
    NextPower(516, 10, -1215);
    NextPower(-1215, 11, -681);
    NextPower(-681, 12, -1590);
    NextPower(-1590, 13, -398);
    NextPower(-398, 14, -108);
  }

  lemma PowersFrom16()
    ensures IsPower(1493, 16) && IsPower(-1251, 17) && IsPower(-1293, 18) && IsPower(1322, 19)
    ensures IsPower(-829, 20) && IsPower(-777, 21) && IsPower(107, 22) && IsPower(-1510, 23)
    ensures IsPower(962, 24) && IsPower(-291, 25) && IsPower(-1618, 26) && IsPower(-874, 27)
    ensures IsPower(-1542, 28) && IsPower(418, 29) && IsPower(448, 30) && IsPower(958, 31)
  {
    hide IsPower;
    PowersFrom0();
    NextPower(-108, 15, 1493);
    NextPower(1493, 16, -1251);
    NextPower(-1251, 17, -1293);
    NextPower(-1293, 18, 1322);
    NextPower(1322, 19, -829);
    NextPower(-829, 20, -777);
    NextPower(-777, 21, 107);
    NextPower(107, 22, -1510);
    NextPower(-1510, 23, 962);
    NextPower(962, 24, -291);
    NextPower(-291, 25, -1618);
    NextPower(-1618, 26, -874);
    NextPower(-874, 27, -1542);
    NextPower(-1542, 28, 418);
    NextPower(418, 29, 448);
    NextPower(448, 30, 958);
  }

  lemma PowersFrom32()
    ensures IsPower(-359, 32) && IsPower(555, 33) && IsPower(-552, 34) && IsPower(603, 35)
    ensures IsPower(264, 36) && IsPower(1159, 37) && IsPower(-271, 38) && IsPower(-1278, 39)
    ensures IsPower(1577, 40) && IsPower(177, 41) && IsPower(-320, 42) && IsPower(1218, 43)
    ensures IsPower(732, 44) && IsPower(-872, 45) && IsPower(-1508, 46) && IsPower(996, 47)
  {
    hide IsPower;
    PowersFrom16();
    NextPower(958, 31, -359);
    NextPower(-359, 32, 555);
    NextPower(555, 33, -552);
    NextPower(-552, 34, 603);
    NextPower(603, 35, 264);
    NextPower(264, 36, 1159);
    NextPower(1159, 37, -271);
    NextPower(-271, 38, -1278);
    NextPower(-1278, 39, 1577);
    NextPower(1577, 40, 177);
    NextPower(177, 41, -320);
    NextPower(-320, 42, 1218);
    NextPower(1218, 43, 732);
    NextPower(732, 44, -872);
    NextPower(-872, 45, -1508);
    NextPower(-1508, 46, 996);
  }

  lemma PowersFrom48()
    ensures IsPower(287, 48) && IsPower(1550, 49) && IsPower(-282, 50) && IsPower(-1465, 51)
    ensures IsPower(-1602, 52) && IsPower(-602, 53) && IsPower(-247, 54) && IsPower(-870, 55)
    ensures IsPower(-1474, 56) && IsPower(1574, 57) && IsPower(126, 58) && IsPower(-1187, 59)
    ensures IsPower(-205, 60) && IsPower(-156, 61) && IsPower(677, 62) && IsPower(1522, 63)
  {
    hide IsPower;
    PowersFrom32();
    NextPower(996, 47, 287);
    NextPower(287, 48, 1550);
    NextPower(1550, 49, -282);
    NextPower(-282, 50, -1465);
    NextPower(-1465, 51, -1602);
    NextPower(-1602, 52, -602);
    NextPower(-602, 53, -247);
    NextPower(-247, 54, -870);
    NextPower(-870, 55, -1474);
    NextPower(-1474, 56, 1574);
    NextPower(1574, 57, 126);
    NextPower(126, 58, -1187);
    NextPower(-1187, 59, -205);
    NextPower(-205, 60, -156);
    NextPower(-156, 61, 677);
    NextPower(677, 62, 1522);
  }

  lemma PowersFrom64()
    ensures IsPower(-758, 64) && IsPower(430, 65) && IsPower(652, 66) && IsPower(1097, 67)
    ensures IsPower(-1325, 68) && IsPower(778, 69) && IsPower(-90, 70) && IsPower(-1530, 71)
    ensures IsPower(622, 72) && IsPower(587, 73) && IsPower(-8, 74) && IsPower(-136, 75)
    ensures IsPower(1017, 76) && IsPower(644, 77) && IsPower(961, 78) && IsPower(-308, 79)
  {
    hide IsPower;
    PowersFrom48();
    NextPower(1522, 63, -758);
    NextPower(-758, 64, 430);
    NextPower(430, 65, 652);
    NextPower(652, 66, 1097);
    NextPower(1097, 67, -1325);
    NextPower(-1325, 68, 778);
    NextPower(778, 69, -90);
    NextPower(-90, 70, -1530);
    NextPower(-1530, 71, 622);
    NextPower(622, 72, 587);
    NextPower(587, 73, -8);
    NextPower(-8, 74, -136);
    NextPower(-136, 75, 1017);
    NextPower(1017, 76, 644);
    NextPower(644, 77, 961);
    NextPower(961, 78, -308);
  }

  lemma PowersFrom80()
    ensures IsPower(1422, 80) && IsPower(871, 81) && IsPower(1491, 82) && IsPower(-1285, 83)
    ensures IsPower(1458, 84) && IsPower(1483, 85) && IsPower(-1421, 86) && IsPower(-854, 87)
    ensures IsPower(-1202, 88) && IsPower(-460, 89) && IsPower(-1162, 90) && IsPower(220, 91)
    ensures IsPower(411, 92) && IsPower(329, 93) && IsPower(-1065, 94) && IsPower(-1460, 95)
  {
    hide IsPower;
    PowersFrom64();
    NextPower(-308, 79, 1422);
    NextPower(1422, 80, 871);
    NextPower(871, 81, 1491);
    NextPower(1491, 82, -1285);
    NextPower(-1285, 83, 1458);
    NextPower(1458, 84, 1483);
    NextPower(1483, 85, -1421);
    NextPower(-1421, 86, -854);
    NextPower(-854, 87, -1202);
    NextPower(-1202, 88, -460);
    NextPower(-460, 89, -1162);
    NextPower(-1162, 90, 220);
    NextPower(220, 91, 411);
    NextPower(411, 92, 329);
    NextPower(329, 93, -1065);
    NextPower(-1065, 94, -1460);
  }

  lemma PowersFrom96()
    ensures IsPower(-1517, 96) && IsPower(843, 97) && IsPower(1015, 98) && IsPower(610, 99)
    ensures IsPower(383, 100) && IsPower(-147, 101) && IsPower(830, 102) && IsPower(794, 103)
    ensures IsPower(182, 104) && IsPower(-235, 105) && IsPower(-666, 106) && IsPower(-1335, 107)
    ensures IsPower(608, 108) && IsPower(349, 109) && IsPower(-725, 110) && IsPower(991, 111)
  {
    hide IsPower;
    PowersFrom80();
    NextPower(-1460, 95, -1517);
    NextPower(-1517, 96, 843);
    NextPower(843, 97, 1015);
    NextPower(1015, 98, 610);
    NextPower(610, 99, 383);
    NextPower(383, 100, -147);
    NextPower(-147, 101, 830);
    NextPower(830, 102, 794);
    NextPower(794, 103, 182);
    NextPower(182, 104, -235);
    NextPower(-235, 105, -666);
    NextPower(-666, 106, -1335);
    NextPower(-1335, 107, 608);
    NextPower(608, 108, 349);
    NextPower(349, 109, -725);
    NextPower(-725, 110, 991);
  }

  lemma PowersFrom112()
    ensures IsPower(202, 112) && IsPower(105, 113) && IsPower(-1544, 114) && IsPower(384, 115)
    ensures IsPower(-130, 116) && IsPower(1119, 117) && IsPower(-951, 118) && IsPower(478, 119)
    ensures IsPower(1468, 120) && IsPower(1653, 121) && IsPower(1469, 122) && IsPower(-1659, 123)
    ensures IsPower(-1571, 124) && IsPower(-75, 125) && IsPower(-1275, 126) && IsPower(1628, 127)
  {
    hide IsPower;
    PowersFrom96();
    NextPower(991, 111, 202);
    NextPower(202, 112, 105);
    NextPower(105, 113, -1544);
    NextPower(-1544, 114, 384);
    NextPower(384, 115, -130);
    NextPower(-130, 116, 1119);
    NextPower(1119, 117, -951);
    NextPower(-951, 118, 478);
    NextPower(478, 119, 1468);
    NextPower(1468, 120, 1653);
    NextPower(1653, 121, 1469);
    NextPower(1469, 122, -1659);
    NextPower(-1659, 123, -1571);
    NextPower(-1571, 124, -75);
    NextPower(-75, 125, -1275);
    NextPower(-1275, 126, 1628);
  }

  lemma FirstPower()
    ensures IsPower(-1044, 0)
  {
  }

  lemma GradedT8()
    ensures Graded(T8, 8)
  {
    hide IsPower;
    PowersFrom0();
    PowersFrom16();
    PowersFrom32();
    PowersFrom48();
    PowersFrom64();
    PowersFrom80();
    PowersFrom96();
    PowersFrom112();
  }

  lemma GradedT9()
    ensures Graded(T9, 72)
  {
    hide IsPower;
    PowersFrom0();
    PowersFrom16();
    PowersFrom32();
    PowersFrom48();
    PowersFrom64();
    PowersFrom80();
    PowersFrom96();
    PowersFrom112();
  }

  lemma GradedT10()
    ensures Graded(T10, 40)
  {
    hide IsPower;
    PowersFrom0();
    PowersFrom16();
    PowersFrom32();
    PowersFrom48();
    PowersFrom64();
    PowersFrom80();
    PowersFrom96();
    PowersFrom112();
  }

  lemma GradedT11()
    ensures Graded(T11, 104)
  {
    hide IsPower;
    PowersFrom0();
    PowersFrom16();
    PowersFrom32();
    PowersFrom48();
    PowersFrom64();
    PowersFrom80();
    PowersFrom96();
    PowersFrom112();
  }

  lemma GradedT12()
    ensures Graded(T12, 24)
  {
    hide IsPower;
    PowersFrom0();
    PowersFrom16();
    PowersFrom32();
    PowersFrom48();
    PowersFrom64();
    PowersFrom80();
    PowersFrom96();
    PowersFrom112();
  }

  lemma GradedT13()
    ensures Graded(T13, 88)
  {
    hide IsPower;
    PowersFrom0();
    PowersFrom16();
    PowersFrom32();
    PowersFrom48();
    PowersFrom64();
    PowersFrom80();
    PowersFrom96();
    PowersFrom112();
  }

  lemma GradedT14()
    ensures Graded(T14, 56)
  {
    hide IsPower;
    PowersFrom0();
    PowersFrom16();
    PowersFrom32();
    PowersFrom48();
    PowersFrom64();
    PowersFrom80();
    PowersFrom96();
    PowersFrom112();
  }

  lemma GradedT15()
    ensures Graded(T15, 120)
  {
    hide IsPower;
    PowersFrom0();
    PowersFrom16();
    PowersFrom32();
    PowersFrom48();
    PowersFrom64();
    PowersFrom80();
    PowersFrom96();
    PowersFrom112();
  }

  lemma TableGraded()
    ensures Graded(TABLE, 64)
  {
    hide IsPower;
    PowersFrom0();
    PowersFrom16();
    PowersFrom32();
    PowersFrom48();
    PowersFrom64();
    PowersFrom80();
    PowersFrom96();
    PowersFrom112();
    GradedT8();
    GradedT9();
    GradedT10();
    GradedT11();
    GradedT12();
    GradedT13();
    GradedT14();
    GradedT15();
    assert Graded(TABLE.left.left, 16);
    assert Graded(TABLE.left.right, 80);
    assert Graded(TABLE.right.left, 48);
    assert Graded(TABLE.right.right, 112);
    assert Graded(TABLE.left, 32);
    assert Graded(TABLE.right, 96);
  }

  // ---------- Reversing bits ----------

  /** A clear top bit is a factor of two. */
  lemma {:induction false} RevClearTop(k: nat, bits: nat)
    requires k < Pow2(bits)
    ensures BitRev(k, bits + 1) == 2 * BitRev(k, bits)
    decreases bits
  {
    if bits > 0 {
      RevClearTop(k / 2, bits - 1);
      TwiceProduct(k % 2, Pow2(bits - 1));
    } else {
      assert BitRev(0, 0) == 0;
    }
  }

  lemma TwiceProduct(b: nat, p: nat)
    ensures b * (2 * p) == 2 * (b * p)
  {
  }

  /** A set top bit becomes the lowest. */
  lemma {:induction false} RevSetTop(k: nat, bits: nat)
    requires k < Pow2(bits)
    ensures BitRev(Pow2(bits) + k, bits + 1) == BitRev(k, bits + 1) + 1
    decreases bits
  {
    if bits == 0 {
      assert BitRev(1, 1) == 1 * Pow2(0) + BitRev(0, 0);
      assert BitRev(0, 1) == 0 * Pow2(0) + BitRev(0, 0);
    } else {
      var p := Pow2(bits - 1);
      assert (Pow2(bits) + k) / 2 == p + k / 2 && (Pow2(bits) + k) % 2 == k % 2;
      RevSetTop(k / 2, bits - 1);
    }
  }

  /** The children of node k have half its exponent, and 64 more. */
  lemma RevChildren(k: nat)
    requires k < 64
    ensures BitRev(2 * k, 7) == BitRev(k, 7) / 2 && BitRev(2 * k + 1, 7) == 64 + BitRev(k, 7) / 2
  {
    Pow2Values();
    RevClearTop(k, 6);
    assert 2 * k / 2 == k && (2 * k + 1) / 2 == k;
  }

  lemma {:induction false} SubGraded(k: nat, l: nat)
    requires 1 <= l <= 7 && Pow2(l - 1) <= k < Pow2(l)
    ensures Graded(Sub(k), BitRev(k, 7))
    decreases l
  {
    hide IsPower, BitRev, Squares, Small;
    Pow2Values();
    if l == 1 {
      FirstRev();
      TableGraded();
    } else {
      SubGraded(k / 2, l - 1);
      SubChecks(k / 2, l - 1);
      RevChildren(k / 2);
      assert k == 2 * (k / 2) || k == 2 * (k / 2) + 1;
    }
  }

  lemma FirstRev()
    ensures BitRev(1, 7) == 64
  {
    Pow2Values();
    assert BitRev(0, 6) == 0 by { RevNone(6); }
    assert BitRev(1, 7) == 1 * Pow2(6) + BitRev(0, 6);
  }

  lemma {:induction false} RevNone(bits: nat)
    ensures BitRev(0, bits) == 0
  {
    if bits > 0 {
      RevNone(bits - 1);
    }
  }

  /** Every root of the table is the power of 17 that its index says. */
  lemma RootPower(k: nat, l: nat)
    requires 1 <= l <= 7 && Pow2(l - 1) <= k < Pow2(l)
    ensures Cong(Root(k), Power(17, BitRev(k, 7)))
  {
    hide Cong, BitRev, Sub;
    SubGraded(k, l);
  }
}
