/**
  The table of twiddle factors (zetas.inc) and the three facts the transforms rest
  on. Index k of the table has the two next-layer factors at 2k and 2k + 1, so the
  table is written as the binary tree it is: the entry at k is reached from the
  root (k = 1) along the bits of k. Entries are in Montgomery form, 2^16 times the root.
*/
module Zetas {
  import opened ModQ
  import opened Powers

  datatype Tree = Tip(z: int) | Fork(z: int, left: Tree, right: Tree)

  const T8 := Fork(-171,
      Fork(573,
        Fork(1223, Tip(-1103), Tip(430)),
        Fork(652, Tip(555), Tip(843))),
      Fork(-1325,
        Fork(-552, Tip(-1251), Tip(871)),
        Fork(1015, Tip(1550), Tip(105))))
  const T9 := Fork(622,
      Fork(264,
        Fork(-1293, Tip(422), Tip(587)),
        Fork(1491, Tip(177), Tip(-235))),
      Fork(383,
        Fork(-282, Tip(-291), Tip(-460)),
        Fork(-1544, Tip(1574), Tip(1653))))
  const T10 := Fork(1577,
      Fork(-829,
        Fork(516, Tip(-246), Tip(778)),
        Fork(-8, Tip(1159), Tip(-147))),
      Fork(1458,
        Fork(-320, Tip(-777), Tip(1483)),
        Fork(-666, Tip(-602), Tip(1119))))
  const T11 := Fork(182,
      Fork(-1602,
        Fork(-1618, Tip(-1590), Tip(644)),
        Fork(-1162, Tip(-872), Tip(349))),
      Fork(-130,
        Fork(126, Tip(418), Tip(329)),
        Fork(1469, Tip(-156), Tip(-75))))
  const T12 := Fork(962,
      Fork(-681,
        Fork(-853, Tip(817), Tip(1097)),
        Fork(-90, Tip(603), Tip(610))),
      Fork(1017,
        Fork(-271, Tip(1322), Tip(-1285)),
        Fork(830, Tip(-1465), Tip(384))))
  const T13 := Fork(-1202,
      Fork(732,
        Fork(107, Tip(-1215), Tip(-136)),
        Fork(-1421, Tip(1218), Tip(-1335))),
      Fork(608,
        Fork(-247, Tip(-874), Tip(220)),
        Fork(-951, Tip(-1187), Tip(-1659))))
  const T14 := Fork(-1474,
      Fork(-1542,
        Fork(-398, Tip(-1185), Tip(-1530)),
        Fork(961, Tip(-1278), Tip(794))),
      Fork(411,
        Fork(-1508, Tip(-1510), Tip(-854)),
        Fork(-725, Tip(-870), Tip(478))))
  const T15 := Fork(1468,
      Fork(-205,
        Fork(448, Tip(-108), Tip(-308)),
        Fork(-1065, Tip(996), Tip(991))),
      Fork(-1571,
        Fork(677, Tip(958), Tip(-1460)),
        Fork(-1275, Tip(1522), Tip(1628))))

  const TABLE :=
    Fork(-758,
      Fork(-359, Fork(1493, T8, T9), Fork(1422, T10, T11)),
      Fork(-1517, Fork(287, T12, T13), Fork(202, T14, T15)))

  /** The subtree at index k; below the tips there is nothing new. */
  function Sub(k: nat): Tree
    requires 1 <= k
  {
    if k == 1 then TABLE
    else
      var t := Sub(k / 2);
      if t.Tip? then t else if k % 2 == 0 then t.left else t.right
  }

  /** mlk_zetas[k]. */
  function Zeta(k: nat): int
    requires 1 <= k
  {
    Sub(k).z
  }

  /** The root itself: 169 is the inverse of 2^16 modulo q. */
  function Root(k: nat): int
    requires 1 <= k
  {
    Zeta(k) * 169
  }

  // ---------- Checks on the table ----------

  /** child^2 == parent, as roots. */
  predicate SquareOf(child: int, parent: int) { (child * child * 169 - parent) % Q == 0 }

  predicate Squares(t: Tree) {
    t.Tip? || (SquareOf(t.left.z, t.z) && SquareOf(t.right.z, -t.z) && Squares(t.left) && Squares(t.right))
  }

  /** x y == -1, as roots. */
  predicate MinusOne(x: int, y: int) { (x * y * 28561 + 1) % Q == 0 }

  /** Left-right mirror images multiply to -1, as roots. */
  predicate Mirrored(t: Tree, u: Tree) {
    && MinusOne(t.z, u.z)
    && (t.Tip? <==> u.Tip?)
    && (t.Fork? && u.Fork? ==> Mirrored(t.left, u.right) && Mirrored(t.right, u.left))
  }

  predicate Small(t: Tree) {
    -Q_HALF < t.z < Q_HALF && (t.Tip? || (Small(t.left) && Small(t.right)))
  }

  predicate Full(t: Tree, h: nat) {
    if h <= 1 then t.Tip? else t.Fork? && Full(t.left, h - 1) && Full(t.right, h - 1)
  }

  lemma CheckT8()
    ensures Squares(T8) && Small(T8) && Full(T8, 4)
  {
  }

  lemma CheckT9()
    ensures Squares(T9) && Small(T9) && Full(T9, 4)
  {
  }

  lemma CheckT10()
    ensures Squares(T10) && Small(T10) && Full(T10, 4)
  {
  }

  lemma CheckT11()
    ensures Squares(T11) && Small(T11) && Full(T11, 4)
  {
  }

  lemma CheckT12()
    ensures Squares(T12) && Small(T12) && Full(T12, 4)
  {
  }

  lemma CheckT13()
    ensures Squares(T13) && Small(T13) && Full(T13, 4)
  {
  }

  lemma CheckT14()
    ensures Squares(T14) && Small(T14) && Full(T14, 4)
  {
  }

  lemma CheckT15()
    ensures Squares(T15) && Small(T15) && Full(T15, 4)
  {
  }

  lemma NodesT8()
    ensures MinusOne(-171, 1468) && MinusOne(573, -1571) && MinusOne(1223, -1275)
    ensures MinusOne(-1103, 1628) && MinusOne(430, 1522) && MinusOne(652, 677)
    ensures MinusOne(555, -1460) && MinusOne(843, 958) && MinusOne(-1325, -205)
    ensures MinusOne(-552, -1065) && MinusOne(-1251, 991) && MinusOne(871, 996)
    ensures MinusOne(1015, 448) && MinusOne(1550, -308) && MinusOne(105, -108)
  {
  }

  lemma MirrorT8()
    ensures Mirrored(T8, T15) && Mirrored(T15, T8)
  {
    hide MinusOne;
    NodesT8();
    MirroredSym(T8, T15);
  }

  lemma NodesT9()
    ensures MinusOne(622, -1474) && MinusOne(264, 411) && MinusOne(-1293, -725)
    ensures MinusOne(422, 478) && MinusOne(587, -870) && MinusOne(1491, -1508)
    ensures MinusOne(177, -854) && MinusOne(-235, -1510) && MinusOne(383, -1542)
    ensures MinusOne(-282, 961) && MinusOne(-291, 794) && MinusOne(-460, -1278)
    ensures MinusOne(-1544, -398) && MinusOne(1574, -1530) && MinusOne(1653, -1185)
  {
  }

  lemma MirrorT9()
    ensures Mirrored(T9, T14) && Mirrored(T14, T9)
  {
    hide MinusOne;
    NodesT9();
    MirroredSym(T9, T14);
  }

  lemma NodesT10()
    ensures MinusOne(1577, -1202) && MinusOne(-829, 608) && MinusOne(516, -951)
    ensures MinusOne(-246, -1659) && MinusOne(778, -1187) && MinusOne(-8, -247)
    ensures MinusOne(1159, 220) && MinusOne(-147, -874) && MinusOne(1458, 732)
    ensures MinusOne(-320, -1421) && MinusOne(-777, -1335) && MinusOne(1483, 1218)
    ensures MinusOne(-666, 107) && MinusOne(-602, -136) && MinusOne(1119, -1215)
  {
  }

  lemma MirrorT10()
    ensures Mirrored(T10, T13) && Mirrored(T13, T10)
  {
    hide MinusOne;
    NodesT10();
    MirroredSym(T10, T13);
  }

  lemma NodesT11()
    ensures MinusOne(182, 962) && MinusOne(-1602, 1017) && MinusOne(-1618, 830)
    ensures MinusOne(-1590, 384) && MinusOne(644, -1465) && MinusOne(-1162, -271)
    ensures MinusOne(-872, -1285) && MinusOne(349, 1322) && MinusOne(-130, -681)
    ensures MinusOne(126, -90) && MinusOne(418, 610) && MinusOne(329, 603)
    ensures MinusOne(1469, -853) && MinusOne(-156, 1097) && MinusOne(-75, 817)
  {
  }

  lemma MirrorT11()
    ensures Mirrored(T11, T12) && Mirrored(T12, T11)
  {
    hide MinusOne;
    NodesT11();
    MirroredSym(T11, T12);
  }

  lemma {:induction false} MirroredSym(t: Tree, u: Tree)
    requires Mirrored(t, u)
    ensures Mirrored(u, t)
  {
    hide MinusOne;
    Swap(t.z, u.z);
    if t.Fork? {
      MirroredSym(t.left, u.right);
      MirroredSym(t.right, u.left);
    }
  }

  lemma Swap(x: int, y: int)
    requires MinusOne(x, y)
    ensures MinusOne(y, x)
  {
    assert x * y == y * x;
  }

  lemma SquaresFork(z: int, l: Tree, r: Tree)
    requires SquareOf(l.z, z) && SquareOf(r.z, -z) && Squares(l) && Squares(r)
    ensures Squares(Fork(z, l, r))
  {
  }

  lemma TableSquares()
    ensures Squares(TABLE)
  {
    hide Small, Full, Squares;
    CheckT8(); CheckT9(); CheckT10(); CheckT11(); CheckT12(); CheckT13(); CheckT14(); CheckT15();
    SquaresFork(TABLE.left.left.z, T8, T9);
    SquaresFork(TABLE.left.right.z, T10, T11);
    SquaresFork(TABLE.right.left.z, T12, T13);
    SquaresFork(TABLE.right.right.z, T14, T15);
    SquaresFork(TABLE.left.z, TABLE.left.left, TABLE.left.right);
    SquaresFork(TABLE.right.z, TABLE.right.left, TABLE.right.right);
    SquaresFork(TABLE.z, TABLE.left, TABLE.right);
  }

  lemma TableSmall()
    ensures Small(TABLE) && Full(TABLE, 7)
  {
    hide Squares;
    CheckT8(); CheckT9(); CheckT10(); CheckT11(); CheckT12(); CheckT13(); CheckT14(); CheckT15();
    assert Small(TABLE.left.left) && Small(TABLE.left.right) && Small(TABLE.right.left) && Small(TABLE.right.right);
    assert Full(TABLE.left.left, 5) && Full(TABLE.left.right, 5) && Full(TABLE.right.left, 5)
           && Full(TABLE.right.right, 5);
  }

  lemma TableMirrored()
    ensures Mirrored(TABLE, TABLE)
  {
    MirrorT8(); MirrorT9(); MirrorT10(); MirrorT11();
    assert Mirrored(TABLE.left.left, TABLE.right.right);
    assert Mirrored(TABLE.left.right, TABLE.right.left);
    assert Mirrored(TABLE.right.left, TABLE.left.right);
    assert Mirrored(TABLE.right.right, TABLE.left.left);
    assert Mirrored(TABLE.left, TABLE.right) && Mirrored(TABLE.right, TABLE.left);
  }

  // ---------- Facts for every index ----------

  lemma {:induction false} SubChecks(k: nat, l: nat)
    requires 1 <= l <= 7 && Pow2(l - 1) <= k < Pow2(l)
    ensures Squares(Sub(k)) && Small(Sub(k)) && Full(Sub(k), 8 - l)
    decreases l
  {
    hide Mirrored;
    if l == 1 {
      TableSquares();
      TableSmall();
    } else {
      SubChecks(k / 2, l - 1);
    }
  }

  /** The table stays within the signed canonical range. */
  lemma ZetaSmall(k: nat, l: nat)
    requires 1 <= l <= 7 && Pow2(l - 1) <= k < Pow2(l)
    ensures -Q_HALF < Zeta(k) < Q_HALF
  {
    hide Sub, Squares, Full;
    SubChecks(k, l);
  }

  /** The two factors below k are the square roots of its root and of minus its root. */
  lemma RootSquares(k: nat, l: nat)
    requires 1 <= l <= 6 && Pow2(l - 1) <= k < Pow2(l)
    ensures Cong(Root(2 * k) * Root(2 * k), Root(k))
    ensures Cong(Root(2 * k + 1) * Root(2 * k + 1), -Root(k))
  {
    SubChecks(k, l);
    var t := Sub(k);
    assert (2 * k) / 2 == k && (2 * k + 1) / 2 == k;
    assert Sub(2 * k) == t.left && Sub(2 * k + 1) == t.right;
    ScaleSquare(t.left.z, t.z);
    ScaleSquare(t.right.z, -t.z);
  }

  lemma ScaleSquare(c: int, p: int)
    requires SquareOf(c, p)
    ensures Cong((c * 169) * (c * 169), p * 169)
  {
    var w := (c * c * 169 - p) / Q;
    assert c * c * 169 - p == Q * w;
    assert (c * 169) * (c * 169) - p * 169 == Q * (w * 169);
    CongIntro((c * 169) * (c * 169), p * 169, w * 169);
  }

  /** The first factor is a square root of -1. */
  lemma RootOfMinusOne()
    ensures Cong(Root(1) * Root(1), -1)
  {
    assert Root(1) == TABLE.z * 169;
  }

  lemma SubRoot()
    ensures Sub(1) == TABLE && Mirrored(Sub(1), Sub(1))
  {
    TableMirrored();
  }

  lemma SubMirroredChildren(k: nat, k': nat)
    requires 2 <= k && 2 <= k' && k % 2 != k' % 2
    requires Sub(k / 2).Fork? && Sub(k' / 2).Fork? && Mirrored(Sub(k / 2), Sub(k' / 2))
    ensures Mirrored(Sub(k), Sub(k'))
  {
  }

  lemma {:induction false} SubMirrored(l: nat, k: nat)
    requires 1 <= l <= 7 && Pow2(l - 1) <= k < Pow2(l)
    ensures Pow2(l - 1) <= 3 * Pow2(l - 1) - 1 - k < Pow2(l)
    ensures Mirrored(Sub(k), Sub(3 * Pow2(l - 1) - 1 - k))
    decreases l
  {
    hide Squares, Small, Mirrored, Sub;
    var k' := 3 * Pow2(l - 1) - 1 - k;
    if l == 1 {
      assert Pow2(0) == 1;
      SubRoot();
    } else {
      var p := Pow2(l - 2);
      assert Pow2(l - 1) == 2 * p && Pow2(l) == 4 * p;
      SubMirrored(l - 1, k / 2);
      assert k' / 2 == 3 * p - 1 - k / 2;
      SubChecks(k / 2, l - 1);
      SubChecks(k' / 2, l - 1);
      SubMirroredChildren(k, k');
    }
  }

  /** Mirror images in one layer of the table multiply to -1. */
  lemma RootMirror(l: nat, k: nat)
    requires 1 <= l <= 7 && Pow2(l - 1) <= k < Pow2(l)
    ensures Pow2(l - 1) <= 3 * Pow2(l - 1) - 1 - k < Pow2(l)
    ensures Cong(Root(k) * Root(3 * Pow2(l - 1) - 1 - k), -1)
  {
    hide Sub, Squares, Small;
    SubMirrored(l, k);
    var a, b := Zeta(k), Zeta(3 * Pow2(l - 1) - 1 - k);
    assert (a * 169) * (b * 169) == a * b * 28561;
  }
}
