/**
  The transform as FIPS 203 states it (section 4.3): coefficients 2i and 2i + 1 of the
  transform of p are the remainder of p modulo X^2 - 17^(2 BitRev(i) + 1).
*/
module NttRemainders {
  import opened ModQ
  import opened Powers
  import opened Ring
  import opened Zetas
  import opened ZetaPowers
  import opened NttSpec

  // ---------- Division by X^2 - z ----------

  /** The remainder of p modulo X^2 - z. */
  function Rem(p: Poly, z: int): (r: Poly)
    requires |p| % 2 == 0
    ensures |r| == 2
  {
    if p == [] then [0, 0]
    else
      var r := Rem(p[2..], z);
      [p[0] + z * r[0], p[1] + z * r[1]]
  }

  function Quot(p: Poly, z: int): (q: Poly)
    requires |p| % 2 == 0
    ensures |q| == if p == [] then 0 else |p| - 2
  {
    if |p| <= 2 then [] else Rem(p[2..], z) + Quot(p[2..], z)
  }

  /** Coefficient j of p is that of Rem + (X^2 - z) Quot. */
  lemma {:induction false} Division(p: Poly, z: int, j: nat)
    requires |p| % 2 == 0 && j < |p|
    ensures var q := Quot(p, z);
            p[j] == (if j < 2 then Rem(p, z)[j] else q[j - 2]) - z * (if j < |q| then q[j] else 0)
    decreases |p|
  {
    if j >= 2 {
      Division(p[2..], z, j - 2);
    } else if |p| == 2 {
      assert p[2..] == [];
    }
  }

  lemma {:induction false} PowerSum(b: int, m: nat, n: nat)
    ensures Power(b, m + n) == Power(b, m) * Power(b, n)
    decreases m
  {
    if m > 0 {
      PowerSum(b, m - 1, n);
      Regroup(b, Power(b, m - 1), Power(b, n));
    }
  }

  lemma Regroup(x: int, y: int, z: int)
    ensures x * (y * z) == x * y * z
  {
  }

  lemma Distribute(x: int, z: int, y: int, w: int)
    ensures x + z * (y + w) == x + z * y + z * w
  {
  }

  lemma {:induction false} RemConcat(a: Poly, b: Poly, z: int, t: nat)
    requires |a| % 2 == 0 && |b| % 2 == 0 && t < 2
    ensures Rem(a + b, z)[t] == Rem(a, z)[t] + Power(z, |a| / 2) * Rem(b, z)[t]
    decreases |a|
  {
    if a == [] {
      assert a + b == b;
    } else {
      var rest := a[2..];
      assert (a + b)[2..] == rest + b;
      RemConcat(rest, b, z, t);
      var u, v := Rem(rest, z)[t], Rem(b, z)[t];
      assert |rest| / 2 == |a| / 2 - 1;
      Distribute(a[t], z, u, Power(z, |rest| / 2) * v);
      Regroup(z, Power(z, |rest| / 2), v);
    }
  }

  lemma {:induction false} RemLinear(a: Poly, b: Poly, s: Poly, y: int, z: int, t: nat)
    requires |a| == |b| == |s| && |a| % 2 == 0 && t < 2
    requires forall i :: 0 <= i < |a| ==> s[i] == a[i] + y * b[i]
    ensures Rem(s, z)[t] == Rem(a, z)[t] + y * Rem(b, z)[t]
    decreases |a|
  {
    if a != [] {
      RemLinear(a[2..], b[2..], s[2..], y, z, t);
      LinearStep(a[t], b[t], y, z, Rem(a[2..], z)[t], Rem(b[2..], z)[t]);
    }
  }

  lemma LinearStep(a: int, b: int, y: int, z: int, u: int, v: int)
    ensures (a + y * b) + z * (u + y * v) == (a + z * u) + y * (b + z * v)
  {
    Regroup(z, y, v);
    Regroup(y, z, v);
    assert z * y == y * z;
  }

  /** b is a modulo X^2m - y. */
  ghost predicate Folded(b: Poly, a: Poly, y: int, m: nat) {
    |a| == 4 * m && |b| == 2 * m && forall i :: 0 <= i < 2 * m ==> b[i] == a[i] + y * a[i + 2 * m]
  }

  lemma FoldIsFolded(a: Poly, y: int, m: nat)
    requires |a| == 4 * m
    ensures |a| % 2 == 0 && Folded(Fold(a, y), a, y, m)
  {
  }

  lemma FoldedHalves(b: Poly, a: Poly, y: int, m: nat, lo: Poly, hi: Poly)
    requires Folded(b, a, y, m) && lo == a[..2 * m] && hi == a[2 * m..]
    ensures lo + hi == a && |lo| == |hi| == |b| == 2 * m
    ensures forall i :: 0 <= i < |lo| ==> b[i] == lo[i] + y * hi[i]
  {
  }

  lemma ReplaceFactor(u: int, v: int, p: int, y: int)
    requires Cong(p, y)
    ensures Cong(u + y * v, u + p * v)
  {
    hide Cong;
    CongIntro(u, u, 0);
    CongIntro(v, v, 0);
    CongSym(p, y);
    CongMul(y, p, v, v);
    CongAdd(u, u, y * v, p * v);
  }

  lemma EvenHalf(p: Poly, m: nat)
    requires |p| == 2 * m
    ensures |p| % 2 == 0 && |p| / 2 == m
  {
  }

  /** Folding modulo X^2m - y does not change the remainder when X^2m is y modulo X^2 - z. */
  lemma RemFold(a: Poly, b: Poly, y: int, z: int, t: nat, m: nat, p: int)
    requires Folded(b, a, y, m) && t < 2 && p == Power(z, m) && Cong(p, y) && |a| % 2 == |b| % 2 == 0
    requires |a| == 4 * m && |b| == 2 * m
    ensures Cong(Rem(b, z)[t], Rem(a, z)[t])
  {
    hide Cong, Power, Rem, Folded;
    var lo, hi := a[..2 * m], a[2 * m..];
    FoldedHalves(b, a, y, m, lo, hi);
    EvenHalf(lo, m);
    EvenHalf(hi, m);
    RemConcat(lo, hi, z, t);
    RemLinear(lo, hi, b, y, z, t);
    ReplaceFactor(Rem(lo, z)[t], Rem(hi, z)[t], p, y);
  }

  lemma {:induction false} RemCong(a: Poly, z: int, z': int, t: nat)
    requires |a| % 2 == 0 && t < 2 && Cong(z, z')
    ensures Cong(Rem(a, z)[t], Rem(a, z')[t])
    decreases |a|
  {
    hide Cong;
    if a == [] {
      CongIntro(0, 0, 0);
    } else {
      var u, v := Rem(a[2..], z)[t], Rem(a[2..], z')[t];
      RemCong(a[2..], z, z', t);
      CongMul(z, z', u, v);
      CongIntro(a[t], a[t], 0);
      CongAdd(a[t], a[t], z * u, z' * v);
    }
  }

  // ---------- The leaves of the transform ----------

  /** mlk_zetas[64 + i/2], with the sign of its factor X^2 - z or X^2 + z, as a root. */
  function PairRoot(i: nat): int {
    if i % 2 == 0 then Root(64 + i / 2) else -Root(64 + i / 2)
  }

  function LeafRoot(c: int, k: nat, h: nat, i: nat): int
    requires 1 <= k && i < Pow2(h)
    decreases h
  {
    if h == 0 then c
    else if i < Pow2(h - 1) then LeafRoot(Root(k), 2 * k, h - 1, i)
    else LeafRoot(-Root(k), 2 * k + 1, h - 1, i - Pow2(h - 1))
  }

  /** The index of the leftmost node of height 1 below node k of height h. */
  function First(k: nat, h: nat): nat
    requires 1 <= h
    decreases h
  {
    if h == 1 then k else First(2 * k, h - 1)
  }

  lemma {:induction false} FirstNext(k: nat, h: nat)
    requires 1 <= h
    ensures First(k + 1, h) == First(k, h) + Pow2(h - 1)
    decreases h
  {
    if h > 1 {
      FirstNext(2 * k, h - 1);
      FirstNext(2 * k + 1, h - 1);
    }
  }

  lemma {:induction false} LeafRootIndex(c: int, k: nat, h: nat, i: nat)
    requires 1 <= k && 1 <= h && i < Pow2(h)
    ensures var j := First(k, h) + i / 2;
            1 <= j && LeafRoot(c, k, h, i) == if i % 2 == 0 then Root(j) else -Root(j)
    decreases h
  {
    hide Root, LeafRoot, First, Pow2;
    LeafBelow(c, k, h, i);
    Pow2Step(h);
    Pow2Values();
    if h == 1 {
      LastLeaves(k, i);
    } else {
      Pow2Step(h - 1);
      FirstBelow(k, h);
      if i < Pow2(h - 1) {
        LeafRootIndex(Root(k), 2 * k, h - 1, i);
      } else {
        LeafRootIndex(-Root(k), 2 * k + 1, h - 1, i - Pow2(h - 1));
        FirstNext(2 * k, h - 1);
      }
    }
  }

  lemma LeafBelow(c: int, k: nat, h: nat, i: nat)
    requires 1 <= k && 1 <= h && i < Pow2(h)
    ensures LeafRoot(c, k, h, i)
            == if i < Pow2(h - 1) then LeafRoot(Root(k), 2 * k, h - 1, i)
               else LeafRoot(-Root(k), 2 * k + 1, h - 1, i - Pow2(h - 1))
  {
    hide Root;
  }

  lemma FirstBelow(k: nat, h: nat)
    requires 2 <= h
    ensures First(k, h) == First(2 * k, h - 1)
  {
  }

  lemma LastLeaves(k: nat, i: nat)
    requires 1 <= k && i < 2
    ensures LeafRoot(Root(k), 2 * k, 0, 0) == Root(k) && LeafRoot(-Root(k), 2 * k + 1, 0, 0) == -Root(k)
    ensures First(k, 1) == k && Pow2(0) == 1 && Pow2(1) == 2
  {
    hide Root;
  }

  lemma SquareCong(p: int, z: int, c: int)
    requires Cong(p, z) && Cong(z * z, c)
    ensures Cong(p * p, c)
  {
    hide Cong;
    CongMul(p, z, p, z);
    CongTrans(p * p, z * z, c);
  }

  /** X^(2^h) is c modulo X^2 - w for every leaf root w below a node of X^(2^(h+1)) - c. */
  lemma {:induction false} LeafPower(c: int, k: nat, h: nat, i: nat)
    requires 1 <= k && i < Pow2(h) && RootsOf(c, k, h)
    ensures Cong(Power(LeafRoot(c, k, h, i), Pow2(h)), c)
    decreases h
  {
    hide Root, Cong, Power, LeafRoot, Pow2, RootsOf;
    var w := LeafRoot(c, k, h, i);
    if h == 0 {
      LeafZero(c, k);
      PowerOne(c);
      CongIntro(c, c, 0);
    } else {
      var z := Root(k);
      var m := Pow2(h - 1);
      Pow2Step(h);
      LeafBelow(c, k, h, i);
      RootsBelow(c, k, h);
      if i < m {
        LeafPower(z, 2 * k, h - 1, i);
        SquareCong(Power(w, m), z, c);
      } else {
        LeafPower(-z, 2 * k + 1, h - 1, i - m);
        assert -z * -z == z * z;
        SquareCong(Power(w, m), -z, c);
      }
      PowerSum(w, m, m);
    }
  }

  lemma PowerOne(b: int)
    ensures Power(b, 1) == b
  {
    assert Power(b, 0) == 1;
  }

  lemma RemTwo(a: Poly, z: int)
    requires |a| == 2
    ensures Rem(a, z) == a
  {
    assert a[2..] == [];
  }

  lemma LeafStep(a: Poly, b: Poly, y: int, z: int, t: nat, m: nat, p: int, x: int)
    requires Folded(b, a, y, m) && t < 2 && p == Power(z, m) && Cong(p, y) && |a| % 2 == |b| % 2 == 0
    requires |a| == 4 * m && |b| == 2 * m && Cong(x, Rem(b, z)[t])
    ensures Cong(x, Rem(a, z)[t])
  {
    hide Cong, Power, Rem, Folded;
    RemFold(a, b, y, z, t, m, p);
    CongTrans(x, Rem(b, z)[t], Rem(a, z)[t]);
  }

  /** A leaf of the transform holds the remainder modulo X^2 minus its root. */
  lemma {:induction false} NttLeaf(a: Poly, c: int, k: nat, h: nat, i: nat, t: nat)
    requires 1 <= k && |a| == Pow2(h + 1) && i < Pow2(h) && RootsOf(c, k, h) && t < 2
    ensures Cong(Ntt(a, k, h)[2 * i + t], Rem(a, LeafRoot(c, k, h, i))[t])
    decreases h
  {
    hide Root, Cong, Power, Rem, Fold, Ntt, RootsOf, LeafRoot, Pow2, Folded;
    var w := LeafRoot(c, k, h, i);
    if h == 0 {
      LeafZero(c, k);
      NttTwo(a, k);
      RemTwo(a, w);
      CongIntro(a[t], a[t], 0);
    } else {
      var n, m, z := Pow2(h), Pow2(h - 1), Root(k);
      Pow2Step(h);
      LeafBelow(c, k, h, i);
      RootsBelow(c, k, h);
      NttUnfold(a, k, h, n);
      var x := Ntt(a, k, h);
      PairOfHalf(x, Ntt(Fold(a, z), 2 * k, h - 1), Ntt(Fold(a, -z), 2 * k + 1, h - 1), i, t, m);
      if i < m {
        NttLeaf(Fold(a, z), z, 2 * k, h - 1, i, t);
        LeafPower(z, 2 * k, h - 1, i);
        FoldIsFolded(a, z, m);
        LeafStep(a, Fold(a, z), z, w, t, m, Power(w, m), x[2 * i + t]);
      } else {
        NttLeaf(Fold(a, -z), -z, 2 * k + 1, h - 1, i - m, t);
        LeafPower(-z, 2 * k + 1, h - 1, i - m);
        FoldIsFolded(a, -z, m);
        LeafStep(a, Fold(a, -z), -z, w, t, m, Power(w, m), x[2 * i + t]);
      }
    }
  }

  /** A pair of the transform is a pair of one of the two halves. */
  lemma PairOfHalf(x: Poly, left: Poly, right: Poly, i: nat, t: nat, m: nat)
    requires |left| == |right| == 2 * m && |x| == 4 * m && x[..2 * m] == left && x[2 * m..] == right
    requires i < 2 * m && t < 2
    ensures x[2 * i + t] == if i < m then left[2 * i + t] else right[2 * (i - m) + t]
  {
    if i >= m {
      assert x[2 * i + t] == x[2 * m..][2 * (i - m) + t];
    }
  }

  lemma LeafZero(c: int, k: nat)
    requires 1 <= k
    ensures Pow2(0) == 1 && Pow2(1) == 2 && LeafRoot(c, k, 0, 0) == c
  {
  }

  lemma NttTwo(a: Poly, k: nat)
    requires 1 <= k && |a| == 2
    ensures Ntt(a, k, 0) == a
  {
  }

  lemma RootsBelow(c: int, k: nat, h: nat)
    requires 1 <= k && 1 <= h && RootsOf(c, k, h)
    ensures Cong(Root(k) * Root(k), c)
    ensures RootsOf(Root(k), 2 * k, h - 1) && RootsOf(-Root(k), 2 * k + 1, h - 1)
  {
    hide Root, Cong;
  }

  // ---------- In terms of 17 ----------

  lemma HalfTurn()
    ensures Cong(Power(17, 128), -1)
  {
    hide Cong, Power, Root;
    Pow2Values();
    RootPower(1, 1);
    FirstRev();
    RootOfMinusOne();
    CongMul(Root(1), Power(17, 64), Root(1), Power(17, 64));
    PowerSum(17, 64, 64);
    CongSym(Root(1) * Root(1), Power(17, 128));
    CongTrans(Power(17, 128), Root(1) * Root(1), -1);
  }

  /** The root of pair i is 17^(2 BitRev(i) + 1). */
  lemma PairPower(i: nat)
    requires i < 128
    ensures Cong(PairRoot(i), Power(17, 2 * BitRev(i, 7) + 1))
  {
    hide Cong, Power, Root, BitRev;
    var m := i / 2;
    Pow2Values();
    RootPower(64 + m, 7);
    RevSetTop(m, 6);
    RevClearTop(m, 6);
    RevStep(i, 7);
    var e := 2 * BitRev(m, 6) + 1;
    if i % 2 == 1 {
      HalfTurn();
      PowerSum(17, e, 128);
      CongMul(Root(64 + m), Power(17, e), -1, Power(17, 128)) by {
        CongSym(Power(17, 128), -1);
      }
    }
  }

  lemma RevStep(i: nat, bits: nat)
    requires 1 <= bits
    ensures BitRev(i, bits) == (i % 2) * Pow2(bits - 1) + BitRev(i / 2, bits - 1)
  {
  }

  /** Coefficients 2i and 2i + 1 of r are, modulo q, the remainder of p modulo X^2 - 17^(2 BitRev(i) + 1). */
  ghost predicate RemainderAt(r: Poly, p: Poly, i: nat)
    requires |r| == |p| == 256 && i < 128
  {
    var w := Rem(p, Power(17, 2 * BitRev(i, 7) + 1));
    Cong(r[2 * i], w[0]) && Cong(r[2 * i + 1], w[1])
  }

  lemma HatCoefficient(p: Poly, i: nat, t: nat)
    requires |p| == 256 && i < 128 && t < 2
    ensures Cong(Hat(p)[2 * i + t], Rem(p, Power(17, 2 * BitRev(i, 7) + 1))[t])
  {
    hide Cong, Power, Root, BitRev, Rem, Ntt, RootsOf, LeafRoot;
    Pow2Values();
    RootOfMinusOne();
    TableRoots(-1, 1, 1);
    NttLeaf(p, -1, 1, 7, i, t);
    LeafRootIndex(-1, 1, 7, i);
    assert First(4, 5) == First(8, 4) == 64;
    PairPower(i);
    RemCong(p, PairRoot(i), Power(17, 2 * BitRev(i, 7) + 1), t);
    CongTrans(Hat(p)[2 * i + t], Rem(p, PairRoot(i))[t], Rem(p, Power(17, 2 * BitRev(i, 7) + 1))[t]);
  }

  /** Whatever is congruent to the transform holds all the remainders. */
  lemma HatRemainders(r: Poly, p: Poly)
    requires |r| == |p| == 256 && CongSeq(r, Hat(p))
    ensures forall i :: 0 <= i < 128 ==> RemainderAt(r, p, i)
  {
    hide Cong, Power, BitRev, Rem, Hat;
    forall i | 0 <= i < 128
      ensures RemainderAt(r, p, i)
    {
      var w := Rem(p, Power(17, 2 * BitRev(i, 7) + 1));
      HatCoefficient(p, i, 0);
      HatCoefficient(p, i, 1);
      CongTrans(r[2 * i], Hat(p)[2 * i], w[0]);
      CongTrans(r[2 * i + 1], Hat(p)[2 * i + 1], w[1]);
    }
  }
}
