/**
  The number-theoretic transform as a map on polynomials. A node of the transform
  holds an element of Z[X]/(X^2n - z^2) and replaces it by its remainders modulo
  X^n - z and X^n + z; after seven levels only blocks of two coefficients are left.
  Modulo q the transform takes the product of the ring Z[X]/(X^256 + 1) to products
  of blocks of two, and the inverse undoes it up to the factor 128
  (Algorithms 9 to 12, section 4.3 of FIPS 203).
*/
module NttSpec {
  import opened ModQ
  import opened Powers
  import opened Ring
  import opened Zetas

  /** The transform of a node of height h whose twiddle factor has index k. */
  function Ntt(a: Poly, k: nat, h: nat): (r: Poly)
    requires 1 <= k && |a| == Pow2(h + 1)
    ensures |r| == |a|
    decreases h
  {
    if h == 0 then a
    else Ntt(Fold(a, Root(k)), 2 * k, h - 1) + Ntt(Fold(a, -Root(k)), 2 * k + 1, h - 1)
  }

  /** Undoes the two remainders up to a factor 2 when z is minus the inverse of the root. */
  function Join(a: Poly, b: Poly, z: int): (r: Poly)
    requires |a| == |b|
    ensures |r| == |a| + |b|
  {
    seq(|a|, i requires 0 <= i < |a| => a[i] + b[i]) + seq(|a|, i requires 0 <= i < |a| => z * (b[i] - a[i]))
  }

  /** The inverse of a node; k is the index of the mirror image of its twiddle factor. */
  function INtt(a: Poly, k: nat, h: nat): (r: Poly)
    requires 1 <= k && |a| == Pow2(h + 1)
    ensures |r| == |a|
    decreases h
  {
    if h == 0 then a
    else Join(INtt(a[..Pow2(h)], 2 * k + 1, h - 1), INtt(a[Pow2(h)..], 2 * k, h - 1), Root(k))
  }

  /** The product of two transformed elements of Z[X]/(X^2n - c). */
  function Mul(a: Poly, b: Poly, c: int, k: nat, h: nat): (r: Poly)
    requires 1 <= k && |a| == |b| == Pow2(h + 1)
    ensures |r| == |a|
    decreases h
  {
    if h == 0 then MulMod(a, b, c)
    else Mul(a[..Pow2(h)], b[..Pow2(h)], Root(k), 2 * k, h - 1)
         + Mul(a[Pow2(h)..], b[Pow2(h)..], -Root(k), 2 * k + 1, h - 1)
  }

  // ---------- Congruence and linearity ----------

  lemma {:induction false} NttCong(a: Poly, b: Poly, k: nat, h: nat)
    requires 1 <= k && |a| == Pow2(h + 1) && CongSeq(a, b)
    ensures CongSeq(Ntt(a, k, h), Ntt(b, k, h))
    decreases h
  {
    hide Cong, Fold, Root;
    if h > 0 {
      var z := Root(k);
      CongIntro(z, z, 0);
      CongIntro(-z, -z, 0);
      FoldCong(a, b, z, z);
      FoldCong(a, b, -z, -z);
      NttCong(Fold(a, z), Fold(b, z), 2 * k, h - 1);
      NttCong(Fold(a, -z), Fold(b, -z), 2 * k + 1, h - 1);
    }
  }

  lemma JoinCong(a: Poly, b: Poly, a': Poly, b': Poly, z: int)
    requires |a| == |b| && CongSeq(a, a') && CongSeq(b, b')
    ensures CongSeq(Join(a, b, z), Join(a', b', z))
  {
    hide Cong;
    CongIntro(z, z, 0);
    forall i | 0 <= i < |a|
      ensures Cong(a[i] + b[i], a'[i] + b'[i]) && Cong(z * (b[i] - a[i]), z * (b'[i] - a'[i]))
    {
      CongAdd(a[i], a'[i], b[i], b'[i]);
      CongAdd(b[i], b'[i], a[i], a'[i]);
      CongMul(z, z, b[i] - a[i], b'[i] - a'[i]);
    }
  }

  lemma {:induction false} INttCong(a: Poly, b: Poly, k: nat, h: nat)
    requires 1 <= k && |a| == Pow2(h + 1) && CongSeq(a, b)
    ensures CongSeq(INtt(a, k, h), INtt(b, k, h))
    decreases h
  {
    if h > 0 {
      INttCongStep(a, b, k, h, Pow2(h));
    }
  }

  lemma CongSlices(a: Poly, b: Poly, n: nat)
    requires CongSeq(a, b) && n <= |a|
    ensures |a| == |b| && CongSeq(a[..n], b[..n]) && CongSeq(a[n..], b[n..])
  {
    hide Cong;
  }

  lemma {:induction false} INttCongStep(a: Poly, b: Poly, k: nat, h: nat, n: nat)
    requires 1 <= k && 1 <= h && n == Pow2(h) && |a| == |b| == Pow2(h + 1) && CongSeq(a, b)
    ensures CongSeq(INtt(a, k, h), INtt(b, k, h))
    decreases h, 0
  {
    hide CongSeq, Join, Root, INtt;
    CongSlices(a, b, n);
    INttCong(a[..n], b[..n], 2 * k + 1, h - 1);
    INttCong(a[n..], b[n..], 2 * k, h - 1);
    INttUnfold(a, k, h, n);
    INttUnfold(b, k, h, n);
    JoinCong(INtt(a[..n], 2 * k + 1, h - 1), INtt(a[n..], 2 * k, h - 1),
             INtt(b[..n], 2 * k + 1, h - 1), INtt(b[n..], 2 * k, h - 1), Root(k));
  }

  lemma {:induction false} MulCong(a: Poly, b: Poly, c: int, a': Poly, b': Poly, k: nat, h: nat)
    requires 1 <= k && |a| == |b| == Pow2(h + 1) && CongSeq(a, a') && CongSeq(b, b')
    ensures CongSeq(Mul(a, b, c, k, h), Mul(a', b', c, k, h))
    decreases h
  {
    hide Cong, CongSeq, MulMod, Root;
    CongSlices(a, a', 0);
    CongSlices(b, b', 0);
    if h == 0 {
      CongIntro(c, c, 0);
      MulModCong(a, b, c, a', b', c);
    } else {
      var n, z := Pow2(h), Root(k);
      CongSlices(a, a', n);
      CongSlices(b, b', n);
      MulCong(a[..n], b[..n], z, a'[..n], b'[..n], 2 * k, h - 1);
      MulCong(a[n..], b[n..], -z, a'[n..], b'[n..], 2 * k + 1, h - 1);
      CongSeqConcat(Mul(a[..n], b[..n], z, 2 * k, h - 1), Mul(a'[..n], b'[..n], z, 2 * k, h - 1),
                    Mul(a[n..], b[n..], -z, 2 * k + 1, h - 1), Mul(a'[n..], b'[n..], -z, 2 * k + 1, h - 1));
    }
  }

  lemma FoldScaleAt(a: Poly, c: int, z: int, i: nat)
    requires |a| % 2 == 0 && i < |a| / 2
    ensures Fold(Scale(c, a), z)[i] == Scale(c, Fold(a, z))[i]
  {
    ScaledCoefficient(c, a[i], a[i + |a| / 2], z);
  }

  lemma FoldScale(a: Poly, c: int, z: int)
    requires |a| % 2 == 0
    ensures Fold(Scale(c, a), z) == Scale(c, Fold(a, z))
  {
    hide Fold, Scale;
    forall i | 0 <= i < |a| / 2
      ensures Fold(Scale(c, a), z)[i] == Scale(c, Fold(a, z))[i]
    {
      FoldScaleAt(a, c, z, i);
    }
  }

  lemma ScaleConcat(c: int, a: Poly, b: Poly)
    ensures Scale(c, a + b) == Scale(c, a) + Scale(c, b)
  {
  }

  lemma {:induction false} NttScale(a: Poly, c: int, k: nat, h: nat)
    requires 1 <= k && |a| == Pow2(h + 1)
    ensures Ntt(Scale(c, a), k, h) == Scale(c, Ntt(a, k, h))
    decreases h
  {
    hide Scale, Fold, Root;
    if h > 0 {
      var z := Root(k);
      FoldScale(a, c, z);
      FoldScale(a, c, -z);
      NttScale(Fold(a, z), c, 2 * k, h - 1);
      NttScale(Fold(a, -z), c, 2 * k + 1, h - 1);
      ScaleConcat(c, Ntt(Fold(a, z), 2 * k, h - 1), Ntt(Fold(a, -z), 2 * k + 1, h - 1));
    }
  }

  lemma FoldAddAt(a: Poly, b: Poly, z: int, i: nat)
    requires |a| == |b| && |a| % 2 == 0 && i < |a| / 2
    ensures Fold(Add(a, b), z)[i] == Add(Fold(a, z), Fold(b, z))[i]
  {
    Distribute(z, a[i + |a| / 2], b[i + |a| / 2]);
  }

  lemma FoldAdd(a: Poly, b: Poly, z: int)
    requires |a| == |b| && |a| % 2 == 0
    ensures Fold(Add(a, b), z) == Add(Fold(a, z), Fold(b, z))
  {
    hide Fold, Add;
    forall i | 0 <= i < |a| / 2
      ensures Fold(Add(a, b), z)[i] == Add(Fold(a, z), Fold(b, z))[i]
    {
      FoldAddAt(a, b, z, i);
    }
  }

  lemma AddConcat(a: Poly, b: Poly, a': Poly, b': Poly)
    requires |a| == |a'| && |b| == |b'|
    ensures Add(a + b, a' + b') == Add(a, a') + Add(b, b')
  {
  }

  lemma {:induction false} NttAdd(a: Poly, b: Poly, k: nat, h: nat)
    requires 1 <= k && |a| == |b| == Pow2(h + 1)
    ensures Ntt(Add(a, b), k, h) == Add(Ntt(a, k, h), Ntt(b, k, h))
    decreases h
  {
    hide Add, Fold, Root;
    if h > 0 {
      var z := Root(k);
      FoldAdd(a, b, z);
      FoldAdd(a, b, -z);
      NttAdd(Fold(a, z), Fold(b, z), 2 * k, h - 1);
      NttAdd(Fold(a, -z), Fold(b, -z), 2 * k + 1, h - 1);
      AddConcat(Ntt(Fold(a, z), 2 * k, h - 1), Ntt(Fold(a, -z), 2 * k + 1, h - 1),
                Ntt(Fold(b, z), 2 * k, h - 1), Ntt(Fold(b, -z), 2 * k + 1, h - 1));
    }
  }

  // ---------- The transform takes products to products ----------

  /** z_k is a square root of c, and so on down the subtree. */
  ghost predicate RootsOf(c: int, k: nat, h: nat)
    requires 1 <= k
    decreases h
  {
    h == 0 || (Cong(Root(k) * Root(k), c) && RootsOf(Root(k), 2 * k, h - 1) && RootsOf(-Root(k), 2 * k + 1, h - 1))
  }

  lemma NttUnfold(a: Poly, k: nat, h: nat, n: nat)
    requires 1 <= k && 1 <= h && n == Pow2(h) && |a| == Pow2(h + 1) == 2 * n
    ensures var x := Ntt(a, k, h);
            x[..n] == Ntt(Fold(a, Root(k)), 2 * k, h - 1) && x[n..] == Ntt(Fold(a, -Root(k)), 2 * k + 1, h - 1)
  {
    hide Fold, Root;
  }

  lemma {:induction false} NttProduct(a: Poly, b: Poly, c: int, k: nat, h: nat)
    requires 1 <= k && |a| == |b| == Pow2(h + 1) && RootsOf(c, k, h)
    ensures CongSeq(Ntt(MulMod(a, b, c), k, h), Mul(Ntt(a, k, h), Ntt(b, k, h), c, k, h))
    decreases h
  {
    if h == 0 {
      CongSeqRefl(MulMod(a, b, c));
    } else {
      NttProductStep(a, b, c, k, h, Root(k), Pow2(h));
    }
  }

  lemma {:induction false} NttProductStep(a: Poly, b: Poly, c: int, k: nat, h: nat, z: int, n: nat)
    requires 1 <= k && 1 <= h && |a| == |b| == Pow2(h + 1) && z == Root(k) && n == Pow2(h) && RootsOf(c, k, h)
    ensures CongSeq(Ntt(MulMod(a, b, c), k, h), Mul(Ntt(a, k, h), Ntt(b, k, h), c, k, h))
    decreases h, 1
  {
    hide Cong, MulMod, Root, Fold, CongSeq, Ntt;
    NttProductHalf(a, b, c, z, 2 * k, h);
    assert (-z) * (-z) == z * z;
    NttProductHalf(a, b, c, -z, 2 * k + 1, h);
    var x, y, m := Ntt(a, k, h), Ntt(b, k, h), Ntt(MulMod(a, b, c), k, h);
    NttUnfold(a, k, h, n);
    NttUnfold(b, k, h, n);
    NttUnfold(MulMod(a, b, c), k, h, n);
    CongSeqConcat(m[..n], Mul(x[..n], y[..n], z, 2 * k, h - 1), m[n..], Mul(x[n..], y[n..], -z, 2 * k + 1, h - 1));
    assert m[..n] + m[n..] == m;
  }

  lemma {:induction false} NttProductHalf(a: Poly, b: Poly, c: int, z: int, k: nat, h: nat)
    requires 1 <= k && 1 <= h && |a| == |b| == Pow2(h + 1) && Cong(z * z, c) && RootsOf(z, k, h - 1)
    ensures CongSeq(Ntt(Fold(MulMod(a, b, c), z), k, h - 1),
                    Mul(Ntt(Fold(a, z), k, h - 1), Ntt(Fold(b, z), k, h - 1), z, k, h - 1))
    decreases h, 0
  {
    hide Cong, MulMod, Root, Fold, Ntt, Mul, RootsOf;
    FoldProductCong(a, b, c, z);
    NttCong(Fold(MulMod(a, b, c), z), MulMod(Fold(a, z), Fold(b, z), z), k, h - 1);
    NttProduct(Fold(a, z), Fold(b, z), z, k, h - 1);
    CongSeqTrans(Ntt(Fold(MulMod(a, b, c), z), k, h - 1), Ntt(MulMod(Fold(a, z), Fold(b, z), z), k, h - 1),
                 Mul(Ntt(Fold(a, z), k, h - 1), Ntt(Fold(b, z), k, h - 1), z, k, h - 1));
  }

  // ---------- The inverse undoes the transform, and the transform the inverse ----------

  ghost predicate Mirrors(k: nat, k': nat, h: nat)
    requires 1 <= k && 1 <= k'
    decreases h
  {
    h == 0 || (Cong(Root(k) * Root(k'), -1) && Mirrors(2 * k, 2 * k' + 1, h - 1) && Mirrors(2 * k + 1, 2 * k', h - 1))
  }

  lemma MirrorsUnfold(k: nat, k': nat, h: nat)
    requires 1 <= k && 1 <= k' && 1 <= h && Mirrors(k, k', h)
    ensures Cong(Root(k) * Root(k'), -1) && Mirrors(2 * k, 2 * k' + 1, h - 1) && Mirrors(2 * k + 1, 2 * k', h - 1)
  {
    hide Root, Cong;
  }

  lemma MirrorsFold(k: nat, k': nat, h: nat)
    requires 1 <= k && 1 <= k' && 1 <= h && Cong(Root(k) * Root(k'), -1)
    requires Mirrors(2 * k, 2 * k' + 1, h - 1) && Mirrors(2 * k + 1, 2 * k', h - 1)
    ensures Mirrors(k, k', h)
  {
    hide Root, Cong;
  }

  lemma NoMirrors(k: nat, k': nat)
    requires 1 <= k && 1 <= k'
    ensures Mirrors(k, k', 0)
  {
  }

  lemma Pow2Step(h: nat)
    requires 1 <= h
    ensures Pow2(h) == 2 * Pow2(h - 1) && Pow2(h + 1) == 2 * Pow2(h)
  {
  }

  /** One coefficient pair through a node and back. */
  lemma JoinFoldCoefficient(x: int, y: int, z: int, z': int)
    requires Cong(z * z', -1)
    ensures (x + z * y) + (x + (-z) * y) == 2 * x
    ensures Cong(z' * ((x + (-z) * y) - (x + z * y)), 2 * y)
  {
    var w := CongElim(z * z', -1);
    assert z' * ((x + (-z) * y) - (x + z * y)) == -2 * (z * z') * y;
    assert z * z' == Q * w - 1;
    assert -2 * (Q * w - 1) * y == Q * (-2 * w * y) + 2 * y;
    CongIntro(z' * ((x + (-z) * y) - (x + z * y)), 2 * y, -2 * w * y);
  }

  lemma ScaledCoefficient(c: int, x: int, y: int, z: int)
    ensures c * (x + z * y) == c * x + z * (c * y) && 2 * (c * x) == (2 * c) * x && 2 * (c * y) == (2 * c) * y
  {
    assert c * (z * y) == z * (c * y);
  }

  lemma JoinFoldAt(a: Poly, c: int, z: int, z': int, i: nat)
    requires |a| % 2 == 0 && i < |a| / 2 && Cong(z * z', -1)
    ensures var r, s := Join(Scale(c, Fold(a, z)), Scale(c, Fold(a, -z)), z'), Scale(2 * c, a);
            Cong(r[i], s[i]) && Cong(r[i + |a| / 2], s[i + |a| / 2])
  {
    hide Cong;
    var n := |a| / 2;
    var x, y := a[i], a[i + n];
    var r := Join(Scale(c, Fold(a, z)), Scale(c, Fold(a, -z)), z');
    JoinFoldCoefficient(c * x, c * y, z, z');
    ScaledCoefficient(c, x, y, z);
    ScaledCoefficient(c, x, y, -z);
    CongIntro(r[i], (2 * c) * x, 0);
  }

  lemma JoinFold(a: Poly, c: int, z: int, z': int)
    requires |a| % 2 == 0 && Cong(z * z', -1)
    ensures CongSeq(Join(Scale(c, Fold(a, z)), Scale(c, Fold(a, -z)), z'), Scale(2 * c, a))
  {
    hide Cong, Join, Scale, Fold;
    var n := |a| / 2;
    var r, s := Join(Scale(c, Fold(a, z)), Scale(c, Fold(a, -z)), z'), Scale(2 * c, a);
    forall j | 0 <= j < |a|
      ensures Cong(r[j], s[j])
    {
      JoinFoldAt(a, c, z, z', if j < n then j else j - n);
    }
  }

  lemma {:induction false} INttOfNtt(a: Poly, k: nat, k': nat, h: nat)
    requires 1 <= k && 1 <= k' && |a| == Pow2(h + 1) && Mirrors(k, k', h)
    ensures CongSeq(INtt(Ntt(a, k, h), k', h), Scale(Pow2(h), a))
    decreases h
  {
    if h == 0 {
      assert Pow2(0) == 1;
      ScaleOne(a);
      CongSeqRefl(a);
    } else {
      INttOfNttStep(a, k, k', h, Pow2(h));
    }
  }

  lemma {:induction false} INttOfNttStep(a: Poly, k: nat, k': nat, h: nat, n: nat)
    requires 1 <= k && 1 <= k' && 1 <= h && n == Pow2(h) && |a| == Pow2(h + 1) && Mirrors(k, k', h)
    ensures CongSeq(INtt(Ntt(a, k, h), k', h), Scale(n, a))
    decreases h, 0
  {
    hide Cong, CongSeq, Root, Fold, Join, Scale, Ntt, INtt, Mirrors, Pow2;
    MirrorsUnfold(k, k', h);
    Pow2Step(h);
    var z, c := Root(k), Pow2(h - 1);
    var x, y := Ntt(Fold(a, z), 2 * k, h - 1), Ntt(Fold(a, -z), 2 * k + 1, h - 1);
    NttUnfold(a, k, h, n);
    INttUnfold(Ntt(a, k, h), k', h, n);
    INttOfNtt(Fold(a, z), 2 * k, 2 * k' + 1, h - 1);
    INttOfNtt(Fold(a, -z), 2 * k + 1, 2 * k', h - 1);
    var u, v := INtt(x, 2 * k' + 1, h - 1), INtt(y, 2 * k', h - 1);
    JoinCong(u, v, Scale(c, Fold(a, z)), Scale(c, Fold(a, -z)), Root(k'));
    JoinFold(a, c, z, Root(k'));
    CongSeqTrans(Join(u, v, Root(k')), Join(Scale(c, Fold(a, z)), Scale(c, Fold(a, -z)), Root(k')), Scale(n, a));
  }

  lemma ScaleOne(a: Poly)
    ensures Scale(1, a) == a
  {
  }

  lemma FoldJoinCoefficient(x: int, y: int, z: int, z': int)
    requires Cong(z * z', -1)
    ensures Cong((x + y) + z * (z' * (y - x)), 2 * x)
    ensures Cong((x + y) + (-z) * (z' * (y - x)), 2 * y)
  {
    var w := CongElim(z * z', -1);
    assert z * (z' * (y - x)) == (Q * w - 1) * (y - x);
    assert (Q * w - 1) * (y - x) == Q * (w * (y - x)) - (y - x);
    CongIntro((x + y) + z * (z' * (y - x)), 2 * x, w * (y - x));
    assert (-z) * (z' * (y - x)) == -(z * (z' * (y - x)));
    assert Q * (-(w * (y - x))) == -(Q * (w * (y - x)));
    CongIntro((x + y) + (-z) * (z' * (y - x)), 2 * y, -(w * (y - x)));
  }

  lemma FoldJoin(a: Poly, b: Poly, z: int, z': int)
    requires |a| == |b| && Cong(z * z', -1)
    ensures CongSeq(Fold(Join(a, b, z'), z), Scale(2, a)) && CongSeq(Fold(Join(a, b, z'), -z), Scale(2, b))
  {
    hide Cong;
    forall i | 0 <= i < |a|
      ensures Cong(Fold(Join(a, b, z'), z)[i], 2 * a[i]) && Cong(Fold(Join(a, b, z'), -z)[i], 2 * b[i])
    {
      FoldJoinCoefficient(a[i], b[i], z, z');
    }
  }

  lemma ScaleScale(c: int, d: int, a: Poly)
    ensures Scale(c, Scale(d, a)) == Scale(c * d, a)
  {
    forall i | 0 <= i < |a|
      ensures c * (d * a[i]) == (c * d) * a[i]
    {
    }
  }

  lemma ScaleCong(c: int, a: Poly, b: Poly)
    requires CongSeq(a, b)
    ensures CongSeq(Scale(c, a), Scale(c, b))
  {
    hide Cong;
    CongIntro(c, c, 0);
    forall i | 0 <= i < |a|
      ensures Cong(c * a[i], c * b[i])
    {
      CongMul(c, c, a[i], b[i]);
    }
  }

  /** One half of a node: transforming twice a polynomial whose inverse is already taken. */
  lemma {:induction false} NttOfINttHalf(f: Poly, x: Poly, k: nat, k': nat, h: nat)
    requires 1 <= k && 1 <= k' && |f| == |x| == Pow2(h + 1) && Mirrors(k, k', h)
    requires CongSeq(f, Scale(2, INtt(x, k', h)))
    ensures CongSeq(Ntt(f, k, h), Scale(2 * Pow2(h), x))
    decreases h, 4
  {
    hide Cong, CongSeq, Root, Fold, Join, Scale, Ntt, INtt, Mirrors;
    var y := INtt(x, k', h);
    NttCong(f, Scale(2, y), k, h);
    NttScale(y, 2, k, h);
    NttOfINtt(x, k, k', h);
    ScaleCong(2, Ntt(y, k, h), Scale(Pow2(h), x));
    ScaleScale(2, Pow2(h), x);
    CongSeqTrans(Ntt(f, k, h), Scale(2, Ntt(y, k, h)), Scale(2 * Pow2(h), x));
  }

  lemma {:induction false} NttOfINtt(a: Poly, k: nat, k': nat, h: nat)
    requires 1 <= k && 1 <= k' && |a| == Pow2(h + 1) && Mirrors(k, k', h)
    ensures CongSeq(Ntt(INtt(a, k', h), k, h), Scale(Pow2(h), a))
    decreases h, 3
  {
    hide Cong, CongSeq, Root, Fold, Join, Scale;
    if h == 0 {
      assert Pow2(0) == 1;
      ScaleOne(a);
      CongSeqRefl(a);
    } else {
      NttOfINttStep(a, k, k', h, Pow2(h));
    }
  }

  lemma INttUnfold(a: Poly, k: nat, h: nat, n: nat)
    requires 1 <= k && 1 <= h && n == Pow2(h) && |a| == Pow2(h + 1) == 2 * n
    ensures INtt(a, k, h) == Join(INtt(a[..n], 2 * k + 1, h - 1), INtt(a[n..], 2 * k, h - 1), Root(k))
  {
    hide Join, Root;
  }

  lemma {:induction false} NttOfINttStep(a: Poly, k: nat, k': nat, h: nat, n: nat)
    requires 1 <= k && 1 <= k' && 1 <= h && n == Pow2(h) && |a| == Pow2(h + 1) && Mirrors(k, k', h)
    ensures CongSeq(Ntt(INtt(a, k', h), k, h), Scale(n, a))
    decreases h, 2
  {
    hide Cong, CongSeq, Root, Fold, Join, Scale, Ntt, INtt, Mirrors, Pow2;
    MirrorsUnfold(k, k', h);
    Pow2Step(h);
    var z := Root(k);
    var x, y := a[..n], a[n..];
    var u, v := INtt(x, 2 * k' + 1, h - 1), INtt(y, 2 * k', h - 1);
    var j := Join(u, v, Root(k'));
    INttUnfold(a, k', h, n);
    FoldJoin(u, v, z, Root(k'));
    NttOfINttHalf(Fold(j, z), x, 2 * k, 2 * k' + 1, h - 1);
    NttOfINttHalf(Fold(j, -z), y, 2 * k + 1, 2 * k', h - 1);
    NttUnfold(j, k, h, n);
    var w := Ntt(j, k, h);
    CongSeqConcat(w[..n], Scale(n, x), w[n..], Scale(n, y));
    assert w[..n] + w[n..] == w && x + y == a;
    ScaleConcat(n, x, y);
  }

  // ---------- Products of transformed polynomials form a commutative ring ----------

  lemma MulModTwo(a: Poly, b: Poly, c: int)
    requires |a| == |b| == 2
    ensures MulMod(a, b, c) == [a[0] * b[0] + a[1] * (c * b[1]), a[0] * b[1] + a[1] * b[0]]
  {
    assert Coef(a, b, c, 0, 2) == Coef(a, b, c, 0, 1) + Term(a, b, c, 0, 1);
    assert Coef(a, b, c, 1, 2) == Coef(a, b, c, 1, 1) + Term(a, b, c, 1, 1);
    assert Coef(a, b, c, 0, 1) == Coef(a, b, c, 0, 0) + Term(a, b, c, 0, 0);
    assert Coef(a, b, c, 1, 1) == Coef(a, b, c, 1, 0) + Term(a, b, c, 1, 0);
  }

  lemma MulModTwoCommutes(a: Poly, b: Poly, c: int)
    requires |a| == |b| == 2
    ensures MulMod(a, b, c) == MulMod(b, a, c)
  {
    hide MulMod;
    MulModTwo(a, b, c);
    MulModTwo(b, a, c);
    Swap3(a[1], c, b[1]);
    assert a[0] * b[0] == b[0] * a[0] && a[0] * b[1] == b[1] * a[0] && a[1] * b[0] == b[0] * a[1];
  }

  lemma Swap3(x: int, c: int, y: int)
    ensures x * (c * y) == y * (c * x)
  {
    assert x * (c * y) == c * (x * y) && y * (c * x) == c * (x * y);
  }

  lemma MulUnfold(a: Poly, b: Poly, c: int, k: nat, h: nat, n: nat)
    requires 1 <= k && 1 <= h && n == Pow2(h) && |a| == |b| == Pow2(h + 1) == 2 * n
    ensures var r := Mul(a, b, c, k, h);
            && r[..n] == Mul(a[..n], b[..n], Root(k), 2 * k, h - 1)
            && r[n..] == Mul(a[n..], b[n..], -Root(k), 2 * k + 1, h - 1)
            && r == r[..n] + r[n..]
  {
    hide MulMod, Root;
  }

  lemma {:induction false} MulCommutes(a: Poly, b: Poly, c: int, k: nat, h: nat)
    requires 1 <= k && |a| == |b| == Pow2(h + 1)
    ensures Mul(a, b, c, k, h) == Mul(b, a, c, k, h)
    decreases h
  {
    if h == 0 {
      MulModTwoCommutes(a, b, c);
    } else {
      MulCommutesStep(a, b, c, k, h, Pow2(h));
    }
  }

  lemma {:induction false} MulCommutesStep(a: Poly, b: Poly, c: int, k: nat, h: nat, n: nat)
    requires 1 <= k && 1 <= h && n == Pow2(h) && |a| == |b| == Pow2(h + 1)
    ensures Mul(a, b, c, k, h) == Mul(b, a, c, k, h)
    decreases h, 0
  {
    hide Mul, Root;
    MulUnfold(a, b, c, k, h, n);
    MulUnfold(b, a, c, k, h, n);
    MulCommutes(a[..n], b[..n], Root(k), 2 * k, h - 1);
    MulCommutes(a[n..], b[n..], -Root(k), 2 * k + 1, h - 1);
  }

  lemma MulModTwoAssociates(a: Poly, b: Poly, d: Poly, c: int)
    requires |a| == |b| == |d| == 2
    ensures MulMod(MulMod(a, b, c), d, c) == MulMod(a, MulMod(b, d, c), c)
  {
    hide MulMod;
    MulModTwo(a, b, c);
    MulModTwo(b, d, c);
    MulModTwo(MulMod(a, b, c), d, c);
    MulModTwo(a, MulMod(b, d, c), c);
    AssociatesLow(a[0], a[1], b[0], b[1], d[0], d[1], c);
    AssociatesHigh(a[0], a[1], b[0], b[1], d[0], d[1], c);
  }

  lemma Reassociate(x: int, y: int, z: int)
    ensures (x * y) * z == x * (y * z)
  {
  }

  lemma Times2(x: int, y: int, z: int)
    ensures (x + y) * z == x * z + y * z && z * (x + y) == z * x + z * y
  {
  }

  lemma AssociatesLow(a0: int, a1: int, b0: int, b1: int, d0: int, d1: int, c: int)
    ensures (a0 * b0 + a1 * (c * b1)) * d0 + (a0 * b1 + a1 * b0) * (c * d1)
         == a0 * (b0 * d0 + b1 * (c * d1)) + a1 * (c * (b0 * d1 + b1 * d0))
  {
    Times2(a0 * b0, a1 * (c * b1), d0);
    Times2(a0 * b1, a1 * b0, c * d1);
    Times2(b0 * d0, b1 * (c * d1), a0);
    Times2(b0 * d1, b1 * d0, c);
    Times2(c * (b0 * d1), c * (b1 * d0), a1);
    Reassociate(a0, b0, d0);
    Reassociate(a0, b1, c * d1);
    Reassociate(a1, c * b1, d0);
    Reassociate(c, b1, d0);
    Reassociate(a1, b0, c * d1);
    Reassociate(b0, c, d1);
    Reassociate(c, b0, d1);
    assert b0 * c == c * b0;
  }

  lemma AssociatesHigh(a0: int, a1: int, b0: int, b1: int, d0: int, d1: int, c: int)
    ensures (a0 * b0 + a1 * (c * b1)) * d1 + (a0 * b1 + a1 * b0) * d0
         == a0 * (b0 * d1 + b1 * d0) + a1 * (b0 * d0 + b1 * (c * d1))
  {
    Times2(a0 * b0, a1 * (c * b1), d1);
    Times2(a0 * b1, a1 * b0, d0);
    Times2(b0 * d1, b1 * d0, a0);
    Times2(b0 * d0, b1 * (c * d1), a1);
    Reassociate(a0, b0, d1);
    Reassociate(a0, b1, d0);
    Reassociate(a1, b0, d0);
    Reassociate(a1, c * b1, d1);
    Reassociate(c, b1, d1);
    Reassociate(b1, c, d1);
    assert b1 * c == c * b1;
  }

  lemma {:induction false} MulAssociates(a: Poly, b: Poly, d: Poly, c: int, k: nat, h: nat)
    requires 1 <= k && |a| == |b| == |d| == Pow2(h + 1)
    ensures Mul(Mul(a, b, c, k, h), d, c, k, h) == Mul(a, Mul(b, d, c, k, h), c, k, h)
    decreases h
  {
    if h == 0 {
      MulModTwoAssociates(a, b, d, c);
    } else {
      MulAssociatesStep(a, b, d, c, k, h, Pow2(h));
    }
  }

  lemma {:induction false} MulAssociatesStep(a: Poly, b: Poly, d: Poly, c: int, k: nat, h: nat, n: nat)
    requires 1 <= k && 1 <= h && n == Pow2(h) && |a| == |b| == |d| == Pow2(h + 1)
    ensures Mul(Mul(a, b, c, k, h), d, c, k, h) == Mul(a, Mul(b, d, c, k, h), c, k, h)
    decreases h, 0
  {
    hide Mul, Root;
    var ab, bd := Mul(a, b, c, k, h), Mul(b, d, c, k, h);
    MulUnfold(a, b, c, k, h, n);
    MulUnfold(b, d, c, k, h, n);
    MulUnfold(ab, d, c, k, h, n);
    MulUnfold(a, bd, c, k, h, n);
    MulAssociates(a[..n], b[..n], d[..n], Root(k), 2 * k, h - 1);
    MulAssociates(a[n..], b[n..], d[n..], -Root(k), 2 * k + 1, h - 1);
  }

  lemma MulModTwoAdd(a: Poly, b: Poly, d: Poly, c: int)
    requires |a| == |b| == |d| == 2
    ensures MulMod(Add(a, b), d, c) == Add(MulMod(a, d, c), MulMod(b, d, c))
  {
    hide MulMod;
    MulModTwo(a, d, c);
    MulModTwo(b, d, c);
    MulModTwo(Add(a, b), d, c);
    assert (a[0] + b[0]) * d[0] + (a[1] + b[1]) * (c * d[1])
        == (a[0] * d[0] + a[1] * (c * d[1])) + (b[0] * d[0] + b[1] * (c * d[1]));
    assert (a[0] + b[0]) * d[1] + (a[1] + b[1]) * d[0] == (a[0] * d[1] + a[1] * d[0]) + (b[0] * d[1] + b[1] * d[0]);
  }

  lemma {:induction false} MulDistributes(a: Poly, b: Poly, d: Poly, c: int, k: nat, h: nat)
    requires 1 <= k && |a| == |b| == |d| == Pow2(h + 1)
    ensures Mul(Add(a, b), d, c, k, h) == Add(Mul(a, d, c, k, h), Mul(b, d, c, k, h))
    decreases h
  {
    if h == 0 {
      MulModTwoAdd(a, b, d, c);
    } else {
      MulDistributesStep(a, b, d, c, k, h, Pow2(h));
    }
  }

  lemma AddHalves(a: Poly, b: Poly, n: nat)
    requires |a| == |b| && n <= |a|
    ensures Add(a, b)[..n] == Add(a[..n], b[..n]) && Add(a, b)[n..] == Add(a[n..], b[n..])
  {
  }

  lemma {:induction false} MulDistributesStep(a: Poly, b: Poly, d: Poly, c: int, k: nat, h: nat, n: nat)
    requires 1 <= k && 1 <= h && n == Pow2(h) && |a| == |b| == |d| == Pow2(h + 1)
    ensures Mul(Add(a, b), d, c, k, h) == Add(Mul(a, d, c, k, h), Mul(b, d, c, k, h))
    decreases h, 0
  {
    hide Mul, Root, Add;
    var s, ad, bd := Add(a, b), Mul(a, d, c, k, h), Mul(b, d, c, k, h);
    AddHalves(a, b, n);
    MulUnfold(s, d, c, k, h, n);
    MulUnfold(a, d, c, k, h, n);
    MulUnfold(b, d, c, k, h, n);
    MulDistributes(a[..n], b[..n], d[..n], Root(k), 2 * k, h - 1);
    MulDistributes(a[n..], b[n..], d[n..], -Root(k), 2 * k + 1, h - 1);
    AddConcat(ad[..n], ad[n..], bd[..n], bd[n..]);
  }

  // ---------- The transform of ML-KEM ----------

  /** Seven levels for 256 coefficients. */
  function Levels(a: Poly): nat {
    if |a| == 256 then 7 else 0
  }

  function Hat(a: Poly): (r: Poly)
    requires |a| == 256
    ensures |r| == 256
  {
    Pow2Values();
    Ntt(a, 1, Levels(a))
  }

  function Unhat(a: Poly): (r: Poly)
    requires |a| == 256
    ensures |r| == 256
  {
    Pow2Values();
    INtt(a, 1, Levels(a))
  }

  function HatMul(a: Poly, b: Poly): (r: Poly)
    requires |a| == |b| == 256
    ensures |r| == 256
  {
    Pow2Values();
    Mul(a, b, -1, 1, Levels(a))
  }

  lemma {:induction false} TableRoots(c: int, k: nat, l: nat)
    requires 1 <= l <= 7 && Pow2(l - 1) <= k < Pow2(l) && Cong(Root(k) * Root(k), c)
    ensures RootsOf(c, k, 8 - l)
    decreases 8 - l
  {
    hide Root, Cong;
    if l < 7 {
      RootSquares(k, l);
      TableRoots(Root(k), 2 * k, l + 1);
      TableRoots(-Root(k), 2 * k + 1, l + 1);
    }
  }

  lemma {:induction false} TableMirrors(k: nat, l: nat)
    requires 1 <= l <= 7 && Pow2(l - 1) <= k < Pow2(l)
    ensures Pow2(l - 1) <= 3 * Pow2(l - 1) - 1 - k < Pow2(l)
    ensures Mirrors(k, 3 * Pow2(l - 1) - 1 - k, 8 - l)
    decreases 8 - l
  {
    hide Root, Cong, Mirrors, Pow2;
    var k' := 3 * Pow2(l - 1) - 1 - k;
    RootMirror(l, k);
    Pow2Step(l);
    BottomMirrors(k, k', l);
    if l < 7 {
      TableMirrors(2 * k, l + 1);
      TableMirrors(2 * k + 1, l + 1);
      MirrorsFold(k, k', 8 - l);
    }
  }

  /** In the last layer nothing but the roots themselves is to be shown. */
  lemma BottomMirrors(k: nat, k': nat, l: nat)
    requires 1 <= k && 1 <= k' && l <= 7 && Cong(Root(k) * Root(k'), -1)
    ensures l == 7 ==> Mirrors(k, k', 8 - l)
  {
    hide Root, Cong, Mirrors;
    if l == 7 {
      NoMirrors(2 * k, 2 * k' + 1);
      NoMirrors(2 * k + 1, 2 * k');
      MirrorsFold(k, k', 1);
    }
  }

  /** The transform takes the product of Z_q[X]/(X^256 + 1) to products of blocks. */
  lemma HatProduct(a: Poly, b: Poly)
    requires |a| == |b| == 256
    ensures CongSeq(Hat(MulMod(a, b, -1)), HatMul(Hat(a), Hat(b)))
  {
    hide MulMod, Ntt, Mul, Root, Cong, RootsOf;
    Pow2Values();
    RootOfMinusOne();
    TableRoots(-1, 1, 1);
    NttProduct(a, b, -1, 1, 7);
  }

  lemma UnhatHat(a: Poly)
    requires |a| == 256
    ensures CongSeq(Unhat(Hat(a)), Scale(128, a))
  {
    hide Ntt, INtt, Root, Cong, Mirrors;
    Pow2Values();
    TableMirrors(1, 1);
    INttOfNtt(a, 1, 1, 7);
  }

  lemma HatUnhat(a: Poly)
    requires |a| == 256
    ensures CongSeq(Hat(Unhat(a)), Scale(128, a))
  {
    hide Ntt, INtt, Root, Cong, Mirrors;
    Pow2Values();
    TableMirrors(1, 1);
    NttOfINtt(a, 1, 1, 7);
  }

  /** Multiplying in the transformed domain and coming back is 128 times the product of the ring. */
  lemma UnhatProduct(a: Poly, b: Poly)
    requires |a| == |b| == 256
    ensures CongSeq(Unhat(HatMul(Hat(a), Hat(b))), Scale(128, MulMod(a, b, -1)))
  {
    hide MulMod, HatMul, Hat, Cong, CongSeq, Scale;
    var p := MulMod(a, b, -1);
    HatProduct(a, b);
    CongSeqSym(Hat(p), HatMul(Hat(a), Hat(b)));
    Pow2Values();
    INttCong(HatMul(Hat(a), Hat(b)), Hat(p), 1, 7);
    UnhatHat(p);
    CongSeqTrans(Unhat(HatMul(Hat(a), Hat(b))), Unhat(Hat(p)), Scale(128, p));
  }
}
