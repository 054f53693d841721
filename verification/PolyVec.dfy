/**
  Pointwise operations and the cached base multiplication (poly.c, poly_k.c), and
  the product theorem: transform, multiply-accumulate and transform back computes
  the scalar product in Z_q[X]/(X^256 + 1), all Montgomery factors cancelling.
*/
module PolyVec {
  import opened ModQ
  import opened Powers
  import opened Montgomery
  import opened Ring
  import opened Zetas
  import opened NttSpec
  import opened NttRemainders
  import opened PolyNtt

  type Coeffs = s: seq<int16> | |s| == 256 witness seq(256, i => 0)

  // ---------- Coefficients of a transformed product ----------

  /** The pair i of the product of a and b with root z. */
  ghost predicate PairProduct(r: Poly, a: Poly, b: Poly, z: int, i: nat)
    requires |r| == |a| == |b| && 2 * i + 1 < |a|
  {
    && r[2 * i] == a[2 * i] * b[2 * i] + a[2 * i + 1] * (z * b[2 * i + 1])
    && r[2 * i + 1] == a[2 * i] * b[2 * i + 1] + a[2 * i + 1] * b[2 * i]
  }

  lemma PairProductLeft(r: Poly, a: Poly, b: Poly, z: int, i: nat, r1: Poly, r2: Poly, n: nat)
    requires |r1| == |r2| == n && |a| == |b| == 2 * n && r == r1 + r2 && 2 * i + 1 < n
    requires PairProduct(r1, a[..n], b[..n], z, i)
    ensures PairProduct(r, a, b, z, i)
  {
  }

  lemma PairProductRight(r: Poly, a: Poly, b: Poly, z: int, i: nat, r1: Poly, r2: Poly, n: nat, m: nat)
    requires |r1| == |r2| == n && |a| == |b| == 2 * n && r == r1 + r2 && 2 * i + 1 < n && n == 2 * m
    requires PairProduct(r2, a[n..], b[n..], z, i)
    ensures PairProduct(r, a, b, z, i + m)
  {
  }

  lemma {:induction false} MulLeaf(a: Poly, b: Poly, c: int, k: nat, h: nat, i: nat)
    requires 1 <= k && |a| == |b| == Pow2(h + 1) && i < Pow2(h)
    ensures PairProduct(Mul(a, b, c, k, h), a, b, LeafRoot(c, k, h, i), i)
    decreases h
  {
    hide Root, MulMod, PairProduct;
    if h == 0 {
      MulLeafTwo(a, b, c);
    } else {
      var n, m := Pow2(h), Pow2(h - 1);
      var r1, r2 := Mul(a[..n], b[..n], Root(k), 2 * k, h - 1), Mul(a[n..], b[n..], -Root(k), 2 * k + 1, h - 1);
      if i < m {
        MulLeaf(a[..n], b[..n], Root(k), 2 * k, h - 1, i);
        PairProductLeft(r1 + r2, a, b, LeafRoot(c, k, h, i), i, r1, r2, n);
      } else {
        MulLeaf(a[n..], b[n..], -Root(k), 2 * k + 1, h - 1, i - m);
        PairProductRight(r1 + r2, a, b, LeafRoot(c, k, h, i), i - m, r1, r2, n, m);
      }
    }
  }

  lemma MulLeafTwo(a: Poly, b: Poly, c: int)
    requires |a| == |b| == 2
    ensures PairProduct(MulMod(a, b, c), a, b, c, 0)
  {
    hide MulMod;
    MulModTwo(a, b, c);
  }

  lemma HatMulPair(a: Poly, b: Poly, i: nat)
    requires |a| == |b| == 256 && i < 128
    ensures HatMul(a, b)[2 * i] == a[2 * i] * b[2 * i] + a[2 * i + 1] * (PairRoot(i) * b[2 * i + 1])
    ensures HatMul(a, b)[2 * i + 1] == a[2 * i] * b[2 * i + 1] + a[2 * i + 1] * b[2 * i]
  {
    hide Mul, LeafRoot, Root;
    Pow2Values();
    MulLeaf(a, b, -1, 1, 7, i);
    LeafRootIndex(-1, 1, 7, i);
    assert First(4, 5) == First(8, 4) == 64;
  }

  // ---------- Scalar products ----------

  function Zero(): (r: Poly)
    ensures |r| == 256
  {
    seq(256, i => 0)
  }

  ghost predicate Vectors(a: seq<Poly>, b: seq<Poly>) {
    |a| == |b| && (forall i :: 0 <= i < |a| ==> |a[i]| == 256) && (forall i :: 0 <= i < |b| ==> |b[i]| == 256)
  }

  /** The scalar product of transformed vectors, up to component k. */
  ghost function HatDot(a: seq<Poly>, b: seq<Poly>, k: nat): (r: Poly)
    requires Vectors(a, b) && k <= |a|
    ensures |r| == 256
  {
    if k == 0 then Zero() else Add(HatDot(a, b, k - 1), HatMul(a[k - 1], b[k - 1]))
  }

  /** The scalar product in Z[X]/(X^256 + 1). */
  ghost function RingDot(a: seq<Poly>, b: seq<Poly>, k: nat): (r: Poly)
    requires Vectors(a, b) && k <= |a|
    ensures |r| == 256
  {
    if k == 0 then Zero() else Add(RingDot(a, b, k - 1), MulMod(a[k - 1], b[k - 1], -1))
  }

  ghost predicate VecCong(a: seq<Poly>, b: seq<Poly>) {
    |a| == |b| && forall i :: 0 <= i < |a| ==> CongSeq(a[i], b[i])
  }

  ghost function HatVec(a: seq<Poly>): (r: seq<Poly>)
    requires forall i :: 0 <= i < |a| ==> |a[i]| == 256
    ensures |r| == |a| && forall i :: 0 <= i < |r| ==> |r[i]| == 256 && r[i] == Hat(a[i])
  {
    seq(|a|, i requires 0 <= i < |a| => Hat(a[i]))
  }

  lemma AddCong(a: Poly, a': Poly, b: Poly, b': Poly)
    requires |a| == |b| && CongSeq(a, a') && CongSeq(b, b')
    ensures CongSeq(Add(a, b), Add(a', b'))
  {
    hide Cong;
    forall i | 0 <= i < |a|
      ensures Cong(a[i] + b[i], a'[i] + b'[i])
    {
      CongAdd(a[i], a'[i], b[i], b'[i]);
    }
  }

  lemma {:induction false} HatDotCong(a: seq<Poly>, b: seq<Poly>, a': seq<Poly>, b': seq<Poly>, k: nat)
    requires Vectors(a, b) && Vectors(a', b') && k <= |a| && VecCong(a, a') && VecCong(b, b')
    ensures CongSeq(HatDot(a, b, k), HatDot(a', b', k))
    decreases k
  {
    hide Add, Mul, CongSeq, Zero;
    if k == 0 {
      CongSeqRefl(Zero());
    } else {
      HatDotCong(a, b, a', b', k - 1);
      Pow2Values();
      MulCong(a[k - 1], b[k - 1], -1, a'[k - 1], b'[k - 1], 1, 7);
      AddCong(HatDot(a, b, k - 1), HatDot(a', b', k - 1), HatMul(a[k - 1], b[k - 1]), HatMul(a'[k - 1], b'[k - 1]));
    }
  }

  lemma JoinAdd(x: Poly, y: Poly, u: Poly, v: Poly, z: int)
    requires |x| == |y| == |u| == |v|
    ensures Join(Add(x, u), Add(y, v), z) == Add(Join(x, y, z), Join(u, v, z))
  {
    var n := |x|;
    var l, r := Join(Add(x, u), Add(y, v), z), Add(Join(x, y, z), Join(u, v, z));
    forall i | 0 <= i < 2 * n
      ensures l[i] == r[i]
    {
      if n <= i {
        Regroup(x[i - n], y[i - n], u[i - n], v[i - n], z);
      }
    }
  }

  lemma Regroup(x: int, y: int, u: int, v: int, z: int)
    ensures z * ((y + v) - (x + u)) == z * (y - x) + z * (v - u)
  {
    assert (y + v) - (x + u) == (y - x) + (v - u);
  }

  lemma INttHalves(x: Poly, y: Poly, k: nat, h: nat)
    requires 1 <= k && 1 <= h && |x| == |y| == Pow2(h) && |x + y| == Pow2(h + 1)
    ensures INtt(x + y, k, h) == Join(INtt(x, 2 * k + 1, h - 1), INtt(y, 2 * k, h - 1), Root(k))
  {
    hide Root, Join;
    assert (x + y)[..Pow2(h)] == x && (x + y)[Pow2(h)..] == y;
  }

  lemma {:induction false} INttAdd(a: Poly, b: Poly, k: nat, h: nat)
    requires 1 <= k && |a| == |b| == Pow2(h + 1)
    ensures INtt(Add(a, b), k, h) == Add(INtt(a, k, h), INtt(b, k, h))
    decreases h
  {
    if h > 0 {
      INttAddStep(a, b, k, h, Pow2(h));
    }
  }

  lemma {:induction false} INttAddStep(a: Poly, b: Poly, k: nat, h: nat, n: nat)
    requires 1 <= k && 1 <= h && |a| == |b| == 2 * n && n == Pow2(h) && Pow2(h + 1) == 2 * n
    ensures INtt(Add(a, b), k, h) == Add(INtt(a, k, h), INtt(b, k, h))
    decreases h, 0
  {
    hide Root, Join, Add, INtt, Pow2;
    var a1, a2, b1, b2 := a[..n], a[n..], b[..n], b[n..];
    assert a1 + a2 == a && b1 + b2 == b;
    AddConcat(a1, a2, b1, b2);
    INttHalves(a1, a2, k, h);
    INttHalves(b1, b2, k, h);
    INttHalves(Add(a1, b1), Add(a2, b2), k, h);
    INttAdd(a1, b1, 2 * k + 1, h - 1);
    INttAdd(a2, b2, 2 * k, h - 1);
    JoinAdd(INtt(a1, 2 * k + 1, h - 1), INtt(a2, 2 * k, h - 1),
            INtt(b1, 2 * k + 1, h - 1), INtt(b2, 2 * k, h - 1), Root(k));
  }

  lemma UnhatAdd(a: Poly, b: Poly)
    requires |a| == |b| == 256
    ensures Unhat(Add(a, b)) == Add(Unhat(a), Unhat(b))
  {
    hide INtt, Add;
    Pow2Values();
    INttAdd(a, b, 1, 7);
  }

  lemma UnhatZero()
    ensures Unhat(Zero()) == Zero()
  {
    hide INtt;
    Pow2Values();
    INttScale(Zero(), 0, 1, 7);
    assert Scale(0, Zero()) == Zero();
    assert Scale(0, Unhat(Zero())) == Zero();
  }

  lemma ScaleAdd(c: int, a: Poly, b: Poly)
    requires |a| == |b|
    ensures Scale(c, Add(a, b)) == Add(Scale(c, a), Scale(c, b))
  {
    forall i | 0 <= i < |a|
      ensures c * (a[i] + b[i]) == c * a[i] + c * b[i]
    {
    }
  }

  /** The transform of a scalar product is the scalar product of the transforms. */
  lemma {:induction false} UnhatDot(a: seq<Poly>, b: seq<Poly>, k: nat)
    requires Vectors(a, b) && k <= |a|
    ensures CongSeq(Unhat(HatDot(HatVec(a), HatVec(b), k)), Scale(128, RingDot(a, b, k)))
    decreases k
  {
    hide Add, HatMul, MulMod, CongSeq, Zero, Hat, Unhat, Scale;
    if k == 0 {
      UnhatZero();
      ScaleZero(128);
      CongSeqRefl(Zero());
    } else {
      var x, y := HatVec(a), HatVec(b);
      var p, q := HatDot(x, y, k - 1), HatMul(x[k - 1], y[k - 1]);
      var s, m := RingDot(a, b, k - 1), MulMod(a[k - 1], b[k - 1], -1);
      UnhatDot(a, b, k - 1);
      UnhatProduct(a[k - 1], b[k - 1]);
      UnhatAdd(p, q);
      AddCong(Unhat(p), Scale(128, s), Unhat(q), Scale(128, m));
      ScaleAdd(128, s, m);
    }
  }

  lemma ScaleZero(c: int)
    ensures Scale(c, Zero()) == Zero()
  {
  }

  /**
    The product theorem. x and y are congruent to the transforms of a and b, r is
    what the base multiplication returns and t its inverse transform.
  */
  lemma ProductTheorem(a: seq<Poly>, b: seq<Poly>, x: seq<Poly>, y: seq<Poly>, r: Poly, t: Poly)
    requires Vectors(a, b) && Vectors(x, y) && VecCong(x, HatVec(a)) && VecCong(y, HatVec(b))
    requires |r| == |t| == 256
    requires CongSeq(r, Scale(R_INV, HatDot(x, y, |x|))) && CongSeq(t, Scale(512, Unhat(r)))
    ensures CongSeq(t, RingDot(a, b, |a|))
  {
    hide CongSeq, Scale, Unhat, HatDot, RingDot, HatVec, Hat;
    var k := |a|;
    var d, e := HatDot(x, y, k), HatDot(HatVec(a), HatVec(b), k);
    HatDotCong(x, y, HatVec(a), HatVec(b), k);
    ScaleCong(R_INV, d, e);
    CongSeqTrans(r, Scale(R_INV, d), Scale(R_INV, e));
    UnhatCong(r, Scale(R_INV, e));
    UnhatScale(R_INV, e);
    UnhatDot(a, b, k);
    var s := RingDot(a, b, k);
    ScaleCong(R_INV, Unhat(e), Scale(128, s));
    CongSeqTrans(Unhat(r), Scale(R_INV, Unhat(e)), Scale(R_INV, Scale(128, s)));
    ScaleCong(512, Unhat(r), Scale(R_INV, Scale(128, s)));
    CongSeqTrans(t, Scale(512, Unhat(r)), Scale(512, Scale(R_INV, Scale(128, s))));
    ScaleScale(R_INV, 128, s);
    ScaleScale(512, R_INV * 128, s);
    CongIntro(512 * (R_INV * 128), 1, 3327);
    ScaleFactorCong(512 * (R_INV * 128), 1, s);
    ScaleOne(s);
    CongSeqTrans(t, Scale(512 * (R_INV * 128), s), s);
  }

  lemma UnhatCong(a: Poly, b: Poly)
    requires |a| == 256 && CongSeq(a, b)
    ensures CongSeq(Unhat(a), Unhat(b))
  {
    hide CongSeq, INtt;
    Pow2Values();
    INttCong(a, b, 1, 7);
  }

  lemma UnhatScale(c: int, a: Poly)
    requires |a| == 256
    ensures Unhat(Scale(c, a)) == Scale(c, Unhat(a))
  {
    hide INtt, Scale;
    Pow2Values();
    INttScale(a, c, 1, 7);
  }

  // ---------- Pointwise operations ----------

  /** Canonical representatives. */
  method PolyReduce(r: array<int16>)
    requires r.Length == 256
    modifies r
    ensures forall i :: 0 <= i < 256 ==> r[i] == old(r[i]) % Q
  {
    hide BarrettReduce, SignedToUnsigned;
    for i := 0 to 256
      invariant forall j :: i <= j < 256 ==> r[j] == old(r[j])
      invariant forall j :: 0 <= j < i ==> r[j] == old(r[j]) % Q
    {
      CanonicalReduce(r[i]);
      var t := BarrettReduce(r[i]);
      r[i] := SignedToUnsigned(t);
    }
  }

  /** Into the Montgomery domain. */
  method PolyToMont(r: array<int16>)
    requires r.Length == 256
    modifies r
    ensures AbsBound(r[..], Q)
    ensures CongSeq(r[..], Scale(0x1_0000, old(r[..])))
  {
    hide CongSeq, AbsBound, Scale;
    ghost var a := r[..];
    FqMulAll(r, 1353);
    CongIntro(1353 * R_INV, 0x1_0000, 49);
    ScaleFactorCong(1353 * R_INV, 0x1_0000, a);
    CongSeqTrans(r[..], Scale(1353 * R_INV, a), Scale(0x1_0000, a));
  }

  method PolyAdd(r: array<int16>, b: Coeffs)
    requires r.Length == 256 && forall i :: 0 <= i < 256 ==> -0x8000 <= r[i] + b[i] < 0x8000
    modifies r
    ensures r[..] == Add(old(r[..]), b)
  {
    for i := 0 to 256
      invariant forall j :: i <= j < 256 ==> r[j] == old(r[j])
      invariant forall j :: 0 <= j < i ==> r[j] == old(r[j]) + b[j]
    {
      r[i] := r[i] + b[i];
    }
  }

  function Sub(a: Poly, b: Poly): (r: Poly)
    requires |a| == |b|
    ensures |r| == |a|
  {
    seq(|a|, i requires 0 <= i < |a| => a[i] - b[i])
  }

  method PolySub(r: array<int16>, b: Coeffs)
    requires r.Length == 256 && forall i :: 0 <= i < 256 ==> -0x8000 <= r[i] - b[i] < 0x8000
    modifies r
    ensures r[..] == Sub(old(r[..]), b)
  {
    for i := 0 to 256
      invariant forall j :: i <= j < 256 ==> r[j] == old(r[j])
      invariant forall j :: 0 <= j < i ==> r[j] == old(r[j]) - b[j]
    {
      r[i] := r[i] - b[i];
    }
  }

  // ---------- Cached base multiplication ----------

  /** The cache holds the odd coefficients times the root of their pair. */
  ghost predicate Cached(x: Poly, b: Poly)
    requires |b| == 256
  {
    |x| == 128 && forall i :: 0 <= i < 128 ==> CachedAt(x, b, i)
  }

  ghost predicate CachedAt(x: Poly, b: Poly, i: nat)
    requires |b| == 256 && |x| == 128 && i < 128
  {
    Cong(x[i], PairRoot(i) * b[2 * i + 1])
  }

  method MulCacheCompute(x: array<int16>, a: Coeffs)
    requires x.Length == 128
    modifies x
    ensures Cached(x[..], a) && AbsBound(x[..], Q)
  {
    hide Zeta, Cong, FqMul;
    for i := 0 to 64
      invariant forall j :: 0 <= j < 2 * i ==> -Q < x[j] < Q && CachedAt(x[..], a, j)
    {
      ghost var was := x[..];
      Pow2Values();
      ZetaSmall(64 + i, 7);
      var zeta := Zeta(64 + i);
      FqMulRoot(a[4 * i + 1], zeta);
      FqMulRoot(a[4 * i + 3], -zeta);
      x[2 * i] := FqMul(a[4 * i + 1], zeta);
      x[2 * i + 1] := FqMul(a[4 * i + 3], -zeta);
      assert -zeta * R_INV == -(zeta * R_INV);
      CachedPair(x[..], was, a, i);
    }
  }

  lemma CachedPair(x: Poly, was: Poly, a: Poly, i: nat)
    requires |x| == |was| == 128 && |a| == 256 && i < 64 && x[..2 * i] == was[..2 * i]
    requires forall j :: 0 <= j < 2 * i ==> CachedAt(was, a, j)
    requires Cong(x[2 * i], Root(64 + i) * a[4 * i + 1]) && Cong(x[2 * i + 1], (-Root(64 + i)) * a[4 * i + 3])
    ensures forall j :: 0 <= j < 2 * i + 2 ==> CachedAt(x, a, j)
  {
    hide Root, Cong;
    forall j | 0 <= j < 2 * i + 2
      ensures CachedAt(x, a, j)
    {
      if j < 2 * i {
        assert CachedAt(was, a, j);
        assert x[j] == x[..2 * i][j] == was[j];
      }
    }
  }

  lemma AccumulateEven(t: int, d: int, a0: int, a1: int, b0: int, b1: int, c: int, z: int)
    requires Cong(t, d) && Cong(c, z * b1)
    ensures Cong(t + a1 * c + a0 * b0, d + (a0 * b0 + a1 * (z * b1)))
  {
    hide Cong;
    CongIntro(a1, a1, 0);
    CongIntro(a0 * b0, a0 * b0, 0);
    CongMul(a1, a1, c, z * b1);
    CongAdd(t, d, a1 * c, a1 * (z * b1));
    CongAdd(t + a1 * c, d + a1 * (z * b1), a0 * b0, a0 * b0);
  }

  lemma AccumulateOdd(t: int, d: int, x: int)
    requires Cong(t, d)
    ensures Cong(t + x, d + x)
  {
    CongIntro(x, x, 0);
    CongAdd(t, d, x, x);
  }

  /** One component of the scalar product, for the pair i. */
  lemma HatDotPair(a: seq<Poly>, b: seq<Poly>, k: nat, i: nat, t0: int, t1: int, c: int)
    requires Vectors(a, b) && k < |a| && i < 128
    requires Cong(t0, HatDot(a, b, k)[2 * i]) && Cong(t1, HatDot(a, b, k)[2 * i + 1])
    requires Cong(c, PairRoot(i) * b[k][2 * i + 1])
    ensures Cong(t0 + a[k][2 * i + 1] * c + a[k][2 * i] * b[k][2 * i], HatDot(a, b, k + 1)[2 * i])
    ensures Cong(t1 + a[k][2 * i] * b[k][2 * i + 1] + a[k][2 * i + 1] * b[k][2 * i], HatDot(a, b, k + 1)[2 * i + 1])
  {
    hide Cong, PairRoot, HatMul;
    var x, y, d := a[k], b[k], HatDot(a, b, k);
    HatMulPair(x, y, i);
    AccumulateEven(t0, d[2 * i], x[2 * i], x[2 * i + 1], y[2 * i], y[2 * i + 1], c, PairRoot(i));
    AccumulateOdd(t1, d[2 * i + 1], x[2 * i] * y[2 * i + 1] + x[2 * i + 1] * y[2 * i]);
  }

  /** The result so far: pairs before i are done. */
  ghost predicate PairsDone(r: Poly, d: Poly, i: nat)
    requires |r| == |d| == 256 && i <= 128
  {
    forall j :: 0 <= j < 2 * i ==> Cong(r[j], R_INV * d[j])
  }

  lemma PairsDoneStep(r: Poly, r': Poly, d: Poly, i: nat, t0: int, t1: int)
    requires |r| == |r'| == |d| == 256 && i < 128 && PairsDone(r, d, i) && r'[..2 * i] == r[..2 * i]
    requires Cong(t0, d[2 * i]) && Cong(t1, d[2 * i + 1])
    requires Cong(0x1_0000 * r'[2 * i], t0) && Cong(0x1_0000 * r'[2 * i + 1], t1)
    ensures PairsDone(r', d, i + 1)
  {
    hide Cong;
    CongTrans(0x1_0000 * r'[2 * i], t0, d[2 * i]);
    CongTrans(0x1_0000 * r'[2 * i + 1], t1, d[2 * i + 1]);
    CancelR(r'[2 * i], d[2 * i]);
    CancelR(r'[2 * i + 1], d[2 * i + 1]);
    forall j | 0 <= j < 2 * i
      ensures Cong(r'[j], R_INV * d[j])
    {
      assert r'[j] == r'[..2 * i][j] == r[..2 * i][j];
    }
  }

  lemma PairsAllDone(r: Poly, d: Poly)
    requires |r| == |d| == 256 && PairsDone(r, d, 128)
    ensures CongSeq(r, Scale(R_INV, d))
  {
    hide Cong;
  }

  lemma CachedEntry(x: Poly, b: Poly, i: nat)
    requires |b| == 256 && Cached(x, b) && i < 128
    ensures Cong(x[i], PairRoot(i) * b[2 * i + 1])
  {
    hide Cong, PairRoot;
    assert CachedAt(x, b, i);
  }

  predicate Uint12(s: seq<int>) {
    forall i :: 0 <= i < |s| ==> 0 <= s[i] < 4096
  }

  /** Multiply-accumulate with 32-bit accumulators and one reduction per coefficient. */
  method BaseMulAcc(r: array<int16>, a: seq<Coeffs>, b: seq<Coeffs>, cache: seq<seq<int16>>)
    requires r.Length == 256 && |a| == |b| == |cache| <= 4
    requires forall k :: 0 <= k < |a| ==> Uint12(a[k]) && Cached(cache[k], b[k])
    modifies r
    ensures Vectors(a, b) && CongSeq(r[..], Scale(R_INV, HatDot(a, b, |a|)))
  {
    hide Cong, MontgomeryReduce, HatDot, Scale, CongSeq, Cached, PairRoot, PairsDone;
    ghost var d := HatDot(a, b, |a|);
    PairsDoneStart(r[..], d);
    for i := 0 to 128
      invariant PairsDone(r[..], d, i)
    {
      var t0: int32, t1: int32 := 0, 0;
      ghost var was := r[..];
      HatDotZero(a, b, i);
      for k := 0 to |a|
        invariant r[..] == was
        invariant -k * 0x1000_0000 <= t0 <= k * 0x1000_0000 && -k * 0x1000_0000 <= t1 <= k * 0x1000_0000
        invariant Cong(t0, HatDot(a, b, k)[2 * i]) && Cong(t1, HatDot(a, b, k)[2 * i + 1])
      {
        CachedLength(cache[k], b[k]);
        var x0: int, x1: int, y0: int, y1: int, c: int := a[k][2 * i], a[k][2 * i + 1], b[k][2 * i], b[k][2 * i + 1],
          cache[k][i];
        CachedEntry(cache[k], b[k], i);
        HatDotPair(a, b, k, i, t0, t1, c);
        TermBounds(x0, x1, y0, y1, c);
        t0 := t0 + x1 * c;
        t0 := t0 + x0 * y0;
        t1 := t1 + x0 * y1;
        t1 := t1 + x1 * y0;
      }
      r[2 * i] := MontgomeryReduce(t0);
      r[2 * i + 1] := MontgomeryReduce(t1);
      PairsDoneStep(was, r[..], d, i, t0, t1);
    }
    PairsAllDone(r[..], d);
  }

  lemma PairsDoneStart(r: Poly, d: Poly)
    requires |r| == |d| == 256
    ensures PairsDone(r, d, 0)
  {
  }

  lemma HatDotZero(a: seq<Poly>, b: seq<Poly>, i: nat)
    requires Vectors(a, b) && i < 128
    ensures Cong(0, HatDot(a, b, 0)[2 * i]) && Cong(0, HatDot(a, b, 0)[2 * i + 1])
  {
  }

  lemma CachedLength(x: Poly, b: Poly)
    requires |b| == 256 && Cached(x, b)
    ensures |x| == 128
  {
    hide CachedAt;
  }

  lemma TermBounds(x0: int, x1: int, y0: int, y1: int, c: int)
    requires 0 <= x0 < 4096 && 0 <= x1 < 4096
    requires -0x8000 <= y0 < 0x8000 && -0x8000 <= y1 < 0x8000 && -0x8000 <= c < 0x8000
    ensures -0x800_0000 <= x1 * c <= 0x800_0000 && -0x800_0000 <= x0 * y0 <= 0x800_0000
    ensures -0x800_0000 <= x0 * y1 <= 0x800_0000 && -0x800_0000 <= x1 * y0 <= 0x800_0000
  {
    ProductBound(x1, c, 4096, 0x8000);
    ProductBound(x0, y0, 4096, 0x8000);
    ProductBound(x0, y1, 4096, 0x8000);
    ProductBound(x1, y0, 4096, 0x8000);
  }
}
