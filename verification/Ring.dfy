/**
  Polynomial products. `MulMod(a, b, c)` is the product of a and b in
  Z[X]/(X^n - c), n = |a|. With n = 256 and c = -1 it is the product of the ring
  Z[X]/(X^256 + 1) in which ML-KEM works (section 2.4.4 of FIPS 203).
*/
module Ring {
  import opened ModQ

  type Poly = seq<int>

  /** The first i terms of coefficient k of the product. */
  function Coef(a: Poly, b: Poly, c: int, k: nat, i: nat): int
    requires |a| == |b| && k < |a| && i <= |a|
  {
    if i == 0 then 0 else Coef(a, b, c, k, i - 1) + Term(a, b, c, k, i - 1)
  }

  /** The contribution of coefficient j of a to coefficient k of the product. */
  function Term(a: Poly, b: Poly, c: int, k: nat, j: nat): int
    requires |a| == |b| && k < |a| && j < |a|
  {
    a[j] * (if j <= k then b[k - j] else c * b[|b| + k - j])
  }

  function MulMod(a: Poly, b: Poly, c: int): (r: Poly)
    requires |a| == |b|
    ensures |r| == |a|
  {
    seq(|a|, k requires 0 <= k < |a| => Coef(a, b, c, k, |a|))
  }

  function Add(a: Poly, b: Poly): (r: Poly)
    requires |a| == |b|
    ensures |r| == |a|
  {
    seq(|a|, i requires 0 <= i < |a| => a[i] + b[i])
  }

  function Scale(c: int, a: Poly): (r: Poly)
    ensures |r| == |a|
  {
    seq(|a|, i requires 0 <= i < |a| => c * a[i])
  }

  /** The remainder of a, of length 2n, modulo X^n - z. */
  function Fold(a: Poly, z: int): (r: Poly)
    requires |a| % 2 == 0
    ensures |r| == |a| / 2
  {
    seq(|a| / 2, i requires 0 <= i < |a| / 2 => a[i] + z * a[i + |a| / 2])
  }

  // ---------- Splitting X^2n - z^2 into X^n - z and X^n + z ----------

  lemma TermBelow(x: int, y: int, p: int, q: int, z: int)
    ensures (x + z * y) * (p + z * q) == x * p + z * (x * q) + (y * ((z * z) * q) + z * (y * p))
  {
  }

  lemma TermAbove(x: int, y: int, p: int, q: int, z: int)
    ensures (x + z * y) * (z * (p + z * q))
            == x * ((z * z) * q) + z * (x * p) + (y * ((z * z) * p) + z * (y * ((z * z) * q)))
  {
  }

  lemma TermSplit(a: Poly, b: Poly, z: int, k: nat, j: nat)
    requires |a| == |b| && |a| % 2 == 0 && k < |a| / 2 && j < |a| / 2
    ensures var n, w := |a| / 2, z * z;
            Term(Fold(a, z), Fold(b, z), z, k, j)
            == Term(a, b, w, k, j) + z * Term(a, b, w, k + n, j)
              + (Term(a, b, w, k, n + j) + z * Term(a, b, w, k + n, n + j))
  {
    var n := |a| / 2;
    if j <= k {
      TermBelow(a[j], a[j + n], b[k - j], b[k - j + n], z);
    } else {
      TermAbove(a[j], a[j + n], b[k + n - j], b[k + n - j + n], z);
    }
  }

  lemma Distribute(z: int, u: int, v: int)
    ensures z * (u + v) == z * u + z * v
    ensures z * (u - v) == z * u - z * v
  {
  }

  /** Coefficient k of the folded product, term by term. */
  lemma {:induction false} FoldCoef(a: Poly, b: Poly, z: int, k: nat, i: nat)
    requires |a| == |b| && |a| % 2 == 0 && k < |a| / 2 && i <= |a| / 2
    ensures var n, w := |a| / 2, z * z;
            Coef(Fold(a, z), Fold(b, z), z, k, i)
            == Coef(a, b, w, k, i) + z * Coef(a, b, w, k + n, i)
             + (Coef(a, b, w, k, n + i) - Coef(a, b, w, k, n))
             + (z * Coef(a, b, w, k + n, n + i) - z * Coef(a, b, w, k + n, n))
    decreases i
  {
    hide Fold, Term;
    if i > 0 {
      var n, w := |a| / 2, z * z;
      FoldCoef(a, b, z, k, i - 1);
      TermSplit(a, b, z, k, i - 1);
      Distribute(z, Coef(a, b, w, k + n, i - 1), Term(a, b, w, k + n, i - 1));
      Distribute(z, Coef(a, b, w, k + n, n + i - 1), Term(a, b, w, k + n, n + i - 1));
    }
  }

  /** Reducing modulo X^n - z commutes with the product modulo X^2n - z^2. */
  lemma FoldProduct(a: Poly, b: Poly, z: int)
    requires |a| == |b| && |a| % 2 == 0
    ensures Fold(MulMod(a, b, z * z), z) == MulMod(Fold(a, z), Fold(b, z), z)
  {
    hide Coef;
    var n := |a| / 2;
    forall k | 0 <= k < n
      ensures Fold(MulMod(a, b, z * z), z)[k] == MulMod(Fold(a, z), Fold(b, z), z)[k]
    {
      FoldCoef(a, b, z, k, n);
    }
  }

  // ---------- Congruence ----------

  lemma {:induction false} CoefCong(a: Poly, b: Poly, c: int, a': Poly, b': Poly, c': int, k: nat, i: nat)
    requires |a| == |b| && k < |a| && i <= |a| && CongSeq(a, a') && CongSeq(b, b') && Cong(c, c')
    ensures Cong(Coef(a, b, c, k, i), Coef(a', b', c', k, i))
    decreases i
  {
    hide Cong;
    if i > 0 {
      var j := i - 1;
      CoefCong(a, b, c, a', b', c', k, j);
      if j > k {
        CongMul(c, c', b[|b| + k - j], b'[|b| + k - j]);
      }
      var t := if j <= k then b[k - j] else c * b[|b| + k - j];
      var t' := if j <= k then b'[k - j] else c' * b'[|b| + k - j];
      CongMul(a[j], a'[j], t, t');
      CongAdd(Coef(a, b, c, k, j), Coef(a', b', c', k, j), a[j] * t, a'[j] * t');
    } else {
      CongIntro(0, 0, 0);
    }
  }

  lemma MulModCong(a: Poly, b: Poly, c: int, a': Poly, b': Poly, c': int)
    requires |a| == |b| && CongSeq(a, a') && CongSeq(b, b') && Cong(c, c')
    ensures CongSeq(MulMod(a, b, c), MulMod(a', b', c'))
  {
    hide Coef, Cong;
    forall k | 0 <= k < |a|
      ensures Cong(MulMod(a, b, c)[k], MulMod(a', b', c')[k])
    {
      CoefCong(a, b, c, a', b', c', k, |a|);
    }
  }

  lemma FoldCong(a: Poly, a': Poly, z: int, z': int)
    requires CongSeq(a, a') && Cong(z, z') && |a| % 2 == 0
    ensures CongSeq(Fold(a, z), Fold(a', z'))
  {
    hide Cong;
    forall i | 0 <= i < |a| / 2
      ensures Cong(Fold(a, z)[i], Fold(a', z')[i])
    {
      var n := |a| / 2;
      CongMul(z, z', a[i + n], a'[i + n]);
      CongAdd(a[i], a'[i], z * a[i + n], z' * a'[i + n]);
    }
  }

  /** The same with a root z of c modulo q. */
  lemma FoldProductCong(a: Poly, b: Poly, c: int, z: int)
    requires |a| == |b| && |a| % 2 == 0 && Cong(z * z, c)
    ensures CongSeq(Fold(MulMod(a, b, c), z), MulMod(Fold(a, z), Fold(b, z), z))
  {
    hide Coef, MulMod, Fold;
    CongSeqRefl(a);
    CongSeqRefl(b);
    CongSym(z * z, c);
    MulModCong(a, b, c, a, b, z * z);
    CongIntro(z, z, 0);
    FoldCong(MulMod(a, b, c), MulMod(a, b, z * z), z, z);
    FoldProduct(a, b, z);
  }

  lemma CongSeqRefl(a: Poly)
    ensures CongSeq(a, a)
  {
  }
}
