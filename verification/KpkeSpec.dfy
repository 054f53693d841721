/**
  K-PKE as functions on values (Algorithms 13 to 15 of FIPS 203), and the theorem
  that decryption returns the message exactly when the noise of every coefficient
  is small enough. Matrix entries and noise come from sampling functions that are
  parameters here.
*/
module KpkeSpec {
  import opened ModQ
  import opened Powers
  import opened Ring
  import opened NttSpec
  import opened PolyNtt
  import opened PolyVec
  import opened Compress
  import opened Packing
  import opened PolyCompress

  // ---------- Vectors ----------

  ghost predicate IsVec(a: seq<Poly>, k: nat) {
    |a| == k && forall i :: 0 <= i < k ==> |a[i]| == 256
  }

  ghost predicate IsMat(a: seq<seq<Poly>>, k: nat) {
    |a| == k && forall i :: 0 <= i < k ==> IsVec(a[i], k)
  }

  /** The canonical representative of every coefficient. */
  function Canon(a: Poly): (r: Poly)
    ensures |r| == |a| && forall i :: 0 <= i < |r| ==> 0 <= r[i] < Q && r[i] == a[i] % Q
  {
    seq(|a|, i requires 0 <= i < |a| => a[i] % Q)
  }

  lemma CanonCong(a: Poly)
    ensures CongSeq(Canon(a), a) && Canonical(Canon(a))
  {
    hide Cong;
    forall i | 0 <= i < |a|
      ensures Cong(a[i] % Q, a[i])
    {
      CongIntro(a[i] % Q, a[i], -(a[i] / Q));
    }
  }

  lemma CanonUnique(a: Poly, b: Poly)
    requires CongSeq(a, b)
    ensures Canon(a) == Canon(b)
  {
    forall i | 0 <= i < |a|
      ensures a[i] % Q == b[i] % Q
    {
      assert Cong(a[i], b[i]);
    }
  }

  /** The inverse transform proper: 3303 is the inverse of 128 modulo q. */
  ghost function Inv(a: Poly): (r: Poly)
    requires |a| == 256
    ensures |r| == 256
  {
    Scale(3303, Unhat(a))
  }

  lemma InvCong(a: Poly, b: Poly)
    requires |a| == |b| == 256 && CongSeq(a, b)
    ensures CongSeq(Inv(a), Inv(b))
  {
    hide Unhat, Scale, CongSeq;
    UnhatCong(a, b);
    ScaleCong(3303, Unhat(a), Unhat(b));
  }

  lemma InvAdd(a: Poly, b: Poly)
    requires |a| == |b| == 256
    ensures Inv(Add(a, b)) == Add(Inv(a), Inv(b))
  {
    hide Unhat, Scale, Add;
    UnhatAdd(a, b);
    ScaleAdd(3303, Unhat(a), Unhat(b));
  }

  lemma Scale128(a: Poly)
    ensures CongSeq(Scale(3303, Scale(128, a)), a)
  {
    hide Scale, CongSeq;
    ScaleScale(3303, 128, a);
    CongIntro(3303 * 128, 1, 127);
    ScaleFactorCong(3303 * 128, 1, a);
    ScaleOne(a);
  }

  lemma HatInv(a: Poly)
    requires |a| == 256
    ensures CongSeq(Hat(Inv(a)), a)
  {
    hide Unhat, Ntt, Scale, CongSeq;
    Pow2Values();
    NttScale(Unhat(a), 3303, 1, 7);
    HatUnhat(a);
    ScaleCong(3303, Hat(Unhat(a)), Scale(128, a));
    Scale128(a);
    CongSeqTrans(Hat(Inv(a)), Scale(3303, Scale(128, a)), a);
  }

  /** The inverse transform of a scalar product of transforms is the scalar product of the ring. */
  lemma InvDot(a: seq<Poly>, b: seq<Poly>)
    requires Vectors(a, b)
    ensures CongSeq(Inv(HatDot(HatVec(a), HatVec(b), |a|)), RingDot(a, b, |a|))
  {
    hide Unhat, Scale, CongSeq, HatDot, RingDot, HatVec, Hat;
    var d, s := HatDot(HatVec(a), HatVec(b), |a|), RingDot(a, b, |a|);
    UnhatDot(a, b, |a|);
    ScaleCong(3303, Unhat(d), Scale(128, s));
    Scale128(s);
    CongSeqTrans(Inv(d), Scale(3303, Scale(128, s)), s);
  }

  // ---------- Exchanging the sums of a bilinear form ----------

  /** s_j A_ij r_i. */
  ghost function Entry(a: seq<seq<Poly>>, s: seq<Poly>, r: seq<Poly>, k: nat, i: nat, j: nat): (p: Poly)
    requires IsMat(a, k) && IsVec(s, k) && IsVec(r, k) && i < k && j < k
    ensures |p| == 256
  {
    HatMul(HatMul(a[i][j], s[j]), r[i])
  }

  ghost function RowSum(a: seq<seq<Poly>>, s: seq<Poly>, r: seq<Poly>, k: nat, i: nat, m: nat): (p: Poly)
    requires IsMat(a, k) && IsVec(s, k) && IsVec(r, k) && i < k && m <= k
    ensures |p| == 256
  {
    if m == 0 then Zero() else Add(RowSum(a, s, r, k, i, m - 1), Entry(a, s, r, k, i, m - 1))
  }

  ghost function ColSum(a: seq<seq<Poly>>, s: seq<Poly>, r: seq<Poly>, k: nat, n: nat, j: nat): (p: Poly)
    requires IsMat(a, k) && IsVec(s, k) && IsVec(r, k) && n <= k && j < k
    ensures |p| == 256
  {
    if n == 0 then Zero() else Add(ColSum(a, s, r, k, n - 1, j), Entry(a, s, r, k, n - 1, j))
  }

  ghost function ByRows(a: seq<seq<Poly>>, s: seq<Poly>, r: seq<Poly>, k: nat, n: nat, m: nat): (p: Poly)
    requires IsMat(a, k) && IsVec(s, k) && IsVec(r, k) && n <= k && m <= k
    ensures |p| == 256
  {
    if n == 0 then Zero() else Add(ByRows(a, s, r, k, n - 1, m), RowSum(a, s, r, k, n - 1, m))
  }

  ghost function ByCols(a: seq<seq<Poly>>, s: seq<Poly>, r: seq<Poly>, k: nat, n: nat, m: nat): (p: Poly)
    requires IsMat(a, k) && IsVec(s, k) && IsVec(r, k) && n <= k && m <= k
    ensures |p| == 256
  {
    if m == 0 then Zero() else Add(ByCols(a, s, r, k, n, m - 1), ColSum(a, s, r, k, n, m - 1))
  }

  lemma AddZero(a: Poly)
    requires |a| == 256
    ensures Add(Zero(), a) == a && Add(a, Zero()) == a
  {
  }

  lemma AddSwap(a: Poly, b: Poly, c: Poly, d: Poly)
    requires |a| == |b| == |c| == |d|
    ensures Add(Add(a, b), Add(c, d)) == Add(Add(a, c), Add(b, d))
  {
  }

  lemma {:induction false} ByColsStep(a: seq<seq<Poly>>, s: seq<Poly>, r: seq<Poly>, k: nat, n: nat, m: nat)
    requires IsMat(a, k) && IsVec(s, k) && IsVec(r, k) && 1 <= n <= k && m <= k
    ensures ByCols(a, s, r, k, n, m) == Add(ByCols(a, s, r, k, n - 1, m), RowSum(a, s, r, k, n - 1, m))
    decreases m
  {
    hide Add, Zero, Entry;
    if m == 0 {
      AddZero(Zero());
    } else {
      ByColsStep(a, s, r, k, n, m - 1);
      AddSwap(ByCols(a, s, r, k, n - 1, m - 1), RowSum(a, s, r, k, n - 1, m - 1),
              ColSum(a, s, r, k, n - 1, m - 1), Entry(a, s, r, k, n - 1, m - 1));
    }
  }

  lemma {:induction false} ByColsEmpty(a: seq<seq<Poly>>, s: seq<Poly>, r: seq<Poly>, k: nat, m: nat)
    requires IsMat(a, k) && IsVec(s, k) && IsVec(r, k) && m <= k
    ensures ByCols(a, s, r, k, 0, m) == Zero()
    decreases m
  {
    hide Add, Zero, Entry;
    if m > 0 {
      ByColsEmpty(a, s, r, k, m - 1);
      AddZero(Zero());
    }
  }

  lemma {:induction false} SumsExchange(a: seq<seq<Poly>>, s: seq<Poly>, r: seq<Poly>, k: nat, n: nat, m: nat)
    requires IsMat(a, k) && IsVec(s, k) && IsVec(r, k) && n <= k && m <= k
    ensures ByRows(a, s, r, k, n, m) == ByCols(a, s, r, k, n, m)
    decreases n
  {
    hide Add, Zero, Entry, ByCols, RowSum;
    if n == 0 {
      ByColsEmpty(a, s, r, k, m);
    } else {
      SumsExchange(a, s, r, k, n - 1, m);
      ByColsStep(a, s, r, k, n, m);
    }
  }

  /** A matrix times a vector, transformed. */
  ghost function MatVec(a: seq<seq<Poly>>, x: seq<Poly>, k: nat): (y: seq<Poly>)
    requires IsMat(a, k) && IsVec(x, k)
    ensures IsVec(y, k) && forall i :: 0 <= i < k ==> Vectors(a[i], x) && y[i] == HatDot(a[i], x, k)
  {
    assert forall i :: 0 <= i < k ==> Vectors(a[i], x);
    seq(k, i requires 0 <= i < k => HatDot(a[i], x, k))
  }

  ghost function Transpose(a: seq<seq<Poly>>, k: nat): (t: seq<seq<Poly>>)
    requires IsMat(a, k)
    ensures IsMat(t, k) && forall i, j :: 0 <= i < k && 0 <= j < k ==> t[i][j] == a[j][i]
  {
    seq(k, i requires 0 <= i < k => seq(k, j requires 0 <= j < k => a[j][i]))
  }

  lemma HatMulCommutes(a: Poly, b: Poly)
    requires |a| == |b| == 256
    ensures HatMul(a, b) == HatMul(b, a)
  {
    hide Mul;
    Pow2Values();
    MulCommutes(a, b, -1, 1, 7);
  }

  lemma HatMulAssociates(a: Poly, b: Poly, c: Poly)
    requires |a| == |b| == |c| == 256
    ensures HatMul(HatMul(a, b), c) == HatMul(a, HatMul(b, c))
  {
    hide Mul;
    Pow2Values();
    MulAssociates(a, b, c, -1, 1, 7);
  }

  lemma HatMulDistributes(a: Poly, b: Poly, c: Poly)
    requires |a| == |b| == |c| == 256
    ensures HatMul(Add(a, b), c) == Add(HatMul(a, c), HatMul(b, c))
  {
    hide Mul, Add;
    Pow2Values();
    MulDistributes(a, b, c, -1, 1, 7);
  }

  lemma HatMulZero(a: Poly)
    requires |a| == 256
    ensures HatMul(Zero(), a) == Zero()
  {
    hide HatMul;
    AddZero(Zero());
    HatMulDistributes(Zero(), Zero(), a);
    var p := HatMul(Zero(), a);
    assert p == Add(p, p);
    forall i | 0 <= i < 256
      ensures p[i] == 0
    {
      assert Add(p, p)[i] == p[i] + p[i];
    }
  }

  lemma {:induction false} DotTimes(a: seq<seq<Poly>>, s: seq<Poly>, r: seq<Poly>, k: nat, i: nat, m: nat)
    requires IsMat(a, k) && IsVec(s, k) && IsVec(r, k) && i < k && m <= k && Vectors(a[i], s)
    ensures HatMul(HatDot(a[i], s, m), r[i]) == RowSum(a, s, r, k, i, m)
    decreases m
  {
    hide Add, Zero, HatMul;
    if m == 0 {
      HatMulZero(r[i]);
    } else {
      DotTimes(a, s, r, k, i, m - 1);
      HatMulDistributes(HatDot(a[i], s, m - 1), HatMul(a[i][m - 1], s[m - 1]), r[i]);
    }
  }

  lemma {:induction false} DotOfRows(a: seq<seq<Poly>>, s: seq<Poly>, r: seq<Poly>, k: nat, n: nat, y: seq<Poly>)
    requires IsMat(a, k) && IsVec(s, k) && IsVec(r, k) && n <= k && y == MatVec(a, s, k) && Vectors(y, r)
    ensures HatDot(y, r, n) == ByRows(a, s, r, k, n, k)
    decreases n
  {
    hide Add, Zero, HatMul, RowSum;
    if n > 0 {
      DotOfRows(a, s, r, k, n - 1, y);
      DotTimes(a, s, r, k, n - 1, k);
    }
  }

  lemma {:induction false} TimesDot(a: seq<seq<Poly>>, s: seq<Poly>, r: seq<Poly>, k: nat, j: nat, n: nat,
                                    col: seq<Poly>)
    requires IsMat(a, k) && IsVec(s, k) && IsVec(r, k) && j < k && n <= k && col == Transpose(a, k)[j]
             && Vectors(col, r)
    ensures HatMul(s[j], HatDot(col, r, n)) == ColSum(a, s, r, k, n, j)
    decreases n
  {
    hide Add, Zero, HatMul;
    HatMulCommutes(s[j], HatDot(col, r, n));
    if n == 0 {
      HatMulZero(s[j]);
    } else {
      TimesDot(a, s, r, k, j, n - 1, col);
      var d, x := HatDot(col, r, n - 1), a[n - 1][j];
      HatMulCommutes(s[j], d);
      HatMulDistributes(d, HatMul(x, r[n - 1]), s[j]);
      HatMulCommutes(HatMul(x, r[n - 1]), s[j]);
      HatMulAssociates(s[j], x, r[n - 1]);
      HatMulCommutes(s[j], x);
    }
  }

  lemma {:induction false} DotOfCols(a: seq<seq<Poly>>, s: seq<Poly>, r: seq<Poly>, k: nat, m: nat, y: seq<Poly>)
    requires IsMat(a, k) && IsVec(s, k) && IsVec(r, k) && m <= k && y == MatVec(Transpose(a, k), r, k) && Vectors(s, y)
    ensures HatDot(s, y, m) == ByCols(a, s, r, k, k, m)
    decreases m
  {
    hide Add, Zero, HatMul, ColSum;
    if m > 0 {
      DotOfCols(a, s, r, k, m - 1, y);
      TimesDot(a, s, r, k, m - 1, k, Transpose(a, k)[m - 1]);
    }
  }

  /** (A s) . r == s . (A^T r). */
  lemma BilinearForm(a: seq<seq<Poly>>, s: seq<Poly>, r: seq<Poly>, k: nat)
    requires IsMat(a, k) && IsVec(s, k) && IsVec(r, k)
    ensures Vectors(MatVec(a, s, k), r) && Vectors(s, MatVec(Transpose(a, k), r, k))
    ensures HatDot(MatVec(a, s, k), r, k) == HatDot(s, MatVec(Transpose(a, k), r, k), k)
  {
    hide HatDot, ByRows, ByCols;
    DotOfRows(a, s, r, k, k, MatVec(a, s, k));
    DotOfCols(a, s, r, k, k, MatVec(Transpose(a, k), r, k));
    SumsExchange(a, s, r, k, k, k);
  }

  // ---------- Parameter sets and serialised vectors ----------

  predicate Rank(k: nat) { 2 <= k <= 4 }

  function Du(k: nat): (d: nat)
    requires Rank(k)
    ensures Width(d)
  {
    if k == 4 then 11 else 10
  }

  function Dv(k: nat): (d: nat)
    requires Rank(k)
    ensures Width(d)
  {
    if k == 4 then 5 else 4
  }

  /** k polynomials of 32 d bytes. */
  function VecBytes(d: nat, k: nat): nat {
    if k == 0 then 0 else 32 * d + VecBytes(d, k - 1)
  }

  ghost predicate DigitVec(v: seq<Poly>, d: nat)
    requires PackWidth(d)
  {
    forall i :: 0 <= i < |v| ==> |v[i]| == 256 && Digits(v[i], Base(d))
  }

  lemma EncodeLength(t: Poly, d: nat)
    requires PackWidth(d) && |t| == 256 && Digits(t, Base(d))
    ensures |t| % GroupValues(d) == 0 && |Encode(t, d)| == 32 * d && Digits(Encode(t, d), 256)
  {
    hide Encode, Base, GroupValues, GroupBytes;
    EncodeKeeps(t, d);
  }

  ghost function EncodeVec(v: seq<Poly>, d: nat): (b: seq<int>)
    requires PackWidth(d) && DigitVec(v, d)
    ensures |b| == VecBytes(d, |v|) && Digits(b, 256)
  {
    if v == [] then []
    else
      EncodeLength(v[0], d);
      Encode(v[0], d) + EncodeVec(v[1..], d)
  }

  ghost function DecodeVec(b: seq<int>, d: nat, k: nat): (v: seq<Poly>)
    requires PackWidth(d) && |b| == VecBytes(d, k) && Digits(b, 256)
    ensures |v| == k && DigitVec(v, d)
  {
    if k == 0 then []
    else
      DecodeLength(b[..32 * d], d);
      [Decode(b[..32 * d], d)] + DecodeVec(b[32 * d..], d, k - 1)
  }

  lemma {:induction false} DecodeEncodeVec(v: seq<Poly>, d: nat)
    requires PackWidth(d) && DigitVec(v, d)
    ensures DecodeVec(EncodeVec(v, d), d, |v|) == v
    decreases |v|
  {
    hide Encode, Decode, Digits, Base, GroupValues, GroupBytes;
    if v != [] {
      EncodeLength(v[0], d);
      DecodeEncode(v[0], d);
      DecodeEncodeVec(v[1..], d);
      var b, x := EncodeVec(v, d), Encode(v[0], d);
      assert b[..32 * d] == x && b[32 * d..] == EncodeVec(v[1..], d);
      assert v == [v[0]] + v[1..];
    }
  }

  lemma DecodeByte(m: seq<int>)
    requires |m| == 32 && Digits(m, 256)
    ensures |Decode(m, 1)| == 256 && Digits(Decode(m, 1), Range(1)) && Digits(Decode(m, 1), Base(1))
  {
    hide Decode;
    DecodeLength(m, 1);
  }

  /** The polynomial of a message: 0 or (q + 1) / 2 per bit. */
  ghost function MessagePoly(m: seq<int>): (p: Poly)
    requires |m| == 32 && Digits(m, 256)
    ensures |p| == 256 && Canonical(p)
  {
    DecodeByte(m);
    Decompressed(Decode(m, 1), 1)
  }

  // ---------- Key generation, encryption and decryption ----------

  /** What key generation samples: the public seed, its matrix, s and e. */
  datatype KeyRandomness = KeyRandomness(rho: seq<int>, a: seq<seq<Poly>>, s: seq<Poly>, e: seq<Poly>)

  /** What encryption samples. */
  datatype Coins = Coins(r: seq<Poly>, e1: seq<Poly>, e2: Poly)

  ghost predicate SmallVec(v: seq<Poly>, k: nat, bound: int) {
    IsVec(v, k) && forall i :: 0 <= i < k ==> AbsBound(v[i], bound)
  }

  ghost predicate KeyOk(x: KeyRandomness, k: nat) {
    |x.rho| == 32 && Digits(x.rho, 256) && IsMat(x.a, k) && SmallVec(x.s, k, 4) && SmallVec(x.e, k, 4)
  }

  ghost predicate CoinsOk(y: Coins, k: nat) {
    SmallVec(y.r, k, 4) && SmallVec(y.e1, k, 3) && |y.e2| == 256 && AbsBound(y.e2, 3)
  }

  ghost function CanonVec(v: seq<Poly>): (r: seq<Poly>)
    ensures |r| == |v| && forall i :: 0 <= i < |v| ==> r[i] == Canon(v[i])
  {
    seq(|v|, i requires 0 <= i < |v| => Canon(v[i]))
  }

  ghost function AddVec(v: seq<Poly>, w: seq<Poly>, k: nat): (r: seq<Poly>)
    requires IsVec(v, k) && IsVec(w, k)
    ensures IsVec(r, k) && forall i :: 0 <= i < k ==> r[i] == Add(v[i], w[i])
  {
    seq(k, i requires 0 <= i < k => Add(v[i], w[i]))
  }

  ghost function InvVec(v: seq<Poly>, k: nat): (r: seq<Poly>)
    requires IsVec(v, k)
    ensures IsVec(r, k) && forall i :: 0 <= i < k ==> r[i] == Inv(v[i])
  {
    seq(k, i requires 0 <= i < k => Inv(v[i]))
  }

  /** t = A s + e, transformed. */
  ghost function KeyT(x: KeyRandomness, k: nat): (v: seq<Poly>)
    requires KeyOk(x, k)
    ensures IsVec(v, k)
  {
    hide MatVec, HatVec, Hat, AddVec, AbsBound;
    AddVec(MatVec(x.a, HatVec(x.s), k), HatVec(x.e), k)
  }

  lemma CanonDigits(v: seq<Poly>, k: nat)
    requires IsVec(v, k)
    ensures DigitVec(CanonVec(v), 12)
  {
  }

  ghost function PublicKey(x: KeyRandomness, k: nat): (pk: seq<int>)
    requires KeyOk(x, k)
    ensures |pk| == VecBytes(12, k) + 32 && Digits(pk, 256)
  {
    hide KeyT, EncodeVec, CanonVec, IsMat, SmallVec, Digits, DigitVec, VecBytes, Canon;
    var t := KeyT(x, k);
    CanonDigits(t, k);
    DigitsConcat(EncodeVec(CanonVec(t), 12), x.rho, 256);
    EncodeVec(CanonVec(t), 12) + x.rho
  }

  ghost function SecretKey(x: KeyRandomness, k: nat): (sk: seq<int>)
    requires KeyOk(x, k)
    ensures |sk| == VecBytes(12, k) && Digits(sk, 256)
  {
    hide HatVec, EncodeVec, CanonVec, IsMat, Hat;
    var s := HatVec(x.s);
    CanonDigits(s, k);
    EncodeVec(CanonVec(s), 12)
  }

  ghost predicate CanonicalVec(v: seq<Poly>, k: nat) {
    IsVec(v, k) && forall i :: 0 <= i < k ==> Canonical(v[i])
  }

  /** u = A^T r + e1. */
  ghost function CipherU(a: seq<seq<Poly>>, y: Coins, k: nat): (v: seq<Poly>)
    requires IsMat(a, k) && CoinsOk(y, k)
    ensures CanonicalVec(v, k)
  {
    hide Canon, CanonVec, AddVec, InvVec, MatVec, Transpose, HatVec, Hat, HatDot, Inv, Add, AbsBound;
    CanonVec(AddVec(InvVec(MatVec(Transpose(a, k), HatVec(y.r), k), k), y.e1, k))
  }

  /** v = t r + e2 + message. */
  ghost function CipherV(t: seq<Poly>, y: Coins, m: seq<int>, k: nat): (v: Poly)
    requires IsVec(t, k) && CoinsOk(y, k) && |m| == 32 && Digits(m, 256)
    ensures |v| == 256 && Canonical(v)
  {
    hide Canon, HatVec, Hat, HatDot, Inv, Add, AbsBound, MessagePoly, Digits;
    Canon(Add(Add(Inv(HatDot(t, HatVec(y.r), k)), y.e2), MessagePoly(m)))
  }

  ghost function CompressedVec(v: seq<Poly>, d: nat): (r: seq<Poly>)
    requires Width(d) && CanonicalVec(v, |v|)
    ensures |r| == |v| && PackWidth(d) && DigitVec(r, d) && forall i :: 0 <= i < |v| ==> r[i] == Compressed(v[i], d)
  {
    WidthRange(d);
    seq(|v|, i requires 0 <= i < |v| => Compressed(v[i], d))
  }

  lemma WidthsPack(k: nat)
    requires Rank(k)
    ensures PackWidth(Du(k)) && PackWidth(Dv(k)) && Base(Du(k)) == Range(Du(k)) && Base(Dv(k)) == Range(Dv(k))
  {
  }

  ghost function Ciphertext(u: seq<Poly>, v: Poly, k: nat): (c: seq<int>)
    requires Rank(k) && |v| == 256 && Canonical(v) && CanonicalVec(u, k)
    ensures |c| == VecBytes(Du(k), k) + 32 * Dv(k) && Digits(c, 256)
  {
    WidthsPack(k);
    EncodeLength(Compressed(v, Dv(k)), Dv(k));
    EncodeVec(CompressedVec(u, Du(k)), Du(k)) + Encode(Compressed(v, Dv(k)), Dv(k))
  }

  lemma TwelveBits()
    ensures PackWidth(12)
  {
  }

  lemma DigitsPrefix(b: seq<int>, n: nat, base: int)
    requires Digits(b, base) && n <= |b|
    ensures Digits(b[..n], base) && Digits(b[n..], base)
  {
  }

  lemma DigitVecIsVec(v: seq<Poly>, d: nat)
    requires PackWidth(d) && DigitVec(v, d)
    ensures IsVec(v, |v|)
  {
  }

  /** v for a serialised public key. */
  ghost function KeyV(y: Coins, k: nat, m: seq<int>, pk: seq<int>): (v: Poly)
    requires CoinsOk(y, k) && |m| == 32 && Digits(m, 256)
    requires |pk| == VecBytes(12, k) + 32 && Digits(pk, 256)
    ensures |v| == 256 && Canonical(v)
  {
    hide *;
    DigitsPrefix(pk, VecBytes(12, k), 256);
    TwelveBits();
    var t := DecodeVec(pk[..VecBytes(12, k)], 12, k);
    DigitVecIsVec(t, 12);
    CipherV(t, y, m, k)
  }

  ghost function Encrypt(a: seq<seq<Poly>>, y: Coins, k: nat, m: seq<int>, pk: seq<int>): (c: seq<int>)
    requires Rank(k) && IsMat(a, k) && CoinsOk(y, k) && |m| == 32 && Digits(m, 256)
    requires |pk| == VecBytes(12, k) + 32 && Digits(pk, 256)
  {
    hide *;
    Ciphertext(CipherU(a, y, k), KeyV(y, k, m, pk), k)
  }

  lemma EncryptBytes(a: seq<seq<Poly>>, y: Coins, k: nat, m: seq<int>, pk: seq<int>)
    requires Rank(k) && IsMat(a, k) && CoinsOk(y, k) && |m| == 32 && Digits(m, 256)
    requires |pk| == VecBytes(12, k) + 32 && Digits(pk, 256)
    ensures |Encrypt(a, y, k, m, pk)| == VecBytes(Du(k), k) + 32 * Dv(k) && Digits(Encrypt(a, y, k, m, pk), 256)
  {
    hide CipherU, KeyV, Ciphertext, IsMat, CoinsOk, Digits, VecBytes, Du, Dv;
  }

  ghost function DecompressedVec(t: seq<Poly>, d: nat): (r: seq<Poly>)
    requires Width(d) && PackWidth(d) && DigitVec(t, d)
    ensures IsVec(r, |t|) && forall i :: 0 <= i < |t| ==> Digits(t[i], Range(d)) && r[i] == Decompressed(t[i], d)
  {
    WidthRange(d);
    seq(|t|, i requires 0 <= i < |t| => Decompressed(t[i], d))
  }

  /** v - s u, transformed back. */
  ghost function Plain(s: seq<Poly>, u: seq<Poly>, v: Poly, k: nat): (w: Poly)
    requires IsVec(s, k) && IsVec(u, k) && |v| == 256
    ensures |w| == 256 && Canonical(w)
  {
    Canon(Sub(v, Inv(HatDot(s, HatVec(u), k))))
  }

  ghost function MessageOf(w: Poly): (m: seq<int>)
    requires |w| == 256 && Canonical(w)
    ensures |m| == 32 && Digits(m, 256)
  {
    EncodeLength(Compressed(w, 1), 1);
    Encode(Compressed(w, 1), 1)
  }

  lemma DecodeDv(b: seq<int>, k: nat)
    requires Rank(k) && |b| == 32 * Dv(k) && Digits(b, 256)
    ensures PackWidth(Dv(k)) && |b| % GroupBytes(Dv(k)) == 0
    ensures |Decode(b, Dv(k))| == 256 && Digits(Decode(b, Dv(k)), Range(Dv(k)))
  {
    hide Decode;
    WidthsPack(k);
    DecodeLength(b, Dv(k));
  }

  ghost function Decrypt(k: nat, sk: seq<int>, c: seq<int>): (m: seq<int>)
    requires Rank(k) && |sk| == VecBytes(12, k) && Digits(sk, 256)
    requires |c| == VecBytes(Du(k), k) + 32 * Dv(k) && Digits(c, 256)
    ensures |m| == 32 && Digits(m, 256)
  {
    WidthsPack(k);
    var n := VecBytes(Du(k), k);
    DecodeDv(c[n..], k);
    var u := DecompressedVec(DecodeVec(c[..n], Du(k), k), Du(k));
    MessageOf(Plain(DecodeVec(sk, 12, k), u, Decompressed(Decode(c[n..], Dv(k)), Dv(k)), k))
  }
}
