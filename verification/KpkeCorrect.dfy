/**
  Decryption returns the message exactly when the noise of every coefficient fits
  (Algorithms 13 to 15 of FIPS 203): with s, e, r, e1 and e2 the sampled polynomials
  and c_u and c_v the compression errors, the noise is
  e.r + e2 + c_v - s.(e1 + c_u) in Z_q[X]/(X^256 + 1).
*/
module KpkeCorrect {
  import opened ModQ
  import opened Powers
  import opened Ring
  import opened NttSpec
  import opened PolyNtt
  import opened PolyVec
  import opened Compress
  import opened Packing
  import opened PolyCompress
  import opened KpkeSpec

  // ---------- Linearity of scalar products ----------

  lemma {:induction false} HatDotAddLeft(a: seq<Poly>, b: seq<Poly>, c: seq<Poly>, k: nat, n: nat)
    requires IsVec(a, k) && IsVec(b, k) && IsVec(c, k) && n <= k
    ensures HatDot(AddVec(a, b, k), c, n) == Add(HatDot(a, c, n), HatDot(b, c, n))
    decreases n
  {
    hide Add, HatMul, Zero;
    if n == 0 {
      AddZero(Zero());
    } else {
      HatDotAddLeft(a, b, c, k, n - 1);
      HatMulDistributes(a[n - 1], b[n - 1], c[n - 1]);
      AddSwap(HatDot(a, c, n - 1), HatDot(b, c, n - 1), HatMul(a[n - 1], c[n - 1]), HatMul(b[n - 1], c[n - 1]));
    }
  }

  lemma {:induction false} HatDotCommutes(a: seq<Poly>, b: seq<Poly>, k: nat, n: nat)
    requires IsVec(a, k) && IsVec(b, k) && n <= k
    ensures HatDot(a, b, n) == HatDot(b, a, n)
    decreases n
  {
    hide Add, HatMul, Zero;
    if n > 0 {
      HatDotCommutes(a, b, k, n - 1);
      HatMulCommutes(a[n - 1], b[n - 1]);
    }
  }

  lemma HatDotAddRight(a: seq<Poly>, b: seq<Poly>, c: seq<Poly>, k: nat)
    requires IsVec(a, k) && IsVec(b, k) && IsVec(c, k)
    ensures HatDot(a, AddVec(b, c, k), k) == Add(HatDot(a, b, k), HatDot(a, c, k))
  {
    hide Add, HatDot, AddVec;
    HatDotCommutes(a, AddVec(b, c, k), k, k);
    HatDotAddLeft(b, c, a, k, k);
    HatDotCommutes(b, a, k, k);
    HatDotCommutes(c, a, k, k);
  }

  lemma CanonVecCong(v: seq<Poly>)
    ensures VecCong(CanonVec(v), v)
  {
    hide CongSeq, Canon;
    forall i | 0 <= i < |v|
      ensures CongSeq(Canon(v[i]), v[i])
    {
      CanonCong(v[i]);
    }
  }

  lemma VecCongRefl(v: seq<Poly>)
    ensures VecCong(v, v)
  {
    hide CongSeq;
    forall i | 0 <= i < |v|
      ensures CongSeq(v[i], v[i])
    {
      CongSeqRefl(v[i]);
    }
  }

  // ---------- The two halves of a decryption ----------

  /** t.r is (A s).r plus e.r; p stands for A s, rh for the transform of r. */
  lemma EncryptedProduct(t: seq<Poly>, p: seq<Poly>, e: seq<Poly>, r: seq<Poly>, rh: seq<Poly>, k: nat)
    requires IsVec(t, k) && IsVec(p, k) && IsVec(e, k) && IsVec(r, k) && IsVec(rh, k)
    requires rh == HatVec(r) && VecCong(t, AddVec(p, HatVec(e), k))
    ensures CongSeq(Inv(HatDot(t, rh, k)), Add(Inv(HatDot(p, rh, k)), RingDot(e, r, k)))
  {
    hide Add, HatDot, Inv, RingDot, CongSeq, Hat, HatVec, AddVec, VecCong;
    var eh := HatVec(e);
    var sum := AddVec(p, eh, k);
    VecCongRefl(rh);
    HatDotCong(t, rh, sum, rh, k);
    InvCong(HatDot(t, rh, k), HatDot(sum, rh, k));
    HatDotAddLeft(p, eh, rh, k, k);
    InvAdd(HatDot(p, rh, k), HatDot(eh, rh, k));
    InvDot(e, r);
    var ip := Inv(HatDot(p, rh, k));
    CongSeqRefl(ip);
    AddCong(ip, ip, Inv(HatDot(eh, rh, k)), RingDot(e, r, k));
    CongSeqTrans(Inv(HatDot(t, rh, k)), Add(ip, Inv(HatDot(eh, rh, k))), Add(ip, RingDot(e, r, k)));
  }

  /** The transform of a received component: A^T r, plus the transform of its error f. */
  lemma HatReceived(u: Poly, p: Poly, f: Poly)
    requires |u| == |p| == |f| == 256 && CongSeq(u, Add(Inv(p), f))
    ensures CongSeq(Hat(u), Add(p, Hat(f)))
  {
    hide Add, Inv, CongSeq, Ntt;
    Pow2Values();
    NttCong(u, Add(Inv(p), f), 1, 7);
    NttAdd(Inv(p), f, 1, 7);
    HatInv(p);
    CongSeqRefl(Hat(f));
    AddCong(Hat(Inv(p)), p, Hat(f), Hat(f));
    CongSeqTrans(Hat(u), Add(Hat(Inv(p)), Hat(f)), Add(p, Hat(f)));
  }

  ghost predicate Received(u: seq<Poly>, p: seq<Poly>, f: seq<Poly>, k: nat) {
    IsVec(u, k) && IsVec(p, k) && IsVec(f, k) && forall i :: 0 <= i < k ==> CongSeq(u[i], Add(Inv(p[i]), f[i]))
  }

  /** s.u is s.(A^T r) plus s.f; sh stands for the transform of s and sc for its canonical form. */
  lemma DecryptedProduct(s: seq<Poly>, sh: seq<Poly>, sc: seq<Poly>, u: seq<Poly>, uh: seq<Poly>, p: seq<Poly>,
                         f: seq<Poly>, k: nat)
    requires IsVec(s, k) && IsVec(sh, k) && IsVec(sc, k) && IsVec(u, k) && IsVec(uh, k) && IsVec(p, k) && IsVec(f, k)
    requires sh == HatVec(s) && VecCong(sc, sh) && uh == HatVec(u) && Received(u, p, f, k)
    ensures CongSeq(Inv(HatDot(sc, uh, k)), Add(Inv(HatDot(sh, p, k)), RingDot(s, f, k)))
  {
    hide Add, HatDot, Inv, RingDot, CongSeq, Hat, HatVec, AddVec;
    var fh := HatVec(f);
    var sum := AddVec(p, fh, k);
    forall i | 0 <= i < k
      ensures CongSeq(uh[i], sum[i])
    {
      HatReceived(u[i], p[i], f[i]);
    }
    HatDotCong(sc, uh, sh, sum, k);
    InvCong(HatDot(sc, uh, k), HatDot(sh, sum, k));
    HatDotAddRight(sh, p, fh, k);
    InvAdd(HatDot(sh, p, k), HatDot(sh, fh, k));
    InvDot(s, f);
    var ip := Inv(HatDot(sh, p, k));
    CongSeqRefl(ip);
    AddCong(ip, ip, Inv(HatDot(sh, fh, k)), RingDot(s, f, k));
    CongSeqTrans(Inv(HatDot(sc, uh, k)), Add(ip, Inv(HatDot(sh, fh, k))), Add(ip, RingDot(s, f, k)));
  }

  // ---------- The noise ----------

  ghost function SubVec(v: seq<Poly>, w: seq<Poly>, k: nat): (r: seq<Poly>)
    requires IsVec(v, k) && IsVec(w, k)
    ensures IsVec(r, k) && forall i :: 0 <= i < k ==> r[i] == Sub(v[i], w[i])
  {
    seq(k, i requires 0 <= i < k => Sub(v[i], w[i]))
  }

  /** What the receiver gets for u and v. */
  ghost function Lossy(v: Poly, d: nat): (r: Poly)
    requires Width(d) && |v| == 256 && Canonical(v)
    ensures |r| == 256 && Canonical(r)
  {
    WidthRange(d);
    Decompressed(Compressed(v, d), d)
  }

  ghost function LossyVec(v: seq<Poly>, d: nat): (r: seq<Poly>)
    requires Width(d) && CanonicalVec(v, |v|)
    ensures IsVec(r, |v|) && forall i :: 0 <= i < |v| ==> r[i] == Lossy(v[i], d)
  {
    seq(|v|, i requires 0 <= i < |v| => Lossy(v[i], d))
  }

  /** e1 + c_u. */
  ghost function ErrorU(x: KeyRandomness, y: Coins, k: nat): (f: seq<Poly>)
    requires Rank(k) && KeyOk(x, k) && CoinsOk(y, k)
    ensures IsVec(f, k)
  {
    hide CipherU, LossyVec, SubVec, AddVec, AbsBound;
    var u := CipherU(x.a, y, k);
    AddVec(y.e1, SubVec(LossyVec(u, Du(k)), u, k), k)
  }

  /** v of an honest encryption. */
  ghost function HonestV(x: KeyRandomness, y: Coins, m: seq<int>, k: nat): (v: Poly)
    requires KeyOk(x, k) && CoinsOk(y, k) && |m| == 32 && Digits(m, 256)
    ensures |v| == 256 && Canonical(v)
  {
    hide KeyT, CanonVec, CipherV, Canon;
    CipherV(CanonVec(KeyT(x, k)), y, m, k)
  }

  /** e.r + e2 + c_v - s.(e1 + c_u). */
  ghost function Noise(x: KeyRandomness, y: Coins, m: seq<int>, k: nat): (n: Poly)
    requires Rank(k) && KeyOk(x, k) && CoinsOk(y, k) && |m| == 32 && Digits(m, 256)
    ensures |n| == 256
  {
    hide HonestV, ErrorU, Lossy, RingDot, Sub, Add, AbsBound;
    var v, f := HonestV(x, y, m, k), ErrorU(x, y, k);
    Sub(Add(Add(RingDot(x.e, y.r, k), y.e2), Sub(Lossy(v, Dv(k)), v)), RingDot(x.s, f, k))
  }

  lemma NoisyCoefficient(w: int, v: int, v': int, d: int, ip: int, er: int, e2: int, m: int, sf: int)
    requires Cong(v, ((ip + er) + e2) + m) && Cong(d, ip + sf) && Cong(w, v' - d)
    ensures Cong(w, m + (((er + e2) + (v' - v)) - sf))
  {
    var a := CongElim(v, ((ip + er) + e2) + m);
    var b := CongElim(d, ip + sf);
    var c := CongElim(w, v' - d);
    CongIntro(w, m + (((er + e2) + (v' - v)) - sf), c + a - b);
  }

  /** The same for whole polynomials. */
  lemma NoisyPoly(w: Poly, v: Poly, v': Poly, d: Poly, ip: Poly, er: Poly, e2: Poly, m: Poly, sf: Poly)
    requires |w| == |v| == |v'| == |d| == |ip| == |er| == |e2| == |m| == |sf|
    requires CongSeq(v, Add(Add(Add(ip, er), e2), m)) && CongSeq(d, Add(ip, sf)) && CongSeq(w, Sub(v', d))
    ensures CongSeq(w, Add(m, Sub(Add(Add(er, e2), Sub(v', v)), sf)))
  {
    hide Cong;
    forall i | 0 <= i < |w|
      ensures Cong(w[i], Add(m, Sub(Add(Add(er, e2), Sub(v', v)), sf))[i])
    {
      assert Cong(v[i], Add(Add(Add(ip, er), e2), m)[i]);
      NoisyCoefficient(w[i], v[i], v'[i], d[i], ip[i], er[i], e2[i], m[i], sf[i]);
    }
  }

  /** The received u: A^T r plus e1 plus the compression error. */
  lemma ReceivedU(x: KeyRandomness, y: Coins, k: nat, p: seq<Poly>, u: seq<Poly>, f: seq<Poly>)
    requires Rank(k) && KeyOk(x, k) && CoinsOk(y, k) && u == CipherU(x.a, y, k) && f == ErrorU(x, y, k)
    requires p == MatVec(Transpose(x.a, k), HatVec(y.r), k)
    ensures Received(LossyVec(u, Du(k)), p, f, k)
  {
    hide Add, Inv, CongSeq, Hat, HatVec, MatVec, Transpose, HatDot, AbsBound, Lossy, Sub, Canon, Canonical, Du, Rank;
    var u' := LossyVec(u, Du(k));
    forall i | 0 <= i < k
      ensures CongSeq(u'[i], Add(Inv(p[i]), f[i]))
    {
      var w := Add(Inv(p[i]), y.e1[i]);
      assert u[i] == Canon(w) && f[i] == Add(y.e1[i], Sub(u'[i], u[i]));
      CanonCong(w);
      LossyComponent(u'[i], u[i], Inv(p[i]), y.e1[i]);
    }
  }

  lemma LossyComponent(u': Poly, u: Poly, p: Poly, e: Poly)
    requires |u'| == |u| == |p| == |e| && CongSeq(u, Add(p, e))
    ensures CongSeq(u', Add(p, Add(e, Sub(u', u))))
  {
    hide Cong;
    forall i | 0 <= i < |u|
      ensures Cong(u'[i], p[i] + (e[i] + (u'[i] - u[i])))
    {
      assert Cong(u[i], Add(p, e)[i]);
      var a := CongElim(u[i], p[i] + e[i]);
      CongIntro(u'[i], p[i] + (e[i] + (u'[i] - u[i])), a);
    }
  }

  /** The sent v: (A s).r + e.r + e2 + message. */
  lemma SentV(x: KeyRandomness, y: Coins, m: seq<int>, k: nat, rh: seq<Poly>, p: seq<Poly>)
    requires KeyOk(x, k) && CoinsOk(y, k) && |m| == 32 && Digits(m, 256)
    requires IsVec(rh, k) && rh == HatVec(y.r) && p == MatVec(x.a, HatVec(x.s), k)
    ensures CongSeq(HonestV(x, y, m, k),
                    Add(Add(Add(Inv(HatDot(p, rh, k)), RingDot(x.e, y.r, k)), y.e2), MessagePoly(m)))
  {
    hide Add, Inv, CongSeq, Hat, HatVec, MatVec, HatDot, RingDot, AbsBound, Canon, CanonVec, AddVec, VecCong,
      MessagePoly, Digits, IsMat;
    var t, mp := CanonVec(KeyT(x, k)), MessagePoly(m);
    CanonVecCong(KeyT(x, k));
    EncryptedProduct(t, p, x.e, y.r, rh, k);
    var tr, sum := Inv(HatDot(t, rh, k)), Add(Inv(HatDot(p, rh, k)), RingDot(x.e, y.r, k));
    CongSeqRefl(y.e2);
    CongSeqRefl(mp);
    AddCong(tr, sum, y.e2, y.e2);
    AddCong(Add(tr, y.e2), Add(sum, y.e2), mp, mp);
    CanonCong(Add(Add(tr, y.e2), mp));
    CongSeqTrans(HonestV(x, y, m, k), Add(Add(tr, y.e2), mp), Add(Add(sum, y.e2), mp));
  }

  /** What decryption rounds: the message polynomial plus the noise. */
  lemma PlainIsNoisy(x: KeyRandomness, y: Coins, m: seq<int>, k: nat)
    requires Rank(k) && KeyOk(x, k) && CoinsOk(y, k) && |m| == 32 && Digits(m, 256)
    ensures CongSeq(Plain(CanonVec(HatVec(x.s)), LossyVec(CipherU(x.a, y, k), Du(k)), Lossy(HonestV(x, y, m, k), Dv(k)),
                          k),
                    Add(MessagePoly(m), Noise(x, y, m, k)))
  {
    hide Add, Sub, Inv, CongSeq, Hat, HatVec, MatVec, HatDot, RingDot, AbsBound, Canon, CanonVec, VecCong, MessagePoly,
      Digits, IsMat, Transpose, CipherU, HonestV, Lossy, LossyVec, ErrorU, Received, Du, Dv, Canonical, Rank;
    var sh, rh := HatVec(x.s), HatVec(y.r);
    var sc, p, pt := CanonVec(sh), MatVec(x.a, sh, k), MatVec(Transpose(x.a, k), rh, k);
    var u, v, f := CipherU(x.a, y, k), HonestV(x, y, m, k), ErrorU(x, y, k);
    var u', v' := LossyVec(u, Du(k)), Lossy(v, Dv(k));
    var uh := HatVec(u');
    SentV(x, y, m, k, rh, p);
    ReceivedU(x, y, k, pt, u, f);
    CanonVecCong(sh);
    DecryptedProduct(x.s, sh, sc, u', uh, pt, f, k);
    BilinearForm(x.a, sh, rh, k);
    var d := Inv(HatDot(sc, uh, k));
    CanonCong(Sub(v', d));
    NoisyPoly(Plain(sc, u', v', k), v, v', d, Inv(HatDot(p, rh, k)), RingDot(x.e, y.r, k), y.e2, MessagePoly(m),
              RingDot(x.s, f, k));
  }

  // ---------- Rounding ----------

  /** The centred noise lies in [-832, 832 - bit]. */
  ghost predicate Fits(n: int, bit: int) { (n + 832) % Q <= 1664 - bit }

  /** A noise of at most 831 in absolute value fits, whatever the bit. */
  lemma SmallNoiseFits(n: int, c: int, bit: int)
    requires Cong(n, c) && -831 <= c <= 831 && 0 <= bit <= 1
    ensures Fits(n, bit)
  {
    assert (n + 832 - (c + 832)) % Q == 0;
    CanonicalRemainder(n + 832, c + 832);
  }

  lemma CanonicalRemainder(a: int, r: int)
    requires Cong(a, r) && 0 <= r < Q
    ensures a % Q == r
  {
    var w := CongElim(a, r);
  }

  lemma RoundedBit(w: int)
    requires 0 <= w < Q
    ensures Rounded(w, 1) == if 833 <= w <= 2496 then 1 else 0
  {
  }

  lemma DecompressedBit(bit: int)
    requires 0 <= bit <= 1
    ensures ScalarDecompress(bit, 1) == 1665 * bit
  {
  }

  /** A bit survives exactly when its noise fits. */
  lemma BitSurvives(w: int, n: int, bit: int)
    requires 0 <= w < Q && 0 <= bit <= 1 && Cong(w, ScalarDecompress(bit, 1) + n)
    ensures Rounded(w, 1) == bit <==> Fits(n, bit)
  {
    hide Rounded, ScalarDecompress, Cong;
    RoundedBit(w);
    DecompressedBit(bit);
    var a := CongElim(w, ScalarDecompress(bit, 1) + n);
    if bit == 0 {
      CanonicalRemainder(n + 832, (w + 832) % Q) by {
        CongIntro(n + 832, (w + 832) % Q, -a + (w + 832) / Q);
      }
    } else {
      var r := if w >= 833 then w - 833 else w - 833 + Q;
      CanonicalRemainder(n + 832, r) by {
        CongIntro(n + 832, r, if w >= 833 then -a else -a - 1);
      }
    }
  }

  /** The bits of a message. */
  ghost function Bits(m: seq<int>): (t: seq<int>)
    requires |m| == 32 && Digits(m, 256)
    ensures |t| == 256 && Digits(t, 2)
  {
    hide Decode;
    DecodeByte(m);
    Decode(m, 1)
  }

  ghost predicate NoiseFits(n: Poly, m: seq<int>)
    requires |n| == 256 && |m| == 32 && Digits(m, 256)
  {
    forall i :: 0 <= i < 256 ==> Fits(n[i], Bits(m)[i])
  }

  /** Every coefficient, centred, is at most 831 in absolute value. */
  ghost predicate CentredSmall(n: Poly) {
    forall i :: 0 <= i < |n| ==> exists c :: -831 <= c <= 831 && Cong(n[i], c)
  }

  lemma CentredSmallFits(n: Poly, m: seq<int>)
    requires |n| == 256 && |m| == 32 && Digits(m, 256) && CentredSmall(n)
    ensures NoiseFits(n, m)
  {
    hide Cong, Fits, Decode;
    var bits := Bits(m);
    forall i | 0 <= i < 256
      ensures Fits(n[i], bits[i])
    {
      var c :| -831 <= c <= 831 && Cong(n[i], c);
      assert 0 <= bits[i] <= 1;
      SmallNoiseFits(n[i], c, bits[i]);
    }
  }

  lemma BitsSurvive(w: Poly, n: Poly, m: seq<int>)
    requires |w| == |n| == 256 && Canonical(w) && |m| == 32 && Digits(m, 256)
    requires CongSeq(w, Add(MessagePoly(m), n))
    ensures Compressed(w, 1) == Bits(m) <==> NoiseFits(n, m)
  {
    hide Cong, Rounded, Fits, Decode, ScalarDecompress;
    var bits, c := Bits(m), Compressed(w, 1);
    DecodeByte(m);
    forall i | 0 <= i < 256
      ensures c[i] == bits[i] <==> Fits(n[i], bits[i])
    {
      assert Cong(w[i], Add(MessagePoly(m), n)[i]);
      BitSurvives(w[i], n[i], bits[i]);
    }
    if NoiseFits(n, m) {
      assert c == bits;
    }
  }

  /** The message comes back exactly when every coefficient of the noise fits. */
  lemma MessageSurvives(w: Poly, n: Poly, m: seq<int>)
    requires |w| == |n| == 256 && Canonical(w) && |m| == 32 && Digits(m, 256)
    requires CongSeq(w, Add(MessagePoly(m), n))
    ensures MessageOf(w) == m <==> NoiseFits(n, m)
  {
    hide CongSeq, Decode, Encode, MessagePoly, NoiseFits, Compressed, Canonical, Digits;
    BitsSurvive(w, n, m);
    EncodeDecode(m, 1);
    EncodeLength(Compressed(w, 1), 1);
    DecodeEncode(Compressed(w, 1), 1);
  }

  // ---------- Through the byte encodings ----------

  lemma KeyVIsHonest(x: KeyRandomness, y: Coins, m: seq<int>, k: nat)
    requires KeyOk(x, k) && CoinsOk(y, k) && |m| == 32 && Digits(m, 256)
    ensures KeyV(y, k, m, PublicKey(x, k)) == HonestV(x, y, m, k)
  {
    hide EncodeVec, DecodeVec, CanonVec, KeyT, CipherV, DigitVec, Digits, VecBytes, Canonical, AbsBound, SmallVec,
      IsMat, Canon;
    var t := KeyT(x, k);
    CanonDigits(t, k);
    var b, pk := EncodeVec(CanonVec(t), 12), PublicKey(x, k);
    assert pk[..VecBytes(12, k)] == b;
    DecodeEncodeVec(CanonVec(t), 12);
  }

  lemma LossyThroughBytes(v: Poly, d: nat)
    requires Width(d) && |v| == 256 && Canonical(v)
    ensures PackWidth(d) && |Compressed(v, d)| % GroupValues(d) == 0
    ensures var b := Encode(Compressed(v, d), d);
            && |b| == 32 * d && Digits(b, 256) && |b| % GroupBytes(d) == 0
            && Decode(b, d) == Compressed(v, d) && Digits(Decode(b, d), Range(d))
              && Decompressed(Decode(b, d), d) == Lossy(v, d)
  {
    hide Encode, Decode, GroupValues, GroupBytes, Rounded, ScalarDecompress, Canonical;
    WidthRange(d);
    EncodeLength(Compressed(v, d), d);
    DecodeEncode(Compressed(v, d), d);
  }

  lemma LossyVecThroughBytes(u: seq<Poly>, d: nat)
    requires Width(d) && CanonicalVec(u, |u|)
    ensures PackWidth(d) && DecodeVec(EncodeVec(CompressedVec(u, d), d), d, |u|) == CompressedVec(u, d)
    ensures DecompressedVec(CompressedVec(u, d), d) == LossyVec(u, d)
  {
    hide EncodeVec, DecodeVec, Canonical, Compressed, Decompressed, Width, PackWidth, Range, Base;
    WidthRange(d);
    DecodeEncodeVec(CompressedVec(u, d), d);
  }

  /** Decryption of a ciphertext under a secret key sees the lossy u and v. */
  lemma DecryptCiphertext(s: seq<Poly>, u: seq<Poly>, v: Poly, k: nat, sk: seq<int>, c: seq<int>)
    requires Rank(k) && |v| == 256 && Canonical(v) && CanonicalVec(u, k) && IsVec(s, k) && DigitVec(s, 12)
    requires sk == EncodeVec(s, 12) && c == Ciphertext(u, v, k)
    ensures Decrypt(k, sk, c) == MessageOf(Plain(s, LossyVec(u, Du(k)), Lossy(v, Dv(k)), k))
  {
    hide EncodeVec, DecodeVec, Encode, Decode, Canonical, Compressed, CompressedVec, Lossy, LossyVec, Decompressed,
      DecompressedVec, VecBytes, Du, Dv, DigitVec, Digits, MessageOf, Plain, Base, Range;
    var n := VecBytes(Du(k), k);
    WidthsPack(k);
    LossyVecThroughBytes(u, Du(k));
    LossyThroughBytes(v, Dv(k));
    DecodeEncodeVec(s, 12);
    assert c[..n] == EncodeVec(CompressedVec(u, Du(k)), Du(k)) && c[n..] == Encode(Compressed(v, Dv(k)), Dv(k));
  }

  /**
    K-PKE: for every key, message and coins, decrypting the encryption returns the
    message if and only if every coefficient of the noise fits.
  */
  lemma KpkeDecrypts(x: KeyRandomness, y: Coins, m: seq<int>, k: nat, pk: seq<int>, sk: seq<int>, c: seq<int>)
    requires Rank(k) && KeyOk(x, k) && CoinsOk(y, k) && |m| == 32 && Digits(m, 256)
    requires pk == PublicKey(x, k) && sk == SecretKey(x, k) && c == Encrypt(x.a, y, k, m, pk)
    ensures |c| == VecBytes(Du(k), k) + 32 * Dv(k) && Digits(c, 256)
    ensures Decrypt(k, sk, c) == m <==> NoiseFits(Noise(x, y, m, k), m)
  {
    hide EncodeVec, CanonVec, HatVec, Hat, CipherU, KeyV, HonestV, Ciphertext, Decrypt, Plain, LossyVec, Lossy,
      MessageOf, Noise, NoiseFits, Digits, DigitVec, VecBytes, Du, Dv, IsMat, SmallVec, AbsBound, Canonical, CongSeq,
      Add, MessagePoly, Canon;
    KeyVIsHonest(x, y, m, k);
    EncryptBytes(x.a, y, k, m, pk);
    SmallVecIsVec(x.s, k, 4);
    var s, u, v := CanonVec(HatVec(x.s)), CipherU(x.a, y, k), HonestV(x, y, m, k);
    CanonVecShape(HatVec(x.s), k);
    DecryptCiphertext(s, u, v, k, sk, c);
    PlainIsNoisy(x, y, m, k);
    MessageSurvives(Plain(s, LossyVec(u, Du(k)), Lossy(v, Dv(k)), k), Noise(x, y, m, k), m);
  }

  /** Small noise decrypts: no message is lost as long as no centred coefficient of the noise exceeds 831. */
  lemma SmallNoiseDecrypts(x: KeyRandomness, y: Coins, m: seq<int>, k: nat, pk: seq<int>, sk: seq<int>, c: seq<int>)
    requires Rank(k) && KeyOk(x, k) && CoinsOk(y, k) && |m| == 32 && Digits(m, 256)
    requires pk == PublicKey(x, k) && sk == SecretKey(x, k) && c == Encrypt(x.a, y, k, m, pk)
    requires CentredSmall(Noise(x, y, m, k))
    ensures |c| == VecBytes(Du(k), k) + 32 * Dv(k) && Decrypt(k, sk, c) == m
  {
    hide KeyOk, CoinsOk, PublicKey, SecretKey, Encrypt, Decrypt, Noise, NoiseFits, CentredSmall, Digits, VecBytes, Du,
      Dv;
    CentredSmallFits(Noise(x, y, m, k), m);
    KpkeDecrypts(x, y, m, k, pk, sk, c);
  }

  lemma SmallVecIsVec(v: seq<Poly>, k: nat, bound: int)
    requires SmallVec(v, k, bound)
    ensures IsVec(v, k)
  {
    hide AbsBound;
  }

  lemma CanonVecShape(v: seq<Poly>, k: nat)
    requires IsVec(v, k)
    ensures IsVec(CanonVec(v), k) && DigitVec(CanonVec(v), 12)
  {
    CanonDigits(v, k);
  }
}
