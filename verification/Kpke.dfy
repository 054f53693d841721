/**
  K-PKE as indcpa.c computes it: key generation, encryption and decryption with the
  in-place transforms, cached multiplications and single reductions, proved equal to
  the functions of KpkeSpec byte for byte. All additions stay within 16 bits.
*/
module Kpke {
  import opened Bytes
  import opened ModQ
  import opened Montgomery
  import opened Ring
  import opened NttSpec
  import opened PolyNtt
  import opened PolyVec
  import opened Compress
  import opened Packing
  import opened PolyCompress
  import opened KpkeSpec
  import opened PolyVecOps

  // ---------- What the code samples ----------

  /** Matrix entries from a seed and two index bytes, noise from a seed and a nonce, and the hash G. */
  datatype Samplers = Samplers(
    entry: (seq<byte>, nat, nat) -> Coeffs,
    noise1: (seq<byte>, nat) -> Coeffs,
    noise2: (seq<byte>, nat) -> Coeffs,
    g: seq<byte> -> seq<byte>)

  /** Entries are canonical, noise is within eta (3 or 2, and 2), G returns 64 bytes. */
  ghost predicate Samples(o: Samplers) {
    && (forall s, x, y :: Canonical(o.entry(s, x, y)))
    && (forall s, n :: AbsBound(o.noise1(s, n), 4))
    && (forall s, n :: AbsBound(o.noise2(s, n), 3))
    && (forall s :: |o.g(s)| == 64)
  }

  function EntryAt(o: Samplers, rho: seq<byte>, i: nat, j: nat, transposed: bool): Coeffs {
    if transposed then o.entry(rho, i, j) else o.entry(rho, j, i)
  }

  function MatrixRow(o: Samplers, rho: seq<byte>, k: nat, i: nat, transposed: bool): (v: seq<Coeffs>)
    ensures |v| == k && forall j :: 0 <= j < k ==> v[j] == if transposed then o.entry(rho, i, j) else o.entry(rho, j, i)
  {
    seq(k, j requires 0 <= j < k => EntryAt(o, rho, i, j, transposed))
  }

  /** Entry (i, j) comes from the seed followed by j and i; transposed, by i and j. */
  function MatrixOf(o: Samplers, rho: seq<byte>, k: nat, transposed: bool): (a: seq<seq<Coeffs>>)
    ensures |a| == k
    ensures forall i :: 0 <= i < k ==> |a[i]| == k
  {
    seq(k, i requires 0 <= i < k => MatrixRow(o, rho, k, i, transposed))
  }

  function NoiseVec(f: (seq<byte>, nat) -> Coeffs, seed: seq<byte>, first: nat, k: nat): (v: seq<Coeffs>)
    ensures |v| == k && forall i :: 0 <= i < k ==> v[i] == f(seed, first + i)
  {
    seq(k, i requires 0 <= i < k => f(seed, first + i))
  }

  /** What key generation samples from its coins: both seeds are halves of G(coins || k). */
  function KeyFrom(o: Samplers, k: byte, coins: seq<byte>): (x: KeyRandomness)
    requires |o.g(coins + [k])| == 64
  {
    var seeds := o.g(coins + [k]);
    KeyRandomness(seeds[..32], MatrixOf(o, seeds[..32], k, false),
                  NoiseVec(o.noise1, seeds[32..], 0, k), NoiseVec(o.noise1, seeds[32..], k, k))
  }

  function CoinsFrom(o: Samplers, k: nat, coins: seq<byte>): Coins {
    Coins(NoiseVec(o.noise1, coins, 0, k), NoiseVec(o.noise2, coins, k, k), o.noise2(coins, 2 * k))
  }

  /** The first half of G is public and gives the matrix, the second gives the noise; entry (i, j) of the
      matrix comes from index bytes j and i. */
  lemma KeyFromHalves(o: Samplers, k: byte, coins: seq<byte>)
    requires |o.g(coins + [k])| == 64
    ensures var seeds, x := o.g(coins + [k]), KeyFrom(o, k, coins);
            && x.rho == seeds[..32] && |x.s| == |x.e| == |x.a| == k
            && (forall i :: 0 <= i < k ==> x.s[i] == o.noise1(seeds[32..], i) && x.e[i] == o.noise1(seeds[32..], k + i))
            && (forall i :: 0 <= i < k ==> |x.a[i]| == k)
            && (forall i, j :: 0 <= i < k && 0 <= j < k ==> x.a[i][j] == o.entry(seeds[..32], j, i))
  {
    var seeds, x := o.g(coins + [k]), KeyFrom(o, k, coins);
    forall i | 0 <= i < k
      ensures x.s[i] == o.noise1(seeds[32..], i)
    {
      assert x.s[i] == o.noise1(seeds[32..], 0 + i);
    }
    forall i, j | 0 <= i < k && 0 <= j < k
      ensures x.a[i][j] == o.entry(seeds[..32], j, i)
    {
      assert x.a[i] == MatrixRow(o, seeds[..32], k, i, false);
    }
  }

  /** Encryption draws r, e1 and e2 from consecutive nonces, r with the noise of the key. */
  lemma CoinsFromNonces(o: Samplers, k: nat, coins: seq<byte>)
    ensures var y := CoinsFrom(o, k, coins);
            && |y.r| == |y.e1| == k && y.e2 == o.noise2(coins, 2 * k)
            && forall i :: 0 <= i < k ==> y.r[i] == o.noise1(coins, i) && y.e1[i] == o.noise2(coins, k + i)
  {
    forall i | 0 <= i < k
      ensures CoinsFrom(o, k, coins).r[i] == o.noise1(coins, i)
    {
      assert CoinsFrom(o, k, coins).r[i] == o.noise1(coins, 0 + i);
    }
  }

  lemma MatrixEntries(o: Samplers, rho: seq<byte>, k: nat)
    ensures var a := MatrixOf(o, rho, k, false);
            forall i, j :: 0 <= i < k && 0 <= j < k ==> a[i][j] == o.entry(rho, j, i)
  {
    var a := MatrixOf(o, rho, k, false);
    forall i, j | 0 <= i < k && 0 <= j < k
      ensures a[i][j] == o.entry(rho, j, i)
    {
      assert a[i] == MatrixRow(o, rho, k, i, false);
    }
  }

  lemma KeyFromOk(o: Samplers, k: byte, coins: seq<byte>)
    requires Samples(o)
    ensures |o.g(coins + [k])| == 64 && KeyOk(KeyFrom(o, k, coins), k)
  {
    hide AbsBound, Canonical;
    var x := KeyFrom(o, k, coins);
    forall i | 0 <= i < k
      ensures AbsBound(x.s[i], 4) && AbsBound(x.e[i], 4)
    {
      var seed := o.g(coins + [k])[32..];
      assert x.s[i] == o.noise1(seed, 0 + i) && x.e[i] == o.noise1(seed, k + i);
    }
  }

  lemma CoinsFromOk(o: Samplers, k: nat, coins: seq<byte>)
    requires Samples(o)
    ensures CoinsOk(CoinsFrom(o, k, coins), k)
  {
    hide AbsBound, Canonical;
  }

  lemma MatrixOk(o: Samplers, rho: seq<byte>, k: nat, transposed: bool)
    requires Samples(o)
    ensures var a := MatrixOf(o, rho, k, transposed);
            IsMat(a, k) && forall i :: 0 <= i < k ==> Uint12Vec(a[i])
  {
    hide AbsBound;
    var a := MatrixOf(o, rho, k, transposed);
    forall i, j | 0 <= i < k && 0 <= j < k
      ensures Uint12(a[i][j])
    {
      assert Canonical(o.entry(rho, if transposed then i else j, if transposed then j else i));
    }
  }

  /** Generating the transpose directly gives the transpose. */
  lemma MatrixTransposed(o: Samplers, rho: seq<byte>, k: nat)
    ensures IsMat(MatrixOf(o, rho, k, false), k)
    ensures MatrixOf(o, rho, k, true) == Transpose(MatrixOf(o, rho, k, false), k)
  {
    var a, t := MatrixOf(o, rho, k, true), Transpose(MatrixOf(o, rho, k, false), k);
    forall i | 0 <= i < k
      ensures a[i] == t[i]
    {
      assert forall j :: 0 <= j < k ==> a[i][j] == t[i][j];
    }
  }

  // ---------- Montgomery factors ----------

  /** Multiply-accumulate, then the inverse transform: the factors cancel. */
  lemma InverseProduct(a: seq<Poly>, b: seq<Poly>, bh: seq<Poly>, hb: seq<Poly>, r: Poly, t: Poly, k: nat)
    requires IsVec(a, k) && IsVec(b, k) && IsVec(bh, k) && IsVec(hb, k) && |r| == |t| == 256
    requires hb == HatVec(b) && VecCong(bh, hb) && ProductOf(r, a, bh) && CongSeq(t, Scale(512, Unhat(r)))
    ensures CongSeq(t, Inv(HatDot(a, hb, k)))
  {
    hide CongSeq, Scale, Unhat, HatDot, HatVec, Hat, VecCong;
    var d, e := HatDot(a, bh, k), HatDot(a, hb, k);
    VecSelf(a);
    HatDotCong(a, bh, a, hb, k);
    ScaleCong(R_INV, d, e);
    CongSeqTrans(r, Scale(R_INV, d), Scale(R_INV, e));
    UnhatCong(r, Scale(R_INV, e));
    UnhatScale(R_INV, e);
    ScaleCong(512, Unhat(r), Scale(R_INV, Unhat(e)));
    ScaleScale(512, R_INV, Unhat(e));
    CongIntro(512 * R_INV, 3303, 25);
    ScaleFactorCong(512 * R_INV, 3303, Unhat(e));
    CongSeqTrans(t, Scale(512, Unhat(r)), Scale(512 * R_INV, Unhat(e)));
    CongSeqTrans(t, Scale(512 * R_INV, Unhat(e)), Inv(e));
  }

  lemma VecSelf(v: seq<Poly>)
    ensures VecCong(v, v)
  {
    hide CongSeq;
    forall i | 0 <= i < |v|
      ensures CongSeq(v[i], v[i])
    {
      CongSeqRefl(v[i]);
    }
  }

  /** Multiply-accumulate, then into the Montgomery domain: the factors cancel. */
  lemma MontgomeryProduct(a: seq<Poly>, b: seq<Poly>, bh: seq<Poly>, hb: seq<Poly>, r: Poly, t: Poly, k: nat)
    requires IsVec(a, k) && IsVec(b, k) && IsVec(bh, k) && IsVec(hb, k) && |r| == |t| == 256
    requires hb == HatVec(b) && VecCong(bh, hb) && ProductOf(r, a, bh) && CongSeq(t, Scale(0x1_0000, r))
    ensures CongSeq(t, HatDot(a, hb, k))
  {
    hide CongSeq, Scale, HatDot, HatVec, Hat, VecCong;
    var d, e := HatDot(a, bh, k), HatDot(a, hb, k);
    VecSelf(a);
    HatDotCong(a, bh, a, hb, k);
    ScaleCong(0x1_0000, r, Scale(R_INV, d));
    ScaleScale(0x1_0000, R_INV, d);
    CongIntro(0x1_0000 * R_INV, 1, 3327);
    ScaleFactorCong(0x1_0000 * R_INV, 1, d);
    ScaleOne(d);
    CongSeqTrans(t, Scale(0x1_0000, r), Scale(0x1_0000 * R_INV, d));
    CongSeqTrans(t, Scale(0x1_0000 * R_INV, d), d);
    CongSeqTrans(t, d, e);
  }

  lemma CanonicalBound(v: Poly)
    requires Canonical(v)
    ensures AbsBound(v, Q)
  {
  }

  // ---------- Decryption ----------

  lemma SubCong(v: Poly, a: Poly, b: Poly)
    requires |v| == |a| && CongSeq(a, b)
    ensures CongSeq(Sub(v, a), Sub(v, b))
  {
    hide Cong;
    forall i | 0 <= i < |v|
      ensures Cong(v[i] - a[i], v[i] - b[i])
    {
      CongIntro(v[i], v[i], 0);
      CongAdd(v[i], v[i], a[i], b[i]);
    }
  }

  method SubFrom(v: Coeffs, w: Coeffs) returns (r: Coeffs)
    requires AbsBound(v, Q) && AbsBound(w, Q)
    ensures r == Sub(v, w)
  {
    hide Sub, AbsBound;
    SumFits(v, w, Q, Q);
    var p := Load(v);
    PolySub(p, w);
    r := p[..];
  }

  /** v minus the scalar product of s and u, and its canonical form. */
  method SubProduct(s: seq<Coeffs>, u: seq<Coeffs>, v: Coeffs, k: nat) returns (w: Coeffs)
    requires |s| == |u| == k <= 4 && Uint12Vec(s) && CanonicalVec(u, k) && Canonical(v)
    ensures IsVec(s, k) && w == Plain(s, u, v, k)
  {
    hide AbsBound, CongSeq, Scale, Unhat, HatDot, HatVec, Hat, VecCong, Canonical, Uint12Vec, VecCached, Sub, Canon,
      Inv;
    forall i | 0 <= i < k
      ensures AbsBound(u[i], Q)
    {
      CanonicalBound(u[i]);
    }
    var uh := VecNtt(u);
    var cache := VecMulCache(uh);
    var sb := BaseMul(s, uh, cache);
    var sbi := InvNtt(sb);
    ghost var hu := HatVec(u);
    InverseProduct(s, u, uh, hu, sb, sbi, k);
    CanonicalBound(v);
    var d := SubFrom(v, sbi);
    w := Reduce(d);
    SubCong(v, sbi, Inv(HatDot(s, hu, k)));
    CanonUnique(Sub(v, sbi), Sub(v, Inv(HatDot(s, hu, k))));
  }

  /** mlk_indcpa_dec. */
  method IndcpaDec(k: nat, c: seq<byte>, sk: seq<byte>) returns (m: seq<byte>)
    requires Rank(k) && |c| == VecBytes(Du(k), k) + 32 * Dv(k) && |sk| == VecBytes(12, k)
    ensures Digits(c, 256) && Digits(sk, 256) && m == Decrypt(k, sk, c)
  {
    hide Du, Dv, VecBytes, Decode, DecodeVec, Encode, Canonical, Plain, Decompressed, DecompressedVec, Compressed,
      Uint12Vec, Rounded, Range, Base;
    ByteDigits(c);
    ByteDigits(sk);
    WidthsPack(k);
    var n := VecBytes(Du(k), k);
    DecodeDv(c[n..], k);
    var b := VecDecompress(c[..n], Du(k), k);
    var v := DecompressOne(c[n..], Dv(k));
    var skpv := VecFromBytes(sk, k);
    DecompressedCanonical(DecodeVec(c[..n], Du(k), k), Du(k));
    var w := SubProduct(skpv, b, v, k);
    m := CompressOne(w, 1);
  }

  lemma DecompressedCanonical(t: seq<Poly>, d: nat)
    requires Width(d) && PackWidth(d) && DigitVec(t, d)
    ensures CanonicalVec(DecompressedVec(t, d), |t|)
  {
    hide Canonical;
  }

  // ---------- Key generation ----------

  /** A s + e in the transformed domain, reduced. */
  method KeyProduct(a: seq<seq<Coeffs>>, s: seq<Coeffs>, sh: seq<Coeffs>, e: seq<Coeffs>, eh: seq<Coeffs>, k: nat,
                    ghost hs: seq<Poly>, ghost he: seq<Poly>)
    returns (t: seq<Coeffs>)
    requires |a| == |s| == |sh| == |e| == |eh| == k <= 4 && IsMat(a, k) && IsVec(s, k) && IsVec(e, k)
    requires forall i :: 0 <= i < k ==> |a[i]| == k && Uint12Vec(a[i])
    requires hs == HatVec(s) && he == HatVec(e) && VecCong(sh, hs) && VecCong(eh, he) && VecBound(eh, 8 * Q)
    ensures t == CanonVec(AddVec(MatVec(a, hs, k), he, k))
  {
    hide AbsBound, CongSeq, Scale, HatDot, HatVec, Hat, Uint12Vec, VecCached, Canon, Add, ProductOf;
    var cache := VecMulCache(sh);
    var p := MatVecMul(a, sh, cache);
    var q := VecToMont(p);
    var sum := VecAdd(q, eh, Q, 8 * Q);
    t := VecReduce(sum);
    forall i | 0 <= i < k
      ensures t[i] == Canon(Add(HatDot(a[i], hs, k), he[i]))
    {
      MontgomeryProduct(a[i], s, sh, hs, p[i], q[i], k);
      AddCong(q[i], HatDot(a[i], hs, k), eh[i], he[i]);
      CanonUnique(Add(q[i], eh[i]), Add(HatDot(a[i], hs, k), he[i]));
    }
  }

  lemma SmallerBound(v: seq<Coeffs>, k: nat, b: int, c: int)
    requires SmallVec(v, k, b) && b <= c
    ensures VecBound(v, c)
  {
    forall i | 0 <= i < k
      ensures AbsBound(v[i], c)
    {
      assert AbsBound(v[i], b);
    }
  }

  lemma CanonVecUnique(v: seq<Poly>, w: seq<Poly>)
    requires VecCong(v, w)
    ensures CanonVec(v) == CanonVec(w)
  {
    hide Canon, CongSeq;
    forall i | 0 <= i < |v|
      ensures Canon(v[i]) == Canon(w[i])
    {
      CanonUnique(v[i], w[i]);
    }
  }

  /** mlk_indcpa_keypair_derand. */
  method IndcpaKeypair(o: Samplers, k: byte, coins: seq<byte>) returns (pk: seq<byte>, sk: seq<byte>)
    requires Samples(o) && Rank(k)
    ensures |o.g(coins + [k])| == 64 && KeyOk(KeyFrom(o, k, coins), k)
    ensures pk == PublicKey(KeyFrom(o, k, coins), k) && sk == SecretKey(KeyFrom(o, k, coins), k)
    ensures |pk| == VecBytes(12, k) + 32 && pk[VecBytes(12, k)..] == o.g(coins + [k])[..32]
    ensures var seeds, x := o.g(coins + [k]), KeyFrom(o, k, coins);
            && (forall i :: 0 <= i < k ==> x.s[i] == o.noise1(seeds[32..], i) && x.e[i] == o.noise1(seeds[32..], k + i))
            && (forall i, j :: 0 <= i < k && 0 <= j < k ==> x.a[i][j] == o.entry(seeds[..32], j, i))
  {
    hide AbsBound, CongSeq, HatVec, Hat, Canon, Add, MatVec, AddVec, CanonVec, VecCong, MatrixOf, EncodeVec, DigitVec,
      Digits, IsMat;
    KeyFromOk(o, k, coins);
    KeyFromHalves(o, k, coins);
    ghost var x := KeyFrom(o, k, coins);
    var seeds := o.g(coins + [k]);
    var a := MatrixOf(o, seeds[..32], k, false);
    MatrixOk(o, seeds[..32], k, false);
    var s, e := NoiseVec(o.noise1, seeds[32..], 0, k), NoiseVec(o.noise1, seeds[32..], k, k);
    SmallerBound(s, k, 4, Q);
    SmallerBound(e, k, 4, Q);
    var skpv := VecNtt(s);
    var eh := VecNtt(e);
    ghost var hs, he := HatVec(s), HatVec(e);
    var pkpv := KeyProduct(a, s, skpv, e, eh, k, hs, he);
    CanonVecUnique(skpv, hs);
    var skr := VecReduce(skpv);
    CanonDigits(hs, k);
    CanonDigits(KeyT(x, k), k);
    sk := VecToBytes(skr);
    var tb := VecToBytes(pkpv);
    pk := tb + seeds[..32];
  }

  // ---------- Encryption ----------

  /** A^T r + e1, reduced. */
  method CipherVec(at: seq<seq<Coeffs>>, r: seq<Coeffs>, sp: seq<Coeffs>, cache: seq<seq<int16>>, e1: seq<Coeffs>,
                   k: nat,
                   ghost hr: seq<Poly>)
    returns (u: seq<Coeffs>)
    requires |at| == |r| == |sp| == |e1| == k <= 4 && IsMat(at, k) && IsVec(r, k) && SmallVec(e1, k, 3)
    requires forall i :: 0 <= i < k ==> |at[i]| == k && Uint12Vec(at[i])
    requires hr == HatVec(r) && VecCong(sp, hr) && VecCached(cache, sp)
    ensures u == CanonVec(AddVec(InvVec(MatVec(at, hr, k), k), e1, k))
  {
    hide AbsBound, CongSeq, Scale, Unhat, HatDot, HatVec, Hat, Uint12Vec, VecCached, Canon, Add, ProductOf, Inv;
    var b := MatVecMul(at, sp, cache);
    var bi := VecInvNtt(b);
    SmallerBound(e1, k, 3, 3);
    var sum := VecAdd(bi, e1, Q, 3);
    u := VecReduce(sum);
    forall i | 0 <= i < k
      ensures u[i] == Canon(Add(Inv(HatDot(at[i], hr, k)), e1[i]))
    {
      InverseProduct(at[i], r, sp, hr, b[i], bi[i], k);
      CongSeqRefl(e1[i]);
      AddCong(bi[i], Inv(HatDot(at[i], hr, k)), e1[i], e1[i]);
      CanonUnique(Add(bi[i], e1[i]), Add(Inv(HatDot(at[i], hr, k)), e1[i]));
    }
  }

  /** t.r + e2 + message, reduced. */
  method CipherPoly(t: seq<Coeffs>, r: seq<Coeffs>, sp: seq<Coeffs>, cache: seq<seq<int16>>, e2: Coeffs, mp: Coeffs,
                    k: nat,
                    ghost hr: seq<Poly>)
    returns (v: Coeffs)
    requires |t| == |r| == |sp| == k <= 4 && IsVec(t, k) && IsVec(r, k) && Uint12Vec(t) && AbsBound(e2, 3)
             && Canonical(mp)
    requires hr == HatVec(r) && VecCong(sp, hr) && VecCached(cache, sp)
    ensures v == Canon(Add(Add(Inv(HatDot(t, hr, k)), e2), mp))
  {
    hide AbsBound, CongSeq, Scale, Unhat, HatDot, HatVec, Hat, Uint12Vec, VecCached, Canon, Add, Inv, Canonical,
      VecCong;
    var w := BaseMul(t, sp, cache);
    var wi := InvNtt(w);
    InverseProduct(t, r, sp, hr, w, wi, k);
    SumFits(wi, e2, Q, 3);
    var sum := AddTo(wi, e2);
    CanonicalBound(mp);
    SumFits(sum, mp, Q + 3, Q);
    var all := AddTo(sum, mp);
    v := Reduce(all);
    ghost var d := Inv(HatDot(t, hr, k));
    CongSeqRefl(e2);
    CongSeqRefl(mp);
    AddCong(wi, d, e2, e2);
    AddCong(sum, Add(d, e2), mp, mp);
    CanonUnique(Add(sum, mp), Add(Add(d, e2), mp));
  }

  /** mlk_indcpa_enc. */
  method IndcpaEnc(o: Samplers, k: nat, m: seq<byte>, pk: seq<byte>, coins: seq<byte>) returns (c: seq<byte>)
    requires Samples(o) && Rank(k) && |m| == 32 && |pk| == VecBytes(12, k) + 32
    ensures Digits(m, 256) && Digits(pk, 256) && CoinsOk(CoinsFrom(o, k, coins), k)
    ensures IsMat(MatrixOf(o, pk[VecBytes(12, k)..], k, false), k)
    ensures c == Encrypt(MatrixOf(o, pk[VecBytes(12, k)..], k, false), CoinsFrom(o, k, coins), k, m, pk)
    ensures var a := MatrixOf(o, pk[VecBytes(12, k)..], k, false);
            forall i, j :: 0 <= i < k && 0 <= j < k ==> a[i][j] == o.entry(pk[VecBytes(12, k)..], j, i)
    ensures var y := CoinsFrom(o, k, coins);
            && y.e2 == o.noise2(coins, 2 * k)
            && forall i :: 0 <= i < k ==> y.r[i] == o.noise1(coins, i) && y.e1[i] == o.noise2(coins, k + i)
  {
    hide AbsBound, CongSeq, HatVec, Hat, Canon, Add, Inv, MatVec, InvVec, AddVec, CanonVec, VecCong, MatrixOf,
      EncodeVec, DecodeVec, Encode, Decode, DigitVec, IsMat, VecBytes, Du, Dv, HatDot, Uint12Vec, VecCached, Canonical,
      Compressed, CompressedVec, Decompressed, Rounded, Range, Base, Transpose;
    ByteDigits(m);
    ByteDigits(pk);
    CoinsFromOk(o, k, coins);
    CoinsFromNonces(o, k, coins);
    MatrixEntries(o, pk[VecBytes(12, k)..], k);
    WidthsPack(k);
    var n := VecBytes(12, k);
    var pkpv := VecFromBytes(pk[..n], k);
    DecodeByte(m);
    var mp := DecompressOne(m, 1);
    ghost var rho := pk[n..];
    var at := MatrixOf(o, pk[n..], k, true);
    MatrixOk(o, rho, k, true);
    MatrixTransposed(o, rho, k);
    var r, ep, epp := NoiseVec(o.noise1, coins, 0, k), NoiseVec(o.noise2, coins, k, k), o.noise2(coins, 2 * k);
    SmallerBound(r, k, 4, Q);
    var sp := VecNtt(r);
    ghost var hr := HatVec(r);
    var cache := VecMulCache(sp);
    var b := CipherVec(at, r, sp, cache, ep, k, hr);
    var v := CipherPoly(pkpv, r, sp, cache, epp, mp, k, hr);
    ghost var a, y := MatrixOf(o, rho, k, false), CoinsFrom(o, k, coins);
    assert b == CipherU(a, y, k);
    assert v == KeyV(y, k, m, pk);
    var cu := VecCompress(b, Du(k));
    var cv := CompressOne(v, Dv(k));
    c := cu + cv;
  }
}
