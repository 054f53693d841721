/**
  The operations on vectors of polynomials (poly_k.c) as indcpa.c uses them. A
  polynomial is worked on in place, in an array; vectors of finished polynomials are
  values.
*/
module PolyVecOps {
  import opened Bytes
  import opened ModQ
  import opened Montgomery
  import opened Ring
  import opened NttSpec
  import opened NttRemainders
  import opened PolyNtt
  import opened PolyVec
  import opened Compress
  import opened Packing
  import opened PolyCompress
  import opened KpkeSpec

  method Load(v: Coeffs) returns (a: array<int16>)
    ensures fresh(a) && a.Length == 256 && a[..] == v
  {
    a := new int16[256](i requires 0 <= i < 256 => v[i]);
  }

  ghost predicate VecBound(v: seq<Coeffs>, b: int) {
    forall i :: 0 <= i < |v| ==> AbsBound(v[i], b)
  }

  /** mlk_polyvec_ntt. */
  method VecNtt(v: seq<Coeffs>) returns (r: seq<Coeffs>)
    requires VecBound(v, Q)
    ensures |r| == |v| && VecBound(r, 8 * Q) && VecCong(r, HatVec(v))
    ensures forall j :: 0 <= j < |v| ==> forall i :: 0 <= i < 128 ==> RemainderAt(r[j], v[j], i)
  {
    hide AbsBound, CongSeq, Hat, RemainderAt;
    r := [];
    for i := 0 to |v|
      invariant |r| == i && VecBound(r, 8 * Q)
      invariant forall j :: 0 <= j < i ==> CongSeq(r[j], Hat(v[j]))
      invariant forall j :: 0 <= j < i ==> forall l :: 0 <= l < 128 ==> RemainderAt(r[j], v[j], l)
    {
      var p := Load(v[i]);
      PolyNtt.PolyNtt(p);
      r := r + [p[..]];
    }
  }

  method InvNtt(v: Coeffs) returns (r: Coeffs)
    ensures AbsBound(r, Q) && CongSeq(r, Scale(512, Unhat(v)))
  {
    hide AbsBound, CongSeq, Unhat, Scale;
    var p := Load(v);
    PolyInvNttToMont(p);
    r := p[..];
  }

  /** mlk_polyvec_invntt_tomont. */
  method VecInvNtt(v: seq<Coeffs>) returns (r: seq<Coeffs>)
    ensures |r| == |v| && VecBound(r, Q)
    ensures forall i :: 0 <= i < |v| ==> CongSeq(r[i], Scale(512, Unhat(v[i])))
  {
    hide AbsBound, CongSeq, Unhat, Scale;
    r := [];
    for i := 0 to |v|
      invariant |r| == i && VecBound(r, Q)
      invariant forall j :: 0 <= j < i ==> CongSeq(r[j], Scale(512, Unhat(v[j])))
    {
      var p := InvNtt(v[i]);
      r := r + [p];
    }
  }

  ghost predicate VecCached(cache: seq<seq<int16>>, v: seq<Coeffs>) {
    |cache| == |v| && forall i :: 0 <= i < |v| ==> Cached(cache[i], v[i])
  }

  /** mlk_polyvec_mulcache_compute. */
  method VecMulCache(v: seq<Coeffs>) returns (cache: seq<seq<int16>>)
    ensures VecCached(cache, v)
  {
    hide AbsBound, Cached;
    cache := [];
    for i := 0 to |v|
      invariant |cache| == i && forall j :: 0 <= j < i ==> Cached(cache[j], v[j])
    {
      var x := new int16[128];
      MulCacheCompute(x, v[i]);
      cache := cache + [x[..]];
    }
  }

  ghost predicate Uint12Vec(v: seq<Coeffs>) {
    forall i :: 0 <= i < |v| ==> Uint12(v[i])
  }

  /** mlk_polyvec_basemul_acc_montgomery_cached. */
  method BaseMul(a: seq<Coeffs>, b: seq<Coeffs>, cache: seq<seq<int16>>) returns (r: Coeffs)
    requires |a| == |b| <= 4 && Uint12Vec(a) && VecCached(cache, b)
    ensures Vectors(a, b) && CongSeq(r, Scale(R_INV, HatDot(a, b, |a|)))
  {
    hide Cached, Uint12, CongSeq, Scale, HatDot;
    var p := new int16[256];
    BaseMulAcc(p, a, b, cache);
    r := p[..];
  }

  /** A row of the product, in Montgomery form. */
  ghost predicate ProductOf(r: Poly, a: seq<Poly>, b: seq<Poly>) {
    Vectors(a, b) && CongSeq(r, Scale(R_INV, HatDot(a, b, |a|)))
  }

  /** mlk_matvec_mul. */
  method MatVecMul(m: seq<seq<Coeffs>>, v: seq<Coeffs>, cache: seq<seq<int16>>) returns (r: seq<Coeffs>)
    requires |m| == |v| <= 4 && VecCached(cache, v)
    requires forall i :: 0 <= i < |m| ==> |m[i]| == |v| && Uint12Vec(m[i])
    ensures |r| == |m| && forall i :: 0 <= i < |m| ==> ProductOf(r[i], m[i], v)
  {
    hide VecCached, Uint12Vec, CongSeq, Scale, HatDot;
    r := [];
    for i := 0 to |m|
      invariant |r| == i && forall j :: 0 <= j < i ==> ProductOf(r[j], m[j], v)
    {
      var p := BaseMul(m[i], v, cache);
      r := r + [p];
    }
  }

  /** mlk_polyvec_tomont. */
  method VecToMont(v: seq<Coeffs>) returns (r: seq<Coeffs>)
    ensures |r| == |v| && VecBound(r, Q)
    ensures forall i :: 0 <= i < |v| ==> CongSeq(r[i], Scale(0x1_0000, v[i]))
  {
    hide AbsBound, CongSeq, Scale;
    r := [];
    for i := 0 to |v|
      invariant |r| == i && VecBound(r, Q)
      invariant forall j :: 0 <= j < i ==> CongSeq(r[j], Scale(0x1_0000, v[j]))
    {
      var p := Load(v[i]);
      PolyToMont(p);
      r := r + [p[..]];
    }
  }

  method AddTo(v: Coeffs, w: Coeffs) returns (r: Coeffs)
    requires forall i :: 0 <= i < 256 ==> -0x8000 <= v[i] + w[i] < 0x8000
    ensures r == Add(v, w)
  {
    hide Add;
    var p := Load(v);
    PolyAdd(p, w);
    r := p[..];
  }

  lemma SumFits(v: Coeffs, w: Coeffs, b: int, c: int)
    requires AbsBound(v, b) && AbsBound(w, c) && b + c <= 0x8000
    ensures forall i :: 0 <= i < 256 ==> -0x8000 <= v[i] + w[i] < 0x8000 && -0x8000 <= v[i] - w[i] < 0x8000
    ensures AbsBound(Add(v, w), b + c)
  {
  }

  /** mlk_polyvec_add. */
  method VecAdd(v: seq<Coeffs>, w: seq<Coeffs>, ghost b: int, ghost c: int) returns (r: seq<Coeffs>)
    requires |v| == |w| && VecBound(v, b) && VecBound(w, c) && b + c <= 0x8000
    ensures |r| == |v| && forall i :: 0 <= i < |v| ==> r[i] == Add(v[i], w[i])
  {
    hide AbsBound, Add;
    r := [];
    for i := 0 to |v|
      invariant |r| == i && forall j :: 0 <= j < i ==> r[j] == Add(v[j], w[j])
    {
      SumFits(v[i], w[i], b, c);
      var p := AddTo(v[i], w[i]);
      r := r + [p];
    }
  }

  method Reduce(v: Coeffs) returns (r: Coeffs)
    ensures r == Canon(v)
  {
    var p := Load(v);
    PolyReduce(p);
    r := p[..];
  }

  /** mlk_polyvec_reduce. */
  method VecReduce(v: seq<Coeffs>) returns (r: seq<Coeffs>)
    ensures r == CanonVec(v)
  {
    hide Canon;
    r := [];
    for i := 0 to |v|
      invariant |r| == i && forall j :: 0 <= j < i ==> r[j] == Canon(v[j])
    {
      var p := Reduce(v[i]);
      r := r + [p];
    }
  }

  // ---------- The whole pipeline ----------

  lemma ReducedVec(v: seq<Coeffs>, w: seq<Poly>, r: seq<Coeffs>)
    requires VecCong(v, w) && r == CanonVec(v)
    ensures VecCong(r, w) && Uint12Vec(r)
  {
    hide CongSeq, Canon;
    forall i | 0 <= i < |v|
      ensures CongSeq(r[i], w[i]) && Uint12(r[i])
    {
      CanonCong(v[i]);
      CongSeqTrans(r[i], v[i], w[i]);
    }
  }

  /** The product of two vectors of small polynomials the way the code computes it: both transformed, one
      reduced and the other with its cache, multiplied, transformed back. It is the product in the ring. */
  method RingProduct(a: seq<Coeffs>, b: seq<Coeffs>) returns (t: Coeffs)
    requires |a| == |b| <= 4 && VecBound(a, Q) && VecBound(b, Q)
    ensures Vectors(a, b) && AbsBound(t, Q) && CongSeq(t, RingDot(a, b, |a|))
  {
    hide AbsBound, CongSeq, HatVec, Unhat, Scale, HatDot, RingDot, Uint12Vec, VecCached, CanonVec;
    var ah := VecNtt(a);
    var x := VecReduce(ah);
    ReducedVec(ah, HatVec(a), x);
    var y := VecNtt(b);
    var cache := VecMulCache(y);
    var r := BaseMul(x, y, cache);
    t := InvNtt(r);
    ProductTheorem(a, b, x, y, r, t);
  }

  // ---------- Serialised vectors ----------

  lemma EncodeVecCons(v: seq<Poly>, d: nat)
    requires PackWidth(d) && DigitVec(v, d) && v != []
    ensures |v[0]| % GroupValues(d) == 0 && DigitVec(v[1..], d)
            && EncodeVec(v, d) == Encode(v[0], d) + EncodeVec(v[1..], d)
  {
    hide Encode, GroupValues, Base, Digits;
    EncodeLength(v[0], d);
  }

  /** What is left to append after b. */
  ghost predicate VecEncodedFrom(b: seq<int>, v: seq<Poly>, d: nat, i: nat)
    requires PackWidth(d) && DigitVec(v, d)
  {
    i <= |v| && DigitVec(v[i..], d) && b + EncodeVec(v[i..], d) == EncodeVec(v, d)
  }

  lemma VecEncodedStep(b: seq<int>, v: seq<Poly>, d: nat, i: nat)
    requires PackWidth(d) && DigitVec(v, d) && VecEncodedFrom(b, v, d, i) && i < |v|
    ensures |v[i]| % GroupValues(d) == 0 && VecEncodedFrom(b + Encode(v[i], d), v, d, i + 1)
  {
    hide Encode, GroupValues, Base, Digits, EncodeVec;
    var rest := v[i..];
    EncodeVecCons(rest, d);
    assert rest[1..] == v[i + 1..];
    assert b + (Encode(v[i], d) + EncodeVec(v[i + 1..], d)) == b + Encode(v[i], d) + EncodeVec(v[i + 1..], d);
  }

  lemma VecEncodedStart(v: seq<Poly>, d: nat)
    requires PackWidth(d) && DigitVec(v, d)
    ensures VecEncodedFrom([], v, d, 0)
  {
    hide EncodeVec;
    assert v[0..] == v;
    assert [] + EncodeVec(v, d) == EncodeVec(v, d);
  }

  lemma VecEncodedEnd(b: seq<int>, v: seq<Poly>, d: nat)
    requires PackWidth(d) && DigitVec(v, d) && VecEncodedFrom(b, v, d, |v|)
    ensures b == EncodeVec(v, d)
  {
    assert v[|v|..] == [];
    assert b + [] == b;
  }

  method ToBytes(a: Coeffs) returns (b: seq<byte>)
    requires Digits(a, 4096)
    ensures b == Encode(a, 12)
  {
    hide Encode, Digits;
    var r := new byte[384];
    PolyToBytes(r, a);
    b := r[..];
  }

  /** mlk_polyvec_tobytes. */
  method VecToBytes(v: seq<Coeffs>) returns (b: seq<byte>)
    requires DigitVec(v, 12)
    ensures b == EncodeVec(v, 12)
  {
    hide Encode, EncodeVec, VecEncodedFrom, Digits;
    VecEncodedStart(v, 12);
    b := [];
    for i := 0 to |v|
      invariant VecEncodedFrom(b, v, 12, i)
    {
      var x := ToBytes(v[i]);
      VecEncodedStep(b, v, 12, i);
      b := b + x;
    }
    VecEncodedEnd(b, v, 12);
  }

  method CompressOne(a: Coeffs, d: nat) returns (b: seq<byte>)
    requires Width(d) && Canonical(a)
    ensures PackWidth(d) && |Compressed(a, d)| % GroupValues(d) == 0 && b == Encode(Compressed(a, d), d)
  {
    hide Encode, Canonical, Rounded, GroupValues;
    var r := new byte[32 * d];
    PolyCompress.PolyCompress(r, a, d);
    b := r[..];
  }

  /** mlk_polyvec_compress_du. */
  method VecCompress(v: seq<Coeffs>, d: nat) returns (b: seq<byte>)
    requires Width(d) && CanonicalVec(v, |v|)
    ensures b == EncodeVec(CompressedVec(v, d), d)
  {
    hide Encode, EncodeVec, VecEncodedFrom, Canonical, Compressed, GroupValues, DigitVec, Width, PackWidth;
    ghost var t := CompressedVec(v, d);
    VecEncodedStart(t, d);
    b := [];
    for i := 0 to |v|
      invariant VecEncodedFrom(b, t, d, i)
    {
      var x := CompressOne(v[i], d);
      VecEncodedStep(b, t, d, i);
      b := b + x;
    }
    VecEncodedEnd(b, t, d);
  }

  /** What is left to decode, after the values v. */
  ghost predicate VecDecodedFrom(v: seq<Poly>, b: seq<int>, d: nat, k: nat, i: nat, at: nat)
    requires PackWidth(d) && |b| == VecBytes(d, k) && Digits(b, 256)
  {
    && i <= k && at <= |b| && |v| == i && |b| - at == VecBytes(d, k - i) && Digits(b[at..], 256)
    && v + DecodeVec(b[at..], d, k - i) == DecodeVec(b, d, k)
  }

  lemma VecDecodedStart(b: seq<int>, d: nat, k: nat)
    requires PackWidth(d) && |b| == VecBytes(d, k) && Digits(b, 256)
    ensures VecDecodedFrom([], b, d, k, 0, 0)
  {
    hide DecodeVec;
    assert b[0..] == b;
    assert [] + DecodeVec(b, d, k) == DecodeVec(b, d, k);
  }

  lemma DecodeVecCons(b: seq<int>, d: nat, k: nat)
    requires PackWidth(d) && |b| == VecBytes(d, k) && Digits(b, 256) && 1 <= k
    ensures 32 * d <= |b| && |b[32 * d..]| == VecBytes(d, k - 1) && Digits(b[..32 * d], 256) && Digits(b[32 * d..], 256)
    ensures |b[..32 * d]| % GroupBytes(d) == 0
    ensures DecodeVec(b, d, k) == [Decode(b[..32 * d], d)] + DecodeVec(b[32 * d..], d, k - 1)
  {
    hide Decode, GroupBytes;
    DecodeLength(b[..32 * d], d);
  }

  lemma VecDecodedStep(v: seq<Poly>, b: seq<int>, d: nat, k: nat, i: nat, at: nat)
    requires PackWidth(d) && |b| == VecBytes(d, k) && Digits(b, 256) && VecDecodedFrom(v, b, d, k, i, at) && i < k
    ensures at + 32 * d <= |b| && Digits(b[at..at + 32 * d], 256) && |b[at..at + 32 * d]| % GroupBytes(d) == 0
    ensures VecDecodedFrom(v + [Decode(b[at..at + 32 * d], d)], b, d, k, i + 1, at + 32 * d)
  {
    hide Decode, DecodeVec, VecBytes, GroupBytes, Digits;
    var rest, n := b[at..], 32 * d;
    DecodeVecCons(rest, d, k - i);
    assert rest[..n] == b[at..at + n] && rest[n..] == b[at + n..];
    var x := Decode(b[at..at + n], d);
    assert v + ([x] + DecodeVec(b[at + n..], d, k - i - 1)) == v + [x] + DecodeVec(b[at + n..], d, k - i - 1);
  }

  lemma VecDecodedEnd(v: seq<Poly>, b: seq<int>, d: nat, k: nat, at: nat)
    requires PackWidth(d) && |b| == VecBytes(d, k) && Digits(b, 256) && VecDecodedFrom(v, b, d, k, k, at)
    ensures v == DecodeVec(b, d, k)
  {
    hide Digits;
    assert v + [] == v;
  }

  method FromBytes(b: seq<byte>) returns (a: Coeffs)
    requires |b| == 384
    ensures Digits(b, 256) && Digits(a, 4096) && a == Decode(b, 12)
  {
    hide Decode;
    var r := new int16[256];
    PolyFromBytes(r, b);
    a := r[..];
  }

  /** mlk_polyvec_frombytes. */
  method VecFromBytes(b: seq<byte>, k: nat) returns (v: seq<Coeffs>)
    requires |b| == VecBytes(12, k)
    ensures Digits(b, 256) && |v| == k && Uint12Vec(v) && v == DecodeVec(b, 12, k)
  {
    hide Decode, DecodeVec, VecDecodedFrom, VecBytes;
    ByteDigits(b);
    VecDecodedStart(b, 12, k);
    v := [];
    var at: nat := 0;
    for i := 0 to k
      invariant |v| == i && Uint12Vec(v) && VecDecodedFrom(v, b, 12, k, i, at)
    {
      VecDecodedStep(v, b, 12, k, i, at);
      var a := FromBytes(b[at..at + 384]);
      v := v + [a];
      at := at + 384;
    }
    VecDecodedEnd(v, b, 12, k, at);
  }

  method DecompressOne(b: seq<byte>, d: nat) returns (a: Coeffs)
    requires Width(d) && |b| == 32 * d
    ensures PackWidth(d) && Digits(b, 256) && |b| % GroupBytes(d) == 0 && Digits(Decode(b, d), Range(d))
    ensures a == Decompressed(Decode(b, d), d)
  {
    hide Decode, GroupBytes, Width, PackWidth, Range;
    ByteDigits(b);
    var r := new int16[256];
    PolyDecompress(r, b, d);
    a := r[..];
  }

  /** mlk_polyvec_decompress_du. */
  method VecDecompress(b: seq<byte>, d: nat, k: nat) returns (v: seq<Coeffs>)
    requires Width(d) && |b| == VecBytes(d, k)
    ensures PackWidth(d) && Digits(b, 256) && |v| == k
    ensures v == DecompressedVec(DecodeVec(b, d, k), d)
  {
    hide Decode, DecodeVec, VecDecodedFrom, VecBytes, GroupBytes, Width, PackWidth, Range, Base, DigitVec, Decompressed;
    WidthRange(d);
    ByteDigits(b);
    VecDecodedStart(b, d, k);
    ghost var t: seq<Poly> := [];
    v := [];
    var at: nat := 0;
    for i := 0 to k
      invariant |v| == |t| == i && VecDecodedFrom(t, b, d, k, i, at)
      invariant forall j :: 0 <= j < i ==> Digits(t[j], Range(d)) && v[j] == Decompressed(t[j], d)
    {
      VecDecodedStep(t, b, d, k, i, at);
      var a := DecompressOne(b[at..at + 32 * d], d);
      t := t + [Decode(b[at..at + 32 * d], d)];
      v := v + [a];
      at := at + 32 * d;
    }
    VecDecodedEnd(t, b, d, k, at);
  }
}
