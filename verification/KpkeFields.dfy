/**
  Where everything stands in the keys, ciphertexts and messages of K-PKE, and what is
  computed there, component by component (Algorithms 13 to 15 of FIPS 203).
*/
module KpkeFields {
  import opened Ring
  import opened NttSpec
  import opened PolyNtt
  import opened PolyVec
  import opened Compress
  import opened Packing
  import opened PolyCompress
  import opened KpkeSpec

  lemma {:induction false} VecBytesIs(d: nat, k: nat)
    ensures VecBytes(d, k) == 32 * (d * k)
    decreases k
  {
    if k > 0 {
      VecBytesIs(d, k - 1);
      assert d * k == d * (k - 1) + d;
    }
  }

  lemma {:induction false} VecBytesSum(d: nat, i: nat, j: nat)
    ensures VecBytes(d, i + j) == VecBytes(d, i) + VecBytes(d, j)
    decreases j
  {
    if j > 0 {
      VecBytesSum(d, i, j - 1);
    }
  }

  /** Component i of an encoded vector is chunk i. */
  lemma {:induction false} EncodeVecAt(v: seq<Poly>, d: nat, i: nat)
    requires PackWidth(d) && DigitVec(v, d) && i < |v|
    ensures VecBytes(d, i) + 32 * d <= |EncodeVec(v, d)|
    ensures EncodeVec(v, d)[VecBytes(d, i)..VecBytes(d, i) + 32 * d] == Encode(v[i], d)
    decreases i
  {
    hide Encode, Digits, Base, GroupValues;
    EncodeLength(v[0], d);
    var first, rest := Encode(v[0], d), EncodeVec(v[1..], d);
    assert EncodeVec(v, d) == first + rest;
    if i > 0 {
      EncodeVecAt(v[1..], d, i - 1);
      VecBytesSum(d, i - 1, 1);
      var n := VecBytes(d, i - 1);
      assert VecBytes(d, 1) == 32 * d + VecBytes(d, 0);
      assert (first + rest)[n + 32 * d..n + 32 * d + 32 * d] == rest[n..n + 32 * d];
    }
  }

  lemma {:induction false} DecodeVecAt(b: seq<int>, d: nat, k: nat, i: nat)
    requires PackWidth(d) && |b| == VecBytes(d, k) && Digits(b, 256) && i < k
    ensures VecBytes(d, i) + 32 * d <= |b| && 32 * d % GroupBytes(d) == 0
    ensures DecodeVec(b, d, k)[i] == Decode(b[VecBytes(d, i)..VecBytes(d, i) + 32 * d], d)
    decreases i
  {
    hide Decode, GroupBytes, PackWidth, DigitVec, Base;
    var chunk, rest := b[..32 * d], b[32 * d..];
    DigitsPrefix(b, 32 * d, 256);
    DecodeLength(chunk, d);
    if i > 0 {
      DecodeVecAt(rest, d, k - 1, i - 1);
      VecBytesSum(d, i - 1, 1);
      var n := VecBytes(d, i - 1);
      assert VecBytes(d, 1) == 32 * d + VecBytes(d, 0);
      assert rest[n..n + 32 * d] == b[n + 32 * d..n + 32 * d + 32 * d];
    }
  }

  lemma TwelveFits(p: Poly)
    requires |p| == 256
    ensures PackWidth(12) && |Canon(p)| % GroupValues(12) == 0 && Digits(Canon(p), Base(12))
  {
  }

  // ---------- Keys ----------

  /** Bytes 384 i to 384 i + 383 of a public key are the 12-bit fields of component i of A s + e, transformed;
      the last 32 bytes are the public seed. */
  lemma PublicKeyBytes(x: KeyRandomness, k: nat, i: nat)
    requires KeyOk(x, k) && i < k
    ensures var pk, t := PublicKey(x, k), Add(HatDot(x.a[i], HatVec(x.s), k), Hat(x.e[i]));
            && |pk| == 384 * k + 32 && pk[384 * k..] == x.rho
            && PackWidth(12) && |Canon(t)| % GroupValues(12) == 0 && Digits(Canon(t), Base(12))
            && pk[384 * i..384 * i + 384] == Encode(Canon(t), 12)
  {
    hide Encode, EncodeVec, HatDot, HatVec, Hat, Add, Canon, AbsBound, MatVec, Base, GroupValues, VecBytes, DigitVec,
      Digits;
    var t := KeyT(x, k);
    CanonDigits(t, k);
    TwelveFits(t[i]);
    VecBytesIs(12, k);
    VecBytesIs(12, i);
    EncodeVecAt(CanonVec(t), 12, i);
    var b := EncodeVec(CanonVec(t), 12);
    assert PublicKey(x, k) == b + x.rho;
    assert (b + x.rho)[384 * i..384 * i + 384] == b[384 * i..384 * i + 384];
  }

  /** Chunk i of a secret key is the transform of s[i]. */
  lemma SecretKeyBytes(x: KeyRandomness, k: nat, i: nat)
    requires KeyOk(x, k) && i < k
    ensures var sk := SecretKey(x, k);
            && |sk| == 384 * k
            && PackWidth(12) && |Canon(Hat(x.s[i]))| % GroupValues(12) == 0 && Digits(Canon(Hat(x.s[i])), Base(12))
            && sk[384 * i..384 * i + 384] == Encode(Canon(Hat(x.s[i])), 12)
  {
    hide Encode, EncodeVec, Hat, Canon, AbsBound, IsMat, Base, GroupValues, VecBytes, DigitVec, Digits;
    var s := HatVec(x.s);
    CanonDigits(s, k);
    TwelveFits(s[i]);
    VecBytesIs(12, k);
    VecBytesIs(12, i);
    EncodeVecAt(CanonVec(s), 12, i);
  }

  // ---------- Ciphertexts ----------

  /** 768, 1088 and 1568 bytes: k chunks for u, then v. */
  lemma CiphertextLengths(k: nat)
    requires Rank(k)
    ensures VecBytes(Du(k), k) == (if k == 2 then 640 else if k == 3 then 960 else 1408)
    ensures 32 * Dv(k) == (if k == 4 then 160 else 128)
    ensures VecBytes(Du(k), k) + 32 * Dv(k) == (if k == 2 then 768 else if k == 3 then 1088 else 1568)
  {
    hide VecBytes;
    VecBytesIs(Du(k), k);
  }

  /** Component i of u comes from column i of the matrix. */
  lemma CipherUAt(a: seq<seq<Poly>>, y: Coins, k: nat, i: nat, column: seq<Poly>)
    requires IsMat(a, k) && CoinsOk(y, k) && i < k && |column| == k && forall j :: 0 <= j < k ==> column[j] == a[j][i]
    ensures Vectors(column, HatVec(y.r))
    ensures CipherU(a, y, k)[i] == Canon(Add(Inv(HatDot(column, HatVec(y.r), k)), y.e1[i]))
  {
    hide HatDot, HatVec, Hat, Inv, Add, Canon, AbsBound;
    assert column == Transpose(a, k)[i];
  }

  /** v is t.r + e2 and the message, with t in the 12-bit fields of the public key. */
  lemma CipherVIs(y: Coins, k: nat, m: seq<int>, pk: seq<int>, t: seq<Poly>)
    requires CoinsOk(y, k) && |m| == 32 && Digits(m, 256) && |pk| == VecBytes(12, k) + 32 && Digits(pk, 256)
    requires |t| == k && forall j :: 0 <= j < k ==> FieldsAre(pk, j, t[j])
    ensures Vectors(t, HatVec(y.r))
    ensures KeyV(y, k, m, pk) == Canon(Add(Add(Inv(HatDot(t, HatVec(y.r), k)), y.e2), MessagePoly(m)))
  {
    hide HatDot, HatVec, Hat, Inv, Add, Canon, AbsBound, MessagePoly, Decode, DecodeVec, Digits, GroupBytes, VecBytes,
      DigitVec;
    var n := VecBytes(12, k);
    DigitsPrefix(pk, n, 256);
    TwelveBits();
    var d := DecodeVec(pk[..n], 12, k);
    DigitVecIsVec(d, 12);
    forall j | 0 <= j < k
      ensures d[j] == t[j]
    {
      DecodeVecAt(pk[..n], 12, k, j);
      VecBytesIs(12, j);
      VecBytesIs(12, k);
      assert pk[..n][384 * j..384 * j + 384] == pk[384 * j..384 * j + 384];
      assert FieldsAre(pk, j, t[j]);
    }
    assert d == t;
  }

  ghost predicate FieldsAre(pk: seq<int>, j: nat, p: Poly) {
    && 384 * j + 384 <= |pk| && Digits(pk[384 * j..384 * j + 384], 256) && PackWidth(12) && 384 % GroupBytes(12) == 0
    && p == Decode(pk[384 * j..384 * j + 384], 12)
  }

  /** The 32 d bytes at `at` are the d-bit fields of the coefficients of w, rounded. */
  ghost predicate RoundedAt(c: seq<int>, at: nat, w: Poly, d: nat) {
    hide Encode, Canonical, Rounded, Range, Base, GroupValues, Digits;
    && Width(d) && |w| == 256 && Canonical(w) && |Compressed(w, d)| % GroupValues(d) == 0
    && at + 32 * d <= |c| && c[at..at + 32 * d] == Encode(Compressed(w, d), d)
  }

  /** The chunks of a ciphertext: the rounded components of u, then the rounded v. */
  lemma CiphertextBytes(u: seq<Poly>, v: Poly, k: nat, i: nat, c: seq<int>, du: nat, dv: nat)
    requires Rank(k) && |v| == 256 && Canonical(v) && CanonicalVec(u, k) && c == Ciphertext(u, v, k) && i < k
    requires du == (if k == 4 then 11 else 10) && dv == (if k == 4 then 5 else 4)
    ensures |c| == VecBytes(du, k) + 32 * dv
    ensures RoundedAt(c, VecBytes(du, i), u[i], du) && RoundedAt(c, VecBytes(du, k), v, dv)
  {
    hide Encode, EncodeVec, Canonical, Rounded, Range, Base, GroupValues, VecBytes, DigitVec, Digits;
    WidthsPack(k);
    EncodeLength(Compressed(u[i], du), du);
    EncodeLength(Compressed(v, dv), dv);
    EncodeVecAt(CompressedVec(u, du), du, i);
    var b, tail := EncodeVec(CompressedVec(u, du), du), Encode(Compressed(v, dv), dv);
    assert c == b + tail;
    var n := VecBytes(du, i);
    assert (b + tail)[n..n + 32 * du] == b[n..n + 32 * du];
    assert (b + tail)[|b|..|b| + 32 * dv] == tail;
  }

  lemma EncryptIs(a: seq<seq<Poly>>, y: Coins, k: nat, m: seq<int>, pk: seq<int>)
    requires Rank(k) && IsMat(a, k) && CoinsOk(y, k) && |m| == 32 && Digits(m, 256)
    requires |pk| == VecBytes(12, k) + 32 && Digits(pk, 256)
    ensures Encrypt(a, y, k, m, pk) == Ciphertext(CipherU(a, y, k), KeyV(y, k, m, pk), k)
  {
    hide CipherU, KeyV, Ciphertext, IsMat, CoinsOk, Digits, VecBytes;
  }

  // ---------- Messages ----------

  /** Value 8 j + b of unpacked bits is bit b of byte j. */
  lemma {:induction false} DecodeBit(m: seq<int>, j: nat, b: nat, p: int)
    requires Digits(m, 256) && j < |m| && b < 8 && p == [1, 2, 4, 8, 16, 32, 64, 128][b]
    ensures PackWidth(1) && |m| % GroupBytes(1) == 0
    ensures |Decode(m, 1)| == 8 * |m| && Decode(m, 1)[8 * j + b] == m[j] / p % 2
    decreases |m|
  {
    hide Decode;
    DecodeUnfold(m, 1);
    DecodeKeeps(m, 1);
    DecodeKeeps(m[1..], 1);
    var t, rest := Unpack(m[..1], 1), Decode(m[1..], 1);
    if j > 0 {
      DecodeBit(m[1..], j - 1, b, p);
      assert (t + rest)[8 * j + b] == rest[8 * (j - 1) + b];
    }
  }

  /** Coefficient 8 j + b of a message polynomial is 1665 if bit b of byte j is set, and 0 if not. */
  lemma MessageCoefficient(m: seq<int>, j: nat, b: nat, p: int)
    requires |m| == 32 && Digits(m, 256) && j < 32 && b < 8 && p == [1, 2, 4, 8, 16, 32, 64, 128][b]
    ensures MessagePoly(m)[8 * j + b] == 1665 * (m[j] / p % 2)
  {
    hide Decode;
    DecodeBit(m, j, b, p);
    DecodeByte(m);
  }
}
