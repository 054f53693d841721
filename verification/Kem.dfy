/**
  ML-KEM on top of K-PKE (kem.c, Algorithms 16 to 18 of FIPS 203): key generation,
  encapsulation with the modulus check, decapsulation with re-encryption and
  implicit rejection.
*/
module Kem {
  import opened Bytes
  import opened Ring
  import opened PolyNtt
  import opened Packing
  import opened PolyCompress
  import opened KpkeSpec
  import opened KpkeCorrect
  import opened PolyVecOps
  import opened Kpke
  import opened Verify

  const ERR_INVALID_PK := -4
  const ERR_INVALID_SK := -5

  datatype Oracles = Oracles(samplers: Samplers, h: seq<byte> -> seq<byte>, j: seq<byte> -> seq<byte>)

  ghost predicate Hashes(o: Oracles) {
    && Samples(o.samplers)
    && (forall s :: |o.h(s)| == 32)
    && (forall s :: |o.j(s)| == 32)
  }

  // ---------- The modulus check ----------

  lemma {:induction false} EncodeDecodeVec(b: seq<int>, d: nat, k: nat)
    requires PackWidth(d) && |b| == VecBytes(d, k) && Digits(b, 256)
    ensures EncodeVec(DecodeVec(b, d, k), d) == b
    decreases k
  {
    hide Encode, Decode, Digits, Base, GroupValues, GroupBytes;
    if k > 0 {
      DecodeVecCons(b, d, k);
      var x, rest := b[..32 * d], b[32 * d..];
      EncodeDecode(x, d);
      EncodeDecodeVec(rest, d, k - 1);
      var v := DecodeVec(b, d, k);
      assert v[0] == Decode(x, d) && v[1..] == DecodeVec(rest, d, k - 1);
      assert x + rest == b;
    }
  }

  lemma CanonFixed(v: seq<Poly>, k: nat)
    requires DigitVec(v, 12) && |v| == k
    ensures CanonVec(v) == v <==> CanonicalVec(v, k)
  {
    if CanonicalVec(v, k) {
      forall i | 0 <= i < k
        ensures Canon(v[i]) == v[i]
      {
        assert Canonical(v[i]);
      }
    } else if CanonVec(v) == v {
      forall i | 0 <= i < k
        ensures Canonical(v[i])
      {
        assert v[i] == Canon(v[i]);
      }
    }
  }

  /** The 12-bit fields of an encoded vector. */
  ghost function Fields(pk: seq<byte>, k: nat): (v: seq<Poly>)
    requires |pk| == VecBytes(12, k) + 32
    ensures |v| == k && DigitVec(v, 12)
  {
    hide DecodeVec, DigitVec;
    ByteDigits(pk[..VecBytes(12, k)]);
    DecodeVec(pk[..VecBytes(12, k)], 12, k)
  }

  /** mlk_kem_check_pk: unpack, reduce, pack and compare. */
  method CheckPk(k: nat, pk: seq<byte>) returns (ret: int)
    requires Rank(k) && |pk| == VecBytes(12, k) + 32
    ensures ret == if CanonicalVec(Fields(pk, k), k) then 0 else ERR_INVALID_PK
  {
    hide DecodeVec, EncodeVec, VecBytes, DigitVec, CanonVec, CanonicalVec, Digits, IsVec;
    var n := VecBytes(12, k);
    var p := VecFromBytes(pk[..n], k);
    DigitVecIsVec(p, 12);
    CanonDigits(p, k);
    var q := VecReduce(p);
    var b := VecToBytes(q);
    CanonFixed(p, k);
    EncodeDecodeVec(pk[..n], 12, k);
    DecodeEncodeVec(q, 12);
    var differ := Memcmp(pk[..n], b);
    ret := if differ != 0 then ERR_INVALID_PK else 0;
  }

  // ---------- Key pairs and secrets ----------

  /** Encryption under a serialised key with sampled coins. */
  ghost function EncryptWith(o: Samplers, k: nat, m: seq<byte>, pk: seq<byte>, coins: seq<byte>): (c: seq<int>)
    requires Samples(o) && Rank(k) && |m| == 32 && |pk| == VecBytes(12, k) + 32
  {
    hide MatrixOf, CoinsFrom, Encrypt, Samples, VecBytes, CoinsOk, IsMat;
    ByteDigits(m);
    ByteDigits(pk);
    CoinsFromOk(o, k, coins);
    MatrixTransposed(o, pk[VecBytes(12, k)..], k);
    Encrypt(MatrixOf(o, pk[VecBytes(12, k)..], k, false), CoinsFrom(o, k, coins), k, m, pk)
  }

  /** The parts of a secret key: K-PKE key, public key, its hash, and the rejection secret z. */
  datatype SecretParts = SecretParts(dk: seq<byte>, pk: seq<byte>, hash: seq<byte>, z: seq<byte>)

  function SecretBytes(k: nat): nat { 2 * VecBytes(12, k) + 96 }

  function Parts(sk: seq<byte>, k: nat): (p: SecretParts)
    requires |sk| == SecretBytes(k)
    ensures |p.dk| == VecBytes(12, k) && |p.pk| == VecBytes(12, k) + 32 && |p.hash| == 32 && |p.z| == 32
    ensures sk == p.dk + p.pk + p.hash + p.z
  {
    var n := VecBytes(12, k);
    SecretParts(sk[..n], sk[n..2 * n + 32], sk[2 * n + 32..2 * n + 64], sk[2 * n + 64..])
  }

  function CipherBytes(k: nat): nat
    requires Rank(k)
  {
    VecBytes(Du(k), k) + 32 * Dv(k)
  }

  /** mlk_kem_keypair_derand without the optional consistency test. */
  method KeypairDerand(o: Oracles, k: byte, coins: seq<byte>) returns (pk: seq<byte>, sk: seq<byte>)
    requires Hashes(o) && Rank(k) && |coins| == 64
    ensures |o.samplers.g(coins[..32] + [k])| == 64 && KeyOk(KeyFrom(o.samplers, k, coins[..32]), k)
    ensures |pk| == VecBytes(12, k) + 32 && |sk| == SecretBytes(k)
    ensures var x := KeyFrom(o.samplers, k, coins[..32]);
            pk == PublicKey(x, k) && Parts(sk, k) == SecretParts(SecretKey(x, k), pk, o.h(pk), coins[32..])
  {
    hide Samples, KeyOk, KeyFrom, PublicKey, SecretKey, VecBytes;
    var dk;
    pk, dk := IndcpaKeypair(o.samplers, k, coins[..32]);
    sk := dk + pk + o.h(pk) + coins[32..];
    assert Parts(sk, k) == SecretParts(dk, pk, o.h(pk), coins[32..]);
  }

  // ---------- Encapsulation ----------

  /** The shared secret and the encryption coins for a message under a public key. */
  function SecretAndCoins(o: Oracles, m: seq<byte>, hash: seq<byte>): (kr: (seq<byte>, seq<byte>))
    requires |o.samplers.g(m + hash)| == 64
    ensures |kr.0| == 32 && |kr.1| == 32
  {
    (o.samplers.g(m + hash)[..32], o.samplers.g(m + hash)[32..])
  }

  /** mlk_kem_enc_derand. */
  method EncDerand(o: Oracles, k: nat, pk: seq<byte>, coins: seq<byte>) returns (ret: int, ct: seq<byte>, ss: seq<byte>)
    requires Hashes(o) && Rank(k) && |pk| == VecBytes(12, k) + 32 && |coins| == 32
    ensures ret == if CanonicalVec(Fields(pk, k), k) then 0 else ERR_INVALID_PK
    ensures |o.samplers.g(coins + o.h(pk))| == 64
    ensures var kr := SecretAndCoins(o, coins, o.h(pk));
            ret == 0 ==> ss == kr.0 && ct == EncryptWith(o.samplers, k, coins, pk, kr.1)
    ensures var g := o.samplers.g(coins + o.h(pk));
            ret == 0 ==> ss == g[..32] && ct == EncryptWith(o.samplers, k, coins, pk, g[32..])
  {
    hide Fields, CanonicalVec, VecBytes, Encrypt, MatrixOf, CoinsFrom;
    ct, ss := [], [];
    ret := CheckPk(k, pk);
    var buf := coins + o.h(pk);
    var kr := o.samplers.g(buf);
    if ret == 0 {
      ct := IndcpaEnc(o.samplers, k, coins, pk, kr[32..]);
      ss := kr[..32];
    }
  }

  // ---------- Decapsulation ----------

  lemma PlainMessage(k: nat, dk: seq<byte>, ct: seq<byte>)
    requires Rank(k) && |dk| == VecBytes(12, k) && |ct| == CipherBytes(k)
    ensures Digits(dk, 256) && Digits(ct, 256) && |Decrypt(k, dk, ct)| == 32 && Digits(Decrypt(k, dk, ct), 256)
  {
    hide Decrypt, VecBytes, Du, Dv;
    ByteDigits(dk);
    ByteDigits(ct);
  }

  lemma CipherBytesSplit(k: nat)
    requires Rank(k)
    ensures CipherBytes(k) == VecBytes(Du(k), k) + 32 * Dv(k)
  {
  }

  ghost function AsBytes(s: seq<int>): (b: seq<byte>)
    requires Digits(s, 256)
    ensures b == s
  {
    s
  }

  /** The message a ciphertext decrypts to. */
  ghost function Candidate(k: nat, dk: seq<byte>, ct: seq<byte>): (m: seq<byte>)
    requires Rank(k) && |dk| == VecBytes(12, k) && |ct| == CipherBytes(k)
  {
    hide *;
    CipherBytesSplit(k);
    PlainMessage(k, dk, ct);
    AsBytes(Decrypt(k, dk, ct))
  }

  lemma CandidateLength(k: nat, dk: seq<byte>, ct: seq<byte>)
    requires Rank(k) && |dk| == VecBytes(12, k) && |ct| == CipherBytes(k)
    ensures |Candidate(k, dk, ct)| == 32
  {
    hide Decrypt, VecBytes, Du, Dv;
    PlainMessage(k, dk, ct);
  }

  /** A ciphertext that re-encrypts to itself yields the secret; any other yields J(z || ct). */
  ghost function Decapsulated(o: Oracles, k: nat, ct: seq<byte>, p: SecretParts): (ss: seq<byte>)
    requires Hashes(o) && Rank(k) && |ct| == CipherBytes(k)
    requires |p.dk| == VecBytes(12, k) && |p.pk| == VecBytes(12, k) + 32 && |p.hash| == 32 && |p.z| == 32
  {
    hide *;
    CandidateLength(k, p.dk, ct);
    OraclesSample(o);
    var m := Candidate(k, p.dk, ct);
    GIs64(o, m + p.hash);
    var kr := SecretAndCoins(o, m, p.hash);
    if EncryptWith(o.samplers, k, m, p.pk, kr.1) == ct then kr.0 else o.j(p.z + ct)
  }

  /** With m the decrypted message and g the hash of m and the stored hash: the first half of g if encrypting
      m under the second half gives the ciphertext again, and J(z || ct) otherwise. */
  ghost predicate SecretIs(o: Oracles, k: nat, ct: seq<byte>, p: SecretParts, ss: seq<byte>)
  {
    hide Hashes, Samples, VecBytes, EncryptWith, Candidate;
    && Hashes(o) && Rank(k) && |ct| == CipherBytes(k) && Samples(o.samplers)
    && |p.dk| == VecBytes(12, k) && |p.pk| == VecBytes(12, k) + 32
    && var m := Candidate(k, p.dk, ct);
    && |m| == 32 && |o.samplers.g(m + p.hash)| == 64
    && var g := o.samplers.g(m + p.hash);
    ss == if EncryptWith(o.samplers, k, m, p.pk, g[32..]) == ct then g[..32] else o.j(p.z + ct)
  }

  /** mlk_kem_check_sk. */
  method CheckSk(o: Oracles, k: nat, sk: seq<byte>) returns (ret: int)
    requires Hashes(o) && Rank(k) && |sk| == SecretBytes(k)
    ensures ret == if o.h(Parts(sk, k).pk) == Parts(sk, k).hash then 0 else ERR_INVALID_SK
  {
    hide VecBytes, Samples;
    var p := Parts(sk, k);
    var differ := Memcmp(p.hash, o.h(p.pk));
    ret := if differ != 0 then ERR_INVALID_SK else 0;
  }

  /** mlk_kem_dec. */
  method Dec(o: Oracles, k: nat, ct: seq<byte>, sk: seq<byte>) returns (ret: int, ss: seq<byte>)
    requires Hashes(o) && Rank(k) && |ct| == CipherBytes(k) && |sk| == SecretBytes(k)
    ensures ret == if o.h(Parts(sk, k).pk) == Parts(sk, k).hash then 0 else ERR_INVALID_SK
    ensures ret == 0 ==> ss == Decapsulated(o, k, ct, Parts(sk, k))
    ensures ret == 0 ==> SecretIs(o, k, ct, Parts(sk, k), ss)
  {
    hide VecBytes, Samples, Decrypt, Encrypt, MatrixOf, CoinsFrom, Du, Dv, Parts, CipherBytes;
    ss := [];
    ret := CheckSk(o, k, sk);
    if ret == 0 {
      var p := Parts(sk, k);
      PlainMessage(k, p.dk, ct);
      CipherBytesSplit(k);
      var m := IndcpaDec(k, ct, p.dk);
      GIs64(o, m + p.hash);
      var kr := o.samplers.g(m + p.hash);
      var tmp := IndcpaEnc(o.samplers, k, m, p.pk, kr[32..]);
      EncryptWithBytes(o.samplers, k, m, p.pk, kr[32..]);
      var fail := Memcmp(ct, tmp);
      var reject := o.j(p.z + ct);
      var out := new byte[32](i requires 0 <= i < 32 => reject[i]);
      assert out[..] == reject;
      CmovZero(out, kr[..32], fail);
      ss := out[..];
    }
  }

  lemma OraclesSample(o: Oracles)
    requires Hashes(o)
    ensures Samples(o.samplers)
  {
  }

  lemma GIs64(o: Oracles, s: seq<byte>)
    requires Hashes(o)
    ensures |o.samplers.g(s)| == 64
  {
  }

  lemma EncryptWithBytes(o: Samplers, k: nat, m: seq<byte>, pk: seq<byte>, coins: seq<byte>)
    requires Samples(o) && Rank(k) && |m| == 32 && |pk| == VecBytes(12, k) + 32
    ensures |EncryptWith(o, k, m, pk, coins)| == CipherBytes(k) && Digits(EncryptWith(o, k, m, pk, coins), 256)
  {
    hide MatrixOf, CoinsFrom, Encrypt, Samples, VecBytes, CoinsOk, IsMat, Du, Dv;
    ByteDigits(m);
    ByteDigits(pk);
    CoinsFromOk(o, k, coins);
    MatrixTransposed(o, pk[VecBytes(12, k)..], k);
    EncryptBytes(MatrixOf(o, pk[VecBytes(12, k)..], k, false), CoinsFrom(o, k, coins), k, m, pk);
  }

  // ---------- Both sides agree ----------

  /** An honest public key passes the modulus check. */
  lemma HonestKeyPasses(x: KeyRandomness, k: nat, pk: seq<byte>)
    requires KeyOk(x, k) && pk == PublicKey(x, k)
    ensures CanonicalVec(Fields(pk, k), k)
  {
    hide EncodeVec, DecodeVec, KeyT, DigitVec, Digits, VecBytes, AbsBound, SmallVec, IsMat;
    var t := KeyT(x, k);
    CanonDigits(t, k);
    assert pk[..VecBytes(12, k)] == EncodeVec(CanonVec(t), 12);
    DecodeEncodeVec(CanonVec(t), 12);
  }

  /**
    For every seed, message and coins: when the noise of every coefficient fits,
    decapsulating what encapsulation produced returns the encapsulated secret.
  */
  lemma KemAgrees(o: Oracles, k: byte, seed: seq<byte>, z: seq<byte>, m: seq<byte>, x: KeyRandomness, y: Coins,
                  pk: seq<byte>, dk: seq<byte>, kr: (seq<byte>, seq<byte>), ct: seq<byte>)
    requires Hashes(o) && Rank(k) && |z| == 32 && |m| == 32
    requires |o.samplers.g(seed + [k])| == 64 && x == KeyFrom(o.samplers, k, seed) && KeyOk(x, k)
    requires pk == PublicKey(x, k) && dk == SecretKey(x, k)
    requires |o.samplers.g(m + o.h(pk))| == 64 && kr == SecretAndCoins(o, m, o.h(pk))
    requires y == CoinsFrom(o.samplers, k, kr.1) && CoinsOk(y, k) && ct == EncryptWith(o.samplers, k, m, pk, kr.1)
    requires Digits(m, 256) && NoiseFits(Noise(x, y, m, k), m)
    ensures |ct| == CipherBytes(k) && Decapsulated(o, k, ct, SecretParts(dk, pk, o.h(pk), z)) == kr.0
  {
    hide VecBytes, Samples, Decrypt, Encrypt, MatrixOf, Du, Dv, Noise, NoiseFits, Digits, PublicKey, SecretKey, KeyOk,
      CoinsOk, IsMat;
    EncryptWithBytes(o.samplers, k, m, pk, kr.1);
    HonestSeed(o.samplers, k, seed, x, pk);
    ByteDigits(m);
    KpkeDecrypts(x, y, m, k, pk, dk, ct);
  }

  /** The public seed at the end of an honest key regenerates its matrix. */
  lemma HonestSeed(o: Samplers, k: byte, seed: seq<byte>, x: KeyRandomness, pk: seq<byte>)
    requires |o.g(seed + [k])| == 64 && x == KeyFrom(o, k, seed) && KeyOk(x, k) && pk == PublicKey(x, k)
    ensures MatrixOf(o, pk[VecBytes(12, k)..], k, false) == x.a
  {
    hide EncodeVec, KeyT, DigitVec, Digits, VecBytes, AbsBound, SmallVec, IsMat, CanonVec;
    CanonDigits(KeyT(x, k), k);
    assert pk[VecBytes(12, k)..] == x.rho;
  }

  /**
    A whole exchange: generate a key pair, encapsulate m under it, decapsulate. Both
    checks pass, and the secrets agree whenever the noise fits.
  */
  method Exchange(o: Oracles, k: byte, coins: seq<byte>, m: seq<byte>)
    returns (pk: seq<byte>, ct: seq<byte>, sent: seq<byte>, received: seq<byte>, retE: int, retD: int,
             ghost x: KeyRandomness, ghost y: Coins)
    requires Hashes(o) && Rank(k) && |coins| == 64 && |m| == 32
    ensures retE == 0 && retD == 0
    ensures |o.samplers.g(coins[..32] + [k])| == 64 && x == KeyFrom(o.samplers, k, coins[..32])
    ensures KeyOk(x, k) && pk == PublicKey(x, k)
    ensures |o.samplers.g(m + o.h(pk))| == 64 && sent == SecretAndCoins(o, m, o.h(pk)).0
    ensures sent == o.samplers.g(m + o.h(pk))[..32]
    ensures y == CoinsFrom(o.samplers, k, SecretAndCoins(o, m, o.h(pk)).1) && CoinsOk(y, k)
    ensures |pk| == VecBytes(12, k) + 32 && ct == EncryptWith(o.samplers, k, m, pk, SecretAndCoins(o, m, o.h(pk)).1)
    ensures ct == EncryptWith(o.samplers, k, m, pk, o.samplers.g(m + o.h(pk))[32..])
    ensures Digits(m, 256) && (NoiseFits(Noise(x, y, m, k), m) ==> received == sent)
    ensures CentredSmall(Noise(x, y, m, k)) ==> received == sent
  {
    hide KeyOk, CoinsOk, PublicKey, SecretKey, EncryptWith, Decapsulated, NoiseFits, Noise, Digits, VecBytes, Parts,
      CoinsFrom, KeyFrom, Samples, CanonicalVec, Fields, CipherBytes, CentredSmall, SecretIs;
    ByteDigits(m);
    var sk;
    pk, sk := KeypairDerand(o, k, coins);
    x := KeyFrom(o.samplers, k, coins[..32]);
    HonestKeyPasses(x, k, pk);
    retE, ct, sent := EncDerand(o, k, pk, m);
    ghost var kr := SecretAndCoins(o, m, o.h(pk));
    y := CoinsFrom(o.samplers, k, kr.1);
    CoinsFromOk(o.samplers, k, kr.1);
    EncryptWithBytes(o.samplers, k, m, pk, kr.1);
    retD, received := Dec(o, k, ct, sk);
    if CentredSmall(Noise(x, y, m, k)) {
      CentredSmallFits(Noise(x, y, m, k), m);
    }
    if NoiseFits(Noise(x, y, m, k), m) {
      KemAgrees(o, k, coins[..32], coins[32..], m, x, y, pk, Parts(sk, k).dk, kr, ct);
    }
  }
}
