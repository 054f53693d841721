/**
  The samplers and hashes of ML-KEM, built from one permutation: matrix entries from
  SHAKE128 streams, noise from SHAKE256 and the binomial sampler, G and H from SHA-3,
  J from SHAKE256 (section 4.1 of FIPS 203). They meet everything K-PKE and the KEM
  ask of their samplers and hashes.
*/
module MlKem {
  import opened Bytes
  import opened PolyNtt
  import opened PolyVec
  import opened PolyCompress
  import opened KpkeSpec
  import opened Kpke
  import opened Kem
  import opened Sponge
  import opened Sampling
  import opened Cbd

  ghost function ZeroPoly(): Coeffs { seq(256, i => 0) }

  /** The sample of a stream; a stream without 256 acceptable candidates never finishes and has none. */
  ghost function StreamPoly(f: Permutation, seed: seq<byte>): Coeffs {
    if n: nat :| Enough(f, seed, n) then
      SampleShape(f, seed, n);
      SampleNtt(f, seed, n)
    else
      ZeroPoly()
  }

  lemma SampleShape(f: Permutation, seed: seq<byte>, n: nat)
    requires Enough(f, seed, n)
    ensures |SampleNtt(f, seed, n)| == 256 && Canonical(SampleNtt(f, seed, n))
    ensures forall i :: 0 <= i < 256 ==> -0x8000 <= SampleNtt(f, seed, n)[i] < 0x8000
  {
    hide Accepted, Xof;
    AcceptedRange(Xof(f, seed, n));
  }

  lemma StreamPolyIs(f: Permutation, seed: seq<byte>, n: nat)
    requires Enough(f, seed, n)
    ensures StreamPoly(f, seed) == SampleNtt(f, seed, n)
  {
    hide Enough, SampleNtt;
    var m: nat :| Enough(f, seed, m) && StreamPoly(f, seed) == SampleNtt(f, seed, m);
    SampleUnique(f, seed, m, n);
  }

  lemma StreamPolyCanonical(f: Permutation, seed: seq<byte>)
    ensures Canonical(StreamPoly(f, seed))
  {
    hide Enough, SampleNtt, Canonical;
    if n: nat :| Enough(f, seed, n) {
      StreamPolyIs(f, seed, n);
      SampleShape(f, seed, n);
    } else {
      ZeroCanonical();
    }
  }

  lemma ZeroCanonical()
    ensures Canonical(ZeroPoly())
  {
  }

  /** Noise: SHAKE256 of seed and nonce, through the binomial sampler. */
  ghost function NoisePoly(f: Permutation, e: nat, seed: seq<byte>, nonce: nat): (p: Coeffs)
    requires Eta(e)
  {
    var buf := SpongeOf(f, 136, seed + [nonce % 256], SHAKE, 64 * e);
    NoiseRange(buf, e);
    seq(256, k requires 0 <= k < 256 => Coefficient(buf, e, k))
  }

  lemma NoiseRange(buf: seq<byte>, e: nat)
    requires Eta(e)
    ensures forall k: nat :: -(e + 1) < Coefficient(buf, e, k) < e + 1
  {
    hide Count, Shift, Value;
  }

  lemma NoiseSmall(f: Permutation, e: nat, seed: seq<byte>, nonce: nat)
    requires Eta(e)
    ensures AbsBound(NoisePoly(f, e, seed, nonce), e + 1)
  {
    hide SpongeOf, Coefficient;
    NoiseRange(SpongeOf(f, 136, seed + [nonce % 256], SHAKE, 64 * e), e);
  }

  const SHA3: byte := 0x06

  /** eta1 is 3 for k = 2 and 2 otherwise; eta2 is 2. */
  ghost function Concrete(f: Permutation, k: nat): Oracles {
    Oracles(
      Samplers(
        (s, x, y) => StreamPoly(f, s + [x % 256, y % 256]),
        (s, n) => NoisePoly(f, if k == 2 then 3 else 2, s, n),
        (s, n) => NoisePoly(f, 2, s, n),
        m => SpongeOf(f, 72, m, SHA3, 64)),
      m => SpongeOf(f, 136, m, SHA3, 32),
      m => SpongeOf(f, 136, m, SHAKE, 32))
  }

  /** G is SHA3-512, H is SHA3-256, J is SHAKE256 and matrix streams are SHAKE128: each rate is 200 bytes less
      twice the security in bytes, SHA-3 ends its message in 01 and SHAKE in 1111. */
  lemma ConcreteRates(f: Permutation, k: nat, m: seq<byte>, sha3: byte, shake: byte, n: nat)
    requires Domain(sha3, Suffix01()) && Domain(shake, Suffix1111())
    ensures var o := Concrete(f, k);
            && o.samplers.g(m) == SpongeOf(f, 200 - 2 * 64, m, sha3, 64)
            && o.h(m) == SpongeOf(f, 200 - 2 * 32, m, sha3, 32)
            && o.j(m) == SpongeOf(f, 200 - 2 * 32, m, shake, 32)
    ensures Xof(f, m, n) == SpongeOf(f, 200 - 2 * 16, m, shake, (200 - 2 * 16) * n)
  {
    hide SpongeOf;
    assert Suffix01() != Suffix1111() by { assert |Suffix01()| != |Suffix1111()|; }
  }

  /** The noise of a seed and a nonce comes from SHAKE256 of both, 64 bytes for each unit of eta. */
  lemma ConcreteNoise(f: Permutation, k: nat, seed: seq<byte>, nonce: byte, i: nat, shake: byte)
    requires Domain(shake, Suffix1111()) && i < 256
    ensures var o, e := Concrete(f, k).samplers, if k == 2 then 3 else 2;
            && o.noise1(seed, nonce)[i]
               == Coefficient(SpongeOf(f, 200 - 2 * 32, seed + [nonce], shake, 64 * e), e, i)
            && o.noise2(seed, nonce)[i]
               == Coefficient(SpongeOf(f, 200 - 2 * 32, seed + [nonce], shake, 64 * 2), 2, i)
  {
    hide SpongeOf, Coefficient, NoisePoly;
    assert Suffix01() != Suffix1111() by { assert |Suffix01()| != |Suffix1111()|; }
    NoiseAt(f, if k == 2 then 3 else 2, seed, nonce, i);
    NoiseAt(f, 2, seed, nonce, i);
  }

  lemma NoiseAt(f: Permutation, e: nat, seed: seq<byte>, nonce: byte, i: nat)
    requires Eta(e) && i < 256
    ensures NoisePoly(f, e, seed, nonce)[i] == Coefficient(SpongeOf(f, 136, seed + [nonce], SHAKE, 64 * e), e, i)
  {
    hide SpongeOf, Coefficient;
    assert nonce % 256 == nonce;
  }

  /** They meet the requirements of K-PKE and the KEM. */
  lemma ConcreteHashes(f: Permutation, k: nat)
    ensures Hashes(Concrete(f, k))
  {
    hide StreamPoly, NoisePoly, SpongeOf, Canonical, AbsBound;
    var o := Concrete(f, k);
    forall s: seq<byte>, x: nat, y: nat
      ensures Canonical(o.samplers.entry(s, x, y))
    {
      StreamPolyCanonical(f, s + [x % 256, y % 256]);
    }
    forall s: seq<byte>, n: nat
      ensures AbsBound(o.samplers.noise1(s, n), 4) && AbsBound(o.samplers.noise2(s, n), 3)
    {
      NoiseSmall(f, if k == 2 then 3 else 2, s, n);
      NoiseSmall(f, 2, s, n);
      WiderBound(NoisePoly(f, if k == 2 then 3 else 2, s, n), if k == 2 then 4 else 3, 4);
    }
  }

  lemma WiderBound(p: seq<int>, b: int, c: int)
    requires AbsBound(p, b) && b <= c
    ensures AbsBound(p, c)
  {
  }

  /** The matrix of the KEM is the one the code generates. */
  lemma ConcreteMatrix(f: Permutation, seed: seq<byte>, k: nat, transposed: bool, a: seq<seq<int>>, x: nat, y: nat,
                       n: nat, i: nat)
    requires Rank(k) && |a| <= 16 && x < k && y < k && i < |a| && i == k * x + y
    requires forall e :: 0 <= e < |a| ==> EntryDone(f, a[e], seed, k, e, transposed, n)
    ensures MatrixOf(Concrete(f, k).samplers, seed, k, transposed)[x][y] == a[i]
  {
    hide StreamPoly, NoisePoly, SpongeOf, EntryDone, Enough, SampleNtt;
    var o := Concrete(f, k).samplers;
    forall b0: byte, b1: byte | Enough(f, seed + [b0, b1], n)
      ensures o.entry(seed, b0, b1) == SampleNtt(f, seed + [b0, b1], n)
    {
      StreamPolyIs(f, seed + [b0, b1], n);
    }
    MatrixIsGenerated(f, o, seed, k, transposed, a, x, y, n, i);
  }
}
