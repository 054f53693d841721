/**
  The noise of K-PKE as the code samples it: SHAKE256 of the seed and a nonce, four at
  once or one after the other, then the binomial sampler, in place. What the samplers of
  `MlKem` say is what these calls leave in the vectors, whatever the batching.
*/
module Noise {
  import opened Bytes
  import opened Montgomery
  import opened KpkeSpec
  import opened Kpke
  import opened Sponge
  import opened Sampling
  import opened Cbd
  import opened MlKem

  /** Widths of the four outputs of one call: two of e1, two of e2. */
  function WidthOf(w: nat, e1: nat, e2: nat): nat { if w < 2 then e1 else e2 }

  ghost predicate Widths(e1: nat, e2: nat) { Eta(e1) && Eta(e2) && e2 <= e1 }

  /** The bytes that the noise of one nonce comes from. */
  function Stream(f: Permutation, e: nat, seed: seq<byte>, nonce: byte): (z: seq<byte>)
    ensures |z| == 64 * e
  {
    SpongeOf(f, 136, seed + [nonce], SHAKE, 64 * e)
  }

  ghost predicate StreamsIn(f: Permutation, buf: seq<seq<byte>>, seed: seq<byte>, n: seq<byte>, e1: nat, e2: nat) {
    && |buf| == |n| == 4
    && forall w :: 0 <= w < 4 ==> Stream(f, WidthOf(w, e1, e2), seed, n[w]) <= buf[w]
  }

  /** mlk_prf_eta1_x4, or else one mlk_prf_eta1 or mlk_prf_eta2 after the other. Four at once produce
      more bytes than the narrower outputs need. */
  method Streams(f: Permutation, batched: bool, seed: seq<byte>, n: seq<byte>, e1: nat, e2: nat)
    returns (buf: seq<seq<byte>>)
    requires Widths(e1, e2) && |n| == 4
    ensures StreamsIn(f, buf, seed, n, e1, e2)
  {
    hide SpongeOf;
    if batched {
      var keys := seq(4, w requires 0 <= w < 4 => seed + [n[w]]);
      buf := HashFour(f, 136, keys, SHAKE, 64 * e1, |seed| + 1);
      forall w | 0 <= w < 4
        ensures Stream(f, WidthOf(w, e1, e2), seed, n[w]) <= buf[w]
      {
        SpongePrefix(f, 136, keys[w], SHAKE, 64 * WidthOf(w, e1, e2), 64 * e1);
      }
    } else {
      buf := [];
      for w := 0 to 4
        invariant |buf| == w && forall v :: 0 <= v < w ==> buf[v] == Stream(f, WidthOf(v, e1, e2), seed, n[v])
      {
        var z := Hash(f, 136, seed + [n[w]], SHAKE, 64 * WidthOf(w, e1, e2));
        buf := buf + [z];
      }
    }
  }

  method SampleOne(f: Permutation, r: array<int16>, e: nat, seed: seq<byte>, nonce: byte, buf: seq<byte>)
    requires Eta(e) && r.Length == 256 && Stream(f, e, seed, nonce) <= buf
    modifies r
    ensures r[..] == NoisePoly(f, e, seed, nonce)
  {
    hide SpongeOf, Coefficient;
    assert buf[..64 * e] == Stream(f, e, seed, nonce);
    PolyCbd(r, buf[..64 * e], e);
  }

  /** mlk_poly_getnoise_eta1_4x (e1 == e2) and mlk_poly_getnoise_eta1122_4x. Without a fourth output
      its nonce does not matter. */
  method GetNoiseFour(f: Permutation, batched: bool, r0: array<int16>, r1: array<int16>, r2: array<int16>,
                      r3: array?<int16>,
                      seed: seq<byte>, n: seq<byte>, e1: nat, e2: nat)
    requires Widths(e1, e2) && |n| == 4
    requires r0.Length == r1.Length == r2.Length == 256 && (r3 != null ==> r3.Length == 256)
    requires r0 != r1 && r0 != r2 && r1 != r2 && r3 != r0 && r3 != r1 && r3 != r2
    modifies r0, r1, r2, r3
    ensures r0[..] == NoisePoly(f, e1, seed, n[0]) && r1[..] == NoisePoly(f, e1, seed, n[1])
    ensures r2[..] == NoisePoly(f, e2, seed, n[2]) && (r3 != null ==> r3[..] == NoisePoly(f, e2, seed, n[3]))
  {
    hide Stream, NoisePoly;
    var buf := Streams(f, batched, seed, n, e1, e2);
    SampleOne(f, r0, e1, seed, n[0], buf[0]);
    SampleOne(f, r1, e1, seed, n[1], buf[1]);
    SampleOne(f, r2, e2, seed, n[2], buf[2]);
    if r3 != null {
      SampleOne(f, r3, e2, seed, n[3], buf[3]);
    }
  }

  /** mlk_poly_getnoise_eta2. */
  method GetNoiseOne(f: Permutation, r: array<int16>, seed: seq<byte>, nonce: byte)
    requires r.Length == 256
    modifies r
    ensures r[..] == NoisePoly(f, 2, seed, nonce)
  {
    hide NoisePoly, SpongeOf;
    var buf := Hash(f, 136, seed + [nonce], SHAKE, 64 * 2);
    SampleOne(f, r, 2, seed, nonce, buf);
  }

  /** Separate polynomials. */
  ghost predicate Apart(v: seq<array<int16>>) {
    && (forall i :: 0 <= i < |v| ==> v[i].Length == 256)
    && (forall i, j :: 0 <= i < j < |v| ==> v[i] != v[j])
  }

  /** mlk_keypair_getnoise_eta1: both vectors hold the noise of their nonces. */
  method KeypairNoise(f: Permutation, batched: bool, k: nat, pv: seq<array<int16>>, e: seq<array<int16>>,
                      seed: seq<byte>)
    requires Rank(k) && |pv| == |e| == k && Apart(pv + e)
    modifies pv, e
    ensures var o := Concrete(f, k).samplers;
            forall i :: 0 <= i < k ==>
                pv[i][..] == NoiseVec(o.noise1, seed, 0, k)[i] && e[i][..] == NoiseVec(o.noise1, seed, k, k)[i]
  {
    hide NoisePoly, StreamPoly, SpongeOf;
    var all := pv + e;
    if k == 2 {
      GetNoiseFour(f, batched, all[0], all[1], all[2], all[3], seed, [0, 1, 2, 3], 3, 3);
    } else if k == 3 {
      GetNoiseFour(f, batched, all[0], all[1], all[2], null, seed, [0, 1, 2, 255], 2, 2);
      GetNoiseFour(f, batched, all[3], all[4], all[5], null, seed, [3, 4, 5, 255], 2, 2);
    } else {
      GetNoiseFour(f, batched, all[0], all[1], all[2], all[3], seed, [0, 1, 2, 3], 2, 2);
      GetNoiseFour(f, batched, all[4], all[5], all[6], all[7], seed, [4, 5, 6, 7], 2, 2);
    }
  }

  /** mlk_enc_getnoise_eta1_eta2. */
  method EncNoise(f: Permutation, batched: bool, k: nat, sp: seq<array<int16>>, ep: seq<array<int16>>,
                  epp: array<int16>, coins: seq<byte>)
    requires Rank(k) && |sp| == |ep| == k && Apart(sp + ep + [epp])
    modifies sp, ep, epp
    ensures var o := Concrete(f, k).samplers;
            && (forall i :: 0 <= i < k ==>
                sp[i][..] == NoiseVec(o.noise1, coins, 0, k)[i] && ep[i][..] == NoiseVec(o.noise2, coins, k, k)[i])
            && epp[..] == o.noise2(coins, 2 * k)
  {
    hide NoisePoly, StreamPoly, SpongeOf;
    var all := sp + ep + [epp];
    assert all[2 * k] == epp;
    if k == 2 {
      GetNoiseFour(f, batched, all[0], all[1], all[2], all[3], coins, [0, 1, 2, 3], 3, 2);
      GetNoiseOne(f, epp, coins, 4);
    } else if k == 3 {
      GetNoiseFour(f, batched, all[0], all[1], all[2], null, coins, [0, 1, 2, 255], 2, 2);
      GetNoiseFour(f, batched, all[3], all[4], all[5], epp, coins, [3, 4, 5, 6], 2, 2);
    } else {
      GetNoiseFour(f, batched, all[0], all[1], all[2], all[3], coins, [0, 1, 2, 3], 2, 2);
      GetNoiseFour(f, batched, all[4], all[5], all[6], all[7], coins, [4, 5, 6, 7], 2, 2);
      GetNoiseOne(f, epp, coins, 8);
    }
  }
}
