/**
  Rejection sampling of matrix entries (sampling.c) and the generation of the whole
  matrix (indcpa.c). Every entry is the first 256 accepted 12-bit candidates of its
  own SHAKE128 stream (Algorithm 7 of FIPS 203), however the stream is cut into
  blocks and whether the entry is sampled alone or in a batch of four.

  Sampling runs until enough candidates were accepted. That some number n of blocks
  is enough is a hypothesis on the streams; the result does not depend on n.
*/
module Sampling {
  import opened Bytes
  import opened ModQ
  import opened Montgomery
  import opened Packing
  import opened KpkeSpec
  import opened Sponge
  import opened Kpke

  const FIRST_BLOCKS: nat := 3

  // ---------- Candidates ----------

  function Keep(v: int): seq<int> { if v < Q then [v] else [] }

  /** The two 12-bit fields of three bytes. */
  function First(b: seq<byte>): int
    requires 3 <= |b|
  {
    var low: int, mid: int := b[0], b[1];
    low + 256 * (mid % 16)
  }

  function Second(b: seq<byte>): int
    requires 3 <= |b|
  {
    var mid: int, high: int := b[1], b[2];
    mid / 16 + 16 * high
  }

  /** The candidates below q, in order. */
  function Accepted(b: seq<byte>): seq<int>
    decreases |b|
  {
    if |b| < 3 then [] else Keep(First(b)) + Keep(Second(b)) + Accepted(b[3..])
  }

  lemma {:induction false} AcceptedConcat(a: seq<byte>, b: seq<byte>)
    requires |a| % 3 == 0
    ensures Accepted(a + b) == Accepted(a) + Accepted(b)
    decreases |a|
  {
    hide Keep;
    if a == [] {
      assert a + b == b;
    } else {
      assert (a + b)[3..] == a[3..] + b;
      AcceptedConcat(a[3..], b);
    }
  }

  /** The values below q, in order. */
  function Below(t: seq<int>): seq<int> {
    if t == [] then [] else Keep(t[0]) + Below(t[1..])
  }

  lemma {:induction false} BelowConcat(s: seq<int>, t: seq<int>)
    ensures Below(s + t) == Below(s) + Below(t)
    decreases |s|
  {
    hide Keep;
    if s == [] {
      assert s + t == t;
    } else {
      assert (s + t)[1..] == s[1..] + t;
      BelowConcat(s[1..], t);
    }
  }

  lemma BelowTwo(x: int, y: int)
    ensures Below([x, y]) == Keep(x) + Keep(y)
  {
    hide Keep, Below;
    assert [x, y] == [x] + [y];
    BelowConcat([x], [y]);
    BelowOne(x);
    BelowOne(y);
  }

  lemma BelowOne(x: int)
    ensures Below([x]) == Keep(x)
  {
    hide Keep;
    assert [x][1..] == [] && Below([]) == [];
  }

  /** The candidates are the 12-bit fields of the stream. */
  lemma {:induction false} AcceptedAreFields(b: seq<byte>)
    requires |b| % 3 == 0
    ensures PackWidth(12) && GroupBytes(12) == 3 && Digits(b, 256) && Accepted(b) == Below(Decode(b, 12))
    decreases |b|
  {
    hide Keep, Decode, Below;
    if b == [] {
      NoFields();
    } else {
      AcceptedAreFields(b[3..]);
      DecodeUnfold(b, 12);
      UnpackD12Sums(b[..3]);
      BelowConcat(Unpack(b[..3], 12), Decode(b[3..], 12));
      BelowTwo(First(b), Second(b));
      assert Unpack(b[..3], 12) == [First(b), Second(b)];
    }
  }

  lemma NoFields()
    ensures Digits([], 256) && Accepted([]) == [] && Below(Decode([], 12)) == []
  {
  }

  lemma {:induction false} AcceptedRange(b: seq<byte>)
    ensures forall i :: 0 <= i < |Accepted(b)| ==> 0 <= Accepted(b)[i] < Q
    decreases |b|
  {
    if |b| >= 3 {
      AcceptedRange(b[3..]);
    }
  }

  /** The shifts, ors and masks of the code. */
  method Fields(b0: byte, b1: byte, b2: byte) returns (val0: int16, val1: int16)
    ensures val0 == b0 + 256 * (b1 % 16) && val1 == b1 / 16 + 16 * b2
  {
    hide Or;
    MaskCombined(b0, b1, 256, 16, 4096);
    MaskCombined(b1 / 16, b2, 16, 256, 4096);
    val0 := Or(b0, b1 * 256) % 4096;
    val1 := Or(b1 / 16, b2 * 16) % 4096;
  }

  /** What is stored and what is still to come are the start and all accepted candidates. */
  ghost predicate Pending(stored: seq<int>, rest: seq<int>, whole: seq<int>) { stored + rest == whole }

  lemma PendingOne(stored: seq<int>, v: int, rest: seq<int>, whole: seq<int>)
    requires Pending(stored, Keep(v) + rest, whole)
    ensures v < Q ==> Pending(stored + [v], rest, whole)
    ensures v >= Q ==> Pending(stored, rest, whole)
  {
    if v < Q {
      assert stored + ([v] + rest) == stored + [v] + rest;
    } else {
      assert [] + rest == rest;
    }
  }

  lemma KeepFirst(a: int, b: int, rest: seq<int>)
    ensures Keep(a) + Keep(b) + rest == Keep(a) + (Keep(b) + rest)
  {
  }

  method StoreAt(r: array<int16>, ctr: nat, v: int16)
    requires ctr < r.Length
    modifies r
    ensures r[..ctr + 1] == old(r[..ctr]) + [v]
  {
    r[ctr] := v;
  }

  /** mlk_rej_uniform: appends accepted candidates until the target is reached. */
  method RejUniform(r: array<int16>, target: nat, offset: nat, buf: seq<byte>) returns (ctr: nat)
    requires offset <= target <= r.Length && |buf| % 3 == 0
    modifies r
    ensures offset <= ctr <= target && ctr <= offset + |Accepted(buf)|
    ensures ctr < target ==> ctr == offset + |Accepted(buf)|
    ensures r[..ctr] == (old(r[..offset]) + Accepted(buf))[..ctr]
  {
    hide Accepted, Keep, Pending, First, Second;
    ctr := offset;
    var pos := 0;
    ghost var whole := r[..offset] + Accepted(buf);
    ghost var rest := Accepted(buf);
    assert buf[0..] == buf;
    PendingStart(r[..offset], rest);
    while ctr < target && pos + 3 <= |buf|
      invariant 0 <= pos <= |buf| && (|buf| - pos) % 3 == 0 && offset <= ctr <= target
      invariant Pending(r[..ctr], rest, whole) && (ctr < target ==> rest == Accepted(buf[pos..]))
    {
      ghost var here := buf[pos..];
      assert here[3..] == buf[pos + 3..];
      AcceptedStep(here);
      var val0, val1 := Fields(buf[pos], buf[pos + 1], buf[pos + 2]);
      FieldsOf(here, val0, val1);
      pos := pos + 3;
      ghost var after := Accepted(buf[pos..]);
      KeepFirst(val0, val1, after);
      PendingOne(r[..ctr], val0, Keep(val1) + after, whole);
      rest := Keep(val1) + after;
      if val0 < Q {
        StoreAt(r, ctr, val0);
        ctr := ctr + 1;
      }
      if ctr < target {
        PendingOne(r[..ctr], val1, after, whole);
        rest := after;
        if val1 < Q {
          StoreAt(r, ctr, val1);
          ctr := ctr + 1;
        }
      }
    }
    if ctr < target {
      assert buf[pos..] == [];
      AcceptedNone();
    }
    PendingEnd(r[..ctr], rest, whole);
  }

  lemma FieldsOf(b: seq<byte>, val0: int, val1: int)
    requires 3 <= |b|
    requires var b0: int, b1: int, b2: int := b[0], b[1], b[2];
             val0 == b0 + 256 * (b1 % 16) && val1 == b1 / 16 + 16 * b2
    ensures val0 == First(b) && val1 == Second(b)
  {
  }

  lemma PendingStart(start: seq<int>, rest: seq<int>)
    ensures Pending(start, rest, start + rest)
  {
  }

  lemma PendingEnd(stored: seq<int>, rest: seq<int>, whole: seq<int>)
    requires Pending(stored, rest, whole)
    ensures |stored| + |rest| == |whole| && stored == whole[..|stored|]
  {
  }

  lemma AcceptedStep(b: seq<byte>)
    requires 3 <= |b|
    ensures Accepted(b) == Keep(First(b)) + Keep(Second(b)) + Accepted(b[3..])
  {
  }

  lemma AcceptedNone()
    ensures Accepted([]) == []
  {
  }

  // ---------- Streams ----------

  const SHAKE: byte := 0x1F

  /** n blocks of SHAKE128 output. */
  ghost function Xof(f: Permutation, seed: seq<byte>, n: nat): (z: seq<byte>)
    ensures |z| == 168 * n
  {
    SpongeOf(f, 168, seed, SHAKE, 168 * n)
  }

  ghost predicate Enough(f: Permutation, seed: seq<byte>, n: nat) { |Accepted(Xof(f, seed, n))| >= 256 }

  /** The first 256 accepted candidates of the stream. */
  ghost function SampleNtt(f: Permutation, seed: seq<byte>, n: nat): (a: seq<int>)
    requires Enough(f, seed, n)
  {
    Accepted(Xof(f, seed, n))[..256]
  }

  /** More blocks only add candidates at the end. */
  lemma MoreBlocks(f: Permutation, seed: seq<byte>, n: nat, m: nat)
    requires n <= m
    ensures |Accepted(Xof(f, seed, n))| <= |Accepted(Xof(f, seed, m))|
    ensures Accepted(Xof(f, seed, n)) == Accepted(Xof(f, seed, m))[..|Accepted(Xof(f, seed, n))|]
  {
    hide Squeeze, Absorbed, Accepted, Xof;
    var z := Xof(f, seed, m);
    XofIsSqueeze(f, seed, n);
    XofIsSqueeze(f, seed, m);
    SqueezePrefix(f, Absorbed(f, 168, seed, SHAKE), 168, 168 * n, 168 * m);
    WholeThirds(n);
    AcceptedPrefix(z, 168 * n);
  }

  lemma XofIsSqueeze(f: Permutation, seed: seq<byte>, n: nat)
    ensures Xof(f, seed, n) == Squeeze(f, Absorbed(f, 168, seed, SHAKE), 168, 168 * n)
  {
    hide Squeeze, Absorb, Padded, Zeros;
  }

  lemma AcceptedPrefix(z: seq<byte>, k: nat)
    requires k <= |z| && k % 3 == 0
    ensures |Accepted(z[..k])| <= |Accepted(z)| && Accepted(z[..k]) == Accepted(z)[..|Accepted(z[..k])|]
  {
    hide Accepted;
    assert z == z[..k] + z[k..];
    AcceptedConcat(z[..k], z[k..]);
  }

  /** The sample does not depend on how many blocks were squeezed, as long as they are enough. */
  lemma SampleUnique(f: Permutation, seed: seq<byte>, n: nat, m: nat)
    requires Enough(f, seed, n) && Enough(f, seed, m)
    ensures SampleNtt(f, seed, n) == SampleNtt(f, seed, m)
  {
    hide Accepted, Xof;
    if n <= m {
      MoreBlocks(f, seed, n, m);
    } else {
      MoreBlocks(f, seed, m, n);
    }
  }

  lemma StreamBlocks(f: Permutation, s: State, seed: seq<byte>, n: nat)
    requires f(s) == Absorbed(f, 168, seed, SHAKE)
    ensures Blocks(f, s, 168, n) == Xof(f, seed, n)
  {
    hide Squeeze, Absorbed, Blocks, Xof;
    XofIsSqueeze(f, seed, n);
    BlocksLength(f, s, 168, n);
    BlocksAreSqueeze(f, s, 168, n, 168 * n);
  }

  // ---------- Sampling one polynomial, or four ----------

  ghost function UpTo256(s: seq<int>): (r: seq<int>)
    ensures |r| <= 256 && |r| <= |s|
  {
    if |s| <= 256 then s else s[..256]
  }

  lemma UpToTwice(a: seq<int>, b: seq<int>)
    ensures UpTo256(UpTo256(a) + b) == UpTo256(a + b)
  {
  }

  method Resume(got: seq<int16>, buf: seq<byte>) returns (more: seq<int16>)
    requires |got| <= 256 && |buf| % 3 == 0
    ensures more == UpTo256(got + Accepted(buf))
  {
    hide Accepted;
    var r := new int16[256](i => 0);
    for i := 0 to |got|
      invariant r[..i] == got[..i]
    {
      StoreAt(r, i, got[i]);
      assert got[..i + 1] == got[..i] + [got[i]];
    }
    assert r[..|got|] == got;
    var ctr := RejUniform(r, 256, |got|, buf);
    more := r[..ctr];
  }

  /** What each way has after t blocks of its stream. */
  ghost predicate Sampled(f: Permutation, got: seq<seq<int>>, seeds: seq<seq<byte>>, t: nat) {
    |got| == |seeds| && forall w :: 0 <= w < |got| ==> got[w] == UpTo256(Accepted(Xof(f, seeds[w], t)))
  }

  lemma ResumeStep(f: Permutation, got: seq<int>, seed: seq<byte>, buf: seq<byte>, t: nat, b: nat)
    requires got == UpTo256(Accepted(Xof(f, seed, t))) && Xof(f, seed, t + b) == Xof(f, seed, t) + buf
    ensures UpTo256(got + Accepted(buf)) == UpTo256(Accepted(Xof(f, seed, t + b)))
  {
    hide Accepted, Xof, UpTo256;
    WholeThirds(t);
    AcceptedConcat(Xof(f, seed, t), buf);
    UpToTwice(Accepted(Xof(f, seed, t)), Accepted(buf));
  }

  lemma WholeThirds(t: nat)
    ensures (168 * t) % 3 == 0
  {
    Thirds(168 * t, t);
  }

  method ResumeAll(f: Permutation, got: seq<seq<int16>>, bufs: seq<seq<byte>>, ghost seeds: seq<seq<byte>>,
                   ghost t: nat, ghost b: nat)
    returns (more: seq<seq<int16>>)
    requires |got| == |bufs| == |seeds| && Sampled(f, got, seeds, t)
    requires forall w :: 0 <= w < |bufs| ==>
               |bufs[w]| % 3 == 0 && Xof(f, seeds[w], t + b) == Xof(f, seeds[w], t) + bufs[w]
    ensures |more| == |got| && Sampled(f, more, seeds, t + b)
  {
    hide Accepted, Xof, UpTo256;
    more := [];
    for w := 0 to |got|
      invariant |more| == w && forall v :: 0 <= v < w ==> more[v] == UpTo256(Accepted(Xof(f, seeds[v], t + b)))
    {
      ResumeStep(f, got[w], seeds[w], bufs[w], t, b);
      UpTo256Size(Accepted(Xof(f, seeds[w], t)));
      var x := Resume(got[w], bufs[w]);
      more := more + [x];
    }
  }

  lemma UpTo256Size(s: seq<int>)
    ensures |UpTo256(s)| <= 256
  {
  }

  lemma NotEnoughYet(f: Permutation, got: seq<seq<int>>, seeds: seq<seq<byte>>, t: nat, n: nat, w: nat)
    requires Sampled(f, got, seeds, t) && w < |seeds| && |got[w]| != 256 && Enough(f, seeds[w], n)
    ensures t < n
  {
    hide Accepted, Xof;
    if n <= t {
      MoreBlocks(f, seeds[w], n, t);
    }
  }

  lemma FullIsSample(f: Permutation, got: seq<seq<int>>, seeds: seq<seq<byte>>, t: nat, n: nat, w: nat)
    requires Sampled(f, got, seeds, t) && w < |seeds| && |got[w]| == 256 && Enough(f, seeds[w], n)
    ensures got[w] == SampleNtt(f, seeds[w], n)
  {
    hide Accepted, Xof;
    assert Enough(f, seeds[w], t);
    SampleUnique(f, seeds[w], t, n);
  }

  lemma NextBlocks(f: Permutation, start: State, seed: seq<byte>, t: nat, b: nat)
    requires f(start) == Absorbed(f, 168, seed, SHAKE)
    ensures Xof(f, seed, t + b) == Xof(f, seed, t) + Blocks(f, Iterate(f, start, t), 168, b)
    ensures |Blocks(f, Iterate(f, start, t), 168, b)| % 3 == 0
  {
    hide Blocks, Iterate, Absorbed, Xof;
    StreamBlocks(f, start, seed, t);
    StreamBlocks(f, start, seed, t + b);
    BlocksSplit(f, start, 168, t, b);
    ThreeByteBlocks(f, Iterate(f, start, t), b);
  }

  lemma ThreeByteBlocks(f: Permutation, s: State, b: nat)
    ensures |Blocks(f, s, 168, b)| % 3 == 0
  {
    hide Blocks;
    BlocksLength(f, s, 168, b);
    Thirds(|Blocks(f, s, 168, b)|, b);
  }

  lemma Thirds(l: nat, b: nat)
    requires l == 168 * b
    ensures l % 3 == 0
  {
    Remainder(0, 56 * b, 3);
  }

  /** mlk_poly_rej_uniform for one way, mlk_poly_rej_uniform_x4 for four. */
  method RejUniformWays(f: Permutation, seeds: seq<seq<byte>>, ways: nat, ghost len: nat, ghost n: nat)
    returns (v: seq<seq<int16>>)
    requires 1 <= ways == |seeds| && forall w :: 0 <= w < ways ==> |seeds[w]| == len
    requires forall w :: 0 <= w < ways ==> Enough(f, seeds[w], n)
    ensures |v| == ways && forall w :: 0 <= w < ways ==> v[w] == SampleNtt(f, seeds[w], n)
  {
    hide Lane, Zeros, Absorbed, Blocks, Iterate, Xof, Accepted, Enough, SampleNtt, Sampled;
    var s := new byte[200 * ways];
    AbsorbOnce(f, s, ways, 168, seeds, SHAKE, len);
    ghost var start := s[..];
    v := seq(ways, w => []);
    StartSampled(f, v, seeds);
    ghost var t := 3;
    forall w | 0 <= w < ways
      ensures Xof(f, seeds[w], 0 + 3) == Xof(f, seeds[w], 0) + Blocks(f, Lane(start, w), 168, 3)
      ensures |Blocks(f, Lane(start, w), 168, 3)| % 3 == 0
    {
      NextBlocks(f, Lane(start, w), seeds[w], 0, 3);
      BlocksNone(f, Lane(start, w), 168);
    }
    var bufs := SqueezeBlocks(f, s, ways, 168, FIRST_BLOCKS);
    v := ResumeAll(f, v, bufs, seeds, 0, 3);
    while exists w :: 0 <= w < ways && |v[w]| != 256
      invariant |v| == ways && Sampled(f, v, seeds, t)
      invariant forall w :: 0 <= w < ways ==> Lane(s[..], w) == Iterate(f, Lane(start, w), t)
      decreases n - t
    {
      ghost var w0: nat :| w0 < ways && |v[w0]| != 256;
      NotEnoughYet(f, v, seeds, t, n, w0);
      forall w | 0 <= w < ways
        ensures Xof(f, seeds[w], t + 1) == Xof(f, seeds[w], t) + Blocks(f, Iterate(f, Lane(start, w), t), 168, 1)
        ensures |Blocks(f, Iterate(f, Lane(start, w), t), 168, 1)| % 3 == 0
        ensures Iterate(f, Iterate(f, Lane(start, w), t), 1) == Iterate(f, Lane(start, w), t + 1)
      {
        NextBlocks(f, Lane(start, w), seeds[w], t, 1);
        BlocksSplit(f, Lane(start, w), 168, t, 1);
      }
      bufs := SqueezeBlocks(f, s, ways, 168, 1);
      v := ResumeAll(f, v, bufs, seeds, t, 1);
      t := t + 1;
    }
    forall w | 0 <= w < ways
      ensures v[w] == SampleNtt(f, seeds[w], n)
    {
      FullIsSample(f, v, seeds, t, n, w);
    }
  }

  lemma StartSampled(f: Permutation, v: seq<seq<int>>, seeds: seq<seq<byte>>)
    requires |v| == |seeds| && forall w :: 0 <= w < |v| ==> v[w] == []
    ensures Sampled(f, v, seeds, 0)
  {
    hide SpongeOf;
    AcceptedNone();
    forall w | 0 <= w < |v|
      ensures v[w] == UpTo256(Accepted(Xof(f, seeds[w], 0)))
    {
      assert Xof(f, seeds[w], 0) == [];
    }
  }

  // ---------- The matrix ----------

  /** Row and column of entry i, written row by row. */
  function RowOf(i: nat, k: nat): (x: byte)
    requires Rank(k) && i < 16
  {
    if k == 2 then i / 2 else if k == 3 then i / 3 else i / 4
  }

  function ColOf(i: nat, k: nat): (y: byte)
    requires Rank(k)
  {
    if k == 2 then i % 2 else if k == 3 then i % 3 else i % 4
  }

  lemma RowAndCol(i: nat, k: nat, x: nat, y: nat)
    requires Rank(k) && x < k && y < k && i == k * x + y
    ensures i < k * k <= 16 && RowOf(i, k) == x && ColOf(i, k) == y
  {
    assert k == 2 || k == 3 || k == 4;
  }

  /** The seed of entry i: column and row, or row and column when transposed. */
  function SeedFor(seed: seq<byte>, k: nat, i: nat, transposed: bool): (s: seq<byte>)
    requires Rank(k) && i < 16
    ensures |s| == |seed| + 2
  {
    if transposed then seed + [RowOf(i, k), ColOf(i, k)] else seed + [ColOf(i, k), RowOf(i, k)]
  }

  ghost predicate EnoughForMatrix(f: Permutation, seed: seq<byte>, k: nat, transposed: bool, n: nat)
    requires Rank(k)
  {
    forall i :: 0 <= i < k * k && i < 16 ==> Enough(f, SeedFor(seed, k, i, transposed), n)
  }

  ghost predicate EntryDone(f: Permutation, e: seq<int>, seed: seq<byte>, k: nat, i: nat, transposed: bool, n: nat)
    requires Rank(k) && i < 16
  {
    Enough(f, SeedFor(seed, k, i, transposed), n) && e == SampleNtt(f, SeedFor(seed, k, i, transposed), n)
  }

  /** mlk_gen_matrix: four entries at a time, the rest one by one. */
  method GenMatrix(f: Permutation, seed: seq<byte>, k: nat, transposed: bool, ghost n: nat) returns (a: seq<seq<int16>>)
    requires Rank(k) && EnoughForMatrix(f, seed, k, transposed, n)
    ensures |a| == k * k <= 16
    ensures forall i :: 0 <= i < |a| ==> EntryDone(f, a[i], seed, k, i, transposed, n)
  {
    hide Enough, SampleNtt, SeedFor;
    assert k * k == 4 || k * k == 9 || k * k == 16;
    a := [];
    var i := 0;
    while i < (k * k / 4) * 4
      invariant 0 <= i <= k * k && i % 4 == 0 && |a| == i
      invariant forall j :: 0 <= j < i ==> EntryDone(f, a[j], seed, k, j, transposed, n)
    {
      var seeds := seq(4, j requires 0 <= j < 4 => SeedFor(seed, k, i + j, transposed));
      var v := RejUniformWays(f, seeds, 4, |seed| + 2, n);
      a := a + v;
      i := i + 4;
    }
    while i < k * k
      invariant 0 <= i <= k * k && |a| == i
      invariant forall j :: 0 <= j < i ==> EntryDone(f, a[j], seed, k, j, transposed, n)
    {
      var v := RejUniformWays(f, [SeedFor(seed, k, i, transposed)], 1, |seed| + 2, n);
      a := a + v;
      i := i + 1;
    }
  }

  /** The transposed call returns exactly the transpose of the other. */
  lemma GeneratedTranspose(f: Permutation, seed: seq<byte>, k: nat, a: seq<seq<int>>, t: seq<seq<int>>, x: nat, y: nat,
                           n: nat, m: nat,
                           i: nat, j: nat)
    requires Rank(k) && |a| == |t| <= 16 && x < k && y < k && i < |a| && j < |a| && i == k * x + y && j == k * y + x
    requires forall e :: 0 <= e < |a| ==> EntryDone(f, a[e], seed, k, e, false, n)
    requires forall e :: 0 <= e < |t| ==> EntryDone(f, t[e], seed, k, e, true, m)
    ensures t[i] == a[j]
  {
    hide Enough, SampleNtt;
    RowAndCol(i, k, x, y);
    RowAndCol(j, k, y, x);
    assert SeedFor(seed, k, i, true) == SeedFor(seed, k, j, false);
    assert EntryDone(f, t[i], seed, k, i, true, m) && EntryDone(f, a[j], seed, k, j, false, n);
    SampleUnique(f, SeedFor(seed, k, i, true), m, n);
  }

  /** With entries sampled from their streams, the matrix of K-PKE is the generated one. */
  lemma MatrixIsGenerated(f: Permutation, o: Samplers, seed: seq<byte>, k: nat, transposed: bool, a: seq<seq<int>>,
                          x: nat, y: nat, n: nat, i: nat)
    requires Rank(k) && |a| <= 16 && x < k && y < k && i < |a| && i == k * x + y
    requires forall e :: 0 <= e < |a| ==> EntryDone(f, a[e], seed, k, e, transposed, n)
    requires forall b0: byte, b1: byte :: Enough(f, seed + [b0, b1], n) ==>
               o.entry(seed, b0, b1) == SampleNtt(f, seed + [b0, b1], n)
    ensures MatrixOf(o, seed, k, transposed)[x][y] == a[i]
  {
    hide Enough, SampleNtt;
    RowAndCol(i, k, x, y);
    assert EntryDone(f, a[i], seed, k, i, transposed, n);
    var b0: byte, b1: byte := if transposed then x else y, if transposed then y else x;
    assert SeedFor(seed, k, i, transposed) == seed + [b0, b1];
  }
}
