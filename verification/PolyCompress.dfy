/**
  Compression, serialisation and messages of whole polynomials (compress.c), for
  every width. Widths 4, 5, 10 and 11 are the compressions, width 1 is a message,
  width 12 the plain byte encoding.
*/
module PolyCompress {
  import opened Bytes
  import opened ModQ
  import opened Powers
  import opened Montgomery
  import opened Compress
  import opened Packing

  ghost predicate Canonical(a: seq<int>) {
    forall i :: 0 <= i < |a| ==> 0 <= a[i] < Q
  }

  lemma WidthRange(d: nat)
    requires Width(d)
    ensures PackWidth(d) && Range(d) == Base(d)
  {
  }

  /** Every coefficient rounded to d bits. */
  ghost function Compressed(a: seq<int>, d: nat): (t: seq<int>)
    requires Width(d) && Canonical(a)
    ensures |t| == |a| && forall i :: 0 <= i < |t| ==> t[i] == Rounded(a[i], d)
    ensures PackWidth(d) && Digits(t, Base(d))
  {
    WidthRange(d);
    seq(|a|, i requires 0 <= i < |a| => Rounded(a[i], d))
  }

  ghost function Decompressed(t: seq<int>, d: nat): (a: seq<int>)
    requires Width(d) && Digits(t, Range(d))
    ensures |a| == |t| && forall i :: 0 <= i < |a| ==> a[i] == ScalarDecompress(t[i], d)
    ensures Canonical(a)
  {
    seq(|t|, i requires 0 <= i < |t| => ScalarDecompress(t[i], d))
  }

  /** What remains to be encoded from position i, after b. */
  ghost predicate EncodedFrom(b: seq<int>, t: seq<int>, d: nat, i: nat)
    requires PackWidth(d)
  {
    && i <= |t| && |t| % GroupValues(d) == 0 && (|t| - i) % GroupValues(d) == 0 && Digits(t, Base(d))
    && Digits(t[i..], Base(d)) && 8 * |b| == d * i
    && b + Encode(t[i..], d) == Encode(t, d)
  }

  lemma EncodedStart(t: seq<int>, d: nat)
    requires PackWidth(d) && |t| % GroupValues(d) == 0 && Digits(t, Base(d))
    ensures EncodedFrom([], t, d, 0)
  {
    assert t[0..] == t;
    assert [] + Encode(t, d) == Encode(t, d);
  }

  lemma EncodedHere(b: seq<int>, t: seq<int>, d: nat, i: nat)
    requires PackWidth(d) && EncodedFrom(b, t, d, i)
    ensures i < |t| ==> i + GroupValues(d) <= |t| && Digits(t[i..i + GroupValues(d)], Base(d))
    ensures 8 * |b| == d * i
  {
    hide Encode, Base;
    if i < |t| {
      var rest := t[i..];
      EncodeUnfold(rest, d);
      assert rest[..GroupValues(d)] == t[i..i + GroupValues(d)];
    }
  }

  lemma EncodedStep(b: seq<int>, t: seq<int>, d: nat, i: nat, p: seq<int>)
    requires PackWidth(d) && EncodedFrom(b, t, d, i) && i + GroupValues(d) <= |t|
    requires Digits(t[i..i + GroupValues(d)], Base(d)) && p == Pack(t[i..i + GroupValues(d)], d)
    ensures EncodedFrom(b + p, t, d, i + GroupValues(d))
  {
    hide Encode, Base, Pack, GroupValues, GroupBytes;
    var g := GroupValues(d);
    var rest := t[i..];
    EncodeUnfold(rest, d);
    assert rest[..g] == t[i..i + g] && rest[g..] == t[i + g..];
    assert b + (p + Encode(t[i + g..], d)) == b + p + Encode(t[i + g..], d);
    assert d * (i + g) == d * i + d * g;
  }

  lemma EncodedEnd(b: seq<int>, t: seq<int>, d: nat)
    requires PackWidth(d) && EncodedFrom(b, t, d, |t|)
    ensures b == Encode(t, d)
  {
    hide Base;
    assert t[|t|..] == [];
    assert b + [] == b;
  }

  /** Consecutive byte stores. */
  method Store(r: array<byte>, start: nat, p: seq<int>)
    requires start + |p| <= r.Length && Digits(p, 256)
    modifies r
    ensures r[..start] == old(r[..start]) && r[start..start + |p|] == p
  {
    for k := 0 to |p|
      invariant forall j :: 0 <= j < start ==> r[j] == old(r[j])
      invariant forall j :: 0 <= j < k ==> r[start + j] == p[j]
    {
      r[start + k] := p[k];
    }
  }

  lemma OutputFits(d: nat, o: nat, i: nat, n: nat)
    requires PackWidth(d) && 8 * o == d * i && i + GroupValues(d) <= n
             && 8 * (o + GroupBytes(d)) == d * (i + GroupValues(d))
    ensures 8 * (o + GroupBytes(d)) <= d * n
  {
    hide GroupValues, GroupBytes;
    var x := i + GroupValues(d);
    Monotone(x, n, d);
    assert x * d == d * x && n * d == d * n;
  }

  lemma StepLength(d: nat, o: nat, i: nat)
    requires PackWidth(d) && 8 * o == d * i
    ensures 8 * (o + GroupBytes(d)) == d * (i + GroupValues(d))
  {
    hide GroupValues, GroupBytes;
    assert d * (i + GroupValues(d)) == d * i + d * GroupValues(d);
  }

  lemma LastOutput(d: nat, o: nat, n: nat)
    requires 8 * o == d * 256 && n == 32 * d
    ensures o == n
  {
  }

  /** The group of values of one iteration. */
  method CompressGroup(a: seq<int16>, d: nat, i: nat, g: nat, ghost c: seq<int>) returns (t: seq<int>)
    requires Width(d) && |a| == 256 && Canonical(a) && i + g <= 256 && c == Compressed(a, d)
    ensures t == c[i..i + g]
  {
    hide Rounded, ScalarCompress, Width, PackWidth, Range, Base, Digits;
    t := [];
    for j := 0 to g
      invariant t == c[i..i + j]
    {
      ScalarCompressExact(a[i + j], d);
      t := t + [ScalarCompress(a[i + j], d)];
    }
  }

  /** There is room for the bytes of one more group. */
  lemma RoomForGroup(b: seq<int>, t: seq<int>, d: nat, i: nat)
    requires PackWidth(d) && EncodedFrom(b, t, d, i) && i < |t| == 256
    ensures i + GroupValues(d) <= 256 && Digits(t[i..i + GroupValues(d)], Base(d)) && |b| + GroupBytes(d) <= 32 * d
  {
    hide EncodedFrom, GroupValues, GroupBytes, Base, Digits;
    EncodedHere(b, t, d, i);
    StepLength(d, |b|, i);
    OutputFits(d, |b|, i, 256);
  }

  lemma EncodedAll(b: seq<int>, t: seq<int>, d: nat)
    requires PackWidth(d) && |t| == 256 && EncodedFrom(b, t, d, 256)
    ensures |b| == 32 * d && |t| % GroupValues(d) == 0 && Digits(t, Base(d)) && b == Encode(t, d)
  {
    hide Encode, Base, GroupValues;
    EncodedEnd(b, t, d);
    LastOutput(d, |b|, 32 * d);
  }

  /** mlk_poly_compress_d4/d5/d10/d11 and, for d = 1, mlk_poly_tomsg. */
  method PolyCompress(r: array<byte>, a: seq<int16>, d: nat)
    requires Width(d) && |a| == 256 && Canonical(a) && r.Length == 32 * d
    modifies r
    ensures |Compressed(a, d)| % GroupValues(d) == 0 && r[..] == Encode(Compressed(a, d), d)
  {
    hide Encode, Base, Pack, GroupValues, GroupBytes, EncodedFrom, Compressed, Canonical, Digits, Width, PackWidth,
      Range;
    WidthRange(d);
    var g, m := GroupValues(d), GroupBytes(d);
    ghost var c := Compressed(a, d);
    var i: nat, o: nat := 0, 0;
    EncodedStart(c, d);
    assert r[..0] == [];
    while i < 256
      invariant o <= r.Length && i <= 256 && EncodedFrom(r[..o], c, d, i)
      decreases 256 - i
    {
      ghost var b := r[..o];
      RoomForGroup(b, c, d, i);
      var t := CompressGroup(a, d, i, g, c);
      PackKeeps(t, d);
      Store(r, o, Pack(t, d));
      assert r[..o + m] == b + Pack(t, d);
      EncodedStep(b, c, d, i, Pack(t, d));
      i, o := i + g, o + m;
    }
    EncodedAll(r[..o], c, d);
    assert r[..o] == r[..];
  }

  /** mlk_poly_tobytes. */
  method PolyToBytes(r: array<byte>, a: seq<int16>)
    requires |a| == 256 && Digits(a, 4096) && r.Length == 384
    modifies r
    ensures r[..] == Encode(a, 12)
  {
    hide Encode, Pack, EncodedFrom;
    EncodedStart(a, 12);
    assert r[..0] == [];
    for i := 0 to 128
      invariant EncodedFrom(r[..3 * i], a, 12, 2 * i)
    {
      ghost var b := r[..3 * i];
      EncodedHere(b, a, 12, 2 * i);
      var t: seq<int> := [a[2 * i], a[2 * i + 1]];
      assert t == a[2 * i..2 * i + 2];
      PackKeeps(t, 12);
      Store(r, 3 * i, Pack(t, 12));
      assert r[..3 * i + 3] == b + Pack(t, 12);
      EncodedStep(b, a, 12, 2 * i, Pack(t, 12));
    }
    assert r[..3 * 128] == r[..];
    EncodedEnd(r[..], a, 12);
  }

  // ---------- Decoding ----------

  /** What remains to be decoded from byte o, after the values t. */
  ghost predicate DecodedFrom(t: seq<int>, b: seq<int>, d: nat, o: nat)
    requires PackWidth(d)
  {
    && o <= |b| && |b| % GroupBytes(d) == 0 && (|b| - o) % GroupBytes(d) == 0 && Digits(b, 256)
    && Digits(b[o..], 256) && 8 * o == d * |t|
    && t + Decode(b[o..], d) == Decode(b, d)
  }

  lemma DecodedStart(b: seq<int>, d: nat)
    requires PackWidth(d) && |b| % GroupBytes(d) == 0 && Digits(b, 256)
    ensures DecodedFrom([], b, d, 0)
  {
    assert b[0..] == b;
    assert [] + Decode(b, d) == Decode(b, d);
  }

  lemma DecodedHere(t: seq<int>, b: seq<int>, d: nat, o: nat)
    requires PackWidth(d) && DecodedFrom(t, b, d, o)
    ensures o < |b| ==> o + GroupBytes(d) <= |b| && Digits(b[o..o + GroupBytes(d)], 256)
    ensures 8 * o == d * |t|
  {
    hide Decode;
    if o < |b| {
      var rest := b[o..];
      DecodeUnfold(rest, d);
      assert rest[..GroupBytes(d)] == b[o..o + GroupBytes(d)];
    }
  }

  lemma DecodedStep(t: seq<int>, b: seq<int>, d: nat, o: nat, p: seq<int>)
    requires PackWidth(d) && DecodedFrom(t, b, d, o) && o + GroupBytes(d) <= |b|
    requires Digits(b[o..o + GroupBytes(d)], 256) && p == Unpack(b[o..o + GroupBytes(d)], d)
    ensures DecodedFrom(t + p, b, d, o + GroupBytes(d))
  {
    hide Decode, Unpack, GroupValues, GroupBytes;
    var m := GroupBytes(d);
    var rest := b[o..];
    DecodeUnfold(rest, d);
    assert rest[..m] == b[o..o + m] && rest[m..] == b[o + m..];
    assert t + (p + Decode(b[o + m..], d)) == t + p + Decode(b[o + m..], d);
    assert d * (|t| + |p|) == d * |t| + d * |p|;
  }

  lemma DecodedEnd(t: seq<int>, b: seq<int>, d: nat)
    requires PackWidth(d) && DecodedFrom(t, b, d, |b|)
    ensures t == Decode(b, d)
  {
    assert b[|b|..] == [];
    assert t + [] == t;
  }

  lemma ByteDigits(b: seq<byte>)
    ensures Digits(b, 256)
  {
  }

  /** The groups of 32 d bytes. */
  lemma WholeGroups(d: nat)
    requires PackWidth(d)
    ensures (32 * d) % GroupBytes(d) == 0
  {
  }

  lemma DecodeLength(b: seq<int>, d: nat)
    requires PackWidth(d) && Digits(b, 256) && |b| == 32 * d
    ensures |b| % GroupBytes(d) == 0 && |Decode(b, d)| == 256 && Digits(Decode(b, d), Base(d))
  {
    hide Decode, Base, GroupBytes;
    WholeGroups(d);
    DecodeKeeps(b, d);
    CancelFactor(d, |Decode(b, d)|, 256);
  }

  lemma ValuesFit(d: nat, o: nat, i: nat, n: nat)
    requires PackWidth(d) && 8 * (o + GroupBytes(d)) == d * (i + GroupValues(d)) && o + GroupBytes(d) <= 32 * d
    ensures i + GroupValues(d) <= 256
  {
    hide GroupValues, GroupBytes;
    var x := i + GroupValues(d);
    if x > 256 {
      Monotone(257, x, d);
    }
  }

  /** The coefficients of r before |t| are the values t, decompressed. */
  ghost predicate Filled(r: seq<int>, t: seq<int>, d: nat)
    requires Width(d)
  {
    && |t| <= |r| && Digits(t, Range(d))
    && forall j :: 0 <= j < |t| ==> r[j] == ScalarDecompress(t[j], d)
  }

  /** One group of values, decompressed into consecutive coefficients. */
  method StoreDecompressed(r: array<int16>, start: nat, t: seq<int>, d: nat, ghost before: seq<int>)
    requires Width(d) && |before| == start && start + |t| <= r.Length && Digits(t, Range(d)) && Filled(r[..], before, d)
    modifies r
    ensures Filled(r[..], before + t, d)
  {
    hide ScalarDecompress, Range, Width;
    for k := 0 to |t|
      invariant forall j :: 0 <= j < start ==> r[j] == ScalarDecompress(before[j], d)
      invariant forall j :: start <= j < start + k ==> r[j] == ScalarDecompress(t[j - start], d)
    {
      r[start + k] := ScalarDecompress(t[k], d);
    }
  }

  /** mlk_poly_decompress_d4/d5/d10/d11 and, for d = 1, mlk_poly_frommsg. */
  method PolyDecompress(r: array<int16>, b: seq<byte>, d: nat)
    requires Width(d) && |b| == 32 * d && r.Length == 256
    modifies r
    ensures PackWidth(d) && |b| % GroupBytes(d) == 0 && Digits(Decode(b, d), Range(d))
    ensures r[..] == Decompressed(Decode(b, d), d)
  {
    hide Decode, Base, Unpack, GroupValues, GroupBytes, DecodedFrom, ScalarDecompress, Width, PackWidth, Range, Filled,
      Digits;
    WidthRange(d);
    var g, m := GroupValues(d), GroupBytes(d);
    ByteDigits(b);
    DecodeLength(b, d);
    ghost var all: seq<int> := [];
    var i: nat, o: nat := 0, 0;
    DecodedStart(b, d);
    FilledStart(r[..], d);
    while o < |b|
      invariant o <= |b| && i <= 256 && |all| == i && DecodedFrom(all, b, d, o) && 8 * o == d * i
      invariant Filled(r[..], all, d)
      decreases |b| - o
    {
      DecodedHere(all, b, d, o);
      UnpackKeeps(b[o..o + m], d);
      var t := Unpack(b[o..o + m], d);
      StepLength(d, o, i);
      ValuesFit(d, o, i, 256);
      StoreDecompressed(r, i, t, d, all);
      DecodedStep(all, b, d, o, t);
      all := all + t;
      i, o := i + g, o + m;
      DecodedHere(all, b, d, o);
    }
    DecodedEnd(all, b, d);
    FilledEnd(r[..], all, d);
  }

  lemma FilledStart(r: seq<int>, d: nat)
    requires Width(d)
    ensures Filled(r, [], d)
  {
  }

  lemma FilledEnd(r: seq<int>, t: seq<int>, d: nat)
    requires Width(d) && |r| == |t| && Filled(r, t, d)
    ensures Digits(t, Range(d)) && r == Decompressed(t, d)
  {
    hide ScalarDecompress, Range, Width;
  }

  /** mlk_poly_frombytes. */
  method PolyFromBytes(r: array<int16>, b: seq<byte>)
    requires |b| == 384 && r.Length == 256
    modifies r
    ensures Digits(r[..], 4096) && r[..] == Decode(b, 12)
  {
    hide Decode, Unpack, DecodedFrom;
    DecodedStart(b, 12);
    assert r[..0] == [];
    for i := 0 to 128
      invariant DecodedFrom(r[..2 * i], b, 12, 3 * i)
    {
      ghost var was := r[..2 * i];
      DecodedHere(was, b, 12, 3 * i);
      var t := Unpack(b[3 * i..3 * i + 3], 12);
      UnpackKeeps(b[3 * i..3 * i + 3], 12);
      r[2 * i] := t[0];
      r[2 * i + 1] := t[1];
      assert r[..2 * i + 2] == was + t;
      DecodedStep(was, b, 12, 3 * i, t);
    }
    assert r[..2 * 128] == r[..];
    DecodedEnd(r[..], b, 12);
    DecodeKeeps(b, 12);
  }

  // ---------- Round trips of whole polynomials ----------

  /** Decompress after compress: every coefficient moves by at most the maximal error. */
  lemma CompressionError(a: seq<int16>, d: nat, i: nat) returns (e: int)
    requires Width(d) && Canonical(a) && |a| == 256 && i < 256
    ensures var c := Compressed(a, d);
            && |c| % GroupValues(d) == 0 && |Encode(c, d)| % GroupBytes(d) == 0 && Digits(Encode(c, d), 256)
            && Decode(Encode(c, d), d) == c
    ensures -MaxError(d) <= e <= MaxError(d)
    ensures Range(d) == Base(d) && Cong(Decompressed(Compressed(a, d), d)[i], a[i] + e)
  {
    hide Encode, Decode, GroupValues, GroupBytes, MaxError, Cong, Rounded, ScalarDecompress;
    WidthRange(d);
    DecodeEncode(Compressed(a, d), d);
    e := DecompressCompress(a[i], d);
  }

  /** Compress after decompress returns every byte string unchanged. */
  lemma CompressionRoundTrip(b: seq<byte>, d: nat)
    requires Width(d) && |b| == 32 * d
    ensures PackWidth(d) && |b| % GroupBytes(d) == 0 && Digits(Decode(b, d), Range(d))
    ensures var a := Decompressed(Decode(b, d), d);
            Compressed(a, d) == Decode(b, d) && |Compressed(a, d)| % GroupValues(d) == 0
              && Encode(Compressed(a, d), d) == b
  {
    hide Encode, Decode, GroupValues, GroupBytes, Rounded, ScalarDecompress;
    WidthRange(d);
    DecodeLength(b, d);
    var t := Decode(b, d);
    forall i | 0 <= i < |t|
      ensures Rounded(ScalarDecompress(t[i], d), d) == t[i]
    {
      CompressDecompress(t[i], d);
    }
    assert Compressed(Decompressed(t, d), d) == t;
    EncodeDecode(b, d);
  }
}
