/**
  The Keccak sponge (fips202.c) around an arbitrary permutation of 200-byte states:
  absorbing and squeezing compute the sponge of sections 4, 5.1 and 6 of FIPS 202
  with pad10*1 and the domain byte. The four-way form (fips202x4.c) runs four
  states in one array and equals the scalar form lane by lane.
*/
module Sponge {
  import opened Bytes
  import opened Powers
  import opened Packing
  import opened Verify

  type State = s: seq<byte> | |s| == 200 witness seq(200, i => 0)
  type Permutation = State -> State

  const ZERO_BYTE: byte := 0

  function Zeros(n: nat): (s: seq<byte>)
    ensures |s| == n && forall i :: 0 <= i < n ==> s[i] == 0
  {
    seq(n, i => ZERO_BYTE)
  }

  function XorByte(x: byte, y: byte): (r: byte)
    ensures y == 0 ==> r == x
  {
    Pow2Values();
    XorBelow(x, y, 8);
    XorRightZero(x);
    Xor(x, y)
  }

  function OrByte(x: byte, y: byte): byte {
    Pow2Values();
    OrBelow(x, y, 8);
    Or(x, y)
  }

  // ---------- The specification ----------

  /** A block, padded with zeros to the state, added to it. */
  function XorBlock(s: State, b: seq<byte>): (t: State)
    requires |b| <= 200
    ensures forall i :: 0 <= i < 200 ==> t[i] == if i < |b| then XorByte(s[i], b[i]) else s[i]
  {
    seq(200, i requires 0 <= i < 200 => if i < |b| then XorByte(s[i], b[i]) else s[i])
  }

  /** Domain byte and pad10*1 after n bytes of the last block. */
  function Pad(n: nat, r: nat, p: byte): (b: seq<byte>)
    requires n < r
    ensures n + |b| == r
  {
    if n == r - 1 then [OrByte(p, 128)] else [p] + Zeros(r - 2 - n) + [128]
  }

  /** Whole blocks, one permutation each. */
  function Absorb(f: Permutation, s: State, r: nat, m: seq<byte>): State
    requires 0 < r <= 200
    decreases |m|
  {
    if |m| < r then s else Absorb(f, f(XorBlock(s, m[..r])), r, m[r..])
  }

  function Squeeze(f: Permutation, s: State, r: nat, d: nat): (z: seq<byte>)
    requires 0 < r <= 200
    ensures |z| == d
    decreases d
  {
    if d <= r then s[..d] else s[..r] + Squeeze(f, f(s), r, d - r)
  }

  function Padded(m: seq<byte>, r: nat, p: byte): seq<byte>
    requires 0 < r
  {
    m + Pad(|m| % r, r, p)
  }

  /** The padded message is a whole number of blocks. */
  lemma PaddedBlocks(m: seq<byte>, r: nat, p: byte)
    requires 0 < r
    ensures |Padded(m, r, p)| % r == 0
  {
    hide Pad;
    var w := |m| / r;
    assert |m| + (r - |m| % r) == r * (w + 1) + 0;
    Remainder(0, w + 1, r);
  }

  /** SPONGE[f, pad10*1, r] of the input with its domain suffix, d bytes of output. */
  function SpongeOf(f: Permutation, r: nat, m: seq<byte>, p: byte, d: nat): (z: seq<byte>)
    requires 0 < r <= 200
    ensures |z| == d
  {
    Squeeze(f, Absorb(f, Zeros(200), r, Padded(m, r, p)), r, d)
  }

  /** A shorter output is the beginning of a longer one. */
  lemma {:induction false} SqueezePrefix(f: Permutation, s: State, r: nat, d: nat, longer: nat)
    requires 0 < r <= 200 && d <= longer
    ensures Squeeze(f, s, r, d) == Squeeze(f, s, r, longer)[..d]
    decreases d
  {
    if d > r {
      SqueezePrefix(f, f(s), r, d - r, longer - r);
    }
  }

  lemma SpongePrefix(f: Permutation, r: nat, m: seq<byte>, p: byte, d: nat, longer: nat)
    requires 0 < r <= 200 && d <= longer
    ensures SpongeOf(f, r, m, p, d) == SpongeOf(f, r, m, p, longer)[..d]
  {
    hide Squeeze, Absorb, Padded, Zeros;
    SqueezePrefix(f, Absorb(f, Zeros(200), r, Padded(m, r, p)), r, d, longer);
  }

  /** A message shorter than a block: the padded block in an otherwise empty state, one permutation, and the
      first bytes of the result. */
  lemma OneBlock(f: Permutation, r: nat, m: seq<byte>, p: byte, d: nat, block: State)
    requires 0 < r <= 200 && |m| < r && d <= r
    requires forall i :: 0 <= i < 200 ==>
               block[i] == if i < |m| then m[i] else if i < r then Pad(|m|, r, p)[i - |m|] else 0
    ensures SpongeOf(f, r, m, p, d) == f(block)[..d]
  {
    hide Pad, XorBlock, Padded;
    var b := m + Pad(|m|, r, p);
    PaddedShort(m, r, p);
    EmptyXor(b, block);
    assert b[..r] == b && b[r..] == [];
    assert Absorb(f, Zeros(200), r, b) == Absorb(f, f(XorBlock(Zeros(200), b)), r, []);
  }

  lemma PaddedShort(m: seq<byte>, r: nat, p: byte)
    requires |m| < r
    ensures Padded(m, r, p) == m + Pad(|m|, r, p)
  {
    hide Pad;
    Remainder(|m|, 0, r);
  }

  lemma EmptyXor(b: seq<byte>, block: State)
    requires |b| <= 200 && forall i :: 0 <= i < 200 ==> block[i] == if i < |b| then b[i] else 0
    ensures XorBlock(Zeros(200), b) == block
  {
    forall i | 0 <= i < |b|
      ensures XorByte(0, b[i]) == b[i]
    {
      XorLeftZero(b[i]);
    }
  }

  /** One more block of message is one more addition and permutation. */
  lemma {:induction false} AbsorbMore(f: Permutation, s: State, r: nat, m: seq<byte>, b: seq<byte>)
    requires 0 < r <= 200 && |m| % r == 0 && |b| == r
    ensures Absorb(f, s, r, m + b) == f(XorBlock(Absorb(f, s, r, m), b))
    decreases |m|
  {
    hide XorBlock;
    if m == [] {
      assert m + b == b && b[..r] == b && b[r..] == [];
    } else {
      WholeBlock(|m|, r);
      assert (m + b)[..r] == m[..r] && (m + b)[r..] == m[r..] + b;
      AbsorbMore(f, f(XorBlock(s, m[..r])), r, m[r..], b);
    }
  }

  lemma WholeBlock(n: nat, r: nat)
    requires 0 < r && n % r == 0 && n > 0
    ensures n >= r && (n - r) % r == 0
  {
    Remainder(0, n / r - 1, r);
  }

  // ---------- pad10*1 on bits ----------

  function BitsOf(x: byte): (b: seq<bool>)
    ensures |b| == 8
  {
    [x % 2 == 1, x / 2 % 2 == 1, x / 4 % 2 == 1, x / 8 % 2 == 1, x / 16 % 2 == 1, x / 32 % 2 == 1, x / 64 % 2 == 1,
     x / 128 % 2 == 1]
  }

  function BitString(s: seq<byte>): (b: seq<bool>)
    ensures |b| == 8 * |s|
  {
    if s == [] then [] else BitsOf(s[0]) + BitString(s[1..])
  }

  function Falses(n: nat): (b: seq<bool>)
    ensures |b| == n && forall i :: 0 <= i < n ==> !b[i]
  {
    seq(n, i => false)
  }

  /** One, j zeros, one, with the least j that fills the block (section 5.1 of FIPS 202). */
  function Pad101(x: nat, m: nat): (b: seq<bool>)
    requires 0 < x
    ensures |b| >= 2 && b[0] && b[|b| - 1] && forall i :: 0 < i < |b| - 1 ==> !b[i]
  {
    [true] + Falses((-(m as int) - 2) % x) + [true]
  }

  lemma {:induction false} BitStringConcat(s: seq<byte>, t: seq<byte>)
    ensures BitString(s + t) == BitString(s) + BitString(t)
    decreases |s|
  {
    hide BitsOf;
    if s == [] {
      assert s + t == t;
    } else {
      assert (s + t)[1..] == s[1..] + t;
      BitStringConcat(s[1..], t);
    }
  }

  lemma ZeroBits()
    ensures BitsOf(0) == Falses(8)
  {
  }

  lemma {:induction false} BitStringZeros(n: nat)
    ensures BitString(Zeros(n)) == Falses(8 * n)
    decreases n
  {
    hide BitsOf;
    if n > 0 {
      assert Zeros(n)[1..] == Zeros(n - 1);
      BitStringZeros(n - 1);
      ZeroBits();
      assert Falses(8) + Falses(8 * (n - 1)) == Falses(8 * n);
    }
  }

  /** The suffixes 01 of SHA-3 and 1111 of SHAKE with the first bit of the padding are 0x06 and 0x1F. */
  function Suffix01(): seq<bool> { [false, true] }
  function Suffix1111(): seq<bool> { [true, true, true, true] }

  predicate Domain(p: byte, suffix: seq<bool>) {
    (p == 0x06 && suffix == Suffix01()) || (p == 0x1F && suffix == Suffix1111())
  }

  lemma OrValues()
    ensures OrByte(0x06, 128) == 0x86 && OrByte(0x1F, 128) == 0x9F
  {
    Pow2Values();
    OrDisjoint(0x06, 1, 7);
    OrDisjoint(0x1F, 1, 7);
  }

  lemma DomainBits(p: byte, suffix: seq<bool>)
    requires Domain(p, suffix)
    ensures BitsOf(p) == suffix + [true] + Falses(7 - |suffix|)
    ensures BitsOf(OrByte(p, 128)) == suffix + [true] + Falses(6 - |suffix|) + [true]
  {
    hide OrByte;
    OrValues();
    if p == 0x06 {
      assert BitsOf(0x06) == [false, true, true, false, false, false, false, false];
      assert BitsOf(0x86) == [false, true, true, false, false, false, false, true];
    } else {
      assert BitsOf(0x1F) == [true, true, true, true, true, false, false, false];
      assert BitsOf(0x9F) == [true, true, true, true, true, false, false, true];
    }
  }

  lemma PadLength(len: nat, r: nat, l: nat)
    requires 0 < r && l <= 6
    ensures (-((8 * len + l) as int) - 2) % (8 * r) == 8 * (r - len % r) - l - 2
  {
    var n, w := len % r, len / r;
    var j, v: int := 8 * (r - n) - l - 2, 0 - w - 1;
    assert len == r * w + n;
    assert r * v == 0 - r * w - r;
    assert 0 - (8 * len + l) - 2 == (8 * r) * v + j;
    Remainder(j, v, 8 * r);
  }

  /** The padding bytes when the domain byte is not the last of the block. */
  lemma LongPad(p: byte, suffix: seq<bool>, z: nat)
    requires Domain(p, suffix)
    ensures BitString([p] + Zeros(z) + [128]) == suffix + ([true] + Falses(14 - |suffix| + 8 * z) + [true])
  {
    hide BitString, BitsOf, OrByte;
    var l := |suffix|;
    DomainBits(p, suffix);
    BitStringConcat([p] + Zeros(z), [128]);
    BitStringConcat([p], Zeros(z));
    BitStringZeros(z);
    OneByte(p);
    OneByte(128);
    LastByte();
    assert Falses(7 - l) + Falses(8 * z) + Falses(7) == Falses(14 - l + 8 * z);
    Regroup(suffix, Falses(7 - l), Falses(8 * z), Falses(7));
  }

  lemma Regroup(a: seq<bool>, x: seq<bool>, y: seq<bool>, z: seq<bool>)
    ensures (a + [true] + x) + y + (z + [true]) == a + ([true] + (x + y + z) + [true])
  {
  }

  lemma PadBits(n: nat, r: nat, p: byte, suffix: seq<bool>)
    requires n < r && Domain(p, suffix)
    ensures BitString(Pad(n, r, p)) == suffix + ([true] + Falses(8 * (r - n) - |suffix| - 2) + [true])
  {
    hide BitString, BitsOf, OrByte;
    if n == r - 1 {
      DomainBits(p, suffix);
      OneByte(OrByte(p, 128));
      assert suffix + [true] + Falses(6 - |suffix|) + [true] == suffix + ([true] + Falses(6 - |suffix|) + [true]);
    } else {
      LongPad(p, suffix, r - 2 - n);
    }
  }

  lemma Pad101Length(len: nat, r: nat, l: nat, n: nat)
    requires 0 < r && l <= 6 && n < r && InLastBlock(n, len, r)
    ensures Pad101(8 * r, 8 * len + l) == [true] + Falses(8 * (r - n) - l - 2) + [true]
  {
    hide Falses;
    PadLength(len, r, l);
  }

  /** The bytes after the message are its suffix and pad10*1, also when both share one byte. */
  lemma PadIsPad101(m: seq<byte>, r: nat, p: byte, suffix: seq<bool>)
    requires 0 < r && Domain(p, suffix)
    ensures BitString(Padded(m, r, p)) == BitString(m) + (suffix + Pad101(8 * r, 8 * |m| + |suffix|))
  {
    hide *;
    ShortSuffix(p, suffix);
    var n := LastBlock(|m|, r);
    PadBitsAfter(m, r, p, suffix, n);
    Pad101Length(|m|, r, |suffix|, n);
  }

  lemma LastBlock(len: nat, r: nat) returns (n: nat)
    requires 0 < r
    ensures InLastBlock(n, len, r) && n < r
  {
    n := len % r;
  }

  ghost predicate InLastBlock(n: nat, len: nat, r: nat)
    requires 0 < r
  {
    n == len % r
  }

  lemma ShortSuffix(p: byte, suffix: seq<bool>)
    requires Domain(p, suffix)
    ensures |suffix| <= 6
  {
  }

  lemma PadBitsAfter(m: seq<byte>, r: nat, p: byte, suffix: seq<bool>, n: nat)
    requires 0 < r && n < r && InLastBlock(n, |m|, r) && Domain(p, suffix) && |suffix| <= 6
    ensures BitString(Padded(m, r, p))
            == BitString(m) + (suffix + ([true] + Falses(8 * (r - n) - |suffix| - 2) + [true]))
  {
    hide BitString, Pad, Falses, Domain;
    PadBits(n, r, p, suffix);
    BitStringConcat(m, Pad(n, r, p));
  }

  lemma OneByte(x: byte)
    ensures BitString([x]) == BitsOf(x)
  {
    hide BitsOf;
    assert BitString([]) == [];
  }

  lemma LastByte()
    ensures BitsOf(128) == Falses(7) + [true]
  {
  }

  // ---------- The code: one state or four in one array ----------

  /** Way w of an array of states. */
  function Lane(s: seq<byte>, w: nat): State
    requires 200 * w + 200 <= |s|
  {
    s[200 * w..200 * w + 200]
  }

  function XorAt(s: State, offset: nat, data: seq<byte>): (t: State)
    requires offset + |data| <= 200
    ensures forall i :: 0 <= i < 200 ==>
              t[i] == if offset <= i < offset + |data| then XorByte(s[i], data[i - offset]) else s[i]
  {
    seq(200, i requires 0 <= i < 200 => if offset <= i < offset + |data| then XorByte(s[i], data[i - offset]) else s[i])
  }

  /** The lanes other than w did not change. */
  ghost predicate OnlyLane(s: seq<byte>, was: seq<byte>, w: nat, ways: nat)
    requires |s| == |was| == 200 * ways
  {
    forall v :: 0 <= v < ways && v != w ==> Lane(s, v) == Lane(was, v)
  }

  method XorBytes(s: array<byte>, ways: nat, w: nat, data: seq<byte>, offset: nat)
    requires s.Length == 200 * ways && w < ways && offset + |data| <= 200
    modifies s
    ensures Lane(s[..], w) == XorAt(old(Lane(s[..], w)), offset, data) && OnlyLane(s[..], old(s[..]), w, ways)
  {
    hide XorByte;
    ghost var was := s[..];
    for i := 0 to |data|
      invariant forall j :: 0 <= j < s.Length && !(200 * w + offset <= j < 200 * w + offset + i) ==> s[j] == was[j]
      invariant forall j :: 200 * w + offset <= j < 200 * w + offset + i ==>
                  s[j] == XorByte(was[j], data[j - 200 * w - offset])
    {
      s[200 * w + offset + i] := XorByte(s[200 * w + offset + i], data[i]);
    }
  }

  method Permute(f: Permutation, s: array<byte>, ways: nat, w: nat)
    requires s.Length == 200 * ways && w < ways
    modifies s
    ensures Lane(s[..], w) == f(old(Lane(s[..], w))) && OnlyLane(s[..], old(s[..]), w, ways)
  {
    ghost var was := s[..];
    var t := f(Lane(s[..], w));
    for i := 0 to 200
      invariant forall j :: 0 <= j < s.Length && !(200 * w <= j < 200 * w + i) ==> s[j] == was[j]
      invariant forall j :: 200 * w <= j < 200 * w + i ==> s[j] == t[j - 200 * w]
    {
      s[200 * w + i] := t[i];
    }
  }

  /** The same bytes of every way (mlk_keccakf1600x4_xor_bytes for four). */
  method XorBytesAll(s: array<byte>, ways: nat, data: seq<seq<byte>>, offset: nat, ghost len: nat)
    requires s.Length == 200 * ways && |data| == ways && offset + len <= 200 && forall w :: 0 <= w < ways ==>
               |data[w]| == len
    modifies s
    ensures forall w :: 0 <= w < ways ==> Lane(s[..], w) == XorAt(old(Lane(s[..], w)), offset, data[w])
  {
    hide XorAt, Lane;
    ghost var was := s[..];
    for w := 0 to ways
      invariant forall v :: w <= v < ways ==> Lane(s[..], v) == Lane(was, v)
      invariant forall v :: 0 <= v < w ==> Lane(s[..], v) == XorAt(Lane(was, v), offset, data[v])
    {
      ghost var b := s[..];
      XorBytes(s, ways, w, data[w], offset);
      assert OnlyLane(s[..], b, w, ways);
    }
  }

  method PermuteAll(f: Permutation, s: array<byte>, ways: nat)
    requires s.Length == 200 * ways
    modifies s
    ensures forall w :: 0 <= w < ways ==> Lane(s[..], w) == f(old(Lane(s[..], w)))
  {
    hide Lane;
    ghost var was := s[..];
    for w := 0 to ways
      invariant forall v :: w <= v < ways ==> Lane(s[..], v) == Lane(was, v)
      invariant forall v :: 0 <= v < w ==> Lane(s[..], v) == f(Lane(was, v))
    {
      ghost var b := s[..];
      Permute(f, s, ways, w);
      assert OnlyLane(s[..], b, w, ways);
    }
  }

  // ---------- Absorbing ----------

  /** What is left of one input, with its padding, still absorbs to the target. */
  ghost predicate Absorbing(f: Permutation, s: State, r: nat, rest: seq<byte>, pad: seq<byte>, target: State)
    requires 0 < r <= 200
  {
    Absorb(f, s, r, rest + pad) == target
  }

  lemma AbsorbingStep(f: Permutation, s: State, r: nat, rest: seq<byte>, pad: seq<byte>, target: State)
    requires 0 < r <= 200 && r <= |rest| && Absorbing(f, s, r, rest, pad, target)
    ensures Absorbing(f, f(XorAt(s, 0, rest[..r])), r, rest[r..], pad, target)
  {
    hide XorByte;
    assert (rest + pad)[..r] == rest[..r] && (rest + pad)[r..] == rest[r..] + pad;
    assert XorAt(s, 0, rest[..r]) == XorBlock(s, rest[..r]);
  }

  lemma AbsorbingEnd(f: Permutation, s: State, r: nat, rest: seq<byte>, pad: seq<byte>, target: State)
    requires 0 < r <= 200 && |rest| + |pad| == r && Absorbing(f, s, r, rest, pad, target)
    ensures f(XorBlock(s, rest + pad)) == target
  {
    hide XorBlock;
    var b := rest + pad;
    assert b[..r] == b && b[r..] == [];
    assert Absorb(f, f(XorBlock(s, b)), r, []) == f(XorBlock(s, b));
  }

  /** The separate additions of the tail, the domain byte and the last bit are one block. */
  lemma TailIsBlock(s: State, rest: seq<byte>, r: nat, p: byte)
    requires |rest| < r <= 200
    ensures var n, t := |rest|, XorAt(s, 0, rest);
            XorBlock(s, rest + Pad(n, r, p))
            == if n == r - 1 then XorAt(t, n, [OrByte(p, 128)]) else XorAt(XorAt(t, n, [p]), r - 1, [128])
  {
    hide OrByte;
  }

  lemma LastBlockStep(n: nat, len: nat, r: nat)
    requires 0 < r <= len && InLastBlock(n, len, r)
    ensures InLastBlock(n, len - r, r)
  {
    var w := len / r;
    assert len - r == r * (w - 1) + n;
    Remainder(n, w - 1, r);
  }

  lemma LastBlockEnd(n: nat, len: nat, r: nat)
    requires len < r && InLastBlock(n, len, r)
    ensures n == len
  {
  }

  function Tails(m: seq<seq<byte>>, at: nat, to: nat): (t: seq<seq<byte>>)
    requires at <= to && forall w :: 0 <= w < |m| ==> to <= |m[w]|
    ensures |t| == |m| && forall w :: 0 <= w < |m| ==> t[w] == m[w][at..to]
  {
    seq(|m|, w requires 0 <= w < |m| => m[w][at..to])
  }

  function Copies(b: byte, ways: nat): (t: seq<seq<byte>>)
    ensures |t| == ways && forall w :: 0 <= w < ways ==> t[w] == [b]
  {
    seq(ways, w => [b])
  }

  ghost function Absorbed(f: Permutation, r: nat, m: seq<byte>, p: byte): State
    requires 0 < r <= 200
  {
    Absorb(f, Zeros(200), r, Padded(m, r, p))
  }

  /** Every way, with what is left of its input from position at. */
  ghost predicate AllAbsorbing(f: Permutation, s: seq<byte>, r: nat, m: seq<seq<byte>>, at: nat, pad: seq<byte>,
                               p: byte, len: nat)
    requires 0 < r <= 200 && |s| == 200 * |m| && at <= len && forall w :: 0 <= w < |m| ==> |m[w]| == len
  {
    forall w :: 0 <= w < |m| ==> Absorbing(f, Lane(s, w), r, m[w][at..], pad, Absorbed(f, r, m[w], p))
  }

  method AbsorbBlock(f: Permutation, s: array<byte>, ways: nat, r: nat, m: seq<seq<byte>>, at: nat,
                     ghost pad: seq<byte>, ghost p: byte, ghost len: nat)
    requires s.Length == 200 * ways && |m| == ways && 0 < r <= 200 && at + r <= len
    requires forall w :: 0 <= w < ways ==> |m[w]| == len
    requires AllAbsorbing(f, s[..], r, m, at, pad, p, len)
    modifies s
    ensures AllAbsorbing(f, s[..], r, m, at + r, pad, p, len)
  {
    hide XorAt, Lane, Absorbing, Absorbed;
    ghost var was := s[..];
    XorBytesAll(s, ways, Tails(m, at, at + r), 0, r);
    PermuteAll(f, s, ways);
    forall w | 0 <= w < ways
      ensures Absorbing(f, Lane(s[..], w), r, m[w][at + r..], pad, Absorbed(f, r, m[w], p))
    {
      AbsorbingStep(f, Lane(was, w), r, m[w][at..], pad, Absorbed(f, r, m[w], p));
      assert m[w][at..][..r] == m[w][at..at + r] && m[w][at..][r..] == m[w][at + r..];
    }
  }

  /** The tail, the domain byte and the last bit. */
  method AbsorbTail(f: Permutation, s: array<byte>, ways: nat, r: nat, m: seq<seq<byte>>, at: nat, p: byte, total: nat)
    requires s.Length == 200 * ways && |m| == ways && 0 < r <= 200 && at <= total && total - at < r
    requires forall w :: 0 <= w < ways ==> |m[w]| == total
    requires AllAbsorbing(f, s[..], r, m, at, Pad(total - at, r, p), p, total)
    modifies s
    ensures forall w :: 0 <= w < ways ==> f(Lane(s[..], w)) == Absorbed(f, r, m[w], p)
  {
    hide XorAt, Lane, Pad, Absorbing, Absorbed, XorBlock, OrByte;
    ghost var was := s[..];
    var left := total - at;
    ghost var pad := Pad(left, r, p);
    XorBytesAll(s, ways, Tails(m, at, total), 0, left);
    if left == r - 1 {
      XorBytesAll(s, ways, Copies(OrByte(p, 128), ways), left, 1);
    } else {
      XorBytesAll(s, ways, Copies(p, ways), left, 1);
      XorBytesAll(s, ways, Copies(128, ways), r - 1, 1);
    }
    forall w | 0 <= w < ways
      ensures f(Lane(s[..], w)) == Absorbed(f, r, m[w], p)
    {
      assert m[w][at..] == m[w][at..total];
      TailIsBlock(Lane(was, w), m[w][at..], r, p);
      AbsorbingEnd(f, Lane(was, w), r, m[w][at..], pad, Absorbed(f, r, m[w], p));
    }
  }

  /** Absorbing into a zeroed state (mlk_keccak_absorb_once_x4). The last permutation is left to the squeeze. */
  method AbsorbZeroed(f: Permutation, s: array<byte>, ways: nat, r: nat, m: seq<seq<byte>>, p: byte, ghost len: nat)
    requires s.Length == 200 * ways && 1 <= ways && |m| == ways && 0 < r <= 200
    requires forall w :: 0 <= w < ways ==> |m[w]| == len
    requires forall w :: 0 <= w < ways ==> Lane(s[..], w) == Zeros(200)
    modifies s
    ensures forall w :: 0 <= w < ways ==> f(Lane(s[..], w)) == Absorbed(f, r, m[w], p)
  {
    hide Lane, Zeros, Pad, Absorbing, AllAbsorbing, InLastBlock, Absorbed;
    ghost var n := LastBlock(len, r);
    ghost var pad := Pad(n, r, p);
    AbsorbingStart(f, s[..], r, m, p, n, len);
    var at, total := 0, |m[0]|;
    while total - at >= r
      invariant 0 <= at <= total == len && InLastBlock(n, len - at, r)
      invariant AllAbsorbing(f, s[..], r, m, at, pad, p, len)
    {
      AbsorbBlock(f, s, ways, r, m, at, pad, p, len);
      LastBlockStep(n, len - at, r);
      at := at + r;
    }
    LastBlockEnd(n, len - at, r);
    AbsorbTail(f, s, ways, r, m, at, p, total);
  }

  /**
    mlk_keccak_absorb_once for one way, mlk_shake128x4_absorb_once and
    mlk_shake256x4_absorb_once for four: zero the state, then absorb.
  */
  method AbsorbOnce(f: Permutation, s: array<byte>, ways: nat, r: nat, m: seq<seq<byte>>, p: byte, ghost len: nat)
    requires s.Length == 200 * ways && 1 <= ways && |m| == ways && 0 < r <= 200
    requires forall w :: 0 <= w < ways ==> |m[w]| == len
    modifies s
    ensures forall w :: 0 <= w < ways ==> f(Lane(s[..], w)) == Absorbed(f, r, m[w], p)
  {
    hide Lane, Zeros, Absorbed;
    for i := 0 to s.Length
      invariant forall j :: 0 <= j < i ==> s[j] == 0
    {
      s[i] := 0;
    }
    ZeroLanes(s[..], ways);
    AbsorbZeroed(f, s, ways, r, m, p, len);
  }

  lemma AbsorbingStart(f: Permutation, s: seq<byte>, r: nat, m: seq<seq<byte>>, p: byte, n: nat, len: nat)
    requires 0 < r <= 200 && n < r && InLastBlock(n, len, r) && |s| == 200 * |m|
    requires forall w :: 0 <= w < |m| ==> |m[w]| == len
    requires forall w :: 0 <= w < |m| ==> Lane(s, w) == Zeros(200)
    ensures AllAbsorbing(f, s, r, m, 0, Pad(n, r, p), p, len)
  {
    hide Pad, Absorb, Zeros, Lane;
    forall w | 0 <= w < |m|
      ensures Absorbing(f, Lane(s, w), r, m[w][0..], Pad(n, r, p), Absorbed(f, r, m[w], p))
    {
      assert m[w][0..] == m[w];
    }
  }

  // ---------- Squeezing ----------

  function Iterate(f: Permutation, s: State, n: nat): State
    decreases n
  {
    if n == 0 then s else Iterate(f, f(s), n - 1)
  }

  /** The next n blocks of output. */
  function Blocks(f: Permutation, s: State, r: nat, n: nat): (z: seq<byte>)
    requires r <= 200
    decreases n
  {
    if n == 0 then [] else f(s)[..r] + Blocks(f, f(s), r, n - 1)
  }

  /** Squeezing n blocks, then m more, gives the same bytes as n + m at once. */
  lemma {:induction false} BlocksSplit(f: Permutation, s: State, r: nat, n: nat, m: nat)
    requires r <= 200
    ensures Blocks(f, s, r, n + m) == Blocks(f, s, r, n) + Blocks(f, Iterate(f, s, n), r, m)
    ensures Iterate(f, s, n + m) == Iterate(f, Iterate(f, s, n), m)
    decreases n
  {
    if n == 0 {
      assert [] + Blocks(f, s, r, m) == Blocks(f, s, r, m);
    } else {
      BlocksSplitStep(f, s, r, n, m);
    }
  }

  lemma BlocksNext(f: Permutation, s: State, r: nat, n: nat)
    requires r <= 200 && 1 <= n
    ensures Blocks(f, s, r, n) == f(s)[..r] + Blocks(f, f(s), r, n - 1) && Iterate(f, s, n) == Iterate(f, f(s), n - 1)
  {
  }

  lemma {:induction false} BlocksSplitStep(f: Permutation, s: State, r: nat, n: nat, m: nat)
    requires r <= 200 && 1 <= n
    ensures Blocks(f, s, r, n + m) == Blocks(f, s, r, n) + Blocks(f, Iterate(f, s, n), r, m)
    ensures Iterate(f, s, n + m) == Iterate(f, Iterate(f, s, n), m)
    decreases n, 0
  {
    hide Blocks, Iterate;
    BlocksSplit(f, f(s), r, n - 1, m);
    BlocksNext(f, s, r, n);
    BlocksNext(f, s, r, n + m);
    var a, b, c := f(s)[..r], Blocks(f, f(s), r, n - 1), Blocks(f, Iterate(f, s, n), r, m);
    assert a + b + c == a + (b + c);
  }

  /** Block by block is the squeeze of the specification, cut at any length. */
  lemma {:induction false} BlocksAreSqueeze(f: Permutation, s: State, r: nat, n: nat, d: nat)
    requires 0 < r <= 200 && d <= |Blocks(f, s, r, n)|
    ensures Squeeze(f, f(s), r, d) == Blocks(f, s, r, n)[..d]
    decreases n
  {
    if n > 0 {
      var b, rest := f(s)[..r], Blocks(f, f(s), r, n - 1);
      if d > r {
        BlocksAreSqueeze(f, f(s), r, n - 1, d - r);
        assert (b + rest)[..d] == b + rest[..d - r];
      }
    }
  }

  lemma {:induction false} BlocksLength(f: Permutation, s: State, r: nat, n: nat)
    requires r <= 200
    ensures |Blocks(f, s, r, n)| == r * n
    decreases n
  {
    if n > 0 {
      BlocksLength(f, f(s), r, n - 1);
      assert r * n == r * (n - 1) + r;
    }
  }

  function Empties(ways: nat): (t: seq<seq<byte>>)
    ensures |t| == ways && forall w :: 0 <= w < ways ==> t[w] == []
  {
    seq(ways, w => [])
  }

  /** Every output extended by the start of its way's state. */
  function Extended(out: seq<seq<byte>>, s: seq<byte>, r: nat): (t: seq<seq<byte>>)
    requires |s| == 200 * |out| && r <= 200
    ensures |t| == |out| && forall w :: 0 <= w < |out| ==> t[w] == out[w] + Lane(s, w)[..r]
  {
    seq(|out|, w requires 0 <= w < |out| => out[w] + Lane(s, w)[..r])
  }

  /** mlk_keccak_squeezeblocks for one way, mlk_keccak_squeezeblocks_x4 for four. */
  method SqueezeBlocks(f: Permutation, s: array<byte>, ways: nat, r: nat, nblocks: nat) returns (out: seq<seq<byte>>)
    requires s.Length == 200 * ways && r <= 200
    modifies s
    ensures |out| == ways
    ensures forall w :: 0 <= w < ways ==> out[w] == Blocks(f, old(Lane(s[..], w)), r, nblocks)
    ensures forall w :: 0 <= w < ways ==> Lane(s[..], w) == Iterate(f, old(Lane(s[..], w)), nblocks)
  {
    hide Lane, Blocks, Iterate;
    ghost var start := s[..];
    out := Empties(ways);
    forall w | 0 <= w < ways
      ensures Blocks(f, Lane(start, w), r, 0) == [] && Iterate(f, Lane(start, w), 0) == Lane(start, w)
    {
      BlocksNone(f, Lane(start, w), r);
    }
    for n := 0 to nblocks
      invariant |out| == ways
      invariant forall w :: 0 <= w < ways ==> out[w] == Blocks(f, Lane(start, w), r, n)
      invariant forall w :: 0 <= w < ways ==> Lane(s[..], w) == Iterate(f, Lane(start, w), n)
    {
      PermuteAll(f, s, ways);
      forall w | 0 <= w < ways
        ensures Blocks(f, Lane(start, w), r, n + 1) == out[w] + Lane(s[..], w)[..r]
        ensures Lane(s[..], w) == Iterate(f, Lane(start, w), n + 1)
      {
        BlocksSplit(f, Lane(start, w), r, n, 1);
        BlocksOne(f, Iterate(f, Lane(start, w), n), r);
      }
      out := Extended(out, s[..], r);
    }
  }

  lemma BlocksNone(f: Permutation, s: State, r: nat)
    requires r <= 200
    ensures Blocks(f, s, r, 0) == [] && Iterate(f, s, 0) == s
  {
  }

  lemma BlocksOne(f: Permutation, s: State, r: nat)
    requires r <= 200
    ensures Blocks(f, s, r, 1) == f(s)[..r] && Iterate(f, s, 1) == f(s)
  {
    assert Blocks(f, f(s), r, 0) == [];
    assert Iterate(f, f(s), 0) == f(s);
  }

  /** mlk_keccak_squeeze_once. */
  method SqueezeOnce(f: Permutation, s: array<byte>, r: nat, outlen: nat) returns (h: seq<byte>)
    requires s.Length == 200 && 0 < r <= 200
    modifies s
    ensures h == Squeeze(f, f(old(Lane(s[..], 0))), r, outlen)
  {
    hide Lane;
    ghost var all := Squeeze(f, f(Lane(s[..], 0)), r, outlen);
    h := [];
    var left := outlen;
    assert h + all == all;
    while left > 0
      invariant 0 <= left <= outlen && h + Squeeze(f, f(Lane(s[..], 0)), r, left) == all
    {
      PermuteAll(f, s, 1);
      var len := if left < r then left else r;
      ghost var z := Lane(s[..], 0);
      assert Squeeze(f, z, r, left) == z[..len] + Squeeze(f, f(z), r, left - len);
      h := h + Lane(s[..], 0)[..len];
      left := left - len;
    }
    assert h + [] == h;
  }

  /** One-shot hashing: mlk_shake256 (p = 0x1F), mlk_sha3_256 and mlk_sha3_512 (p = 0x06). */
  method Hash(f: Permutation, r: nat, m: seq<byte>, p: byte, outlen: nat) returns (h: seq<byte>)
    requires 0 < r <= 200
    ensures h == SpongeOf(f, r, m, p, outlen)
  {
    hide Squeeze, Absorb, Padded, Zeros;
    var s := new byte[200];
    AbsorbOnce(f, s, 1, r, [m], p, |m|);
    assert f(Lane(s[..], 0)) == Absorbed(f, r, [m][0], p);
    h := SqueezeOnce(f, s, r, outlen);
  }

  lemma ZeroLanes(s: seq<byte>, ways: nat)
    requires |s| == 200 * ways && forall i :: 0 <= i < |s| ==> s[i] == 0
    ensures forall w :: 0 <= w < ways ==> Lane(s, w) == Zeros(200)
  {
  }

  /** mlk_shake256x4: whole blocks, then the start of one more. */
  method HashFour(f: Permutation, r: nat, m: seq<seq<byte>>, p: byte, outlen: nat, ghost len: nat)
    returns (out: seq<seq<byte>>)
    requires 0 < r <= 200 && |m| == 4 && forall w :: 0 <= w < 4 ==> |m[w]| == len
    ensures |out| == 4 && forall w :: 0 <= w < 4 ==> out[w] == SpongeOf(f, r, m[w], p, outlen)
  {
    hide Squeeze, Absorb, Padded, Zeros, Blocks, Iterate, Lane;
    var s := new byte[800];
    AbsorbOnce(f, s, 4, r, m, p, len);
    ghost var start := s[..];
    var nblocks := outlen / r;
    var blocks := SqueezeBlocks(f, s, 4, r, nblocks);
    var left := outlen - nblocks * r;
    QuotientSplit(outlen, r);
    var tmp := Empties(4);
    if left > 0 {
      tmp := SqueezeBlocks(f, s, 4, r, 1);
    }
    forall w | 0 <= w < 4
      ensures left <= |tmp[w]| && blocks[w] + tmp[w][..left] == SpongeOf(f, r, m[w], p, outlen)
    {
      CutBlocks(f, Lane(start, w), r, nblocks, left, outlen);
      assert f(Lane(start, w)) == Absorbed(f, r, m[w], p);
    }
    out := seq(4, w requires 0 <= w < 4 => blocks[w] + tmp[w][..left]);
  }

  lemma QuotientSplit(d: nat, r: nat)
    requires 0 < r
    ensures 0 <= d - d / r * r < r
  {
  }

  /** n whole blocks and the start of the next are the squeeze of their length. */
  lemma CutBlocks(f: Permutation, s: State, r: nat, n: nat, left: nat, d: nat)
    requires 0 < r <= 200 && left < r && d == n * r + left
    ensures |Blocks(f, Iterate(f, s, n), r, 1)| == r
    ensures Blocks(f, s, r, n) + Blocks(f, Iterate(f, s, n), r, 1)[..left] == Squeeze(f, f(s), r, d)
  {
    hide Blocks, Iterate, Squeeze;
    BlocksLength(f, s, r, n);
    BlocksLength(f, Iterate(f, s, n), r, 1);
    BlocksSplit(f, s, r, n, 1);
    BlocksLength(f, s, r, n + 1);
    assert r * (n + 1) == n * r + r;
    BlocksAreSqueeze(f, s, r, n + 1, d);
    var a, b := Blocks(f, s, r, n), Blocks(f, Iterate(f, s, n), r, 1);
    assert (a + b)[..d] == a + b[..left];
  }
}
