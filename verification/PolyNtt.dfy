/**
  The in-place transforms (poly.c): butterflies, layers, the forward transform and
  the inverse transform with its Montgomery factor, on arrays of 16-bit coefficients.
*/
module PolyNtt {
  import opened ModQ
  import opened Powers
  import opened Montgomery
  import opened Ring
  import opened Zetas
  import opened NttSpec
  import opened NttLayers
  import opened NttRemainders

  /** Every element is below b in absolute value. */
  predicate AbsBound(s: seq<int>, b: int) {
    forall i :: 0 <= i < |s| ==> -b < s[i] < b
  }

  // ---------- Forward ----------

  /** What a butterfly at i leaves, at distance len. */
  ghost predicate Butterflied(b: Poly, a: Poly, i: nat, len: nat, z: int)
    requires |a| == |b| && i + len < |a|
  {
    Cong(b[i], a[i] + z * a[i + len]) && Cong(b[i + len], a[i] + (-z) * a[i + len])
  }

  lemma ButterflyStep(a: int16, b: int16, zeta: int16)
    requires -Q_HALF < zeta < Q_HALF
    ensures Cong(a + FqMul(b, zeta), a + (zeta * R_INV) * b)
    ensures Cong(a - FqMul(b, zeta), a + (-(zeta * R_INV)) * b)
  {
    hide FqMul, Cong;
    var t, z := FqMul(b, zeta), zeta * R_INV;
    FqMulRoot(b, zeta);
    CongIntro(a, a, 0);
    CongAdd(a, a, t, z * b);
    assert a - z * b == a + (-z) * b;
  }

  /** The block [start, start + 2 len) of a after the butterflies before j. */
  ghost predicate HalfDone(b: Poly, a: Poly, start: nat, len: nat, j: nat, z: int, bound: int)
    requires |a| == |b| && start <= j <= start + len && start + 2 * len <= |a|
  {
    && (forall i :: 0 <= i < |a| && !(start <= i < j) && !(start + len <= i < j + len) ==> b[i] == a[i])
    && (forall i :: start <= i < j ==> Butterflied(b, a, i, len, z))
    && (forall i :: start <= i < start + 2 * len ==> -(bound + Q) < b[i] < bound + Q)
    && (forall i :: j <= i < start + len ==> -bound < b[i] < bound)
  }

  lemma HalfDoneStep(b: Poly, a: Poly, start: nat, len: nat, j: nat, zeta: int16, bound: int, c: Poly)
    requires |a| == |b| == |c| && start <= j < start + len && start + 2 * len <= |a| && 0 <= bound
    requires HalfDone(b, a, start, len, j, zeta * R_INV, bound) && -Q_HALF < zeta < Q_HALF
    requires -0x8000 <= b[j] < 0x8000 && -0x8000 <= b[j + len] < 0x8000
    requires var t := FqMul(b[j + len], zeta); c == b[j + len := b[j] - t][j := b[j] + t]
    ensures HalfDone(c, a, start, len, j + 1, zeta * R_INV, bound)
  {
    hide Cong, FqMul;
    var z := zeta * R_INV;
    ButterflyStep(b[j], b[j + len], zeta);
    assert Butterflied(c, a, j, len, z);
    forall i | start <= i < j
      ensures Butterflied(c, a, i, len, z)
    {
      assert Butterflied(b, a, i, len, z);
    }
  }

  method ButterflyBlock(r: array<int16>, zeta: int16, start: nat, len: nat, ghost bound: int)
    requires r.Length == 256 && 1 <= len && start + 2 * len <= 256
    requires -Q_HALF < zeta < Q_HALF && 0 <= bound < 32767 - Q
    requires AbsBound(r[start..], bound)
    modifies r
    ensures r[..start] == old(r[..start]) && r[start + 2 * len..] == old(r[start + 2 * len..])
    ensures AbsBound(r[start..start + 2 * len], bound + Q)
    ensures var a := old(r[start..start + 2 * len]);
            CongSeq(r[start..start + 2 * len], Fold(a, zeta * R_INV) + Fold(a, -(zeta * R_INV)))
  {
    hide FqMul, CongSeq, Fold, HalfDone;
    ghost var a := r[..];
    ghost var z := zeta * R_INV;
    HalfDoneStart(a, start, len, z, bound);
    for j := start to start + len
      invariant HalfDone(r[..], a, start, len, j, z, bound)
    {
      ghost var b := r[..];
      HalfDoneHere(b, a, start, len, j, z, bound);
      var t := FqMul(r[j + len], zeta);
      r[j + len] := r[j] - t;
      r[j] := r[j] + t;
      HalfDoneStep(b, a, start, len, j, zeta, bound, r[..]);
    }
    HalfDoneEnd(r[..], a, start, len, z, bound);
  }

  lemma HalfDoneStart(a: Poly, start: nat, len: nat, z: int, bound: int)
    requires start + 2 * len <= |a| && AbsBound(a[start..], bound)
    ensures HalfDone(a, a, start, len, start, z, bound)
  {
    forall i | start <= i < |a|
      ensures -bound < a[i] < bound
    {
      assert a[i] == a[start..][i - start];
    }
  }

  lemma HalfDoneHere(b: Poly, a: Poly, start: nat, len: nat, j: nat, z: int, bound: int)
    requires |a| == |b| && start <= j < start + len && start + 2 * len <= |a|
    requires HalfDone(b, a, start, len, j, z, bound)
    ensures -bound < b[j] < bound
  {
  }

  lemma HalfDoneEnd(b: Poly, a: Poly, start: nat, len: nat, z: int, bound: int)
    requires |a| == |b| && start + 2 * len <= |a| && HalfDone(b, a, start, len, start + len, z, bound)
    ensures b[..start] == a[..start] && b[start + 2 * len..] == a[start + 2 * len..]
    ensures AbsBound(b[start..start + 2 * len], bound + Q)
    ensures CongSeq(b[start..start + 2 * len], Fold(a[start..start + 2 * len], z) + Fold(a[start..start + 2 * len], -z))
  {
    hide Fold, CongSeq, Butterflied;
    BlockButterflied(b, a, start, len, z);
  }

  lemma ButterfliedAt(b: Poly, a: Poly, start: nat, len: nat, z: int, i: nat)
    requires |a| == |b| && start + 2 * len <= |a| && i < len && Butterflied(b, a, start + i, len, z)
    ensures var a', b' := a[start..start + 2 * len], b[start..start + 2 * len];
            Cong(b'[i], Fold(a', z)[i]) && Cong(b'[i + len], Fold(a', -z)[i])
  {
    hide Cong;
  }

  lemma BlockButterflied(b: Poly, a: Poly, start: nat, len: nat, z: int)
    requires |a| == |b| && start + 2 * len <= |a|
    requires forall i :: start <= i < start + len ==> Butterflied(b, a, i, len, z)
    ensures CongSeq(b[start..start + 2 * len], Fold(a[start..start + 2 * len], z) + Fold(a[start..start + 2 * len], -z))
  {
    hide Cong, Fold, Butterflied;
    var a', b' := a[start..start + 2 * len], b[start..start + 2 * len];
    var both := Fold(a', z) + Fold(a', -z);
    forall i | 0 <= i < 2 * len
      ensures Cong(b'[i], both[i])
    {
      ButterfliedAt(b, a, start, len, z, if i < len then i else i - len);
    }
  }

  /** The blocks before start are done; the target is what the whole layer computes. */
  ghost predicate LayerDone(b: Poly, a: Poly, target: Poly, start: nat, len: nat, k: nat, cnt: nat, bound: int)
    requires 1 <= k
  {
    && |b| == |a| == start + Times(2 * len, cnt)
    && b[start..] == a[start..]
    && CongSeq(b[..start] + Layer(a[start..], len, k, cnt), target)
    && AbsBound(b[..start], bound + Q) && AbsBound(b[start..], bound)
  }

  /** b' is b with the block at start split in two. */
  ghost predicate BlockSplit(b': Poly, b: Poly, start: nat, len: nat, z: int)
    requires |b| == |b'| && start + 2 * len <= |b|
  {
    && b'[..start] == b[..start] && b'[start + 2 * len..] == b[start + 2 * len..]
    && CongSeq(b'[start..start + 2 * len], Fold(b[start..start + 2 * len], z) + Fold(b[start..start + 2 * len], -z))
  }

  lemma LayerDoneHere(b: Poly, a: Poly, target: Poly, start: nat, len: nat, k: nat, cnt: nat, bound: int)
    requires 1 <= k && LayerDone(b, a, target, start, len, k, cnt, bound) && 1 <= len
    ensures (cnt == 0 <==> start >= |b|)
    ensures cnt > 0 ==> start + 2 * len <= |b|
    ensures AbsBound(b[start..], bound)
  {
    hide CongSeq;
  }

  /** The bounds before and after a block that grew by Q. */
  lemma BlockBounds(b: Poly, b': Poly, start: nat, n: nat, bound: int)
    requires |b'| == |b| && start + n <= |b| && b'[..start] == b[..start] && b'[start + n..] == b[start + n..]
    requires AbsBound(b[..start], bound + Q) && AbsBound(b[start..], bound) && AbsBound(b'[start..start + n], bound + Q)
    ensures AbsBound(b'[..start + n], bound + Q) && AbsBound(b'[start + n..], bound)
  {
    forall i | 0 <= i < start + n
      ensures -(bound + Q) < b'[i] < bound + Q
    {
      if i < start {
        assert b'[i] == b[..start][i];
      } else {
        assert b'[i] == b'[start..start + n][i - start];
      }
    }
    forall i | start + n <= i < |b|
      ensures -bound < b'[i] < bound
    {
      assert b'[i] == b[start + n..][i - start - n] == b[start..][i - start];
    }
  }

  lemma LayerDoneStep(b: Poly, b': Poly, a: Poly, target: Poly, start: nat, len: nat, k: nat, cnt: nat, bound: int)
    requires 1 <= k && 1 <= cnt && LayerDone(b, a, target, start, len, k, cnt, bound)
    requires |b'| == |b| && start + 2 * len <= |b| && BlockSplit(b', b, start, len, Root(k))
    requires AbsBound(b'[start..start + 2 * len], bound + Q)
    ensures LayerDone(b', a, target, start + 2 * len, len, k + 1, cnt - 1, bound)
  {
    hide CongSeq, Fold, Root, AbsBound, Times, Layer;
    var n, x := 2 * len, a[start..];
    var z := Root(k);
    assert a[start + n..] == x[n..] && b[start..start + n] == x[..n];
    LayerStep(x, len, k, cnt);
    BlockBounds(b, b', start, n, bound);
    var done, two, rest := b[..start], Fold(x[..n], z) + Fold(x[..n], -z), Layer(x[n..], len, k + 1, cnt - 1);
    var two' := b'[start..start + n];
    CongSeqRefl(done);
    CongSeqRefl(rest);
    CongSeqConcat(done, done, two', two);
    CongSeqConcat(done + two', done + two, rest, rest);
    assert done + two + rest == done + (two + rest);
    assert b'[..start + n] == done + two';
    CongSeqTrans(done + two' + rest, done + two + rest, target);
  }

  lemma LayerWidth(l: nat)
    requires 1 <= l <= 7
    ensures 256 / Pow2(l) == Pow2(8 - l) && Pow2(l) == 2 * Pow2(l - 1)
    ensures Times(2 * Pow2(8 - l), Pow2(l - 1)) == 256
  {
    hide Pow2, Times;
    Pow2Values();
    LayerSize(l);
    assert Pow2(9 - l) == 2 * Pow2(8 - l);
  }

  /** What layer l of the transform computes. */
  ghost function LayerAt(a: Poly, l: nat): (r: Poly)
    requires |a| == 256 && 1 <= l <= 7
    ensures |r| == 256
  {
    LayerWidth(l);
    Layer(a, Pow2(8 - l), Pow2(l - 1), Pow2(l - 1))
  }

  method NttLayer(r: array<int16>, layer: nat)
    requires r.Length == 256 && 1 <= layer <= 7 && AbsBound(r[..], layer * Q)
    modifies r
    ensures AbsBound(r[..], (layer + 1) * Q)
    ensures CongSeq(r[..], LayerAt(old(r[..]), layer))
  {
    hide LayerDone, CongSeq, AbsBound, Layer, Zeta, Pow2, Times, BlockSplit, Root, Fold;
    var k, len := Pow2(layer - 1), 256 / Pow2(layer);
    LayerWidth(layer);
    ghost var a, target, cnt := r[..], LayerAt(r[..], layer), k;
    var start: nat := 0;
    LayerDoneStart(a, target, len, k, layer * Q);
    LayerDoneHere(r[..], a, target, start, len, k, cnt, layer * Q);
    while start < 256
      invariant 1 <= k && k + cnt == Pow2(layer) && Pow2(layer - 1) <= k
      invariant LayerDone(r[..], a, target, start, len, k, cnt, layer * Q)
      invariant cnt == 0 <==> start >= 256
      decreases cnt
    {
      ghost var b := r[..];
      LayerDoneHere(b, a, target, start, len, k, cnt, layer * Q);
      ZetaSmall(k, layer);
      var zeta := Zeta(k);
      ButterflyBlock(r, zeta, start, len, layer * Q);
      BlockSplitIntro(r[..], b, start, len, k);
      LayerDoneStep(b, r[..], a, target, start, len, k, cnt, layer * Q);
      k, start, cnt := k + 1, start + 2 * len, cnt - 1;
      LayerDoneHere(r[..], a, target, start, len, k, cnt, layer * Q);
    }
    LayerDoneEnd(r[..], a, target, start, len, k, layer * Q);
  }

  lemma BlockSplitIntro(b': Poly, b: Poly, start: nat, len: nat, k: nat)
    requires 1 <= k && |b| == |b'| && start + 2 * len <= |b|
    requires b'[..start] == b[..start] && b'[start + 2 * len..] == b[start + 2 * len..]
    requires CongSeq(b'[start..start + 2 * len],
                     Fold(b[start..start + 2 * len], Zeta(k) * R_INV)
                       + Fold(b[start..start + 2 * len], -(Zeta(k) * R_INV)))
    ensures BlockSplit(b', b, start, len, Root(k))
  {
    hide CongSeq, Fold;
  }

  lemma LayerDoneStart(a: Poly, target: Poly, len: nat, k: nat, bound: int)
    requires 1 <= k && |a| == Times(2 * len, k) && target == Layer(a, len, k, k) && AbsBound(a, bound)
    ensures LayerDone(a, a, target, 0, len, k, k, bound)
  {
    hide Layer;
    assert a[0..] == a;
    CongSeqRefl(target);
    assert [] + Layer(a, len, k, k) == target;
  }

  lemma LayerDoneEnd(b: Poly, a: Poly, target: Poly, start: nat, len: nat, k: nat, bound: int)
    requires 1 <= k && LayerDone(b, a, target, start, len, k, 0, bound)
    ensures CongSeq(b, target) && AbsBound(b, bound + Q)
  {
    hide CongSeq;
    assert b[..start] == b;
    assert Layer(a[start..], len, k, 0) == [];
    assert b + [] == b;
  }

  /** The transform of what is left to do before layer l. */
  ghost function Rest(a: Poly, l: nat): (r: Poly)
    requires |a| == 256 && 1 <= l <= 8
    ensures |r| == 256
  {
    LayerSize(l);
    Blocks(a, Pow2(l - 1), 8 - l, Pow2(l - 1))
  }

  lemma RestOfLayer(a: Poly, l: nat)
    requires |a| == 256 && 1 <= l <= 7
    ensures Rest(LayerAt(a, l), l + 1) == Rest(a, l)
  {
    hide Layer, Blocks, Times;
    LayerSize(l);
    LayerSize(l + 1);
    LayerWidth(l);
    BlocksOfLayer(a, Pow2(l - 1), 8 - l, Pow2(l - 1));
  }

  lemma RestCong(a: Poly, b: Poly, l: nat)
    requires |a| == 256 && CongSeq(a, b) && 1 <= l <= 8
    ensures CongSeq(Rest(a, l), Rest(b, l))
  {
    hide Blocks, CongSeq, Times;
    LayerSize(l);
    BlocksCong(a, b, Pow2(l - 1), 8 - l, Pow2(l - 1));
  }

  lemma RestStart(a: Poly)
    requires |a| == 256
    ensures Rest(a, 1) == Hat(a)
  {
    hide Blocks, Times, Hat, Pow2;
    LayerSize(1);
    BlocksWhole(a);
    Pow2Values();
  }

  lemma RestEnd(a: Poly)
    requires |a| == 256
    ensures Rest(a, 8) == a
  {
    hide Blocks, Times;
    LayerSize(8);
    BlocksDone(a, Pow2(7), Pow2(7));
  }

  /** The forward transform. Layer l starts below l q and ends below (l + 1) q. */
  method PolyNtt(r: array<int16>)
    requires r.Length == 256 && AbsBound(r[..], Q)
    modifies r
    ensures AbsBound(r[..], 8 * Q)
    ensures CongSeq(r[..], Hat(old(r[..])))
    ensures forall i :: 0 <= i < 128 ==> RemainderAt(r[..], old(r[..]), i)
  {
    hide CongSeq, AbsBound, Rest, Hat, LayerAt, RemainderAt;
    ghost var a := r[..];
    RestStart(a);
    CongSeqRefl(Hat(a));
    for layer := 1 to 8
      invariant AbsBound(r[..], layer * Q)
      invariant CongSeq(Rest(r[..], layer), Hat(a))
    {
      ghost var b := r[..];
      NttLayer(r, layer);
      RestCong(r[..], LayerAt(b, layer), layer + 1);
      RestOfLayer(b, layer);
      CongSeqTrans(Rest(r[..], layer + 1), Rest(b, layer), Hat(a));
    }
    RestEnd(r[..]);
    HatRemainders(r[..], a);
  }

  // ---------- Inverse ----------

  ghost predicate Joined(b: Poly, a: Poly, i: nat, len: nat, z: int)
    requires |a| == |b| && i + len < |a|
  {
    Cong(b[i], a[i] + a[i + len]) && Cong(b[i + len], z * (a[i + len] - a[i]))
  }

  /** The block [start, start + 2 len) of a after the inverse butterflies before j. */
  ghost predicate HalfJoined(b: Poly, a: Poly, start: nat, len: nat, j: nat, z: int)
    requires |a| == |b| && start <= j <= start + len && start + 2 * len <= |a|
  {
    && (forall i :: 0 <= i < |a| && !(start <= i < j) && !(start + len <= i < j + len) ==> b[i] == a[i])
    && (forall i :: start <= i < j ==> Joined(b, a, i, len, z))
    && AbsBound(b, Q)
  }

  lemma HalfJoinedStep(b: Poly, a: Poly, start: nat, len: nat, j: nat, zeta: int16, c: Poly)
    requires |a| == |b| == |c| && start <= j < start + len && start + 2 * len <= |a|
    requires HalfJoined(b, a, start, len, j, zeta * R_INV) && -Q_HALF < zeta < Q_HALF
    requires -Q < b[j] < Q && -Q < b[j + len] < Q
    requires c == b[j := BarrettReduce(b[j] + b[j + len])][j + len := FqMul(b[j + len] - b[j], zeta)]
    ensures HalfJoined(c, a, start, len, j + 1, zeta * R_INV)
  {
    hide Cong, FqMul, BarrettReduce;
    var z := zeta * R_INV;
    FqMulRoot(b[j + len] - b[j], zeta);
    assert Joined(c, a, j, len, z);
    forall i | start <= i < j
      ensures Joined(c, a, i, len, z)
    {
      assert Joined(b, a, i, len, z);
    }
  }

  lemma HalfJoinedHere(b: Poly, a: Poly, start: nat, len: nat, j: nat, z: int)
    requires |a| == |b| && start <= j < start + len && start + 2 * len <= |a| && HalfJoined(b, a, start, len, j, z)
    ensures -Q < b[j] < Q && -Q < b[j + len] < Q
  {
  }

  lemma HalfJoinedStart(a: Poly, start: nat, len: nat, z: int)
    requires start + 2 * len <= |a| && AbsBound(a, Q)
    ensures HalfJoined(a, a, start, len, start, z)
  {
  }

  ghost predicate BlockJoined(b': Poly, b: Poly, start: nat, len: nat, z: int)
    requires |b| == |b'| && start + 2 * len <= |b|
  {
    && b'[..start] == b[..start] && b'[start + 2 * len..] == b[start + 2 * len..]
    && CongSeq(b'[start..start + 2 * len], Join(b[start..start + len], b[start + len..start + 2 * len], z))
  }

  lemma HalfJoinedEnd(b: Poly, a: Poly, start: nat, len: nat, z: int)
    requires |a| == |b| && start + 2 * len <= |a| && HalfJoined(b, a, start, len, start + len, z)
    ensures BlockJoined(b, a, start, len, z) && AbsBound(b, Q)
  {
    hide Join, CongSeq, Joined;
    AllJoined(b, a, start, len, z);
  }

  lemma JoinIndex(x: Poly, y: Poly, z: int, i: nat)
    requires |x| == |y| && i < |x|
    ensures Join(x, y, z)[i] == x[i] + y[i] && Join(x, y, z)[i + |x|] == z * (y[i] - x[i])
  {
  }

  lemma JoinedAt(b: Poly, a: Poly, start: nat, len: nat, z: int, i: nat)
    requires |a| == |b| && start + 2 * len <= |a| && i < len && Joined(b, a, start + i, len, z)
    ensures var b', j := b[start..start + 2 * len], Join(a[start..start + len], a[start + len..start + 2 * len], z);
            Cong(b'[i], j[i]) && Cong(b'[i + len], j[i + len])
  {
    hide Cong, Join;
    JoinIndex(a[start..start + len], a[start + len..start + 2 * len], z, i);
  }

  lemma AllJoined(b: Poly, a: Poly, start: nat, len: nat, z: int)
    requires |a| == |b| && start + 2 * len <= |a|
    requires forall i :: start <= i < start + len ==> Joined(b, a, i, len, z)
    ensures CongSeq(b[start..start + 2 * len], Join(a[start..start + len], a[start + len..start + 2 * len], z))
  {
    hide Cong, Join, Joined;
    var b', joined := b[start..start + 2 * len], Join(a[start..start + len], a[start + len..start + 2 * len], z);
    forall i | 0 <= i < 2 * len
      ensures Cong(b'[i], joined[i])
    {
      JoinedAt(b, a, start, len, z, if i < len then i else i - len);
    }
  }

  ghost predicate InvLayerDone(b: Poly, a: Poly, target: Poly, start: nat, len: nat, k: nat, cnt: nat)
    requires cnt <= k
  {
    && |b| == |a| == start + Times(2 * len, cnt)
    && b[start..] == a[start..]
    && CongSeq(b[..start] + InvLayer(a[start..], len, k, cnt), target)
  }

  lemma InvLayerDoneHere(b: Poly, a: Poly, target: Poly, start: nat, len: nat, k: nat, cnt: nat)
    requires cnt <= k && InvLayerDone(b, a, target, start, len, k, cnt) && 1 <= len
    ensures (cnt == 0 <==> start >= |b|)
    ensures cnt > 0 ==> start + 2 * len <= |b|
  {
    hide CongSeq;
  }

  lemma SameSlice(a: Poly, b: Poly, start: nat, i: nat, j: nat)
    requires |a| == |b| && start <= i <= j <= |a| && a[start..] == b[start..]
    ensures a[i..j] == b[i..j]
  {
    forall t | i <= t < j
      ensures a[t] == b[t]
    {
      assert a[t] == a[start..][t - start] && b[t] == b[start..][t - start];
    }
  }

  lemma InvLayerDoneStep(b: Poly, b': Poly, a: Poly, target: Poly, start: nat, len: nat, k: nat, cnt: nat)
    requires 1 <= cnt <= k && InvLayerDone(b, a, target, start, len, k, cnt)
    requires |b'| == |b| && start + 2 * len <= |b| && BlockJoined(b', b, start, len, Root(k))
    ensures InvLayerDone(b', a, target, start + 2 * len, len, k - 1, cnt - 1)
  {
    hide CongSeq, Join, Root;
    var n, x, y := 2 * len, a[start..start + len], a[start + len..start + 2 * len];
    SameSlice(a, b, start, start, start + len);
    SameSlice(a, b, start, start + len, start + n);
    var after := a[start + n..];
    InvLayerStep(x, y, after, len, k, cnt);
    assert x + y + after == a[start..];
    var done, two, rest := b[..start], Join(x, y, Root(k)), InvLayer(after, len, k - 1, cnt - 1);
    var two' := b'[start..start + n];
    CongSeqRefl(done);
    CongSeqRefl(rest);
    CongSeqConcat(done, done, two', two);
    CongSeqConcat(done + two', done + two, rest, rest);
    assert done + two + rest == done + (two + rest);
    assert b'[..start + n] == done + two';
    CongSeqTrans(done + two' + rest, done + two + rest, target);
  }

  /** The inner loop of an inverse layer: the two halves of a block are joined. */
  method InvButterflyBlock(r: array<int16>, start: nat, len: nat, zeta: int16)
    requires start + 2 * len <= r.Length && AbsBound(r[..], Q) && -Q_HALF < zeta < Q_HALF
    modifies r
    ensures AbsBound(r[..], Q) && BlockJoined(r[..], old(r[..]), start, len, zeta * R_INV)
  {
    hide AbsBound, BlockJoined, Join, HalfJoined, FqMul, BarrettReduce;
    ghost var b, z := r[..], zeta * R_INV;
    HalfJoinedStart(b, start, len, z);
    for j := start to start + len
      invariant HalfJoined(r[..], b, start, len, j, z)
    {
      ghost var c := r[..];
      HalfJoinedHere(c, b, start, len, j, z);
      var t := r[j];
      r[j] := BarrettReduce(t + r[j + len]);
      r[j + len] := r[j + len] - t;
      r[j + len] := FqMul(r[j + len], zeta);
      HalfJoinedStep(c, b, start, len, j, zeta, r[..]);
    }
    HalfJoinedEnd(r[..], b, start, len, z);
  }

  /** What inverse layer l computes. */
  ghost function InvLayerAt(a: Poly, l: nat): (r: Poly)
    requires |a| == 256 && 1 <= l <= 7
    ensures |r| == 256
  {
    LayerWidth(l);
    InvLayer(a, Pow2(8 - l), Pow2(l) - 1, Pow2(l - 1))
  }

  method InvNttLayer(r: array<int16>, layer: nat)
    requires r.Length == 256 && 1 <= layer <= 7 && AbsBound(r[..], Q)
    modifies r
    ensures AbsBound(r[..], Q)
    ensures CongSeq(r[..], InvLayerAt(old(r[..]), layer))
  {
    hide InvLayerDone, CongSeq, AbsBound, InvLayer, Zeta, Pow2, Times, BlockJoined, Join, HalfJoined, FqMul,
      BarrettReduce;
    var len: nat, k: nat := 256 / Pow2(layer), Pow2(layer) - 1;
    LayerWidth(layer);
    ghost var a, target := r[..], InvLayerAt(r[..], layer);
    ghost var cnt: nat := Pow2(layer - 1);
    var start: nat := 0;
    InvLayerDoneStart(a, target, len, k, cnt);
    InvLayerDoneHere(r[..], a, target, start, len, k, cnt);
    while start < 256
      invariant cnt <= k && k - cnt + 1 == Pow2(layer - 1) && k < Pow2(layer)
      invariant AbsBound(r[..], Q)
      invariant InvLayerDone(r[..], a, target, start, len, k, cnt)
      invariant cnt == 0 <==> start >= 256
      decreases cnt
    {
      ghost var b := r[..];
      InvLayerDoneHere(b, a, target, start, len, k, cnt);
      ZetaSmall(k, layer);
      var zeta := Zeta(k);
      InvButterflyBlock(r, start, len, zeta);
      InvLayerDoneStep(b, r[..], a, target, start, len, k, cnt);
      k, start, cnt := k - 1, start + 2 * len, cnt - 1;
      InvLayerDoneHere(r[..], a, target, start, len, k, cnt);
    }
    InvLayerDoneEnd(r[..], a, target, start, len, k);
  }

  lemma InvLayerDoneStart(a: Poly, target: Poly, len: nat, k: nat, cnt: nat)
    requires cnt <= k && |a| == Times(2 * len, cnt) && target == InvLayer(a, len, k, cnt)
    ensures InvLayerDone(a, a, target, 0, len, k, cnt)
  {
    hide InvLayer;
    assert a[0..] == a;
    CongSeqRefl(target);
    assert [] + InvLayer(a, len, k, cnt) == target;
  }

  lemma InvLayerDoneEnd(b: Poly, a: Poly, target: Poly, start: nat, len: nat, k: nat)
    requires InvLayerDone(b, a, target, start, len, k, 0)
    ensures CongSeq(b, target)
  {
    hide CongSeq;
    assert b[..start] == b;
    assert InvLayer(a[start..], len, k, 0) == [];
    assert b + [] == b;
  }

  /** What the inverse layers 7 down to l + 1 have computed. */
  ghost function Back(a: Poly, l: nat): (r: Poly)
    requires |a| == 256 && 0 <= l <= 7
    ensures |r| == 256
  {
    LayerSize(l + 1);
    InvBlocks(a, Pow2(l + 1) - 1, 7 - l, Pow2(l))
  }

  lemma BackLayer(a: Poly, l: nat)
    requires |a| == 256 && 1 <= l <= 7
    ensures InvLayerAt(Back(a, l), l) == Back(a, l - 1)
  {
    hide InvLayer, InvBlocks, Times;
    LayerSize(l);
    LayerSize(l + 1);
    LayerWidth(l);
    InvLayerOfBlocks(a, Pow2(l) - 1, 8 - l, Pow2(l - 1));
  }

  lemma InvLayerAtCong(a: Poly, b: Poly, l: nat)
    requires |a| == 256 && CongSeq(a, b) && 1 <= l <= 7
    ensures CongSeq(InvLayerAt(a, l), InvLayerAt(b, l))
  {
    hide InvLayer, CongSeq, Times;
    LayerWidth(l);
    InvLayerCong(a, b, Pow2(8 - l), Pow2(l) - 1, Pow2(l - 1));
  }

  lemma BackStart(a: Poly)
    requires |a| == 256
    ensures Back(a, 7) == a
  {
    hide InvBlocks, Times;
    LayerSize(8);
    InvBlocksDone(a, Pow2(8) - 1, Pow2(7));
  }

  lemma BackEnd(a: Poly)
    requires |a| == 256
    ensures Back(a, 0) == Unhat(a)
  {
    hide InvBlocks, Times, Unhat, Pow2;
    LayerSize(1);
    BlocksWhole(a);
    Pow2Values();
  }

  /** Multiplying the coefficients of a polynomial by a constant in Montgomery form. */
  method FqMulAll(r: array<int16>, f: int16)
    requires r.Length == 256 && -Q_HALF < f < Q_HALF
    modifies r
    ensures AbsBound(r[..], Q)
    ensures CongSeq(r[..], Scale(f * R_INV, old(r[..])))
  {
    hide FqMul, Cong;
    for j := 0 to 256
      invariant forall i :: j <= i < 256 ==> r[i] == old(r[i])
      invariant forall i :: 0 <= i < j ==> -Q < r[i] < Q && Cong(r[i], (f * R_INV) * old(r[i]))
    {
      FqMulRoot(r[j], f);
      r[j] := FqMul(r[j], f);
    }
  }

  lemma {:induction false} INttScale(a: Poly, c: int, k: nat, h: nat)
    requires 1 <= k && |a| == Pow2(h + 1)
    ensures INtt(Scale(c, a), k, h) == Scale(c, INtt(a, k, h))
    decreases h
  {
    if h > 0 {
      INttScaleStep(a, c, k, h, Pow2(h));
    }
  }

  lemma ScaleHalves(c: int, a: Poly, n: nat)
    requires n <= |a|
    ensures Scale(c, a)[..n] == Scale(c, a[..n]) && Scale(c, a)[n..] == Scale(c, a[n..])
  {
  }

  lemma {:induction false} INttScaleStep(a: Poly, c: int, k: nat, h: nat, n: nat)
    requires 1 <= k && 1 <= h && n == Pow2(h) && |a| == Pow2(h + 1) == 2 * n
    ensures INtt(Scale(c, a), k, h) == Scale(c, INtt(a, k, h))
    decreases h, 0
  {
    hide Root, Join, Scale, INtt;
    ScaleHalves(c, a, n);
    INttUnfold(a, k, h, n);
    INttUnfold(Scale(c, a), k, h, n);
    INttScale(a[..n], c, 2 * k + 1, h - 1);
    INttScale(a[n..], c, 2 * k, h - 1);
    JoinScale(INtt(a[..n], 2 * k + 1, h - 1), INtt(a[n..], 2 * k, h - 1), c, Root(k));
  }

  lemma Factor(x: int, y: int, c: int, z: int)
    ensures c * x + c * y == c * (x + y) && z * (c * y - c * x) == c * (z * (y - x))
  {
    assert c * y - c * x == c * (y - x);
  }

  lemma JoinScaleAt(x: Poly, y: Poly, c: int, z: int, i: nat)
    requires |x| == |y| && i < |x|
    ensures var l, r := Join(Scale(c, x), Scale(c, y), z), Scale(c, Join(x, y, z));
            l[i] == r[i] && l[i + |x|] == r[i + |x|]
  {
    Factor(x[i], y[i], c, z);
  }

  lemma JoinScale(x: Poly, y: Poly, c: int, z: int)
    requires |x| == |y|
    ensures Join(Scale(c, x), Scale(c, y), z) == Scale(c, Join(x, y, z))
  {
    hide Join, Scale;
    var l, r := Join(Scale(c, x), Scale(c, y), z), Scale(c, Join(x, y, z));
    forall i | 0 <= i < 2 * |x|
      ensures l[i] == r[i]
    {
      JoinScaleAt(x, y, c, z, if i < |x| then i else i - |x|);
    }
  }

  /** Two scalings that agree modulo q. */
  lemma ScaleFactorCong(c: int, d: int, a: Poly)
    requires Cong(c, d)
    ensures CongSeq(Scale(c, a), Scale(d, a))
  {
    hide Cong;
    forall i | 0 <= i < |a|
      ensures Cong(c * a[i], d * a[i])
    {
      CongIntro(a[i], a[i], 0);
      CongMul(c, d, a[i], a[i]);
    }
  }

  /** The inverse transform: 512 times the inverse layers, 2^16 times the inverse of the transform. */
  method PolyInvNttToMont(r: array<int16>)
    requires r.Length == 256
    modifies r
    ensures AbsBound(r[..], Q)
    ensures CongSeq(r[..], Scale(512, Unhat(old(r[..]))))
  {
    hide CongSeq, AbsBound, Back, Unhat, InvLayerAt, Scale;
    ghost var a := r[..];
    FqMulAll(r, 1441);
    ghost var s := r[..];
    BackStart(s);
    BackEnd(s);
    CongSeqRefl(s);
    for layer := 7 downto 0
      invariant AbsBound(r[..], Q)
      invariant CongSeq(r[..], Back(s, layer))
    {
      ghost var b := r[..];
      InvNttLayer(r, layer + 1);
      InvLayerAtCong(b, Back(s, layer + 1), layer + 1);
      BackLayer(s, layer + 1);
      CongSeqTrans(r[..], InvLayerAt(b, layer + 1), Back(s, layer));
    }
    UnhatScaled(s, a);
    CongSeqTrans(r[..], Unhat(s), Scale(512, Unhat(a)));
  }

  lemma UnhatScaled(s: Poly, a: Poly)
    requires |s| == |a| == 256 && CongSeq(s, Scale(1441 * R_INV, a))
    ensures CongSeq(Unhat(s), Scale(512, Unhat(a)))
  {
    hide CongSeq, Scale, INtt;
    Pow2Values();
    INttCong(s, Scale(1441 * R_INV, a), 1, 7);
    INttScale(a, 1441 * R_INV, 1, 7);
    CongIntro(1441 * R_INV, 512, 73);
    ScaleFactorCong(1441 * R_INV, 512, Unhat(a));
    CongSeqTrans(Unhat(s), Scale(1441 * R_INV, Unhat(a)), Scale(512, Unhat(a)));
  }

  /** Transforming forth and back multiplies by 2^16 modulo q. */
  lemma ThereAndBack(p: Poly, x: Poly, y: Poly)
    requires |p| == |x| == |y| == 256
    requires CongSeq(x, Hat(p)) && CongSeq(y, Scale(512, Unhat(x)))
    ensures CongSeq(y, Scale(0x1_0000, p))
  {
    hide CongSeq, Scale, INtt, Hat;
    Pow2Values();
    INttCong(x, Hat(p), 1, 7);
    UnhatHat(p);
    CongSeqTrans(Unhat(x), Unhat(Hat(p)), Scale(128, p));
    ScaleCong(512, Unhat(x), Scale(128, p));
    ScaleScale(512, 128, p);
    CongSeqTrans(y, Scale(512, Unhat(x)), Scale(0x1_0000, p));
  }
}
