/**
  The transform layer by layer: what one pass of the loops over all blocks computes,
  and that seven passes compute the transform.
*/
module NttLayers {
  import opened ModQ
  import opened Powers
  import opened Ring
  import opened Zetas
  import opened NttSpec

  /** cnt blocks of n. */
  function Times(n: nat, cnt: nat): nat
    decreases cnt
  {
    if cnt == 0 then 0 else n + Times(n, cnt - 1)
  }

  function Layer(a: Poly, n: nat, k: nat, cnt: nat): (r: Poly)
    requires 1 <= k && |a| == Times(2 * n, cnt)
    ensures |r| == |a|
    decreases cnt
  {
    if cnt == 0 then []
    else (Fold(a[..2 * n], Root(k)) + Fold(a[..2 * n], -Root(k))) + Layer(a[2 * n..], n, k + 1, cnt - 1)
  }

  function InvLayer(a: Poly, n: nat, k: nat, cnt: nat): (r: Poly)
    requires cnt <= k && |a| == Times(2 * n, cnt)
    ensures |r| == |a|
    decreases cnt
  {
    if cnt == 0 then []
    else Join(a[..n], a[n..2 * n], Root(k)) + InvLayer(a[2 * n..], n, k - 1, cnt - 1)
  }

  /** The transforms of cnt adjacent blocks. */
  function Blocks(a: Poly, k: nat, h: nat, cnt: nat): (r: Poly)
    requires 1 <= k && |a| == Times(Pow2(h + 1), cnt)
    ensures |r| == |a|
    decreases cnt
  {
    if cnt == 0 then [] else Ntt(a[..Pow2(h + 1)], k, h) + Blocks(a[Pow2(h + 1)..], k + 1, h, cnt - 1)
  }

  function InvBlocks(a: Poly, k: nat, h: nat, cnt: nat): (r: Poly)
    requires cnt <= k && |a| == Times(Pow2(h + 1), cnt)
    ensures |r| == |a|
    decreases cnt
  {
    if cnt == 0 then [] else INtt(a[..Pow2(h + 1)], k, h) + InvBlocks(a[Pow2(h + 1)..], k - 1, h, cnt - 1)
  }

  lemma {:induction false} BlocksCong(a: Poly, b: Poly, k: nat, h: nat, cnt: nat)
    requires 1 <= k && |a| == Times(Pow2(h + 1), cnt) && CongSeq(a, b)
    ensures CongSeq(Blocks(a, k, h, cnt), Blocks(b, k, h, cnt))
    decreases cnt
  {
    hide Cong, Ntt, Pow2;
    if cnt > 0 {
      var n := Pow2(h + 1);
      NttCong(a[..n], b[..n], k, h);
      BlocksCong(a[n..], b[n..], k + 1, h, cnt - 1);
    }
  }

  lemma {:induction false} InvLayerCong(a: Poly, b: Poly, n: nat, k: nat, cnt: nat)
    requires cnt <= k && |a| == Times(2 * n, cnt) && CongSeq(a, b)
    ensures CongSeq(InvLayer(a, n, k, cnt), InvLayer(b, n, k, cnt))
    decreases cnt
  {
    hide Cong, Join, Root;
    if cnt > 0 {
      JoinCong(a[..n], a[n..2 * n], b[..n], b[n..2 * n], Root(k));
      InvLayerCong(a[2 * n..], b[2 * n..], n, k - 1, cnt - 1);
    }
  }

  lemma {:induction false} TimesDouble(n: nat, cnt: nat)
    ensures Times(2 * n, cnt) == Times(n, 2 * cnt)
    decreases cnt
  {
    if cnt > 0 {
      TimesDouble(n, cnt - 1);
      assert Times(n, 2 * cnt) == n + Times(n, 2 * cnt - 1);
    }
  }

  lemma BlocksTwo(x: Poly, y: Poly, rest: Poly, k: nat, h: nat, cnt: nat)
    requires 1 <= k && |x| == |y| == Pow2(h + 1) && |rest| == Times(Pow2(h + 1), cnt)
    ensures |x + y + rest| == Times(Pow2(h + 1), cnt + 2)
    ensures Blocks(x + y + rest, k, h, cnt + 2) == Ntt(x, k, h) + Ntt(y, k + 1, h) + Blocks(rest, k + 2, h, cnt)
  {
    hide Ntt, Pow2;
    var n := Pow2(h + 1);
    var a := x + y + rest;
    assert Times(n, cnt + 2) == n + Times(n, cnt + 1) && Times(n, cnt + 1) == n + Times(n, cnt);
    assert a[..n] == x && a[n..] == y + rest && (y + rest)[..n] == y && (y + rest)[n..] == rest;
    assert Blocks(y + rest, k + 1, h, cnt + 1) == Ntt(y, k + 1, h) + Blocks(rest, k + 2, h, cnt);
    assert Blocks(a, k, h, cnt + 2) == Ntt(x, k, h) + Blocks(y + rest, k + 1, h, cnt + 1);
  }

  lemma LayerStep(a: Poly, n: nat, k: nat, cnt: nat)
    requires 1 <= k && 1 <= cnt && |a| == Times(2 * n, cnt)
    ensures Times(2 * n, cnt) == 2 * n + Times(2 * n, cnt - 1)
    ensures Layer(a, n, k, cnt)
            == Fold(a[..2 * n], Root(k)) + Fold(a[..2 * n], -Root(k)) + Layer(a[2 * n..], n, k + 1, cnt - 1)
  {
    hide Root, Fold;
  }

  lemma BlocksStep(a: Poly, k: nat, h: nat, cnt: nat)
    requires 1 <= k && 1 <= h && 1 <= cnt && |a| == Times(Pow2(h + 1), cnt)
    ensures Times(Pow2(h + 1), cnt) == 2 * Pow2(h) + Times(Pow2(h + 1), cnt - 1)
    ensures var a0 := a[..2 * Pow2(h)];
            Blocks(a, k, h, cnt) == Ntt(Fold(a0, Root(k)), 2 * k, h - 1) + Ntt(Fold(a0, -Root(k)), 2 * k + 1, h - 1)
                                  + Blocks(a[2 * Pow2(h)..], k + 1, h, cnt - 1)
  {
    hide Root, Fold;
  }

  /** A layer does the top node of every block: the transform of the rest is unchanged. */
  lemma {:induction false} BlocksOfLayer(a: Poly, k: nat, h: nat, cnt: nat)
    requires 1 <= k && 1 <= h && |a| == Times(Pow2(h + 1), cnt) == Times(Pow2(h), 2 * cnt) == Times(2 * Pow2(h), cnt)
    ensures Blocks(Layer(a, Pow2(h), k, cnt), 2 * k, h - 1, 2 * cnt) == Blocks(a, k, h, cnt)
    decreases cnt
  {
    if cnt > 0 {
      BlocksOfLayerStep(a, k, h, cnt, Pow2(h));
    }
  }

  lemma {:induction false} BlocksOfLayerStep(a: Poly, k: nat, h: nat, cnt: nat, n: nat)
    requires 1 <= k && 1 <= h && 1 <= cnt && n == Pow2(h)
    requires |a| == Times(Pow2(h + 1), cnt) == Times(Pow2(h), 2 * cnt) == Times(2 * n, cnt)
    ensures Blocks(Layer(a, n, k, cnt), 2 * k, h - 1, 2 * cnt) == Blocks(a, k, h, cnt)
    decreases cnt, 0
  {
    hide Fold, Root, Layer, Blocks, Ntt, Times;
    LayerStep(a, n, k, cnt);
    BlocksStep(a, k, h, cnt);
    var z, a0, a1 := Root(k), a[..2 * n], a[2 * n..];
    TimesDouble(n, cnt - 1);
    BlocksOfLayer(a1, k + 1, h, cnt - 1);
    BlocksTwo(Fold(a0, z), Fold(a0, -z), Layer(a1, n, k + 1, cnt - 1), 2 * k, h - 1, 2 * cnt - 2);
  }

  lemma InvBlocksTwo(a: Poly, k: nat, h: nat, cnt: nat)
    requires cnt + 2 <= k && |a| == Times(Pow2(h + 1), cnt + 2)
    ensures Times(Pow2(h + 1), cnt + 2) == 2 * Pow2(h + 1) + Times(Pow2(h + 1), cnt)
    ensures var n := Pow2(h + 1);
            InvBlocks(a, k, h, cnt + 2)
            == INtt(a[..n], k, h) + INtt(a[n..2 * n], k - 1, h) + InvBlocks(a[2 * n..], k - 2, h, cnt)
  {
    hide INtt, Pow2;
    var n := Pow2(h + 1);
    assert Times(n, cnt + 2) == n + Times(n, cnt + 1) && Times(n, cnt + 1) == n + Times(n, cnt);
    var b := a[n..];
    assert b[..n] == a[n..2 * n] && b[n..] == a[2 * n..];
    assert InvBlocks(b, k - 1, h, cnt + 1) == INtt(b[..n], k - 1, h) + InvBlocks(b[n..], k - 2, h, cnt);
  }

  lemma InvLayerStep(x: Poly, y: Poly, rest: Poly, n: nat, k: nat, cnt: nat)
    requires 1 <= cnt <= k && |x| == |y| == n && |rest| == Times(2 * n, cnt - 1)
    ensures |x + y + rest| == Times(2 * n, cnt)
    ensures InvLayer(x + y + rest, n, k, cnt) == Join(x, y, Root(k)) + InvLayer(rest, n, k - 1, cnt - 1)
  {
    hide Root, Join;
    var a := x + y + rest;
    assert a[..n] == x && a[n..2 * n] == y && a[2 * n..] == rest;
  }

  lemma InvBlocksStep(a: Poly, k: nat, h: nat, cnt: nat)
    requires 1 <= h && 1 <= cnt <= k && |a| == Times(Pow2(h + 1), cnt)
    ensures Times(Pow2(h + 1), cnt) == 2 * Pow2(h) + Times(Pow2(h + 1), cnt - 1)
    ensures var n := Pow2(h);
            InvBlocks(a, k, h, cnt) == Join(INtt(a[..n], 2 * k + 1, h - 1), INtt(a[n..2 * n], 2 * k, h - 1), Root(k))
                                     + InvBlocks(a[2 * n..], k - 1, h, cnt - 1)
  {
    hide Root, Join;
    var n := Pow2(h);
    var a0 := a[..2 * n];
    assert a0[..n] == a[..n] && a0[n..] == a[n..2 * n];
  }

  /** An inverse layer does the top node of every block, after the inverses of both halves. */
  lemma {:induction false} InvLayerOfBlocks(a: Poly, k: nat, h: nat, cnt: nat)
    requires cnt <= k && 1 <= h && |a| == Times(Pow2(h + 1), cnt) == Times(Pow2(h), 2 * cnt) == Times(2 * Pow2(h), cnt)
    ensures InvLayer(InvBlocks(a, 2 * k + 1, h - 1, 2 * cnt), Pow2(h), k, cnt) == InvBlocks(a, k, h, cnt)
    decreases cnt
  {
    if cnt > 0 {
      InvLayerOfBlocksStep(a, k, h, cnt, Pow2(h));
    }
  }

  lemma {:induction false} InvLayerOfBlocksStep(a: Poly, k: nat, h: nat, cnt: nat, n: nat)
    requires 1 <= cnt <= k && 1 <= h && n == Pow2(h)
    requires |a| == Times(Pow2(h + 1), cnt) == Times(Pow2(h), 2 * cnt) == Times(2 * n, cnt)
    ensures InvLayer(InvBlocks(a, 2 * k + 1, h - 1, 2 * cnt), n, k, cnt) == InvBlocks(a, k, h, cnt)
    decreases cnt, 0
  {
    hide Join, Root, InvLayer, InvBlocks, INtt, Times;
    InvBlocksStep(a, k, h, cnt);
    var a1 := a[2 * n..];
    TimesDouble(n, cnt - 1);
    InvBlocksTwo(a, 2 * k + 1, h - 1, 2 * cnt - 2);
    InvLayerOfBlocks(a1, k - 1, h, cnt - 1);
    InvLayerStep(INtt(a[..n], 2 * k + 1, h - 1), INtt(a[n..2 * n], 2 * k, h - 1),
                 InvBlocks(a1, 2 * k - 1, h - 1, 2 * cnt - 2), n, k, cnt);
  }

  lemma {:induction false} BlocksDone(a: Poly, k: nat, cnt: nat)
    requires 1 <= k && |a| == Times(Pow2(1), cnt)
    ensures Blocks(a, k, 0, cnt) == a
    decreases cnt
  {
    if cnt > 0 {
      BlocksDone(a[2..], k + 1, cnt - 1);
    }
  }

  lemma {:induction false} InvBlocksDone(a: Poly, k: nat, cnt: nat)
    requires cnt <= k && |a| == Times(Pow2(1), cnt)
    ensures InvBlocks(a, k, 0, cnt) == a
    decreases cnt
  {
    if cnt > 0 {
      InvBlocksDone(a[2..], k - 1, cnt - 1);
    }
  }

  lemma BlocksWhole(a: Poly)
    requires |a| == 256
    ensures Times(Pow2(8), 1) == 256
    ensures Blocks(a, 1, 7, 1) == Hat(a) && InvBlocks(a, 1, 7, 1) == Unhat(a)
  {
    hide Ntt, INtt;
    Pow2Values();
    assert Times(256, 1) == 256 + Times(256, 0);
    assert a[..256] == a;
  }

  /** Layer l has 2^(l-1) blocks of 2^(9-l) coefficients. */
  lemma {:induction false} LayerSize(l: nat)
    requires 1 <= l <= 8
    ensures Times(Pow2(9 - l), Pow2(l - 1)) == 256
    decreases l
  {
    if l == 1 {
      BlocksWhole(seq(256, i => 0));
    } else {
      LayerSize(l - 1);
      TimesDouble(Pow2(9 - l), Pow2(l - 2));
    }
  }
}
