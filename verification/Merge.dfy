/**
  Why a compaction loses nothing: the merged segment, followed by the untouched
  newest segment, stands for the same mapping, and relocating the merged keys in
  the old index gives the index of the new directory.
*/
module Merge {
  import opened Bytes
  import opened RecordFormat
  import opened Hints
  import opened Directory

  // ---------- The index points at the records ----------

  /** The complete record of a put of (k, v) lies where `loc` says. */
  ghost predicate RecordAt(s: Bytes, loc: Loc, k: Bytes, v: Bytes) {
    && Fits(Put(loc.ts, k, v)) && loc.size == |v|
    && HEADER_SIZE + |k| <= loc.pos && loc.pos + |v| <= |s|
    && s[loc.pos - |k| - HEADER_SIZE..loc.pos + |v|] == Encode(Put(loc.ts, k, v))
  }

  ghost predicate Points(segs: Segments, ids: set<nat>, kd: KeyDir, m: Store)
    requires ids <= segs.Keys
  {
    && kd.Keys == m.Keys
    && forall k :: k in kd ==> kd[k].seg in ids && RecordAt(segs[kd[k].seg], kd[k], k, m[k])
  }

  /** A get that reads at the indexed place reads the value. */
  lemma RecordValue(s: Bytes, loc: Loc, k: Bytes, v: Bytes)
    requires RecordAt(s, loc, k, v)
    ensures s[loc.pos..loc.pos + |v|] == v
  {
    hide Crc32.Crc, Le32, Le64;
    var e := Encode(Put(loc.ts, k, v));
    var start := loc.pos - |k| - HEADER_SIZE;
    assert e[HEADER_SIZE + |k|..] == v;
    assert s[loc.pos..loc.pos + |v|] == s[start..loc.pos + |v|][HEADER_SIZE + |k|..];
  }

  lemma PutPoints(segs: Segments, ids: set<nat>, id: nat, off: nat, e: Entry, kd: KeyDir, m: Store)
    requires ids <= segs.Keys && id in ids && Fits(e)
    requires off + RecLen(e) <= |segs[id]| && segs[id][off..off + RecLen(e)] == Encode(e)
    requires Points(segs, ids, kd, m)
    ensures Points(segs, ids, IndexEntry(id, off, e, kd), ReplayEntry(e, m))
  {
    hide Encode;
    if e.Put? {
      assert RecordAt(segs[id], Loc(id, off + HEADER_SIZE + |e.key|, |e.value|, e.ts), e.key, e.value);
    }
  }

  lemma {:induction false} IndexPoints(segs: Segments, ids: set<nat>, id: nat, es: seq<Entry>, kd: KeyDir, m: Store)
    requires ids <= segs.Keys && id in ids && AllFit(es)
    requires EncodeAll(es) <= segs[id]
    requires Points(segs, ids, kd, m)
    ensures Points(segs, ids, Index(id, es, kd), Replay(es, m))
    decreases |es|
  {
    hide Points, Encode, RecLen, IndexEntry, ReplayEntry;
    if es != [] {
      var init, last := es[..|es| - 1], es[|es| - 1];
      IndexPoints(segs, ids, id, init, kd, m);
      var off := TotalLen(init);
      assert segs[id][off..off + RecLen(last)] == EncodeAll(es)[off..] == Encode(last);
      PutPoints(segs, ids, id, off, last, Index(id, init, kd), Replay(init, m));
    }
  }

  lemma PointsMono(segs: Segments, ids: set<nat>, ids': set<nat>, kd: KeyDir, m: Store)
    requires ids <= ids' <= segs.Keys && Points(segs, ids, kd, m)
    ensures Points(segs, ids', kd, m)
  {
    hide RecordAt;
  }

  /** The index of a directory names exactly the live keys, each at a record of its current value. */
  lemma {:induction false} DirPoints(segs: Segments, ids: set<nat>)
    requires ids <= segs.Keys
    ensures Points(segs, ids, DirIndex(segs, ids), DirMap(segs, ids))
    decreases |ids|
  {
    hide RecordAt, Scan, Index, Replay, Encode, Parse, Points;
    if ids == {} {
      PointsEmpty(segs);
    } else {
      var m := MaxOf(ids);
      DirPoints(segs, ids - {m});
      var kd, st := DirIndex(segs, ids - {m}), DirMap(segs, ids - {m});
      PointsMono(segs, ids - {m}, ids, kd, st);
      ScanSound(segs[m]);
      IndexPoints(segs, ids, m, Scan(segs[m]), kd, st);
    }
  }

  lemma PointsEmpty(segs: Segments)
    ensures Points(segs, {}, map[], map[])
  {
  }

  // ---------- Keys a log touches ----------

  function Touched(es: seq<Entry>): set<Bytes> {
    if es == [] then {}
    else Touched(es[..|es| - 1]) + (if es[|es| - 1].Base? then {} else {es[|es| - 1].key})
  }

  ghost predicate SameAt<V>(k: Bytes, a: map<Bytes, V>, b: map<Bytes, V>) {
    (k in a <==> k in b) && (k in a && k in b ==> a[k] == b[k])
  }

  lemma SameEverywhere<V>(a: map<Bytes, V>, b: map<Bytes, V>)
    requires forall k :: SameAt(k, a, b)
    ensures a == b
  {
    assert forall k :: SameAt(k, a, b) ==> (k in a <==> k in b);
    assert a.Keys == b.Keys;
    forall k | k in a
      ensures a[k] == b[k]
    {
      assert SameAt(k, a, b);
    }
  }

  lemma {:induction false} ReplayTouched(es: seq<Entry>, m: Store, m': Store, k: Bytes)
    ensures k !in Touched(es) ==> SameAt(k, Replay(es, m), m)
    ensures k in Touched(es) ==> SameAt(k, Replay(es, m), Replay(es, m'))
    decreases |es|
  {
    if es != [] {
      ReplayTouched(es[..|es| - 1], m, m', k);
    }
  }

  lemma {:induction false} IndexTouched(id: nat, es: seq<Entry>, kd: KeyDir, kd': KeyDir, k: Bytes)
    requires AllFit(es)
    ensures k !in Touched(es) ==> SameAt(k, Index(id, es, kd), kd)
    ensures k in Touched(es) ==> SameAt(k, Index(id, es, kd), Index(id, es, kd'))
    ensures k in Touched(es) && k in Index(id, es, kd) ==> Index(id, es, kd)[k].seg == id
    decreases |es|
  {
    hide TotalLen, RecLen;
    if es != [] {
      IndexTouched(id, es[..|es| - 1], kd, kd', k);
    }
  }

  // ---------- The merged segment ----------

  ghost predicate Before(a: Loc, b: Loc) { a.seg < b.seg || (a.seg == b.seg && a.pos < b.pos) }

  /** The sealed live keys in log order: what the sort in compact_locked produces. */
  ghost predicate LogOrder(items: seq<Bytes>, kd: KeyDir) {
    && (forall i :: 0 <= i < |items| ==> items[i] in kd)
    && (forall i, j :: 0 <= i < j < |items| ==> Before(kd[items[i]], kd[items[j]]))
  }

  /** Exactly the live keys whose current record is not in segment `active`. */
  ghost predicate SealedKeys(items: seq<Bytes>, kd: KeyDir, active: nat) {
    forall k :: k in items <==> k in kd && kd[k].seg != active
  }

  function ItemEntry(k: Bytes, kd: KeyDir, m: Store): Entry
    requires k in kd && k in m
  {
    Put(kd[k].ts, k, m[k])
  }

  function ItemEntries(items: seq<Bytes>, kd: KeyDir, m: Store): (es: seq<Entry>)
    requires forall i :: 0 <= i < |items| ==> items[i] in kd && items[i] in m
    ensures |es| == |items|
  {
    if items == [] then []
    else ItemEntries(items[..|items| - 1], kd, m) + [ItemEntry(items[|items| - 1], kd, m)]
  }

  function Merged(ts: u64, items: seq<Bytes>, kd: KeyDir, m: Store): seq<Entry>
    requires forall i :: 0 <= i < |items| ==> items[i] in kd && items[i] in m
  {
    [Base(ts)] + ItemEntries(items, kd, m)
  }

  lemma MergedStep(ts: u64, items: seq<Bytes>, kd: KeyDir, m: Store)
    requires items != [] && forall i :: 0 <= i < |items| ==> items[i] in kd && items[i] in m
    ensures var es := Merged(ts, items, kd, m);
            && es != [] && es[..|es| - 1] == Merged(ts, items[..|items| - 1], kd, m)
            && es[|es| - 1] == ItemEntry(items[|items| - 1], kd, m)
  {
    var es := Merged(ts, items, kd, m);
    assert ItemEntries(items, kd, m)[..|items| - 1] == ItemEntries(items[..|items| - 1], kd, m);
    assert es[..|es| - 1] == [Base(ts)] + ItemEntries(items, kd, m)[..|items| - 1];
  }

  lemma MergedEmpty(ts: u64, kd: KeyDir, m: Store)
    ensures Merged(ts, [], kd, m) == [Base(ts)] && [Base(ts)][..0] == []
  {
  }

  lemma {:induction false} MergedReplay(ts: u64, items: seq<Bytes>, kd: KeyDir, m: Store)
    requires forall i :: 0 <= i < |items| ==> items[i] in kd && items[i] in m
    ensures var r := Replay(Merged(ts, items, kd, m), map[]);
            forall k :: (k in r <==> k in items) && (k in items ==> r[k] == m[k])
    ensures forall k :: k in Touched(Merged(ts, items, kd, m)) <==> k in items
    decreases |items|
  {
    hide Merged;
    var es := Merged(ts, items, kd, m);
    if items == [] {
      MergedEmpty(ts, kd, m);
      assert Replay([], map[]) == map[] && Touched([]) == {};
    } else {
      MergedStep(ts, items, kd, m);
      var init := items[..|items| - 1];
      MergedReplay(ts, init, kd, m);
      assert forall k :: k in items <==> k in init || k == items[|items| - 1];
    }
  }

  lemma {:induction false} MergedFits(ts: u64, items: seq<Bytes>, kd: KeyDir, m: Store)
    requires forall i :: 0 <= i < |items| ==> items[i] in kd && items[i] in m
    requires forall i :: 0 <= i < |items| ==> Fits(ItemEntry(items[i], kd, m))
    ensures AllFit(Merged(ts, items, kd, m))
    decreases |items|
  {
    if items != [] {
      MergedStep(ts, items, kd, m);
      MergedFits(ts, items[..|items| - 1], kd, m);
    }
  }

  /** The merged segment is no longer than its marker and one record for each key. */
  lemma MergedSize(ts: u64, items: seq<Bytes>, kd: KeyDir, m: Store)
    requires LogOrder(items, kd) && forall i :: 0 <= i < |items| ==> items[i] in m
    ensures TotalLen(Merged(ts, items, kd, m)) <= HEADER_SIZE + StoreSize(m)
  {
    hide TotalLen, StoreSize;
    var es := ItemEntries(items, kd, m);
    TotalCons(Base(ts), es);
    forall i | 0 <= i < |items|
      ensures es[i] == ItemEntry(items[i], kd, m)
    {
      ItemEntriesAt(items, kd, m, i);
    }
    CopiesSize(es, m);
  }

  lemma {:induction false} ItemEntriesAt(items: seq<Bytes>, kd: KeyDir, m: Store, i: nat)
    requires i < |items| && forall j :: 0 <= j < |items| ==> items[j] in kd && items[j] in m
    ensures ItemEntries(items, kd, m)[i] == ItemEntry(items[i], kd, m)
  {
    if i < |items| - 1 {
      ItemEntriesAt(items[..|items| - 1], kd, m, i);
    }
  }

  /** The newest segment `active` replayed over the merged segment gives the old mapping. */
  lemma MergeKeepsMap(ts: u64, items: seq<Bytes>, active: nat, es: seq<Entry>, kd0: KeyDir, m0: Store)
    requires AllFit(es) && kd0.Keys == m0.Keys
    requires forall k :: k in kd0 ==> kd0[k].seg != active
    requires Index(active, es, kd0).Keys == Replay(es, m0).Keys
    requires SealedKeys(items, Index(active, es, kd0), active)
    ensures forall i :: 0 <= i < |items| ==> items[i] in Index(active, es, kd0) && items[i] in Replay(es, m0)
    ensures Replay(es, Replay(Merged(ts, items, Index(active, es, kd0), Replay(es, m0)), map[])) == Replay(es, m0)
  {
    hide Replay, Index, Merged, Touched;
    var kd, m := Index(active, es, kd0), Replay(es, m0);
    assert forall i :: 0 <= i < |items| ==> items[i] in kd;
    MergedReplay(ts, items, kd, m);
    var m1 := Replay(Merged(ts, items, kd, m), map[]);
    var r := Replay(es, m1);
    forall k
      ensures SameAt(k, r, m)
    {
      ReplayTouched(es, m1, m0, k);
      ReplayTouched(es, m0, m1, k);
      IndexTouched(active, es, kd0, kd0, k);
    }
    SameEverywhere(r, m);
  }

  /** Relocating the merged keys in the old index gives the index of the new directory. */
  lemma MergeKeepsIndex(ts: u64, items: seq<Bytes>, active: nat, out: nat, es: seq<Entry>, kd0: KeyDir, m: Store)
    requires AllFit(es) && out != active
    requires forall k :: k in kd0 ==> kd0[k].seg != active
    requires SealedKeys(items, Index(active, es, kd0), active)
    requires forall i :: 0 <= i < |items| ==> items[i] in Index(active, es, kd0) && items[i] in m
    requires AllFit(Merged(ts, items, Index(active, es, kd0), m))
    ensures var es1 := Merged(ts, items, Index(active, es, kd0), m);
            Index(out, es1, Index(active, es, kd0)) == Index(active, es, Index(out, es1, map[]))
  {
    hide Index, Merged, Touched, Replay;
    var kd := Index(active, es, kd0);
    var es1 := Merged(ts, items, kd, m);
    var kd1 := Index(out, es1, map[]);
    MergedReplay(ts, items, kd, m);
    var a, b := Index(out, es1, kd), Index(active, es, kd1);
    forall k
      ensures SameAt(k, a, b)
    {
      IndexTouched(out, es1, kd, map[], k);
      IndexTouched(out, es1, map[], kd, k);
      IndexTouched(active, es, kd0, kd1, k);
      IndexTouched(active, es, kd1, kd0, k);
    }
    SameEverywhere(a, b);
  }

  // ---------- Compacting again ----------

  /** Every item is in segment out with its timestamp, before end, and later items lie later. */
  ghost predicate Laid(r: KeyDir, items: seq<Bytes>, kd: KeyDir, out: nat, end: nat) {
    && (forall i :: 0 <= i < |items| ==>
        items[i] in kd && items[i] in r && r[items[i]].seg == out && r[items[i]].ts == kd[items[i]].ts)
    && (forall i :: 0 <= i < |items| ==> r[items[i]].pos <= end)
    && (forall i, j :: 0 <= i < j < |items| ==> r[items[i]].pos < r[items[j]].pos)
  }

  lemma LaidStep(r: KeyDir, items: seq<Bytes>, kd: KeyDir, out: nat, end: nat, k: Bytes, loc: Loc, end': nat)
    requires Laid(r, items, kd, out, end) && k !in items && k in kd
    requires loc.seg == out && loc.ts == kd[k].ts && end < loc.pos <= end'
    ensures Laid(r[k := loc], items + [k], kd, out, end')
  {
    var all, r' := items + [k], r[k := loc];
    forall i | 0 <= i < |items|
      ensures all[i] == items[i] && r'[all[i]] == r[items[i]]
    {
      assert items[i] in items;
    }
  }

  /** In the index of the merged segment every item keeps its timestamp, and later items lie later. */
  lemma {:induction false} MergedIndex(ts: u64, items: seq<Bytes>, kd: KeyDir, m: Store, out: nat, kd1: KeyDir)
    requires LogOrder(items, kd) && (forall i :: 0 <= i < |items| ==> items[i] in m)
    requires AllFit(Merged(ts, items, kd, m))
    ensures Laid(Index(out, Merged(ts, items, kd, m), kd1), items, kd, out, TotalLen(Merged(ts, items, kd, m)))
    decreases |items|
  {
    hide Merged, Laid;
    if items == [] {
      LaidNothing(Index(out, Merged(ts, items, kd, m), kd1), kd, out, TotalLen(Merged(ts, items, kd, m)));
    } else {
      var n := |items| - 1;
      var init, k := items[..n], items[n];
      MergedStep(ts, items, kd, m);
      MergedIndex(ts, init, kd, m, out, kd1);
      LastIsNew(items, kd);
      var es0 := Merged(ts, init, kd, m);
      var loc := Loc(out, TotalLen(es0) + HEADER_SIZE + |k|, |m[k]|, kd[k].ts);
      LaidStep(Index(out, es0, kd1), init, kd, out, TotalLen(es0), k, loc, TotalLen(Merged(ts, items, kd, m)));
      assert init + [k] == items;
    }
  }

  lemma LaidNothing(r: KeyDir, kd: KeyDir, out: nat, end: nat)
    ensures Laid(r, [], kd, out, end)
  {
  }

  lemma LastIsNew(items: seq<Bytes>, kd: KeyDir)
    requires items != [] && LogOrder(items, kd)
    ensures items[|items| - 1] !in items[..|items| - 1]
  {
    var n := |items| - 1;
    forall i | 0 <= i < n
      ensures items[i] != items[n]
    {
      assert Before(kd[items[i]], kd[items[n]]);
    }
  }

  /** There is only one way to sort. */
  lemma {:induction false} LogOrderUnique(a: seq<Bytes>, b: seq<Bytes>, kd: KeyDir)
    requires LogOrder(a, kd) && LogOrder(b, kd) && forall k :: k in a <==> k in b
    ensures a == b
    decreases |a|
  {
    if b != [] {
      assert b[0] in b;
    }
    if a != [] {
      assert a[|a| - 1] in b;
      var n, p := |a| - 1, |b| - 1;
      var i :| 0 <= i < |b| && b[i] == a[n];
      assert b[p] in a;
      var j :| 0 <= j < |a| && a[j] == b[p];
      assert i == p && j == n;
      var a', b' := a[..n], b[..p];
      forall k
        ensures k in a' <==> k in b'
      {
        assert k in a <==> k in a' || k == a[n];
        assert k in b <==> k in b' || k == b[p];
        if k == a[n] {
          assert k !in a' && k !in b';
        }
      }
      LogOrderUnique(a', b', kd);
      assert a == a' + [a[n]] && b == b' + [b[p]];
    }
  }

  lemma {:induction false} ItemEntriesSame(items: seq<Bytes>, kd: KeyDir, kd': KeyDir, m: Store)
    requires forall i :: 0 <= i < |items| ==> items[i] in kd && items[i] in kd' && items[i] in m
    requires forall i :: 0 <= i < |items| ==> kd[items[i]].ts == kd'[items[i]].ts
    ensures ItemEntries(items, kd, m) == ItemEntries(items, kd', m)
  {
    if items != [] {
      ItemEntriesSame(items[..|items| - 1], kd, kd', m);
    }
  }

  /** Compacting again at once merges the same records: only the marker's timestamp differs. */
  lemma CompactAgain(ts: u64, ts': u64, items: seq<Bytes>, items': seq<Bytes>, kd: KeyDir, m: Store, active: nat,
                     out: nat)
    requires LogOrder(items, kd) && SealedKeys(items, kd, active) && out != active
    requires forall i :: 0 <= i < |items| ==> items[i] in m
    requires AllFit(Merged(ts, items, kd, m))
    requires var kd' := Index(out, Merged(ts, items, kd, m), kd);
             LogOrder(items', kd') && SealedKeys(items', kd', active)
    ensures items' == items
    ensures var kd' := Index(out, Merged(ts, items, kd, m), kd);
            Merged(ts', items', kd', m) == [Base(ts')] + Merged(ts, items, kd, m)[1..]
  {
    hide Index, ItemEntries, Touched, Replay;
    var es := Merged(ts, items, kd, m);
    var kd' := Index(out, es, kd);
    MergedIndex(ts, items, kd, m, out, kd);
    MergedReplay(ts, items, kd, m);
    forall k
      ensures k in items <==> k in items'
    {
      IndexTouched(out, es, kd, kd, k);
      if k in items {
        var i :| 0 <= i < |items| && items[i] == k;
        assert kd'[items[i]].seg == out;
      }
    }
    LogOrderUnique(items, items', kd');
    ItemEntriesSame(items, kd, kd', m);
  }
}
