/**
  The in-memory index (KeyDir) that a log stands for, and the hint files that
  record it for a sealed segment (segmented_engine.hpp).
*/
module Hints {
  import opened Bytes
  import opened RecordFormat

  /** Where a live value is stored. */
  datatype Loc = Loc(seg: nat, pos: nat, size: u32, ts: u64)
  type KeyDir = map<Bytes, Loc>

  datatype Hint = Hint(key: Bytes, pos: u64, size: u32, ts: u64)

  // ---------- The index of a log ----------

  /** The effect of the record `e` at offset `off` of segment `id`. */
  function IndexEntry(id: nat, off: nat, e: Entry, kd: KeyDir): KeyDir
    requires Fits(e)
  {
    match e
    case Put(ts, key, value) => kd[key := Loc(id, off + HEADER_SIZE + |key|, |value|, ts)]
    case Del(_, key) => kd - {key}
    case Base(_) => kd
  }

  function Index(id: nat, es: seq<Entry>, kd: KeyDir): KeyDir
    requires AllFit(es)
  {
    if es == [] then kd
    else
      var init := es[..|es| - 1];
      IndexEntry(id, TotalLen(init), es[|es| - 1], Index(id, init, kd))
  }

  // ---------- Hints ----------

  /** The hint of a key record at offset `off`; positions are file offsets, so they fit 64 bits. */
  function HintOf(e: Entry, off: nat): Hint
    requires Fits(e) && !e.Base? && off + RecLen(e) < U64_LIMIT
  {
    Hint(e.key, off + HEADER_SIZE + |e.key|, VField(e), e.ts)
  }

  lemma {:induction false} TotalPrefix(es: seq<Entry>, j: nat)
    requires j <= |es|
    ensures TotalLen(es[..j]) <= TotalLen(es)
    ensures j < |es| ==> TotalLen(es[..j]) < TotalLen(es)
    decreases |es|
  {
    if j == |es| {
      assert es[..j] == es;
    } else {
      var init := es[..|es| - 1];
      TotalPrefix(init, j);
      assert init[..j] == es[..j];
    }
  }

  /** The complete hint list of a segment: one hint for each put and each delete, in log order. */
  function HintsOf(es: seq<Entry>): seq<Hint>
    requires AllFit(es) && TotalLen(es) < U64_LIMIT
  {
    if es == [] then []
    else
      var init, last := es[..|es| - 1], es[|es| - 1];
      if last.Base? then HintsOf(init) else HintsOf(init) + [HintOf(last, TotalLen(init))]
  }

  predicate KeysFit(hs: seq<Hint>) { forall i :: 0 <= i < |hs| ==> |hs[i].key| < U32_LIMIT }

  function EncodeHint(h: Hint): (r: Bytes)
    requires |h.key| < U32_LIMIT
    ensures |r| == 24 + |h.key|
  {
    Le32(|h.key|) + Le64(h.pos) + Le32(h.size) + Le64(h.ts) + h.key
  }

  function EncodeHints(hs: seq<Hint>): Bytes
    requires KeysFit(hs)
  {
    if hs == [] then [] else EncodeHints(hs[..|hs| - 1]) + EncodeHint(hs[|hs| - 1])
  }

  /** One past the last byte of the record a hint describes. */
  function End(h: Hint): nat { if h.size == TOMBSTONE then h.pos else h.pos + h.size }

  predicate InSegment(h: Hint, segSize: nat) {
    && HEADER_SIZE + |h.key| <= h.pos <= segSize
    && (h.size != TOMBSTONE ==> h.size <= segSize - h.pos)
  }

  /** Parses one entry from the front of a hint file. */
  function ParseHint(buf: Bytes): Option<Hint> {
    if |buf| < 24 then None else
    var klen := FromLe32(buf[..4]);
    if klen > |buf| - 24 then None else
    Some(Hint(buf[24..24 + klen], FromLe64(buf[4..12]), FromLe32(buf[12..16]), FromLe64(buf[16..24])))
  }

  /** All entries, or nothing if the file is cut short, has trailing bytes or points outside the segment. */
  function ParseHints(buf: Bytes, segSize: nat): Option<seq<Hint>>
    decreases |buf|
  {
    if buf == [] then Some([]) else
    match ParseHint(buf)
    case None => None
    case Some(h) =>
      if |buf| < 24 + |h.key| || !InSegment(h, segSize) then None else
      match ParseHints(buf[24 + |h.key|..], segSize)
      case None => None
      case Some(hs) => Some([h] + hs)
  }

  function Max(a: nat, b: nat): nat { if a < b then b else a }

  function MaxEnd(hs: seq<Hint>): nat {
    if hs == [] then 0 else Max(MaxEnd(hs[..|hs| - 1]), End(hs[|hs| - 1]))
  }

  /** The whole trust decision: exact parse, inside the segment, reaching its last byte. */
  function Trusted(buf: Bytes, segSize: nat): Option<seq<Hint>> {
    match ParseHints(buf, segSize)
    case None => None
    case Some(hs) => if MaxEnd(hs) == segSize then Some(hs) else None
  }

  function IndexHint(id: nat, h: Hint, kd: KeyDir): KeyDir {
    if h.size == TOMBSTONE then kd - {h.key} else kd[h.key := Loc(id, h.pos, h.size, h.ts)]
  }

  function IndexHints(id: nat, hs: seq<Hint>, kd: KeyDir): KeyDir {
    if hs == [] then kd else IndexHint(id, hs[|hs| - 1], IndexHints(id, hs[..|hs| - 1], kd))
  }

  /** Key length, offset and size of the value, timestamp, key. */
  lemma HintLayout(h: Hint)
    requires |h.key| < U32_LIMIT
    ensures var s := EncodeHint(h);
            && s[..4] == Le32(|h.key|) && s[4..12] == Le64(h.pos) && s[12..16] == Le32(h.size)
            && s[16..24] == Le64(h.ts) && s[24..] == h.key
  {
    hide Le32, Le64;
  }

  // ---------- Round trip ----------

  lemma ParseEncodeHint(h: Hint, rest: Bytes)
    requires |h.key| < U32_LIMIT
    ensures ParseHint(EncodeHint(h) + rest) == Some(h)
    ensures (EncodeHint(h) + rest)[24 + |h.key|..] == rest
  {
    hide Le32, Le64, FromLe32, FromLe64;
    var s := EncodeHint(h) + rest;
    assert s[..4] == Le32(|h.key|);
    assert s[4..12] == Le64(h.pos);
    assert s[12..16] == Le32(h.size);
    assert s[16..24] == Le64(h.ts);
    assert s[24..24 + |h.key|] == h.key;
    Le32RoundTrip(|h.key|);
    Le64RoundTrip(h.pos);
    Le32RoundTrip(h.size);
    Le64RoundTrip(h.ts);
  }

  lemma {:induction false} EncodeHintsCons(h: Hint, hs: seq<Hint>)
    requires |h.key| < U32_LIMIT && KeysFit(hs)
    ensures KeysFit([h] + hs) && EncodeHints([h] + hs) == EncodeHint(h) + EncodeHints(hs)
  {
    hide EncodeHint;
    var all := [h] + hs;
    if hs == [] {
      assert all == [h] && [h][..0] == [];
      assert EncodeHints(all) == [] + EncodeHint(h);
    } else {
      var init, last := hs[..|hs| - 1], hs[|hs| - 1];
      EncodeHintsCons(h, init);
      assert all[..|hs|] == [h] + init;
      assert EncodeHints(all) == (EncodeHint(h) + EncodeHints(init)) + EncodeHint(last);
      assert EncodeHints(all) == EncodeHint(h) + (EncodeHints(init) + EncodeHint(last));
    }
  }

  /** A hint list that stays inside its segment is read back exactly. */
  lemma {:induction false} ParseEncodeHints(hs: seq<Hint>, segSize: nat)
    requires KeysFit(hs) && forall i :: 0 <= i < |hs| ==> InSegment(hs[i], segSize)
    ensures ParseHints(EncodeHints(hs), segSize) == Some(hs)
    decreases |hs|
  {
    hide EncodeHint, ParseHint;
    if hs != [] {
      var h, rest := hs[0], hs[1..];
      assert hs == [h] + rest;
      EncodeHintsCons(h, rest);
      ParseEncodeHint(h, EncodeHints(rest));
      ParseEncodeHints(rest, segSize);
    }
  }

  // ---------- Soundness ----------

  /** A hint file that describes the first j records of a segment. */
  ghost predicate Describes(buf: Bytes, es: seq<Entry>, j: nat)
    requires AllFit(es) && TotalLen(es) < U64_LIMIT
  {
    && j <= |es|
    && TotalLen(es[..j]) < U64_LIMIT
    && KeysFit(HintsOf(es[..j]))
    && buf == EncodeHints(HintsOf(es[..j]))
  }

  lemma HintInSegment(e: Entry, off: nat, segSize: nat)
    requires Fits(e) && !e.Base? && off + RecLen(e) <= segSize && off + RecLen(e) < U64_LIMIT
    ensures InSegment(HintOf(e, off), segSize) && |HintOf(e, off).key| < U32_LIMIT
    ensures End(HintOf(e, off)) == off + RecLen(e)
  {
  }

  /** Every hint lies inside a segment of the given size. */
  ghost predicate AllInSegment(hs: seq<Hint>, segSize: nat) {
    KeysFit(hs) && forall i :: 0 <= i < |hs| ==> InSegment(hs[i], segSize)
  }

  lemma MaxEndSnoc(hs: seq<Hint>, h: Hint)
    ensures MaxEnd(hs + [h]) == Max(MaxEnd(hs), End(h))
  {
    hide End;
    assert (hs + [h])[..|hs|] == hs;
  }

  lemma {:induction false} HintsInSegment(es: seq<Entry>, segSize: nat)
    requires AllFit(es) && TotalLen(es) <= segSize && TotalLen(es) < U64_LIMIT
    ensures AllInSegment(HintsOf(es), segSize)
    ensures MaxEnd(HintsOf(es)) <= TotalLen(es)
    ensures es != [] && !es[|es| - 1].Base? ==> MaxEnd(HintsOf(es)) == TotalLen(es)
    decreases |es|
  {
    hide InSegment, HintOf, End, RecLen, MaxEnd;
    if es == [] {
      NoEnd();
    } else {
      var init, last := es[..|es| - 1], es[|es| - 1];
      HintsInSegment(init, segSize);
      if !last.Base? {
        HintInSegment(last, TotalLen(init), segSize);
        MaxEndSnoc(HintsOf(init), HintOf(last, TotalLen(init)));
      }
    }
  }

  lemma NoEnd()
    ensures MaxEnd([]) == 0
  {
  }

  lemma HintEntry(id: nat, off: nat, e: Entry, kd: KeyDir)
    requires Fits(e) && !e.Base? && off + RecLen(e) < U64_LIMIT
    ensures IndexHint(id, HintOf(e, off), kd) == IndexEntry(id, off, e, kd)
  {
  }

  lemma IndexHintsSnoc(id: nat, hs: seq<Hint>, h: Hint, kd: KeyDir)
    ensures IndexHints(id, hs + [h], kd) == IndexHint(id, h, IndexHints(id, hs, kd))
  {
    hide IndexHint;
    assert (hs + [h])[..|hs|] == hs;
  }

  /** Replaying the hints of a segment builds the index its records stand for. */
  lemma {:induction false} HintsIndex(id: nat, es: seq<Entry>, kd: KeyDir)
    requires AllFit(es) && TotalLen(es) < U64_LIMIT
    ensures IndexHints(id, HintsOf(es), kd) == Index(id, es, kd)
    decreases |es|
  {
    hide IndexHint, HintOf, RecLen, IndexHints;
    if es == [] {
      NoHints(id, kd);
    } else {
      var init, last := es[..|es| - 1], es[|es| - 1];
      HintsIndex(id, init, kd);
      if !last.Base? {
        HintEntry(id, TotalLen(init), last, Index(id, init, kd));
        IndexHintsSnoc(id, HintsOf(init), HintOf(last, TotalLen(init)), kd);
      }
    }
  }

  lemma NoHints(id: nat, kd: KeyDir)
    ensures IndexHints(id, [], kd) == kd
  {
  }

  /** A hint that describes some first records of its segment is trusted only if it leaves no
      record out, and then it stands for the same index as a full scan. */
  lemma HintSound(buf: Bytes, es: seq<Entry>, j: nat, id: nat, kd: KeyDir)
    requires AllFit(es) && TotalLen(es) < U64_LIMIT && Describes(buf, es, j)
    ensures Trusted(buf, TotalLen(es)).Some? ==>
              j == |es| && IndexHints(id, Trusted(buf, TotalLen(es)).value, kd) == Index(id, es, kd)
  {
    var n := TotalLen(es);
    TotalPrefix(es, j);
    HintsInSegment(es[..j], n);
    ParseEncodeHints(HintsOf(es[..j]), n);
    if Trusted(buf, n).Some? {
      assert MaxEnd(HintsOf(es[..j])) == n;
      assert es[..j] == es;
      HintsIndex(id, es, kd);
    }
  }

  /** A complete hint of a segment that ends in a key record is trusted. */
  lemma CompleteHintTrusted(es: seq<Entry>)
    requires AllFit(es) && TotalLen(es) < U64_LIMIT && es != [] && !es[|es| - 1].Base?
    ensures KeysFit(HintsOf(es)) && Trusted(EncodeHints(HintsOf(es)), TotalLen(es)) == Some(HintsOf(es))
  {
    HintsInSegment(es, TotalLen(es));
    ParseEncodeHints(HintsOf(es), TotalLen(es));
  }

  lemma {:induction false} MaxEndFrom(hs: seq<Hint>, n: nat)
    requires n < |hs|
    ensures End(hs[|hs| - 1]) <= MaxEnd(hs[n..]) <= MaxEnd(hs)
    decreases |hs|
  {
    hide End;
    var init, last := hs[..|hs| - 1], hs[|hs| - 1];
    if n == |init| {
      assert hs[n..] == [last] && [last][..0] == [];
    } else {
      MaxEndFrom(init, n);
      assert hs[n..] == init[n..] + [last];
      MaxEndSnoc(init[n..], last);
    }
  }

  /** The checks at recovery alone would also trust a list that leaves out records at the front, however
      many: completeness rests on the writer's list, which a restart must rebuild. */
  lemma SuffixTrusted(es: seq<Entry>, n: nat)
    requires AllFit(es) && TotalLen(es) < U64_LIMIT && es != [] && !es[|es| - 1].Base? && n < |HintsOf(es)|
    ensures KeysFit(HintsOf(es)[n..])
    ensures Trusted(EncodeHints(HintsOf(es)[n..]), TotalLen(es)) == Some(HintsOf(es)[n..])
  {
    hide InSegment, RecLen, MaxEnd, EncodeHints;
    var hs, init, last := HintsOf(es), es[..|es| - 1], es[|es| - 1];
    HintsInSegment(es, TotalLen(es));
    HintInSegment(last, TotalLen(init), TotalLen(es));
    MaxEndFrom(hs, n);
    ParseEncodeHints(hs[n..], TotalLen(es));
  }

  /** Such a list can give a wrong index: two keys, the hint of the first one left out. */
  lemma SuffixLosesKey(ts: u64, k1: byte, k2: byte)
    requires k1 != k2
    ensures var es := [Put(ts, [k1], []), Put(ts, [k2], [])];
            && AllFit(es) && TotalLen(es) == 42
            && var hs := HintsOf(es)[1..];
            && KeysFit(hs)
            && Trusted(EncodeHints(hs), TotalLen(es)) == Some(hs)
            && IndexHints(0, hs, map[]) != Index(0, es, map[])
  {
    hide Trusted, EncodeHints, MaxEnd;
    var a, b := Put(ts, [k1], []), Put(ts, [k2], []);
    var es := [a, b];
    assert es[..1] == [a] && [a][..0] == [];
    assert TotalLen([a]) == 21 && TotalLen(es) == 42;
    assert HintsOf([a]) == [HintOf(a, 0)];
    assert HintsOf(es) == [HintOf(a, 0), HintOf(b, 21)];
    var hs := HintsOf(es)[1..];
    assert hs == [HintOf(b, 21)] && hs[..0] == [];
    SuffixTrusted(es, 1);
    assert Index(0, [], map[]) == map[];
    assert [k1] in Index(0, [a], map[]);
    assert [k1] != [k2] by { assert [k1][0] != [k2][0]; }
    assert [k1] in Index(0, es, map[]);
    assert IndexHints(0, [], map[]) == map[];
    assert [k1] !in IndexHints(0, hs, map[]);
  }
}
