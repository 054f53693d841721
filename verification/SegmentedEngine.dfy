/**
  SegmentedKVEngine (segmented_engine.hpp) as a class over the disk of `Directory`.
  `trail` records the disk after every single mutating system call, byte by byte
  for record writes: it is the list of states a process death can leave behind.
  Every operation is proved to keep the in-memory state an exact mirror of the
  disk, to act on `Contents()` like the same operation on a plain map, and to
  leave only states in `trail` that stand for the mapping before or after it.
*/
module SegmentedEngine {
  import opened Bytes
  import opened RecordFormat
  import opened Hints
  import opened Trails
  import opened Directory
  import opened Merge
  import opened Recovery
  import opened LruCache

  /** What became of a best-effort hint file: written, or given up before or after its
      temporary file was created. */
  datatype HintOutcome = Written | NotOpened | NotCompleted

  /** Every cached value is the current value. */
  ghost predicate Agrees(items: seq<Node<Bytes, Bytes>>, m: Store) {
    forall n :: n in items ==> n.key in m && m[n.key] == n.value
  }

  /** Every disk state from index `from` on stands for `m0` or for `m1`. */
  ghost predicate CrashSafe(trail: seq<Disk>, from: nat, m0: Store, m1: Store) {
    from <= |trail| && forall i :: from <= i < |trail| ==> Holds(trail[i], m0) || Holds(trail[i], m1)
  }

  /** A running engine's disk: undamaged, nothing below `lo`, no torn tail. */
  ghost predicate Tidy(d: Disk, active: nat, lo: nat) {
    && HoldsAt(d.segs, d.hints, active, lo, DirMap(d.segs, d.segs.Keys))
    && (forall id :: id in d.segs ==> lo <= id)
    && active in d.segs && Clean(d.segs[active])
  }

  /** The in-memory index and hint list are exactly those of the disk. */
  ghost predicate Mirrors(d: Disk, active: nat, lo: nat, kd: KeyDir, hints: seq<Hint>) {
    && Tidy(d, active, lo)
    && TotalLen(Scan(d.segs[active])) < U64_LIMIT
    && hints == HintsOf(Scan(d.segs[active]))
    && kd == DirIndex(d.segs, d.segs.Keys)
  }

  lemma CrashSafeEmpty(trail: seq<Disk>, m0: Store, m1: Store)
    ensures CrashSafe(trail, |trail|, m0, m1)
  {
  }

  /** A stretch that changes nothing, then one that takes m0 to m1. */
  lemma CrashSafeChain(t0: seq<Disk>, t1: seq<Disk>, t2: seq<Disk>, m0: Store, m1: Store)
    requires t0 <= t1 <= t2 && CrashSafe(t1, |t0|, m0, m0) && CrashSafe(t2, |t1|, m0, m1)
    ensures t0 <= t2 && CrashSafe(t2, |t0|, m0, m1)
  {
    hide Holds;
  }

  lemma CrashSafeExtend(mid: seq<Disk>, trail: seq<Disk>, from: nat, m: Store)
    requires mid <= trail && CrashSafe(mid, from, m, m) && CrashSafe(trail, |mid|, m, m)
    ensures CrashSafe(trail, from, m, m)
  {
    hide Holds;
  }

  lemma CrashSafeJoin(before: seq<Disk>, trail: seq<Disk>, m: Store)
    requires before <= trail && CrashSafe(before, 0, m, m) && CrashSafe(trail, |before|, m, m)
    ensures CrashSafe(trail, 0, m, m)
  {
    hide Holds;
  }

  lemma CrashSafeOne(trail: seq<Disk>, d: Disk, m: Store)
    requires CrashSafe(trail, 0, m, m) && Holds(d, m)
    ensures CrashSafe(trail + [d], 0, m, m)
  {
    hide Holds;
  }

  lemma EmptyHolds(d: Disk, m: Store)
    requires Holds(d, m) && d.segs == map[]
    ensures d.hints == map[] && m == map[]
  {
  }

  lemma AgreesNothing(m: Store)
    ensures Agrees([], m)
  {
  }

  lemma TailAscends(ids: seq<nat>, first: nat)
    requires first < |ids| && forall i, j :: 0 <= i < j < |ids| ==> ids[i] < ids[j]
    ensures var live := ids[first..]; live != [] && forall i, j :: 0 <= i < j < |live| ==> live[i] < live[j]
  {
  }

  lemma LiveAbove(d: Disk, ids: seq<nat>, first: nat, lo: nat, live: seq<nat>)
    requires first < |ids| && live == ids[first..] && (forall id :: id in live <==> id in d.segs)
    requires forall j :: first <= j < |ids| ==> lo <= ids[j]
    ensures live[|live| - 1] == ids[|ids| - 1] && forall id :: id in d.segs ==> lo <= id
  {
    forall id | id in d.segs
      ensures lo <= id
    {
      assert id in live;
      var j :| 0 <= j < |live| && live[j] == id;
      assert ids[first + j] == id;
    }
  }

  /** A directory with segments, taken apart. */
  lemma HoldsParts(d: Disk, m: Store) returns (top: nat, lo: nat)
    requires Holds(d, m) && d.segs != map[]
    ensures HoldsAt(d.segs, d.hints, top, lo, m)
  {
    hide HoldsAt;
    top, lo :| HoldsAt(d.segs, d.hints, top, lo, m);
  }

  lemma HoldsHere(d: Disk, top: nat, lo: nat, m: Store)
    requires HoldsAt(d.segs, d.hints, top, lo, m) && top in d.segs
    ensures Holds(d, m)
  {
    hide HoldsAt;
  }

  lemma HoldsTop(d: Disk, top: nat, lo: nat, m: Store)
    requires HoldsAt(d.segs, d.hints, top, lo, m)
    ensures top in d.segs && forall id :: id in d.segs ==> id <= top
    ensures forall id :: id in d.hints ==> id <= top
    ensures forall id :: id in d.segs ==> |d.segs[id]| <= MAX_FILE
  {
    hide HasBase, HintOk, Clean, DirMap;
  }

  lemma TidyFrom(d: Disk, active: nat, lo: nat)
    requires forall id :: id in d.segs ==> lo <= id
    ensures From(d.segs, lo) == d.segs.Keys
  {
  }

  /** A record completed in the newest segment, as seen from disk and from memory. */
  lemma AppendMirrors(d: Disk, e: Entry, active: nat, lo: nat, kd: KeyDir, hints: seq<Hint>)
    requires Mirrors(d, active, lo, kd, hints) && Fits(e) && !e.Base?
    requires |d.segs[active]| + RecLen(e) <= MAX_FILE
    ensures var off := |d.segs[active]|;
            var d' := d.(segs := d.segs[active := d.segs[active] + Encode(e)]);
            && Mirrors(d', active, lo, IndexEntry(active, off, e, kd), hints + [HintOf(e, off)])
            && DirMap(d'.segs, d'.segs.Keys) == ReplayEntry(e, DirMap(d.segs, d.segs.Keys))
            && Holds(d', ReplayEntry(e, DirMap(d.segs, d.segs.Keys)))
  {
    hide HoldsAt, Scan, Encode, DirMap, DirIndex, Replay, ReplayEntry, Index, IndexEntry, HintsOf, HintOf, RecLen;
    var s, m := d.segs[active], DirMap(d.segs, d.segs.Keys);
    var es := Scan(s);
    AppendWhole(d, e, active, lo, m);
    AppendEntry(active, es, e, DirIndex(d.segs, d.segs.Keys - {active}));
    var segs' := d.segs[active := s + Encode(e)];
    var d' := d.(segs := segs');
    HoldsTop(d, active, lo, m);
    assert segs'.Keys == d.segs.Keys;
    HoldsHere(d', active, lo, ReplayEntry(e, m));
    TidyFrom(d', active, lo);
    HoldsMap(d', active, lo, ReplayEntry(e, m));
    DirIndexFrame(d.segs, segs', d.segs.Keys - {active});
    DirIndexTop(d.segs, d.segs.Keys, active);
    DirIndexTop(segs', d.segs.Keys, active);
  }

  lemma HoldsMap(d: Disk, top: nat, lo: nat, m: Store)
    requires HoldsAt(d.segs, d.hints, top, lo, m) && From(d.segs, lo) == d.segs.Keys
    ensures DirMap(d.segs, d.segs.Keys) == m
  {
    hide Undamaged, DirMap;
  }

  /** segment_begins_with_base_marker: only the first header is read. */
  function HeaderIsBase(s: Bytes): bool {
    && |s| >= HEADER_SIZE
    && FromLe32(s[12..16]) == 0 && FromLe32(s[16..20]) == COMPACTION_BASE
    && Crc32.Crc(s[4..20]) == FromLe32(s[..4])
  }

  lemma HeaderIsBaseMeaning(s: Bytes)
    ensures HeaderIsBase(s) <==> HasBase(s)
  {
    hide Crc32.Crc, FromLe32, FromLe64;
    HasBaseParse(s);
  }

  /** Writing a complete hint for a segment changes nothing of what the directory stands for. */
  lemma HintWritten(d: Disk, id: nat, hints: seq<Hint>, top: nat, lo: nat, m: Store)
    requires HoldsAt(d.segs, d.hints, top, lo, m) && id in d.segs
    requires TotalLen(Scan(d.segs[id])) < U64_LIMIT && hints == HintsOf(Scan(d.segs[id]))
    ensures KeysFit(hints) && HoldsAt(d.segs, d.hints[id := EncodeHints(hints)], top, lo, m)
  {
    hide HoldsAt, Scan, HintsOf, EncodeHints;
    WriteHint(d, id, top, lo, m);
  }

  /** The next segment created after a clean newest one. */
  lemma RollMirrors(d: Disk, active: nat, lo: nat, kd: KeyDir)
    requires Tidy(d, active, lo) && kd == DirIndex(d.segs, d.segs.Keys)
    ensures var d' := d.(segs := d.segs[active + 1 := []]);
            Mirrors(d', active + 1, lo, kd, []) && DirMap(d'.segs, d'.segs.Keys) == DirMap(d.segs, d.segs.Keys)
  {
    hide HoldsAt, DirMap, DirIndex, HintsOf, Index, Clean, HasBase;
    var m := DirMap(d.segs, d.segs.Keys);
    var d' := d.(segs := d.segs[active + 1 := []]);
    HoldsTop(d, active, lo, m);
    NewSegment(d, active, lo, m);
    TidyFrom(d', active + 1, lo);
    HoldsMap(d', active + 1, lo, m);
    EmptyLog();
    NothingRead(active + 1, kd);
    assert d'.segs.Keys - {active + 1} == d.segs.Keys;
    DirIndexFrame(d.segs, d'.segs, d.segs.Keys);
    DirIndexTop(d'.segs, d'.segs.Keys, active + 1);
  }

  /** A hint that recovery trusts stands for the index of a full scan. */
  lemma TrustedHint(buf: Bytes, s: Bytes, id: nat, kd: KeyDir)
    requires HintOk(buf, s) && Clean(s) && Trusted(buf, |s|).Some?
    ensures IndexHints(id, Trusted(buf, |s|).value, kd) == Index(id, Scan(s), kd)
  {
    hide Scan, Trusted, IndexHints, Index, Describes;
    var j: nat :| Describes(buf, Scan(s), j);
    HintSound(buf, Scan(s), j, id, kd);
  }

  lemma DirIndexEmpty(segs: Segments)
    ensures DirIndex(segs, {}) == map[]
  {
  }

  lemma LowestLive(d: Disk, ids: seq<nat>, top: nat, lo: nat, m: Store, first: nat, found: bool)
    requires HoldsAt(d.segs, d.hints, top, lo, m)
    requires (forall id :: id in ids <==> id in d.segs) && forall i, j :: 0 <= i < j < |ids| ==> ids[i] < ids[j]
    requires first < |ids| && ids[|ids| - 1] == top && ids[first] in d.segs
    requires if found then first < |ids| - 1 && HasBase(d.segs[ids[first]]) else first == 0
    requires forall j :: (if found then first + 1 else first) <= j < |ids| - 1 ==>
               ids[j] in d.segs && !HasBase(d.segs[ids[j]])
    ensures if found then ids[first] == lo else lo == 0
  {
    hide HasBase, Clean, HintOk, DirMap;
    if lo > 0 {
      assert lo in ids;
      var p :| 0 <= p < |ids| && ids[p] == lo;
    }
  }

  lemma SealedFacts(d: Disk, top: nat, lo: nat, m: Store, id: nat)
    requires HoldsAt(d.segs, d.hints, top, lo, m) && id in d.segs && lo <= id < top
    ensures Clean(d.segs[id]) && |d.segs[id]| <= MAX_FILE && (id in d.hints ==> HintOk(d.hints[id], d.segs[id]))
  {
    hide HasBase, Clean, HintOk, DirMap;
  }

  lemma FirstSegment(d: Disk)
    requires d.segs == map[0 := []] && d.hints == map[]
    ensures Mirrors(d, 0, 0, map[], []) && DirMap(d.segs, d.segs.Keys) == map[] && Holds(d, map[])
  {
    hide Scan, HasBase, Clean;
    EmptyLog();
    assert From(d.segs, 0) == {0} == d.segs.Keys;
    assert {0} - {0} == {};
    DirMapTop(d.segs, {0}, 0);
    DirIndexTop(d.segs, {0}, 0);
    assert HoldsAt(d.segs, d.hints, 0, 0, map[]);
  }

  /** After the scan and the truncation of the newest segment, memory mirrors the disk. */
  lemma TruncatedMirrors(d: Disk, aid: nat, lo: nat, m: Store)
    requires HoldsAt(d.segs, d.hints, aid, lo, m) && aid in d.segs
    requires forall id :: id in d.segs ==> lo <= id
    ensures var es := Scan(d.segs[aid]);
            var n := TotalLen(es);
            && n <= |d.segs[aid]| && n < U64_LIMIT
            && var d' := d.(segs := d.segs[aid := d.segs[aid][..n]]);
            && Mirrors(d', aid, lo, Index(aid, es, DirIndex(d.segs, d.segs.Keys - {aid})), HintsOf(es))
            && HoldsAt(d'.segs, d'.hints, aid, lo, m)
            && DirMap(d'.segs, d'.segs.Keys) == m
  {
    hide HoldsAt, Scan, DirMap, DirIndex, Replay, Index, HintsOf, HasBase;
    var es := Scan(d.segs[aid]);
    var n := TotalLen(es);
    TruncateNewest(d, aid, lo, m);
    HoldsTop(d, aid, lo, m);
    var d' := d.(segs := d.segs[aid := d.segs[aid][..n]]);
    TidyFrom(d', aid, lo);
    HoldsMap(d', aid, lo, m);
    assert d'.segs.Keys == d.segs.Keys;
    DirIndexFrame(d.segs, d'.segs, d.segs.Keys - {aid});
    DirIndexTop(d'.segs, d'.segs.Keys, aid);
  }

  /** The in-memory index names exactly the live keys, at records of their current values. */
  lemma MirrorPoints(d: Disk, active: nat, lo: nat, kd: KeyDir, hints: seq<Hint>)
    requires Mirrors(d, active, lo, kd, hints)
    ensures Points(d.segs, d.segs.Keys, kd, DirMap(d.segs, d.segs.Keys))
  {
    hide Tidy, DirMap, DirIndex, HintsOf, Scan, Points;
    DirPoints(d.segs, d.segs.Keys);
  }

  /** What the index says of one key. */
  lemma MirrorReads(d: Disk, active: nat, lo: nat, kd: KeyDir, hints: seq<Hint>, key: Bytes)
    requires Mirrors(d, active, lo, kd, hints)
    ensures var m := DirMap(d.segs, d.segs.Keys);
            && (key in kd <==> key in m)
            && (key in kd ==> key in m && var e := kd[key];
                  && |key| < U32_LIMIT && e.size == |m[key]|
                  && e.seg in d.segs && e.pos + e.size <= |d.segs[e.seg]|
                  && d.segs[e.seg][e.pos..e.pos + e.size] == m[key])
  {
    hide Tidy, DirMap, DirIndex, HintsOf, Scan, Encode, Mirrors;
    MirrorPoints(d, active, lo, kd, hints);
    if key in kd {
      RecordValue(d.segs[kd[key].seg], kd[key], key, DirMap(d.segs, d.segs.Keys)[key]);
    }
  }

  /** The hint file of a segment just sealed was written or, for lack of it, nothing changed. */
  ghost predicate Hinted(before: map<nat, Bytes>, after: map<nat, Bytes>, id: nat, hints: seq<Hint>, ho: HintOutcome) {
    if ho.Written? then KeysFit(hints) && after == before[id := EncodeHints(hints)] else after == before
  }

  /** A record that finds the active segment full goes to the next one, and the full one gets its hint. */
  ghost predicate Rolled(full: bool, id: nat, id': nat, before: map<nat, Bytes>, after: map<nat, Bytes>,
                         hints: seq<Hint>, ho: HintOutcome)
  {
    if full then id' == id + 1 && Hinted(before, after, id, hints, ho) else id' == id && after == before
  }

  /** The bytes of one more record, at the end of the active segment or as the first of the next one. */
  ghost predicate Appended(full: bool, id: nat, id': nat, segs: Segments, segs': Segments, e: Entry) {
    && Fits(e)
    && if full then segs' == segs[id' := Encode(e)] else id in segs && segs' == segs[id := segs[id] + Encode(e)]
  }

  lemma AppendedNow(full: bool, id: nat, id': nat, segs: Segments, mid: Segments, e: Entry)
    requires Fits(e) && if full then mid == segs[id' := []] else id' == id && mid == segs && id in segs
    ensures id' in mid && Appended(full, id, id', segs, mid[id' := mid[id'] + Encode(e)], e)
  {
    hide Encode;
    assert [] + Encode(e) == Encode(e);
  }

  /** The segments that a finished compaction superseded. */
  ghost function Stale(d: Disk, lo: nat): set<nat> { set id | id in d.segs && id < lo }

  /** The disk without leftovers of an interrupted compaction. */
  ghost function Cleaned(d: Disk, lo: nat): Disk {
    Disk(d.segs - Stale(d, lo), d.hints - Stale(d, lo), map[], map[])
  }

  /** What startup makes of a cleaned disk: the newest segment `aid` is cut after its last whole record. Below
      the threshold it stays active and nothing else changes; otherwise it is sealed and the next one opened. */
  ghost predicate Resumed(d: Disk, d': Disk, aid: nat, threshold: nat, active: nat, offset: nat, ho: HintOutcome) {
    && aid in d.segs
    && var es := Scan(d.segs[aid]);
    && TotalLen(es) <= |d.segs[aid]| && TotalLen(es) < U64_LIMIT
    && var kept := d.segs[aid := d.segs[aid][..TotalLen(es)]];
    if TotalLen(es) < threshold then
      active == aid && offset == TotalLen(es) && d' == d.(segs := kept)
    else
      && active == aid + 1 && offset == 0 && d'.segs == kept[aid + 1 := []]
      && d'.compactTmp == d.compactTmp && d'.hintTmp == d.hintTmp
      && Hinted(d.hints, d'.hints, aid, HintsOf(es), ho)
  }

  /** The whole of a startup on a disk with segments. */
  ghost predicate Started(d: Disk, d': Disk, m: Store, lo: nat, threshold: nat, active: nat, offset: nat,
                          ho: HintOutcome)
  {
    && d.segs.Keys != {}
    && HoldsAt(d.segs, d.hints, MaxOf(d.segs.Keys), lo, m)
    && Resumed(Cleaned(d, lo), d', MaxOf(d.segs.Keys), threshold, active, offset, ho)
  }

  /** The disk without the segments `gone` and their hints. */
  ghost function Less(d: Disk, gone: set<nat>): Disk { d.(segs := d.segs - gone, hints := d.hints - gone) }

  lemma LessOne(d: Disk, ids: seq<nat>, i: nat, d': Disk)
    requires i < |ids| && d' == Less(Less(d, Front(ids, i)), {ids[i]})
    ensures d' == Less(d, Front(ids, i + 1))
  {
    assert Front(ids, i + 1) == Front(ids, i) + {ids[i]};
    assert d'.segs == d.segs - Front(ids, i + 1) && d'.hints == d.hints - Front(ids, i + 1);
  }

  /** The segments still on disk are those from number i on. */
  ghost predicate Remain(d: Disk, ids: seq<nat>, i: nat) {
    i <= |ids| && forall id :: id in ids[i..] <==> id in d.segs
  }

  lemma RemainAll(d: Disk, ids: seq<nat>)
    requires forall id :: id in ids <==> id in d.segs
    ensures Remain(d, ids, 0)
  {
    assert ids[0..] == ids;
  }

  lemma RemainMeans(d: Disk, ids: seq<nat>, i: nat)
    requires Remain(d, ids, i)
    ensures i <= |ids| && forall id :: id in ids[i..] <==> id in d.segs
  {
  }

  lemma RemainLess(d: Disk, ids: seq<nat>, i: nat)
    requires Remain(d, ids, i) && i < |ids| && forall j, l :: 0 <= j < l < |ids| ==> ids[j] < ids[l]
    ensures Remain(Less(d, {ids[i]}), ids, i + 1)
  {
    assert ids[i..] == [ids[i]] + ids[i + 1..];
    assert ids[i] !in ids[i + 1..];
  }

  lemma LessNone(d: Disk, ids: seq<nat>)
    ensures Less(d, Front(ids, 0)) == d
  {
    assert Front(ids, 0) == {};
    assert d.segs - {} == d.segs && d.hints - {} == d.hints;
  }

  ghost function Front(ids: seq<nat>, n: nat): set<nat>
    requires n <= |ids|
  {
    set j | 0 <= j < n :: ids[j]
  }

  lemma FrontIsStale(d: Disk, ids: seq<nat>, first: nat, lo: nat)
    requires first <= |ids| && forall id :: id in ids <==> id in d.segs
    requires forall j :: 0 <= j < first ==> ids[j] < lo
    requires forall j :: first <= j < |ids| ==> lo <= ids[j]
    ensures Front(ids, first) == Stale(d, lo)
  {
    forall id | id in Stale(d, lo)
      ensures id in Front(ids, first)
    {
      assert id in ids;
      var j :| 0 <= j < |ids| && ids[j] == id;
    }
    forall id | id in Front(ids, first)
      ensures id in Stale(d, lo)
    {
      var j :| 0 <= j < first && ids[j] == id;
      assert ids[j] in ids;
    }
  }

  lemma TopIsMax(d: Disk, top: nat, lo: nat, m: Store)
    requires HoldsAt(d.segs, d.hints, top, lo, m)
    ensures d.segs.Keys != {} && MaxOf(d.segs.Keys) == top
  {
    hide HoldsAt;
    HoldsTop(d, top, lo, m);
  }

  lemma StartedFrame(d: Disk, d1: Disk, d': Disk, m: Store, lo: nat, threshold: nat, active: nat, offset: nat,
                     ho: HintOutcome)
    requires Started(d1, d', m, lo, threshold, active, offset, ho) && d1.segs == d.segs && d1.hints == d.hints
    ensures Started(d, d', m, lo, threshold, active, offset, ho)
  {
    hide HoldsAt, Resumed;
  }

  // ---------- Cache ----------

  lemma AgreesPut(items0: seq<Node<Bytes, Bytes>>, m: Store, front: Node<Bytes, Bytes>, capacity: nat)
    requires Agrees(items0, m)
    ensures Agrees(Take([front] + Others(items0, front.key), capacity), m[front.key := front.value])
  {
    hide Others;
    OthersAllIn(items0, front.key);
  }

  lemma AgreesHit(items0: seq<Node<Bytes, Bytes>>, m: Store, front: Node<Bytes, Bytes>)
    requires Agrees(items0, m) && front in items0
    ensures Agrees([front] + Others(items0, front.key), m)
    ensures front.key in m && m[front.key] == front.value
  {
    hide Others;
    OthersAllIn(items0, front.key);
  }

  lemma SamePut(m: Store, key: Bytes, value: Bytes)
    requires key in m && m[key] == value
    ensures m[key := value] == m
  {
  }

  lemma AgreesErase(items0: seq<Node<Bytes, Bytes>>, m: Store, key: Bytes)
    requires Agrees(items0, m)
    ensures Agrees(Others(items0, key), m - {key})
  {
    hide Others;
    OthersAllIn(items0, key);
  }

  // ---------- Compaction ----------

  /** The checks compact_locked makes on a record before it copies it. */
  predicate Verified(rec: Bytes, key: Bytes, loc: Loc) {
    && |rec| == HEADER_SIZE + |key| + loc.size
    && FromLe32(rec[12..16]) == |key| && FromLe32(rec[16..20]) == loc.size && FromLe64(rec[4..12]) == loc.ts
    && rec[HEADER_SIZE..HEADER_SIZE + |key|] == key
    && Crc32.Crc(rec[4..]) == FromLe32(rec[..4])
  }

  /** Only the intact record of that key, timestamp and size passes. */
  lemma VerifiedMeaning(rec: Bytes, key: Bytes, loc: Loc)
    requires |rec| == HEADER_SIZE + |key| + loc.size && |key| < U32_LIMIT && loc.size < COMPACTION_BASE
    ensures Verified(rec, key, loc) <==>
              rec == Encode(Put(loc.ts, key, rec[HEADER_SIZE + |key|..]))
  {
    hide Crc32.Crc, Le32, Le64, FromLe32, FromLe64, Covered;
    var v := rec[HEADER_SIZE + |key|..];
    var c := Covered(loc.ts, |key|, loc.size, key + v);
    HeaderFields(loc.ts, |key|, loc.size, key + v, Crc32.Crc(c), []);
    var s := Le32(Crc32.Crc(c)) + c + [];
    assert s == Encode(Put(loc.ts, key, v));
    HeaderBytes(rec, |rec|);
    assert rec[..|rec|] == rec && rec[4..|rec|] == rec[4..];
    if Verified(rec, key, loc) {
      assert rec[20..] == key + v;
      assert rec == Le32(FromLe32(rec[..4])) + c;
      assert rec[4..] == c;
    }
    if rec == s {
      assert s[20..20 + |key + v|][..|key|] == key;
    }
  }

  /** `es` is the merged segment for these items. */
  ghost predicate IsMerged(es: seq<Entry>, now: u64, items: seq<Bytes>, kd: KeyDir, m: Store) {
    && (forall i :: 0 <= i < |items| ==> items[i] in kd && items[i] in m)
    && es == Merged(now, items, kd, m) && AllFit(es)
  }

  lemma MarkerOnly(now: u64, kd: KeyDir, m: Store)
    ensures IsMerged([Base(now)], now, [], kd, m)
    ensures EncodeAll([Base(now)]) == [] + Encode(Base(now)) && TotalLen([Base(now)]) == HEADER_SIZE
    ensures HintsOf([Base(now)]) == []
  {
    hide Encode;
    MergedEmpty(now, kd, m);
    assert TotalLen([]) == 0 && EncodeAll([]) == [] && HintsOf([]) == [];
  }

  lemma MergedGrows(es: seq<Entry>, now: u64, items: seq<Bytes>, i: nat, kd: KeyDir, m: Store)
    requires i < |items| && items[i] in kd && items[i] in m && Fits(ItemEntry(items[i], kd, m))
    requires IsMerged(es, now, items[..i], kd, m)
    ensures IsMerged(es + [ItemEntry(items[i], kd, m)], now, items[..i + 1], kd, m)
  {
    hide Merged, ItemEntry;
    var e := ItemEntry(items[i], kd, m);
    assert items[..i + 1][..i] == items[..i];
    assert forall j :: 0 <= j < i ==> items[..i][j] == items[j];
    MergedStep(now, items[..i + 1], kd, m);
    var es' := Merged(now, items[..i + 1], kd, m);
    assert es' == es'[..|es'| - 1] + [es'[|es'| - 1]];
  }

  lemma EntryGrows(es: seq<Entry>, e: Entry)
    requires AllFit(es) && Fits(e) && e.Put?
    ensures AllFit(es + [e]) && EncodeAll(es + [e]) == EncodeAll(es) + Encode(e)
    ensures TotalLen(es + [e]) == TotalLen(es) + |Encode(e)|
    ensures TotalLen(es + [e]) < U64_LIMIT ==>
              HintsOf(es + [e]) == HintsOf(es) + [Hint(e.key, TotalLen(es) + HEADER_SIZE + |e.key|, |e.value|, e.ts)]
  {
    hide Encode, HintsOf, Index, IndexEntry;
    AppendEntry(0, es, e, map[]);
    assert (es + [e])[..|es|] == es;
  }

  lemma MergedPrefix(es: seq<Entry>, all: seq<Entry>, now: u64, items: seq<Bytes>, j: nat, kd: KeyDir, m: Store)
    requires j <= |items| && IsMerged(es, now, items[..j], kd, m) && IsMerged(all, now, items, kd, m)
    ensures TotalLen(es) <= TotalLen(all)
    decreases |items|
  {
    hide Merged, ItemEntry, RecLen;
    if j == |items| {
      assert items[..j] == items;
    } else {
      MergedStep(now, items, kd, m);
      var init := items[..|items| - 1];
      assert init[..j] == items[..j];
      MergedPrefix(es, all[..|all| - 1], now, init, j, kd, m);
    }
  }

  lemma MirrorFacts(d: Disk, active: nat, lo: nat, kd: KeyDir, hints: seq<Hint>)
    requires Mirrors(d, active, lo, kd, hints)
    ensures active in d.segs && (forall id :: id in d.segs ==> id <= active)
    ensures HoldsAt(d.segs, d.hints, active, lo, DirMap(d.segs, d.segs.Keys)) && Holds(d, DirMap(d.segs, d.segs.Keys))
    ensures Clean(d.segs[active]) && TotalLen(Scan(d.segs[active])) < U64_LIMIT
            && hints == HintsOf(Scan(d.segs[active]))
  {
    hide HoldsAt, DirMap, DirIndex, HintsOf, Scan, Clean, TotalLen;
    HoldsTop(d, active, lo, DirMap(d.segs, d.segs.Keys));
    HoldsHere(d, active, lo, DirMap(d.segs, d.segs.Keys));
  }

  lemma MirrorSeparate(d: Disk, active: nat, lo: nat, kd: KeyDir, hints: seq<Hint>)
    requires Mirrors(d, active, lo, kd, hints)
    ensures Separate(kd) && forall k :: k in kd ==> kd[k].seg in d.segs
  {
    hide Tidy, DirIndex, HintsOf, Scan;
    DirApart(d.segs, d.segs.Keys);
  }

  lemma OnlyActive(kd: KeyDir, active: nat, now: u64, m: Store)
    requires forall k :: k in kd ==> kd[k].seg == active
    ensures LogOrder([], kd) && SealedKeys([], kd, active)
    ensures AllFit([Base(now)]) && IsMerged([Base(now)], now, [], kd, m)
  {
    hide Encode, TotalLen, HintsOf;
    MarkerOnly(now, kd, m);
  }

  lemma AllActive(fds: set<nat>, active: nat, sealed: seq<nat>)
    requires sealed == [] && forall id :: id in sealed <==> id in fds - {active}
    ensures forall id :: id in fds ==> id == active
  {
    forall id | id in fds
      ensures id == active
    {
      assert id in sealed <==> id in fds - {active};
    }
  }

  lemma NewestSealed(fds: set<nat>, active: nat, sealed: seq<nat>)
    requires sealed != [] && forall id :: id in sealed <==> id in fds - {active}
    requires forall i, j :: 0 <= i < j < |sealed| ==> sealed[i] < sealed[j]
    ensures forall id :: id in fds ==> id <= sealed[|sealed| - 1] || id == active
  {
    forall id | id in fds && id != active
      ensures id <= sealed[|sealed| - 1]
    {
      assert id in sealed;
    }
  }

  lemma ChooseMerged(d: Disk, active: nat, lo: nat, kd: KeyDir, hints: seq<Hint>, out: nat, items: seq<Bytes>, now: u64,
                     m: Store)
    returns (es: seq<Entry>)
    requires Mirrors(d, active, lo, kd, hints) && m == DirMap(d.segs, d.segs.Keys)
    requires out in d.segs && out < active && (forall id :: id in d.segs ==> id <= out || id == active)
    requires LogOrder(items, kd) && SealedKeys(items, kd, active)
    ensures Chosen(d, active, lo, kd, hints, out, items) && IsMerged(es, now, items, kd, m) && AllFit(es)
  {
    hide Mirrors, DirMap, LogOrder, SealedKeys, Merged, RecordAt;
    ItemsFit(d, active, lo, kd, hints, out, items, now);
    es := Merged(now, items, kd, m);
  }

  lemma IsMergedUnique(es: seq<Entry>, all: seq<Entry>, now: u64, items: seq<Bytes>, kd: KeyDir, m: Store)
    requires IsMerged(es, now, items, kd, m) && IsMerged(all, now, items, kd, m)
    ensures es == all
  {
    hide Merged;
  }

  lemma HoldsFrame(d: Disk, d': Disk, m: Store)
    requires Holds(d, m) && d'.segs == d.segs && d'.hints == d.hints
    ensures Holds(d', m)
  {
    hide HoldsAt;
  }

  lemma TotalOf(es: seq<Entry>)
    requires AllFit(es)
    ensures |EncodeAll(es)| == TotalLen(es)
  {
  }

  lemma RecordLength(e: Entry)
    requires Fits(e)
    ensures |Encode(e)| >= HEADER_SIZE
  {
  }

  lemma RecordSize(s: Bytes, loc: Loc, k: Bytes, v: Bytes)
    requires RecordAt(s, loc, k, v)
    ensures loc.size == |v|
  {
  }

  lemma MirrorsFrame(d: Disk, d': Disk, active: nat, lo: nat, kd: KeyDir, hints: seq<Hint>)
    requires Mirrors(d, active, lo, kd, hints) && d'.segs == d.segs
    requires HoldsAt(d'.segs, d'.hints, active, lo, DirMap(d.segs, d.segs.Keys))
    ensures Mirrors(d', active, lo, kd, hints)
  {
    hide HoldsAt, DirMap, DirIndex, HintsOf, Scan;
  }

  /** The merged segment's bytes read back as the merged records. */
  lemma MergedBytes(es: seq<Entry>)
    requires AllFit(es) && es != [] && es[0].Base?
    ensures Scan(EncodeAll(es)) == es && Clean(EncodeAll(es)) && HasBase(EncodeAll(es))
  {
    hide Parse, Encode;
    ParseEmpty();
    assert EncodeAll(es) + [] == EncodeAll(es);
    ScanEncode(es, []);
  }

  /** What is known when compaction has chosen its items. */
  ghost predicate Chosen(d: Disk, active: nat, lo: nat, kd: KeyDir, hints: seq<Hint>, out: nat, items: seq<Bytes>) {
    && Mirrors(d, active, lo, kd, hints)
    && out in d.segs && out < active && (forall id :: id in d.segs ==> id <= out || id == active)
    && LogOrder(items, kd) && SealedKeys(items, kd, active)
  }

  lemma ChosenHolds(d: Disk, active: nat, lo: nat, kd: KeyDir, hints: seq<Hint>, out: nat, items: seq<Bytes>)
    requires Chosen(d, active, lo, kd, hints, out, items)
    ensures Holds(d, DirMap(d.segs, d.segs.Keys))
  {
    hide Holds, Mirrors, DirMap, LogOrder, SealedKeys;
    MirrorFacts(d, active, lo, kd, hints);
  }

  lemma ItemsFit(d: Disk, active: nat, lo: nat, kd: KeyDir, hints: seq<Hint>, out: nat, items: seq<Bytes>, now: u64)
    requires Chosen(d, active, lo, kd, hints, out, items)
    ensures var m := DirMap(d.segs, d.segs.Keys);
            && kd.Keys == m.Keys
            && (forall i :: 0 <= i < |items| ==> items[i] in kd && items[i] in m)
            && (forall i :: 0 <= i < |items| ==> Fits(ItemEntry(items[i], kd, m)))
            && (forall i :: 0 <= i < |items| ==> kd[items[i]].seg in d.segs)
            && (forall i :: 0 <= i < |items| ==>
                RecordAt(d.segs[kd[items[i]].seg], kd[items[i]], items[i], m[items[i]]))
            && IsMerged(Merged(now, items, kd, m), now, items, kd, m)
  {
    hide Tidy, DirMap, DirIndex, Merged, HintsOf, Scan, Encode;
    DirPoints(d.segs, d.segs.Keys);
    var m := DirMap(d.segs, d.segs.Keys);
    MergedFits(now, items, kd, m);
  }

  /** What the commit needs to know of the merged segment `es`. */
  ghost predicate Committable(d: Disk, active: nat, lo: nat, kd: KeyDir, hints: seq<Hint>, out: nat, es: seq<Entry>,
                              m: Store) {
    && Mirrors(d, active, lo, kd, hints) && m == DirMap(d.segs, d.segs.Keys)
    && out in d.segs && out < active && (forall id :: id in d.segs ==> id <= out || id == active)
    && AllFit(es) && Scan(EncodeAll(es)) == es
    && HoldsAt(d.segs, d.hints - {out}, active, lo, m)
    && HoldsAt(d.segs[out := EncodeAll(es)], d.hints - {out}, active, out, m)
    && Index(out, es, kd) == Index(active, Scan(d.segs[active]), Index(out, es, map[]))
  }

  /** The rename commits: the directory stands for the same mapping, now on top of `out`. */
  lemma CommitHolds(d: Disk, active: nat, lo: nat, kd: KeyDir, hints: seq<Hint>, out: nat, items: seq<Bytes>, now: u64,
                    es: seq<Entry>, m: Store)
    requires Chosen(d, active, lo, kd, hints, out, items) && m == DirMap(d.segs, d.segs.Keys)
    requires IsMerged(es, now, items, kd, m) && TotalLen(es) <= MAX_FILE
    ensures Committable(d, active, lo, kd, hints, out, es, m)
  {
    hide HoldsAt, DirMap, DirIndex, Replay, Index, HintsOf, Scan, EncodeAll, Clean, HasBase, ItemEntries, RecordAt;
    var a := Scan(d.segs[active]);
    var rest := d.segs.Keys - {active};
    var kd0, m0 := DirIndex(d.segs, rest), DirMap(d.segs, rest);
    HoldsTop(d, active, lo, m);
    DropHint(d, out, active, lo, m);
    DirMapTop(d.segs, d.segs.Keys, active);
    DirIndexTop(d.segs, d.segs.Keys, active);
    DirPoints(d.segs, rest);
    DirPoints(d.segs, d.segs.Keys);
    DirApart(d.segs, rest);
    MergeKeepsMap(now, items, active, a, kd0, m0);
    MergeKeepsIndex(now, items, active, out, a, kd0, m);
    MergedBytes(es);
    Commit(d.(hints := d.hints - {out}), out, EncodeAll(es), active, lo, m);
  }

  lemma CommittableFacts(d: Disk, active: nat, lo: nat, kd: KeyDir, hints: seq<Hint>, out: nat, es: seq<Entry>,
                         m: Store)
    requires Committable(d, active, lo, kd, hints, out, es, m)
    ensures Mirrors(d, active, lo, kd, hints) && m == DirMap(d.segs, d.segs.Keys)
    ensures out in d.segs && out < active && (forall id :: id in d.segs ==> id <= out || id == active)
    ensures AllFit(es) && Scan(EncodeAll(es)) == es && active in d.segs
    ensures HoldsAt(d.segs, d.hints - {out}, active, lo, m)
    ensures HoldsAt(d.segs[out := EncodeAll(es)], d.hints - {out}, active, out, m)
    ensures Index(out, es, kd) == Index(active, Scan(d.segs[active]), Index(out, es, map[]))
  {
    hide HoldsAt, DirMap, Mirrors, EncodeAll, Scan, Index;
    MirrorFacts(d, active, lo, kd, hints);
  }

  lemma CommittableFrame(d: Disk, d': Disk, active: nat, lo: nat, kd: KeyDir, hints: seq<Hint>, out: nat,
                         es: seq<Entry>, m: Store)
    requires Committable(d, active, lo, kd, hints, out, es, m) && d'.segs == d.segs && d'.hints == d.hints
    ensures Committable(d', active, lo, kd, hints, out, es, m)
  {
    hide HoldsAt, DirMap, EncodeAll, Scan, Index, DirIndex, HintsOf, TotalLen;
  }

  /** After the superseded segments are gone, memory mirrors the disk again. */
  lemma CompactedMirrors(d: Disk, active: nat, out: nat, kd: KeyDir, hints: seq<Hint>, es: seq<Entry>, m: Store)
    requires HoldsAt(d.segs, d.hints, active, out, m) && out < active && d.segs.Keys == {out, active}
    requires Scan(d.segs[out]) == es && AllFit(es)
    requires kd == Index(active, Scan(d.segs[active]), Index(out, es, map[]))
    requires Clean(d.segs[active]) && TotalLen(Scan(d.segs[active])) < U64_LIMIT
             && hints == HintsOf(Scan(d.segs[active]))
    ensures Mirrors(d, active, out, kd, hints) && DirMap(d.segs, d.segs.Keys) == m
  {
    hide HoldsAt, DirMap, DirIndex, Index, HintsOf, Scan, Clean;
    HoldsTop(d, active, out, m);
    TidyFrom(d, active, out);
    HoldsMap(d, active, out, m);
    assert {out, active} - {active} == {out};
    assert {out} - {out} == {};
    DirIndexTop(d.segs, {out, active}, active);
    DirIndexTop(d.segs, {out}, out);
    DirIndexEmpty(d.segs);
  }

  /** Every file operation before the rename succeeds and the merged file can be written: of the
      operations of a compaction of n records, number 0 opens the temporary file, 1 writes the marker,
      2 .. n + 1 copy the records, n + 2 is the fsync and n + 3 the rename. */
  ghost predicate SwapReached(fault: nat -> bool, n: nat, es: seq<Entry>) {
    (forall i: nat :: i <= n + 2 ==> !fault(i)) && TotalLen(es) <= MAX_FILE
  }

  lemma ReachedSplit(fault: nat -> bool, n: nat, es: seq<Entry>)
    ensures SwapReached(fault, n, es) <==>
              !fault(0) && !fault(1) && (forall i: nat :: 2 <= i < n + 2 ==> !fault(i)) && !fault(n + 2)
                && TotalLen(es) <= MAX_FILE
  {
    hide TotalLen;
  }

  /** A live record that the index leads to. */
  ghost predicate Copyable(segs: Segments, key: Bytes, kd: KeyDir, m: Store) {
    && key in kd && key in m && kd[key].seg in segs
    && RecordAt(segs[kd[key].seg], kd[key], key, m[key])
    && Fits(ItemEntry(key, kd, m))
  }

  lemma CopyableFacts(segs: Segments, key: Bytes, kd: KeyDir, m: Store)
    requires Copyable(segs, key, kd, m)
    ensures key in kd && key in m && kd[key].seg in segs && Fits(ItemEntry(key, kd, m))
    ensures RecordAt(segs[kd[key].seg], kd[key], key, m[key])
  {
    hide RecordAt, Fits, ItemEntry;
  }

  lemma ChosenCopyable(d: Disk, active: nat, lo: nat, kd: KeyDir, hints: seq<Hint>, out: nat, items: seq<Bytes>,
                       now: u64)
    requires Chosen(d, active, lo, kd, hints, out, items)
    ensures Holds(d, DirMap(d.segs, d.segs.Keys))
    ensures forall i :: 0 <= i < |items| ==> Copyable(d.segs, items[i], kd, DirMap(d.segs, d.segs.Keys))
  {
    hide Chosen, DirMap, RecordAt, Fits, ItemEntry, IsMerged, Merged, Holds;
    ChosenHolds(d, active, lo, kd, hints, out, items);
    ItemsFit(d, active, lo, kd, hints, out, items, now);
  }

  /** The trail went through the state in which the merged file stands finished beside the old ones. */
  ghost predicate Prepared(trail: seq<Disk>, from: nat, before: Disk, out: nat, es: seq<Entry>) {
    AllFit(es) && Passed(trail, from, before.(compactTmp := map[out := EncodeAll(es)]))
  }

  lemma BuiltIsPrepared(trail: seq<Disk>, from: nat, before: Disk, now: Disk, out: nat, es: seq<Entry>)
    requires AllFit(es) && before.compactTmp == map[] && Passed(trail, from, now)
    requires now == before.(compactTmp := before.compactTmp[out := EncodeAll(es)])
    ensures Prepared(trail, from, before, out, es)
  {
    hide EncodeAll;
    assert before.compactTmp[out := EncodeAll(es)] == map[out := EncodeAll(es)];
  }

  lemma StillPrepared(trail: seq<Disk>, longer: seq<Disk>, from: nat, before: Disk, out: nat, es: seq<Entry>)
    requires trail <= longer && Prepared(trail, from, before, out, es)
    ensures Prepared(longer, from, before, out, es)
  {
    hide EncodeAll;
    StillPassed(trail, longer, from, before.(compactTmp := map[out := EncodeAll(es)]));
  }

  /** The disk right after the rename, with memory still as it was. */
  ghost predicate Swapped(d: Disk, active: nat, out: nat, es: seq<Entry>, kd: KeyDir, hints: seq<Hint>, m: Store) {
    hide Scan, Index, HintsOf, HoldsAt, EncodeAll, TotalLen, Clean;
    && AllFit(es) && TotalLen(es) <= MAX_FILE && Scan(EncodeAll(es)) == es
    && HoldsAt(d.segs, d.hints, active, out, m) && out < active && out !in d.hints
    && out in d.segs && d.segs[out] == EncodeAll(es) && active in d.segs
    && Index(out, es, kd) == Index(active, Scan(d.segs[active]), Index(out, es, map[]))
    && Clean(d.segs[active]) && TotalLen(Scan(d.segs[active])) < U64_LIMIT
    && hints == HintsOf(Scan(d.segs[active]))
  }

  /** The hint of a merged segment: all its records if it could be written, else none. */
  ghost predicate Rehinted(hints: map<nat, Bytes>, out: nat, es: seq<Entry>, ho: HintOutcome) {
    && AllFit(es) && TotalLen(es) < U64_LIMIT
    && if HintsOf(es) != [] && ho.Written?
       then KeysFit(HintsOf(es)) && out in hints && hints[out] == EncodeHints(HintsOf(es))
       else out !in hints
  }

  /** encode_hints. */
  method EncodeHintList(hints: seq<Hint>) returns (buf: Bytes)
    requires KeysFit(hints)
    ensures buf == EncodeHints(hints)
  {
    hide EncodeHint;
    buf := [];
    for i := 0 to |hints|
      invariant buf == EncodeHints(hints[..i])
    {
      assert hints[..i + 1][..i] == hints[..i];
      buf := buf + EncodeHint(hints[i]);
    }
    assert hints[..|hints|] == hints;
  }

  /** How the disk came from `start` to `now`: system call by system call, and with every hint sound in
      every state if it was so at the start. */
  ghost predicate Chronicle(start: Disk, trail: seq<Disk>, now: Disk) {
    && Recorded(OneCall, start, trail, now)
    && (SoundHints(start) ==> SoundHints(now) && forall i :: 0 <= i < |trail| ==> SoundHints(trail[i]))
  }

  lemma ChronicleNothing(d: Disk)
    ensures Chronicle(d, [], d)
  {
    hide OneCall, SoundHints;
    RecordNothing(OneCall, d);
  }

  lemma ChronicleStep(start: Disk, trail: seq<Disk>, now: Disk, c: Call)
    requires Chronicle(start, trail, now) && (SoundHints(now) ==> SoundHints(Performed(c, now)))
    ensures Chronicle(start, trail + [Performed(c, now)], Performed(c, now))
  {
    hide OneCall, SoundHints, Performed, Recorded;
    CallIsStep(c, now);
    RecordStep(OneCall, start, trail, now, Performed(c, now));
  }

  lemma ChroniclePassed(start: Disk, trail: seq<Disk>, now: Disk, from: nat)
    requires Chronicle(start, trail, now) && from < |trail|
    ensures Passed(trail, from, now)
  {
    hide OneCall, SoundHints, Recorded, Passed;
    NowPassed(OneCall, start, trail, now, from);
  }

  class Engine {
    const threshold: nat
    const cache: Cache<Bytes, Bytes>
    var disk: Disk
    var activeId: nat
    var activeOffset: nat
    var activeHints: seq<Hint>      // complete list of the active segment's key records
    var fds: set<nat>               // every open segment, active included
    var keydir: KeyDir
    ghost var low: nat              // no segment on disk is older than this one
    const start: Disk               // the disk when this engine started
    var trail: seq<Disk>            // the disk after every system call so far

    ghost predicate Valid()
      reads this, cache
    {
      Running() && cache.Valid() && Agrees(cache.items, Contents())
    }

    /** All but the cache: memory mirrors the disk, no temporary file is left, every state is recorded. */
    ghost predicate Running()
      reads this
    {
      && Mirrors(disk, activeId, low, keydir, activeHints)
      && fds == disk.segs.Keys
      && activeOffset == |disk.segs[activeId]|
      && disk.compactTmp == map[] && disk.hintTmp == map[]
      && History()
    }

    /** The newest sealed segment: what a compaction merges into. */
    ghost function Target(): nat
      reads this`fds, this`activeId
    {
      if fds - {activeId} == {} then 0 else MaxOf(fds - {activeId})
    }

    /** The trail leaves out no disk state: every step of it is one system call. Hints stay sound. */
    ghost predicate History()
      reads this`disk, this`trail
    {
      Chronicle(start, trail, disk)
    }

    /** The mapping the store stands for. */
    ghost function Contents(): Store
      reads this
    {
      DirMap(disk.segs, disk.segs.Keys)
    }

    /** One system call. The disk becomes `d`, a state a death can leave behind. */
    method Step(c: Call, ghost d: Disk, ghost from: nat, ghost m0: Store, ghost m1: Store)
      requires History() && d == Performed(c, disk) && AtEnd(c, d.segs)
      requires CrashSafe(trail, from, m0, m1) && (Holds(d, m0) || Holds(d, m1))
      modifies this`disk, this`trail
      ensures History() && disk == d && trail == old(trail) + [d] && CrashSafe(trail, from, m0, m1)
    {
      hide Holds, Performed, Chronicle, AtEnd, SoundHints;
      if SoundHints(disk) {
        StepKeepsHints(c, disk, if Holds(d, m0) then m0 else m1);
      }
      ChronicleStep(start, trail, disk, c);
      disk := Performed(c, disk);
      trail := trail + [disk];
    }

    // ---------- Startup ----------

    /** Opens the store on disk `d`. Whatever mapping the directory stands for is rebuilt, and a
        death at any moment of the startup leaves a directory that still stands for it. */
    constructor (d: Disk, threshold: nat, capacity: nat, ho: HintOutcome, ghost m: Store)
      requires Holds(d, m)
      ensures Valid() && Contents() == m && fresh(cache) && start == d
      ensures this.threshold == threshold
      ensures d.segs == map[] ==> disk == Disk(map[0 := []], map[], map[], map[]) && activeId == 0 && activeOffset == 0
      ensures d.segs != map[] ==> Started(d, disk, m, low, threshold, activeId, activeOffset, ho)
      ensures CrashSafe(trail, 0, m, m)
    {
      this.threshold := threshold;
      cache := new Cache(capacity);
      disk, trail, start := d, [], d;
      activeId, activeOffset, activeHints := 0, 0, [];
      fds, keydir, low := {}, map[], 0;
      new;
      hide HoldsAt, Holds, Mirrors, Chronicle, OneCall, CrashSafe, DirMap, DirIndex, Agrees, Linked;
      ChronicleNothing(d);
      Open(ho, m);
    }

    /** discover_and_recover on the disk as it was found. */
    method Open(ho: HintOutcome, ghost m: Store)
      requires History() && trail == [] && Holds(disk, m)
      requires fds == {} && keydir == map[] && low == 0 && cache.Valid() && cache.items == []
      modifies this
      ensures Valid() && Contents() == m
      ensures old(disk).segs == map[] ==>
                disk == Disk(map[0 := []], map[], map[], map[]) && activeId == 0 && activeOffset == 0
      ensures old(disk).segs != map[] ==> Started(old(disk), disk, m, low, threshold, activeId, activeOffset, ho)
      ensures CrashSafe(trail, 0, m, m)
    {
      hide HoldsAt, Holds, Mirrors, Chronicle, OneCall, CrashSafe, DirMap, DirIndex, Agrees, Linked;
      ghost var d := disk;
      RemoveTempFiles(m);
      HoldsFrame(d, disk, m);
      ghost var d1 := disk;
      if disk.segs == map[] {
        EmptyHolds(disk, m);
        ghost var before := trail;
        OpenNewActive(0);
        FirstSegment(disk);
        CrashSafeOne(before, disk, m);
        AgreesNothing(m);
      } else {
        Recover(ho, m);
        StartedFrame(d, d1, disk, m, low, threshold, activeId, activeOffset, ho);
      }
    }

    method RemoveTempFiles(ghost m: Store)
      requires History() && Holds(disk, m) && trail == []
      modifies this`disk, this`trail
      ensures History() && disk == old(disk).(compactTmp := map[], hintTmp := map[])
      ensures CrashSafe(trail, 0, m, m)
    {
      hide Holds, CrashSafe, Chronicle;
      CrashSafeEmpty(trail, m, m);
      while disk.compactTmp != map[]
        invariant History() && disk == old(disk).(compactTmp := disk.compactTmp)
        invariant CrashSafe(trail, 0, m, m)
        decreases disk.compactTmp.Keys
      {
        var id :| id in disk.compactTmp;
        ghost var d := disk.(compactTmp := disk.compactTmp - {id});
        HoldsFrame(old(disk), d, m);
        Step(UnlinkCompactTmp(id), d, 0, m, m);
      }
      while disk.hintTmp != map[]
        invariant History() && disk == old(disk).(compactTmp := map[], hintTmp := disk.hintTmp)
        invariant CrashSafe(trail, 0, m, m)
        decreases disk.hintTmp.Keys
      {
        var id :| id in disk.hintTmp;
        ghost var d := disk.(hintTmp := disk.hintTmp - {id});
        HoldsFrame(old(disk), d, m);
        Step(UnlinkHintTmp(id), d, 0, m, m);
      }
    }

    /** open_new_active_segment: a file that does not exist yet is created empty. */
    method OpenNewActive(newId: nat)
      requires History() && newId !in disk.hints
      modifies this`disk, this`trail, this`fds, this`activeId, this`activeOffset, this`activeHints
      ensures History()
      ensures newId !in old(disk).segs ==> disk == old(disk).(segs := old(disk).segs[newId := []])
      ensures newId in old(disk).segs ==> disk == old(disk)
      ensures trail == old(trail) + [disk] && fds == old(fds) + {newId}
      ensures activeId == newId && activeOffset == 0 && activeHints == []
    {
      hide Chronicle, SoundHints;
      if SoundHints(disk) {
        NewSegmentHints(disk, newId);
      }
      ChronicleStep(start, trail, disk, CreateSegment(newId));
      disk := Performed(CreateSegment(newId), disk);
      trail := trail + [disk];
      fds := fds + {newId};
      activeId, activeOffset, activeHints := newId, 0, [];
    }

    method Recover(ho: HintOutcome, ghost m: Store)
      requires History()
      requires Holds(disk, m) && disk.segs != map[] && disk.compactTmp == map[] && disk.hintTmp == map[]
      requires CrashSafe(trail, 0, m, m) && keydir == map[] && fds == {}
      requires cache.Valid() && cache.items == []
      modifies this
      ensures Valid() && Contents() == m
      ensures Started(old(disk), disk, m, low, threshold, activeId, activeOffset, ho)
      ensures CrashSafe(trail, 0, m, m)
    {
      hide Chronicle, HoldsAt, Holds, DirMap, DirIndex, Scan, HasBase, Clean, HintOk, Index, Mirrors, CrashSafe, Agrees,
        Running, Resumed;
      ghost var top, lo := HoldsParts(disk, m);
      var live := LiveSegments(top, lo, m);
      low := lo;
      RecoverLive(live, ho, top, m);
      TopIsMax(old(disk), top, lo, m);
    }

    /** Finishes an interrupted compaction; what is left are the live segments, oldest first. */
    method LiveSegments(ghost top: nat, ghost lo: nat, ghost m: Store) returns (live: seq<nat>)
      requires History()
      requires HoldsAt(disk.segs, disk.hints, top, lo, m) && CrashSafe(trail, 0, m, m)
      modifies this`disk, this`trail
      ensures History()
      ensures HoldsAt(disk.segs, disk.hints, top, lo, m) && top in disk.segs && live != []
      ensures (forall id :: id in live <==> id in disk.segs)
              && forall i, j :: 0 <= i < j < |live| ==> live[i] < live[j]
      ensures live[|live| - 1] == top && forall id :: id in disk.segs ==> lo <= id
      ensures disk == Less(old(disk), Stale(old(disk), lo))
      ensures CrashSafe(trail, 0, m, m)
    {
      hide Chronicle, HoldsAt, Holds, DirMap, DirIndex, Scan, HasBase, Clean, HintOk, CrashSafe;
      var ids := SortIds(disk.segs.Keys);
      var first := FirstLive(ids, top, lo, m);
      FinishCompaction(ids, first, top, lo, m);
      HoldsTop(disk, top, lo, m);
      TailAscends(ids, first);
      live := ids[first..];
      LiveAbove(disk, ids, first, lo, live);
    }

    /** Recovers the segments that are left, oldest first. */
    method RecoverLive(live: seq<nat>, ho: HintOutcome, ghost top: nat, ghost m: Store)
      requires History()
      requires HoldsAt(disk.segs, disk.hints, top, low, m) && live != [] && top in disk.segs
      requires (forall id :: id in live <==> id in disk.segs)
               && forall i, j :: 0 <= i < j < |live| ==> live[i] < live[j]
      requires live[|live| - 1] == top && forall id :: id in disk.segs ==> low <= id
      requires disk.compactTmp == map[] && disk.hintTmp == map[] && keydir == map[] && fds == {}
      requires CrashSafe(trail, 0, m, m) && cache.Valid() && cache.items == []
      modifies this
      ensures Valid() && Contents() == m
      ensures low == old(low) && Resumed(old(disk), disk, top, threshold, activeId, activeOffset, ho)
      ensures CrashSafe(trail, 0, m, m)
    {
      hide Chronicle, HoldsAt, Holds, DirMap, DirIndex, Scan, Mirrors, CrashSafe, Agrees, Running, Resumed;
      RecoverSealed(live, top, m);
      RecoverActive(live[|live| - 1], ho, m);
    }

    /** The newest sealed segment that begins with a base marker, or else the oldest segment. */
    method FirstLive(ids: seq<nat>, ghost top: nat, ghost lo: nat, ghost m: Store) returns (first: nat)
      requires HoldsAt(disk.segs, disk.hints, top, lo, m)
      requires (forall id :: id in ids <==> id in disk.segs) && forall i, j :: 0 <= i < j < |ids| ==> ids[i] < ids[j]
      ensures first < |ids| && ids[|ids| - 1] == top
      ensures forall j :: 0 <= j < first ==> ids[j] < lo
      ensures forall j :: first <= j < |ids| ==> lo <= ids[j]
    {
      hide HoldsAt, HasBase, HeaderIsBase;
      HoldsTop(disk, top, lo, m);
      assert top in ids;
      first := 0;
      var i := |ids| - 1;
      assert ids[i] in ids;
      var found := false;
      while i > 0 && !found
        invariant 0 <= i < |ids| && (found ==> first == i < |ids| - 1 && HasBase(disk.segs[ids[i]]))
                  && (!found ==> first == 0)
        invariant forall j :: (if found then i + 1 else i) <= j < |ids| - 1 ==>
                    ids[j] in disk.segs && !HasBase(disk.segs[ids[j]])
        decreases i, !found
      {
        i := i - 1;
        assert ids[i] in ids;
        HeaderIsBaseMeaning(disk.segs[ids[i]]);
        if HeaderIsBase(disk.segs[ids[i]]) {
          first, found := i, true;
        }
      }
      LowestLive(disk, ids, top, lo, m, first, found);
    }

    /** Deletes what an interrupted compaction left behind. */
    method FinishCompaction(ids: seq<nat>, first: nat, ghost top: nat, ghost lo: nat, ghost m: Store)
      requires History()
      requires HoldsAt(disk.segs, disk.hints, top, lo, m) && first < |ids|
      requires (forall id :: id in ids <==> id in disk.segs) && forall i, j :: 0 <= i < j < |ids| ==> ids[i] < ids[j]
      requires forall j :: 0 <= j < first ==> ids[j] < lo
      requires forall j :: first <= j < |ids| ==> lo <= ids[j]
      requires CrashSafe(trail, 0, m, m)
      modifies this`disk, this`trail
      ensures History()
      ensures HoldsAt(disk.segs, disk.hints, top, lo, m)
      ensures forall id :: id in ids[first..] <==> id in disk.segs
      ensures disk == Less(old(disk), Stale(old(disk), lo))
      ensures CrashSafe(trail, 0, m, m)
    {
      hide Chronicle, HoldsAt, Holds, CrashSafe, Stale, Front, Less, Remain;
      LessNone(disk, ids);
      RemainAll(disk, ids);
      for i := 0 to first
        invariant History()
        invariant HoldsAt(disk.segs, disk.hints, top, lo, m)
        invariant Remain(disk, ids, i)
        invariant disk == Less(old(disk), Front(ids, i))
        invariant CrashSafe(trail, 0, m, m)
      {
        RemainLess(disk, ids, i);
        DeleteStale(ids[i], top, lo, m, 0);
        LessOne(old(disk), ids, i, disk);
      }
      RemainMeans(disk, ids, first);
      FrontIsStale(old(disk), ids, first, lo);
    }

    /** Unlinks a superseded segment, then its hint. */
    method DeleteStale(id: nat, ghost top: nat, ghost lo: nat, ghost m: Store, ghost from: nat)
      requires History()
      requires HoldsAt(disk.segs, disk.hints, top, lo, m) && id < lo
      requires CrashSafe(trail, from, m, m)
      modifies this`disk, this`trail
      ensures History()
      ensures disk == Less(old(disk), {id})
      ensures HoldsAt(disk.segs, disk.hints, top, lo, m)
      ensures old(trail) <= trail && CrashSafe(trail, from, m, m)
    {
      hide Chronicle, HoldsAt, Holds, CrashSafe;
      var d1 := disk.(segs := disk.segs - {id});
      DropStale(disk, id, top, lo, m);
      HoldsTop(d1, top, lo, m);
      HoldsHere(d1, top, lo, m);
      Step(UnlinkSegment(id), d1, from, m, m);
      var d2 := disk.(hints := disk.hints - {id});
      DropHint(disk, id, top, lo, m);
      HoldsHere(d2, top, lo, m);
      Step(UnlinkHint(id), d2, from, m, m);
    }

    /** recover_segment_via_hint or else recover_segment_via_full_scan: the same index either way. */
    method IndexSegment(id: nat)
      requires id in disk.segs && |disk.segs[id]| <= MAX_FILE && Clean(disk.segs[id])
      requires id in disk.hints ==> HintOk(disk.hints[id], disk.segs[id])
      modifies this`keydir
      ensures keydir == Index(id, Scan(disk.segs[id]), old(keydir))
    {
      hide Scan, Trusted, IndexHints, Index, Clean, HintOk;
      var trusted := false;
      if id in disk.hints {
        var kd;
        trusted, kd := ReadHint(id, disk.hints[id], |disk.segs[id]|, keydir);
        if trusted {
          TrustedHint(disk.hints[id], disk.segs[id], id, keydir);
        }
        keydir := kd;
      }
      if !trusted {
        var _, kd, _ := FullScan(id, disk.segs[id], keydir);
        keydir := kd;
      }
    }

    /** Opens every sealed segment, oldest first, and indexes it from its hint or by scanning it. */
    method RecoverSealed(live: seq<nat>, ghost top: nat, ghost m: Store)
      requires HoldsAt(disk.segs, disk.hints, top, low, m) && live != []
      requires (forall id :: id in live <==> id in disk.segs) && forall i, j :: 0 <= i < j < |live| ==>
                 live[i] < live[j]
      requires forall id :: id in disk.segs ==> low <= id
      requires keydir == map[] && fds == {}
      modifies this`keydir, this`fds
      ensures top in disk.segs && live[|live| - 1] == top
      ensures fds == disk.segs.Keys - {top} && keydir == DirIndex(disk.segs, disk.segs.Keys - {top})
    {
      hide HoldsAt, DirIndex, Scan, Trusted, IndexHints, Index, Clean, HintOk;
      HoldsTop(disk, top, low, m);
      assert top in live;
      assert live[|live| - 1] in live;
      DirIndexEmpty(disk.segs);
      var n := |live| - 1;
      for i := 0 to n
        invariant fds == (set j | 0 <= j < i :: live[j]) && fds <= disk.segs.Keys
        invariant keydir == DirIndex(disk.segs, fds)
      {
        var id := live[i];
        assert id in live && id < top;
        SealedFacts(disk, top, low, m, id);
        IndexSegment(id);
        assert forall x :: x in fds ==> x < id;
        assert fds + {id} - {id} == fds;
        DirIndexTop(disk.segs, fds + {id}, id);
        fds := fds + {id};
      }
      forall id | id in disk.segs.Keys - {top}
        ensures id in fds
      {
        assert id in live;
        var j :| 0 <= j < |live| && live[j] == id;
        assert live[j] in fds;
      }
      assert fds == disk.segs.Keys - {top};
    }

    /** Scans the newest segment, cuts its torn tail, and seals it if it is over the limit. */
    method RecoverActive(aid: nat, ho: HintOutcome, ghost m: Store)
      requires History()
      requires HoldsAt(disk.segs, disk.hints, aid, low, m) && aid in disk.segs
      requires forall id :: id in disk.segs ==> low <= id
      requires disk.compactTmp == map[] && disk.hintTmp == map[]
      requires fds == disk.segs.Keys - {aid} && keydir == DirIndex(disk.segs, disk.segs.Keys - {aid})
      requires CrashSafe(trail, 0, m, m) && cache.Valid() && cache.items == []
      modifies this
      ensures Valid() && Contents() == m
      ensures low == old(low) && Resumed(old(disk), disk, aid, threshold, activeId, activeOffset, ho)
      ensures CrashSafe(trail, 0, m, m)
    {
      hide Chronicle, HoldsAt, Holds, DirIndex, DirMap, Scan, Index, HintsOf, Mirrors, CrashSafe;
      HoldsTop(disk, aid, low, m);
      fds := fds + {aid};
      activeId := aid;
      activeOffset, keydir, activeHints := FullScan(aid, disk.segs[aid], keydir);
      TruncatedMirrors(disk, aid, low, m);
      var d := disk.(segs := disk.segs[aid := disk.segs[aid][..activeOffset]]);
      HoldsHere(d, aid, low, m);
      Step(TruncateSegment(aid, activeOffset), d, 0, m, m);
      ghost var before := trail;
      MaybeRoll(ho);
      CrashSafeJoin(before, trail, m);
    }

    // ---------- Sealing and rolling ----------

    /** write_hint_file: temporary file, then one rename. */
    method WriteHintFile(id: nat, hints: seq<Hint>, ho: HintOutcome, ghost m: Store)
      requires History()
      requires HoldsAt(disk.segs, disk.hints, activeId, low, m) && id in disk.segs
      requires forall other :: other in disk.segs ==> other <= id || other == activeId
      requires TotalLen(Scan(disk.segs[id])) < U64_LIMIT && hints == HintsOf(Scan(disk.segs[id]))
      modifies this`disk, this`trail
      ensures History()
      ensures disk.segs == old(disk).segs && disk.compactTmp == old(disk).compactTmp
      ensures disk.hintTmp == old(disk).hintTmp - {id} || (ho.NotOpened? && disk.hintTmp == old(disk).hintTmp)
      ensures HoldsAt(disk.segs, disk.hints, activeId, low, m)
      ensures Hinted(old(disk).hints, disk.hints, id, hints, ho)
      ensures old(trail) <= trail && CrashSafe(trail, |old(trail)|, m, m)
    {
      hide Chronicle, HoldsAt, Holds, Scan, HintsOf, EncodeHints, CrashSafe;
      CrashSafeEmpty(trail, m, m);
      if ho.NotOpened? {
        return;
      }
      HoldsTop(disk, activeId, low, m);
      HintWritten(disk, id, hints, activeId, low, m);
      var buf := EncodeHintList(hints);
      FillHintTmp(id, buf, m, |trail|);
      var d := if ho.NotCompleted? then disk.(hintTmp := disk.hintTmp - {id})
               else disk.(hints := disk.hints[id := disk.hintTmp[id]], hintTmp := disk.hintTmp - {id});
      HoldsHere(d, activeId, low, m);
      Step(if ho.NotCompleted? then UnlinkHintTmp(id) else RenameHintTmp(id), d, |old(trail)|, m, m);
    }

    /** Creates <id>.hint.tmp and writes `buf` to it, one byte after the other. */
    method FillHintTmp(id: nat, buf: Bytes, ghost m: Store, ghost from: nat)
      requires History()
      requires HoldsAt(disk.segs, disk.hints, activeId, low, m) && CrashSafe(trail, from, m, m)
      modifies this`disk, this`trail
      ensures History()
      ensures disk == old(disk).(hintTmp := old(disk).hintTmp[id := buf])
      ensures old(trail) <= trail && CrashSafe(trail, from, m, m)
    {
      hide Chronicle, HoldsAt, Holds, CrashSafe;
      HoldsTop(disk, activeId, low, m);
      for i := -1 to |buf|
        invariant History()
        invariant if i < 0 then disk == old(disk) else disk == old(disk).(hintTmp := old(disk).hintTmp[id := buf[..i]])
        invariant old(trail) <= trail && CrashSafe(trail, from, m, m)
      {
        var now := if i < 0 then [] else disk.hintTmp[id] + [buf[i]];
        assert now == buf[..i + 1];
        var d := disk.(hintTmp := disk.hintTmp[id := now]);
        HoldsHere(d, activeId, low, m);
        Step(if i < 0 then CreateHintTmp(id) else WriteHintTmp(id, buf[i]), d, from, m, m);
      }
      assert buf[..|buf|] == buf;
    }

    /** seal_active_segment: the hint list is forgotten whether or not it could be written. */
    method Seal(ho: HintOutcome)
      requires History()
      requires Mirrors(disk, activeId, low, keydir, activeHints)
      modifies this`disk, this`trail, this`activeHints
      ensures History()
      ensures disk.segs == old(disk).segs && disk.compactTmp == old(disk).compactTmp
      ensures old(disk).hintTmp == map[] ==> disk.hintTmp == map[]
      ensures Hinted(old(disk).hints, disk.hints, activeId, old(activeHints), ho)
      ensures Tidy(disk, activeId, low) && activeHints == []
      ensures old(trail) <= trail && CrashSafe(trail, |old(trail)|, old(Contents()), old(Contents()))
    {
      hide Chronicle, HoldsAt, Holds, Scan, HintsOf, DirMap, EncodeHints, Clean;
      HoldsTop(disk, activeId, low, Contents());
      WriteHintFile(activeId, activeHints, ho, Contents());
      activeHints := [];
    }

    method MaybeRoll(ho: HintOutcome)
      requires Running()
      modifies this`disk, this`trail, this`fds, this`activeId, this`activeOffset, this`activeHints
      ensures Running() && Contents() == old(Contents())
      ensures old(trail) <= trail && CrashSafe(trail, |old(trail)|, Contents(), Contents())
      ensures old(activeOffset) < threshold ==> disk == old(disk) && activeOffset == old(activeOffset)
      ensures old(activeOffset) >= threshold ==> activeOffset == 0 && disk.segs == old(disk).segs[activeId := []]
      ensures Rolled(old(activeOffset) >= threshold, old(activeId), activeId, old(disk).hints, disk.hints,
                     old(activeHints), ho)
    {
      hide Chronicle, HoldsAt, Holds, Scan, HintsOf, DirMap, DirIndex, Clean, EncodeHints;
      if activeOffset >= threshold {
        ghost var m := Contents();
        Seal(ho);
        RollMirrors(disk, activeId, low, keydir);
        HoldsTop(disk, activeId, low, m);
        OpenNewActive(activeId + 1);
        HoldsHere(disk, activeId, low, m);
      }
    }

    // ---------- Operations ----------

    /** write_record at the end of the active segment, one byte after the other. */
    method Append(e: Entry) returns (ok: bool)
      requires History()
      requires Fits(e) && !e.Base?
      requires Mirrors(disk, activeId, low, keydir, activeHints) && activeOffset == |disk.segs[activeId]|
      modifies this`disk, this`activeOffset, this`trail
      ensures History()
      ensures ok == (old(activeOffset) + RecLen(e) <= MAX_FILE)
      ensures !ok ==> disk == old(disk) && activeOffset == old(activeOffset) && trail == old(trail)
      ensures ok ==> disk == old(disk).(segs := old(disk).segs[activeId := old(disk).segs[activeId] + Encode(e)])
      ensures ok ==> activeOffset == |disk.segs[activeId]|
      ensures old(trail) <= trail
      ensures CrashSafe(trail, |old(trail)|, old(Contents()), ReplayEntry(e, old(Contents())))
    {
      hide Chronicle, Encode, HoldsAt, Scan, DirMap, Holds, RecLen, ReplayEntry, CrashSafe;
      ghost var d0, s0, m := disk, disk.segs[activeId], Contents();
      CrashSafeEmpty(trail, m, ReplayEntry(e, m));
      if activeOffset + RecLen(e) > MAX_FILE {
        return false;
      }
      var rec := Encode(e);
      HoldsTop(d0, activeId, low, m);
      assert s0 + rec[..0] == s0;
      assert d0.segs[activeId := s0] == d0.segs;
      for i := 0 to |rec|
        invariant History()
        invariant disk == d0.(segs := d0.segs[activeId := s0 + rec[..i]]) && activeOffset == old(activeOffset)
        invariant old(trail) <= trail && CrashSafe(trail, |old(trail)|, m, ReplayEntry(e, m))
      {
        var s := disk.segs[activeId] + [rec[i]];
        assert s == s0 + rec[..i + 1];
        var d := disk.(segs := disk.segs[activeId := s]);
        assert d == d0.(segs := d0.segs[activeId := s]);
        if i + 1 < |rec| {
          AppendTorn(d0, e, i + 1, activeId, low, m);
          HoldsHere(d, activeId, low, m);
        } else {
          assert rec[..i + 1] == rec;
          AppendMirrors(d0, e, activeId, low, keydir, activeHints);
        }
        Step(WriteSegment(activeId, rec[i]), d, |old(trail)|, m, ReplayEntry(e, m));
      }
      assert rec[..|rec|] == rec;
      assert disk.segs[activeId] == s0 + rec;
      activeOffset := activeOffset + |rec|;
      return true;
    }

    /** A record appended, indexed and listed: what put and del share. */
    method AppendIndexed(e: Entry) returns (ok: bool)
      requires History()
      requires Fits(e) && !e.Base?
      requires Mirrors(disk, activeId, low, keydir, activeHints) && activeOffset == |disk.segs[activeId]|
      modifies this`disk, this`activeOffset, this`trail, this`keydir, this`activeHints
      ensures History()
      ensures Mirrors(disk, activeId, low, keydir, activeHints) && activeOffset == |disk.segs[activeId]|
      ensures ok == (old(activeOffset) + RecLen(e) <= MAX_FILE)
      ensures ok ==> disk == old(disk).(segs := old(disk).segs[activeId := old(disk).segs[activeId] + Encode(e)])
      ensures !ok ==> disk == old(disk)
      ensures disk.segs.Keys == old(disk).segs.Keys
      ensures Contents() == if ok then ReplayEntry(e, old(Contents())) else old(Contents())
      ensures old(trail) <= trail && CrashSafe(trail, |old(trail)|, old(Contents()), Contents())
    {
      hide Chronicle, HoldsAt, Holds, DirMap, DirIndex, Scan, HintsOf, Encode, Mirrors, CrashSafe, RecLen, ReplayEntry,
        IndexEntry;
      MirrorFacts(disk, activeId, low, keydir, activeHints);
      ghost var d0, kd0, hs0, m := disk, keydir, activeHints, Contents();
      var off := activeOffset;
      ok := Append(e);
      if ok {
        AppendMirrors(d0, e, activeId, low, kd0, hs0);
        keydir := IndexEntry(activeId, off, e, keydir);
        activeHints := activeHints + [HintOf(e, off)];
      } else {
        CrashSafeEmpty(trail, m, m);
      }
    }

    /** What put and del share: the next segment if the active one is full, then the record. */
    method RollAndAppend(e: Entry, ho: HintOutcome) returns (ok: bool)
      requires Running() && Fits(e) && !e.Base?
      modifies this`disk, this`trail, this`fds, this`activeId, this`activeOffset, this`activeHints, this`keydir
      ensures Running()
      ensures ok == ((if old(activeOffset) >= threshold then 0 else old(activeOffset)) + RecLen(e) <= MAX_FILE)
      ensures Contents() == if ok then ReplayEntry(e, old(Contents())) else old(Contents())
      ensures ok ==> activeOffset == (if old(activeOffset) >= threshold then 0 else old(activeOffset)) + RecLen(e)
      ensures ok ==> Appended(old(activeOffset) >= threshold, old(activeId), activeId, old(disk).segs, disk.segs, e)
      ensures ok ==> Rolled(old(activeOffset) >= threshold, old(activeId), activeId, old(disk).hints, disk.hints,
                            old(activeHints), ho)
      ensures ok ==> fds == old(fds) + {activeId}
      ensures old(trail) <= trail && CrashSafe(trail, |old(trail)|, old(Contents()), Contents())
    {
      hide Chronicle, HoldsAt, Holds, DirMap, DirIndex, Scan, HintsOf, Mirrors, CrashSafe, Hinted, Encode, RecLen,
        ReplayEntry, Appended;
      ghost var m := Contents();
      MirrorFacts(disk, activeId, low, keydir, activeHints);
      MaybeRoll(ho);
      ghost var mid := trail;
      AppendedNow(old(activeOffset) >= threshold, old(activeId), activeId, old(disk).segs, disk.segs, e);
      ok := AppendIndexed(e);
      CrashSafeChain(old(trail), mid, trail, m, Contents());
    }

    method Put(key: Bytes, value: Bytes, now: u64, ho: HintOutcome) returns (ok: bool)
      requires Valid()
      modifies this, cache
      ensures Valid()
      ensures ok <==> |key| < U32_LIMIT && |value| < COMPACTION_BASE
                      && (if old(activeOffset) >= threshold then 0 else old(activeOffset))
                         + HEADER_SIZE + |key| + |value| <= MAX_FILE
      ensures Contents() == if ok then old(Contents())[key := value] else old(Contents())
      ensures ok ==>
                activeOffset == (if old(activeOffset) >= threshold then 0 else old(activeOffset))
                                + HEADER_SIZE + |key| + |value|
      ensures ok ==> Rolled(old(activeOffset) >= threshold, old(activeId), activeId, old(disk).hints, disk.hints,
                            old(activeHints), ho)
      ensures ok ==> Appended(old(activeOffset) >= threshold, old(activeId), activeId, old(disk).segs, disk.segs,
                              Entry.Put(now, key, value))
      ensures ok ==> fds == old(fds) + {activeId}
      ensures old(trail) <= trail && CrashSafe(trail, |old(trail)|, old(Contents()), Contents())
    {
      hide HoldsAt, Holds, DirMap, CrashSafe, Agrees, Others, Rolled, Running, Encode, Appended;
      ghost var m := Contents();
      CrashSafeEmpty(trail, m, m);
      if |key| >= U32_LIMIT || |value| >= COMPACTION_BASE {
        return false;
      }
      ok := RollAndAppend(Entry.Put(now, key, value), ho);
      if ok {
        ghost var items0 := cache.items;
        cache.Put(key, value);
        ghost var id :| cache.items == Take([Node(id, key, value)] + Others(items0, key), cache.capacity);
        AgreesPut(items0, m, Node(id, key, value), cache.capacity);
      }
    }

    method Get(key: Bytes) returns (r: Option<Bytes>)
      requires Valid()
      modifies cache
      ensures Valid() && Contents() == old(Contents())
      ensures r == if key in Contents() then Some(Contents()[key]) else None
    {
      hide DirMap, Agrees, Others, Running;
      ghost var m, items0 := Contents(), cache.items;
      var cached := cache.Get(key);
      if cached.Hit? {
        ghost var n :| n in items0 && n.key == key && n.value == cached.value
          && cache.items == [n] + Others(items0, key);
        AgreesHit(items0, m, n);
        return Some(cached.value);
      }
      r := ReadThrough(key);
    }

    /** What the index says of a key. */
    lemma IndexReads(key: Bytes)
      requires Running()
      ensures key in keydir <==> key in Contents()
      ensures key in keydir ==>
                && key in Contents() && |key| < U32_LIMIT
                && var e, value := keydir[key], Contents()[key];
                && e.size == |value| && e.seg in disk.segs && e.pos + e.size <= |disk.segs[e.seg]|
                && disk.segs[e.seg][e.pos..e.pos + e.size] == value
    {
      hide Chronicle, DirMap, Mirrors;
      MirrorReads(disk, activeId, low, keydir, activeHints, key);
    }

    /** The miss path of get: index, then segment file, then cache. */
    method ReadThrough(key: Bytes) returns (r: Option<Bytes>)
      requires Valid()
      modifies cache
      ensures Valid() && Contents() == old(Contents())
      ensures r == if key in Contents() then Some(Contents()[key]) else None
    {
      hide DirMap, Agrees, Others, Running, Cache.Valid, Take;
      ghost var m, items0 := Contents(), cache.items;
      IndexReads(key);
      if key !in keydir {
        return None;
      }
      var e := keydir[key];
      if e.size == 0 {
        return Some([]);
      }
      var value := disk.segs[e.seg][e.pos..e.pos + e.size];
      cache.Put(key, value);
      ghost var id :| cache.items == Take([Node(id, key, value)] + Others(items0, key), cache.capacity);
      AgreesPut(items0, m, Node(id, key, value), cache.capacity);
      SamePut(m, key, value);
      return Some(value);
    }

    method Del(key: Bytes, now: u64, ho: HintOutcome) returns (ok: bool)
      requires Valid()
      modifies this, cache
      ensures Valid()
      ensures ok <==> key in old(Contents())
                      && (if old(activeOffset) >= threshold then 0 else old(activeOffset))
                         + HEADER_SIZE + |key| <= MAX_FILE
      ensures Contents() == if ok then old(Contents()) - {key} else old(Contents())
      ensures ok ==>
                activeOffset == (if old(activeOffset) >= threshold then 0 else old(activeOffset)) + HEADER_SIZE + |key|
      ensures ok ==> Rolled(old(activeOffset) >= threshold, old(activeId), activeId, old(disk).hints, disk.hints,
                            old(activeHints), ho)
      ensures ok ==> Appended(old(activeOffset) >= threshold, old(activeId), activeId, old(disk).segs, disk.segs,
                              Entry.Del(now, key))
      ensures ok ==> fds == old(fds) + {activeId}
      ensures old(trail) <= trail && CrashSafe(trail, |old(trail)|, old(Contents()), Contents())
    {
      hide HoldsAt, Holds, DirMap, DirIndex, CrashSafe, Agrees, Others, Rolled, Encode, Running, Appended;
      ghost var m := Contents();
      CrashSafeEmpty(trail, m, m);
      IndexReads(key);
      if key !in keydir {
        return false;
      }
      ok := RollAndAppend(Entry.Del(now, key), ho);
      if ok {
        AgreesErase(cache.items, m, key);
        cache.Erase(key);
      }
    }

    // ---------- Compaction ----------

    /** Appends `bytes` to the compaction's temporary file, one byte after the other. */
    method FillCompactTmp(out: nat, bytes: Bytes, ghost m: Store, ghost from: nat)
      requires History()
      requires Holds(disk, m) && out in disk.compactTmp && CrashSafe(trail, from, m, m)
      modifies this`disk, this`trail
      ensures History()
      ensures disk == old(disk).(compactTmp := old(disk).compactTmp[out := old(disk).compactTmp[out] + bytes])
      ensures old(trail) <= trail && CrashSafe(trail, from, m, m)
    {
      hide Chronicle, HoldsAt, Holds, CrashSafe;
      ghost var d0, s0 := disk, disk.compactTmp[out];
      assert s0 + bytes[..0] == s0;
      assert d0.compactTmp[out := s0] == d0.compactTmp;
      for i := 0 to |bytes|
        invariant History()
        invariant disk == d0.(compactTmp := d0.compactTmp[out := s0 + bytes[..i]])
        invariant old(trail) <= trail && CrashSafe(trail, from, m, m)
      {
        var s := disk.compactTmp[out] + [bytes[i]];
        assert s == s0 + bytes[..i + 1];
        HoldsFrame(d0, disk.(compactTmp := disk.compactTmp[out := s]), m);
        Step(WriteCompactTmp(out, bytes[i]), disk.(compactTmp := disk.compactTmp[out := s]), from, m, m);
      }
      assert bytes[..|bytes|] == bytes;
    }

    /** Reads the record of a live key and verifies it; nothing if it does not verify. */
    method ReadVerified(key: Bytes, ghost m: Store) returns (rec: Bytes)
      requires key in keydir && key in m && keydir[key].seg in disk.segs
      requires RecordAt(disk.segs[keydir[key].seg], keydir[key], key, m[key])
      ensures Fits(ItemEntry(key, keydir, m)) && rec == Encode(ItemEntry(key, keydir, m))
    {
      hide Encode, Verified;
      var e := keydir[key];
      var s := disk.segs[e.seg];
      var start := e.pos - |key| - HEADER_SIZE;
      rec := s[start..e.pos + e.size];
      RecordValue(s, e, key, m[key]);
      assert rec[HEADER_SIZE + |key|..] == m[key];
      VerifiedMeaning(rec, key, e);
      rec := if Verified(rec, key, e) then rec else [];
    }

    /** Verifies and copies one live record to the temporary file, unless that fails. */
    method CopyOne(out: nat, key: Bytes, fails: bool, hints: seq<Hint>, ghost es: seq<Entry>, ghost m: Store,
                   ghost from: nat)
      returns (ok: bool, more: seq<Hint>)
      requires History() && CrashSafe(trail, from, m, m) && Holds(disk, m)
      requires AllFit(es) && TotalLen(es) <= MAX_FILE && hints == HintsOf(es)
      requires out in disk.compactTmp && disk.compactTmp[out] == EncodeAll(es)
      requires key in keydir && key in m && keydir[key].seg in disk.segs && Fits(ItemEntry(key, keydir, m))
      requires RecordAt(disk.segs[keydir[key].seg], keydir[key], key, m[key])
      modifies this`disk, this`trail
      ensures History() && old(trail) <= trail && CrashSafe(trail, from, m, m)
      ensures var es' := es + [ItemEntry(key, keydir, m)];
              && AllFit(es') && ok == (!fails && TotalLen(es') <= MAX_FILE)
              && disk == (if ok then old(disk).(compactTmp := old(disk).compactTmp[out := EncodeAll(es')])
                          else old(disk))
              && more == (if ok then HintsOf(es') else hints)
    {
      hide Chronicle, Holds, CrashSafe, EncodeAll, Encode, HintsOf, TotalLen, RecordAt;
      ghost var e := ItemEntry(key, keydir, m);
      EntryGrows(es, e);
      TotalOf(es);
      var rec := ReadVerified(key, m);
      RecordLength(e);
      more := hints;
      ok := !(rec == [] || fails || |disk.compactTmp[out]| + |rec| > MAX_FILE);
      if ok {
        var loc := keydir[key];
        RecordSize(disk.segs[loc.seg], loc, key, m[key]);
        more := hints + [Hint(key, |disk.compactTmp[out]| + HEADER_SIZE + |key|, loc.size, loc.ts)];
        FillCompactTmp(out, rec, m, from);
      }
    }

    /** Creates <out>.seg.compact.tmp and writes the marker to it. */
    method StartMerged(out: nat, now: u64, ghost kd: KeyDir, ghost m: Store, ghost from: nat)
      requires History() && Holds(disk, m) && CrashSafe(trail, from, m, m)
      modifies this`disk, this`trail
      ensures History()
      ensures IsMerged([Base(now)], now, [], kd, m) && AllFit([Base(now)]) && TotalLen([Base(now)]) == HEADER_SIZE
      ensures HintsOf([Base(now)]) == []
      ensures disk == old(disk).(compactTmp := old(disk).compactTmp[out := EncodeAll([Base(now)])])
      ensures old(trail) < trail && CrashSafe(trail, from, m, m)
    {
      hide Chronicle, Holds, Encode, EncodeAll, HintsOf, CrashSafe, IsMerged, TotalLen;
      HoldsFrame(disk, disk.(compactTmp := disk.compactTmp[out := []]), m);
      Step(CreateCompactTmp(out), disk.(compactTmp := disk.compactTmp[out := []]), from, m, m);
      MarkerOnly(now, kd, m);
      FillCompactTmp(out, Encode(Base(now)), m, from);
    }

    /** Copies the chosen records after the marker, each verified before, up to the first that fails. */
    method CopyAll(out: nat, items: seq<Bytes>, now: u64, fault: nat -> bool, ghost all: seq<Entry>, ghost m: Store,
                   ghost from: nat)
      returns (ok: bool, newHints: seq<Hint>)
      requires History() && Holds(disk, m) && CrashSafe(trail, from, m, m)
      requires forall i :: 0 <= i < |items| ==> Copyable(disk.segs, items[i], keydir, m)
      requires IsMerged(all, now, items, keydir, m) && IsMerged([Base(now)], now, [], keydir, m)
      requires AllFit([Base(now)]) && TotalLen([Base(now)]) == HEADER_SIZE && HintsOf([Base(now)]) == []
      requires out in disk.compactTmp && disk.compactTmp[out] == EncodeAll([Base(now)])
      modifies this`disk, this`trail
      ensures History()
      ensures ok == ((forall i: nat :: 2 <= i < |items| + 2 ==> !fault(i)) && TotalLen(all) <= MAX_FILE)
      ensures ok ==> newHints == HintsOf(all)
      ensures disk == old(disk).(compactTmp := disk.compactTmp)
      ensures out in disk.compactTmp && disk.compactTmp - {out} == old(disk).compactTmp - {out}
      ensures ok ==> disk.compactTmp == old(disk).compactTmp[out := EncodeAll(all)]
      ensures old(trail) <= trail && CrashSafe(trail, from, m, m)
    {
      hide Chronicle, Holds, Encode, EncodeAll, HintsOf, CrashSafe, IsMerged, RecordAt, TotalLen, RecLen, Merged,
        Copyable, ItemEntry;
      ghost var kd, d0 := keydir, disk;
      ghost var es := [Base(now)];
      newHints := [];
      ok := true;
      var i := 0;
      assert items[..0] == [];
      while i < |items| && ok
        invariant History()
        invariant 0 <= i <= |items| && IsMerged(es, now, items[..i], kd, m) && AllFit(es)
        invariant disk == d0.(compactTmp := d0.compactTmp[out := EncodeAll(es)])
        invariant TotalLen(es) <= MAX_FILE && newHints == HintsOf(es)
        invariant forall f: nat :: 2 <= f < i + 2 ==> !fault(f)
        invariant ok || (exists f: nat :: 2 <= f < |items| + 2 && fault(f)) || TotalLen(all) > MAX_FILE
        invariant old(trail) <= trail && CrashSafe(trail, from, m, m)
        decreases |items| - i, ok
      {
        CopyableFacts(disk.segs, items[i], kd, m);
        ghost var e := ItemEntry(items[i], kd, m);
        MergedGrows(es, now, items, i, kd, m);
        HoldsFrame(d0, disk, m);
        ok, newHints := CopyOne(out, items[i], fault(i + 2), newHints, es, m, from);
        MergedPrefix(es + [e], all, now, items, i + 1, kd, m);
        if ok {
          es := es + [e];
          i := i + 1;
        }
      }
      if ok {
        assert items[..|items|] == items;
        IsMergedUnique(es, all, now, items, kd, m);
      }
    }

    /** Writes <out>.seg.compact.tmp: the marker, then every chosen record, each verified before it is
        copied. `fault(i)` says whether the i-th file operation fails; on a failure, a record that
        does not verify or a file grown too long, the temporary file is removed and nothing changed. */
    method BuildMerged(out: nat, items: seq<Bytes>, now: u64, fault: nat -> bool, ghost all: seq<Entry>, ghost m: Store)
      returns (ok: bool, newHints: seq<Hint>)
      requires History()
      requires Chosen(disk, activeId, low, keydir, activeHints, out, items)
      requires m == Contents() && IsMerged(all, now, items, keydir, m) && out !in disk.compactTmp
      modifies this`disk, this`trail
      ensures History()
      ensures ok == SwapReached(fault, |items|, all)
      ensures ok ==> newHints == HintsOf(all)
      ensures disk == if ok then old(disk).(compactTmp := old(disk).compactTmp[out := EncodeAll(all)]) else old(disk)
      ensures ok ==> Passed(trail, |old(trail)|, disk)
      ensures old(trail) <= trail && CrashSafe(trail, |old(trail)|, m, m)
    {
      hide Chronicle, HoldsAt, Holds, DirMap, DirIndex, Mirrors, Scan, Encode, EncodeAll, HintsOf, CrashSafe, IsMerged,
        RecordAt, TotalLen, RecLen, Merged, Chosen, ItemEntry, SwapReached;
      ghost var d0, from := disk, |trail|;
      ChosenCopyable(disk, activeId, low, keydir, activeHints, out, items, now);
      CrashSafeEmpty(trail, m, m);
      ReachedSplit(fault, |items|, all);
      newHints := [];
      if fault(0) {
        return false, [];
      }
      StartMerged(out, now, keydir, m, from);
      HoldsFrame(d0, disk, m);
      ok := !fault(1);
      if ok {
        ok, newHints := CopyAll(out, items, now, fault, all, m, from);
      }
      if !ok || fault(|items| + 2) {
        ok := false;
        HoldsFrame(d0, disk.(compactTmp := disk.compactTmp - {out}), m);
        Step(UnlinkCompactTmp(out), disk.(compactTmp := disk.compactTmp - {out}), from, m, m);
        assert disk.compactTmp == d0.compactTmp;
      } else {
        ChroniclePassed(start, trail, disk, from);
      }
    }

    /** keydir_[h.key] = ... for every hint of the merged segment. */
    method Relocate(out: nat, newHints: seq<Hint>, ghost es: seq<Entry>)
      requires AllFit(es) && TotalLen(es) < U64_LIMIT && newHints == HintsOf(es)
      modifies this`keydir
      ensures keydir == Index(out, es, old(keydir))
    {
      hide HintsOf, Index, IndexHint;
      for i := 0 to |newHints|
        invariant keydir == IndexHints(out, newHints[..i], old(keydir))
      {
        assert newHints[..i + 1][..i] == newHints[..i];
        keydir := IndexHint(out, newHints[i], keydir);
      }
      assert newHints[..|newHints|] == newHints;
      HintsIndex(out, es, old(keydir));
    }

    /** Deletes the segments that the merged one replaces. */
    method DeleteMerged(sealed: seq<nat>, out: nat, ghost m: Store, ghost from: nat)
      requires History()
      requires HoldsAt(disk.segs, disk.hints, activeId, out, m) && out < activeId
      requires (forall id :: id in sealed ==> id <= out)
               && (forall id :: id in disk.segs <==> id in sealed || id == activeId) && out in sealed
      requires CrashSafe(trail, from, m, m)
      modifies this`disk, this`trail
      ensures History()
      ensures HoldsAt(disk.segs, disk.hints, activeId, out, m)
      ensures disk.segs.Keys == {out, activeId} && disk.segs[out] == old(disk).segs[out]
      ensures disk.segs[activeId] == old(disk).segs[activeId]
      ensures disk.compactTmp == old(disk).compactTmp && disk.hintTmp == old(disk).hintTmp
      ensures out !in old(disk).hints ==> out !in disk.hints
      ensures old(trail) <= trail && CrashSafe(trail, from, m, m)
    {
      hide Chronicle, HoldsAt, CrashSafe;
      for i := 0 to |sealed|
        invariant History()
        invariant HoldsAt(disk.segs, disk.hints, activeId, out, m)
        invariant out in disk.segs && activeId in disk.segs
        invariant forall id :: id in disk.segs ==> id in sealed[i..] || id == out || id == activeId
        invariant disk.segs[out] == old(disk).segs[out] && disk.segs[activeId] == old(disk).segs[activeId]
        invariant disk.compactTmp == old(disk).compactTmp && disk.hintTmp == old(disk).hintTmp
        invariant out !in old(disk).hints ==> out !in disk.hints
        invariant old(trail) <= trail && CrashSafe(trail, from, m, m)
      {
        assert sealed[i..] == [sealed[i]] + sealed[i + 1..];
        assert sealed[i] in sealed;
        if sealed[i] != out {
          DeleteStale(sealed[i], activeId, out, m, from);
        }
      }
      assert sealed[|sealed|..] == [];
    }

    /** From the finished temporary file to the end of the compaction. */
    method Publish(sealed: seq<nat>, out: nat, newHints: seq<Hint>, renameFails: bool, ho: HintOutcome,
                   ghost es: seq<Entry>, ghost m: Store)
      returns (ok: bool)
      requires History()
      requires AllFit(es) && TotalLen(es) <= MAX_FILE && newHints == HintsOf(es)
      requires out in disk.compactTmp && disk.compactTmp[out] == EncodeAll(es)
      requires fds == disk.segs.Keys && activeId in fds && forall id :: id in sealed <==> id in fds && id != activeId
      requires Committable(disk, activeId, low, keydir, activeHints, out, es, m)
      modifies this`disk, this`trail, this`fds, this`keydir, this`low
      ensures History()
      ensures Mirrors(disk, activeId, low, keydir, activeHints) && fds == disk.segs.Keys && activeId in fds
      ensures Contents() == m && disk.segs[activeId] == old(disk).segs[activeId]
      ensures ok == !renameFails
      ensures ok ==> fds == {out, activeId} && disk.segs[out] == EncodeAll(es) && keydir == Index(out, es, old(keydir))
      ensures ok ==> disk.compactTmp == old(disk).compactTmp - {out}
      ensures ok ==> disk.hintTmp == old(disk).hintTmp || disk.hintTmp == old(disk).hintTmp - {out}
      ensures ok ==> Rehinted(disk.hints, out, es, ho)
      ensures !ok ==> keydir == old(keydir) && fds == old(fds)
      ensures !ok ==> disk == old(disk).(compactTmp := old(disk).compactTmp - {out}, hints := old(disk).hints - {out})
      ensures old(trail) < trail && CrashSafe(trail, |old(trail)|, m, m)
    {
      hide Chronicle, HoldsAt, Holds, DirMap, DirIndex, Mirrors, CrashSafe, EncodeAll, HintsOf, TotalLen, Scan, Index,
        Clean, Committable;
      ghost var d0, from := disk, |trail|;
      CommittableFacts(disk, activeId, low, keydir, activeHints, out, es, m);
      MirrorFacts(disk, activeId, low, keydir, activeHints);
      CrashSafeEmpty(trail, m, m);
      var d1 := disk.(hints := disk.hints - {out});
      HoldsHere(d1, activeId, low, m);
      Step(UnlinkHint(out), d1, from, m, m);
      if renameFails {
        var d := disk.(compactTmp := disk.compactTmp - {out});
        HoldsHere(d, activeId, low, m);
        Step(UnlinkCompactTmp(out), d, from, m, m);
        MirrorsFrame(d0, disk, activeId, low, keydir, activeHints);
        return false;
      }
      var d2 := disk.(segs := disk.segs[out := disk.compactTmp[out]], compactTmp := disk.compactTmp - {out});
      HoldsHere(d2, activeId, out, m);
      Step(RenameCompactTmp(out), d2, from, m, m);
      CleanUp(sealed, out, newHints, ho, es, m, from);
      return true;
    }

    /** After the commit: the in-memory state is switched, superseded segments go, the new hint is written. */
    method CleanUp(sealed: seq<nat>, out: nat, newHints: seq<Hint>, ho: HintOutcome,
                   ghost es: seq<Entry>, ghost m: Store, ghost from: nat)
      requires History() && CrashSafe(trail, from, m, m)
      requires Swapped(disk, activeId, out, es, keydir, activeHints, m) && newHints == HintsOf(es)
      requires out in sealed && (forall id :: id in disk.segs <==> id in sealed || id == activeId)
      requires forall id :: id in sealed ==> id <= out
      modifies this`disk, this`trail, this`fds, this`keydir, this`low
      ensures History()
      ensures Mirrors(disk, activeId, low, keydir, activeHints) && Contents() == m
      ensures fds == {out, activeId} == disk.segs.Keys && keydir == Index(out, es, old(keydir))
      ensures disk.segs[activeId] == old(disk).segs[activeId] && disk.segs[out] == EncodeAll(es)
      ensures disk.compactTmp == old(disk).compactTmp
      ensures disk.hintTmp == old(disk).hintTmp || disk.hintTmp == old(disk).hintTmp - {out}
      ensures Rehinted(disk.hints, out, es, ho)
      ensures old(trail) <= trail && CrashSafe(trail, from, m, m)
    {
      hide Chronicle, HoldsAt, Holds, DirMap, DirIndex, Mirrors, CrashSafe, EncodeAll, HintsOf, TotalLen, Scan, Index,
        Clean, Rehinted;
      fds := {out, activeId};
      low := out;
      Relocate(out, newHints, es);
      DeleteMerged(sealed, out, m, from);
      CompactedMirrors(disk, activeId, out, keydir, activeHints, es, m);
      FinishHint(out, newHints, ho, es, m, from);
    }

    method FinishHint(out: nat, newHints: seq<Hint>, ho: HintOutcome, ghost es: seq<Entry>, ghost m: Store,
                      ghost from: nat)
      requires History()
      requires Mirrors(disk, activeId, low, keydir, activeHints) && m == Contents()
      requires out in disk.segs && Scan(disk.segs[out]) == es && TotalLen(es) <= MAX_FILE && newHints == HintsOf(es)
      requires CrashSafe(trail, from, m, m) && forall other :: other in disk.segs ==> other <= out || other == activeId
      modifies this`disk, this`trail
      ensures History()
      ensures Mirrors(disk, activeId, low, keydir, activeHints) && disk.segs == old(disk).segs
      ensures disk.compactTmp == old(disk).compactTmp
      ensures disk.hintTmp == old(disk).hintTmp || disk.hintTmp == old(disk).hintTmp - {out}
      ensures out !in old(disk).hints ==> Rehinted(disk.hints, out, es, ho)
      ensures old(trail) <= trail && CrashSafe(trail, from, m, m)
    {
      hide Chronicle, HoldsAt, Holds, DirMap, DirIndex, Mirrors, CrashSafe, HintsOf, TotalLen, Scan, EncodeHints;
      MirrorFacts(disk, activeId, low, keydir, activeHints);
      if newHints != [] {
        ghost var d3, mid := disk, trail;
        WriteHintFile(out, newHints, ho, m);
        MirrorsFrame(d3, disk, activeId, low, keydir, activeHints);
        CrashSafeExtend(mid, trail, from, m);
      }
    }

    /** The merge itself, once its records are chosen. */
    method MergeSealed(sealed: seq<nat>, out: nat, items: seq<Bytes>, now: u64, fault: nat -> bool, ho: HintOutcome,
                       ghost es: seq<Entry>, ghost m: Store)
      returns (ok: bool)
      requires Running() && m == Contents()
      requires Chosen(disk, activeId, low, keydir, activeHints, out, items) && IsMerged(es, now, items, keydir, m)
      requires forall id :: id in sealed <==> id in fds && id != activeId
      modifies this`disk, this`trail, this`fds, this`keydir, this`low
      ensures Running() && Contents() == m && disk.segs[activeId] == old(disk).segs[activeId]
      ensures ok == (SwapReached(fault, |items|, es) && !fault(|items| + 3))
      ensures AllFit(es)
      ensures ok ==>
                && fds == {out, activeId} && out in disk.segs && disk.segs[out] == EncodeAll(es)
                && keydir == Index(out, es, old(keydir))
                && Rehinted(disk.hints, out, es, ho)
      ensures !ok ==> keydir == old(keydir) && fds == old(fds)
      ensures !ok ==> disk == if SwapReached(fault, |items|, es)
                              then old(disk).(hints := old(disk).hints - {out}) else old(disk)
      ensures ok ==> Passed(trail, |old(trail)|, disk)
      ensures SwapReached(fault, |items|, es) ==> Prepared(trail, |old(trail)|, old(disk), out, es)
      ensures old(trail) <= trail && CrashSafe(trail, |old(trail)|, m, m)
    {
      hide Chronicle, HoldsAt, Holds, DirMap, DirIndex, Mirrors, CrashSafe, Merged, EncodeAll, HintsOf, TotalLen, Scan,
        Index, Committable, Rehinted, SwapReached, LogOrder, SealedKeys, Passed, Prepared;
      MirrorFacts(disk, activeId, low, keydir, activeHints);
      ghost var d0 := disk;
      var newHints;
      ok, newHints := BuildMerged(out, items, now, fault, es, m);
      MirrorsFrame(d0, disk, activeId, low, keydir, activeHints);
      ReachedSplit(fault, |items|, es);
      if ok {
        ghost var mid := trail;
        BuiltIsPrepared(trail, |old(trail)|, d0, disk, out, es);
        CommitHolds(d0, activeId, low, keydir, activeHints, out, items, now, es, m);
        CommittableFrame(d0, disk, activeId, low, keydir, activeHints, out, es, m);
        ok := Publish(sealed, out, newHints, fault(|items| + 3), ho, es, m);
        CrashSafeChain(old(trail), mid, trail, m, m);
        StillPrepared(mid, trail, |old(trail)|, d0, out, es);
        ChroniclePassed(start, trail, disk, |old(trail)|);
      }
    }

    /** compact_locked. Whatever fails and whenever the process dies, the mapping stays. It succeeds
        exactly when no file operation up to the rename fails; it then leaves the marker and each live
        sealed record, once, in log order. When it fails before the rename it has changed nothing at
        all; when the rename fails, nothing but the hint of the target, which is gone. The finished
        merged file in its temporary place and the final state are states that a death can leave. */
    method Compact(now: u64, fault: nat -> bool, ho: HintOutcome)
      returns (ok: bool, ghost items: seq<Bytes>, ghost es: seq<Entry>)
      requires Valid()
      modifies this`disk, this`trail, this`fds, this`keydir, this`low
      ensures Valid() && Contents() == old(Contents())
      ensures disk.segs[activeId] == old(disk).segs[activeId]
      ensures LogOrder(items, old(keydir)) && SealedKeys(items, old(keydir), activeId)
      ensures AllFit(es) && IsMerged(es, now, items, old(keydir), Contents())
      ensures ok == (old(fds) == {activeId} || (SwapReached(fault, |items|, es) && !fault(|items| + 3)))
      ensures old(fds) == {activeId} ==> disk == old(disk) && keydir == old(keydir) && fds == old(fds)
      ensures old(fds) != {activeId} ==> old(Target()) in old(fds) && old(Target()) < activeId
      ensures ok && old(fds) != {activeId} ==>
                var out := old(Target());
                && fds == {out, activeId} && out in disk.segs && disk.segs[out] == EncodeAll(es)
                && keydir == Index(out, es, old(keydir))
                && Rehinted(disk.hints, out, es, ho)
      ensures !ok ==> keydir == old(keydir) && fds == old(fds)
      ensures !ok ==> disk == if SwapReached(fault, |items|, es)
                              then old(disk).(hints := old(disk).hints - {old(Target())}) else old(disk)
      ensures !ok ==> (disk == old(disk) <==> !SwapReached(fault, |items|, es) || old(Target()) !in old(disk).hints)
      ensures ok && old(fds) != {activeId} ==> Passed(trail, |old(trail)|, disk)
      ensures old(fds) != {activeId} && SwapReached(fault, |items|, es) ==>
                Prepared(trail, |old(trail)|, old(disk), old(Target()), es)
      ensures old(trail) <= trail && CrashSafe(trail, |old(trail)|, Contents(), Contents())
    {
      hide Chronicle, HoldsAt, Holds, DirMap, DirIndex, Mirrors, CrashSafe, Merged, EncodeAll, HintsOf, TotalLen,
        Agrees, Scan, Index, IsMerged, Committable, LogOrder, SealedKeys, Separate, Rehinted, SwapReached, Passed,
        Prepared;
      ghost var m := Contents();
      MirrorFacts(disk, activeId, low, keydir, activeHints);
      MirrorSeparate(disk, activeId, low, keydir, activeHints);
      CrashSafeEmpty(trail, m, m);
      var sealed := SortIds(fds - {activeId});
      if sealed == [] {
        AllActive(fds, activeId, sealed);
        OnlyActive(keydir, activeId, now, m);
        return true, [], [Base(now)];
      }
      var out := sealed[|sealed| - 1];
      assert out in sealed;
      NewestSealed(fds, activeId, sealed);
      var chosen := SortItems(keydir, activeId);
      items := chosen;
      es := ChooseMerged(disk, activeId, low, keydir, activeHints, out, chosen, now, m);
      ok := MergeSealed(sealed, out, chosen, now, fault, ho, es, m);
    }
  }
}
