/**
  Whole runs of the segmented engine: operations, clean restarts, and process
  deaths at any point of an operation followed by any number of startups that die
  as well. Every run behaves like the same run on a plain map.
*/
module EngineRuns {
  import opened Bytes
  import opened RecordFormat
  import opened Hints
  import opened Directory
  import opened Merge
  import opened Trails
  import opened SegmentedEngine

  datatype Op = PutOp(key: Bytes, value: Bytes) | DelOp(key: Bytes) | GetOp(key: Bytes) | CompactOp

  /** The world around an operation: the clock, the fate of a hint file, file operations that fail. */
  datatype World = World(now: u64, ho: HintOutcome, fault: nat -> bool)

  /** How the store is opened, and the fate of the hint file that this startup may write. */
  datatype Startup = Startup(threshold: nat, capacity: nat, ho: HintOutcome)

  /** A startup that dies in its disk state number `at`. */
  datatype Death = Death(how: Startup, at: nat)

  datatype Event =
    | Do(op: Op, w: World)
    | Reopen(how: Startup)
    /** The process dies in disk state number `at` of `op`; then every startup of `deaths` dies, one
        after the other; then one completes. */
    | Die(op: Op, w: World, at: nat, deaths: seq<Death>, how: Startup)

  datatype Outcome = Ack(ok: bool) | Value(value: Option<Bytes>) | Silent

  /** The operation on a plain map. */
  function Apply(op: Op, m: Store): Store {
    match op
    case PutOp(key, value) => m[key := value]
    case DelOp(key) => m - {key}
    case GetOp(_) => m
    case CompactOp => m
  }

  /** What is always refused. */
  predicate Barred(op: Op, m: Store) {
    match op
    case PutOp(key, value) => |key| >= U32_LIMIT || |value| >= COMPACTION_BASE
    case DelOp(key) => key !in m
    case GetOp(_) => false
    case CompactOp => false
  }

  /** The only reasons for a refusal: a barred operation, a file that would grow too long (segments are
      shorter than the threshold before a record is added), or a failing file operation of a compaction,
      which has no more than one for each key and four others. */
  ghost predicate Excused(op: Op, w: World, threshold: nat, m: Store) {
    || Barred(op, m)
    || match op
       case PutOp(key, value) => threshold + HEADER_SIZE + |key| + |value| > MAX_FILE
       case DelOp(key) => threshold + HEADER_SIZE + |key| > MAX_FILE
       case GetOp(_) => false
       case CompactOp => (exists i: nat :: i <= |m| + 3 && w.fault(i)) || HEADER_SIZE + StoreSize(m) > MAX_FILE
  }

  /** The answers of a plain map. A refused operation has an excuse and leaves it unchanged. */
  ghost predicate Answers(op: Op, w: World, threshold: nat, m: Store, out: Outcome, m': Store) {
    match op
    case GetOp(key) => m' == m && out == Value(if key in m then Some(m[key]) else None)
    case _ =>
      && out.Ack?
      && if out.ok then !Barred(op, m) && m' == Apply(op, m) else Excused(op, w, threshold, m) && m' == m
  }

  /** One event on a plain map: a death keeps everything completed, and the operation in flight
      is applied entirely or not at all. */
  ghost predicate ModelStep(ev: Event, threshold: nat, m: Store, out: Outcome, m': Store) {
    match ev
    case Do(op, w) => Answers(op, w, threshold, m, out, m')
    case Reopen(_) => out == Silent && m' == m
    case Die(op, _, _, _, _) => out == Silent && (m' == m || (!Barred(op, m) && m' == Apply(op, m)))
  }

  /** The segment size limit after the first i events: that of the latest completed startup. */
  function ThresholdAt(first: Startup, evs: seq<Event>, i: nat): nat
    requires i <= |evs|
  {
    if i == 0 then first.threshold
    else match evs[i - 1]
      case Do(_, _) => ThresholdAt(first, evs, i - 1)
      case Reopen(how) => how.threshold
      case Die(_, _, _, _, how) => how.threshold
  }

  /** A plain map that goes through `ms` answers the first events with `outs`. */
  ghost predicate Explains(first: Startup, evs: seq<Event>, outs: seq<Outcome>, ms: seq<Store>) {
    && |outs| <= |evs| && |ms| == |outs| + 1
    && forall i :: 0 <= i < |outs| ==> ModelStep(evs[i], ThresholdAt(first, evs, i), ms[i], outs[i], ms[i + 1])
  }

  method Perform(e: Engine, op: Op, w: World) returns (out: Outcome)
    requires e.Valid()
    modifies e, e.cache
    ensures e.Valid()
    ensures Answers(op, w, e.threshold, old(e.Contents()), out, e.Contents())
    ensures old(e.trail) <= e.trail
    ensures CrashSafe(e.trail, |old(e.trail)|, old(e.Contents()), e.Contents())
  {
    hide DirMap, Engine.Valid, Agrees, Holds, SwapReached, IsMerged, LogOrder, SealedKeys, Rolled, Rehinted, StoreSize,
      Appended;
    match op {
      case PutOp(key, value) =>
        var ok := e.Put(key, value, w.now, w.ho);
        out := Ack(ok);
      case DelOp(key) =>
        var ok := e.Del(key, w.now, w.ho);
        out := Ack(ok);
      case GetOp(key) =>
        var v := e.Get(key);
        out := Value(v);
      case CompactOp =>
        ghost var kd := e.keydir;
        var ok;
        ghost var items, es;
        ok, items, es := e.Compact(w.now, w.fault, w.ho);
        CompactExcuse(w, items, es, kd, e.Contents());
        out := Ack(ok);
    }
  }

  lemma CompactExcuse(w: World, items: seq<Bytes>, es: seq<Entry>, kd: KeyDir, m: Store)
    requires LogOrder(items, kd) && IsMerged(es, w.now, items, kd, m)
    ensures (SwapReached(w.fault, |items|, es) && !w.fault(|items| + 3))
            || (exists i: nat :: i <= |m| + 3 && w.fault(i)) || HEADER_SIZE + StoreSize(m) > MAX_FILE
  {
    hide Merged, StoreSize, TotalLen;
    MergedSize(w.now, items, kd, m);
    NoMoreItems(items, kd, m);
  }

  /** Different keys of a mapping are no more than it has. */
  lemma {:induction false} NoMoreItems(items: seq<Bytes>, kd: KeyDir, m: Store)
    requires LogOrder(items, kd) && forall i :: 0 <= i < |items| ==> items[i] in m
    ensures |items| <= |m|
    decreases |items|
  {
    if items != [] {
      var n := |items| - 1;
      NoMoreItems(items[..n], kd, m - {items[n]});
    }
  }

  /** The startups after a death: all but the last die too. */
  method Restart(d0: Disk, deaths: seq<Death>, how: Startup, ghost m: Store) returns (e: Engine)
    requires Holds(d0, m)
    ensures fresh(e) && fresh(e.cache) && e.Valid() && e.Contents() == m && e.threshold == how.threshold
    ensures SoundHints(d0) ==> SoundHints(e.start)
  {
    hide DirMap, Engine.Valid, Mirrors, Agrees, Holds, SoundHints;
    var d := d0;
    for i := 0 to |deaths|
      invariant Holds(d, m) && (SoundHints(d0) ==> SoundHints(d))
    {
      var death := deaths[i];
      var dying := new Engine(d, death.how.threshold, death.how.capacity, death.how.ho, m);
      SoundEverywhere(dying);
      if death.at < |dying.trail| {
        d := dying.trail[death.at];
      }
    }
    e := new Engine(d, how.threshold, how.capacity, how.ho, m);
  }

  /** An engine that found only sound hints never has another one on disk. */
  lemma SoundEverywhere(e: Engine)
    requires e.Valid()
    ensures SoundHints(e.start) ==> SoundHints(e.disk) && forall i :: 0 <= i < |e.trail| ==> SoundHints(e.trail[i])
  {
    hide DirMap, Mirrors, Agrees, Recorded, SoundHints;
  }

  /** Closing and opening a store. Below the new limit the same segment stays active at the same offset and the
      disk is as it was, hints and all; a segment that has reached the limit is sealed, with its complete hint
      if that can be written, and the next one opened. */
  method Reopened(e: Engine, how: Startup) returns (e': Engine)
    requires e.Valid()
    ensures fresh(e') && fresh(e'.cache) && e'.Valid() && e'.Contents() == e.Contents()
    ensures e'.threshold == how.threshold
    ensures e.activeOffset < how.threshold ==>
              && e'.disk == e.disk && e'.keydir == e.keydir
              && e'.activeId == e.activeId && e'.activeOffset == e.activeOffset
    ensures e.activeOffset >= how.threshold ==>
              && e'.activeId == e.activeId + 1 && e'.activeOffset == 0
              && e'.disk.segs == e.disk.segs[e.activeId + 1 := []]
              && Hinted(e.disk.hints, e'.disk.hints, e.activeId, e.activeHints, how.ho)
  {
    hide DirMap, Agrees, Holds, Started;
    ghost var m := e.Contents();
    ValidHolds(e);
    e' := new Engine(e.disk, how.threshold, how.capacity, how.ho, m);
    CleanStart(e.disk, e'.disk, m, e.activeId, e.low, e'.low, e.keydir, e.activeHints, how, e'.activeId,
               e'.activeOffset);
  }

  lemma CleanStart(d: Disk, d': Disk, m: Store, active: nat, lo: nat, lo': nat, kd: KeyDir, hints: seq<Hint>,
                   how: Startup, active': nat, offset': nat)
    requires Mirrors(d, active, lo, kd, hints) && m == DirMap(d.segs, d.segs.Keys)
    requires d.compactTmp == map[] && d.hintTmp == map[]
    requires Started(d, d', m, lo', how.threshold, active', offset', how.ho)
    ensures active in d.segs
    ensures |d.segs[active]| < how.threshold ==> d' == d && active' == active && offset' == |d.segs[active]|
    ensures |d.segs[active]| >= how.threshold ==>
              && active' == active + 1 && offset' == 0 && d'.segs == d.segs[active + 1 := []]
              && Hinted(d.hints, d'.hints, active, hints, how.ho)
  {
    hide HoldsAt, DirMap, DirIndex, Scan, HintsOf, TotalLen, Hinted;
    MirrorFacts(d, active, lo, kd, hints);
    TopIsMax(d, active, lo, m);
    SameLow(d, active, lo, lo', m);
    assert Stale(d, lo) == {};
    assert d.segs - {} == d.segs && d.hints - {} == d.hints;
    assert Cleaned(d, lo) == d;
    var s := d.segs[active];
    assert s[..|s|] == s;
    assert d.segs[active := s] == d.segs;
  }

  lemma SameLow(d: Disk, top: nat, lo: nat, lo': nat, m: Store)
    requires HoldsAt(d.segs, d.hints, top, lo, m) && HoldsAt(d.segs, d.hints, top, lo', m)
    ensures lo == lo'
  {
    hide HasBase, Clean, HintOk, DirMap;
  }

  /** Every run, from every undamaged directory, is explained by a run of a plain map. Hints stay sound
      through all of it. */
  method Drive(d0: Disk, evs: seq<Event>, first: Startup, ghost m0: Store)
    returns (outs: seq<Outcome>, e: Engine, ghost ms: seq<Store>)
    requires Holds(d0, m0)
    ensures |outs| == |evs| && Explains(first, evs, outs, ms) && ms[0] == m0
    ensures e.Valid() && e.Contents() == ms[|evs|]
    ensures SoundHints(d0) ==> SoundHints(e.disk)
  {
    hide DirMap, Engine.Valid, Mirrors, Agrees, Holds, Answers, Explains, ThresholdAt, SoundHints;
    e := Restart(d0, [], first, m0);
    outs, ms := [], [m0];
    NothingToExplain(first, evs, m0);
    for i := 0 to |evs|
      invariant |outs| == i && |ms| == i + 1 && Explains(first, evs, outs, ms) && ms[0] == m0
      invariant fresh(e) && fresh(e.cache) && e.Valid() && e.Contents() == ms[i]
      invariant e.threshold == ThresholdAt(first, evs, i) && (SoundHints(d0) ==> SoundHints(e.start))
    {
      var out;
      e, out := Happen(e, evs[i]);
      ExplainOne(first, evs, outs, ms, out, e.Contents());
      outs, ms := outs + [out], ms + [e.Contents()];
    }
    SoundEverywhere(e);
  }

  lemma NothingToExplain(first: Startup, evs: seq<Event>, m: Store)
    ensures Explains(first, evs, [], [m]) && ThresholdAt(first, evs, 0) == first.threshold
  {
  }

  lemma ExplainOne(first: Startup, evs: seq<Event>, outs: seq<Outcome>, ms: seq<Store>, out: Outcome, m: Store)
    requires |outs| < |evs| && Explains(first, evs, outs, ms)
    requires ModelStep(evs[|outs|], ThresholdAt(first, evs, |outs|), ms[|outs|], out, m)
    ensures Explains(first, evs, outs + [out], ms + [m])
    ensures ThresholdAt(first, evs, |outs| + 1)
            == if evs[|outs|].Do? then ThresholdAt(first, evs, |outs|) else evs[|outs|].how.threshold
  {
    hide ModelStep;
  }

  method Happen(e: Engine, ev: Event) returns (e': Engine, out: Outcome)
    requires e.Valid()
    modifies e, e.cache
    ensures e'.Valid() && ModelStep(ev, e.threshold, old(e.Contents()), out, e'.Contents())
    ensures (e' == e) || (fresh(e') && fresh(e'.cache))
    ensures e'.threshold == if ev.Do? then e.threshold else ev.how.threshold
    ensures SoundHints(e.start) ==> SoundHints(e'.start)
  {
    hide DirMap, Engine.Valid, Mirrors, Agrees, Holds, Answers, Barred, SoundHints;
    SoundEverywhere(e);
    e', out := e, Silent;
    match ev {
      case Do(op, w) =>
        out := Perform(e, op, w);
      case Reopen(how) =>
        ValidHolds(e);
        e' := Restart(e.disk, [], how, e.Contents());
      case Die(op, w, at, deaths, how) =>
        e' := DieAndRestart(e, op, w, at, deaths, how);
    }
  }

  method DieAndRestart(e: Engine, op: Op, w: World, at: nat, deaths: seq<Death>, how: Startup) returns (e': Engine)
    requires e.Valid()
    modifies e, e.cache
    ensures fresh(e') && fresh(e'.cache) && e'.Valid() && e'.threshold == how.threshold
    ensures e'.Contents() == old(e.Contents())
            || (!Barred(op, old(e.Contents())) && e'.Contents() == Apply(op, old(e.Contents())))
    ensures SoundHints(e.start) ==> SoundHints(e'.start)
  {
    hide DirMap, Engine.Valid, Mirrors, Agrees, Holds, Excused, Barred, Apply, SoundHints;
    ghost var m := e.Contents();
    ValidHolds(e);
    SoundEverywhere(e);
    var d, n := e.disk, |e.trail|;
    ghost var m' := m;
    var out := Perform(e, op, w);
    AllOrNothing(op, w, e.threshold, m, out, e.Contents());
    SoundEverywhere(e);
    if n + at < |e.trail| {
      d := e.trail[n + at];
      m' := if Holds(d, m) then m else e.Contents();
    }
    e' := Restart(d, deaths, how, m');
  }

  lemma AllOrNothing(op: Op, w: World, threshold: nat, m: Store, out: Outcome, m': Store)
    requires Answers(op, w, threshold, m, out, m')
    ensures m' == m || (!Barred(op, m) && m' == Apply(op, m))
  {
    hide Excused;
  }

  lemma ValidHolds(e: Engine)
    requires e.Valid()
    ensures Holds(e.disk, e.Contents())
  {
    hide DirMap, Mirrors, Agrees, Holds;
    MirrorFacts(e.disk, e.activeId, e.low, e.keydir, e.activeHints);
  }

  /** A fresh directory stands for the empty mapping. */
  lemma EmptyDirectory()
    ensures Holds(Disk(map[], map[], map[], map[]), map[])
  {
  }

  /** Two compactions in a row. The first merges the live sealed records and leaves the disk in d1; the
      second, which starts from there, rewrites that file, the same bytes after the marker, whose
      timestamp is new. */
  method CompactTwice(e: Engine, w: World, w': World)
    returns (ok: bool, ok': bool, ghost d1: Disk, ghost items: seq<Bytes>, ghost es: seq<Entry>, ghost es': seq<Entry>)
    requires e.Valid() && e.fds != {e.activeId}
    requires (forall i :: !w.fault(i)) && (forall i :: !w'.fault(i))
    modifies e
    ensures e.Valid() && e.Contents() == old(e.Contents())
    ensures LogOrder(items, old(e.keydir)) && SealedKeys(items, old(e.keydir), old(e.activeId))
    ensures IsMerged(es, w.now, items, old(e.keydir), e.Contents()) && AllFit(es) && AllFit(es')
    ensures ok == (TotalLen(es) <= MAX_FILE)
    ensures ok ==> Passed(e.trail, |old(e.trail)|, d1) && Prepared(e.trail, |old(e.trail)|, d1, old(e.Target()), es')
    ensures ok ==>
              var out := old(e.Target());
              && ok' && out in d1.segs && d1.segs[out] == EncodeAll(es)
              && out in e.disk.segs && e.disk.segs[out] == EncodeAll(es')
              && es != [] && es[0] == Base(w.now) && es' == [Base(w'.now)] + es[1..]
              && SameAfterMarker(d1.segs[out], e.disk.segs[out])
              && e.disk.segs.Keys == d1.segs.Keys && e.keydir == Index(out, es', Index(out, es, old(e.keydir)))
  {
    hide DirMap, Mirrors, Agrees, Holds, EncodeAll, Index, TotalLen, ItemEntries, IsMerged, LogOrder, SealedKeys,
      SwapReached, Rehinted, SameAfterMarker, Passed, Prepared;
    ghost var kd, out, from := e.keydir, e.Target(), |e.trail|;
    ghost var items';
    ok, items, es := e.Compact(w.now, w.fault, w.ho);
    NoFaults(w.fault, |items|, es);
    d1 := e.disk;
    ghost var mid := e.trail;
    if ok {
      OnlySealed(e.fds, e.activeId, out);
    }
    ok', items', es' := e.Compact(w'.now, w'.fault, w'.ho);
    NoFaults(w'.fault, |items'|, es');
    if ok {
      SecondMerge(w.now, w'.now, items, items', es, es', kd, e.Contents(), e.activeId, out);
      StillPassed(mid, e.trail, from, d1);
      EarlierPrepared(e.trail, from, |mid|, d1, out, es');
    }
  }

  lemma EarlierPrepared(trail: seq<Disk>, from: nat, later: nat, before: Disk, out: nat, es: seq<Entry>)
    requires from <= later && Prepared(trail, later, before, out, es)
    ensures Prepared(trail, from, before, out, es)
  {
    hide EncodeAll;
  }

  /** Files of the same length that differ in nothing after their first record, a marker. */
  ghost predicate SameAfterMarker(a: Bytes, b: Bytes) {
    |a| == |b| >= HEADER_SIZE && a[HEADER_SIZE..] == b[HEADER_SIZE..]
  }

  lemma NoFaults(fault: nat -> bool, n: nat, es: seq<Entry>)
    requires forall i :: !fault(i)
    ensures SwapReached(fault, n, es) <==> TotalLen(es) <= MAX_FILE
  {
    hide TotalLen;
  }

  lemma OnlySealed(fds: set<nat>, active: nat, out: nat)
    requires fds == {out, active} && out != active
    ensures fds != {active} && fds - {active} == {out} && MaxOf(fds - {active}) == out
  {
  }

  lemma SecondMerge(ts: u64, ts': u64, items: seq<Bytes>, items': seq<Bytes>, es: seq<Entry>, es': seq<Entry>,
                    kd: KeyDir,
                    m: Store, active: nat, out: nat)
    requires AllFit(es) && AllFit(es') && LogOrder(items, kd) && SealedKeys(items, kd, active) && out != active
    requires IsMerged(es, ts, items, kd, m)
    requires var kd' := Index(out, es, kd);
             LogOrder(items', kd') && SealedKeys(items', kd', active) && IsMerged(es', ts', items', kd', m)
    ensures es != [] && es[0] == Base(ts) && es' == [Base(ts')] + es[1..] && TotalLen(es') == TotalLen(es)
    ensures SameAfterMarker(EncodeAll(es), EncodeAll(es'))
  {
    hide Index, EncodeAll, Encode, TotalLen, LogOrder, SealedKeys, ItemEntries;
    CompactAgain(ts, ts', items, items', kd, m, active, out);
    var rest := es[1..];
    assert es == [Base(ts)] + rest;
    TotalCons(Base(ts), rest);
    TotalCons(Base(ts'), rest);
    EncodeCons(Base(ts), rest);
    EncodeCons(Base(ts'), rest);
  }

  /** A record and then its deletion, with a limit that seals every segment after one record: the first
      segment is sealed with a hint file. */
  method HintedStore(key: Bytes, value: Bytes, now: u64, capacity: nat) returns (e: Engine)
    requires |key| < U32_LIMIT && |value| < COMPACTION_BASE
    ensures fresh(e) && fresh(e.cache) && e.Valid() && e.Contents() == map[]
    ensures e.fds == {0, 1} && e.activeId == 1 && e.disk.hints.Keys == {0}
  {
    hide DirMap, Mirrors, Agrees, Holds, EncodeHints, Chronicle, Appended;
    EmptyDirectory();
    e := new Engine(Disk(map[], map[], map[], map[]), 1, capacity, Written, map[]);
    var put := e.Put(key, value, now, Written);
    assert put && e.Contents() == map[key := value];
    var del := e.Del(key, now, Written);
    assert del && e.Contents() == map[];
  }

  /** A failing rename does lose a hint: in such a store, a compaction in which the rename, operation
      number 3, is the only one to fail finishes the merged file, returns false and leaves the disk without
      the hint of the sealed segment and otherwise as it was. */
  method HintLost(e: Engine, w: World) returns (ok: bool)
    requires e.Valid() && e.Contents() == map[]
    requires e.fds == {0, 1} && e.activeId == 1 && e.disk.hints.Keys == {0}
    requires forall i: nat :: w.fault(i) <==> i == 3
    modifies e
    ensures e.Valid() && !ok
    ensures 0 in old(e.disk).hints && e.disk == old(e.disk).(hints := map[])
    ensures Prepared(e.trail, |old(e.trail)|, old(e.disk), 0, [Base(w.now)])
  {
    hide DirMap, Mirrors, Agrees, Holds, EncodeAll, Index, IsMerged, LogOrder, SealedKeys, SwapReached, Rehinted,
      Chronicle, Passed, Prepared;
    OnlySealed(e.fds, 1, 0);
    ghost var before, kd, lo, hints := e.disk, e.keydir, e.low, e.activeHints;
    ghost var items, es;
    ok, items, es := e.Compact(w.now, w.fault, w.ho);
    NothingToCopy(w.fault, items, es, w.now, kd, e.Contents(), before, 1, lo, hints);
    assert before.hints - {0} == map[];
  }

  lemma FirstItem(items: seq<Bytes>)
    ensures items == [] || exists k :: k in items
  {
    if items != [] {
      assert items[0] in items;
    }
  }

  lemma NothingToCopy(fault: nat -> bool, items: seq<Bytes>, es: seq<Entry>, now: u64, kd: KeyDir, m: Store,
                      d: Disk, active: nat, lo: nat, hints: seq<Hint>)
    requires Mirrors(d, active, lo, kd, hints) && m == DirMap(d.segs, d.segs.Keys) == map[]
    requires SealedKeys(items, kd, active) && IsMerged(es, now, items, kd, m)
    requires forall i: nat :: fault(i) <==> i == 3
    ensures items == [] && es == [Base(now)] && SwapReached(fault, |items|, es) && fault(|items| + 3)
  {
    hide Mirrors, DirMap, TotalLen;
    forall k
      ensures k !in kd
    {
      MirrorReads(d, active, lo, kd, hints, k);
    }
    FirstItem(items);
    MarkerOnly(now, kd, m);
    MergedEmpty(now, kd, m);
  }
}
