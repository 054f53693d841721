/**
  The store's directory: what is on disk, what a completed startup rebuilds from
  it, and which single disk steps leave that unchanged. `Holds(d, m)` is the
  statement every crash point has to satisfy.
*/
module Directory {
  import opened Bytes
  import opened RecordFormat
  import opened Hints

  /** Segment files, hint files, and the temporary files of compaction and hint writing. */
  datatype Disk = Disk(segs: map<nat, Bytes>, hints: map<nat, Bytes>,
                       compactTmp: map<nat, Bytes>, hintTmp: map<nat, Bytes>)

  type Store = map<Bytes, Bytes>
  type Segments = map<nat, Bytes>

  /** No file is longer than off_t can address. */
  const MAX_FILE := 0x7FFF_FFFF_FFFF_FFFF

  // ---------- System calls ----------

  /** The calls that change the directory. A write moves one byte: a longer one is a run of these. */
  datatype Call =
    | CreateSegment(id: nat)
    | WriteSegment(id: nat, b: byte)
    | TruncateSegment(id: nat, size: nat)
    | UnlinkSegment(id: nat)
    | UnlinkHint(id: nat)
    | CreateHintTmp(id: nat)
    | WriteHintTmp(id: nat, b: byte)
    | UnlinkHintTmp(id: nat)
    | RenameHintTmp(id: nat)
    | CreateCompactTmp(id: nat)
    | WriteCompactTmp(id: nat, b: byte)
    | UnlinkCompactTmp(id: nat)
    | RenameCompactTmp(id: nat)

  /** What one call leaves on disk. */
  function Performed(c: Call, d: Disk): Disk {
    match c
    case CreateSegment(id) => if id in d.segs then d else d.(segs := d.segs[id := []])
    case WriteSegment(id, b) => if id in d.segs then d.(segs := d.segs[id := d.segs[id] + [b]]) else d
    case TruncateSegment(id, size) =>
      if id in d.segs && size <= |d.segs[id]| then d.(segs := d.segs[id := d.segs[id][..size]]) else d
    case UnlinkSegment(id) => d.(segs := d.segs - {id})
    case UnlinkHint(id) => d.(hints := d.hints - {id})
    case CreateHintTmp(id) => d.(hintTmp := d.hintTmp[id := []])
    case WriteHintTmp(id, b) => if id in d.hintTmp then d.(hintTmp := d.hintTmp[id := d.hintTmp[id] + [b]]) else d
    case UnlinkHintTmp(id) => d.(hintTmp := d.hintTmp - {id})
    case RenameHintTmp(id) =>
      if id in d.hintTmp then d.(hints := d.hints[id := d.hintTmp[id]], hintTmp := d.hintTmp - {id}) else d
    case CreateCompactTmp(id) => d.(compactTmp := d.compactTmp[id := []])
    case WriteCompactTmp(id, b) =>
      if id in d.compactTmp then d.(compactTmp := d.compactTmp[id := d.compactTmp[id] + [b]]) else d
    case UnlinkCompactTmp(id) => d.(compactTmp := d.compactTmp - {id})
    case RenameCompactTmp(id) =>
      if id in d.compactTmp then d.(segs := d.segs[id := d.compactTmp[id]], compactTmp := d.compactTmp - {id}) else d
  }

  ghost predicate OneCall(d: Disk, d': Disk) { exists c :: Performed(c, d) == d' }

  lemma CallIsStep(c: Call, d: Disk)
    ensures OneCall(d, Performed(c, d))
  {
    hide Performed;
  }

  // ---------- What a log stands for ----------

  function ReplayEntry(e: Entry, m: Store): Store {
    match e
    case Put(_, key, value) => m[key := value]
    case Del(_, key) => m - {key}
    case Base(_) => m
  }

  function Replay(es: seq<Entry>, m: Store): Store {
    if es == [] then m else ReplayEntry(es[|es| - 1], Replay(es[..|es| - 1], m))
  }

  ghost function MaxOf(s: set<nat>): (m: nat)
    requires s != {}
    ensures m in s && forall x :: x in s ==> x <= m
  {
    var x :| x in s;
    if s == {x} then x
    else
      assert s == {x} + (s - {x});
      Max(x, MaxOf(s - {x}))
  }

  /** Replaying the given segments in ID order. */
  ghost function DirMap(segs: Segments, ids: set<nat>): Store
    requires ids <= segs.Keys
  {
    if ids == {} then map[]
    else var m := MaxOf(ids); Replay(Scan(segs[m]), DirMap(segs, ids - {m}))
  }

  /** The index of the given segments, replayed in ID order. */
  ghost function DirIndex(segs: Segments, ids: set<nat>): KeyDir
    requires ids <= segs.Keys
  {
    if ids == {} then map[]
    else var m := MaxOf(ids); Index(m, Scan(segs[m]), DirIndex(segs, ids - {m}))
  }

  // ---------- The size of a mapping on disk ----------

  ghost function AnyKey(m: Store): (k: Bytes)
    requires m != map[]
    ensures k in m
  {
    var k :| k in m; k
  }

  /** The bytes that one record for each key takes. */
  ghost function StoreSize(m: Store): nat {
    if m == map[] then 0
    else var k := AnyKey(m); HEADER_SIZE + |k| + |m[k]| + StoreSize(m - {k})
  }

  /** The choice of keys does not matter. */
  lemma {:induction false} StoreSizeOne(m: Store, k: Bytes)
    requires k in m
    ensures StoreSize(m) == HEADER_SIZE + |k| + |m[k]| + StoreSize(m - {k})
    decreases |m|
  {
    var j := AnyKey(m);
    if j != k {
      assert k in m - {j} && j in m - {k};
      StoreSizeOne(m - {j}, k);
      StoreSizeOne(m - {k}, j);
      assert m - {j} - {k} == m - {k} - {j};
    }
  }

  /** Records of different keys of m, each with its value. */
  ghost predicate Copies(es: seq<Entry>, m: Store) {
    && (forall i :: 0 <= i < |es| ==> es[i].Put? && es[i].key in m && es[i].value == m[es[i].key])
    && (forall i, j :: 0 <= i < j < |es| ==> es[i].key != es[j].key)
  }

  ghost predicate NamesAll(es: seq<Entry>, m: Store) {
    forall k :: k in m ==> exists i :: 0 <= i < |es| && KeyBytes(es[i]) == k
  }

  /** They take no more than the size of m, and exactly that if no key is missing. */
  lemma {:induction false} CopiesSize(es: seq<Entry>, m: Store)
    requires Copies(es, m)
    ensures TotalLen(es) <= StoreSize(m)
    ensures NamesAll(es, m) ==> TotalLen(es) == StoreSize(m)
    decreases |es|
  {
    hide StoreSize;
    if es == [] {
      EmptySize();
      assert NamesAll(es, m) ==> m == map[];
    } else {
      var n := |es| - 1;
      var init, k := es[..n], es[n].key;
      StoreSizeOne(m, k);
      CopiesSize(init, m - {k});
      if NamesAll(es, m) {
        forall k' | k' in m - {k}
          ensures exists i :: 0 <= i < |init| && KeyBytes(init[i]) == k'
        {
          var i :| 0 <= i < |es| && KeyBytes(es[i]) == k';
          assert KeyBytes(init[i]) == k';
        }
      }
    }
  }

  lemma EmptySize()
    ensures StoreSize(map[]) == 0
  {
  }

  // ---------- What startup makes of a directory ----------

  predicate HasBase(s: Bytes) { Scan(s) != [] && Scan(s)[0].Base? }

  /** `top` is the newest segment; `lo` is the newest older one that begins with a base marker
      (0 if there is none). Startup discards what lies below `lo`. */
  ghost predicate Shape(segs: Segments, top: nat, lo: nat) {
    && top in segs
    && (forall id :: id in segs ==> id <= top)
    && (forall id :: id in segs && id < top && HasBase(segs[id]) ==> id <= lo)
    && (lo == 0 || (lo in segs && HasBase(segs[lo])))
    && lo <= top && (lo == top ==> lo == 0)
  }

  ghost function From(segs: Segments, lo: nat): set<nat> { set id | id in segs && lo <= id }

  ghost predicate HintOk(buf: Bytes, s: Bytes) {
    TotalLen(Scan(s)) < U64_LIMIT && exists j: nat :: Describes(buf, Scan(s), j)
  }

  /** A directory no byte of which was damaged. It may hold leftovers of an interrupted
      compaction, orphan or partial hints, and a torn tail in the newest segment. */
  ghost predicate Undamaged(segs: Segments, hints: map<nat, Bytes>, top: nat, lo: nat) {
    && Shape(segs, top, lo)
    && (forall id :: id in segs ==> |segs[id]| <= MAX_FILE)
    && !HasBase(segs[top])
    && (forall id :: id in segs && lo <= id < top ==> Clean(segs[id]))
    && (forall id :: id in hints && id in segs && lo <= id ==> HintOk(hints[id], segs[id]))
    && (forall id :: id in hints && id !in segs ==> id < top)
  }

  ghost predicate HoldsAt(segs: Segments, hints: map<nat, Bytes>, top: nat, lo: nat, m: Store) {
    Undamaged(segs, hints, top, lo) && DirMap(segs, From(segs, lo)) == m
  }

  /** The directory is undamaged and stands for exactly the mapping `m`. */
  ghost predicate Holds(d: Disk, m: Store) {
    if d.segs == map[] then d.hints == map[] && m == map[]
    else exists top, lo :: HoldsAt(d.segs, d.hints, top, lo, m)
  }

  // ---------- Every hint on disk ----------

  /** Every hint file whose segment is still there describes some first records of it, also where
      startup would discard both. */
  ghost predicate SoundHints(d: Disk) {
    forall id :: id in d.hints && id in d.segs ==> HintOk(d.hints[id], d.segs[id])
  }

  /** The segment whose bytes or whose hint a call changes or creates. */
  function Touched(c: Call): Option<nat> {
    match c
    case CreateSegment(id) => Some(id)
    case WriteSegment(id, _) => Some(id)
    case TruncateSegment(id, _) => Some(id)
    case RenameHintTmp(id) => Some(id)
    case RenameCompactTmp(id) => Some(id)
    case _ => None
  }

  /** It is the newest or the newest but one. */
  ghost predicate AtEnd(c: Call, segs: Segments) {
    Touched(c).Some? ==>
      forall id :: id in segs ==> id <= Touched(c).value || forall other :: other in segs ==> other <= id
  }

  lemma UntouchedHint(c: Call, d: Disk, id: nat)
    requires Touched(c) != Some(id) && id in Performed(c, d).hints && id in Performed(c, d).segs
    ensures id in d.hints && id in d.segs
    ensures Performed(c, d).hints[id] == d.hints[id] && Performed(c, d).segs[id] == d.segs[id]
  {
  }

  lemma LiveHint(d: Disk, m: Store, c: Call, id: nat)
    requires Holds(d, m) && AtEnd(c, d.segs) && Touched(c) == Some(id) && id in d.hints && id in d.segs
    ensures HintOk(d.hints[id], d.segs[id])
  {
    hide HintOk, HasBase, Clean, DirMap;
    var top: nat, lo: nat :| HoldsAt(d.segs, d.hints, top, lo, m);
    assert lo <= id;
  }

  /** A call at the end of the log that leaves an undamaged directory keeps every hint sound. */
  lemma StepKeepsHints(c: Call, d: Disk, m: Store)
    requires SoundHints(d) && Holds(Performed(c, d), m) && AtEnd(c, Performed(c, d).segs)
    ensures SoundHints(Performed(c, d))
  {
    hide HintOk, Holds, AtEnd, Performed, Touched;
    var d' := Performed(c, d);
    forall id | id in d'.hints && id in d'.segs
      ensures HintOk(d'.hints[id], d'.segs[id])
    {
      if Touched(c) == Some(id) {
        LiveHint(d', m, c, id);
      } else {
        UntouchedHint(c, d, id);
      }
    }
  }

  lemma NewSegmentHints(d: Disk, id: nat)
    requires SoundHints(d) && (id in d.segs || id !in d.hints)
    ensures SoundHints(Performed(CreateSegment(id), d))
  {
    hide HintOk;
  }

  // ---------- Small facts ----------

  lemma {:induction false} DirMapFrame(segs: Segments, segs': Segments, ids: set<nat>)
    requires ids <= segs.Keys && ids <= segs'.Keys
    requires forall id :: id in ids ==> segs[id] == segs'[id]
    ensures DirMap(segs, ids) == DirMap(segs', ids)
  {
    hide Scan, Replay;
    if ids != {} {
      DirMapFrame(segs, segs', ids - {MaxOf(ids)});
    }
  }

  lemma {:induction false} DirIndexFrame(segs: Segments, segs': Segments, ids: set<nat>)
    requires ids <= segs.Keys && ids <= segs'.Keys
    requires forall id :: id in ids ==> segs[id] == segs'[id]
    ensures DirIndex(segs, ids) == DirIndex(segs', ids)
  {
    hide Scan, Index;
    if ids != {} {
      DirIndexFrame(segs, segs', ids - {MaxOf(ids)});
    }
  }

  lemma DirMapTop(segs: Segments, ids: set<nat>, top: nat)
    requires ids <= segs.Keys && top in ids && forall id :: id in ids ==> id <= top
    ensures DirMap(segs, ids) == Replay(Scan(segs[top]), DirMap(segs, ids - {top}))
  {
    hide Scan, Replay;
    assert MaxOf(ids) == top;
  }

  lemma DirIndexTop(segs: Segments, ids: set<nat>, top: nat)
    requires ids <= segs.Keys && top in ids && forall id :: id in ids ==> id <= top
    ensures DirIndex(segs, ids) == Index(top, Scan(segs[top]), DirIndex(segs, ids - {top}))
  {
    hide Scan, Index;
    assert MaxOf(ids) == top;
  }

  lemma HasBaseParse(s: Bytes)
    ensures HasBase(s) <==> Parse(s).Some? && Parse(s).value.Base?
  {
    hide Parse;
  }

  lemma ScanTotal(s: Bytes)
    ensures TotalLen(Scan(s)) <= |s|
  {
    hide Parse, Encode;
    ScanSound(s);
  }

  lemma EmptyLog()
    ensures Scan([]) == [] && Clean([]) && !HasBase([])
  {
    hide Parse;
    ParseEmpty();
  }

  lemma ShapeUnique(segs: Segments, top: nat, lo: nat, top': nat, lo': nat)
    requires Shape(segs, top, lo) && Shape(segs, top', lo')
    ensures top == top' && lo == lo'
  {
    hide HasBase;
  }

  /** A directory stands for at most one mapping. */
  lemma HoldsUnique(d: Disk, m: Store, m': Store)
    requires Holds(d, m) && Holds(d, m')
    ensures m == m'
  {
    hide Undamaged, DirMap;
    if d.segs != map[] {
      var top, lo :| HoldsAt(d.segs, d.hints, top, lo, m);
      var top', lo' :| HoldsAt(d.segs, d.hints, top', lo', m');
      UndamagedShape(d.segs, d.hints, top, lo);
      UndamagedShape(d.segs, d.hints, top', lo');
      ShapeUnique(d.segs, top, lo, top', lo');
    }
  }

  lemma UndamagedShape(segs: Segments, hints: map<nat, Bytes>, top: nat, lo: nat)
    requires Undamaged(segs, hints, top, lo)
    ensures Shape(segs, top, lo)
  {
    hide Shape, HasBase, HintOk, Clean;
  }

  // ---------- Disk steps that lose nothing ----------

  /** Deleting any hint. */
  lemma DropHint(d: Disk, id: nat, top: nat, lo: nat, m: Store)
    requires HoldsAt(d.segs, d.hints, top, lo, m)
    ensures HoldsAt(d.segs, d.hints - {id}, top, lo, m)
  {
    hide Shape, HasBase, HintOk, Clean, DirMap;
  }

  /** Deleting a segment below the newest marked one. */
  lemma DropStale(d: Disk, id: nat, top: nat, lo: nat, m: Store)
    requires HoldsAt(d.segs, d.hints, top, lo, m) && id < lo
    ensures HoldsAt(d.segs - {id}, d.hints, top, lo, m)
  {
    hide HasBase, HintOk, Clean, DirMap;
    var segs' := d.segs - {id};
    assert From(segs', lo) == From(d.segs, lo);
    DirMapFrame(d.segs, segs', From(d.segs, lo));
  }

  /** Creating the next segment, when the newest one has no torn tail. */
  lemma NewSegment(d: Disk, top: nat, lo: nat, m: Store)
    requires HoldsAt(d.segs, d.hints, top, lo, m) && Clean(d.segs[top])
    ensures HoldsAt(d.segs[top + 1 := []], d.hints, top + 1, lo, m)
  {
    hide HasBase, HintOk, Clean, DirMap, Scan;
    var segs' := d.segs[top + 1 := []];
    EmptyLog();
    assert From(segs', lo) - {top + 1} == From(d.segs, lo);
    DirMapFrame(d.segs, segs', From(d.segs, lo));
    DirMapTop(segs', From(segs', lo), top + 1);
  }

  /** Changing the newest segment without touching the records it already has. */
  lemma ChangeNewest(d: Disk, s: Bytes, top: nat, lo: nat, m: Store)
    requires HoldsAt(d.segs, d.hints, top, lo, m) && |s| <= MAX_FILE
    requires Scan(d.segs[top]) <= Scan(s) && !HasBase(s)
    ensures HoldsAt(d.segs[top := s], d.hints, top, lo,
                    Replay(Scan(s), DirMap(d.segs, From(d.segs, lo) - {top})))
  {
    hide Undamaged, HasBase, DirMap, Scan, Replay;
    var segs' := d.segs[top := s];
    UndamagedShape(d.segs, d.hints, top, lo);
    NewestUndamaged(d, s, top, lo);
    assert From(segs', lo) == From(d.segs, lo);
    DirMapFrame(d.segs, segs', From(d.segs, lo) - {top});
    DirMapTop(segs', From(segs', lo), top);
  }

  lemma NewestUndamaged(d: Disk, s: Bytes, top: nat, lo: nat)
    requires Undamaged(d.segs, d.hints, top, lo) && |s| <= MAX_FILE
    requires Scan(d.segs[top]) <= Scan(s) && !HasBase(s)
    ensures Undamaged(d.segs[top := s], d.hints, top, lo)
  {
    hide HasBase, HintOk, Clean, Scan;
    if top in d.hints {
      HintExtends(d.hints[top], d.segs[top], s);
    }
  }

  lemma HintExtends(buf: Bytes, s: Bytes, s': Bytes)
    requires HintOk(buf, s) && Scan(s) <= Scan(s') && |s'| <= MAX_FILE
    ensures HintOk(buf, s')
  {
    hide Scan, HintsOf, EncodeHints, KeysFit, TotalLen, Fits;
    var es, es' := Scan(s), Scan(s');
    var j: nat :| Describes(buf, es, j);
    ScanTotal(s');
    assert es'[..j] == es[..j];
    assert Describes(buf, es', j);
  }

  /** Writing part of a record: the torn tail is not seen. */
  lemma AppendTorn(d: Disk, e: Entry, n: nat, top: nat, lo: nat, m: Store)
    requires HoldsAt(d.segs, d.hints, top, lo, m) && Clean(d.segs[top])
    requires Fits(e) && n < RecLen(e) && |d.segs[top]| + n <= MAX_FILE
    ensures HoldsAt(d.segs[top := d.segs[top] + Encode(e)[..n]], d.hints, top, lo, m)
    ensures Scan(d.segs[top] + Encode(e)[..n]) == Scan(d.segs[top])
  {
    hide HintOk, DirMap, Scan, Encode, Replay, Shape;
    NewestOfShape(d.segs, top, lo);
    var s := d.segs[top];
    ScanSound(s);
    assert EncodeAll(Scan(s)) == s;
    ScanTornTail(Scan(s), e, n);
    ChangeNewest(d, s + Encode(e)[..n], top, lo, m);
    DirMapTop(d.segs, From(d.segs, lo), top);
  }

  lemma NewestOfShape(segs: Segments, top: nat, lo: nat)
    requires Shape(segs, top, lo)
    ensures top in segs && top in From(segs, lo) && forall id :: id in From(segs, lo) ==> id <= top
  {
    hide HasBase;
  }

  /** Completing a put or a delete record takes effect. */
  lemma AppendWhole(d: Disk, e: Entry, top: nat, lo: nat, m: Store)
    requires HoldsAt(d.segs, d.hints, top, lo, m) && Clean(d.segs[top])
    requires Fits(e) && !e.Base? && |d.segs[top]| + RecLen(e) <= MAX_FILE
    ensures HoldsAt(d.segs[top := d.segs[top] + Encode(e)], d.hints, top, lo, ReplayEntry(e, m))
    ensures Scan(d.segs[top] + Encode(e)) == Scan(d.segs[top]) + [e] && Clean(d.segs[top] + Encode(e))
  {
    hide HintOk, DirMap, Scan, Encode, Shape, ReplayEntry;
    NewestOfShape(d.segs, top, lo);
    var s := d.segs[top];
    ScanAppend(s, e);
    ChangeNewest(d, s + Encode(e), top, lo, m);
    DirMapTop(d.segs, From(d.segs, lo), top);
    assert (Scan(s) + [e])[..|Scan(s)|] == Scan(s);
  }

  /** Cutting the newest segment at the end of its last whole record. */
  lemma TruncateNewest(d: Disk, top: nat, lo: nat, m: Store)
    requires HoldsAt(d.segs, d.hints, top, lo, m)
    ensures var n := TotalLen(Scan(d.segs[top]));
            n <= |d.segs[top]| && HoldsAt(d.segs[top := d.segs[top][..n]], d.hints, top, lo, m)
            && Clean(d.segs[top][..n]) && Scan(d.segs[top][..n]) == Scan(d.segs[top])
  {
    hide HintOk, DirMap, Scan, Replay, Shape;
    NewestOfShape(d.segs, top, lo);
    var s := d.segs[top];
    ScanTruncated(s);
    ChangeNewest(d, s[..TotalLen(Scan(s))], top, lo, m);
    DirMapTop(d.segs, From(d.segs, lo), top);
  }

  /** Writing the complete hint of a live segment. */
  lemma WriteHint(d: Disk, id: nat, top: nat, lo: nat, m: Store)
    requires HoldsAt(d.segs, d.hints, top, lo, m) && id in d.segs
    ensures var es := Scan(d.segs[id]);
            TotalLen(es) < U64_LIMIT && KeysFit(HintsOf(es))
            && HoldsAt(d.segs, d.hints[id := EncodeHints(HintsOf(es))], top, lo, m)
  {
    hide DirMap, Scan, Shape, HasBase, Clean, EncodeHints, HintsOf, HintOk;
    CompleteHintOk(d.segs[id]);
  }

  lemma CompleteHintOk(s: Bytes)
    requires |s| <= MAX_FILE
    ensures var es := Scan(s);
            TotalLen(es) < U64_LIMIT && KeysFit(HintsOf(es)) && HintOk(EncodeHints(HintsOf(es)), s)
  {
    hide Scan, EncodeHints, HintsOf, KeysFit, TotalLen;
    var es := Scan(s);
    ScanTotal(s);
    HintsInSegment(es, TotalLen(es));
    assert es[..|es|] == es;
    assert Describes(EncodeHints(HintsOf(es)), es, |es|);
  }

  /** The commit of a compaction: one rename replaces the newest sealed segment by a segment
      that begins with a base marker and, followed by the newest segment, stands for `m`. */
  lemma Commit(d: Disk, out: nat, c: Bytes, top: nat, lo: nat, m: Store)
    requires HoldsAt(d.segs, d.hints, top, lo, m)
    requires out in d.segs && lo <= out < top && forall id :: id in d.segs ==> id <= out || id == top
    requires out !in d.hints && |c| <= MAX_FILE && Clean(c) && HasBase(c)
    requires Replay(Scan(d.segs[top]), Replay(Scan(c), map[])) == m
    ensures HoldsAt(d.segs[out := c], d.hints, top, out, m)
  {
    hide DirMap, Scan, HasBase, Clean, HintOk, Replay;
    var segs' := d.segs[out := c];
    assert From(segs', out) == {out, top};
    DirMapTop(segs', {out, top}, top);
    assert {out, top} - {top} == {out};
    DirMapTop(segs', {out}, out);
    assert {out} - {out} == {};
    DirMapEmpty(segs');
  }

  lemma DirMapEmpty(segs: Segments)
    ensures DirMap(segs, {}) == map[]
  {
  }
}
