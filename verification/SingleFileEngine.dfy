/**
  The single-file engine (kv_engine.hpp). `trail` lists the disk states at which the
  process may have died, one per written byte and one per step of compaction. The
  order in which compaction walks the hash map is arbitrary.
*/
module SingleFileEngine {
  import opened Bytes
  import opened RecordFormat
  import opened Trails
  import opened Directory
  import opened SingleFile

  /** The data file and the temporary file of a compaction. A missing data file is an empty one. */
  datatype FileDisk = FileDisk(file: Bytes, tmp: Option<Bytes>)

  /** The calls that change it. A write moves one byte: a longer one is a run of these. */
  datatype FileCall =
    | WriteFile(b: byte)
    | TruncateFile(size: nat)
    | CreateTmp
    | WriteTmp(b: byte)
    | UnlinkTmp
    | RenameTmp

  /** What one call leaves on disk. */
  function FilePerformed(c: FileCall, d: FileDisk): FileDisk {
    match c
    case WriteFile(b) => d.(file := d.file + [b])
    case TruncateFile(size) => if size <= |d.file| then d.(file := d.file[..size]) else d
    case CreateTmp => d.(tmp := Some([]))
    case WriteTmp(b) => if d.tmp.Some? then d.(tmp := Some(d.tmp.value + [b])) else d
    case UnlinkTmp => d.(tmp := None)
    case RenameTmp => if d.tmp.Some? then FileDisk(d.tmp.value, None) else d
  }

  ghost predicate OneFileCall(d: FileDisk, d': FileDisk) { exists c :: FilePerformed(c, d) == d' }

  lemma FileCallIsStep(c: FileCall, d: FileDisk)
    ensures OneFileCall(d, FilePerformed(c, d))
  {
    hide FilePerformed;
  }

  /** What a file stands for: a mapping, and the bytes its whole records take. */
  datatype Image = Image(store: Store, size: nat)

  ghost function ImageOf(es: seq<Entry>): Image { Image(Replay(es, map[]), TotalLen(es)) }

  ghost predicate IntactAs(file: Bytes, es: seq<Entry>, tail: Bytes, c: Image) {
    Plain(es) && Torn(tail) && file == EncodeAll(es) + tail && ImageOf(es) == c && |file| <= MAX_FILE
  }

  /** The file stands for exactly c, whatever the temporary file holds. */
  ghost predicate FileHolds(d: FileDisk, c: Image) {
    exists es, tail :: IntactAs(d.file, es, tail, c)
  }

  lemma HoldsWhole(d: FileDisk, es: seq<Entry>)
    requires Plain(es) && d.file == EncodeAll(es) && |d.file| <= MAX_FILE
    ensures FileHolds(d, ImageOf(es))
  {
    hide Torn, EncodeAll, ImageOf;
    EmptyTorn();
    assert EncodeAll(es) + [] == EncodeAll(es);
    assert IntactAs(d.file, es, [], ImageOf(es));
  }

  lemma HoldsTorn(d: FileDisk, es: seq<Entry>, e: Entry, n: nat)
    requires Plain(es) && Fits(e) && !e.Base? && n < RecLen(e) && d.file == EncodeAll(es) + Encode(e)[..n]
             && |d.file| <= MAX_FILE
    ensures FileHolds(d, ImageOf(es))
  {
    hide EncodeAll, ImageOf, Encode, RecLen;
    assert Torn(Encode(e)[..n]);
    assert IntactAs(d.file, es, Encode(e)[..n], ImageOf(es));
  }

  lemma PlainSnoc(es: seq<Entry>, e: Entry)
    requires Plain(es) && Fits(e) && !e.Base?
    ensures Plain(es + [e]) && EncodeAll(es + [e]) == EncodeAll(es) + Encode(e)
    ensures Readable(e) && IndexFrom(0, es + [e], map[]) == IndexOne(TotalLen(es), e, IndexFrom(0, es, map[]))
    ensures Replay(es + [e], map[]) == ReplayEntry(e, Replay(es, map[]))
  {
    hide Encode, EncodeAll, IndexOne, IndexFrom, Replay, ReplayEntry, TotalLen, RecLen;
    EncodeSnoc(es, e);
    ReplayStart(es, e, map[]);
    IndexSnoc(0, es, e, map[]);
  }

  /** Every disk state after number `from` stands for one of the two. */
  ghost predicate Survives(trail: seq<FileDisk>, from: nat, c: Image, c': Image) {
    from <= |trail| && forall i :: from <= i < |trail| ==> FileHolds(trail[i], c) || FileHolds(trail[i], c')
  }

  lemma SurvivesStep(trail: seq<FileDisk>, from: nat, c: Image, c': Image, d: FileDisk)
    requires Survives(trail, from, c, c') && (FileHolds(d, c) || FileHolds(d, c'))
    ensures Survives(trail + [d], from, c, c')
  {
    hide FileHolds;
  }

  /** The keys of the index, each once, in the order of some walk over the hash map. */
  ghost predicate Walk(order: seq<Bytes>, kd: KeyMap) {
    && (forall i :: 0 <= i < |order| ==> order[i] in kd)
    && (forall i, j :: 0 <= i < j < |order| ==> order[i] != order[j])
    && (forall k :: k in kd ==> k in order)
  }

  /** The rewritten records of the first n keys. */
  ghost function Rewritten(order: seq<Bytes>, n: nat, kd: KeyMap, m: Store): (es: seq<Entry>)
    requires n <= |order| && forall i :: 0 <= i < n ==> order[i] in kd && order[i] in m
    ensures |es| == n && forall i :: 0 <= i < n ==> es[i] == Put(kd[order[i]].ts, order[i], m[order[i]])
  {
    if n == 0 then [] else Rewritten(order, n - 1, kd, m) + [Put(kd[order[n - 1]].ts, order[n - 1], m[order[n - 1]])]
  }

  /** r is m on the given keys and nothing else. */
  ghost predicate Restricts(r: Store, m: Store, keys: seq<Bytes>) {
    && (forall k :: k in r ==> k in keys)
    && (forall k :: k in keys ==> k in r && k in m && r[k] == m[k])
  }

  lemma RestrictsOne(r: Store, m: Store, keys: seq<Bytes>, k: Bytes)
    requires Restricts(r, m, keys) && k in m
    ensures Restricts(r[k := m[k]], m, keys + [k])
  {
  }

  lemma {:induction false} RewrittenReplay(order: seq<Bytes>, n: nat, kd: KeyMap, m: Store)
    requires n <= |order| && kd.Keys == m.Keys && forall i :: 0 <= i < |order| ==> order[i] in kd
    ensures Restricts(Replay(Rewritten(order, n, kd, m), map[]), m, order[..n])
    decreases n
  {
    hide Restricts, Replay;
    if n == 0 {
      RestrictsNothing(m);
    } else {
      RewrittenReplay(order, n - 1, kd, m);
      var es, k := Rewritten(order, n - 1, kd, m), order[n - 1];
      ReplayStart(es, Put(kd[k].ts, k, m[k]), map[]);
      RestrictsOne(Replay(es, map[]), m, order[..n - 1], k);
      assert order[..n] == order[..n - 1] + [k];
    }
  }

  lemma RestrictsNothing(m: Store)
    ensures Replay([], map[]) == map[] && Restricts(map[], m, [])
  {
  }

  lemma RestrictsAll(r: Store, m: Store, keys: seq<Bytes>)
    requires Restricts(r, m, keys) && forall k :: k in m ==> k in keys
    ensures r == m
  {
    assert r.Keys == m.Keys;
  }

  lemma RewrittenKeepsMap(order: seq<Bytes>, kd: KeyMap, m: Store)
    requires kd.Keys == m.Keys && Walk(order, kd)
    ensures Replay(Rewritten(order, |order|, kd, m), map[]) == m
  {
    hide Restricts, Replay, Rewritten;
    RewrittenReplay(order, |order|, kd, m);
    assert order[..|order|] == order;
    RestrictsAll(Replay(Rewritten(order, |order|, kd, m), map[]), m, order);
  }

  /** The rewritten records take exactly what the mapping takes. */
  lemma RewrittenSize(order: seq<Bytes>, kd: KeyMap, m: Store)
    requires kd.Keys == m.Keys && Walk(order, kd)
    ensures TotalLen(Rewritten(order, |order|, kd, m)) == StoreSize(m)
  {
    hide TotalLen, StoreSize, Rewritten;
    var es := Rewritten(order, |order|, kd, m);
    forall k | k in m
      ensures exists i :: 0 <= i < |es| && KeyBytes(es[i]) == k
    {
      assert k in order;
      var i :| 0 <= i < |order| && order[i] == k;
      assert KeyBytes(es[i]) == k;
    }
    CopiesSize(es, m);
  }

  /** One more record at the end of the file. */
  ghost predicate Grown(file: Bytes, file': Bytes, e: Entry) { Fits(e) && file' == file + Encode(e) }

  class KvEngine {
    var disk: FileDisk
    var keydir: KeyMap
    var writeOffset: nat
    const start: FileDisk
    var trail: seq<FileDisk>
    ghost var log: seq<Entry>

    ghost predicate Valid()
      reads this
    {
      && Plain(log) && disk.file == EncodeAll(log) && |disk.file| <= MAX_FILE
      && keydir == IndexFrom(0, log, map[]) && writeOffset == |disk.file|
      && History()
    }

    /** The trail leaves out no disk state: every step of it is one system call. */
    ghost predicate History()
      reads this`disk, this`trail
    {
      Recorded(OneFileCall, start, trail, disk)
    }

    ghost function Contents(): Store
      reads this
    {
      Replay(log, map[])
    }

    /** Contents and the length of the file. */
    ghost function State(): Image
      reads this
    {
      ImageOf(log)
    }

    /** Opening: replay the file, trim a torn tail. */
    constructor (d: FileDisk, ghost c: Image)
      requires FileHolds(d, c)
      ensures Valid() && State() == c && disk.tmp == d.tmp
      ensures Survives(trail, 0, c, c)
    {
      hide EncodeAll, ImageOf, IndexFrom, Torn, ScanV1, TotalLen, Recorded;
      ghost var es, tail :| IntactAs(d.file, es, tail, c);
      ScanIntact(es, tail);
      var offset, kd := RebuildIndex(d.file);
      assert d.file[..offset] == EncodeAll(es);
      var d' := d.(file := d.file[..offset]);
      HoldsWhole(d', es);
      RecordNothing(OneFileCall, d);
      FileCallIsStep(TruncateFile(offset), d);
      RecordStep(OneFileCall, d, [], d, d');
      assert [] + [d'] == [d'];
      disk, keydir, writeOffset, trail, start := d', kd, offset, [d'], d;
      log := es;
    }

    /** pwrite of one whole record; death may leave any strict prefix of it. */
    method Append(e: Entry) returns (ok: bool)
      requires Valid() && Fits(e) && !e.Base?
      modifies this
      ensures Valid() && ok == (old(writeOffset) + RecLen(e) <= MAX_FILE)
      ensures log == (if ok then old(log) + [e] else old(log)) && (!ok ==> disk == old(disk))
      ensures ok ==> disk.file == old(disk).file + Encode(e)
      ensures writeOffset == if ok then old(writeOffset) + RecLen(e) else old(writeOffset)
      ensures old(trail) <= trail && Survives(trail, |old(trail)|, old(State()), State())
    {
      hide EncodeAll, ImageOf, IndexFrom, IndexOne, Encode, TotalLen, FileHolds, Survives, ReplayEntry, RecLen,
        Recorded;
      ghost var c, es, file := State(), log, disk.file;
      NothingYet(trail, c, c);
      if writeOffset + RecLen(e) > MAX_FILE {
        return false;
      }
      PlainSnoc(es, e);
      ghost var c' := ImageOf(es + [e]);
      NothingYet(trail, c, c');
      var rec := Encode(e);
      assert file + rec[..0] == file;
      for i := 0 to |rec|
        invariant History() && disk.file == file + rec[..i] && log == es && keydir == old(keydir)
                  && writeOffset == old(writeOffset)
        invariant old(trail) <= trail && Survives(trail, |old(trail)|, c, c')
      {
        var d := disk.(file := disk.file + [rec[i]]);
        assert d.file == file + rec[..i + 1];
        if i + 1 < |rec| {
          HoldsTorn(d, es, e, i + 1);
        } else {
          assert rec[..i + 1] == rec;
          HoldsWhole(d, es + [e]);
        }
        Step(WriteFile(rec[i]), d, |old(trail)|, c, c');
      }
      assert rec[..|rec|] == rec;
      keydir := IndexOne(writeOffset, e, keydir);
      writeOffset := writeOffset + |rec|;
      log := es + [e];
      return true;
    }

    method Put(key: Bytes, value: Bytes, now: u64) returns (ok: bool)
      requires Valid()
      modifies this
      ensures Valid()
      ensures ok == (|key| < U32_LIMIT && |value| < COMPACTION_BASE
                     && old(writeOffset) + HEADER_SIZE + |key| + |value| <= MAX_FILE)
      ensures Contents() == if ok then old(Contents())[key := value] else old(Contents())
      ensures writeOffset == if ok then old(writeOffset) + HEADER_SIZE + |key| + |value| else old(writeOffset)
      ensures ok ==> Grown(old(disk).file, disk.file, Entry.Put(now, key, value))
      ensures !ok ==> disk == old(disk)
      ensures old(trail) <= trail && Survives(trail, |old(trail)|, old(State()), State())
    {
      hide Survives, EncodeAll, IndexFrom, Plain, Recorded;
      NothingYet(trail, State(), State());
      if |key| >= U32_LIMIT || |value| >= COMPACTION_BASE { return false; }
      ghost var es := log;
      ReplayStart(es, Entry.Put(now, key, value), map[]);
      ok := Append(Entry.Put(now, key, value));
    }

    method Get(key: Bytes) returns (v: Option<Bytes>)
      requires Valid()
      ensures v == if key in Contents() then Some(Contents()[key]) else None
    {
      hide EncodeAll, IndexFrom, Plain, Replay, LeadsTo, Recorded;
      IndexLeads(log);
      if key !in keydir { return None; }
      var p := keydir[key];
      PlaceOf(disk.file, key, p, Contents()[key]);
      if p.size == 0 { return Some([]); }
      return Some(disk.file[p.pos..p.pos + p.size]);
    }

    method Delete(key: Bytes, now: u64) returns (ok: bool)
      requires Valid()
      modifies this
      ensures Valid()
      ensures ok == (key in old(Contents()) && old(writeOffset) + HEADER_SIZE + |key| <= MAX_FILE)
      ensures Contents() == if ok then old(Contents()) - {key} else old(Contents())
      ensures writeOffset == if ok then old(writeOffset) + HEADER_SIZE + |key| else old(writeOffset)
      ensures ok ==> Grown(old(disk).file, disk.file, Entry.Del(now, key))
      ensures !ok ==> disk == old(disk)
      ensures old(trail) <= trail && Survives(trail, |old(trail)|, old(State()), State())
    {
      hide Survives, EncodeAll, IndexFrom, Plain, LeadsTo, Recorded;
      NothingYet(trail, State(), State());
      IndexLeads(log);
      if key !in keydir { return false; }
      PlaceOf(disk.file, key, keydir[key], Contents()[key]);
      ReplayStart(log, Entry.Del(now, key), map[]);
      ok := Append(Entry.Del(now, key));
    }

    /** Writes one more record to the temporary file. */
    method AppendTmp(rec: Bytes, ghost c: Image, ghost from: nat)
      requires History() && disk.tmp.Some? && FileHolds(disk, c) && Survives(trail, from, c, c)
      modifies this`disk, this`trail
      ensures History() && disk == old(disk).(tmp := Some(old(disk).tmp.value + rec))
      ensures old(trail) <= trail && Survives(trail, from, c, c)
    {
      hide FileHolds, Survives, Recorded;
      ghost var d0, t0 := disk, disk.tmp.value;
      assert t0 + rec[..0] == t0;
      for i := 0 to |rec|
        invariant History() && disk == d0.(tmp := Some(t0 + rec[..i]))
        invariant old(trail) <= trail && Survives(trail, from, c, c)
      {
        assert t0 + rec[..i] + [rec[i]] == t0 + rec[..i + 1];
        var d := disk.(tmp := Some(disk.tmp.value + [rec[i]]));
        SameFileHolds(d0, d, c);
        Step(WriteTmp(rec[i]), d, from, c, c);
      }
      assert rec[..|rec|] == rec;
    }

    /** One system call; the disk becomes d, a state a death can leave behind. */
    method Step(call: FileCall, ghost d: FileDisk, ghost from: nat, ghost c: Image, ghost c': Image)
      requires History() && d == FilePerformed(call, disk)
      requires Survives(trail, from, c, c') && (FileHolds(d, c) || FileHolds(d, c'))
      modifies this`disk, this`trail
      ensures History() && disk == d && trail == old(trail) + [d] && Survives(trail, from, c, c')
    {
      hide FileHolds, Survives, FilePerformed, Recorded, OneFileCall;
      SurvivesStep(trail, from, c, c', d);
      FileCallIsStep(call, disk);
      RecordStep(OneFileCall, start, trail, disk, FilePerformed(call, disk));
      disk := FilePerformed(call, disk);
      trail := trail + [disk];
    }

    /** Copies the live records to the temporary file, in any order. */
    method Copy(order: seq<Bytes>, ghost c: Image, ghost m: Store, ghost from: nat)
      returns (ok: bool, kd: KeyMap, ghost es: seq<Entry>)
      requires Valid() && c == State() && m == Contents() && Walk(order, keydir) && disk.tmp == Some([])
               && Survives(trail, from, c, c)
      modifies this`disk, this`trail
      ensures Valid() && disk.file == old(disk).file && disk.tmp.Some?
      ensures old(trail) <= trail && Survives(trail, from, c, c)
      ensures keydir.Keys == m.Keys && es == Rewritten(order, |order|, keydir, m) && Plain(es)
              && ok == (TotalLen(es) <= MAX_FILE)
      ensures ok ==> disk.tmp == Some(EncodeAll(es)) && kd == IndexFrom(0, es, map[])
    {
      hide FileHolds, Survives, EncodeAll, IndexFrom, IndexOne, Fits, Readable, Replay, ImageOf, LeadsTo, Encode,
        Rewritten, TotalLen, RecLen, ReplayEntry, Recorded;
      IndexLeads(log);
      HoldsWhole(disk, log);
      kd := map[];
      ok := true;
      var offset: nat := 0;
      RewrittenFits(order, disk.file, keydir, m);
      es := Rewritten(order, |order|, keydir, m);
      ghost var done := es[..0];
      NothingCopied();
      for i := 0 to |order|
        invariant History() && disk.file == old(disk).file && disk.tmp.Some? && FileHolds(disk, c)
        invariant old(trail) <= trail && Survives(trail, from, c, c)
        invariant Plain(done) && done == es[..i] && ok == (TotalLen(done) <= MAX_FILE)
        invariant ok ==>
                    offset == TotalLen(done) && disk.tmp == Some(EncodeAll(done)) && kd == IndexFrom(0, done, map[])
      {
        var key := order[i];
        var p := keydir[key];
        PlaceOf(disk.file, key, p, m[key]);
        var value := if p.size > 0 then disk.file[p.pos..p.pos + p.size] else [];
        var e := Entry.Put(p.ts, key, value);
        RewrittenAt(order, i, keydir, m);
        assert e == es[i] && done + [e] == es[..i + 1];
        PlainHere(es, i);
        PlainSnoc(done, e);
        TotalSnoc(done, e);
        if ok {
          if offset + RecLen(e) > MAX_FILE {
            ok := false;
          } else {
            ghost var d0 := disk;
            AppendTmp(Encode(e), c, from);
            SameFileHolds(d0, disk, c);
            kd := IndexOne(offset, e, kd);
            offset := offset + RecLen(e);
          }
        }
        done := done + [e];
      }
      assert es[..|order|] == es;
    }

    /** compact: all keys rewritten, published by one rename; any failure before leaves the file alone. */
    method Compact(order: seq<Bytes>, opens: bool, renames: bool) returns (ok: bool, ghost es: seq<Entry>)
      requires Valid() && Walk(order, keydir)
      modifies this
      ensures Valid() && Contents() == old(Contents())
      ensures old(trail) <= trail && Survives(trail, |old(trail)|, old(State()), State())
      ensures old(keydir).Keys == old(Contents()).Keys && es == Rewritten(order, |order|, old(keydir), old(Contents()))
      ensures ok == (opens && renames && StoreSize(old(Contents())) <= MAX_FILE)
      ensures writeOffset == if ok then StoreSize(old(Contents())) else old(writeOffset)
      ensures if ok then log == es && disk.tmp == None else disk.file == old(disk).file && log == old(log)
    {
      hide FileHolds, Survives, EncodeAll, IndexFrom, Fits, Readable, Replay, LeadsTo, Rewritten, TotalLen, Walk,
        Recorded, ImageOf, StoreSize;
      ghost var m, c, from := Contents(), State(), |trail|;
      NothingYet(trail, c, c);
      IndexLeads(log);
      HoldsWhole(disk, log);
      RewrittenWalk(order, keydir, m);
      es := Rewritten(order, |order|, keydir, m);
      RewrittenSize(order, keydir, m);
      if !opens { return false, es; }
      SameFileHolds(disk, disk.(tmp := Some([])), c);
      Step(CreateTmp, disk.(tmp := Some([])), from, c, c);
      var copied, kd;
      copied, kd, es := Copy(order, c, m, from);
      HoldsWhole(disk, log);
      if !copied || !renames {
        SameFileHolds(disk, disk.(tmp := None), c);
        Step(UnlinkTmp, disk.(tmp := None), from, c, c);
        return false, es;
      }
      EncodeAllLength(es);
      HoldsWhole(FileDisk(disk.tmp.value, None), es);
      RewrittenKeepsMap(order, keydir, m);
      SurvivesEither(trail, from, c, ImageOf(es));
      Step(RenameTmp, FileDisk(disk.tmp.value, None), from, c, ImageOf(es));
      keydir, writeOffset := kd, |disk.file|;
      log := es;
      return true, es;
    }
  }

  lemma NothingYet(trail: seq<FileDisk>, c: Image, c': Image)
    ensures Survives(trail, |trail|, c, c')
  {
  }

  lemma SurvivesEither(trail: seq<FileDisk>, from: nat, c: Image, c': Image)
    requires Survives(trail, from, c, c)
    ensures Survives(trail, from, c, c')
  {
    hide FileHolds;
  }

  lemma SameFileHolds(d: FileDisk, d': FileDisk, c: Image)
    requires FileHolds(d, c) && d'.file == d.file
    ensures FileHolds(d', c)
  {
    hide IntactAs;
  }

  lemma PlaceOf(file: Bytes, k: Bytes, p: Place, v: Bytes)
    requires LeadsTo(file, k, p, v)
    ensures |k| < U32_LIMIT && |v| < COMPACTION_BASE && p.size == |v| && p.pos + p.size <= |file|
    ensures file[p.pos..p.pos + p.size] == v && (p.size == 0 ==> v == [])
  {
  }

  lemma PlainHere(es: seq<Entry>, i: nat)
    requires Plain(es) && i < |es|
    ensures Fits(es[i]) && Readable(es[i]) && !es[i].Base?
  {
  }

  lemma NothingCopied()
    ensures Plain([]) && TotalLen([]) == 0 && EncodeAll([]) == [] && IndexFrom(0, [], map[]) == map[]
  {
  }

  lemma TotalSnoc(es: seq<Entry>, e: Entry)
    ensures TotalLen(es + [e]) == TotalLen(es) + RecLen(e)
  {
    hide RecLen;
    assert (es + [e])[..|es|] == es;
  }

  lemma EncodeAllLength(es: seq<Entry>)
    requires AllFit(es)
    ensures |EncodeAll(es)| == TotalLen(es)
  {
  }

  lemma RewrittenWalk(order: seq<Bytes>, kd: KeyMap, m: Store)
    requires Walk(order, kd) && kd.Keys == m.Keys
    ensures forall i :: 0 <= i < |order| ==> order[i] in kd && order[i] in m
  {
  }

  lemma RewrittenFits(order: seq<Bytes>, file: Bytes, kd: KeyMap, m: Store)
    requires Walk(order, kd) && Leads(file, kd, m)
    ensures Plain(Rewritten(order, |order|, kd, m))
  {
    hide Rewritten, LeadsTo;
    var es := Rewritten(order, |order|, kd, m);
    forall i | 0 <= i < |es|
      ensures Fits(es[i]) && Readable(es[i])
    {
      PlaceOf(file, order[i], kd[order[i]], m[order[i]]);
    }
  }

  lemma RewrittenAt(order: seq<Bytes>, i: nat, kd: KeyMap, m: Store)
    requires kd.Keys == m.Keys && Walk(order, kd) && i < |order|
    ensures Rewritten(order, |order|, kd, m)[i] == Put(kd[order[i]].ts, order[i], m[order[i]])
  {
    hide Rewritten;
  }

  /** The write offset is the end of the last valid record of the file. */
  lemma OffsetIsEnd(e: KvEngine)
    requires e.Valid()
    ensures e.writeOffset == TotalLen(ScanV1(e.disk.file))
  {
    hide EncodeAll, ScanV1, TotalLen, Torn, IndexFrom;
    EmptyTorn();
    ScanIntact(e.log, []);
    assert EncodeAll(e.log) + [] == e.disk.file;
    EncodeAllLength(e.log);
  }
}
