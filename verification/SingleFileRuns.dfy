/**
  Whole runs of the single-file engine: operations, reopenings, and deaths at any
  disk step followed by any number of startups that die as well. Every run behaves
  like the same run on a plain map that counts the bytes it has been given, whatever
  order the hash map is walked in.
*/
module SingleFileRuns {
  import opened Bytes
  import opened RecordFormat
  import opened Trails
  import opened Directory
  import opened SingleFile
  import opened SingleFileEngine

  datatype Op = PutOp(key: Bytes, value: Bytes, now: u64) | DelOp(key: Bytes, now: u64) | GetOp(key: Bytes)
              | CompactOp(opens: bool, renames: bool)

  datatype Event =
    | Do(op: Op)
    | Reopen
    /** Death in disk state number `at` of the operation, then in the given state of each startup. */
    | Die(op: Op, at: nat, startups: seq<nat>)

  datatype Outcome = Ack(ok: bool) | Value(value: Option<Bytes>) | Silent

  /** When an operation succeeds. */
  ghost predicate Accepted(op: Op, c: Image) {
    match op
    case PutOp(key, value, _) =>
      |key| < U32_LIMIT && |value| < COMPACTION_BASE && c.size + HEADER_SIZE + |key| + |value| <= MAX_FILE
    case DelOp(key, _) => key in c.store && c.size + HEADER_SIZE + |key| <= MAX_FILE
    case GetOp(_) => true
    case CompactOp(opens, renames) => opens && renames && StoreSize(c.store) <= MAX_FILE
  }

  /** The operation on a plain map that counts bytes. */
  ghost function After(op: Op, c: Image): Image {
    if !Accepted(op, c) then c
    else match op
      case PutOp(key, value, _) => Image(c.store[key := value], c.size + HEADER_SIZE + |key| + |value|)
      case DelOp(key, _) => Image(c.store - {key}, c.size + HEADER_SIZE + |key|)
      case GetOp(_) => c
      case CompactOp(_, _) => Image(c.store, StoreSize(c.store))
  }

  ghost function Answer(op: Op, c: Image): Outcome {
    match op
    case GetOp(key) => Value(if key in c.store then Some(c.store[key]) else None)
    case _ => Ack(Accepted(op, c))
  }

  /** One event: the operation in flight at a death is applied entirely or not at all. */
  ghost predicate ModelStep(ev: Event, c: Image, out: Outcome, c': Image) {
    match ev
    case Do(op) => out == Answer(op, c) && c' == After(op, c)
    case Reopen => out == Silent && c' == c
    case Die(op, _, _) => out == Silent && (c' == c || c' == After(op, c))
  }

  /** Some walk over the index; nothing is known about its order. */
  method AnyWalk(kd: KeyMap) returns (order: seq<Bytes>)
    ensures Walk(order, kd)
  {
    order := [];
    var rest := kd.Keys;
    while rest != {}
      invariant rest <= kd.Keys
      invariant forall k :: k in kd ==> (k in rest <==> k !in order)
      invariant forall i :: 0 <= i < |order| ==> order[i] in kd
      invariant forall i, j :: 0 <= i < j < |order| ==> order[i] != order[j]
      decreases rest
    {
      var k :| k in rest;
      assert k in kd.Keys && k !in order;
      order := order + [k];
      rest := rest - {k};
    }
  }

  method Perform(e: KvEngine, op: Op) returns (out: Outcome)
    requires e.Valid()
    modifies e
    ensures e.Valid() && out == Answer(op, old(e.State())) && e.State() == After(op, old(e.State()))
    ensures old(e.trail) <= e.trail && Survives(e.trail, |old(e.trail)|, old(e.State()), e.State())
  {
    hide Survives, Plain, EncodeAll, IndexFrom, Replay, Walk, StoreSize, TotalLen;
    StateIs(e);
    match op {
      case PutOp(key, value, now) =>
        var ok := e.Put(key, value, now);
        out := Ack(ok);
      case DelOp(key, now) =>
        var ok := e.Delete(key, now);
        out := Ack(ok);
      case GetOp(key) =>
        var v := e.Get(key);
        NothingYet(e.trail, e.State(), e.State());
        out := Value(v);
      case CompactOp(opens, renames) =>
        var order := AnyWalk(e.keydir);
        var ok, _ := e.Compact(order, opens, renames);
        out := Ack(ok);
    }
    StateIs(e);
  }

  lemma StateIs(e: KvEngine)
    requires e.Valid()
    ensures e.State() == Image(e.Contents(), e.writeOffset)
  {
    hide Readable, Fits, EncodeAll, TotalLen, IndexFrom, Replay, Recorded;
    EncodeAllLength(e.log);
  }

  /** Startups after a death; all but the last die too. */
  method Restart(d0: FileDisk, startups: seq<nat>, ghost c: Image) returns (e: KvEngine)
    requires FileHolds(d0, c)
    ensures fresh(e) && e.Valid() && e.State() == c
  {
    hide FileHolds, Plain, EncodeAll, IndexFrom, ImageOf;
    var d := d0;
    for i := 0 to |startups|
      invariant FileHolds(d, c)
    {
      var dying := new KvEngine(d, c);
      if startups[i] < |dying.trail| {
        d := dying.trail[startups[i]];
      }
    }
    e := new KvEngine(d, c);
  }

  lemma ValidHolds(e: KvEngine)
    requires e.Valid()
    ensures FileHolds(e.disk, e.State())
  {
    hide FileHolds, Plain, EncodeAll, IndexFrom, ImageOf;
    HoldsWhole(e.disk, e.log);
  }

  method Happen(e: KvEngine, ev: Event) returns (e': KvEngine, out: Outcome)
    requires e.Valid()
    modifies e
    ensures e'.Valid() && ModelStep(ev, old(e.State()), out, e'.State()) && (e' == e || fresh(e'))
  {
    hide FileHolds, Plain, EncodeAll, IndexFrom, ImageOf, Answer, After;
    e', out := e, Silent;
    ghost var c := e.State();
    ValidHolds(e);
    match ev {
      case Do(op) =>
        out := Perform(e, op);
      case Reopen =>
        e' := Restart(e.disk, [], c);
      case Die(op, at, startups) =>
        var d, n := e.disk, |e.trail|;
        var _ := Perform(e, op);
        ghost var c' := c;
        if n + at < |e.trail| {
          d := e.trail[n + at];
          c' := if FileHolds(d, c) then c else e.State();
        }
        e' := Restart(d, startups, c');
    }
  }

  ghost predicate Explains(evs: seq<Event>, outs: seq<Outcome>, cs: seq<Image>) {
    && |outs| == |evs| && |cs| == |evs| + 1
    && forall i :: 0 <= i < |evs| ==> ModelStep(evs[i], cs[i], outs[i], cs[i + 1])
  }

  lemma ExplainOne(evs: seq<Event>, i: nat, outs: seq<Outcome>, cs: seq<Image>, out: Outcome, c: Image)
    requires i < |evs| && Explains(evs[..i], outs, cs) && ModelStep(evs[i], cs[i], out, c)
    ensures Explains(evs[..i + 1], outs + [out], cs + [c])
  {
    hide ModelStep;
    assert evs[..i + 1][..i] == evs[..i];
  }

  /** Every run is explained by a run of the plain map, and the write offset ends at the last valid record. */
  method Drive(d0: FileDisk, evs: seq<Event>, ghost c0: Image)
    returns (outs: seq<Outcome>, e: KvEngine, ghost cs: seq<Image>)
    requires FileHolds(d0, c0)
    ensures Explains(evs, outs, cs) && cs[0] == c0
    ensures e.Valid() && cs[|evs|] == Image(e.Contents(), e.writeOffset)
    ensures e.writeOffset == TotalLen(ScanV1(e.disk.file))
  {
    hide FileHolds, Plain, EncodeAll, IndexFrom, ImageOf, Explains, ScanV1, TotalLen;
    e := Restart(d0, [], c0);
    outs, cs := [], [c0];
    Unexplained(c0);
    for i := 0 to |evs|
      invariant |cs| == i + 1 && Explains(evs[..i], outs, cs) && cs[0] == c0
      invariant fresh(e) && e.Valid() && e.State() == cs[i]
    {
      var out;
      e, out := Happen(e, evs[i]);
      ExplainOne(evs, i, outs, cs, out, e.State());
      outs, cs := outs + [out], cs + [e.State()];
    }
    assert evs[..|evs|] == evs;
    StateIs(e);
    OffsetIsEnd(e);
  }

  lemma Unexplained(c: Image)
    ensures Explains([], [], [c])
  {
  }

  /** A missing or empty file stands for the empty mapping. */
  lemma EmptyFile()
    ensures FileHolds(FileDisk([], None), Image(map[], 0))
  {
    NothingCopied();
    HoldsWhole(FileDisk([], None), []);
  }
}
