/**
  The log of the single-file engine (kv_engine.hpp). It shares the record format,
  but its reader knows no base markers: the value-length field 0xFFFFFFFE is a real
  length to it. Its scan is proved on arbitrary bytes, and on every file its own
  writer can leave behind.
*/
module SingleFile {
  import opened Bytes
  import opened RecordFormat
  import opened Directory
  import Crc32

  /** The acceptance test of rebuild_index for the record at the front of s. */
  function ParseV1(s: Bytes): (r: Option<Entry>)
    ensures r.Some? ==> !r.value.Base? && RecLen(r.value) <= |s| && Readable(r.value)
  {
    if |s| < HEADER_SIZE then None else
    var crc, ts := FromLe32(s[..4]), FromLe64(s[4..12]);
    var klen, vlen := FromLe32(s[12..16]), FromLe32(s[16..20]);
    var len := HEADER_SIZE + klen + (if vlen == TOMBSTONE then 0 else vlen);
    if len > |s| then None else
    if Crc32.Crc(s[4..len]) != crc then None else
    var key := s[20..20 + klen];
    if vlen == TOMBSTONE then Some(Del(ts, key)) else Some(Put(ts, key, s[20 + klen..len]))
  }

  /** What the reader can return. */
  predicate Readable(e: Entry) {
    !e.Base? && |e.key| < U32_LIMIT && (e.Put? ==> |e.value| < TOMBSTONE)
  }

  function ScanV1(s: Bytes): (es: seq<Entry>)
    ensures forall i :: 0 <= i < |es| ==> Readable(es[i])
    decreases |s|
  {
    match ParseV1(s)
    case None => []
    case Some(e) => [e] + ScanV1(s[RecLen(e)..])
  }

  /** The two readers differ only on the reserved length field. */
  lemma ReadersAgree(s: Bytes)
    requires |s| < HEADER_SIZE || FromLe32(s[16..20]) != COMPACTION_BASE
    ensures ParseV1(s) == Parse(s)
  {
    hide Crc32.Crc, FromLe32, FromLe64;
  }

  /** A record is recognised from its own bytes alone. */
  lemma ParsePrefix(s: Bytes, n: nat)
    requires ParseV1(s).Some? && RecLen(ParseV1(s).value) <= n <= |s|
    ensures ParseV1(s[..n]) == ParseV1(s)
  {
    hide Crc32.Crc, FromLe32, FromLe64;
    var t := s[..n];
    assert t[..4] == s[..4] && t[4..12] == s[4..12] && t[12..16] == s[12..16] && t[16..20] == s[16..20];
    var klen, vlen := FromLe32(s[12..16]), FromLe32(s[16..20]);
    var len := HEADER_SIZE + klen + (if vlen == TOMBSTONE then 0 else vlen);
    assert t[4..len] == s[4..len] && t[20..20 + klen] == s[20..20 + klen] && t[20 + klen..len] == s[20 + klen..len];
  }

  lemma {:induction false} ScanInside(s: Bytes)
    ensures TotalLen(ScanV1(s)) <= |s|
    decreases |s|
  {
    hide ParseV1, RecLen, TotalLen;
    if ParseV1(s).Some? {
      var e := ParseV1(s).value;
      var rest := s[RecLen(e)..];
      ScanInside(rest);
      TotalCons(e, ScanV1(rest));
    } else {
      TotalEmpty();
    }
  }

  /** Truncating where the scan stopped and scanning again gives the same records. */
  lemma {:induction false} ScanV1Truncated(s: Bytes)
    ensures TotalLen(ScanV1(s)) <= |s| && ScanV1(s[..TotalLen(ScanV1(s))]) == ScanV1(s)
    decreases |s|
  {
    hide ParseV1, RecLen, TotalLen;
    ScanInside(s);
    if ParseV1(s).Some? {
      var e := ParseV1(s).value;
      var rest := s[RecLen(e)..];
      ScanV1Truncated(rest);
      ScanInside(rest);
      var n := TotalLen(ScanV1(rest));
      TotalCons(e, ScanV1(rest));
      ParsePrefix(s, RecLen(e) + n);
      assert s[..RecLen(e) + n][RecLen(e)..] == rest[..n];
    } else {
      TotalEmpty();
      ShortParse();
    }
  }

  lemma ShortParse()
    ensures ParseV1([]) == None
  {
  }

  // ---------- The files the engine leaves behind ----------

  /** Records the engine writes. */
  predicate Plain(es: seq<Entry>) {
    AllFit(es) && forall i :: 0 <= i < |es| ==> Readable(es[i])
  }

  /** A record cut short by process death (or nothing). */
  ghost predicate Torn(tail: Bytes) {
    exists e, n: nat :: Fits(e) && !e.Base? && n < RecLen(e) && tail == Encode(e)[..n]
  }

  lemma EmptyTorn()
    ensures Torn([])
  {
    var e := Del(0, []);
    assert Fits(e) && Encode(e)[..0] == [];
  }

  lemma EncodedField(e: Entry, rest: Bytes, n: nat)
    requires Fits(e) && !e.Base? && n <= RecLen(e) && (n == RecLen(e) || rest == [])
    ensures var s := Encode(e)[..n] + rest; |s| < HEADER_SIZE || FromLe32(s[16..20]) != COMPACTION_BASE
  {
    hide Crc32.Crc, Covered, Le32, Le64, FromLe32, FromLe64;
    var key, value := KeyBytes(e), ValueBytes(e);
    var c := Covered(e.ts, |key|, VField(e), key + value);
    HeaderFields(e.ts, |key|, VField(e), key + value, Crc32.Crc(c), []);
    var b := Encode(e);
    assert b == Le32(Crc32.Crc(c)) + c + [];
    var s := b[..n] + rest;
    if n >= HEADER_SIZE {
      assert s[16..20] == b[16..20];
    } else {
      assert n != RecLen(e) && s == b[..n];
    }
  }

  lemma TornRejected(tail: Bytes)
    requires Torn(tail)
    ensures ParseV1(tail) == None
  {
    hide Encode, Parse, ParseV1, FromLe32;
    var e, n: nat :| Fits(e) && !e.Base? && n < RecLen(e) && tail == Encode(e)[..n];
    EncodedField(e, [], n);
    assert tail + [] == tail;
    ReadersAgree(tail);
    ParseTorn(e, n);
  }

  lemma ScanFirst(e: Entry, rest: Bytes)
    requires Fits(e) && !e.Base?
    ensures ScanV1(Encode(e) + rest) == [e] + ScanV1(rest)
  {
    hide Encode, Parse, ParseV1, FromLe32;
    assert Encode(e)[..RecLen(e)] == Encode(e);
    EncodedField(e, rest, RecLen(e));
    ReadersAgree(Encode(e) + rest);
    ParseEncode(e, rest);
    assert (Encode(e) + rest)[RecLen(e)..] == rest;
  }

  lemma ScanNothing(s: Bytes)
    requires ParseV1(s) == None
    ensures ScanV1(s) == []
  {
    hide ParseV1;
  }

  /** Whole records before bytes at which nothing is accepted. */
  lemma {:induction false} ScanBefore(es: seq<Entry>, tail: Bytes)
    requires Plain(es) && ScanV1(tail) == []
    ensures ScanV1(EncodeAll(es) + tail) == es
    decreases |es|
  {
    hide Encode, ScanV1, EncodeAll, Fits;
    if es == [] {
      TotalEmpty();
      assert [] + tail == tail;
    } else {
      var e, rest := es[0], es[1..];
      assert es == [e] + rest;
      EncodeCons(e, rest);
      Associate(Encode(e), EncodeAll(rest), tail);
      ScanFirst(e, EncodeAll(rest) + tail);
      ScanBefore(rest, tail);
    }
  }

  /** Whole records and a torn tail: exactly the whole records come back. */
  lemma ScanIntact(es: seq<Entry>, tail: Bytes)
    requires Plain(es) && Torn(tail)
    ensures ScanV1(EncodeAll(es) + tail) == es
  {
    hide ScanV1, ParseV1, Torn, EncodeAll;
    TornRejected(tail);
    ScanNothing(tail);
    ScanBefore(es, tail);
  }

  /** Damage of at most four consecutive bytes inside the checksum, timestamp, key or value of a record is
      noticed by this reader too, and the scan keeps exactly the records before it. */
  lemma DamageDetectedV1(es: seq<Entry>, e: Entry, d: Bytes, i: nat, rest: Bytes)
    requires Plain(es) && Fits(e) && Readable(e) && |d| == RecLen(e) && d != Encode(e)
    requires forall j :: 0 <= j < |d| && d[j] != Encode(e)[j] ==> i <= j < i + 4
    requires d[12..20] == Encode(e)[12..20]
    requires i == 0 || 4 <= i
    ensures ParseV1(d + rest) == None
    ensures ScanV1(EncodeAll(es) + (d + rest)) == es
  {
    hide Encode, Parse, ParseV1, ScanV1, EncodeAll;
    DamageDetected([], e, d, i, rest);
    VFieldAt(e, d, rest);
    ReadersAgree(d + rest);
    ScanNothing(d + rest);
    ScanBefore(es, d + rest);
  }

  /** With the length fields intact, the value length field is not the reserved one. */
  lemma VFieldAt(e: Entry, d: Bytes, rest: Bytes)
    requires Fits(e) && Readable(e) && |d| == RecLen(e) && d[12..20] == Encode(e)[12..20]
    ensures |d + rest| >= HEADER_SIZE && FromLe32((d + rest)[16..20]) == VField(e) && VField(e) != COMPACTION_BASE
  {
    hide Crc32.Crc, Le32, Le64, FromLe32, FromLe64, Covered;
    var s := Encode(e);
    LengthFields(d);
    LengthFields(s);
    var key, value := KeyBytes(e), ValueBytes(e);
    var c := Covered(e.ts, |key|, VField(e), key + value);
    HeaderFields(e.ts, |key|, VField(e), key + value, Crc32.Crc(c), []);
    assert s == Le32(Crc32.Crc(c)) + c + [];
    FrontSlice(d, rest, 16, 20);
  }

  // ---------- The index ----------

  datatype Place = Place(pos: nat, size: u32, ts: u64)
  type KeyMap = map<Bytes, Place>

  function IndexOne(off: nat, e: Entry, kd: KeyMap): KeyMap
    requires Readable(e)
  {
    if e.Put? then kd[e.key := Place(off + HEADER_SIZE + |e.key|, |e.value|, e.ts)] else kd - {e.key}
  }

  /** The index after the records es, the first of which starts at off. */
  function IndexFrom(off: nat, es: seq<Entry>, kd: KeyMap): KeyMap
    requires forall i :: 0 <= i < |es| ==> Readable(es[i])
    decreases |es|
  {
    if es == [] then kd else IndexFrom(off + RecLen(es[0]), es[1..], IndexOne(off, es[0], kd))
  }

  /** rebuild_index: the index and the stopping point of the scan, on arbitrary bytes. */
  method RebuildIndex(s: Bytes) returns (offset: nat, kd: KeyMap)
    ensures offset == TotalLen(ScanV1(s)) <= |s|
    ensures kd == IndexFrom(0, ScanV1(s), map[])
  {
    hide ParseV1, IndexOne, RecLen, TotalLen;
    offset, kd := 0, map[];
    ghost var whole := IndexFrom(0, ScanV1(s), map[]);
    ghost var total := TotalLen(ScanV1(s));
    assert s[0..] == s;
    ScanInside(s);
    while ParseV1(s[offset..]).Some?
      invariant offset <= |s|
      invariant IndexFrom(offset, ScanV1(s[offset..]), kd) == whole && offset + TotalLen(ScanV1(s[offset..])) == total
      decreases |s| - offset
    {
      var e := ParseV1(s[offset..]).value;
      ghost var rest := s[offset..][RecLen(e)..];
      assert rest == s[offset + RecLen(e)..];
      assert ScanV1(s[offset..]) == [e] + ScanV1(rest);
      assert ([e] + ScanV1(rest))[1..] == ScanV1(rest);
      TotalCons(e, ScanV1(rest));
      kd := IndexOne(offset, e, kd);
      offset := offset + RecLen(e);
    }
    TotalEmpty();
  }

  ghost predicate LeadsTo(file: Bytes, k: Bytes, p: Place, v: Bytes) {
    && |k| < U32_LIMIT && |v| < COMPACTION_BASE && p.size == |v|
    && p.pos + |v| <= |file| && file[p.pos..p.pos + |v|] == v
  }

  /** Every key of the index leads to the bytes of its value. */
  ghost predicate Leads(file: Bytes, kd: KeyMap, m: Store) {
    kd.Keys == m.Keys && forall k :: k in kd ==> LeadsTo(file, k, kd[k], m[k])
  }

  lemma ReplayStart(es: seq<Entry>, e: Entry, m: Store)
    ensures Replay(es + [e], m) == ReplayEntry(e, Replay(es, m))
  {
    hide ReplayEntry;
    assert (es + [e])[..|es|] == es;
  }

  lemma {:induction false} IndexSnoc(off: nat, es: seq<Entry>, e: Entry, kd: KeyMap)
    requires Plain(es) && Fits(e) && !e.Base?
    ensures Plain(es + [e])
    ensures IndexFrom(off, es + [e], kd) == IndexOne(off + TotalLen(es), e, IndexFrom(off, es, kd))
    decreases |es|
  {
    hide IndexOne, RecLen;
    if es == [] {
      assert [e][1..] == [];
      assert es + [e] == [e];
    } else {
      assert (es + [e])[1..] == es[1..] + [e];
      assert es == [es[0]] + es[1..];
      TotalCons(es[0], es[1..]);
      IndexSnoc(off + RecLen(es[0]), es[1..], e, IndexOne(off, es[0], kd));
    }
  }

  lemma LeadsToLonger(file: Bytes, more: Bytes, k: Bytes, p: Place, v: Bytes)
    requires LeadsTo(file, k, p, v)
    ensures LeadsTo(file + more, k, p, v)
  {
    assert (file + more)[p.pos..p.pos + |v|] == file[p.pos..p.pos + |v|];
  }

  lemma LeadsToNew(file: Bytes, e: Entry)
    requires Fits(e) && e.Put?
    ensures LeadsTo(file + Encode(e), e.key, Place(|file| + HEADER_SIZE + |e.key|, |e.value|, e.ts), e.value)
  {
    hide Encode;
    PutValue(e);
    var p := HEADER_SIZE + |e.key|;
    assert (file + Encode(e))[|file| + p..|file| + p + |e.value|] == Encode(e)[p..p + |e.value|];
  }

  /** Appending a record to file and index. */
  lemma LeadsAppend(file: Bytes, kd: KeyMap, m: Store, e: Entry)
    requires Leads(file, kd, m) && Fits(e) && !e.Base?
    ensures Leads(file + Encode(e), IndexOne(|file|, e, kd), ReplayEntry(e, m))
  {
    hide Encode, LeadsTo;
    forall k | k in kd
      ensures LeadsTo(file + Encode(e), k, kd[k], m[k])
    {
      LeadsToLonger(file, Encode(e), k, kd[k], m[k]);
    }
    if e.Put? {
      LeadsToNew(file, e);
    }
  }

  lemma PutValue(e: Entry)
    requires Fits(e) && e.Put?
    ensures Encode(e)[HEADER_SIZE + |e.key|..HEADER_SIZE + |e.key| + |e.value|] == e.value
  {
    hide Crc32.Crc, Covered, Le32, Le64, FromLe32, FromLe64;
    var c := Covered(e.ts, |e.key|, VField(e), e.key + e.value);
    HeaderFields(e.ts, |e.key|, VField(e), e.key + e.value, Crc32.Crc(c), []);
    var s := Encode(e);
    assert s == Le32(Crc32.Crc(c)) + c + [];
    assert s[20..20 + |e.key + e.value|] == e.key + e.value;
    assert s[20 + |e.key|..20 + |e.key| + |e.value|] == s[20..20 + |e.key + e.value|][|e.key|..];
  }

  /** The index of a file of whole records leads to the values it holds. */
  lemma {:induction false} IndexLeads(es: seq<Entry>)
    requires Plain(es)
    ensures Leads(EncodeAll(es), IndexFrom(0, es, map[]), Replay(es, map[]))
    decreases |es|
  {
    hide Encode, IndexOne, Leads;
    if es == [] {
      LeadsNothing();
    } else {
      var init, last := es[..|es| - 1], es[|es| - 1];
      IndexLeads(init);
      assert es == init + [last];
      IndexSnoc(0, init, last, map[]);
      LeadsAppend(EncodeAll(init), IndexFrom(0, init, map[]), Replay(init, map[]), last);
    }
  }

  lemma LeadsNothing()
    ensures Leads([], map[], map[])
  {
  }
}
