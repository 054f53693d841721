/**
  The on-disk record of record_format.hpp: a 20-byte header (checksum, timestamp,
  key length, value-length field), the key, the value. Two value-length fields are
  reserved: a delete (tombstone) and the compaction base marker; neither carries a
  value. `Parse` is the acceptance test that every log reader applies.
*/
module RecordFormat {
  import opened Bytes
  import Crc32

  const HEADER_SIZE := 20
  const TOMBSTONE: u32 := 0xFFFF_FFFF
  const COMPACTION_BASE: u32 := 0xFFFF_FFFE

  datatype Entry =
    | Put(ts: u64, key: Bytes, value: Bytes)
    | Del(ts: u64, key: Bytes)
    | Base(ts: u64)

  /** The sizes a writer accepts: key lengths fit 32 bits, value lengths stay below the reserved fields. */
  predicate Fits(e: Entry) {
    match e
    case Put(_, key, value) => |key| < U32_LIMIT && |value| < COMPACTION_BASE
    case Del(_, key) => |key| < U32_LIMIT
    case Base(_) => true
  }

  function KeyBytes(e: Entry): Bytes { if e.Base? then [] else e.key }

  function ValueBytes(e: Entry): Bytes { if e.Put? then e.value else [] }

  function VField(e: Entry): u32
    requires Fits(e)
  {
    match e
    case Put(_, _, value) => |value|
    case Del(_, _) => TOMBSTONE
    case Base(_) => COMPACTION_BASE
  }

  function BodyValueLen(vlen: u32): u32 {
    if vlen == TOMBSTONE || vlen == COMPACTION_BASE then 0 else vlen
  }

  function RecLen(e: Entry): (n: nat)
    ensures n >= HEADER_SIZE
  {
    HEADER_SIZE + |KeyBytes(e)| + |ValueBytes(e)|
  }

  /** Everything the checksum covers. */
  function Covered(ts: u64, klen: u32, vlen: u32, body: Bytes): (r: Bytes)
    ensures |r| == 16 + |body|
  {
    Le64(ts) + Le32(klen) + Le32(vlen) + body
  }

  function Encode(e: Entry): (r: Bytes)
    requires Fits(e)
    ensures |r| == RecLen(e)
  {
    var c := Covered(e.ts, |KeyBytes(e)|, VField(e), KeyBytes(e) + ValueBytes(e));
    Le32(Crc32.Crc(c)) + c
  }

  /** Reads the record at the front of `s`, or rejects it. */
  function Parse(s: Bytes): (r: Option<Entry>)
    ensures r.Some? ==> Fits(r.value) && RecLen(r.value) <= |s|
  {
    if |s| < HEADER_SIZE then None else
    var crc, ts := FromLe32(s[..4]), FromLe64(s[4..12]);
    var klen, vlen := FromLe32(s[12..16]), FromLe32(s[16..20]);
    var len := HEADER_SIZE + klen + BodyValueLen(vlen);
    if len > |s| then None else
    if Crc32.Crc(s[4..len]) != crc then None else
    var key := s[20..20 + klen];
    if vlen == COMPACTION_BASE then (if klen != 0 then None else Some(Base(ts)))
    else if vlen == TOMBSTONE then Some(Del(ts, key))
    else Some(Put(ts, key, s[20 + klen..len]))
  }

  lemma HeaderFields(ts: u64, klen: u32, vlen: u32, body: Bytes, crc: u32, rest: Bytes)
    ensures var s := Le32(crc) + Covered(ts, klen, vlen, body) + rest;
            && |s| == 20 + |body| + |rest|
            && FromLe32(s[..4]) == crc && FromLe64(s[4..12]) == ts
            && FromLe32(s[12..16]) == klen && FromLe32(s[16..20]) == vlen
            && s[4..20 + |body|] == Covered(ts, klen, vlen, body)
            && s[20..20 + |body|] == body && s[20 + |body|..] == rest
  {
    var c := Covered(ts, klen, vlen, body);
    var s := Le32(crc) + c + rest;
    assert s[..4] == Le32(crc);
    assert s[4..12] == Le64(ts);
    assert s[12..16] == Le32(klen);
    assert s[16..20] == Le32(vlen);
    assert s[4..20 + |body|] == c;
    assert s[20..20 + |body|] == body;
    Le32RoundTrip(crc);
    Le64RoundTrip(ts);
    Le32RoundTrip(klen);
    Le32RoundTrip(vlen);
  }

  /** A written record is read back, whatever follows it. */
  /** Checksum of what follows, timestamp, key length, value length, key, value. A delete has the length
      0xFFFFFFFF in place of the value's, a base marker 0xFFFFFFFE. */
  lemma RecordLayout(e: Entry)
    requires Fits(e)
    ensures var s, k := Encode(e), |KeyBytes(e)|;
            && |s| == 20 + k + |ValueBytes(e)|
            && s[..4] == Le32(Crc32.Crc(s[4..])) && s[4..12] == Le64(e.ts) && s[12..16] == Le32(k)
            && s[16..20] == (match e case Put(_, _, v) => Le32(|v|) case Del(_, _) => [255, 255, 255, 255]
                                     case Base(_) => [254, 255, 255, 255])
            && s[20..20 + k] == KeyBytes(e) && s[20 + k..] == ValueBytes(e)
  {
    hide Crc32.Crc, Le64, Le32;
    var s, body := Encode(e), KeyBytes(e) + ValueBytes(e);
    var c := Covered(e.ts, |KeyBytes(e)|, VField(e), body);
    Slices(s, Le32(Crc32.Crc(c)), Le64(e.ts), Le32(|KeyBytes(e)|), Le32(VField(e)), KeyBytes(e), ValueBytes(e));
    ReservedLengths();
  }

  lemma Slices(s: Bytes, crc: Bytes, ts: Bytes, klen: Bytes, vlen: Bytes, key: Bytes, value: Bytes)
    requires |crc| == |klen| == |vlen| == 4 && |ts| == 8 && s == crc + (ts + klen + vlen + (key + value))
    ensures s[..4] == crc && s[4..] == ts + klen + vlen + (key + value)
    ensures s[4..12] == ts && s[12..16] == klen && s[16..20] == vlen
    ensures s[20..20 + |key|] == key && s[20 + |key|..] == value
  {
    var body := key + value;
    assert s[20..] == body;
    assert s[20..][..|key|] == key && s[20..][|key|..] == value;
  }

  lemma ReservedLengths()
    ensures Le32(TOMBSTONE) == [255, 255, 255, 255] && Le32(COMPACTION_BASE) == [254, 255, 255, 255]
  {
  }

  lemma ParseEncode(e: Entry, rest: Bytes)
    requires Fits(e)
    ensures Parse(Encode(e) + rest) == Some(e)
  {
    hide Crc32.Crc, Covered, Le32, Le64, FromLe32, FromLe64;
    var key, value := KeyBytes(e), ValueBytes(e);
    var c := Covered(e.ts, |key|, VField(e), key + value);
    HeaderFields(e.ts, |key|, VField(e), key + value, Crc32.Crc(c), rest);
    var s := Le32(Crc32.Crc(c)) + c + rest;
    assert Encode(e) + rest == s;
    var b := s[20..20 + |key + value|];
    assert s[20..20 + |key|] == b[..|key|] == key;
    assert s[20 + |key|..20 + |key + value|] == b[|key|..] == value;
  }

  lemma HeaderBytes(s: Bytes, len: nat)
    requires HEADER_SIZE <= len <= |s|
    ensures s[..len] == Le32(FromLe32(s[..4]))
                      + Covered(FromLe64(s[4..12]), FromLe32(s[12..16]), FromLe32(s[16..20]), s[20..len])
  {
    Le32Injective(s[..4]);
    Le64Injective(s[4..12]);
    Le32Injective(s[12..16]);
    Le32Injective(s[16..20]);
    assert s[..len] == s[..4] + (s[4..12] + s[12..16] + s[16..20] + s[20..len]);
  }

  /** Whatever is accepted is byte for byte what the writer produces for that record. */
  lemma ParseSound(s: Bytes)
    requires Parse(s).Some?
    ensures var e := Parse(s).value;
            Fits(e) && RecLen(e) <= |s| && s[..RecLen(e)] == Encode(e)
  {
    hide Crc32.Crc, Covered, Le32, Le64, FromLe32, FromLe64;
    var e := Parse(s).value;
    var klen, vlen := FromLe32(s[12..16]), FromLe32(s[16..20]);
    var len := HEADER_SIZE + klen + BodyValueLen(vlen);
    HeaderBytes(s, len);
    var c := Covered(FromLe64(s[4..12]), klen, vlen, s[20..len]);
    assert s[4..len] == s[..len][4..] == c;
    assert s[20..len] == s[20..20 + klen] + s[20 + klen..len];
    assert s[20..len] == KeyBytes(e) + ValueBytes(e);
  }

  /** A strict prefix of a record is never accepted, whatever its checksum bytes say. */
  lemma ParseTorn(e: Entry, n: nat)
    requires Fits(e) && n < RecLen(e)
    ensures Parse(Encode(e)[..n]) == None
  {
    hide Crc32.Crc, Covered, Le32, Le64, FromLe32, FromLe64;
    if n >= HEADER_SIZE {
      var key, value := KeyBytes(e), ValueBytes(e);
      var c := Covered(e.ts, |key|, VField(e), key + value);
      HeaderFields(e.ts, |key|, VField(e), key + value, Crc32.Crc(c), []);
      var s := Encode(e);
      assert s == Le32(Crc32.Crc(c)) + c + [];
      assert s[..n][12..16] == s[12..16] && s[..n][16..20] == s[16..20];
    }
  }

  lemma ParseEmpty()
    ensures Parse([]) == None
  {
  }

  lemma FromLe32Injective(a: Bytes, b: Bytes)
    requires |a| == |b| == 4 && a != b
    ensures FromLe32(a) != FromLe32(b)
  {
    Le32Injective(a);
    Le32Injective(b);
  }

  // ---------- Whole logs ----------

  function TotalLen(es: seq<Entry>): nat {
    if es == [] then 0 else TotalLen(es[..|es| - 1]) + RecLen(es[|es| - 1])
  }

  predicate AllFit(es: seq<Entry>) { forall i :: 0 <= i < |es| ==> Fits(es[i]) }

  function EncodeAll(es: seq<Entry>): (r: Bytes)
    requires AllFit(es)
    ensures |r| == TotalLen(es)
  {
    if es == [] then [] else EncodeAll(es[..|es| - 1]) + Encode(es[|es| - 1])
  }

  /** The records a scan accepts, in log order. */
  function Scan(s: Bytes): (es: seq<Entry>)
    ensures AllFit(es)
    decreases |s|
  {
    match Parse(s)
    case None => []
    case Some(e) => [e] + Scan(s[RecLen(e)..])
  }

  lemma {:induction false} TotalCons(e: Entry, es: seq<Entry>)
    ensures TotalLen([e] + es) == RecLen(e) + TotalLen(es)
  {
    hide RecLen;
    if es == [] {
      assert [e] + es == [e] && [e][..0] == [];
    } else {
      TotalCons(e, es[..|es| - 1]);
      assert ([e] + es)[..|es|] == [e] + es[..|es| - 1];
    }
  }

  lemma EncodeSnoc(es: seq<Entry>, e: Entry)
    requires AllFit(es) && Fits(e)
    ensures AllFit(es + [e]) && EncodeAll(es + [e]) == EncodeAll(es) + Encode(e)
  {
    hide Encode, Fits;
    assert (es + [e])[..|es|] == es;
  }

  lemma Associate<T>(a: seq<T>, b: seq<T>, c: seq<T>)
    ensures a + b + c == a + (b + c)
  {
  }

  lemma AllFitConcat(a: seq<Entry>, b: seq<Entry>)
    requires AllFit(a) && AllFit(b)
    ensures AllFit(a + b)
  {
    hide Fits;
  }

  lemma EncodeConsStep(e: Entry, init: seq<Entry>, last: Entry)
    requires AllFit([e]) && AllFit(init) && AllFit([e] + init) && Fits(e) && Fits(last)
    requires EncodeAll([e] + init) == Encode(e) + EncodeAll(init)
    ensures AllFit(init + [last]) && AllFit([e] + (init + [last]))
    ensures EncodeAll([e] + (init + [last])) == Encode(e) + EncodeAll(init + [last])
  {
    hide Encode, Fits, EncodeAll, AllFit;
    EncodeSnoc(init, last);
    EncodeSnoc([e] + init, last);
    Associate([e], init, [last]);
    Associate(Encode(e), EncodeAll(init), Encode(last));
  }

  lemma EncodeSingle(e: Entry)
    requires Fits(e)
    ensures AllFit([e]) && EncodeAll([e]) == Encode(e)
  {
    hide Encode;
    assert [e][..0] == [];
    assert [] + Encode(e) == Encode(e);
  }

  lemma {:induction false} EncodeCons(e: Entry, es: seq<Entry>)
    requires Fits(e) && AllFit(es)
    ensures AllFit([e] + es) && EncodeAll([e] + es) == Encode(e) + EncodeAll(es)
    decreases |es|
  {
    hide Encode, Fits, EncodeAll;
    EncodeSingle(e);
    AllFitConcat([e], es);
    if es == [] {
      TotalEmpty();
      assert [e] + es == [e] && Encode(e) + [] == Encode(e);
    } else {
      var init, last := es[..|es| - 1], es[|es| - 1];
      EncodeCons(e, init);
      EncodeConsStep(e, init, last);
      assert init + [last] == es;
    }
  }

  /** On arbitrary bytes: the accepted records are exactly the bytes up to an offset inside
      the file, and nothing is accepted at that offset. */
  lemma {:induction false} ScanSound(s: Bytes)
    ensures AllFit(Scan(s)) && TotalLen(Scan(s)) <= |s|
    ensures EncodeAll(Scan(s)) == s[..TotalLen(Scan(s))]
    ensures Parse(s[TotalLen(Scan(s))..]) == None
    decreases |s|
  {
    hide Encode, Parse, RecLen, TotalLen, EncodeAll, Fits;
    var p := Parse(s);
    if p.None? {
      TotalEmpty();
      assert s[0..] == s;
    } else {
      var e := p.value;
      ParseSound(s);
      var n := RecLen(e);
      var rest := s[n..];
      ScanSound(rest);
      var es := Scan(rest);
      TotalCons(e, es);
      EncodeCons(e, es);
      var t := TotalLen(es);
      assert s[n + t..] == rest[t..];
      assert s[..n + t] == s[..n] + rest[..t];
    }
  }

  lemma TotalEmpty()
    ensures TotalLen([]) == 0 && EncodeAll([]) == []
  {
  }

  lemma ScanOne(e: Entry, rest: Bytes)
    requires Fits(e)
    ensures Scan(Encode(e) + rest) == [e] + Scan(rest)
  {
    hide Encode, Parse;
    ParseEncode(e, rest);
    assert (Encode(e) + rest)[RecLen(e)..] == rest;
  }

  lemma ScanNone(s: Bytes)
    requires Parse(s) == None
    ensures Scan(s) == []
  {
    hide Parse;
  }

  /** Whole records followed by bytes no reader accepts: exactly the whole records come back. */
  lemma {:induction false} ScanEncode(es: seq<Entry>, tail: Bytes)
    requires AllFit(es) && Parse(tail) == None
    ensures Scan(EncodeAll(es) + tail) == es
    decreases |es|
  {
    hide Encode, Parse, EncodeAll, Scan, Fits;
    if es == [] {
      TotalEmpty();
      assert [] + tail == tail;
      ScanNone(tail);
    } else {
      var e, rest := es[0], es[1..];
      assert es == [e] + rest;
      EncodeCons(e, rest);
      Associate(Encode(e), EncodeAll(rest), tail);
      ScanOne(e, EncodeAll(rest) + tail);
      ScanEncode(rest, tail);
    }
  }

  /** A log of whole records cut anywhere inside one more record loses only that record. */
  lemma ScanTornTail(es: seq<Entry>, e: Entry, n: nat)
    requires AllFit(es) && Fits(e) && n < RecLen(e)
    ensures Scan(EncodeAll(es) + Encode(e)[..n]) == es
  {
    hide Encode, Parse;
    ParseTorn(e, n);
    ScanEncode(es, Encode(e)[..n]);
  }

  /** Truncating at the scan's stopping point and scanning again finds the same records and stops at the same place. */
  lemma ScanTruncated(s: Bytes)
    ensures TotalLen(Scan(s)) <= |s|
    ensures Scan(s[..TotalLen(Scan(s))]) == Scan(s)
  {
    hide Encode, Parse;
    ScanSound(s);
    var es := Scan(s);
    assert EncodeAll(es) + [] == s[..TotalLen(es)];
    ParseEmpty();
    ScanEncode(es, []);
  }

  /** Appending one whole record to a clean log appends it to the scan. */
  lemma ScanAppend(s: Bytes, e: Entry)
    requires Clean(s) && Fits(e)
    ensures Scan(s + Encode(e)) == Scan(s) + [e] && Clean(s + Encode(e))
  {
    hide Encode, Parse;
    ScanSound(s);
    var es := Scan(s);
    EncodeSnoc(es, e);
    assert s[..|s|] == s;
    assert s + Encode(e) + [] == s + Encode(e);
    ParseEmpty();
    ScanEncode(es + [e], []);
  }

  /** No byte after the last accepted record. */
  predicate Clean(s: Bytes) { TotalLen(Scan(s)) == |s| }

  lemma FrontSlice(d: Bytes, rest: Bytes, i: nat, j: nat)
    requires i <= j <= |d|
    ensures (d + rest)[i..j] == d[i..j]
  {
  }

  lemma LengthFields(d: Bytes)
    requires 20 <= |d|
    ensures d[12..16] == d[12..20][..4] && d[16..20] == d[12..20][4..]
  {
  }

  /** Damage of at most four consecutive bytes inside a record's checksum, timestamp, key or
      value is always noticed, and the scan keeps exactly the records before it. */
  lemma DamageDetected(es: seq<Entry>, e: Entry, d: Bytes, i: nat, rest: Bytes)
    requires AllFit(es) && Fits(e) && |d| == RecLen(e) && d != Encode(e)
    requires forall j :: 0 <= j < |d| && d[j] != Encode(e)[j] ==> i <= j < i + 4
    requires d[12..20] == Encode(e)[12..20]
    requires i == 0 || 4 <= i
    ensures Parse(d + rest) == None
    ensures Scan(EncodeAll(es) + (d + rest)) == es
  {
    hide Crc32.Crc, Covered, Le32, Le64, FromLe32, FromLe64;
    var s := Encode(e);
    var p := d + rest;
    FrontSlice(d, rest, 0, 4);
    FrontSlice(d, rest, 4, 12);
    FrontSlice(d, rest, 12, 16);
    FrontSlice(d, rest, 16, 20);
    LengthFields(d);
    LengthFields(s);
    var key, value := KeyBytes(e), ValueBytes(e);
    var c := Covered(e.ts, |key|, VField(e), key + value);
    HeaderFields(e.ts, |key|, VField(e), key + value, Crc32.Crc(c), []);
    assert s == Le32(Crc32.Crc(c)) + c + [];
    FrontSlice(d, rest, 4, RecLen(e));
    assert d[4..RecLen(e)] == d[4..];
    assert Crc32.Crc(d[4..]) != FromLe32(d[..4]) by { DamageBreaksCrc(e, d, i); }
    ScanEncode(es, p);
  }

  lemma DamageBreaksCrc(e: Entry, d: Bytes, i: nat)
    requires Fits(e) && |d| == RecLen(e) && d != Encode(e)
    requires forall j :: 0 <= j < |d| && d[j] != Encode(e)[j] ==> i <= j < i + 4
    requires i == 0 || 4 <= i
    ensures Crc32.Crc(d[4..]) != FromLe32(d[..4])
  {
    hide Crc32.Crc, Covered, Le32, Le64, FromLe32, FromLe64;
    var s := Encode(e);
    assert FromLe32(s[..4]) == Crc32.Crc(s[4..]) by {
      var key, value := KeyBytes(e), ValueBytes(e);
      var c := Covered(e.ts, |key|, VField(e), key + value);
      HeaderFields(e.ts, |key|, VField(e), key + value, Crc32.Crc(c), []);
      assert s == Le32(Crc32.Crc(c)) + c + [];
      assert s[4..] == c;
    }
    if i == 0 {
      assert s[4..] == d[4..];
      assert d == d[..4] + d[4..] && s == s[..4] + s[4..];
      FromLe32Injective(d[..4], s[..4]);
    } else {
      assert s[..4] == d[..4];
      assert d == d[..4] + d[4..] && s == s[..4] + s[4..];
      var j :| 0 <= j < |d| && d[j] != s[j];
      Crc32.BurstDetected(d[4..], s[4..], i - 4);
    }
  }
}
