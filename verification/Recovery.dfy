/**
  The readers of segmented_engine.hpp that rebuild the index: the full scan, the
  hint reader, and the sorts. They are proved on arbitrary bytes.
*/
module Recovery {
  import opened Bytes
  import opened RecordFormat
  import opened Hints
  import opened Directory
  import opened Merge

  lemma AppendEntry(id: nat, es: seq<Entry>, e: Entry, kd: KeyDir)
    requires AllFit(es) && Fits(e)
    ensures AllFit(es + [e]) && TotalLen(es + [e]) == TotalLen(es) + RecLen(e)
    ensures Index(id, es + [e], kd) == IndexEntry(id, TotalLen(es), e, Index(id, es, kd))
    ensures TotalLen(es + [e]) < U64_LIMIT ==>
              HintsOf(es + [e]) == HintsOf(es) + (if e.Base? then [] else [HintOf(e, TotalLen(es))])
  {
    hide IndexEntry, HintOf, RecLen;
    assert (es + [e])[..|es|] == es;
  }

  /** What the scan has read so far, and what is left. */
  ghost predicate ReadSoFar(s: Bytes, done: seq<Entry>) {
    && AllFit(done) && TotalLen(done) <= |s|
    && Scan(s) == done + Scan(s[TotalLen(done)..])
  }

  lemma ReadNothing(s: Bytes)
    ensures ReadSoFar(s, []) && TotalLen([]) == 0
  {
    hide Parse;
    assert s[0..] == s;
    assert [] + Scan(s) == Scan(s);
  }

  lemma ReadOne(s: Bytes, done: seq<Entry>)
    requires ReadSoFar(s, done) && Parse(s[TotalLen(done)..]).Some?
    ensures ReadSoFar(s, done + [Parse(s[TotalLen(done)..]).value])
  {
    hide Parse, RecLen, TotalLen;
    var off := TotalLen(done);
    var e := Parse(s[off..]).value;
    AppendEntry(0, done, e, map[]);
    var n := RecLen(e);
    assert s[off..][n..] == s[off + n..];
    assert done + ([e] + Scan(s[off + n..])) == (done + [e]) + Scan(s[off + n..]);
  }

  lemma ReadAll(s: Bytes, done: seq<Entry>)
    requires ReadSoFar(s, done) && Parse(s[TotalLen(done)..]).None?
    ensures Scan(s) == done
  {
    hide Parse, TotalLen;
    assert Scan(s[TotalLen(done)..]) == [];
    assert done + [] == done;
  }

  lemma NothingRead(id: nat, kd: KeyDir)
    ensures Index(id, [], kd) == kd && HintsOf([]) == []
  {
  }

  /** recover_segment_via_full_scan on the bytes `s` of segment `id`. */
  method FullScan(id: nat, s: Bytes, kd0: KeyDir) returns (offset: nat, kd: KeyDir, hints: seq<Hint>)
    requires |s| <= MAX_FILE
    ensures offset == TotalLen(Scan(s)) <= |s|
    ensures kd == Index(id, Scan(s), kd0)
    ensures hints == HintsOf(Scan(s))
  {
    hide Scan, Encode, Parse, RecLen, HintOf, IndexEntry, EncodeAll, Index, HintsOf, TotalLen, ReadSoFar;
    offset, kd, hints := 0, kd0, [];
    ghost var done: seq<Entry> := [];
    ReadNothing(s);
    NothingRead(id, kd0);
    while Parse(s[offset..]).Some?
      invariant offset <= |s|
      invariant AllFit(done) && ReadSoFar(s, done)
      invariant offset == TotalLen(done)
      invariant kd == Index(id, done, kd0)
      invariant hints == HintsOf(done)
      decreases |s| - offset
    {
      var e := Parse(s[offset..]).value;
      ReadOne(s, done);
      AppendEntry(id, done, e, kd0);
      if !e.Base? {
        hints := hints + [HintOf(e, offset)];
      }
      kd := IndexEntry(id, offset, e, kd);
      offset := offset + RecLen(e);
      done := done + [e];
    }
    ReadAll(s, done);
  }

  /** The accept decision of recover_segment_via_hint, and the index it then builds. */
  method ReadHint(id: nat, buf: Bytes, segSize: nat, kd0: KeyDir) returns (ok: bool, kd: KeyDir)
    ensures ok <==> Trusted(buf, segSize).Some?
    ensures kd == if ok then IndexHints(id, Trusted(buf, segSize).value, kd0) else kd0
  {
    hide ParseHint, InSegment, IndexHint, End, IndexHints, MaxEnd, Max;
    NoHints(id, kd0);
    NoEnd();
    kd := kd0;
    var parsed: seq<Hint> := [];
    var maxEnd := 0;
    var pos := 0;
    assert buf[0..] == buf;
    PrependNothing(ParseHints(buf, segSize));
    while pos < |buf|
      invariant pos <= |buf|
      invariant ParseHints(buf, segSize) == Prepend(parsed, ParseHints(buf[pos..], segSize))
      invariant maxEnd == MaxEnd(parsed)
    {
      var p := ParseHint(buf[pos..]);
      if p.None? {
        return false, kd0;
      }
      var h := p.value;
      if |buf| - pos < 24 + |h.key| || !InSegment(h, segSize) {
        return false, kd0;
      }
      assert buf[pos..][24 + |h.key|..] == buf[pos + 24 + |h.key|..];
      PrependStep(parsed, h, ParseHints(buf[pos + 24 + |h.key|..], segSize));
      MaxEndSnoc(parsed, h);
      parsed := parsed + [h];
      maxEnd := Max(maxEnd, End(h));
      pos := pos + 24 + |h.key|;
    }
    assert parsed + [] == parsed;
    if maxEnd != segSize {
      return false, kd0;
    }
    for i := 0 to |parsed|
      invariant kd == IndexHints(id, parsed[..i], kd0)
    {
      IndexHintsSnoc(id, parsed[..i], parsed[i], kd0);
      assert parsed[..i + 1] == parsed[..i] + [parsed[i]];
      kd := IndexHint(id, parsed[i], kd);
    }
    assert parsed[..|parsed|] == parsed;
    return true, kd;
  }

  function Prepend(parsed: seq<Hint>, rest: Option<seq<Hint>>): Option<seq<Hint>> {
    match rest
    case None => None
    case Some(hs) => Some(parsed + hs)
  }

  lemma PrependNothing(rest: Option<seq<Hint>>)
    ensures Prepend([], rest) == rest
  {
    if rest.Some? {
      assert [] + rest.value == rest.value;
    }
  }

  lemma PrependStep(parsed: seq<Hint>, h: Hint, rest: Option<seq<Hint>>)
    ensures rest.Some? ==> Prepend(parsed, Some([h] + rest.value)) == Prepend(parsed + [h], rest)
  {
    if rest.Some? {
      assert parsed + ([h] + rest.value) == parsed + [h] + rest.value;
    }
  }

  /** The segment IDs in ascending order. */
  method SortIds(ids: set<nat>) returns (s: seq<nat>)
    ensures forall id :: id in s <==> id in ids
    ensures forall i, j :: 0 <= i < j < |s| ==> s[i] < s[j]
  {
    s := [];
    var rest := ids;
    while rest != {}
      invariant rest <= ids
      invariant forall id :: id in s <==> id in ids && id !in rest
      invariant forall i, j :: 0 <= i < j < |s| ==> s[i] < s[j]
      invariant forall i, id :: 0 <= i < |s| && id in rest ==> s[i] < id
      decreases rest
    {
      var x :| x in rest;
      var more := rest - {x};
      while more != {}
        invariant more <= rest && x in rest && x !in more
        invariant forall y :: y in rest && y !in more ==> x <= y
        decreases more
      {
        var y :| y in more;
        more := more - {y};
        if y < x {
          x := y;
        }
      }
      s := s + [x];
      rest := rest - {x};
    }
  }

  /** No two live keys share a place. */
  ghost predicate Separate(kd: KeyDir) {
    forall k, k' :: k in kd && k' in kd && k != k' ==> kd[k].seg != kd[k'].seg || kd[k].pos != kd[k'].pos
  }

  /** The live keys outside segment `active`, in log order. */
  method SortItems(kd: KeyDir, active: nat) returns (items: seq<Bytes>)
    requires Separate(kd)
    ensures LogOrder(items, kd) && SealedKeys(items, kd, active)
  {
    items := [];
    var rest := set k | k in kd && kd[k].seg != active;
    ghost var all := rest;
    while rest != {}
      invariant rest <= all
      invariant forall k :: k in items <==> k in all && k !in rest
      invariant forall i :: 0 <= i < |items| ==> items[i] in kd
      invariant forall i, j :: 0 <= i < j < |items| ==> Before(kd[items[i]], kd[items[j]])
      invariant forall i, k :: 0 <= i < |items| && k in rest ==> Before(kd[items[i]], kd[k])
      decreases rest
    {
      var x :| x in rest;
      var more := rest - {x};
      while more != {}
        invariant more <= rest && x in rest && x !in more
        invariant forall y :: y in rest && y !in more && y != x ==> Before(kd[x], kd[y])
        decreases more
      {
        var y :| y in more;
        more := more - {y};
        if kd[y].seg < kd[x].seg || (kd[y].seg == kd[x].seg && kd[y].pos < kd[x].pos) {
          x := y;
        }
      }
      items := items + [x];
      rest := rest - {x};
    }
  }

  // ---------- Live keys lie apart ----------

  /** Keys indexed in segment `id` lie at different places, none beyond `end`. */
  ghost predicate Apart(kd: KeyDir, id: nat, end: nat) {
    && (forall k :: k in kd && kd[k].seg == id ==> kd[k].pos <= end)
    && Separate(kd)
  }

  lemma {:induction false} IndexApart(id: nat, es: seq<Entry>, kd: KeyDir)
    requires AllFit(es) && Separate(kd) && forall k :: k in kd ==> kd[k].seg != id
    ensures Apart(Index(id, es, kd), id, TotalLen(es))
    ensures forall k :: k in Index(id, es, kd) ==>
              Index(id, es, kd)[k].seg == id || (k in kd && Index(id, es, kd)[k] == kd[k])
    decreases |es|
  {
    if es != [] {
      IndexApart(id, es[..|es| - 1], kd);
    }
  }

  lemma {:induction false} DirApart(segs: Segments, ids: set<nat>)
    requires ids <= segs.Keys
    ensures Separate(DirIndex(segs, ids)) && forall k :: k in DirIndex(segs, ids) ==> DirIndex(segs, ids)[k].seg in ids
    decreases |ids|
  {
    hide Scan, Index;
    if ids != {} {
      var m := MaxOf(ids);
      DirApart(segs, ids - {m});
      IndexApart(m, Scan(segs[m]), DirIndex(segs, ids - {m}));
    }
  }
}
