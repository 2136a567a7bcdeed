/** A segment: a file of records with its index, kept in step by every operation (src/storage/segment.rs). */
module Segments {
  import opened Bytes
  import opened Records
  import opened Files
  import opened Indexes
  import opened LogSpec
  import opened AppendTheorems
  import opened Cursors

  /** One entry per record: its offset and the number of bytes before it. */
  function Dense(base: nat, rs: seq<Record>): (es: seq<IndexEntry>)
    ensures |es| == |rs|
    ensures forall i :: 0 <= i < |es| ==> es[i] == IndexEntry(base + i, SizeOf(rs[..i]))
  {
    seq(|rs|, i requires 0 <= i < |rs| => IndexEntry(base + i, SizeOf(rs[..i])))
  }

  /** The offsets from `from` up to, but not including, `to`. */
  datatype Span = Span(from: nat, to: nat) {
    predicate Has(o: nat) { from <= o < to }

    predicate None() { to <= from }
  }

  const NO_GAP := Span(0, 0)

  /** A gap inside a segment of `n` records, after its first. */
  predicate Gap(base: nat, n: nat, gap: Span) { gap.None() || (base < gap.from && gap.to <= base + n) }

  /** The entries of an index with a gap. */
  function ListedEntries(base: nat, rs: seq<Record>, gap: Span): seq<IndexEntry>
    requires Gap(base, |rs|, gap)
  {
    var d := Dense(base, rs);
    if gap.None() then d else d[..gap.from - base] + d[gap.to - base..]
  }

  /** The entry gives the true position of a record of the log. */
  ghost predicate Points(base: nat, rs: seq<Record>, e: IndexEntry)
  {
    base <= e.offset < base + |rs| && e.position == SizeOf(rs[..e.offset - base])
  }

  /** Every entry is right about a record of the log; records may be missing from the index. */
  ghost predicate IndexSound(base: nat, rs: seq<Record>, es: seq<IndexEntry>)
  {
    && Sorted(Offsets(es))
    && forall e :: e in es ==> Points(base, rs, e)
  }

  lemma DenseIsSound(base: nat, rs: seq<Record>)
    ensures IndexSound(base, rs, Dense(base, rs))
  {
  }

  lemma DenseSnoc(base: nat, rs: seq<Record>, r: Record)
    ensures Dense(base, rs + [r]) == Dense(base, rs) + [IndexEntry(base + |rs|, SizeOf(rs))]
  {
    hide SizeOf, Dense;
    var d, e := Dense(base, rs + [r]), Dense(base, rs) + [IndexEntry(base + |rs|, SizeOf(rs))];
    forall i | 0 <= i <= |rs|
      ensures d[i] == e[i]
    {
      DenseSnocAt(base, rs, r, i);
    }
  }

  lemma DenseLast(base: nat, rs: seq<Record>, r: Record)
    ensures Dense(base, rs + [r])[|rs|..] == [IndexEntry(base + |rs|, SizeOf(rs))]
  {
    hide Dense, SizeOf;
    DenseSnoc(base, rs, r);
  }

  lemma DenseSnocAt(base: nat, rs: seq<Record>, r: Record, i: nat)
    requires i <= |rs|
    ensures Dense(base, rs + [r])[i] == (Dense(base, rs) + [IndexEntry(base + |rs|, SizeOf(rs))])[i]
  {
    hide SizeOf, Dense;
    PrefixOfSnoc(rs, r, i);
  }

  lemma PrefixOfSnoc(rs: seq<Record>, r: Record, i: nat)
    requires i <= |rs|
    ensures (rs + [r])[..i] == rs[..i] && rs[..|rs|] == rs
  {
  }

  lemma SortedSnoc(es: seq<IndexEntry>, e: IndexEntry)
    requires Sorted(Offsets(es)) && forall x :: x in es ==> x.offset < e.offset
    ensures Sorted(Offsets(es + [e]))
  {
    assert Offsets(es + [e]) == Offsets(es) + [e.offset];
    forall i | 0 <= i < |es|
      ensures Offsets(es)[i] < e.offset
    {
      assert es[i] in es;
    }
  }

  lemma SoundSnoc(base: nat, rs: seq<Record>, es: seq<IndexEntry>, r: Record)
    requires IndexSound(base, rs, es)
    ensures IndexSound(base, rs + [r], es + [IndexEntry(base + |rs|, SizeOf(rs))])
  {
    hide SizeOf, Sorted, Points;
    var e' := IndexEntry(base + |rs|, SizeOf(rs));
    forall e | e in es
      ensures Points(base, rs + [r], e) && e.offset < e'.offset
    {
      PointsSnoc(base, rs, e, r);
    }
    SortedSnoc(es, e');
    PointsAtEnd(base, rs, r);
  }

  lemma PointsBelow(base: nat, rs: seq<Record>, e: IndexEntry)
    requires Points(base, rs, e)
    ensures base <= e.offset < base + |rs| && e.position == SizeOf(rs[..e.offset - base]) < SizeOf(rs)
  {
    hide SizeOf, Len;
    var k := e.offset - base;
    SizeStep(rs, k);
    LenPositive(rs[k]);
    SizeMonotone(rs, k + 1, |rs|);
    assert rs[..|rs|] == rs;
  }

  lemma PointsSnoc(base: nat, rs: seq<Record>, e: IndexEntry, r: Record)
    requires Points(base, rs, e)
    ensures Points(base, rs + [r], e) && e.offset < base + |rs|
  {
    assert (rs + [r])[..e.offset - base] == rs[..e.offset - base];
  }

  lemma PointsAtEnd(base: nat, rs: seq<Record>, r: Record)
    ensures Points(base, rs + [r], IndexEntry(base + |rs|, SizeOf(rs)))
  {
    assert (rs + [r])[..|rs|] == rs;
  }

  /** What a read of the cut log yields: the first record if it is whole. */
  lemma DecodeCut(rs: seq<Record>, c: nat)
    requires AllStorable(rs) && rs != [] && c <= SizeOf(rs)
    ensures c >= Len(rs[0]) ==>
              Decode(EncodeAll(rs)[..c]) == Got(rs[0], EncodeAll(rs[1..])[..c - Len(rs[0])])
    ensures c < Len(rs[0]) ==> Decode(EncodeAll(rs)[..c]) == Incomplete
    ensures c >= 4 ==> GetU32(EncodeAll(rs)[..c]) == Len(rs[0])
  {
    hide Encode, Decode, GetU32, Len;
    var r, s := rs[0], EncodeAll(rs)[..c];
    LengthPrefix(r);
    if c >= Len(r) {
      assert s == Encode(r) + EncodeAll(rs[1..])[..c - Len(r)];
      RoundTrip(r, EncodeAll(rs[1..])[..c - Len(r)]);
    } else {
      assert s == Encode(r)[..c];
      TornRecord(r, c);
    }
    if c >= 4 {
      LengthOfPrefix(Encode(r), s);
    }
  }

  /** The log from record `i` on starts at the sum of the sizes before it. */
  lemma TailBytes(rs: seq<Record>, i: nat)
    requires i <= |rs|
    ensures SizeOf(rs[..i]) + SizeOf(rs[i..]) == SizeOf(rs)
    ensures EncodeAll(rs)[SizeOf(rs[..i])..] == EncodeAll(rs[i..])
  {
    SplitAt(rs, i);
  }

  lemma StorableTail(rs: seq<Record>, i: nat)
    requires AllStorable(rs) && i <= |rs|
    ensures AllStorable(rs[i..])
  {
  }

  /** A decoded record took exactly its own length from the buffer. */
  lemma Consumed(s: seq<Byte>)
    requires Decode(s).Got?
    ensures |s| - |Decode(s).rest| == Len(Decode(s).record)
  {
    hide GetU32, GetU64;
  }

  lemma {:induction false} ScanBytes(s: seq<Byte>)
    ensures Scan(s).bytes == SizeOf(Scan(s).records)
    decreases |s|
  {
    hide Decode, Len;
    match Decode(s) {
      case Got(r, rest) =>
        GotShrinks(s);
        ScanBytes(rest);
        Consumed(s);
      case _ =>
    }
  }

  lemma GotShrinks(s: seq<Byte>)
    requires Decode(s).Got?
    ensures |Decode(s).rest| < |s|
  {
  }

  /** The entries that a rebuild writes: each record's own offset and the bytes before it. */
  function Rebuilt(rs: seq<Record>): (es: seq<IndexEntry>)
    ensures |es| == |rs|
    ensures forall i :: 0 <= i < |es| ==> es[i] == IndexEntry(rs[i].offset, SizeOf(rs[..i]))
  {
    seq(|rs|, i requires 0 <= i < |rs| => IndexEntry(rs[i].offset, SizeOf(rs[..i])))
  }

  lemma RebuiltSnoc(rs: seq<Record>, r: Record)
    ensures Rebuilt(rs + [r]) == Rebuilt(rs) + [IndexEntry(r.offset, SizeOf(rs))]
  {
    hide SizeOf, Rebuilt;
    forall i | 0 <= i <= |rs|
      ensures Rebuilt(rs + [r])[i] == (Rebuilt(rs) + [IndexEntry(r.offset, SizeOf(rs))])[i]
    {
      PrefixOfSnoc(rs, r, i);
    }
  }

  function NextAfter(base: nat, rs: seq<Record>): nat { if rs == [] then base else rs[|rs| - 1].offset + 1 }

  lemma ScanNext(s: seq<Byte>, r: Record, rest: seq<Byte>)
    requires Decode(s) == Got(r, rest)
    ensures |rest| < |s| && |s| - |rest| == Len(r)
    ensures Scan(s).records == [r] + Scan(rest).records && Scan(s).crashed == Scan(rest).crashed
  {
    hide Decode;
    GotShrinks(s);
    Consumed(s);
  }

  lemma ScanStops(s: seq<Byte>)
    requires !Decode(s).Got?
    ensures Scan(s).records == [] && Scan(s).crashed == Decode(s).Crash?
  {
    hide Decode;
  }

  /** Where the recovery loop stands: `rs` are decoded and `data` is left. */
  ghost predicate Recovering(bytes: seq<Byte>, data: seq<Byte>, rs: seq<Record>)
  {
    && Scan(bytes).records == rs + Scan(data).records && !Scan(data).crashed
    && (bytes == [] ==> data == [])
  }

  lemma RecoveryStarts(bytes: seq<Byte>)
    requires !Scan(bytes).crashed
    ensures Recovering(bytes, bytes, [])
  {
    hide Scan;
  }

  lemma RecoveryGoesOn(bytes: seq<Byte>, data: seq<Byte>, rs: seq<Record>, r: Record, rest: seq<Byte>)
    requires Recovering(bytes, data, rs) && Decode(data) == Got(r, rest)
    ensures Recovering(bytes, rest, rs + [r]) && |rest| < |data| && |data| - |rest| == Len(r) && bytes != []
  {
    hide Scan, Decode, Len;
    ScanNext(data, r, rest);
    assert rs + ([r] + Scan(rest).records) == rs + [r] + Scan(rest).records;
  }

  lemma RecoveryStops(bytes: seq<Byte>, data: seq<Byte>, rs: seq<Record>)
    requires Recovering(bytes, data, rs) && !Decode(data).Got?
    ensures !Decode(data).Crash? && rs == Scan(bytes).records && SizeOf(rs) == Scan(bytes).bytes
  {
    hide Scan, Decode, SizeOf;
    ScanStops(data);
    ScanBytes(bytes);
  }

  /** The recovery loop of `Segment::load`: decode until the bytes run out or make no sense. */
  method Recover(base: nat, bytes: seq<Byte>, index: Index) returns (validBytes: nat, next: nat, ghost rs: seq<Record>)
    requires index.Valid() && !Scan(bytes).crashed
    modifies index
    ensures index.Valid() && rs == Scan(bytes).records
    ensures validBytes == Scan(bytes).bytes && next == NextAfter(base, rs)
    ensures index.entries == if old(index.entries) == [] then Rebuilt(rs) else old(index.entries)
  {
    hide Decode, Scan, Len, SizeOf, Rebuilt, EncodeEntries, Recovering;
    var src := new BytesMut(bytes);
    var rebuild := index.entries == [] && bytes != [];
    validBytes, next, rs := 0, base, [];
    SizeOfNone();
    RecoveryStarts(bytes);
    while true
      invariant Recovering(bytes, src.data, rs)
      invariant validBytes == SizeOf(rs) && next == NextAfter(base, rs) && index.Valid()
      invariant index.entries == if rebuild then Rebuilt(rs) else old(index.entries)
      decreases |src.data|
    {
      ghost var data := src.data;
      var startLen := |src.data|;
      if !Decode(data).Got? {
        RecoveryStops(bytes, data, rs);
      }
      var res := DecodeRecord(src);
      if res.RecordTooSmall? || res.record.None? {
        break;
      }
      var r := res.record.value;
      RecoveryGoesOn(bytes, data, rs, r, src.data);
      var recordLen := startLen - |src.data|;
      if rebuild {
        index.Append(r.offset, validBytes);
        RebuiltSnoc(rs, r);
      }
      SizeSnoc(rs, r);
      validBytes, next, rs := validBytes + recordLen, r.offset + 1, rs + [r];
    }
    if bytes == [] {
      ScanNothing();
    }
  }

  lemma ScanNothing()
    ensures Scan([]).records == []
  {
    ScanEmpty();
  }

  class Segment {
    const base: nat
    const max: nat
    const index: Index
    var log: File
    var size: nat
    var next: nat
    /** The records this segment stands for. */
    ghost var recs: seq<Record>
    /** The offsets that the loaded index had lost. */
    ghost const gap: Span

    /** The index, the size and the next offset tell the same story, whatever the log file holds. */
    ghost predicate Counted()
      reads this, index
    {
      && size == SizeOf(recs) && next == base + |recs|
      && Numbered(base, recs) && AllStorable(recs)
      && index.Valid() && IndexSound(base, recs, index.entries)
    }

    /** And so do the log bytes. */
    ghost predicate Valid()
      reads this, index
    {
      Counted() && log.data == EncodeAll(recs) && log.cursor <= |log.data|
    }

    /**
     * A write has gone behind a moved cursor: the file is shorter than the segment counts, and as
     * neither reads nor further writes ever reach the counted size, it stays so.
     */
    ghost predicate Damaged()
      reads this, index
    {
      Counted() && !log.append && |log.data| < size && log.cursor < size
    }

    lemma DamagedIsNotValid()
      requires Damaged()
      ensures !Valid()
    {
    }

    /** The index has one entry for every record. */
    ghost predicate Indexed()
      reads this, index
    {
      index.entries == Dense(base, recs)
    }

    /** The record of this offset was to start at the end of the file or beyond. */
    ghost predicate PastEnd(offset: nat)
      reads this
    {
      base <= offset && (offset < base + |recs| ==> SizeOf(recs[..offset - base]) >= |log.data|)
    }

    /** The index has one entry for every record outside of the gap. */
    ghost predicate Listed()
      reads this, index
    {
      Gap(base, |recs|, gap) && index.entries == ListedEntries(base, recs, gap)
    }

    /** These records were to start at the end of the file or beyond. */
    ghost predicate Lost(span: Span)
      reads this
    {
      && base <= span.from <= span.to <= base + |recs|
      && SizeOf(recs[..span.from - base]) >= |log.data|
    }

    lemma LostIsPast(span: Span, offset: nat)
      requires Lost(span) && span.Has(offset)
      ensures PastEnd(offset)
    {
      hide SizeOf;
      SizeMonotone(recs, span.from - base, offset - base);
    }

    /** `Segment::create`, for a base offset that has no files yet. */
    constructor Create(base: nat, max: nat)
      ensures this.base == base && this.max == max && fresh(index)
      ensures Valid() && Listed() && recs == [] && log == File([], 0, true) && gap == NO_GAP
    {
      this.base, this.max, gap := base, max, NO_GAP;
      index := new Index.Create();
      log := File([], 0, true);
      size, next, recs := 0, base, [];
    }

    /**
     * `Segment::load`, from the bytes of the two files. The log is cut back to the records that
     * decode; an index without entries is rebuilt and any other is trusted as it is.
     */
    constructor Load(base: nat, max: nat, logBytes: seq<Byte>, indexFile: Option<seq<Byte>>, ghost gap: Span)
      requires !Scan(logBytes).crashed
      ensures this.base == base && this.max == max && this.gap == gap && fresh(index)
      ensures recs == Scan(logBytes).records && next == NextAfter(base, recs)
      ensures size == SizeOf(recs) <= |logBytes|
      ensures log == File(logBytes[..size], size, false)
      ensures index.Valid()
      ensures index.entries == if Unusable(indexFile) then Rebuilt(recs) else Trusted(indexFile)
    {
      hide Scan, SizeOf;
      var idx := OpenIndex(indexFile);
      assert !Unusable(indexFile) ==> idx.entries != [];
      var validBytes, next', rs := Recover(base, logBytes, idx);
      ScanBytes(logBytes);
      var file := File(logBytes, 0, false);
      if validBytes < |logBytes| {
        file := file.Truncate(validBytes);
      }
      assert logBytes[..validBytes] == file.data;
      this.base, this.max, this.gap, index := base, max, gap, idx;
      log := file.SeekEnd();
      size, next, recs := validBytes, next', rs;
    }

    /**
     * `Segment::append`. The invariant survives exactly when the write lands at the end of the
     * file: always in append mode, but on a loaded segment only if no read moved the cursor. Damage
     * is never repaired, and the answer does not depend on it.
     */
    method Append(p: Payload, now: nat) returns (res: Result<nat>)
      requires (Valid() || Damaged()) && now < U64_LIMIT && next + 1 < U64_LIMIT
      requires PayloadLen(p) <= max ==> PayloadLen(p) < U32_LIMIT
      modifies this, index
      ensures res == if PayloadLen(p) > max then Err(MessageTooLarge)
                     else if old(recs) != [] && SizeOf(old(recs)) + PayloadLen(p) > max then Err(SegmentFull)
                     else Ok(old(next))
      ensures res.Err? ==> unchanged(this) && unchanged(index)
      ensures res.Ok? ==> recs == old(recs) + [RecordOf(p, old(next), now)] && next == old(next) + 1
      ensures res.Ok? ==> recs[|old(recs)|] == Record(old(next), now, p.key, p.value)
      ensures res.Ok? ==> index.entries == old(index.entries) + [IndexEntry(old(next), SizeOf(old(recs)))]
      ensures res.Ok? ==> log == old(log).Write(Encode(RecordOf(p, old(next), now)))
      ensures res.Ok? ==> if old(Valid() && log.AtEnd()) then Valid() && log.cursor == |log.data| else Damaged()
      ensures res.Ok? && old(Listed()) ==> Listed()
      ensures res.Ok? && !old(log.append) && old(log.cursor) + PayloadLen(p) <= |old(log.data)| ==>
                Lost(Span(old(next), next))
      ensures log.append == old(log.append)
    {
      hide EncodeAll, Encode, SizeOf, IndexSound, File.Write, ListedEntries, Dense, Numbered, AllStorable;
      SizeIsZeroIffEmpty(recs);
      var recordLen := PayloadLen(p);
      if recordLen > max {
        return Err(MessageTooLarge);
      }
      if size + recordLen > max && size > 0 {
        return Err(SegmentFull);
      }
      var offset := next;
      var r := RecordOf(p, offset, now);
      var buf := new BytesMut([]);
      EncodeRecord(r, buf);
      var plan := Plan(buf.data, [IndexEntry(offset, size)], 1);
      OneIsFine(r);
      EncodeAllOne(r);
      DenseLast(base, recs, r);
      assert EncodeAll([r]) == Encode(r) == buf.data;
      Commit(plan, [r]);
      res := Ok(offset);
    }

    /** `Segment::append_batch`: one write and one time for as many payloads as fit; on an error nothing is written. */
    method AppendBatch(ps: seq<Payload>, now: nat) returns (res: Result<(nat, nat)>)
      requires (Valid() || Damaged()) && now < U64_LIMIT && next + |ps| < U64_LIMIT
      requires forall i :: 0 <= i < |ps| && PayloadLen(ps[i]) <= max ==> PayloadLen(ps[i]) < U32_LIMIT
      modifies this, index
      ensures ps == [] ==> res == Ok((next, 0)) && unchanged(this) && unchanged(index)
      ensures BatchAnswer(old(recs), old(next), max, ps, now, res)
      ensures res.Err? ==> unchanged(this) && unchanged(index)
      ensures res.Ok? ==>
                var share := Share(ps, res.value.1, old(next), now);
                && recs == old(recs) + share && next == old(next) + |share| && ShareIs(share, ps, old(next), now)
                && index.entries == old(index.entries) + Dense(base, recs)[|old(recs)|..]
                && log == old(log).Write(EncodeAll(share)) && (old(Listed()) ==> Listed())
                && (share != [] ==>
                      if old(Valid() && log.AtEnd()) then Valid() && log.cursor == |log.data| else Damaged())
                && (share != [] && !old(log.append) && old(log.cursor) + SizeOf(share) <= |old(log.data)| ==>
                      Lost(Span(old(next), next)))
      ensures log.append == old(log.append)
    {
      hide EncodeAll, SizeOf, IndexSound, File.Write, RecordsOf, ShareIs;
      if ps == [] {
        assert recs + Share(ps, 0, next, now) == recs;
        ShareFields(ps, 0, next, now);
        NoBytes();
        WriteNothing(log);
        return Ok((next, 0));
      }
      var plan := PlanBatch(ps, next, size, max, now, base, recs);
      if plan.Err? {
        return Err(plan.error);
      }
      var first, k := next, plan.value.count;
      ShareFields(ps, k, next, now);
      Commit(plan.value, Share(ps, k, next, now));
      res := Ok((first, k));
    }

    /** The file holds the bytes of every record from an indexed offset on, at the indexed position. */
    lemma Located(offset: nat, position: nat)
      requires Valid() && IndexEntry(offset, position) in index.entries
      ensures base <= offset < next && position + SizeOf(recs[offset - base..]) == |log.data|
      ensures position == SizeOf(recs[..offset - base])
      ensures log.data[position..] == EncodeAll(recs[offset - base..])
      ensures AllStorable(recs[offset - base..]) && recs[offset - base..] != []
    {
      hide EncodeAll, SizeOf;
      assert Points(base, recs, IndexEntry(offset, position));
      TailBytes(recs, offset - base);
      StorableTail(recs, offset - base);
    }

    /** A read from here ends at the end of the file exactly when it asked for all of it or this is the last record. */
    lemma EndsAtEnd(offset: nat, asked: nat)
      requires Valid() && base <= offset < next
      ensures SizeOf(recs[..offset - base]) + Reach(recs[offset - base..], asked) == |log.data| <==>
              SizeOf(recs[offset - base..]) <= asked || offset == next - 1
    {
      hide EncodeAll, SizeOf, Reach, IndexSound;
      TailBytes(recs, offset - base);
      ReachesEnd(recs[offset - base..], asked);
    }

    /**
     * Reading the record at `position` by its own length prefix. On a file whose contents are not
     * known there may be too few bytes, or a length that makes the code panic.
     */
    method ReadExact(position: nat, ghost known: bool, ghost rest: seq<Record>) returns (res: DecodeResult)
      requires known ==> AllStorable(rest) && rest != []
      requires known ==> position <= |log.data| && log.data[position..] == EncodeAll(rest)
      modifies this`log
      ensures log == old(log).Seek(log.cursor) && log.cursor <= Max(position, |log.data|)
      ensures known ==> res == Decoded(Some(rest[0])) && log.cursor == position + Len(rest[0])
    {
      hide Decode, GetU32, EncodeAll, Encode;
      log := log.Seek(position);
      if known {
        HeadBytes(rest);
        PeekAt(log, 4);
      }
      var lenBuf := log.Peek(4);
      log := log.Skip(|lenBuf|);
      if |lenBuf| < 4 {
        return Decoded(None);
      }
      if known {
        assert lenBuf == EncodeAll(rest)[..4];
        LengthOfPrefix(lenBuf, EncodeAll(rest));
        PeekTwice(log.Seek(position), 4, GetU32(lenBuf));
      }
      var recordLen := GetU32(lenBuf);
      if recordLen < 4 {
        return Panicked;
      }
      var body := log.Peek(recordLen - 4);
      log := log.Skip(|body|);
      if |body| < recordLen - 4 {
        return Decoded(None);
      }
      var src := new BytesMut(lenBuf + body);
      res := DecodeRecord(src);
    }

    /**
     * `Segment::read_at`: an indexed offset gives its own record, for every record size and however
     * few bytes the first read returns (`short`); any other offset gives nothing. The cursor is left
     * where the last read ended.
     */
    method ReadAt(offset: nat, short: nat) returns (r: Option<Record>)
      requires Valid()
      modifies this`log
      ensures Valid() && log.data == old(log.data) && log.append == old(log.append)
      ensures r == if offset in Offsets(index.entries) && base <= offset < next then Some(recs[offset - base]) else None
      ensures offset !in Offsets(index.entries) ==> log == old(log)
      ensures offset in Offsets(index.entries) ==>
                && base <= offset < next
                && log == old(log).Seek(SizeOf(recs[..offset - base]) +
                                        Reach(recs[offset - base..], Min(short, 4096)))
                && (log.AtEnd() <==> || log.append || offset == next - 1
                                     || SizeOf(recs[offset - base..]) <= Min(short, 4096))
    {
      hide EncodeAll, SizeOf, Reach, IndexSound;
      InRange(offset);
      IndexIsSorted();
      if offset < base || offset >= next {
        return None;
      }
      var found := index.Lookup(offset);
      if found.None? {
        return None;
      }
      Located(offset, found.value);
      EntryListed(index.entries, offset, found.value);
      EndsAtEnd(offset, Min(short, READ_CHUNK));
      ReachesEnd(recs[offset - base..], Min(short, READ_CHUNK));
      var exact := ReadOne(found.value, offset, short, recs[offset - base..]);
      r := Some(exact);
    }

    /** One read at `position`; if it does not hold the whole record, that is read by its own length prefix. */
    method ReadOne(position: nat, offset: nat, short: nat, ghost rest: seq<Record>) returns (r: Record)
      requires AllStorable(rest) && rest != [] && Numbered(offset, rest)
      requires position + SizeOf(rest) == |log.data| && log.data[position..] == EncodeAll(rest)
      modifies this`log
      ensures r == rest[0] && log == old(log).Seek(position + Reach(rest, Min(short, READ_CHUNK)))
    {
      hide Decode, EncodeAll, SizeOf, Len;
      OneOrMore(rest);
      log := log.Seek(position);
      PeekAt(log, Min(short, READ_CHUNK));
      var chunk := log.Peek(Min(short, READ_CHUNK));
      log := log.Skip(|chunk|);
      assert chunk == EncodeAll(rest)[..|chunk|];
      DecodeCut(rest, |chunk|);
      var src := new BytesMut(chunk);
      var res := DecodeRecord(src);
      if res.Decoded? && res.record.Some? && res.record.value.offset == offset {
        return res.record.value;
      }
      var exact := ReadExact(position, true, rest);
      r := exact.record.value;
    }

    lemma IndexIsSorted()
      requires Counted()
      ensures Sorted(Offsets(index.entries))
    {
    }

    lemma InRange(offset: nat)
      requires Counted()
      ensures offset in Offsets(index.entries) ==> base <= offset < next
    {
      if offset in Offsets(index.entries) {
        var i :| 0 <= i < |index.entries| && index.entries[i].offset == offset;
        assert Points(base, recs, index.entries[i]);
      }
    }

    /**
     * `Segment::read_batch`: from an indexed offset, the longest run of records whose bytes fit both
     * the limit and what the file returned, or just the first record when not even that fits. The
     * cursor is left where the last read ended. On a damaged file anything may come back, or the
     * decoder may panic, but a read past the end gives nothing.
     */
    method ReadBatch(offset: nat, maxBytes: nat, short: nat) returns (rs: Option<seq<Record>>)
      requires (Valid() || Damaged()) && short > 0
      modifies this`log
      ensures log == old(log).Seek(log.cursor)
      ensures if old(Valid()) then Valid() else Damaged()
      ensures offset !in Offsets(index.entries) ==> rs == Some([]) && log == old(log)
      ensures old(Valid()) && offset in Offsets(index.entries) ==>
                && base <= offset < next && rs == Some(FirstRun(recs[offset - base..], Min(maxBytes, short)))
                && log.cursor == SizeOf(recs[..offset - base]) +
                                 Reach(recs[offset - base..], Min(short, Capacity(maxBytes)))
                && (log.AtEnd() <==> || log.append || offset == next - 1
                                     || SizeOf(recs[offset - base..]) <= Min(short, Capacity(maxBytes)))
      ensures old(PastEnd(offset)) ==> rs == Some([])
    {
      hide EncodeAll, SizeOf, FirstRun, IndexSound, Reach;
      ghost var valid := Valid();
      InRange(offset);
      IndexIsSorted();
      if offset < base || offset >= next {
        return Some([]);
      }
      var found := index.Lookup(offset);
      if found.None? {
        return Some([]);
      }
      var position := found.value;
      EntryListed(index.entries, offset, position);
      Counts(offset, position);
      if valid {
        Located(offset, position);
        EndsAtEnd(offset, Min(short, Capacity(maxBytes)));
        ReachesEnd(recs[offset - base..], Min(short, Capacity(maxBytes)));
      }
      rs := ReadRun(position, offset, maxBytes, short, valid, if valid then recs[offset - base..] else []);
    }

    /** An entry of the index counts the bytes before its record. */
    lemma Counts(offset: nat, position: nat)
      requires Counted() && IndexEntry(offset, position) in index.entries
      ensures base <= offset < next && position == SizeOf(recs[..offset - base]) < size
    {
      hide SizeOf, Sorted, Points, EncodeEntries, Numbered, AllStorable;
      PointsBelow(base, recs, IndexEntry(offset, position));
    }

    /** One read at `position`, decoded; if it does not even hold the first record, that one is read on its own. */
    method ReadRun(position: nat, offset: nat, maxBytes: nat, short: nat, ghost known: bool, ghost rest: seq<Record>)
      returns (rs: Option<seq<Record>>)
      requires short > 0
      requires known ==> rest != [] && AllStorable(rest) && Numbered(offset, rest)
      requires known ==> position + SizeOf(rest) == |log.data| && log.data[position..] == EncodeAll(rest)
      modifies this`log
      ensures log == old(log).Seek(log.cursor) && log.cursor <= Max(position, |log.data|)
      ensures position >= |log.data| ==> rs == Some([])
      ensures known ==> rs == Some(FirstRun(rest, Min(maxBytes, short)))
      ensures known ==> log.cursor == position + Reach(rest, Min(short, Capacity(maxBytes)))
    {
      hide Decode, EncodeAll, SizeOf, GetU32, Whole, FirstRun, Len;
      log := log.Seek(position);
      if known {
        PeekAt(log, Min(short, Capacity(maxBytes)));
      }
      var chunk := log.Peek(Min(short, Capacity(maxBytes)));
      log := log.Skip(|chunk|);
      if known {
        assert chunk == EncodeAll(rest)[..|chunk|];
        FirstIsPart(rest);
        OneOrMore(rest);
      }
      rs := DecodeRun(chunk, maxBytes, offset, known, rest);
      if rs == Some([]) && |chunk| > 0 {
        var exact := ReadExact(position, known, rest);
        rs := OneAtMost(exact, offset);
        assert known ==> rest[..1] == [rest[0]] && rest[0].offset == offset;
      }
      if known {
        ChunkIsEnough(rest, |rs.value|);
        FirstRunIs(rest, Min(maxBytes, short), |rs.value|);
      }
    }

    /** How `append` and `append_batch` end: write the bytes, then the index entries. */
    method Commit(plan: Plan, ghost rs: seq<Record>)
      requires (Valid() || Damaged()) && rs != [] && |rs| == plan.count
      requires AllStorable(rs) && Numbered(next, rs)
      requires plan.bytes == EncodeAll(rs) && plan.entries == Dense(base, recs + rs)[|recs|..]
      modifies this, index
      ensures recs == old(recs) + rs && next == old(next) + |rs|
      ensures index.entries == old(index.entries) + plan.entries && log == old(log).Write(plan.bytes)
      ensures if old(Valid() && log.AtEnd()) then Valid() && log.cursor == |log.data| else Damaged()
      ensures old(Listed()) ==> Listed()
      ensures !old(log.append) && old(log.cursor) + SizeOf(rs) <= |old(log.data)| ==> Lost(Span(old(next), next))
      ensures log.append == old(log.append)
    {
      hide EncodeAll, SizeOf, IndexSound, File.Write, Dense, Numbered, AllStorable, ListedEntries;
      ghost var before := log;
      log := log.Write(plan.bytes);
      index.AppendAll(plan.entries);
      size := size + |plan.bytes|;
      next := next + plan.count;
      SoundExtend(base, recs, old(index.entries), rs);
      if Gap(base, |recs|, gap) {
        ListedExtend(base, recs, rs, gap);
      }
      EncodeAllConcat(recs, rs);
      SizeIsZeroIffEmpty(rs);
      RecordsConcat(base, recs, rs);
      WriteExtendsIff(before, plan.bytes);
      WriteKeepsEnd(before, plan.bytes);
      WriteStaysShort(before, plan.bytes, old(size));
      assert (recs + rs)[..|recs|] == recs;
      recs := recs + rs;
    }
  }

  lemma OneIsFine(r: Record)
    requires Storable(r)
    ensures Numbered(r.offset, [r]) && AllStorable([r])
  {
  }

  lemma RecordsConcat(base: nat, rs: seq<Record>, more: seq<Record>)
    requires Numbered(base, rs) && AllStorable(rs) && Numbered(base + |rs|, more) && AllStorable(more)
    ensures Numbered(base, rs + more) && AllStorable(rs + more)
  {
  }

  lemma DenseExtend(base: nat, rs: seq<Record>, more: seq<Record>)
    ensures Dense(base, rs + more)[..|rs|] == Dense(base, rs)
  {
    hide SizeOf;
    forall i | 0 <= i < |rs|
      ensures Dense(base, rs + more)[i] == Dense(base, rs)[i]
    {
      assert (rs + more)[..i] == rs[..i];
    }
  }

  lemma {:induction false} SoundExtend(base: nat, rs: seq<Record>, es: seq<IndexEntry>, more: seq<Record>)
    requires IndexSound(base, rs, es)
    ensures IndexSound(base, rs + more, es + Dense(base, rs + more)[|rs|..])
    decreases |more|
  {
    hide IndexSound, SizeOf;
    if more == [] {
      assert rs + more == rs;
      assert es + Dense(base, rs)[|rs|..] == es;
    } else {
      var n := |more| - 1;
      var init, r := rs + more[..n], more[n];
      SoundExtend(base, rs, es, more[..n]);
      SoundSnoc(base, init, es + Dense(base, init)[|rs|..], r);
      DenseSnoc(base, init, r);
      assert rs + more == init + [r];
      var d, e := Dense(base, init)[|rs|..], IndexEntry(base + |init|, SizeOf(init));
      assert es + Dense(base, init + [r])[|rs|..] == es + d + [e];
    }
  }

  // ---------- an index that lags behind ----------

  lemma OffsetsConcat(a: seq<IndexEntry>, b: seq<IndexEntry>)
    ensures Offsets(a + b) == Offsets(a) + Offsets(b)
  {
  }

  lemma OffsetsOfDense(base: nat, rs: seq<Record>, i: nat, j: nat, o: nat)
    requires i <= j <= |rs|
    ensures o in Offsets(Dense(base, rs)[i..j]) <==> base + i <= o < base + j
  {
    hide SizeOf, Dense;
    var ks := Offsets(Dense(base, rs)[i..j]);
    if base + i <= o < base + j {
      assert ks[o - base - i] == o;
    }
  }

  /** What is added later is listed. */
  lemma ListedExtend(base: nat, rs: seq<Record>, more: seq<Record>, gap: Span)
    requires Gap(base, |rs|, gap)
    ensures Gap(base, |rs + more|, gap)
    ensures ListedEntries(base, rs + more, gap) == ListedEntries(base, rs, gap) + Dense(base, rs + more)[|rs|..]
  {
    hide SizeOf, Dense;
    var d, all := Dense(base, rs), Dense(base, rs + more);
    DenseExtend(base, rs, more);
    assert all == d + all[|rs|..];
    if !gap.None() {
      assert all[..gap.from - base] == d[..gap.from - base];
      assert all[gap.to - base..] == d[gap.to - base..] + all[|rs|..];
    }
  }

  /** Exactly the offsets of the segment outside of the gap are listed. */
  lemma ListedHas(base: nat, rs: seq<Record>, gap: Span, o: nat)
    requires Gap(base, |rs|, gap)
    ensures o in Offsets(ListedEntries(base, rs, gap)) <==> base <= o < base + |rs| && !gap.Has(o)
  {
    hide SizeOf, Dense, Offsets;
    var d, n := Dense(base, rs), |rs|;
    if gap.None() {
      assert d == d[0..n];
      OffsetsOfDense(base, rs, 0, n, o);
    } else {
      var i, j := gap.from - base, gap.to - base;
      OffsetsConcat(d[..i], d[j..]);
      assert d[..i] == d[0..i] && d[j..] == d[j..n];
      OffsetsOfDense(base, rs, 0, i, o);
      OffsetsOfDense(base, rs, j, n, o);
    }
  }

  /** The gap of an index that holds only `k` leading entries. */
  function GapAfter(base: nat, rs: seq<Record>, k: nat): Span { Span(base + k, base + |rs|) }

  lemma ListedPrefix(base: nat, rs: seq<Record>, k: nat)
    requires k <= |rs| && (rs != [] ==> k > 0)
    ensures Gap(base, |rs|, GapAfter(base, rs, k))
    ensures ListedEntries(base, rs, GapAfter(base, rs, k)) == Dense(base, rs)[..k]
  {
    hide SizeOf, Dense;
  }

  // ---------- reading ----------

  lemma EntryListed(es: seq<IndexEntry>, offset: nat, position: nat)
    requires IndexEntry(offset, position) in es
    ensures offset in Offsets(es)
  {
    var i :| 0 <= i < |es| && es[i] == IndexEntry(offset, position);
    assert Offsets(es)[i] == offset;
  }

  /** A log that holds a record starts with its length, and its first `Len` bytes decode to it. */
  lemma HeadBytes(rest: seq<Record>)
    requires AllStorable(rest) && rest != []
    ensures OVERHEAD <= Len(rest[0]) <= |EncodeAll(rest)| && GetU32(EncodeAll(rest)) == Len(rest[0])
    ensures Decode(EncodeAll(rest)[..Len(rest[0])]).Got?
    ensures Decode(EncodeAll(rest)[..Len(rest[0])]).record == rest[0]
  {
    hide Decode, GetU32, EncodeAll;
    FirstIsPart(rest);
    DecodeCut(rest, Len(rest[0]));
    LengthOfPrefix(EncodeAll(rest)[..Len(rest[0])], EncodeAll(rest));
  }

  lemma FirstIsPart(rest: seq<Record>)
    requires rest != []
    ensures OVERHEAD <= Len(rest[0]) <= SizeOf(rest)
  {
  }

  /** What a record read on its own adds to an empty batch. */
  function OneAtMost(res: DecodeResult, offset: nat): Option<seq<Record>>
  {
    match res
    case Panicked => None
    case Decoded(Some(r)) => if r.offset >= offset then Some([r]) else Some([])
    case _ => Some([])
  }

  /** Where the decoding loop stands after `k` records of a known log. */
  ghost predicate RunSoFar(chunk: seq<Byte>, maxBytes: nat, rest: seq<Record>, k: nat,
                           data: seq<Byte>, total: nat, rs: seq<Record>)
  {
    && k <= |rest| && rs == rest[..k] && total == SizeOf(rest[..k]) <= |chunk|
    && |chunk| - total <= SizeOf(rest[k..]) && data == EncodeAll(rest[k..])[..|chunk| - total]
    && (k <= 1 || total <= maxBytes)
  }

  lemma RunStarts(chunk: seq<Byte>, maxBytes: nat, rest: seq<Record>)
    requires |chunk| <= SizeOf(rest) && chunk == EncodeAll(rest)[..|chunk|]
    ensures RunSoFar(chunk, maxBytes, rest, 0, chunk, 0, [])
  {
    hide EncodeAll;
    assert rest[0..] == rest;
  }

  /** What the next bytes hold: a whole record, or the first part of one. */
  lemma RunMeets(chunk: seq<Byte>, maxBytes: nat, rest: seq<Record>, k: nat,
                 data: seq<Byte>, total: nat, rs: seq<Record>)
    requires RunSoFar(chunk, maxBytes, rest, k, data, total, rs) && AllStorable(rest) && |data| >= 4
    ensures k < |rest| && GetU32(data) == Len(rest[k])
    ensures |data| >= Len(rest[k]) ==>
              Decode(data) == Got(rest[k], EncodeAll(rest[k + 1..])[..|data| - Len(rest[k])])
  {
    hide Decode, EncodeAll, SizeOf, GetU32, Len;
    MoreRecords(rest, k, |data|);
    DecodeCut(rest[k..], |data|);
    assert rest[k..][1..] == rest[k + 1..];
  }

  lemma RunGoesOn(chunk: seq<Byte>, maxBytes: nat, rest: seq<Record>, k: nat,
                  data: seq<Byte>, total: nat, rs: seq<Record>)
    requires RunSoFar(chunk, maxBytes, rest, k, data, total, rs) && k < |rest| && |data| >= Len(rest[k])
    requires total + Len(rest[k]) <= maxBytes || rs == []
    ensures RunSoFar(chunk, maxBytes, rest, k + 1, EncodeAll(rest[k + 1..])[..|data| - Len(rest[k])],
                     total + Len(rest[k]), rs + [rest[k]])
  {
    hide EncodeAll, SizeOf, Len;
    SizeStep(rest, k);
    TailBytes(rest[k..], 1);
    EncodeAllOne(rest[k]);
    assert rest[k..][..1] == [rest[k]] && rest[k..][1..] == rest[k + 1..];
  }

  /** The records of the chunk that are whole and within the limit. */
  ghost predicate RunEnds(chunk: seq<Byte>, maxBytes: nat, rest: seq<Record>, rs: seq<Record>)
  {
    && |rs| <= |rest| && rs == rest[..|rs|]
    && (rs == [] && rest != [] ==> SizeOf(rest[..1]) > |chunk|)
    && (rs != [] ==> SizeOf(rs) <= |chunk| && (|rs| == 1 || SizeOf(rs) <= maxBytes))
    && (rs != [] && |rs| < |rest| ==> SizeOf(rest[..|rs| + 1]) > Min(|chunk|, maxBytes))
  }

  lemma RunStops(chunk: seq<Byte>, maxBytes: nat, rest: seq<Record>, k: nat,
                 data: seq<Byte>, total: nat, rs: seq<Record>)
    requires RunSoFar(chunk, maxBytes, rest, k, data, total, rs)
    requires k < |rest| ==> |data| < Len(rest[k]) || (total + Len(rest[k]) > maxBytes && rs != [])
    ensures RunEnds(chunk, maxBytes, rest, rs)
  {
    hide EncodeAll, SizeOf, Len;
    if k < |rest| {
      SizeStep(rest, k);
    }
  }

  /**
   * The decoding loop of `Segment::read_batch`, over the bytes that one read returned. It stops at
   * the first bytes that are no record; on a known log that does not happen, nor does a panic.
   */
  method DecodeRun(chunk: seq<Byte>, maxBytes: nat, offset: nat, ghost known: bool, ghost rest: seq<Record>)
    returns (rs: Option<seq<Record>>)
    requires known ==> AllStorable(rest) && Numbered(offset, rest)
    requires known ==> |chunk| <= SizeOf(rest) && chunk == EncodeAll(rest)[..|chunk|]
    ensures known ==> rs.Some? && RunEnds(chunk, maxBytes, rest, rs.value)
    ensures chunk == [] ==> rs == Some([])
  {
    hide Decode, EncodeAll, SizeOf, GetU32, Len, RunSoFar, RunEnds;
    var src := new BytesMut(chunk);
    var records: seq<Record>, total: nat := [], 0;
    ghost var k := 0;
    if known {
      RunStarts(chunk, maxBytes, rest);
    }
    while |src.data| >= 4
      invariant known ==> RunSoFar(chunk, maxBytes, rest, k, src.data, total, records)
      invariant chunk == [] ==> records == [] && src.data == []
      decreases |src.data|
    {
      ghost var data := src.data;
      if known {
        RunMeets(chunk, maxBytes, rest, k, data, total, records);
      }
      var recordLen := GetU32(src.data);
      if |src.data| < recordLen || (total + recordLen > maxBytes && records != []) {
        if known {
          RunStops(chunk, maxBytes, rest, k, data, total, records);
        }
        return Some(records);
      }
      var res := DecodeRecord(src);
      if res.Panicked? {
        return None;
      }
      if res.RecordTooSmall? || res.record.None? {
        return Some(records);
      }
      GotShrinks(data);
      if known {
        RunGoesOn(chunk, maxBytes, rest, k, data, total, records);
      }
      var r := res.record.value;
      if r.offset >= offset {
        total := total + recordLen;
        records := records + [r];
      }
      k := k + 1;
    }
    if known {
      if k < |rest| {
        LenPositive(rest[k]);
      }
      RunStops(chunk, maxBytes, rest, k, src.data, total, records);
    }
    rs := Some(records);
  }

  lemma LenPositive(r: Record)
    ensures Len(r) >= OVERHEAD
  {
  }

  lemma MoreRecords(rest: seq<Record>, k: nat, n: nat)
    requires k <= |rest| && 0 < n <= SizeOf(rest[k..])
    ensures k < |rest|
  {
  }

  lemma ChunkIsEnough(rest: seq<Record>, k: nat)
    requires rest != [] && 0 < k <= |rest|
    ensures SizeOf(rest[..1]) <= SizeOf(rest[..k]) <= SizeOf(rest)
    ensures k < |rest| ==> SizeOf(rest[..1]) <= SizeOf(rest[..k + 1]) <= SizeOf(rest)
  {
    hide SizeOf;
    SplitAt(rest, k);
    SizeMonotone(rest, 1, k);
    if k < |rest| {
      SplitAt(rest, k + 1);
      SizeMonotone(rest, 1, k + 1);
    }
  }

  lemma FirstRunIs(rest: seq<Record>, budget: nat, k: nat)
    requires 0 < k <= |rest| && (k == 1 || SizeOf(rest[..k]) <= budget)
    requires k < |rest| ==> SizeOf(rest[..k + 1]) > budget
    ensures rest[..k] == FirstRun(rest, budget)
  {
    hide SizeOf, Whole;
    if SizeOf(rest[..k]) <= budget {
      WholeUnique(rest, budget, k);
    } else {
      assert rest[..0] == [];
      SizeOfNone();
      WholeUnique(rest, budget, 0);
    }
  }

  // ---------- planning a batch ----------

  /** The records that the first `k` payloads of a batch become. */
  function Share(ps: seq<Payload>, k: nat, next: nat, now: nat): (rs: seq<Record>)
    requires k <= |ps|
    ensures |rs| == k
  {
    RecordsOf(ps[..k], next, now)
  }

  /** The records of a batch, field by field: consecutive offsets, one time, and the keys and values in order. */
  predicate ShareIs(rs: seq<Record>, ps: seq<Payload>, next: nat, now: nat)
  {
    |rs| <= |ps| && forall i :: 0 <= i < |rs| ==> rs[i] == Record(next + i, now, ps[i].key, ps[i].value)
  }

  lemma ShareFields(ps: seq<Payload>, k: nat, next: nat, now: nat)
    requires k <= |ps|
    ensures ShareIs(Share(ps, k, next, now), ps, next, now)
  {
  }

  lemma ShareStep(ps: seq<Payload>, k: nat, next: nat, now: nat)
    requires k < |ps|
    ensures Share(ps, k + 1, next, now) == Share(ps, k, next, now) + [RecordOf(ps[k], next + k, now)]
  {
  }

  lemma ShareSize(ps: seq<Payload>, k: nat, next: nat, now: nat)
    requires k < |ps|
    ensures SizeOf(Share(ps, k + 1, next, now)) == SizeOf(Share(ps, k, next, now)) + PayloadLen(ps[k])
  {
    ShareStep(ps, k, next, now);
    SizeSnoc(Share(ps, k, next, now), RecordOf(ps[k], next + k, now));
  }

  lemma FirstTooLargeIs(max: nat, ps: seq<Payload>, k: nat)
    requires k <= |ps| && forall i :: 0 <= i < k ==> PayloadLen(ps[i]) <= max
    requires k < |ps| ==> PayloadLen(ps[k]) > max
    ensures FirstTooLarge(max, ps) == k
  {
  }

  /**
   * What `append_batch` answers on a segment of records `rs`: the largest number of payloads that fit,
   * or an error if one that is too large is met before that, or if not even the first fits.
   */
  ghost predicate BatchAnswer(
    rs: seq<Record>, next: nat, max: nat, ps: seq<Payload>, now: nat, res: Result<(nat, nat)>)
  {
    && (res.Ok? ==>
          var (o, k) := res.value;
          && o == next && k <= |ps| && (ps != [] ==> k > 0)
          && (forall i :: 0 <= i < k ==> PayloadLen(ps[i]) <= max)
          && (k > 0 ==> SizeOf(rs) + SizeOf(Share(ps, k, next, now)) <= max)
          && (k < |ps| ==> PayloadLen(ps[k]) <= max &&
                           SizeOf(rs) + SizeOf(Share(ps, k, next, now)) + PayloadLen(ps[k]) > max))
    && (res == Err(MessageTooLarge) ==>
          var j := FirstTooLarge(max, ps);
          j < |ps| && (j == 0 || SizeOf(rs) + SizeOf(Share(ps, j, next, now)) <= max))
    && (res == Err(SegmentFull) ==> ps != [] && PayloadLen(ps[0]) <= max && SizeOf(rs) + PayloadLen(ps[0]) > max)
  }

  lemma AnswerCount(rs: seq<Record>, next: nat, max: nat, ps: seq<Payload>, now: nat, res: Result<(nat, nat)>)
    requires BatchAnswer(rs, next, max, ps, now, res)
    ensures res.Ok? ==> res.value.0 == next && res.value.1 <= |ps| && (ps != [] ==> res.value.1 > 0)
  {
  }

  /** The bytes, index entries and count that a batch contributes to one segment. */
  datatype Plan = Plan(bytes: seq<Byte>, entries: seq<IndexEntry>, count: nat)

  /**
   * The loop of `Segment::append_batch`, before anything is written: as many payloads as fit, an
   * error if one that is too large is met before the segment is full, or if not even the first fits.
   */
  method PlanBatch(ps: seq<Payload>, next: nat, size: nat, max: nat, now: nat, ghost base: nat, ghost rs: seq<Record>)
    returns (res: Result<Plan>)
    requires next == base + |rs| && size == SizeOf(rs) && ps != []
    ensures res.Ok? ==>
              var k := res.value.count;
              && 0 < k <= |ps|
              && (forall i :: 0 <= i < k ==> PayloadLen(ps[i]) <= max)
              && SizeOf(rs) + SizeOf(Share(ps, k, next, now)) <= max
              && (k < |ps| ==> PayloadLen(ps[k]) <= max &&
                               SizeOf(rs) + SizeOf(Share(ps, k, next, now)) + PayloadLen(ps[k]) > max)
              && res.value.bytes == EncodeAll(Share(ps, k, next, now))
              && res.value.entries == Dense(base, rs + Share(ps, k, next, now))[|rs|..]
    ensures res == Err(MessageTooLarge) ==>
              var j := FirstTooLarge(max, ps);
              j < |ps| && (j == 0 || SizeOf(rs) + SizeOf(Share(ps, j, next, now)) <= max)
    ensures res == Err(SegmentFull) ==>
              PayloadLen(ps[0]) <= max && SizeOf(rs) + PayloadLen(ps[0]) > max
  {
    hide Encode, EncodeAll, SizeOf, RecordsOf;
    var buf := new BytesMut([]);
    var position, entries := size, [];
    SizeOfNone();
    NoBytes();
    for k := 0 to |ps|
      invariant forall i :: 0 <= i < k ==> PayloadLen(ps[i]) <= max
      invariant position == SizeOf(rs) + SizeOf(Share(ps, k, next, now))
      invariant k > 0 ==> position <= max
      invariant buf.data == EncodeAll(Share(ps, k, next, now))
      invariant entries == Dense(base, rs + Share(ps, k, next, now))[|rs|..]
    {
      var recordLen := PayloadLen(ps[k]);
      if recordLen > max {
        FirstTooLargeIs(max, ps, k);
        return Err(MessageTooLarge);
      }
      if position + recordLen > max {
        if k > 0 {
          return Ok(Plan(buf.data, entries, k));
        }
        return Err(SegmentFull);
      }
      ghost var share := Share(ps, k, next, now);
      var r := RecordOf(ps[k], next + k, now);
      EncodeRecord(r, buf);
      entries := entries + [IndexEntry(next + k, position)];
      position := position + recordLen;
      ShareStep(ps, k, next, now);
      ShareSize(ps, k, next, now);
      EncodeAllConcat(share, [r]);
      EncodeAllOne(r);
      EncodeAllConcat(rs, share);
      assert rs + (share + [r]) == (rs + share) + [r];
      DenseSnoc(base, rs + share, r);
    }
    res := Ok(Plan(buf.data, entries, |ps|));
  }

  lemma NoBytes()
    ensures EncodeAll([]) == []
  {
  }

  lemma SizeIsZeroIffEmpty(rs: seq<Record>)
    ensures SizeOf(rs) == 0 <==> rs == []
  {
  }

  lemma WriteNothing(f: File)
    ensures f.Write([]) == f
  {
  }

  /** A write that starts below the counted size leaves the file and its cursor below the new one. */
  lemma WriteStaysShort(f: File, b: seq<Byte>, size: nat)
    requires b != []
    ensures !f.append && |f.data| <= size && f.cursor < size ==>
              var g := f.Write(b); |g.data| < size + |b| && g.cursor < size + |b|
  {
  }

  lemma WriteKeepsEnd(f: File, b: seq<Byte>)
    requires b != []
    ensures f.Write(b).append == f.append
    ensures f.AtEnd() ==> f.Write(b).cursor == |f.Write(b).data|
    ensures !f.append && f.cursor + |b| <= |f.data| ==> |f.Write(b).data| == |f.data|
  {
  }

  // ---------- what load recovers ----------

  /** The two files of a segment, as bytes; the index file may be missing. */
  datatype FilePair = FilePair(log: seq<Byte>, index: Option<seq<Byte>>)

  /** Loading these files recovers exactly `rs`. */
  ghost predicate Recovers(base: nat, files: FilePair, rs: seq<Record>)
  {
    && AllStorable(rs) && Numbered(base, rs)
    && Scan(files.log) == Scanned(rs, SizeOf(rs), false)
    && SizeOf(rs) <= |files.log| && files.log[..SizeOf(rs)] == EncodeAll(rs)
  }

  /**
   * Crash recovery at every cut point: from any byte prefix of a segment's log, load recovers
   * exactly the longest run of whole records.
   */
  lemma CutLogRecovers(base: nat, written: seq<Record>, c: nat, index: Option<seq<Byte>>)
    requires AllStorable(written) && Numbered(base, written) && c <= SizeOf(written)
    ensures Recovers(base, FilePair(EncodeAll(written)[..c], index), written[..Whole(written, c)])
  {
    hide Scan, EncodeAll, SizeOf, Whole;
    var k := Whole(written, c);
    ScanOfCutLog(written, c);
    WholeIsLongest(written, c);
    SplitAt(written, k);
    assert EncodeAll(written)[..c][..SizeOf(written[..k])] == EncodeAll(written[..k]);
  }

  lemma WholeLogRecovers(base: nat, rs: seq<Record>, index: Option<seq<Byte>>)
    requires AllStorable(rs) && Numbered(base, rs)
    ensures Recovers(base, FilePair(EncodeAll(rs), index), rs)
  {
    hide Scan, EncodeAll, SizeOf;
    ScanOfWholeLog(rs);
    assert EncodeAll(rs)[..SizeOf(rs)] == EncodeAll(rs);
  }

  /** The index file that a segment with these records leaves behind. */
  function IndexFile(base: nat, rs: seq<Record>): seq<Byte> { EncodeEntries(Dense(base, rs)) }

  lemma IndexFileReadsBack(base: nat, rs: seq<Record>)
    requires base + |rs| < U64_LIMIT && SizeOf(rs) < U64_LIMIT
    ensures Trusted(Some(IndexFile(base, rs))) == Dense(base, rs)
  {
    hide SizeOf, EncodeEntries, DecodeEntries;
    forall i | 0 <= i < |rs|
      ensures Fits(Dense(base, rs)[i])
    {
      SplitAt(rs, i);
    }
    EntriesRoundTrip(Dense(base, rs));
    if rs == [] {
      assert Dense(base, rs) == [];
    }
  }

  /** An index that holds only a leading part of the true entries is still right about what it holds. */
  lemma LaggingIsSound(base: nat, rs: seq<Record>, k: nat)
    requires k <= |rs|
    ensures IndexSound(base, rs, Dense(base, rs)[..k])
  {
    hide SizeOf;
    forall e | e in Dense(base, rs)[..k]
      ensures Points(base, rs, e)
    {
    }
  }

  lemma RebuiltIsDense(base: nat, rs: seq<Record>)
    requires Numbered(base, rs)
    ensures Rebuilt(rs) == Dense(base, rs)
  {
  }

  /**
   * A segment loaded from files that recover `rs` stands for exactly `rs` and is ready to be
   * extended. Its index is complete if it was rebuilt or was complete before, and otherwise sound.
   */
  method LoadSegment(base: nat, max: nat, files: FilePair, ghost rs: seq<Record>, ghost gap: Span)
    returns (s: Segment)
    requires Recovers(base, files, rs) && IndexSound(base, rs, Trusted(files.index))
    ensures fresh(s) && fresh(s.index) && s.base == base && s.max == max && s.gap == gap
    ensures s.Valid() && s.recs == rs && s.log.AtEnd() && !s.log.append
    ensures s.log.data == EncodeAll(rs)
    ensures s.Indexed() <==> Unusable(files.index) || Trusted(files.index) == Dense(base, rs)
    ensures s.index.entries == if Unusable(files.index) then Dense(base, rs) else Trusted(files.index)
  {
    hide Scan, EncodeAll, SizeOf, IndexSound, Dense, Rebuilt;
    s := new Segment.Load(base, max, files.log, files.index, gap);
    RebuiltIsDense(base, rs);
    DenseIsSound(base, rs);
  }
}
