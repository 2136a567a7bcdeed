/** The loops of a partition, round by round: what a batch has placed and what a fetch has found. */
module Staging {
  import opened Bytes
  import opened Records
  import opened Indexes
  import opened LogSpec
  import opened AppendTheorems
  import opened Cursors
  import opened Segments

  lemma FreshBase(max: nat)
    ensures WellFormed(Fresh(max)) && BaseOf(Fresh(max), 0) == 0
  {
    FreshLog(max);
    assert Fresh(max).segs[..0] == [];
  }

  /** Rotating or extending the last segment leaves the bases where they are. */
  lemma BasesKept(log: Log, log': Log, i: nat)
    requires log.base == log'.base && i <= |log.segs| && i <= |log'.segs| && log.segs[..i] == log'.segs[..i]
    ensures BaseOf(log, i) == BaseOf(log', i)
  {
  }

  lemma LastBase(log: Log)
    requires log.segs != []
    ensures BaseOf(log, |log.segs| - 1) + |Last(log)| == Next(log)
  {
  }

  lemma RotateWellFormed(log: Log)
    requires WellFormed(log) && Last(log) != []
    ensures WellFormed(Rotate(log))
    ensures BaseOf(Rotate(log), |log.segs|) == Next(log)
  {
    RotateFlat(log);
    assert Rotate(log).segs[..|log.segs|] == log.segs;
  }

  lemma NotFull(log: Log, n: nat)
    requires log.segs != [] && !FitsLast(log, n)
    ensures Last(log) != [] && FitsLast(Rotate(log), n) && Next(Rotate(log)) == Next(log)
    ensures |Rotate(log).segs| == |log.segs| + 1
  {
    RotateFlat(log);
  }

  lemma ExtendWellFormed(log: Log, rs: seq<Record>)
    requires WellFormed(log) && Numbered(Next(log), rs)
    ensures WellFormed(Extend(log, rs))
  {
    hide Flat;
    ExtendFlat(log, rs);
  }

  // ---------- batches, call by call ----------

  lemma PlaceShare(log: Log, ps: seq<Payload>, k: nat, clock: nat -> nat)
    requires log.segs != [] && 0 < k <= |ps|
    requires SizeOf(Last(log)) + SizeOf(Share(ps, k, Next(log), clock(|log.segs| - 1))) <= log.max
    ensures var share := Share(ps, k, Next(log), clock(|log.segs| - 1));
            && PlaceAll(log, ps[..k], clock) == Extend(log, share)
            && Last(Extend(log, share)) != [] && Extend(log, share).max == log.max
            && SizeOf(Last(Extend(log, share))) == SizeOf(Last(log)) + SizeOf(share)
  {
    hide SizeOf, PlaceAll, RecordsOf, Flat;
    PlaceAllInLast(log, ps[..k], clock);
    EncodeAllConcat(Last(log), Share(ps, k, Next(log), clock(|log.segs| - 1)));
  }

  lemma ShareNumbered(ps: seq<Payload>, k: nat, next: nat, now: nat)
    requires k <= |ps|
    ensures Numbered(next, Share(ps, k, next, now))
  {
  }

  lemma UntilTooLarge(log: Log, ps: seq<Payload>, clock: nat -> nat)
    requires log.segs != [] && FirstTooLarge(log.max, ps) < |ps|
    requires var j := FirstTooLarge(log.max, ps);
             j == 0 || SizeOf(Last(log)) + SizeOf(Share(ps, j, Next(log), clock(|log.segs| - 1))) <= log.max
    ensures |PlaceAll(log, ps[..FirstTooLarge(log.max, ps)], clock).segs| == |log.segs|
  {
    hide SizeOf, Flat;
    var j := FirstTooLarge(log.max, ps);
    if j > 0 {
      PlaceAllInLast(log, ps[..j], clock);
    }
  }

  /** A call on the active segment writes there exactly when the whole batch does. */
  lemma CallWrites(log: Log, ps: seq<Payload>, k: nat, now: nat)
    requires log.segs != [] && 0 < k <= |ps| && forall i :: 0 <= i < k ==> PayloadLen(ps[i]) <= log.max
    requires SizeOf(Last(log)) + SizeOf(Share(ps, k, Next(log), now)) <= log.max
    requires k < |ps| ==> PayloadLen(ps[k]) <= log.max &&
                          SizeOf(Last(log)) + SizeOf(Share(ps, k, Next(log), now)) + PayloadLen(ps[k]) > log.max
    ensures BatchWrites(log, ps)
  {
    hide SizeOf, RecordsOf, Flat, PayloadLen;
    TotalIsSize(ps[..k], Next(log), now);
    TotalMonotone(ps, 1, k);
    var n := FirstTooLarge(log.max, ps);
    if k < |ps| {
      assert ps[..k + 1][..k] == ps[..k];
      TotalMonotone(ps, Min(k + 1, n), n);
    }
    assert ps[..1][..0] == [];
  }

  lemma NoCallWrites(log: Log, ps: seq<Payload>, now: nat)
    requires log.segs != []
    requires var j := FirstTooLarge(log.max, ps);
             j < |ps| && (j == 0 || SizeOf(Last(log)) + SizeOf(Share(ps, j, Next(log), now)) <= log.max)
    ensures !BatchWrites(log, ps)
  {
    hide SizeOf, RecordsOf, Flat, PayloadLen;
    TotalIsSize(ps[..FirstTooLarge(log.max, ps)], Next(log), now);
  }

  /** Once rotated, the active file is in append mode with its cursor at the end. */
  lemma TailTwice(a: Log, b: Log, c: Log, f: Tail)
    requires a.segs != [] && |c.segs| >= |b.segs| > |a.segs|
    ensures TailBetween(b, c, TailBetween(a, b, f)) == TailBetween(a, c, f)
    ensures TailBetween(a, b, f).append
  {
    hide SizeOf;
  }

  lemma PlaceCases(log: Log, p: Payload, clock: nat -> nat)
    requires log.segs != []
    ensures FitsLast(log, PayloadLen(p)) ==>
              Place(log, p, clock) == Extend(log, [RecordOf(p, Next(log), clock(|log.segs| - 1))])
    ensures !FitsLast(log, PayloadLen(p)) ==>
              && |Rotate(log).segs| == |log.segs| + 1
              && Place(log, p, clock) == Extend(Rotate(log), [RecordOf(p, Next(log), clock(|log.segs|))])
  {
    hide Extend, SizeOf, Next;
  }

  lemma TailExtended(log: Log, rs: seq<Record>, f: Tail)
    requires log.segs != [] && rs != []
    ensures Extend(log, rs).segs != []
    ensures TailBetween(log, Extend(log, rs), f) == f.(cursor := SizeOf(Last(Extend(log, rs))))
  {
    hide SizeOf;
  }

  lemma TailRotated(a: Log, b: Log, f: Tail)
    requires a.segs != [] && |b.segs| >= |a.segs|
    ensures TailBetween(a, Rotate(b), f) == Tail(true, 0)
  {
    hide SizeOf;
    SizeOfNone();
  }

  lemma TailOfSame(log: Log, f: Tail)
    requires log.segs != []
    ensures TailBetween(log, log, f) == f
  {
  }

  lemma NothingToWrite(log: Log, ps: seq<Payload>)
    requires log.segs != []
    ensures ps == [] || !FitsLast(log, PayloadLen(ps[0])) ==> !BatchWrites(log, ps)
  {
  }

  lemma TailKeepsEnd(a: Log, b: Log, f: Tail)
    requires a.segs != [] && b.segs != []
    ensures AtEnd(a, f) ==> AtEnd(b, TailBetween(a, b, f))
    ensures f.append ==> TailBetween(a, b, f).append
  {
    hide SizeOf;
  }

  /** A payload that fits in a segment has a length that the record format can hold. */
  ghost predicate LengthsFit(ps: seq<Payload>, max: nat)
  {
    forall i :: 0 <= i < |ps| && PayloadLen(ps[i]) <= max ==> PayloadLen(ps[i]) < U32_LIMIT
  }

  lemma LengthsFitFrom(ps: seq<Payload>, max: nat, d: nat)
    requires LengthsFit(ps, max) && d <= |ps|
    ensures LengthsFit(ps[d..], max)
  {
  }

  predicate LastEmpty(log: Log) { log.segs != [] && Last(log) == [] }

  /** Between two calls, `d` payloads are placed and the log is ready for the next one. */
  ghost predicate Stage(start: Log, batch: seq<Payload>, d: nat, clock: nat -> nat, log: Log)
  {
    && start.segs != [] && d <= |batch|
    && (forall i :: 0 <= i < d ==> PayloadLen(batch[i]) <= start.max)
    && var placed := PlaceAll(start, batch[..d], clock);
       || (log == placed && (d == 0 || d == |batch|))
       || (d < |batch| && log == Rotate(placed) &&
           PayloadLen(batch[d]) <= start.max && !FitsLast(placed, PayloadLen(batch[d])))
  }

  lemma StageStart(start: Log, batch: seq<Payload>, clock: nat -> nat)
    requires start.segs != []
    ensures Stage(start, batch, 0, clock, start)
  {
    assert batch[..0] == [];
  }

  lemma StageMax(start: Log, batch: seq<Payload>, d: nat, clock: nat -> nat, log: Log)
    requires Stage(start, batch, d, clock, log)
    ensures log.max == start.max
  {
    PlaceAllGrows(start, batch[..d], clock);
  }

  /** A call that finds its segment full leaves the batch where it was, on a rotated log. */
  lemma StageFull(start: Log, batch: seq<Payload>, d: nat, clock: nat -> nat, log: Log)
    requires Stage(start, batch, d, clock, log) && d < |batch| && log.segs != []
    requires PayloadLen(batch[d]) <= start.max && !FitsLast(log, PayloadLen(batch[d]))
    ensures !LastEmpty(log) && Stage(start, batch, d, clock, Rotate(log))
  {
    hide PlaceAll, SizeOf;
    assert d == 0 ==> batch[..d] == [];
    StageMax(start, batch, d, clock, log);
  }

  /** Placing what is left on the current log gives the same as placing everything on the first. */
  lemma StageGoesOn(start: Log, batch: seq<Payload>, d: nat, clock: nat -> nat, log: Log, k: nat)
    requires Stage(start, batch, d, clock, log) && 0 < k <= |batch| - d
    ensures log.segs != [] && PlaceAll(log, batch[d..][..k], clock) == PlaceAll(start, batch[..d + k], clock)
  {
    hide PlaceAll, FitsLast, Rotate, PayloadLen;
    var placed, ps := PlaceAll(start, batch[..d], clock), batch[d..][..k];
    assert batch[..d + k] == batch[..d] + ps;
    PlaceAllConcat(start, batch[..d], ps, clock);
    if log != placed {
      assert ps[0] == batch[d];
      PlaceAfterRotate(placed, ps, clock);
      NotFull(placed, PayloadLen(ps[0]));
    }
  }

  lemma StageAdvance(start: Log, batch: seq<Payload>, d: nat, clock: nat -> nat, before: Log, log: Log, k: nat)
    requires Stage(start, batch, d, clock, before) && 0 < k <= |batch| - d && before.segs != []
    requires log == PlaceAll(before, batch[d..][..k], clock) && Next(before) == Next(start) + d
    requires forall i :: 0 <= i < k ==> PayloadLen(batch[d..][i]) <= start.max
    requires k < |batch| - d ==>
               PayloadLen(batch[d + k]) <= start.max && !FitsLast(log, PayloadLen(batch[d + k]))
    ensures Next(log) == Next(start) + d + k
    ensures Stage(start, batch, d + k, clock, if d + k == |batch| then log else Rotate(log))
  {
    hide PlaceAll, FitsLast, Rotate, PayloadLen, Flat;
    StageGoesOn(start, batch, d, clock, before, k);
    PlaceAllGrows(start, batch[..d + k], clock);
    forall i | 0 <= i < d + k
      ensures PayloadLen(batch[i]) <= start.max
    {
      assert i >= d ==> batch[d..][i - d] == batch[i];
    }
  }

  lemma FirstTooLargeFrom(max: nat, batch: seq<Payload>, d: nat)
    requires d <= |batch| && forall i :: 0 <= i < d ==> PayloadLen(batch[i]) <= max
    ensures FirstTooLarge(max, batch) == d + FirstTooLarge(max, batch[d..])
  {
    var j := FirstTooLarge(max, batch[d..]);
    forall i | 0 <= i < d + j
      ensures PayloadLen(batch[i]) <= max
    {
      assert i >= d ==> batch[d..][i - d] == batch[i];
    }
    FirstTooLargeIs(max, batch, d + j);
  }

  /** A payload that is too large costs exactly the share of the segment being filled. */
  lemma StageFails(start: Log, batch: seq<Payload>, d: nat, clock: nat -> nat, log: Log)
    requires Stage(start, batch, d, clock, log) && d < |batch| && log.segs != []
    requires var j := FirstTooLarge(start.max, batch[d..]);
             j < |batch| - d && |PlaceAll(log, batch[d..][..j], clock).segs| == |log.segs|
    ensures LogSpec.AppendBatch(start, batch, clock) == (log, Err(MessageTooLarge))
  {
    hide PlaceAll, FitsLast, PayloadLen, FirstTooLarge;
    var j := FirstTooLarge(start.max, batch[d..]);
    FirstTooLargeFrom(start.max, batch, d);
    var placed, full := PlaceAll(start, batch[..d], clock), PlaceAll(start, batch[..d + j], clock);
    PlaceAllSegments(start, batch[..d], clock);
    PlaceAllGrows(start, batch[..d], clock);
    PlaceAllGrows(start, batch[..d + j], clock);
    if j > 0 {
      StageGoesOn(start, batch, d, clock, log, j);
      PlaceAllSegments(log, batch[d..][..j], clock);
    }
    if log == placed {
      assert batch[..0] == [];
      PlaceNothing(start, clock);
    }
  }

  lemma StageDone(start: Log, batch: seq<Payload>, clock: nat -> nat, log: Log)
    requires Stage(start, batch, |batch|, clock, log)
    ensures LogSpec.AppendBatch(start, batch, clock) == (log, Ok(Next(start)))
  {
    hide PlaceAll, FitsLast, PayloadLen;
    FirstTooLargeIs(start.max, batch, |batch|);
    assert batch[..|batch|] == batch;
  }

  // ---------- finding a segment ----------

  lemma FirstBase(log: Log)
    requires log.segs != []
    ensures BaseOf(log, 0) == log.base
  {
  }

  lemma BasesIncrease(log: Log)
    requires WellFormed(log)
    ensures forall i, j :: 0 <= i < j < |log.segs| ==> BaseOf(log, i) < BaseOf(log, j)
  {
    hide Flat;
    forall i, j | 0 <= i < j < |log.segs|
      ensures BaseOf(log, i) < BaseOf(log, j)
    {
      FlatAt(log.segs, i);
      FlatPrefixMonotone(log.segs, i + 1, j);
    }
  }

  /** The position of the last key that is not above the target, as both reads take it from the binary search. */
  method LastNotAfter(keys: seq<nat>, target: nat) returns (i: Option<nat>)
    requires Sorted(keys) && keys != []
    ensures i.None? <==> target < keys[0]
    ensures i.Some? ==> i.value < |keys| && keys[i.value] <= target
    ensures i.Some? && i.value + 1 < |keys| ==> target < keys[i.value + 1]
    ensures keys[|keys| - 1] <= target ==> i == Some(|keys| - 1)
  {
    var found, idx := BinarySearch(keys, target);
    if found {
      i := Some(idx);
    } else if idx == 0 {
      i := None;
    } else {
      i := Some(idx - 1);
    }
  }

  /** The last segment that does not start above the offset holds it, if the log does. */
  lemma LastNotAbove(log: Log, offset: nat, i: nat)
    requires i < |log.segs| && BaseOf(log, i) <= offset
    requires i + 1 < |log.segs| ==> offset < BaseOf(log, i + 1)
    ensures log.base <= offset < Next(log) ==> i == SegmentAt(log.segs, offset - log.base)
    ensures offset >= Next(log) ==> i == |log.segs| - 1
  {
    hide Flat, SegmentAt;
    FlatAt(log.segs, i);
    if i + 1 < |log.segs| {
      FlatPrefixMonotone(log.segs, i + 1, |log.segs|);
      assert log.segs[..|log.segs|] == log.segs;
    } else {
      assert log.segs[..i + 1] == log.segs;
    }
    if offset < Next(log) {
      SegmentAtUnique(log.segs, offset - log.base, i);
    }
  }

  lemma ReadInSegment(log: Log, offset: nat, i: nat)
    requires i < |log.segs| && BaseOf(log, i) <= offset
    requires log.base <= offset < Next(log) ==> i == SegmentAt(log.segs, offset - log.base)
    requires offset >= Next(log) ==> i == |log.segs| - 1
    ensures log.base <= offset
    ensures LogSpec.Read(log, offset) ==
            if offset < BaseOf(log, i) + |log.segs[i]| then Some(log.segs[i][offset - BaseOf(log, i)]) else None
  {
    hide Flat, SegmentAt;
    if offset < Next(log) {
      SegmentAtIs(log.segs, offset - log.base);
    } else {
      LastBase(log);
    }
  }

  // ---------- fetching across segments ----------

  /** The fetch has not read anything yet. */
  ghost predicate AtFirst(log: Log, offset: nat, i: nat, at: nat)
  {
    && i < |log.segs| && at == offset && BaseOf(log, i) <= offset && log.base <= offset
    && if offset < Next(log) then i == SegmentAt(log.segs, offset - log.base) else i == |log.segs| - 1
  }

  /** What is still to come is the fetch from the start of segment `i`. */
  ghost predicate AtLater(log: Log, offset: nat, maxBytes: nat, i: nat, at: nat, budget: nat, rs: seq<Record>)
  {
    && i <= |log.segs| && maxBytes > 0
    && Fetch(log, offset, maxBytes) == rs + FetchOn(log.segs, i, budget)
    && (i < |log.segs| ==> at == BaseOf(log, i) && rs != [])
  }

  ghost predicate FetchStage(log: Log, offset: nat, maxBytes: nat, i: nat, at: nat, budget: nat, rs: seq<Record>)
  {
    || (rs == [] && budget == maxBytes && AtFirst(log, offset, i, at))
    || AtLater(log, offset, maxBytes, i, at, budget, rs)
  }

  /** A fetch under way, with the cursor of the active file on course for where the fetch leaves it. */
  ghost predicate FetchWalk(log: Log, offset: nat, maxBytes: nat, start: nat,
                            i: nat, at: nat, budget: nat, cursor: nat, rs: seq<Record>)
  {
    && log.segs != [] && FetchStage(log, offset, maxBytes, i, at, budget, rs)
    && (i < |log.segs| ==> BaseOf(log, i) <= at)
    && FetchCursor(log, i, at, budget, cursor) == CursorAfterFetch(log, offset, maxBytes, start)
  }

  /** What a read of segment `i`, which starts at offset `b`, contributes to a fetch. */
  lemma ReadsAt(log: Log, i: nat, at: nat, budget: nat, cursor: nat, b: nat)
    requires i < |log.segs| && b == BaseOf(log, i) <= at
    ensures FromSegment(log, i, at, budget) ==
            if at - b < |log.segs[i]| then FirstRun(log.segs[i][at - b..], budget) else []
    ensures SegmentCursor(log, i, at, budget, cursor) ==
            if i == |log.segs| - 1 && at - b < |log.segs[i]| then
              SizeOf(log.segs[i][..at - b]) + Reach(log.segs[i][at - b..], Capacity(budget))
            else cursor
    ensures Min(budget, Capacity(budget)) == budget && Min(Capacity(budget), Capacity(budget)) == Capacity(budget) > 0
  {
    hide Flat, SizeOf, Reach, FirstRun;
  }

  lemma FetchBelow(log: Log, offset: nat, maxBytes: nat, cursor: nat)
    requires offset < log.base && log.segs != []
    ensures Fetch(log, offset, maxBytes) == [] && CursorAfterFetch(log, offset, maxBytes, cursor) == cursor
  {
  }

  lemma FetchStarts(log: Log, offset: nat, maxBytes: nat, i: nat, cursor: nat)
    requires i < |log.segs| && BaseOf(log, i) <= offset && log.base <= offset
    requires offset < Next(log) ==> i == SegmentAt(log.segs, offset - log.base)
    requires offset >= Next(log) ==> i == |log.segs| - 1
    ensures FetchWalk(log, offset, maxBytes, cursor, i, offset, maxBytes, cursor, [])
  {
    hide Fetch, FetchOn, Flat, SegmentAt, FetchCursor;
  }

  lemma FirstRunCases(rest: seq<Record>, budget: nat)
    requires rest != []
    ensures Len(rest[0]) <= budget ==>
              FirstRun(rest, budget) == Run(rest, budget) != [] && SizeOf(Run(rest, budget)) <= budget
    ensures Len(rest[0]) > budget ==>
              Run(rest, budget) == [] && FirstRun(rest, budget) == [rest[0]] && SizeOf([rest[0]]) > budget
    ensures Run([rest[0]], budget) == [] <==> Len(rest[0]) > budget
  {
    WholeIsLongest(rest, budget);
    EncodeAllOne(rest[0]);
  }

  /** Inside its first segment, a fetch takes the run there and goes on with the next segment. */
  lemma FetchFirst(log: Log, offset: nat, maxBytes: nat)
    requires log.base <= offset < Next(log) && maxBytes > 0
    ensures var i := SegmentAt(log.segs, offset - log.base);
            && BaseOf(log, i) <= offset < BaseOf(log, i) + |log.segs[i]|
            && var records := FromSegment(log, i, offset, maxBytes);
               && records != []
               && (SizeOf(records) <= maxBytes ==>
                     Fetch(log, offset, maxBytes) ==
                     records + FetchOn(log.segs, i + 1, maxBytes - SizeOf(records)))
               && (SizeOf(records) > maxBytes ==>
                     |records| == 1 && Run(records, maxBytes) == [] && Fetch(log, offset, maxBytes) == records)
  {
    hide Flat, SegmentAt, FetchOn, SizeOf, Run, FirstRun;
    var i := SegmentAt(log.segs, offset - log.base);
    SegmentAtIs(log.segs, offset - log.base);
    FirstRunCases(log.segs[i][offset - BaseOf(log, i)..], maxBytes);
  }

  /** At the start of a later segment. */
  lemma FetchLater(log: Log, i: nat, budget: nat)
    requires i < |log.segs|
    ensures var records := FromSegment(log, i, BaseOf(log, i), budget);
            && (SizeOf(records) <= budget ==>
                  FetchOn(log.segs, i, budget) == records + FetchOn(log.segs, i + 1, budget - SizeOf(records)))
            && (SizeOf(records) > budget ==>
                  |records| == 1 && Run(records, budget) == [] && FetchOn(log.segs, i, budget) == [])
  {
    hide Flat, SizeOf, Run, FirstRun;
    SizeOfNone();
    if log.segs[i] != [] {
      assert log.segs[i][0..] == log.segs[i];
      FirstRunCases(log.segs[i], budget);
    }
  }

  lemma FetchStep(
    log: Log, offset: nat, maxBytes: nat, i: nat, at: nat, budget: nat, rs: seq<Record>, records: seq<Record>)
    requires FetchStage(log, offset, maxBytes, i, at, budget, rs)
    requires i < |log.segs| && BaseOf(log, i) <= at && budget > 0 && records == FromSegment(log, i, at, budget)
    ensures SizeOf(records) <= budget ==>
              var at' := if i + 1 < |log.segs| then BaseOf(log, i + 1) else at;
              FetchStage(log, offset, maxBytes, i + 1, at', budget - SizeOf(records), rs + records)
    ensures SizeOf(records) > budget ==>
              && |records| == 1 && Run(records, budget) == []
              && Fetch(log, offset, maxBytes) == if rs == [] then records else rs
  {
    hide AtFirst, AtLater, Fetch, FromSegment, SizeOf, Run, Flat;
    if AtLater(log, offset, maxBytes, i, at, budget, rs) {
      StepLater(log, offset, maxBytes, i, at, budget, rs);
    } else {
      StepFirst(log, offset, maxBytes, i, at);
      assert rs + records == records;
    }
  }

  /** One round of a fetch, on the records and on the cursor. */
  lemma WalkStep(log: Log, offset: nat, maxBytes: nat, start: nat, i: nat, at: nat, budget: nat, cursor: nat,
                 rs: seq<Record>, records: seq<Record>)
    requires FetchWalk(log, offset, maxBytes, start, i, at, budget, cursor, rs)
    requires i < |log.segs| && budget > 0 && BaseOf(log, i) <= at && records == FromSegment(log, i, at, budget)
    ensures SizeOf(records) <= budget ==>
              var at' := if i + 1 < |log.segs| then BaseOf(log, i + 1) else at;
              FetchWalk(log, offset, maxBytes, start, i + 1, at', budget - SizeOf(records),
                        SegmentCursor(log, i, at, budget, cursor), rs + records)
    ensures SizeOf(records) > budget ==>
              && |records| == 1 && Run(records, budget) == []
              && Fetch(log, offset, maxBytes) == (if rs == [] then records else rs)
              && SegmentCursor(log, i, at, budget, cursor) == CursorAfterFetch(log, offset, maxBytes, start)
  {
    hide FetchStage, Fetch, FetchCursor, CursorAfterFetch, SegmentCursor, FromSegment, SizeOf, Run, Flat;
    FetchStep(log, offset, maxBytes, i, at, budget, rs, records);
    FetchCursorStep(log, i, at, budget, cursor);
  }

  lemma StepFirst(log: Log, offset: nat, maxBytes: nat, i: nat, at: nat)
    requires AtFirst(log, offset, i, at) && maxBytes > 0
    ensures var records := FromSegment(log, i, at, maxBytes);
            && (SizeOf(records) <= maxBytes ==>
                  var at' := if i + 1 < |log.segs| then BaseOf(log, i + 1) else at;
                  AtLater(log, offset, maxBytes, i + 1, at', maxBytes - SizeOf(records), records))
            && (SizeOf(records) > maxBytes ==>
                  |records| == 1 && Run(records, maxBytes) == [] && Fetch(log, offset, maxBytes) == records)
  {
    hide Flat, SizeOf, Run, FirstRun, Fetch, FetchOn, SegmentAt;
    if offset < Next(log) {
      FetchFirst(log, offset, maxBytes);
    } else {
      SizeOfNone();
      LastBase(log);
      NothingToFetch(log, offset, maxBytes, maxBytes);
    }
  }

  lemma StepLater(log: Log, offset: nat, maxBytes: nat, i: nat, at: nat, budget: nat, rs: seq<Record>)
    requires AtLater(log, offset, maxBytes, i, at, budget, rs) && i < |log.segs| && BaseOf(log, i) <= at
    ensures var records := FromSegment(log, i, at, budget);
            && (SizeOf(records) <= budget ==>
                  var at' := if i + 1 < |log.segs| then BaseOf(log, i + 1) else at;
                  AtLater(log, offset, maxBytes, i + 1, at', budget - SizeOf(records), rs + records))
            && (SizeOf(records) > budget ==>
                  |records| == 1 && Run(records, budget) == [] && rs != [] && Fetch(log, offset, maxBytes) == rs)
  {
    hide Flat, SizeOf, Run, FirstRun, Fetch, FetchOn, FromSegment;
    var records := FromSegment(log, i, at, budget);
    FetchLater(log, i, budget);
    if SizeOf(records) <= budget {
      var on := FetchOn(log.segs, i + 1, budget - SizeOf(records));
      assert rs + (records + on) == rs + records + on;
    }
  }

  lemma NothingToFetch(log: Log, offset: nat, maxBytes: nat, budget: nat)
    requires offset >= Next(log)
    ensures Fetch(log, offset, maxBytes) == [] == FetchOn(log.segs, |log.segs|, budget)
  {
  }

  lemma {:induction false} NoBudget(segs: seq<seq<Record>>, i: nat)
    ensures FetchOn(segs, i, 0) == []
    decreases |segs| - i
  {
    hide SizeOf;
    if i < |segs| {
      NoBudget(segs, i + 1);
    }
  }

  lemma FetchEnds(log: Log, offset: nat, maxBytes: nat, start: nat,
                  i: nat, at: nat, budget: nat, cursor: nat, rs: seq<Record>)
    requires FetchWalk(log, offset, maxBytes, start, i, at, budget, cursor, rs) && (i >= |log.segs| || budget == 0)
    ensures rs == Fetch(log, offset, maxBytes) && cursor == CursorAfterFetch(log, offset, maxBytes, start)
  {
    hide Flat, SegmentAt, CursorAfterFetch;
    NoBudget(log.segs, i);
  }

  // ---------- where a fetch really starts ----------

  ghost predicate NoGaps(gaps: seq<Span>) { forall i :: 0 <= i < |gaps| ==> gaps[i].None() }

  /** Gaps stay as they are, and new segments have none. */
  ghost predicate GapsKept(before: seq<Span>, after: seq<Span>)
  {
    before <= after && forall i :: |before| <= i < |after| ==> after[i] == NO_GAP
  }

  /** The index of its segment has lost this offset of the log. */
  ghost predicate Gone(log: Log, gaps: seq<Span>, offset: nat)
    requires |gaps| == |log.segs|
  {
    log.base <= offset < Next(log) && gaps[SegmentAt(log.segs, offset - log.base)].Has(offset)
  }

  /** An offset that the index has lost sends a fetch on to the start of the next segment. */
  ghost function RealStart(log: Log, gaps: seq<Span>, offset: nat): nat
    requires |gaps| == |log.segs|
  {
    if Gone(log, gaps, offset) then BaseOf(log, SegmentAt(log.segs, offset - log.base) + 1) else offset
  }

  /** The commands as a partition with a lagging index understands them. */
  ghost function Redirect(log: Log, gaps: seq<Span>, cmd: Command): Command
    requires |gaps| == |log.segs|
  {
    match cmd
    case FetchFrom(o, m) => FetchFrom(RealStart(log, gaps, o), m)
    case _ => cmd
  }

  /** With complete indexes nothing is redirected. */
  lemma NothingRedirected(log: Log, gaps: seq<Span>, cmd: Command)
    requires |gaps| == |log.segs| && NoGaps(gaps)
    ensures Redirect(log, gaps, cmd) == cmd
  {
  }

  /** A fetch that found nothing in segment `i` begins anew at the next one. */
  lemma SkipsTo(log: Log, i: nat, at: nat, maxBytes: nat, cursor: nat)
    requires WellFormed(log) && i < |log.segs| && maxBytes > 0
    ensures var at' := if i + 1 < |log.segs| then BaseOf(log, i + 1) else at;
            FetchWalk(log, BaseOf(log, i + 1), maxBytes, cursor, i + 1, at', maxBytes, cursor, [])
  {
    hide Flat, Fetch, FetchCursor, SegmentAt;
    NonEmpty(log);
    FlatPrefixMonotone(log.segs, 0, i + 1);
    if i + 1 < |log.segs| {
      StartsSegment(log, i + 1);
      FetchStarts(log, BaseOf(log, i + 1), maxBytes, i + 1, cursor);
    } else {
      assert log.segs[..i + 1] == log.segs;
      PastTheEnd(log, at, maxBytes, cursor);
    }
  }

  /** A fetch at the base of a segment starts in that segment. */
  lemma StartsSegment(log: Log, i: nat)
    requires WellFormed(log) && i < |log.segs|
    ensures log.base <= BaseOf(log, i)
    ensures BaseOf(log, i) < Next(log) ==> i == SegmentAt(log.segs, BaseOf(log, i) - log.base)
    ensures BaseOf(log, i) >= Next(log) ==> i == |log.segs| - 1
  {
    hide SegmentAt;
    if i + 1 < |log.segs| {
      BasesIncrease(log);
    }
    LastNotAbove(log, BaseOf(log, i), i);
  }

  lemma PastTheEnd(log: Log, at: nat, maxBytes: nat, cursor: nat)
    requires log.segs != [] && maxBytes > 0
    ensures FetchWalk(log, Next(log), maxBytes, cursor, |log.segs|, at, maxBytes, cursor, [])
  {
    hide Flat;
    NothingToFetch(log, Next(log), maxBytes, maxBytes);
    LastBase(log);
  }

  /**
   * The inner loop of `read_batch`: takes records while they fit; the first that does not fit ends
   * the fetch, and is still returned if there is nothing else.
   */
  method Take(records: seq<Record>, budget: nat, results: seq<Record>)
    returns (rs: seq<Record>, left: nat, stopped: bool)
    ensures stopped <==> SizeOf(records) > budget
    ensures !stopped ==> rs == results + records && left == budget - SizeOf(records)
    ensures stopped ==>
              var taken := results + Run(records, budget);
              records != [] && rs == if taken == [] then [records[0]] else taken
  {
    hide SizeOf, Len, Whole;
    rs, left := results, budget;
    SizeOfNone();
    assert records[..0] == [];
    for k := 0 to |records|
      invariant rs == results + records[..k]
      invariant SizeOf(records[..k]) <= budget && left == budget - SizeOf(records[..k])
    {
      SizeStep(records, k);
      var n := Len(records[k]);
      if left >= n {
        left := left - n;
        rs := rs + [records[k]];
      } else {
        ChunkIsEnough(records, k + 1);
        WholeUnique(records, budget, k);
        if rs == [] {
          rs := [records[k]];
        }
        return rs, left, true;
      }
    }
    assert records[..|records|] == records;
    stopped := false;
  }

  // ---------- writes behind a moved cursor ----------

  /** The segment that is damaged after a batch on `start`, whose active file was `f`, if `b` was before. */
  ghost function Hit(start: Log, f: Tail, b: int, batch: seq<Payload>): int
    requires start.segs != []
  {
    if b == -1 && !AtEnd(start, f) && BatchWrites(start, batch) then |start.segs| - 1 else b
  }

  /** What was written to the active file began behind the end of its records and did not pass that end. */
  ghost predicate Inside(before: Log, after: Log, f: Tail, b: int, appendable: bool)
    requires 0 < |before.segs| <= |after.segs|
  {
    b == -1 && !appendable && f.cursor + SizeOf(after.segs[|before.segs| - 1]) <= 2 * SizeOf(Last(before))
  }

  ghost predicate InsideLast(log: Log, f: Tail, b: int, rs: seq<Record>)
    requires log.segs != []
  {
    b < |log.segs| - 1 && !f.append && f.cursor + SizeOf(rs) <= SizeOf(Last(log))
  }

  /** The records that a batch puts into what is the active segment at first go inside its file. */
  ghost predicate Loses(start: Log, after: Log, f: Tail, b: int, batch: seq<Payload>)
    requires 0 < |start.segs| <= |after.segs|
  {
    && b == -1 && !AtEnd(start, f) && BatchWrites(start, batch)
    && f.cursor + SizeOf(after.segs[|start.segs| - 1]) <= 2 * SizeOf(Last(start))
  }

  lemma EndsAt(log: Log)
    ensures BaseOf(log, |log.segs|) == Next(log)
  {
    assert log.segs[..|log.segs|] == log.segs;
  }

  lemma RotatedInside(before: Log, log: Log, f: Tail, b: int, appendable: bool)
    requires 0 < |before.segs| == |log.segs|
    ensures |Rotate(log).segs| == |log.segs| + 1
    ensures Inside(before, Rotate(log), f, b, appendable) == Inside(before, log, f, b, appendable)
    ensures BaseOf(Rotate(log), |before.segs|) == Next(log)
    ensures Rotate(log).segs[..|log.segs| - 1] == log.segs[..|log.segs| - 1]
  {
    hide SizeOf;
    assert Rotate(log).segs[..|log.segs|] == log.segs;
  }

  /** Later rounds leave the first segment of the batch as it is. */
  lemma StillLost(start: Log, before: Log, after: Log, f: Tail, b: int, batch: seq<Payload>)
    requires 0 < |start.segs| < |before.segs| <= |after.segs| && before.base == after.base
    requires after.segs[..|before.segs| - 1] == before.segs[..|before.segs| - 1]
    ensures Loses(start, after, f, b, batch) == Loses(start, before, f, b, batch)
    ensures BaseOf(after, |start.segs|) == BaseOf(before, |start.segs|)
  {
    hide SizeOf, AtEnd, BatchWrites;
    var n := |start.segs|;
    assert after.segs[n - 1] == before.segs[..|before.segs| - 1][n - 1] == before.segs[n - 1];
    assert after.segs[..n] == after.segs[..|before.segs| - 1][..n] == before.segs[..n];
  }

  lemma NowLost(start: Log, after: Log, f: Tail, b: int, batch: seq<Payload>, appendable: bool)
    requires 0 < |start.segs| <= |after.segs| && (b == -1 ==> (appendable <==> AtEnd(start, f)))
    ensures Loses(start, after, f, b, batch) ==> Inside(start, after, f, b, appendable) && BatchWrites(start, batch)
  {
    hide SizeOf, AtEnd, BatchWrites;
  }

  lemma InsideMeans(log: Log, rs: seq<Record>, f: Tail, b: int, appendable: bool)
    requires log.segs != [] && (f.append ==> appendable)
    ensures |Extend(log, rs).segs| == |log.segs|
    ensures Inside(log, Extend(log, rs), f, b, appendable) ==> InsideLast(log, f, b, rs) && !appendable && b == -1
  {
    hide SizeOf, EncodeAll;
    EncodeAllConcat(Last(log), rs);
  }

  lemma OneNumbered(r: Record)
    ensures Numbered(r.offset, [r])
  {
  }

  lemma OneSized(r: Record, p: Payload)
    requires r.key == p.key && r.value == p.value
    ensures SizeOf([r]) == PayloadLen(p)
  {
    EncodeAllOne(r);
  }

  lemma NearEnd(log: Log, f: Tail, b: int, p: Payload, r: Record)
    requires log.segs != [] && r.key == p.key && r.value == p.value
    ensures b < |log.segs| - 1 && !f.append && f.cursor + PayloadLen(p) <= SizeOf(Last(log)) ==>
              InsideLast(log, f, b, [r])
  {
    hide SizeOf;
    OneSized(r, p);
  }

  lemma LengthsFitAll(ps: seq<Payload>, max: nat)
    requires LengthsFit(ps, max)
    ensures forall i :: 0 <= i < |ps| && PayloadLen(ps[i]) <= max ==> PayloadLen(ps[i]) < U32_LIMIT
  {
  }

  // ---------- segments and their bases ----------

  lemma RotateBases(log: Log)
    ensures |Rotate(log).segs| == |log.segs| + 1 && Rotate(log).max == log.max && Rotate(log).segs[|log.segs|] == []
    ensures forall i :: 0 <= i <= |log.segs| ==> BaseOf(log, i) == BaseOf(Rotate(log), i)
    ensures forall i :: 0 <= i < |log.segs| ==> log.segs[i] == Rotate(log).segs[i]
  {
    hide Flat;
    forall i | 0 <= i <= |log.segs|
      ensures BaseOf(log, i) == BaseOf(Rotate(log), i)
    {
      BasesKept(log, Rotate(log), i);
    }
  }

  lemma ExtendBases(log: Log, rs: seq<Record>)
    requires log.segs != []
    ensures |Extend(log, rs).segs| == |log.segs|
    ensures forall i :: 0 <= i < |log.segs| ==> BaseOf(log, i) == BaseOf(Extend(log, rs), i)
    ensures forall i :: 0 <= i < |log.segs| - 1 ==> log.segs[i] == Extend(log, rs).segs[i]
  {
    hide Flat;
    forall i | 0 <= i < |log.segs|
      ensures BaseOf(log, i) == BaseOf(Extend(log, rs), i)
    {
      BasesKept(log, Extend(log, rs), i);
    }
  }

  lemma BasesInOrder(log: Log, i: nat, j: nat)
    requires i <= j <= |log.segs|
    ensures BaseOf(log, i) <= BaseOf(log, j)
  {
    hide Flat;
    FlatPrefixMonotone(log.segs, i, j);
  }

  /** An offset between the bases of segment `b` and the next is found in segment `b`. */
  lemma InOneSegment(log: Log, offset: nat, b: nat, i: nat)
    requires b < |log.segs| && BaseOf(log, b) <= offset < BaseOf(log, b + 1)
    requires offset < Next(log) ==> log.base <= offset && i == SegmentAt(log.segs, offset - log.base)
    ensures i == b
  {
    hide Flat, SegmentAt;
    FlatAt(log.segs, b);
    BasesInOrder(log, b + 1, |log.segs|);
    EndsAt(log);
    SegmentAtUnique(log.segs, offset - log.base, b);
  }

  lemma NoBudgetAtAll(log: Log, offset: nat, maxBytes: nat, cursor: nat)
    requires maxBytes == 0 && log.segs != []
    ensures Fetch(log, offset, maxBytes) == [] && CursorAfterFetch(log, offset, maxBytes, cursor) == cursor
  {
    hide Flat, SegmentAt;
  }
}
