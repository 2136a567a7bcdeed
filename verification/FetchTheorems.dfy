/** What a fetch across segments returns, exactly (src/storage/partition.rs:175-230). */
module FetchTheorems {
  import opened Bytes
  import opened Records
  import opened LogSpec
  import opened AppendTheorems

  /** Position `p` of the flat log is not the first of its segment. */
  predicate Interior(log: Log, p: nat)
    requires p < |All(log)|
  {
    p > |Flat(log.segs[..SegmentAt(log.segs, p)])|
  }

  /** The position just after the segment that holds `p`. */
  function SegmentEnd(log: Log, p: nat): (q: nat)
    requires p < |All(log)|
    ensures p < q <= |All(log)|
  {
    var s := SegmentAt(log.segs, p);
    SegmentAtIs(log.segs, p);
    FlatAt(log.segs, s);
    |Flat(log.segs[..s + 1])|
  }

  /**
   * A fetch, one record at a time: a record that fits is taken; one that does not fit ends the
   * fetch at the start of a segment, and inside a segment sends it to the start of the next.
   */
  function Walk(log: Log, p: nat, budget: nat): seq<Record>
    decreases |All(log)| - p
  {
    if p >= |All(log)| then []
    else
      var r := All(log)[p];
      if Len(r) <= budget then [r] + Walk(log, p + 1, budget - Len(r))
      else if Interior(log, p) then Walk(log, SegmentEnd(log, p), budget)
      else []
  }

  // ---------- the segment-at-a-time fetch is the record-at-a-time walk ----------

  lemma PlaceInSegment(log: Log, s: nat, k: nat)
    requires s < |log.segs| && k < |log.segs[s]|
    ensures var p := |Flat(log.segs[..s])| + k;
            && p < |All(log)| && All(log)[p] == log.segs[s][k]
            && (Interior(log, p) <==> k > 0)
            && SegmentEnd(log, p) == |Flat(log.segs[..s + 1])|
            && SegmentEnd(log, p) == |Flat(log.segs[..s])| + |log.segs[s]|
  {
    hide Flat, SegmentAt;
    FlatAt(log.segs, s);
    SegmentAtUnique(log.segs, |Flat(log.segs[..s])| + k, s);
    SegmentAtIs(log.segs, |Flat(log.segs[..s])| + k);
  }

  lemma RunStep(rs: seq<Record>, budget: nat)
    requires rs != []
    ensures Len(rs[0]) > budget ==> Run(rs, budget) == []
    ensures Len(rs[0]) <= budget ==>
              var tail := Run(rs[1..], budget - Len(rs[0]));
              Run(rs, budget) == [rs[0]] + tail && SizeOf(Run(rs, budget)) == Len(rs[0]) + SizeOf(tail)
  {
    if Len(rs[0]) <= budget {
      var tail := Run(rs[1..], budget - Len(rs[0]));
      assert Run(rs, budget) == [rs[0]] + tail;
      EncodeAllConcat([rs[0]], tail);
      EncodeAllOne(rs[0]);
    }
  }

  /** Walking through the rest of segment `s`, then on to the next unless nothing of `s` was taken. */
  lemma {:induction false} WalkSegment(log: Log, s: nat, k: nat, budget: nat)
    requires s < |log.segs| && k <= |log.segs[s]|
    ensures var run := Run(log.segs[s][k..], budget);
            && SizeOf(run) <= budget
            && Walk(log, |Flat(log.segs[..s])| + k, budget) ==
               run + if k == 0 && run == [] && log.segs[s] != [] then []
                     else Walk(log, |Flat(log.segs[..s + 1])|, budget - SizeOf(run))
    decreases |log.segs[s]| - k
  {
    hide Flat, SizeOf, Interior, SegmentEnd, Walk, Run, Len;
    var rest := log.segs[s][k..];
    var p := |Flat(log.segs[..s])| + k;
    SizeOfNone();
    if rest == [] {
      FlatAt(log.segs, s);
      RunOfNone(budget);
    } else {
      PlaceInSegment(log, s, k);
      RunStep(rest, budget);
      if Len(rest[0]) <= budget {
        assert rest[1..] == log.segs[s][k + 1..];
        WalkSegment(log, s, k + 1, budget - Len(rest[0]));
        WalkOne(log, p, budget);
      } else {
        WalkPast(log, p, budget);
      }
    }
  }

  lemma WalkOne(log: Log, p: nat, budget: nat)
    requires p < |All(log)| && Len(All(log)[p]) <= budget
    ensures Walk(log, p, budget) == [All(log)[p]] + Walk(log, p + 1, budget - Len(All(log)[p]))
  {
  }

  lemma WalkPast(log: Log, p: nat, budget: nat)
    requires p < |All(log)| && Len(All(log)[p]) > budget
    ensures Walk(log, p, budget) == if Interior(log, p) then Walk(log, SegmentEnd(log, p), budget) else []
  {
  }

  lemma RunBounded(rs: seq<Record>, budget: nat)
    ensures SizeOf(Run(rs, budget)) <= budget
  {
    WholeIsLongest(rs, budget);
  }

  lemma {:induction false} FetchOnIsWalk(log: Log, i: nat, budget: nat)
    requires i <= |log.segs|
    ensures FetchOn(log.segs, i, budget) == Walk(log, |Flat(log.segs[..i])|, budget)
    decreases |log.segs| - i
  {
    hide Flat, Walk, Run;
    if i == |log.segs| {
      assert log.segs[..i] == log.segs;
      WalkEnd(log, budget);
    } else {
      var run := Run(log.segs[i], budget);
      assert log.segs[i][0..] == log.segs[i];
      WalkSegment(log, i, 0, budget);
      RunBounded(log.segs[i], budget);
      FetchOnIsWalk(log, i + 1, budget - SizeOf(run));
      if log.segs[i] == [] {
        RunOfNone(budget);
      }
    }
  }

  lemma RunOfNone(budget: nat)
    ensures Run([], budget) == [] && SizeOf(Run([], budget)) == 0
  {
  }

  lemma WalkEnd(log: Log, budget: nat)
    ensures Walk(log, |All(log)|, budget) == []
  {
  }

  /** A fetch inside the log is the walk from its offset, except that an oversized first record is still returned. */
  lemma FetchIsWalk(log: Log, offset: nat, maxBytes: nat)
    requires log.base <= offset < Next(log) && maxBytes > 0
    ensures var p := offset - log.base;
            Fetch(log, offset, maxBytes) ==
            if Len(All(log)[p]) > maxBytes then [All(log)[p]] else Walk(log, p, maxBytes)
  {
    hide Flat, SegmentAt, FetchOn, Walk, Whole;
    var p := offset - log.base;
    var s := SegmentAt(log.segs, p);
    SegmentAtIs(log.segs, p);
    var k := p - |Flat(log.segs[..s])|;
    var rest := log.segs[s][k..];
    assert rest[0] == All(log)[p];
    if Len(rest[0]) <= maxBytes {
      RunStep(rest, maxBytes);
      WalkSegment(log, s, k, maxBytes);
      FetchOnIsWalk(log, s + 1, maxBytes - SizeOf(Run(rest, maxBytes)));
    }
  }

  // ---------- what the walk returns ----------

  /** `r` is the record of the log at its own offset, not before position `p`. */
  ghost predicate Genuine(log: Log, p: nat, r: Record)
  {
    log.base + p <= r.offset < Next(log) && All(log)[r.offset - log.base] == r
  }

  /** A record inside a segment did not fit and the rest of that segment was passed over. */
  ghost predicate Skipped(log: Log, p: nat, q: nat, left: int)
  {
    p < |All(log)| && Interior(log, p) && Len(All(log)[p]) > left && q == SegmentEnd(log, p)
  }

  /** After `j + 1` results the next one follows directly, or after a skip to the next segment. */
  ghost predicate Follows(log: Log, rs: seq<Record>, budget: nat, j: nat)
    requires j + 1 < |rs|
  {
    var p := rs[j].offset + 1 - log.base;
    && rs[j].offset < rs[j + 1].offset
    && p >= 0
    && (rs[j + 1].offset == rs[j].offset + 1
        || Skipped(log, p, rs[j + 1].offset - log.base, budget - SizeOf(rs[..j + 1])))
  }

  /** The first thing a walk returns. */
  lemma WalkHead(log: Log, p: nat, budget: nat)
    requires WellFormed(log)
    ensures var rs := Walk(log, p, budget);
            && (rs != [] ==> Genuine(log, p, rs[0]))
            && (rs != [] ==> rs[0].offset == log.base + p || Skipped(log, p, rs[0].offset - log.base, budget))
            && (rs == [] ==> p >= |All(log)| || Len(All(log)[p]) > budget)
  {
    hide Flat, Interior, SegmentEnd;
    if p < |All(log)| && Len(All(log)[p]) > budget && Interior(log, p) {
      EndIsBoundary(log, p);
    }
  }

  lemma EndIsBoundary(log: Log, p: nat)
    requires p < |All(log)|
    ensures var q := SegmentEnd(log, p); q < |All(log)| ==> !Interior(log, q)
  {
    hide Flat, SegmentAt;
    var s, q := SegmentAt(log.segs, p), SegmentEnd(log, p);
    SegmentAtIs(log.segs, p);
    FlatAt(log.segs, s);
    if q < |All(log)| {
      var t := SegmentAt(log.segs, q);
      SegmentAtIs(log.segs, q);
      if t <= s {
        FlatPrefixMonotone(log.segs, t + 1, s + 1);
        FlatAt(log.segs, t);
      } else {
        FlatPrefixMonotone(log.segs, s + 1, t);
      }
    }
  }

  lemma SizePrepend(r: Record, rs: seq<Record>, j: nat)
    requires j <= |rs|
    ensures SizeOf(([r] + rs)[..j + 1]) == Len(r) + SizeOf(rs[..j])
  {
    assert ([r] + rs)[..j + 1] == [r] + rs[..j];
    EncodeAllConcat([r], rs[..j]);
    EncodeAllOne(r);
  }

  lemma FollowsPrepend(log: Log, r: Record, rs: seq<Record>, budget: nat, j: nat)
    requires Len(r) <= budget && j + 1 < |rs| && Follows(log, rs, budget - Len(r), j)
    ensures Follows(log, [r] + rs, budget, j + 1)
  {
    hide Skipped, SizeOf;
    SizePrepend(r, rs, j + 1);
  }

  /** Results are true records in ascending order within the budget; every gap is a skip to the next segment. */
  lemma {:induction false} WalkMeaning(log: Log, p: nat, budget: nat)
    requires WellFormed(log)
    ensures var rs := Walk(log, p, budget);
            && SizeOf(rs) <= budget
            && (forall r :: r in rs ==> Genuine(log, p, r))
            && (forall j :: 0 <= j < |rs| - 1 ==> Follows(log, rs, budget, j))
            && (rs != [] ==> var q := rs[|rs| - 1].offset + 1 - log.base;
                             q >= 0 && (q >= |All(log)| || Len(All(log)[q]) > budget - SizeOf(rs)))
    decreases |All(log)| - p
  {
    hide Flat, Follows, Interior, SegmentEnd, SizeOf;
    SizeOfNone();
    if p < |All(log)| {
      var r := All(log)[p];
      if Len(r) <= budget {
        var tail := Walk(log, p + 1, budget - Len(r));
        WalkMeaning(log, p + 1, budget - Len(r));
        SizePrepend(r, tail, |tail|);
        assert ([r] + tail)[..|tail| + 1] == [r] + tail && tail[..|tail|] == tail;
        forall j | 0 <= j < |tail|
          ensures Follows(log, [r] + tail, budget, j)
        {
          if j == 0 {
            FollowsFirst(log, p, budget);
          } else {
            FollowsPrepend(log, r, tail, budget, j - 1);
          }
        }
        WalkHead(log, p + 1, budget - Len(r));
      } else if Interior(log, p) {
        WalkMeaning(log, SegmentEnd(log, p), budget);
      }
    }
  }

  lemma FollowsFirst(log: Log, p: nat, budget: nat)
    requires WellFormed(log) && p < |All(log)| && Len(All(log)[p]) <= budget
    requires Walk(log, p + 1, budget - Len(All(log)[p])) != []
    ensures var r := All(log)[p];
            Follows(log, [r] + Walk(log, p + 1, budget - Len(r)), budget, 0)
  {
    hide Flat, Interior, SegmentEnd, Walk, SizeOf;
    var r := All(log)[p];
    WalkHead(log, p + 1, budget - Len(r));
    SizePrepend(r, Walk(log, p + 1, budget - Len(r)), 0);
    assert Walk(log, p + 1, budget - Len(r))[..0] == [];
    SizeOfNone();
  }

  /**
   * The exact meaning of a fetch inside the log: it starts with the record at the offset, holds true
   * log records in strictly ascending order, stays within the budget unless it is a single record,
   * and ends only at the end of the log or before a record that no longer fits. Two neighbours are
   * consecutive unless the record in between lies inside a segment and exceeded what was left, in
   * which case the fetch went on at the start of the next segment.
   */
  lemma FetchMeaning(log: Log, offset: nat, maxBytes: nat)
    requires WellFormed(log) && log.base <= offset < Next(log) && maxBytes > 0
    ensures var rs := Fetch(log, offset, maxBytes);
            && rs != [] && rs[0] == All(log)[offset - log.base]
            && (forall r :: r in rs ==> Genuine(log, offset - log.base, r))
            && (SizeOf(rs) <= maxBytes || |rs| == 1)
            && (forall j :: 0 <= j < |rs| - 1 ==> Follows(log, rs, maxBytes, j))
            && var q := rs[|rs| - 1].offset + 1 - log.base;
               q >= 0 && (q >= |All(log)| || Len(All(log)[q]) > maxBytes - SizeOf(rs))
  {
    hide Flat, Fetch, Follows, Interior, SegmentEnd;
    FetchIsWalk(log, offset, maxBytes);
    WalkMeaning(log, offset - log.base, maxBytes);
    EncodeAllOne(All(log)[offset - log.base]);
  }

  /** Outside the log, or without a budget, there is nothing to fetch. */
  lemma FetchOutside(log: Log, offset: nat, maxBytes: nat)
    ensures Fetch(log, offset, maxBytes) == [] <==> maxBytes == 0 || !(log.base <= offset < Next(log))
  {
    hide Flat, SegmentAt, FetchOn;
    if maxBytes > 0 && log.base <= offset < Next(log) {
      SegmentAtIs(log.segs, offset - log.base);
    }
  }

  // ---------- when a fetch has no gap ----------

  /** The longest run from position `p` within the budget, but at least one record. */
  function Contiguous(log: Log, p: nat, budget: nat): seq<Record>
    requires p < |All(log)|
  {
    var k := Whole(All(log)[p..], budget);
    All(log)[p..p + if k == 0 then 1 else k]
  }

  /** The first record that does not fit lies inside a segment, and the first of the next segment fits. */
  predicate JumpsOver(log: Log, p: nat, budget: nat)
    requires p < |All(log)|
  {
    var k := Whole(All(log)[p..], budget);
    WholeIsLongest(All(log)[p..], budget);
    var left := budget - SizeOf(All(log)[p..][..k]);
    k > 0 && p + k < |All(log)| && Interior(log, p + k) &&
    var q := SegmentEnd(log, p + k);
    q < |All(log)| && Len(All(log)[q]) <= left
  }

  lemma WholeStep(rs: seq<Record>, budget: nat)
    requires rs != [] && Len(rs[0]) <= budget
    ensures var k := Whole(rs[1..], budget - Len(rs[0]));
            Whole(rs, budget) == k + 1 && SizeOf(rs[..k + 1]) == Len(rs[0]) + SizeOf(rs[1..][..k])
  {
    var k := Whole(rs[1..], budget - Len(rs[0]));
    assert rs[..k + 1] == [rs[0]] + rs[1..][..k];
    SizePrepend(rs[0], rs[1..], k);
    assert [rs[0]] + rs[1..] == rs;
  }

  /** The walk is the longest run, followed by whatever comes after the record that did not fit. */
  lemma {:induction false} WalkSplits(log: Log, p: nat, budget: nat)
    requires p <= |All(log)|
    ensures var k := Whole(All(log)[p..], budget);
            && SizeOf(All(log)[p..][..k]) <= budget
            && (p + k < |All(log)| ==> Len(All(log)[p + k]) > budget - SizeOf(All(log)[p..][..k]))
            && Walk(log, p, budget) ==
               All(log)[p..p + k] + Walk(log, p + k, budget - SizeOf(All(log)[p..][..k]))
    decreases |All(log)| - p
  {
    hide Flat, Walk, Whole, SizeOf;
    var all := All(log);
    SizeOfNone();
    WholeIsLongest(all[p..], budget);
    if p < |all| && Len(all[p]) <= budget {
      var left := budget - Len(all[p]);
      var k := Whole(all[p + 1..], left);
      assert all[p..][1..] == all[p + 1..];
      WholeStep(all[p..], budget);
      WalkSplits(log, p + 1, left);
      WalkOne(log, p, budget);
      assert all[p..p + 1 + k] == [all[p]] + all[p + 1..p + 1 + k];
    } else if p < |all| {
      WholeNone(all[p..], budget);
    }
  }

  lemma WholeNone(rs: seq<Record>, budget: nat)
    requires rs != [] && Len(rs[0]) > budget
    ensures Whole(rs, budget) == 0
  {
  }

  lemma WalkBlocked(log: Log, q: nat, left: nat)
    requires q < |All(log)| ==> Len(All(log)[q]) > left
    ensures Walk(log, q, left) != [] <==>
            && q < |All(log)| && Interior(log, q)
            && SegmentEnd(log, q) < |All(log)| && Len(All(log)[SegmentEnd(log, q)]) <= left
  {
    hide Flat, Interior, SegmentEnd;
    if q < |All(log)| && Interior(log, q) {
      EndIsBoundary(log, q);
    }
  }

  /**
   * A fetch returns the longest contiguous run that fits if and only if the first record that does
   * not fit is not inside a segment whose successor starts with a record that still fits.
   */
  lemma FetchContiguousIff(log: Log, offset: nat, maxBytes: nat)
    requires log.base <= offset < Next(log) && maxBytes > 0
    ensures var p := offset - log.base;
            Fetch(log, offset, maxBytes) == Contiguous(log, p, maxBytes) <==> !JumpsOver(log, p, maxBytes)
  {
    hide Flat, Fetch, Interior, SegmentEnd, Walk, SizeOf;
    var p := offset - log.base;
    var k := Whole(All(log)[p..], maxBytes);
    FetchIsWalk(log, offset, maxBytes);
    if k > 0 {
      WalkSplits(log, p, maxBytes);
      var left := maxBytes - SizeOf(All(log)[p..][..k]);
      WalkBlocked(log, p + k, left);
    }
  }

  /** When all records have the same encoded size, a fetch never skips one. */
  lemma EqualSizesNeverSkip(log: Log, offset: nat, maxBytes: nat, size: nat)
    requires log.base <= offset < Next(log) && maxBytes > 0
    requires forall r :: r in All(log) ==> Len(r) == size
    ensures Fetch(log, offset, maxBytes) == Contiguous(log, offset - log.base, maxBytes)
  {
    hide Flat, Fetch, Interior, SegmentEnd, Whole, SizeOf;
    FetchContiguousIff(log, offset, maxBytes);
    WalkSplits(log, offset - log.base, maxBytes);
  }

  function Small(offset: nat): Record { Record(offset, 0, None, Some([])) }
  function Large(offset: nat): Record { Record(offset, 0, None, Some(seq(100, i => 0))) }

  /** Two segments: a small record and a large one, then a small one. */
  function GapLog(): Log { Log(0, 160, [[Small(0), Large(1)], [Small(2)]]) }

  /** Three produces of an empty, a long and an empty message. */
  function GapJobs(): seq<Job>
  {
    var clock := (i: nat) => 0;
    [Job(Produce(ValueOnly([])), clock), Job(Produce(ValueOnly(seq(100, i => 0))), clock),
     Job(Produce(ValueOnly([])), clock)]
  }

  lemma SizeOfSmallAndLarge()
    ensures SizeOf([Small(0)]) == 28 && SizeOf([Small(0), Large(1)]) == 156
  {
    hide SizeOf;
    EncodeAllOne(Small(0));
    SizeSnoc([Small(0)], Large(1));
    assert [Small(0)] + [Large(1)] == [Small(0), Large(1)];
  }

  /** A produce that fits extends the last segment, and one that does not starts a new one. */
  lemma Produced(log: Log, p: Payload, clock: nat -> nat, r: Record)
    requires log.segs != [] && PayloadLen(p) <= log.max
    requires r == RecordOf(p, Next(log), clock(if FitsLast(log, PayloadLen(p)) then |log.segs| - 1 else |log.segs|))
    ensures Exec(log, Produce(p), clock).0 ==
            log.(segs := if FitsLast(log, PayloadLen(p)) then log.segs[..|log.segs| - 1] + [Last(log) + [r]]
                         else log.segs + [[r]])
  {
    hide SizeOf, Flat;
    if !FitsLast(log, PayloadLen(p)) {
      assert Rotate(log).segs[..|log.segs|] == log.segs && [] + [r] == [r];
    }
  }

  lemma FirstProduced()
    ensures RunJobs(Fresh(160), GapJobs()[..1]) == Log(0, 160, [[Small(0)]])
  {
    hide SizeOf, Exec;
    var jobs := GapJobs();
    assert jobs[..1][..0] == [];
    FreshLog(160);
    Produced(Fresh(160), jobs[0].cmd.payload, jobs[0].clock, Small(0));
    assert [] + [Small(0)] == [Small(0)] && [[]][..0] + [[Small(0)]] == [[Small(0)]];
  }

  lemma SecondProduced()
    ensures RunJobs(Fresh(160), GapJobs()[..2]) == Log(0, 160, [[Small(0), Large(1)]])
  {
    hide SizeOf, Exec, RunJobs, Flat;
    var jobs, log := GapJobs(), Log(0, 160, [[Small(0)]]);
    FirstProduced();
    AppendTheorems.RunStep(Fresh(160), jobs, 1);
    FlatSnoc([], [Small(0)]);
    assert [] + [[Small(0)]] == log.segs;
    FlatOfNone();
    SizeOfSmallAndLarge();
    Produced(log, jobs[1].cmd.payload, jobs[1].clock, Large(1));
    assert [Small(0)] + [Large(1)] == [Small(0), Large(1)];
    assert log.segs[..0] + [[Small(0), Large(1)]] == [[Small(0), Large(1)]];
  }

  /** Three produces on a new partition with a limit of 160 bytes leave this log. */
  lemma GapLogIsProduced()
    ensures RunJobs(Fresh(160), GapJobs()) == GapLog()
  {
    hide SizeOf, Exec, RunJobs, Flat;
    var jobs, log := GapJobs(), Log(0, 160, [[Small(0), Large(1)]]);
    SecondProduced();
    AppendTheorems.RunStep(Fresh(160), jobs, 2);
    assert jobs[..3] == jobs;
    FlatSnoc([], [Small(0), Large(1)]);
    assert [] + [[Small(0), Large(1)]] == log.segs;
    FlatOfNone();
    SizeOfSmallAndLarge();
    Produced(log, jobs[2].cmd.payload, jobs[2].clock, Small(2));
  }

  lemma GapLogIsFine()
    ensures WellFormed(GapLog()) && Bounded(GapLog())
    ensures All(GapLog()) == [Small(0), Large(1), Small(2)]
    ensures Flat(GapLog().segs[..0]) == []
  {
    hide Flat, SizeOf;
    FlatOfTwo([Small(0), Large(1)], [Small(2)]);
    SizeOfSmallAndLarge();
    EncodeAllOne(Small(2));
  }

  lemma FlatOfTwo(a: seq<Record>, b: seq<Record>)
    ensures Flat([a, b]) == a + b && Flat([a, b][..0]) == []
  {
    FlatSnoc([], a);
    FlatSnoc([a], b);
    assert [a] + [b] == [a, b] && [] + [a] == [a];
  }

  /** After three produces, a fetch of 60 bytes returns records 0 and 2 and silently skips record 1. */
  lemma GapWitness()
    ensures RunJobs(Fresh(160), GapJobs()) == GapLog()
    ensures WellFormed(GapLog()) && Bounded(GapLog())
    ensures All(GapLog()) == [Small(0), Large(1), Small(2)]
    ensures Fetch(GapLog(), 0, 60) == [Small(0), Small(2)]
  {
    hide SegmentAt, Flat, Walk, Fetch, Interior, SegmentEnd, WellFormed, Bounded, RunJobs, GapJobs;
    var log := GapLog();
    GapLogIsProduced();
    GapLogIsFine();
    FetchIsWalk(log, 0, 60);
    WalkOne(log, 0, 60);
    PlaceInSegment(log, 0, 1);
    WalkPast(log, 1, 32);
    WalkOne(log, 2, 32);
    WalkEnd(log, 4);
  }
}
