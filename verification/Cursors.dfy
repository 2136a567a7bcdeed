/**
 * Where reads leave the cursor of the active log file, and when a later write is misplaced by it.
 * A file created by the broker is in append mode; one that was loaded is not (src/storage/segment.rs:136-167).
 */
module Cursors {
  import opened Bytes
  import opened Records
  import opened LogSpec
  import opened AppendTheorems

  const READ_CHUNK: nat := 4096
  const MIN_BATCH_READ: nat := 1024 * 1024

  /** The size of the buffer that a batch read asks for. */
  function Capacity(maxBytes: nat): nat { if maxBytes < MIN_BATCH_READ then MIN_BATCH_READ else maxBytes }

  /** The longest run within the budget, or else just the first record. */
  function FirstRun(rs: seq<Record>, budget: nat): seq<Record>
    requires rs != []
  {
    var k := Whole(rs, budget);
    rs[..if k == 0 then 1 else k]
  }

  /** What segment `i` contributes to a fetch that stands at offset `at`. */
  function FromSegment(log: Log, i: nat, at: nat, budget: nat): seq<Record>
    requires i < |log.segs| && BaseOf(log, i) <= at
  {
    var k := at - BaseOf(log, i);
    if k < |log.segs[i]| then FirstRun(log.segs[i][k..], budget) else []
  }

  /** How far a read of up to `asked` bytes gets, when a first record that does not fit is read on its own. */
  function Reach(rest: seq<Record>, asked: nat): nat
    requires rest != []
  {
    var n := Min(asked, SizeOf(rest));
    if Len(rest[0]) <= n then n else Len(rest[0])
  }

  lemma OneOrMore(rest: seq<Record>)
    requires rest != []
    ensures SizeOf(rest[..1]) == Len(rest[0]) <= SizeOf(rest)
    ensures Len(rest[0]) == SizeOf(rest) <==> |rest| == 1
  {
    assert rest[..1] == [rest[0]];
    EncodeAllOne(rest[0]);
  }

  /** A read ends at the end of the file exactly when everything left was asked for or is one record. */
  lemma ReachesEnd(rest: seq<Record>, asked: nat)
    requires rest != []
    ensures Reach(rest, asked) <= SizeOf(rest)
    ensures Reach(rest, asked) == SizeOf(rest) <==> SizeOf(rest) <= asked || |rest| == 1
  {
    hide SizeOf;
    OneOrMore(rest);
  }

  // ---------- the cursor of the active file ----------

  /** The segment in which a fetch starts. */
  function StartSegment(log: Log, offset: nat): (i: nat)
    requires log.segs != [] && log.base <= offset
    ensures i < |log.segs|
  {
    if offset < Next(log) then SegmentAt(log.segs, offset - log.base) else |log.segs| - 1
  }

  /** The cursor of the last log file after a fetch that stands at `at` in segment `i`. */
  function FetchCursor(log: Log, i: nat, at: nat, budget: nat, cursor: nat): nat
    requires i < |log.segs| ==> BaseOf(log, i) <= at
    decreases |log.segs| - i
  {
    if i >= |log.segs| || budget == 0 then cursor
    else if i == |log.segs| - 1 then
      var k := at - BaseOf(log, i);
      if k < |Last(log)| then SizeOf(Last(log)[..k]) + Reach(Last(log)[k..], Capacity(budget)) else cursor
    else
      var records := FromSegment(log, i, at, budget);
      if SizeOf(records) > budget then cursor
      else FetchCursor(log, i + 1, BaseOf(log, i + 1), budget - SizeOf(records), cursor)
  }

  /** The cursor of the last log file after segment `i` was read from `at`. */
  function SegmentCursor(log: Log, i: nat, at: nat, budget: nat, cursor: nat): nat
    requires i < |log.segs| && BaseOf(log, i) <= at
  {
    var k := at - BaseOf(log, i);
    if i == |log.segs| - 1 && k < |Last(log)| then SizeOf(Last(log)[..k]) + Reach(Last(log)[k..], Capacity(budget))
    else cursor
  }

  /** One round of a fetch. */
  lemma FetchCursorStep(log: Log, i: nat, at: nat, budget: nat, cursor: nat)
    requires i < |log.segs| && BaseOf(log, i) <= at && budget > 0
    ensures var n := SizeOf(FromSegment(log, i, at, budget));
            var at' := if i + 1 < |log.segs| then BaseOf(log, i + 1) else at;
            var moved := SegmentCursor(log, i, at, budget, cursor);
            FetchCursor(log, i, at, budget, cursor) ==
            if n > budget then moved else FetchCursor(log, i + 1, at', budget - n, moved)
  {
    hide SizeOf, Reach, Flat, FromSegment;
  }

  /** The cursor of the last log file after a single read, whose first read returned at most `short` bytes. */
  function CursorAfterRead(log: Log, offset: nat, short: nat, cursor: nat): nat
    requires log.segs != []
  {
    var k := offset - BaseOf(log, |log.segs| - 1);
    if 0 <= k < |Last(log)| then SizeOf(Last(log)[..k]) + Reach(Last(log)[k..], Min(short, READ_CHUNK))
    else cursor
  }

  lemma StartIsBelow(log: Log, offset: nat)
    requires log.segs != [] && log.base <= offset
    ensures BaseOf(log, StartSegment(log, offset)) <= offset
  {
    if offset < Next(log) {
      SegmentAtIs(log.segs, offset - log.base);
    }
  }

  function CursorAfterFetch(log: Log, offset: nat, maxBytes: nat, cursor: nat): nat
    requires log.segs != []
  {
    if offset < log.base then cursor
    else
      StartIsBelow(log, offset);
      FetchCursor(log, StartSegment(log, offset), offset, maxBytes, cursor)
  }

  /** How the active log file was opened and where its cursor stands. */
  datatype Tail = Tail(append: bool, cursor: nat)

  predicate AtEnd(log: Log, f: Tail)
    requires log.segs != []
  {
    f.append || f.cursor == SizeOf(Last(log))
  }

  /** The encoded size of a batch. */
  function Total(ps: seq<Payload>): nat
  {
    if ps == [] then 0 else Total(ps[..|ps| - 1]) + PayloadLen(ps[|ps| - 1])
  }

  lemma {:induction false} TotalIsSize(ps: seq<Payload>, offset: nat, time: nat)
    ensures SizeOf(RecordsOf(ps, offset, time)) == Total(ps)
  {
    hide RecordsOf, PayloadLen;
    if ps == [] {
      assert RecordsOf(ps, offset, time) == [];
    } else {
      RecordsOfSnoc(ps, offset, time);
      TotalIsSize(ps[..|ps| - 1], offset, time);
    }
  }

  lemma {:induction false} TotalMonotone(ps: seq<Payload>, i: nat, j: nat)
    requires i <= j <= |ps|
    ensures Total(ps[..i]) <= Total(ps[..j])
    decreases j
  {
    if i < j {
      TotalMonotone(ps, i, j - 1);
      assert ps[..j][..j - 1] == ps[..j - 1];
    }
  }

  /**
   * A batch writes to the active file unless it is empty, its first payload does not fit there, or a
   * payload that is too large is met before the first rotation.
   */
  predicate BatchWrites(log: Log, ps: seq<Payload>)
    requires log.segs != []
  {
    && ps != [] && PayloadLen(ps[0]) <= log.max && FitsLast(log, PayloadLen(ps[0]))
    && var n := FirstTooLarge(log.max, ps);
       n == |ps| || SizeOf(Last(log)) + Total(ps[..n]) > log.max
  }

  predicate Writes(log: Log, cmd: Command)
    requires log.segs != []
  {
    match cmd
    case Produce(p) => PayloadLen(p) <= log.max && FitsLast(log, PayloadLen(p))
    case ProduceBatch(vs) => BatchWrites(log, ValuesOnly(vs))
    case FetchFrom(_, _) => false
  }

  /** The command writes to the active file while its cursor is not at the end. */
  predicate Misplaces(log: Log, cmd: Command, f: Tail)
    requires log.segs != []
  {
    !AtEnd(log, f) && Writes(log, cmd)
  }

  /** The active file after writes at its end turned `log` into `log'`; a new segment's file is in append mode. */
  function TailBetween(log: Log, log': Log, f: Tail): Tail
    requires log.segs != [] && log'.segs != []
  {
    if |log'.segs| > |log.segs| then Tail(true, SizeOf(Last(log')))
    else if Last(log') == Last(log) then f
    else f.(cursor := SizeOf(Last(log')))
  }

  function TailAfter(log: Log, cmd: Command, clock: nat -> nat, f: Tail): Tail
    requires log.segs != []
  {
    match cmd
    case FetchFrom(o, m) => f.(cursor := CursorAfterFetch(log, o, m, f.cursor))
    case _ => TailBetween(log, Exec(log, cmd, clock).0, f)
  }

  function RunTail(log: Log, f: Tail, jobs: seq<Job>): Tail
    requires log.segs != []
  {
    if jobs == [] then f
    else
      var n := |jobs| - 1;
      TailAfter(RunJobs(log, jobs[..n]), jobs[n].cmd, jobs[n].clock, RunTail(log, f, jobs[..n]))
  }

  /** No job of the run writes behind a moved cursor. */
  predicate NeverMisplaced(log: Log, f: Tail, jobs: seq<Job>)
    requires log.segs != []
  {
    jobs == [] ||
    var n := |jobs| - 1;
    NeverMisplaced(log, f, jobs[..n]) && !Misplaces(RunJobs(log, jobs[..n]), jobs[n].cmd, RunTail(log, f, jobs[..n]))
  }

  /** The reply to job `i` is that of the sequential run, or some reply to a fetch after a misplaced write. */
  ghost predicate RightReply(log: Log, f: Tail, jobs: seq<Job>, i: nat, reply: Reply)
    requires log.segs != [] && i < |jobs|
  {
    if jobs[i].cmd.FetchFrom? && !NeverMisplaced(log, f, jobs[..i]) then reply.Fetched?
    else reply == ReplyTo(log, jobs, i)
  }

  lemma {:induction false} MisplacedPrefix(log: Log, f: Tail, jobs: seq<Job>, i: nat)
    requires log.segs != [] && i <= |jobs| && NeverMisplaced(log, f, jobs)
    ensures NeverMisplaced(log, f, jobs[..i])
    decreases |jobs|
  {
    hide Misplaces, RunTail, RunJobs;
    if i == |jobs| {
      assert jobs[..i] == jobs;
    } else {
      MisplacedPrefix(log, f, jobs[..|jobs| - 1], i);
      assert jobs[..|jobs| - 1][..i] == jobs[..i];
    }
  }

  lemma TailStep(log: Log, f: Tail, jobs: seq<Job>, i: nat)
    requires log.segs != [] && i < |jobs|
    ensures RunTail(log, f, jobs[..i + 1]) ==
            TailAfter(RunJobs(log, jobs[..i]), jobs[i].cmd, jobs[i].clock, RunTail(log, f, jobs[..i]))
    ensures NeverMisplaced(log, f, jobs[..i + 1]) <==>
            && NeverMisplaced(log, f, jobs[..i])
            && !Misplaces(RunJobs(log, jobs[..i]), jobs[i].cmd, RunTail(log, f, jobs[..i]))
  {
    hide Misplaces, TailAfter, RunJobs;
    assert jobs[..i + 1][..i] == jobs[..i];
  }

  // ---------- runs that are safe ----------

  /** A file in append mode stays in append mode, so a created partition is always safe. */
  lemma {:induction false} AppendModeIsSafe(log: Log, f: Tail, jobs: seq<Job>)
    requires log.segs != [] && f.append
    ensures NeverMisplaced(log, f, jobs) && RunTail(log, f, jobs).append
  {
    hide Exec, SizeOf, CursorAfterFetch;
    if jobs != [] {
      AppendModeIsSafe(log, f, jobs[..|jobs| - 1]);
    }
  }

  /** No command writes after one that reads. */
  predicate WritesFirst(jobs: seq<Job>)
  {
    forall i, j :: 0 <= i < j < |jobs| && jobs[i].cmd.FetchFrom? ==> jobs[j].cmd.FetchFrom?
  }

  /** Writes alone keep the cursor at the end. */
  lemma WritesKeepEnd(log: Log, cmd: Command, clock: nat -> nat, f: Tail)
    requires log.segs != [] && AtEnd(log, f) && !cmd.FetchFrom?
    ensures AtEnd(Exec(log, cmd, clock).0, TailAfter(log, cmd, clock, f))
  {
    hide Exec, SizeOf;
  }

  lemma {:induction false} WritesFirstIsSafe(log: Log, f: Tail, jobs: seq<Job>)
    requires log.segs != [] && AtEnd(log, f) && WritesFirst(jobs)
    ensures NeverMisplaced(log, f, jobs)
    ensures (forall i :: 0 <= i < |jobs| ==> !jobs[i].cmd.FetchFrom?) ==>
              AtEnd(RunJobs(log, jobs), RunTail(log, f, jobs))
  {
    hide Exec, AtEnd, TailAfter;
    if jobs != [] {
      var n := |jobs| - 1;
      WritesFirstIsSafe(log, f, jobs[..n]);
      if !jobs[n].cmd.FetchFrom? {
        WritesKeepEnd(RunJobs(log, jobs[..n]), jobs[n].cmd, jobs[n].clock, RunTail(log, f, jobs[..n]));
      }
    }
  }

  /** A fetch from segments within the read buffer leaves the cursor at the end, or does not move it. */
  lemma {:induction false} FetchCursorInSmall(log: Log, i: nat, at: nat, budget: nat, cursor: nat)
    requires log.segs != [] && (i < |log.segs| ==> BaseOf(log, i) <= at)
    requires SizeOf(Last(log)) <= MIN_BATCH_READ
    ensures FetchCursor(log, i, at, budget, cursor) in {cursor, SizeOf(Last(log))}
    decreases |log.segs| - i
  {
    hide SizeOf, Flat, FromSegment, Reach;
    if i < |log.segs| && budget > 0 {
      if i == |log.segs| - 1 {
        var k := at - BaseOf(log, i);
        if k < |Last(log)| {
          SplitAt(Last(log), k);
          ReachesEnd(Last(log)[k..], Capacity(budget));
        }
      } else if SizeOf(FromSegment(log, i, at, budget)) <= budget {
        FetchCursorInSmall(log, i + 1, BaseOf(log, i + 1), budget - SizeOf(FromSegment(log, i, at, budget)), cursor);
      }
    }
  }

  lemma LastIsBounded(log: Log)
    requires log.segs != [] && Bounded(log)
    ensures SizeOf(Last(log)) <= log.max
  {
    assert Last(log) in log.segs;
  }

  /** Segments within the read buffer are always safe. */
  lemma {:induction false} SmallSegmentsAreSafe(log: Log, f: Tail, jobs: seq<Job>)
    requires WellFormed(log) && Bounded(log) && log.max <= MIN_BATCH_READ && log.segs != [] && AtEnd(log, f)
    ensures NeverMisplaced(log, f, jobs) && AtEnd(RunJobs(log, jobs), RunTail(log, f, jobs))
  {
    hide Exec, SizeOf, WellFormed, Bounded, FetchCursor, Flat;
    if jobs != [] {
      var n := |jobs| - 1;
      var mid, tail := RunJobs(log, jobs[..n]), RunTail(log, f, jobs[..n]);
      SmallSegmentsAreSafe(log, f, jobs[..n]);
      RunExtends(log, jobs[..n], n);
      LastIsBounded(mid);
      match jobs[n].cmd
      case FetchFrom(o, m) =>
        FetchLeaves(mid, o, m, jobs[n].clock, tail);
      case _ =>
        WritesKeepEnd(mid, jobs[n].cmd, jobs[n].clock, tail);
    }
  }

  lemma FetchLeaves(log: Log, offset: nat, maxBytes: nat, clock: nat -> nat, f: Tail)
    requires log.segs != [] && SizeOf(Last(log)) <= MIN_BATCH_READ && AtEnd(log, f)
    ensures Exec(log, FetchFrom(offset, maxBytes), clock).0 == log
    ensures AtEnd(log, TailAfter(log, FetchFrom(offset, maxBytes), clock, f))
  {
    hide SizeOf, FetchCursor, Fetch, Flat;
    if log.base <= offset {
      StartIsBelow(log, offset);
      FetchCursorInSmall(log, StartSegment(log, offset), offset, maxBytes, f.cursor);
    }
  }
}
