/** Restarting a partition after a clean shutdown or a crash, and the loop of its actor. */
module Recovery {
  import opened Bytes
  import opened Records
  import opened Files
  import opened Indexes
  import opened LogSpec
  import opened AppendTheorems
  import opened Cursors
  import opened Segments
  import opened Staging
  import opened Partitions

  /** The files that segment `i` of the log leaves behind. */
  function Image(log: Log, i: nat): FilePair
    requires i < |log.segs|
  {
    FilePair(EncodeAll(log.segs[i]), Some(IndexFile(BaseOf(log, i), log.segs[i])))
  }

  /** The directory has files for exactly the segments of the log. */
  ghost predicate Covers(dir: map<nat, FilePair>, log: Log)
  {
    forall b :: b in dir <==> exists i :: 0 <= i < |log.segs| && BaseOf(log, i) == b
  }

  ghost predicate AllFit(log: Log)
  {
    && Next(log) < U64_LIMIT && AllStorable(All(log))
    && forall i :: 0 <= i < |log.segs| ==> SizeOf(log.segs[i]) < U64_LIMIT
  }

  lemma SegmentRecords(log: Log, i: nat)
    requires WellFormed(log) && AllStorable(All(log)) && i < |log.segs|
    ensures Numbered(BaseOf(log, i), log.segs[i]) && AllStorable(log.segs[i])
    ensures BaseOf(log, i) + |log.segs[i]| <= Next(log)
  {
    hide Flat;
    FlatAt(log.segs, i);
    var p := |Flat(log.segs[..i])|;
    forall k | 0 <= k < |log.segs[i]|
      ensures log.segs[i][k] == All(log)[p + k]
    {
      assert log.segs[i][k] == All(log)[p..p + |log.segs[i]|][k];
    }
  }

  /** Complete indexes leave no gaps. */
  function CleanGaps(log: Log): (gaps: seq<Span>)
    ensures |gaps| == |log.segs|
    ensures forall i :: 0 <= i < |gaps| ==> gaps[i] == CleanGap(BaseOf(log, i), log.segs[i]) && gaps[i].None()
  {
    seq(|log.segs|, i requires 0 <= i < |log.segs| => CleanGap(BaseOf(log, i), log.segs[i]))
  }

  function CleanGap(base: nat, rs: seq<Record>): Span { if rs == [] then NO_GAP else GapAfter(base, rs, |rs|) }

  lemma ImageStores(dir: map<nat, FilePair>, log: Log, i: nat)
    requires WellFormed(log) && AllFit(log) && i < |log.segs|
    requires var b := BaseOf(log, i); b in dir && dir[b] == Image(log, i)
    ensures StoresSegment(dir, log, i, CleanGap(BaseOf(log, i), log.segs[i]))
  {
    hide Flat, WellFormed, Recovers, EncodeAll, SizeOf;
    var b, rs := BaseOf(log, i), log.segs[i];
    SegmentRecords(log, i);
    WholeLogRecovers(b, rs, dir[b].index);
    ImageLeavesNoGap(b, rs);
  }

  lemma ImageLeavesNoGap(base: nat, rs: seq<Record>)
    requires base + |rs| < U64_LIMIT && SizeOf(rs) < U64_LIMIT
    ensures LeavesGap(base, rs, Some(IndexFile(base, rs)), CleanGap(base, rs))
  {
    hide SizeOf, Dense, EncodeEntry, DecodeEntries;
    IndexFileReadsBack(base, rs);
    assert Dense(base, rs)[..|rs|] == Dense(base, rs);
    if rs == [] {
      assert Dense(base, rs) == [];
    }
  }

  /** A cleanly closed directory stores its log. */
  lemma CleanDirectoryStores(dir: map<nat, FilePair>, log: Log)
    requires WellFormed(log) && AllFit(log) && Covers(dir, log)
    requires forall i :: 0 <= i < |log.segs| ==> var b := BaseOf(log, i); b in dir && dir[b] == Image(log, i)
    ensures Stores(dir, log, CleanGaps(log)) && NoGaps(CleanGaps(log))
  {
    hide Flat, WellFormed, AllFit, StoresSegment, CleanGap, CleanGaps;
    forall i | 0 <= i < |log.segs|
      ensures StoresSegment(dir, log, i, CleanGaps(log)[i])
    {
      ImageStores(dir, log, i);
    }
  }

  /** The log without the records of its last segment that are not whole within `c` bytes. */
  function CutBack(log: Log, c: nat): Log
    requires log.segs != []
  {
    log.(segs := log.segs[..|log.segs| - 1] + [Last(log)[..Whole(Last(log), c)]])
  }

  lemma CutBackIsFine(log: Log, c: nat)
    requires WellFormed(log) && AllFit(log)
    ensures var r := CutBack(log, c);
            && WellFormed(r) && All(r) <= All(log) && |r.segs| == |log.segs| && r.segs != []
            && (forall i :: 0 <= i < |log.segs| ==> BaseOf(r, i) == BaseOf(log, i))
            && (forall i :: 0 <= i < |log.segs| - 1 ==> r.segs[i] == log.segs[i])
            && Last(r) == Last(log)[..Whole(Last(log), c)]
  {
    var n, r := |log.segs| - 1, CutBack(log, c);
    FlatSnoc(log.segs[..n], Last(r));
    assert All(r) == All(log)[..|All(r)|];
    forall i | 0 <= i <= n
      ensures r.segs[..i] == log.segs[..i]
    {
    }
  }

  /** The gaps of a log that was cut back in its last segment, whose index leaves `gap`. */
  function GapsAfterCrash(log: Log, gap: Span): (gaps: seq<Span>)
    requires log.segs != []
    ensures |gaps| == |log.segs|
  {
    CleanGaps(log)[..|log.segs| - 1] + [gap]
  }

  /**
   * A crash may leave any byte prefix of the last log file. Its index may be missing, empty or not a
   * whole number of entries, or it may hold the entries of only some of the whole records: between
   * the write to the log and the write to the index, it lags. The directory then stores exactly the
   * log up to the last whole record, with that gap.
   */
  lemma CrashedDirectoryStores(dir: map<nat, FilePair>, log: Log, c: nat, gap: Span)
    requires WellFormed(log) && AllFit(log) && Covers(dir, log)
    requires forall i :: 0 <= i < |log.segs| - 1 ==> var b := BaseOf(log, i); b in dir && dir[b] == Image(log, i)
    requires c <= SizeOf(Last(log))
    requires var b := BaseOf(log, |log.segs| - 1);
             && b in dir && dir[b].log == EncodeAll(Last(log))[..c]
             && LeavesGap(b, Last(log)[..Whole(Last(log), c)], dir[b].index, gap)
    ensures WellFormed(CutBack(log, c)) && Stores(dir, CutBack(log, c), GapsAfterCrash(log, gap))
    ensures All(CutBack(log, c)) <= All(log)
  {
    hide Flat, Recovers, EncodeAll, SizeOf, Whole, IndexFile, LeavesGap, CleanGaps, CleanGap;
    var n, r := |log.segs| - 1, CutBack(log, c);
    CutBackIsFine(log, c);
    SegmentRecords(log, n);
    CutLogRecovers(BaseOf(log, n), Last(log), c, dir[BaseOf(log, n)].index);
    forall i | 0 <= i < n
      ensures StoresSegment(dir, r, i, GapsAfterCrash(log, gap)[i])
    {
      ImageStores(dir, log, i);
    }
    assert StoresSegment(dir, r, n, gap);
  }

  /** The directory is what the open partition has written to its files. */
  ghost predicate WrittenBy(p: Partition, dir: map<nat, FilePair>)
    reads p, p.Objects()
  {
    && (forall b :: b in dir <==> exists i :: 0 <= i < |p.segments| && p.segments[i].base == b)
    && forall s :: s in p.segments ==>
         s.base in dir && dir[s.base] == FilePair(s.log.data, Some(s.index.file.data))
  }

  lemma WrittenIsClean(p: Partition, dir: map<nat, FilePair>)
    requires p.Valid() && WrittenBy(p, dir)
    ensures Covers(dir, p.log)
    ensures forall i :: 0 <= i < |p.log.segs| ==>
              var b := BaseOf(p.log, i); b in dir && dir[b] == Image(p.log, i)
  {
    hide Flat, WellFormed, SizeOf, EncodeAll, EncodeEntries, Dense, IndexSound, Segment.Lost;
    forall i | 0 <= i < |p.log.segs|
      ensures var b := BaseOf(p.log, i); b in dir && dir[b] == Image(p.log, i)
    {
      assert Matches(p.segments[i], p.log, i, p.gaps[i], false);
      assert p.segments[i] in p.segments;
    }
    forall b
      ensures b in dir <==> exists i :: 0 <= i < |p.log.segs| && BaseOf(p.log, i) == b
    {
      if i :| 0 <= i < |p.segments| && p.segments[i].base == b {
        assert Matches(p.segments[i], p.log, i, p.gaps[i], false);
      }
    }
  }

  lemma PartitionStorable(p: Partition)
    requires p.Sound()
    ensures AllStorable(All(p.log)) && WellFormed(p.log) && p.log.max == p.max
  {
    hide Flat, SizeOf, EncodeAll, EncodeEntries, ListedEntries, IndexSound, Segment.Lost;
    var all := All(p.log);
    forall k | 0 <= k < |all|
      ensures Storable(all[k])
    {
      var i := SegmentAt(p.log.segs, k);
      SegmentAtIs(p.log.segs, k);
      assert Matches(p.segments[i], p.log, i, p.gaps[i], i == p.damaged);
    }
  }

  /** Reopening what a partition wrote restores the same log, for every order in which the directory is listed. */
  method Reopen(p: Partition, dir: map<nat, FilePair>, listing: seq<nat>) returns (q: Partition)
    requires p.Valid() && WrittenBy(p, dir) && Lists(listing, dir)
    requires Next(p.log) < U64_LIMIT && forall i :: 0 <= i < |p.log.segs| ==> SizeOf(p.log.segs[i]) < U64_LIMIT
    ensures fresh(q) && q.Valid() && q.Appendable() && q.log == p.log
  {
    hide Partition.Sound, WellFormed, Flat, Stores, Image, CleanGaps;
    PartitionStorable(p);
    WrittenIsClean(p, dir);
    CleanDirectoryStores(dir, p.log);
    NonEmpty(p.log);
    assert BaseOf(p.log, 0) in dir;
    q := new Partition.OpenOrCreate(dir, listing, p.max, p.log, CleanGaps(p.log));
  }

  /**
   * Opening a directory after a crash gives back the log up to the last whole record of its last
   * segment, ready to be written. Its last index may have a gap.
   */
  method OpenAfterCrash(dir: map<nat, FilePair>, listing: seq<nat>, max: nat,
                        ghost log: Log, ghost c: nat, ghost gap: Span)
    returns (q: Partition)
    requires WellFormed(log) && AllFit(log) && Covers(dir, log) && log.max == max && Lists(listing, dir)
    requires forall i :: 0 <= i < |log.segs| - 1 ==> var b := BaseOf(log, i); b in dir && dir[b] == Image(log, i)
    requires c <= SizeOf(Last(log))
    requires var b := BaseOf(log, |log.segs| - 1);
             && b in dir && dir[b].log == EncodeAll(Last(log))[..c]
             && LeavesGap(b, Last(log)[..Whole(Last(log), c)], dir[b].index, gap)
    ensures fresh(q) && fresh(q.Objects()) && q.Sound() && q.damaged == -1 && q.Appendable()
    ensures q.log == CutBack(log, c) && All(q.log) <= All(log)
    ensures |q.log.segs| == |log.segs| && q.log.segs[..|log.segs| - 1] == log.segs[..|log.segs| - 1]
    ensures Last(q.log) == Last(log)[..Whole(Last(log), c)]
    ensures q.gaps == GapsAfterCrash(log, gap) && (q.Valid() <==> gap.None())
  {
    hide Partition.Sound, WellFormed, Flat, Stores, Image, AllFit, SizeOf, EncodeAll, Whole, LeavesGap, CleanGap,
         CleanGaps;
    CrashedDirectoryStores(dir, log, c, gap);
    NonEmpty(log);
    q := new Partition.OpenOrCreate(dir, listing, max, CutBack(log, c), GapsAfterCrash(log, gap));
    LastGap(log, gap);
  }

  /** Only the offsets in the gap of the last segment are gone. */
  lemma GoneAfterCrash(q: Partition, log: Log, c: nat, gap: Span, offset: nat)
    requires log.segs != [] && q.Sound() && q.log == CutBack(log, c) && q.gaps == GapsAfterCrash(log, gap)
    ensures |q.gaps| == |q.log.segs|
    ensures Gone(q.log, q.gaps, offset) <==> gap.Has(offset)
    ensures gap.Has(offset) ==> RealStart(q.log, q.gaps, offset) == Next(q.log)
  {
    hide Partition.Sound, Flat, SegmentAt, CutBack, GapsAfterCrash, BaseOf, WellFormed;
    q.Basics();
    LastGap(log, gap);
    var n := |q.gaps| - 1;
    if gap.Has(offset) {
      q.InGap(n, offset);
      LastSegmentHolds(q.log, offset - BaseOf(q.log, n));
      EndsAt(q.log);
    }
  }

  /**
   * After such a crash a read gives the true record, or nothing exactly for the records the index had
   * lost. A fetch of one of those finds nothing, as no segment follows; any other is that of the log.
   */
  method ReadsAfterCrash(dir: map<nat, FilePair>, listing: seq<nat>, max: nat,
                         ghost log: Log, ghost c: nat, ghost gap: Span, offset: nat, short: nat, maxBytes: nat)
    returns (r: Option<Record>, rs: seq<Record>)
    requires WellFormed(log) && AllFit(log) && Covers(dir, log) && log.max == max && Lists(listing, dir)
    requires forall i :: 0 <= i < |log.segs| - 1 ==> var b := BaseOf(log, i); b in dir && dir[b] == Image(log, i)
    requires c <= SizeOf(Last(log))
    requires var b := BaseOf(log, |log.segs| - 1);
             && b in dir && dir[b].log == EncodeAll(Last(log))[..c]
             && LeavesGap(b, Last(log)[..Whole(Last(log), c)], dir[b].index, gap)
    ensures r == if gap.Has(offset) then None else LogSpec.Read(CutBack(log, c), offset)
    ensures rs == if gap.Has(offset) then [] else Fetch(CutBack(log, c), offset, maxBytes)
  {
    hide Partition.Sound, WellFormed, Flat, Image, AllFit, SizeOf, EncodeAll, Whole, LeavesGap, Covers, Lists,
         CutBack, Fetch, GapsAfterCrash, Gone, RealStart, SegmentAt;
    var q := OpenAfterCrash(dir, listing, max, log, c, gap);
    forall i | 0 <= i < |q.segments|
      ensures fresh(q.segments[i])
    {
      q.Holds(i);
    }
    NonEmpty(log);
    GoneAfterCrash(q, log, c, gap, offset);
    NotGone(q.log, q.gaps, offset);
    NothingAtEnd(q.log, maxBytes);
    r := q.Read(offset, short);
    var found := q.ReadBatch(offset, maxBytes);
    rs := found.value;
  }

  lemma NotGone(log: Log, gaps: seq<Span>, offset: nat)
    requires |gaps| == |log.segs|
    ensures !Gone(log, gaps, offset) ==> RealStart(log, gaps, offset) == offset
  {
    hide Gone;
  }

  lemma LastGap(log: Log, gap: Span)
    requires log.segs != []
    ensures GapsAfterCrash(log, gap)[|log.segs| - 1] == gap
    ensures forall i :: 0 <= i < |log.segs| - 1 ==> GapsAfterCrash(log, gap)[i].None()
    ensures NoGaps(GapsAfterCrash(log, gap)) <==> gap.None()
  {
    hide CleanGaps;
    assert GapsAfterCrash(log, gap)[|log.segs| - 1] == gap;
  }

  // ---------- the actor ----------

  function Adds(cmd: Command): nat
  {
    match cmd
    case Produce(_) => 1
    case ProduceBatch(vs) => |vs|
    case FetchFrom(_, _) => 0
  }

  /** The most records that the jobs can add. */
  function Volume(jobs: seq<Job>): nat
  {
    if jobs == [] then 0 else Volume(jobs[..|jobs| - 1]) + Adds(jobs[|jobs| - 1].cmd)
  }

  /** Payloads and clocks within the ranges of the record format. */
  ghost predicate InRange(cmd: Command, clock: nat -> nat)
  {
    && Ticks(clock)
    && match cmd
       case Produce(p) => PayloadLen(p) < U32_LIMIT
       case ProduceBatch(vs) => forall i :: 0 <= i < |vs| ==> PayloadLen(ValueOnly(vs[i])) < U32_LIMIT
       case FetchFrom(_, _) => true
  }

  /**
   * One turn of the actor: run a command on the partition and produce its reply, unless the decoder
   * panics. A write is stored and answered as the log says, whatever the files hold. A fetch is, too,
   * as long as no file is damaged; an offset that an index has lost sends it to the next segment.
   * The files stay intact exactly when the command does not write behind a moved cursor. A record
   * that was written there, within the old file, is not found by a later fetch.
   */
  method Serve(p: Partition, cmd: Command, clock: nat -> nat) returns (reply: Option<Reply>)
    requires p.Sound() && InRange(cmd, clock) && Next(p.log) + Adds(cmd) < U64_LIMIT
    modifies p.Objects()
    ensures p.Sound() && fresh(p.Objects() - old(p.Objects())) && GapsKept(old(p.gaps), p.gaps)
    ensures p.log.segs != [] && old(p.log).segs != [] && p.segments != [] && old(p.segments) != []
    ensures p.log == Exec(old(p.log), cmd, clock).0 && |old(p.gaps)| == |old(p.log).segs|
    ensures old(p.damaged) == -1 || !cmd.FetchFrom? ==>
              reply == Some(Exec(old(p.log), Redirect(old(p.log), old(p.gaps), cmd), clock).1)
    ensures reply.Some? && cmd.FetchFrom? ==> reply.value.Fetched?
    ensures p.damaged == if old(p.damaged) == -1 && Misplaces(old(p.log), cmd, old(p.ActiveTail()))
                         then |old(p.log).segs| - 1 else old(p.damaged)
    ensures p.damaged == -1 ==>
              var f := old(p.ActiveTail());
              p.ActiveTail() == TailAfter(old(p.log), Redirect(old(p.log), old(p.gaps), cmd), clock, f)
    ensures cmd.FetchFrom? ==> p.lost == old(p.lost)
    ensures old(p.damaged) == -1 && p.damaged != -1 && cmd.Produce? &&
            old(p.ActiveTail()).cursor + PayloadLen(cmd.payload) <= SizeOf(Last(old(p.log))) ==>
              p.lost.Has(Next(old(p.log)))
    ensures cmd.FetchFrom? && old(p.lost).Has(cmd.offset) && 0 <= old(p.damaged) < |p.log.segs| ==>
              reply == Some(Fetched(Fetch(p.log, BaseOf(p.log, old(p.damaged) + 1), cmd.maxBytes)))
  {
    hide Partition.Sound, Place, LogSpec.AppendBatch, Fetch, Flat, BatchWrites, TailBetween, SizeOf, CursorAfterFetch,
         FitsLast, PayloadLen, RealStart;
    p.TailIs();
    p.Basics();
    match cmd
    case Produce(payload) =>
      var res := p.Append(payload, clock);
      reply := Some(Assigned(res));
    case ProduceBatch(vs) =>
      BatchInRange(vs, clock, p.max);
      var res := p.AppendBatch(ValuesOnly(vs), clock);
      reply := Some(Assigned(res));
    case FetchFrom(o, m) =>
      assert forall s: Segment :: s in p.segments ==> s in old(p.Objects());
      var rs := p.ReadBatch(o, m);
      reply := if rs.Some? then Some(Fetched(rs.value)) else None;
  }

  lemma BatchInRange(vs: seq<seq<Byte>>, clock: nat -> nat, max: nat)
    requires InRange(ProduceBatch(vs), clock)
    ensures LengthsFit(ValuesOnly(vs), max) && Ticks(clock)
  {
  }

  /** A job adds at most as many records as it carries payloads. */
  lemma ExecAdds(log: Log, cmd: Command, clock: nat -> nat)
    requires WellFormed(log)
    ensures Next(Exec(log, cmd, clock).0) <= Next(log) + Adds(cmd)
  {
    hide Flat, Place, PlaceAll, LogSpec.AppendBatch, WellFormed, Bounded, Fetch;
    NonEmpty(log);
    match cmd
    case Produce(p) => PlaceGrows(log, p, clock);
    case ProduceBatch(vs) => AppendBatchMeaning(log, ValuesOnly(vs), clock);
    case FetchFrom(_, _) =>
  }

  lemma {:induction false} VolumeGrows(jobs: seq<Job>, i: nat)
    requires i <= |jobs|
    ensures Volume(jobs[..i]) <= Volume(jobs)
    decreases |jobs|
  {
    if i < |jobs| {
      VolumeGrows(jobs[..|jobs| - 1], i);
      assert jobs[..|jobs| - 1][..i] == jobs[..i];
    } else {
      assert jobs[..i] == jobs;
    }
  }

  lemma ReplyPrefix(log: Log, jobs: seq<Job>, i: nat, j: nat)
    requires log.segs != [] && j < i <= |jobs|
    ensures ReplyTo(log, jobs[..i], j) == ReplyTo(log, jobs, j)
  {
    hide Exec, RunJobs;
    assert jobs[..i][..j] == jobs[..j];
  }

  lemma VolumeStep(jobs: seq<Job>, i: nat)
    requires i < |jobs|
    ensures Volume(jobs[..i + 1]) == Volume(jobs[..i]) + Adds(jobs[i].cmd)
  {
    assert jobs[..i + 1][..i] == jobs[..i];
  }

  /** Every job is within the ranges of the record format. */
  ghost predicate AllInRange(jobs: seq<Job>)
  {
    forall i :: 0 <= i < |jobs| ==> InRange(jobs[i].cmd, jobs[i].clock)
  }

  /**
   * The loop of the partition actor. Every write is stored, and answered as the sequential log answers
   * it at that point. So is every fetch, as long as no earlier command was written behind a moved
   * cursor. The files are intact at the end exactly if none was. The loop ends early only with a panic
   * in a fetch after that.
   */
  method ActorLoop(p: Partition, jobs: seq<Job>) returns (replies: seq<Reply>)
    requires p.Valid() && Next(p.log) + Volume(jobs) < U64_LIMIT && AllInRange(jobs)
    modifies p.Objects()
    ensures p.Sound() && fresh(p.Objects() - old(p.Objects())) && NoGaps(p.gaps)
    ensures old(p.log).segs != [] && old(p.segments) != [] && p.segments != [] && |replies| <= |jobs|
    ensures |replies| < |jobs| ==>
              && jobs[|replies|].cmd.FetchFrom?
              && !NeverMisplaced(old(p.log), old(p.ActiveTail()), jobs[..|replies|])
    ensures p.log == RunJobs(old(p.log), jobs[..|replies|])
    ensures p.Valid() <==> NeverMisplaced(old(p.log), old(p.ActiveTail()), jobs[..|replies|])
    ensures p.Valid() ==> p.ActiveTail() == RunTail(old(p.log), old(p.ActiveTail()), jobs[..|replies|])
    ensures forall i :: 0 <= i < |replies| ==> RightReply(old(p.log), old(p.ActiveTail()), jobs, i, replies[i])
  {
    hide Partition.Sound, Next, AllInRange, NeverMisplaced, RunTail, RunJobs, Volume, RightReply, NoGaps, Traced;
    p.Basics();
    ghost var start, f := p.log, p.ActiveTail();
    replies := [];
    NoJobs(start, f);
    for i := 0 to |jobs|
      invariant p.Sound() && fresh(p.Objects() - old(p.Objects())) && NoGaps(p.gaps) && p.segments != []
      invariant Traced(start, f, jobs[..i], p.log, p.damaged, p.ActiveTail())
      invariant |replies| == i && forall j :: 0 <= j < i ==> RightReply(start, f, jobs, j, replies[j])
    {
      TracedMeans(start, f, jobs[..i], p.log, p.damaged, p.ActiveTail());
      var reply := ActorRound(p, jobs, i, start, f);
      if reply.None? {
        return;
      }
      replies := replies + [reply.value];
    }
    assert jobs[..|jobs|] == jobs;
    TracedMeans(start, f, jobs, p.log, p.damaged, p.ActiveTail());
  }

  /** The log, the damage and the active file after these jobs. */
  ghost predicate Traced(start: Log, f: Tail, jobs: seq<Job>, log: Log, damaged: int, tail: Tail)
    requires start.segs != []
  {
    && log == RunJobs(start, jobs) && Next(log) <= Next(start) + Volume(jobs)
    && (damaged == -1 <==> NeverMisplaced(start, f, jobs))
    && (damaged == -1 ==> tail == RunTail(start, f, jobs))
  }

  lemma TracedMeans(start: Log, f: Tail, jobs: seq<Job>, log: Log, damaged: int, tail: Tail)
    requires start.segs != [] && Traced(start, f, jobs, log, damaged, tail)
    ensures log == RunJobs(start, jobs)
    ensures damaged == -1 <==> NeverMisplaced(start, f, jobs)
    ensures damaged == -1 ==> tail == RunTail(start, f, jobs)
  {
  }

  /** One round of the loop; no reply means a panic, which leaves the log as it was. */
  method ActorRound(p: Partition, jobs: seq<Job>, i: nat, ghost start: Log, ghost f: Tail)
    returns (reply: Option<Reply>)
    requires p.Sound() && NoGaps(p.gaps) && p.segments != [] && start.segs != [] && i < |jobs|
    requires Traced(start, f, jobs[..i], p.log, p.damaged, p.ActiveTail())
    requires AllInRange(jobs) && Next(start) + Volume(jobs) < U64_LIMIT
    modifies p.Objects()
    ensures p.Sound() && fresh(p.Objects() - old(p.Objects())) && NoGaps(p.gaps) && p.segments != []
    ensures reply.None? ==> jobs[i].cmd.FetchFrom? && p.log == old(p.log) && p.damaged == old(p.damaged) != -1
    ensures reply.Some? ==>
              && Traced(start, f, jobs[..i + 1], p.log, p.damaged, p.ActiveTail())
              && RightReply(start, f, jobs, i, reply.value)
  {
    hide Partition.Sound, Exec, Next, InRange, AllInRange, NeverMisplaced, Misplaces, RunTail, RunJobs, TailAfter,
         Volume, RightReply, Redirect, GapsKept, NoGaps;
    p.Basics();
    JobStep(p, start, f, jobs, i);
    reply := Serve(p, jobs[i].cmd, jobs[i].clock);
    if reply.Some? {
      AnswerIs(start, f, jobs, i, reply.value);
    }
  }

  lemma NoJobs(log: Log, f: Tail)
    requires log.segs != []
    ensures Traced(log, f, [], log, -1, f)
  {
  }

  lemma AnswerIs(start: Log, f: Tail, jobs: seq<Job>, i: nat, reply: Reply)
    requires start.segs != [] && i < |jobs|
    requires jobs[i].cmd.FetchFrom? ==> reply.Fetched?
    requires NeverMisplaced(start, f, jobs[..i]) || !jobs[i].cmd.FetchFrom? ==> reply == ReplyTo(start, jobs, i)
    ensures RightReply(start, f, jobs, i, reply)
  {
    hide ReplyTo, NeverMisplaced;
  }

  /** What job `i` meets and leaves. */
  lemma JobStep(p: Partition, start: Log, f: Tail, jobs: seq<Job>, i: nat)
    requires p.Sound() && NoGaps(p.gaps) && start.segs != [] && i < |jobs| && p.log == RunJobs(start, jobs[..i])
    requires AllInRange(jobs) && Next(p.log) <= Next(start) + Volume(jobs[..i])
    ensures InRange(jobs[i].cmd, jobs[i].clock) && p.log.segs != [] && |p.gaps| == |p.log.segs|
    ensures Redirect(p.log, p.gaps, jobs[i].cmd) == jobs[i].cmd
    ensures forall gaps :: GapsKept(p.gaps, gaps) ==> NoGaps(gaps)
    ensures Next(p.log) + Adds(jobs[i].cmd) <= Next(start) + Volume(jobs[..i + 1]) <= Next(start) + Volume(jobs)
    ensures Next(Exec(p.log, jobs[i].cmd, jobs[i].clock).0) <= Next(start) + Volume(jobs[..i + 1])
    ensures (RunJobs(start, jobs[..i + 1]), ReplyTo(start, jobs, i)) == Exec(p.log, jobs[i].cmd, jobs[i].clock)
    ensures jobs[i].cmd.FetchFrom? ==> Exec(p.log, jobs[i].cmd, jobs[i].clock).0 == p.log
    ensures RunTail(start, f, jobs[..i + 1]) ==
            TailAfter(p.log, jobs[i].cmd, jobs[i].clock, RunTail(start, f, jobs[..i]))
    ensures NeverMisplaced(start, f, jobs[..i + 1]) <==>
            NeverMisplaced(start, f, jobs[..i]) && !Misplaces(p.log, jobs[i].cmd, RunTail(start, f, jobs[..i]))
  {
    hide Partition.Sound, Exec, Flat, InRange, Misplaces, TailAfter, ReplyTo, Volume, WellFormed, RunTail,
         NeverMisplaced, RunJobs, Redirect;
    p.Basics();
    NothingRedirected(p.log, p.gaps, jobs[i].cmd);
    VolumeGrows(jobs, i + 1);
    VolumeStep(jobs, i);
    RunStep(start, jobs, i);
    ExecAdds(p.log, jobs[i].cmd, jobs[i].clock);
    if jobs[i].cmd.FetchFrom? {
      ExecFetch(p.log, jobs[i].cmd.offset, jobs[i].cmd.maxBytes, jobs[i].clock);
    }
    TailStep(start, f, jobs, i);
  }

  // ---------- a created partition, whatever runs on it ----------

  /**
   * A call on a partition: a command of the actor, or a read of one offset with a first read of at
   * most `short` bytes.
   */
  datatype Op = Do(job: Job) | ReadOne(offset: nat, short: nat)

  datatype Answer = Replied(reply: Reply) | Found(record: Option<Record>)

  function RunOps(log: Log, ops: seq<Op>): (r: Log)
    requires log.segs != []
    ensures r.segs != []
  {
    if ops == [] then log
    else
      var before, op := RunOps(log, ops[..|ops| - 1]), ops[|ops| - 1];
      if op.Do? then Exec(before, op.job.cmd, op.job.clock).0 else before
  }

  /** What the flat log answers to an operation. */
  function AnswerOf(log: Log, op: Op): Answer
    requires log.segs != []
  {
    match op
    case Do(job) => Replied(Exec(log, job.cmd, job.clock).1)
    case ReadOne(offset, _) => Found(LogSpec.Read(log, offset))
  }

  /** The jobs among the operations. */
  function JobsOf(ops: seq<Op>): seq<Job>
  {
    if ops == [] then []
    else JobsOf(ops[..|ops| - 1]) + if ops[|ops| - 1].Do? then [ops[|ops| - 1].job] else []
  }

  ghost predicate OpsInRange(ops: seq<Op>)
  {
    forall i :: 0 <= i < |ops| && ops[i].Do? ==> InRange(ops[i].job.cmd, ops[i].job.clock)
  }

  lemma OpStep(ops: seq<Op>, i: nat, log: Log)
    requires i < |ops| && log.segs != []
    ensures JobsOf(ops[..i + 1]) == JobsOf(ops[..i]) + if ops[i].Do? then [ops[i].job] else []
    ensures RunOps(log, ops[..i + 1]) ==
            if ops[i].Do? then Exec(RunOps(log, ops[..i]), ops[i].job.cmd, ops[i].job.clock).0
            else RunOps(log, ops[..i])
    ensures Volume(JobsOf(ops[..i + 1])) ==
            Volume(JobsOf(ops[..i])) + if ops[i].Do? then Adds(ops[i].job.cmd) else 0
  {
    hide Exec, Adds;
    assert ops[..i + 1][..i] == ops[..i];
    if ops[i].Do? {
      assert (JobsOf(ops[..i]) + [ops[i].job])[..|JobsOf(ops[..i])|] == JobsOf(ops[..i]);
    } else {
      assert JobsOf(ops[..i]) + [] == JobsOf(ops[..i]);
    }
  }

  lemma {:induction false} OpsVolume(ops: seq<Op>, i: nat)
    requires i <= |ops|
    ensures Volume(JobsOf(ops[..i])) <= Volume(JobsOf(ops))
    decreases |ops| - i
  {
    hide Volume, JobsOf, Adds;
    if i < |ops| {
      OpsVolume(ops, i + 1);
      OpStep(ops, i, Fresh(0));
    } else {
      assert ops[..i] == ops;
    }
  }

  /** The chain of segment objects is the log `log`, byte for byte and entry for entry. */
  ghost predicate OneChain(segments: seq<Segment>, max: nat, log: Log)
    reads segments, set s: Segment | s in segments :: s.index
  {
    && |segments| == |log.segs| > 0 && segments[0].base == log.base
    && (forall i :: 0 <= i < |segments| - 1 ==> segments[i + 1].base == segments[i].next > segments[i].base)
    && forall i :: 0 <= i < |segments| ==>
         var s := segments[i];
         && s.recs == log.segs[i] && Numbered(s.base, s.recs) && s.next == s.base + |s.recs|
         && s.log.data == EncodeAll(s.recs) && s.index.entries == Dense(s.base, s.recs)
         && s.index.file.data == EncodeEntries(s.index.entries)
         && s.size == SizeOf(s.recs) <= max
  }

  lemma ChainOf(p: Partition)
    requires p.Valid() && Bounded(p.log)
    ensures OneChain(p.segments, p.max, p.log)
  {
    hide Flat, SizeOf, EncodeAll, EncodeEntries, Dense, IndexSound, Numbered, Segment.Lost;
    p.Basics();
    FirstBase(p.log);
    forall i | 0 <= i < |p.segments|
      ensures var s := p.segments[i];
              && s.recs == p.log.segs[i] && Numbered(s.base, s.recs) && s.next == s.base + |s.recs|
              && s.log.data == EncodeAll(s.recs) && s.index.entries == Dense(s.base, s.recs)
              && s.index.file.data == EncodeEntries(s.index.entries)
              && s.size == SizeOf(s.recs) <= p.max
              && s.base == BaseOf(p.log, i) && s.next == BaseOf(p.log, i + 1)
    {
      assert Matches(p.segments[i], p.log, i, p.gaps[i], false);
      FlatAt(p.log.segs, i);
      assert p.log.segs[i] in p.log.segs;
    }
    BasesIncrease(p.log);
  }

  /**
   * Whatever runs on a created partition - appends, batches, reads and fetches in any order - every
   * answer is that of the flat log, and the segments form that one log: each starts where the one
   * before it ends, holds exactly the bytes and the index entries of its records, and stays within
   * the limit.
   */
  method CreatedRunIsOneLog(max: nat, ops: seq<Op>) returns (p: Partition, answers: seq<Answer>)
    requires OpsInRange(ops) && Volume(JobsOf(ops)) < U64_LIMIT
    ensures fresh(p) && p.Valid() && p.log == RunOps(Fresh(max), ops) && OneChain(p.segments, max, p.log)
    ensures WellFormed(p.log) && Numbered(0, All(p.log))
    ensures |answers| == |ops|
    ensures forall i :: 0 <= i < |ops| ==> answers[i] == AnswerOf(RunOps(Fresh(max), ops[..i]), ops[i])
  {
    hide Partition.Sound, AnswerOf, RunOps, Volume, OpsInRange, JobsOf, WellFormed, Lists, OneChain, Numbered,
         NoGaps, Progress, All;
    NothingListed();
    p := new Partition.OpenOrCreate(map[], [], max, Fresh(max), []);
    p.Basics();
    answers := [];
    CreatedStart(max);
    for i := 0 to |ops|
      invariant fresh(p.Objects()) && p.Valid() && p.max == max && p.segments != [] && p.ActiveTail().append
      invariant Progress(p.log, max, ops[..i])
      invariant |answers| == i
      invariant forall j :: 0 <= j < i ==> answers[j] == AnswerOf(RunOps(Fresh(max), ops[..j]), ops[j])
    {
      var answer := CreatedRound(p, max, ops, i);
      answers := answers + [answer];
    }
    assert ops[..|ops|] == ops;
    CreatedEnd(p, max, ops);
  }

  /** The log of a created partition after these operations. */
  ghost predicate Progress(log: Log, max: nat, ops: seq<Op>)
  {
    log == RunOps(Fresh(max), ops) && Next(log) <= Volume(JobsOf(ops)) && Extends(Fresh(max), log)
  }

  method CreatedRound(p: Partition, max: nat, ops: seq<Op>, i: nat) returns (answer: Answer)
    requires i < |ops| && OpsInRange(ops) && Volume(JobsOf(ops)) < U64_LIMIT && Progress(p.log, max, ops[..i])
    requires p.Valid() && p.max == max && p.segments != [] && p.ActiveTail().append
    modifies p.Objects()
    ensures fresh(p.Objects() - old(p.Objects())) && Progress(p.log, max, ops[..i + 1])
    ensures p.Valid() && p.max == max && p.segments != [] && p.ActiveTail().append
    ensures answer == AnswerOf(RunOps(Fresh(max), ops[..i]), ops[i])
  {
    hide Partition.Sound, Exec, Next, AnswerOf, RunOps, Volume, InRange, OpsInRange, JobsOf, Extends, NoGaps;
    CreatedStep(p, max, ops, i);
    answer := Answered(p, ops[i]);
  }

  lemma NothingListed()
    ensures Lists([], map[])
  {
  }

  lemma CreatedStart(max: nat)
    ensures Progress(Fresh(max), max, [])
  {
    FreshLog(max);
  }

  lemma CreatedEnd(p: Partition, max: nat, ops: seq<Op>)
    requires p.Valid() && p.max == max && Progress(p.log, max, ops)
    ensures p.log == RunOps(Fresh(max), ops)
    ensures OneChain(p.segments, max, p.log) && WellFormed(p.log) && Numbered(0, All(p.log))
  {
    hide Partition.Sound, OneChain, Flat, RunOps, Volume;
    FreshLog(max);
    ChainOf(p);
  }

  lemma CreatedStep(p: Partition, max: nat, ops: seq<Op>, i: nat)
    requires p.Valid() && i < |ops| && OpsInRange(ops) && Volume(JobsOf(ops)) < U64_LIMIT
    requires p.log == RunOps(Fresh(max), ops[..i]) && Next(p.log) <= Volume(JobsOf(ops[..i]))
    requires Extends(Fresh(max), p.log)
    ensures p.log.segs != []
    ensures ops[i].Do? ==>
              var job := ops[i].job;
              var log' := Exec(p.log, job.cmd, job.clock).0;
              && InRange(job.cmd, job.clock) && Next(p.log) + Adds(job.cmd) < U64_LIMIT
              && Next(log') <= Volume(JobsOf(ops[..i + 1])) && Extends(Fresh(max), log')
    ensures RunOps(Fresh(max), ops[..i + 1]) ==
            if ops[i].Do? then Exec(p.log, ops[i].job.cmd, ops[i].job.clock).0 else p.log
    ensures !ops[i].Do? ==> Volume(JobsOf(ops[..i + 1])) == Volume(JobsOf(ops[..i]))
  {
    hide Partition.Sound, Exec, Flat, InRange, Volume, WellFormed, Bounded, RunOps, JobsOf;
    p.Basics();
    OpStep(ops, i, Fresh(max));
    OpsVolume(ops, i + 1);
    if ops[i].Do? {
      ExecAdds(p.log, ops[i].job.cmd, ops[i].job.clock);
      ExecExtends(p.log, ops[i].job.cmd, ops[i].job.clock);
    }
  }

  /** One operation on a partition whose active file is in append mode. */
  method Answered(p: Partition, op: Op) returns (answer: Answer)
    requires p.Valid() && p.segments != [] && p.ActiveTail().append
    requires op.Do? ==> InRange(op.job.cmd, op.job.clock) && Next(p.log) + Adds(op.job.cmd) < U64_LIMIT
    modifies p.Objects()
    ensures fresh(p.Objects() - old(p.Objects())) && p.Valid() && p.segments != [] && p.ActiveTail().append
    ensures old(p.log).segs != [] && answer == AnswerOf(old(p.log), op)
    ensures p.log == if op.Do? then Exec(old(p.log), op.job.cmd, op.job.clock).0 else old(p.log)
  {
    hide Partition.Sound, Exec, Next, SizeOf, InRange, CursorAfterRead, CursorAfterFetch;
    p.Basics();
    match op
    case Do(job) =>
      var reply := Serve(p, job.cmd, job.clock);
      answer := Replied(reply.value);
    case ReadOne(offset, short) =>
      assert forall s: Segment :: s in p.segments ==> s in old(p.Objects());
      var r := p.Read(offset, short);
      answer := Found(r);
  }

  // ---------- an index that lags behind the log ----------

  /** One call on a segment: `append` or `append_batch`, each reading its own clock. */
  datatype Call = One(payload: Payload, now: nat) | Many(payloads: seq<Payload>, now: nat)

  function Offered(call: Call): seq<Payload>
  {
    match call
    case One(p, _) => [p]
    case Many(ps, _) => ps
  }

  /** How many leading payloads fit one after the other behind `size` bytes. */
  function Room(size: nat, max: nat, ps: seq<Payload>): (k: nat)
    ensures k <= |ps|
  {
    if ps == [] then 0
    else
      var n := |ps| - 1;
      var k := Room(size, max, ps[..n]);
      if k == n && size + Total(ps) <= max then n + 1 else k
  }

  /** How many a segment takes: those for which there is room, but none if the next one is too large for any segment. */
  function Taken(size: nat, max: nat, ps: seq<Payload>): (k: nat)
    ensures k <= |ps|
  {
    var k := Room(size, max, ps);
    if k < |ps| && PayloadLen(ps[k]) > max then 0 else k
  }

  /** The records of a segment after the calls. */
  function AfterCalls(base: nat, rs: seq<Record>, max: nat, calls: seq<Call>): (all: seq<Record>)
    ensures rs <= all && |all| <= |rs| + Payloads(calls)
  {
    if calls == [] then rs
    else
      var before, call := AfterCalls(base, rs, max, calls[..|calls| - 1]), calls[|calls| - 1];
      before + RecordsOf(Offered(call)[..Taken(SizeOf(before), max, Offered(call))], base + |before|, call.now)
  }

  function Payloads(calls: seq<Call>): nat
  {
    if calls == [] then 0 else Payloads(calls[..|calls| - 1]) + |Offered(calls[|calls| - 1])|
  }

  ghost predicate CallsInRange(calls: seq<Call>)
  {
    forall c :: c in calls ==> CallInRange(c)
  }

  ghost predicate CallInRange(c: Call)
  {
    c.now < U64_LIMIT && forall i :: 0 <= i < |Offered(c)| ==> PayloadLen(Offered(c)[i]) < U32_LIMIT
  }

  lemma {:induction false} RoomIs(size: nat, max: nat, ps: seq<Payload>, k: nat)
    requires k <= |ps| && (k > 0 ==> size + Total(ps[..k]) <= max)
    requires k < |ps| ==> size + Total(ps[..k]) + PayloadLen(ps[k]) > max
    ensures Room(size, max, ps) == k
  {
    hide PayloadLen;
    if ps != [] {
      var n := |ps| - 1;
      if k == |ps| {
        assert ps[..k] == ps;
        assert ps[..n][..n] == ps[..n];
        RoomIs(size, max, ps[..n], n);
      } else {
        assert ps[..n][..k] == ps[..k];
        RoomIs(size, max, ps[..n], k);
      }
    }
  }

  /** The answer of a segment, as the number of payloads it took. */
  lemma TakenIs(size: nat, max: nat, ps: seq<Payload>, k: nat)
    requires k <= |ps| && (k > 0 ==> size + Total(ps[..k]) <= max)
    requires k < |ps| ==> PayloadLen(ps[k]) > max || size + Total(ps[..k]) + PayloadLen(ps[k]) > max
    ensures Taken(size, max, ps) == if k < |ps| && PayloadLen(ps[k]) > max then 0 else k
  {
    RoomIs(size, max, ps, k);
  }

  /**
   * A segment whose index file held only the first `k` of its records, then extended by any calls of
   * append and append_batch: a read gives the true record or nothing, and it gives nothing exactly
   * for the records the index had lost.
   */
  method ReadWithLaggingIndex(base: nat, max: nat, files: FilePair, ghost rs: seq<Record>, ghost k: nat,
                              calls: seq<Call>, offset: nat, short: nat)
    returns (r: Option<Record>)
    requires Recovers(base, files, rs) && 0 < k <= |rs| && !Unusable(files.index)
    requires Trusted(files.index) == Dense(base, rs)[..k]
    requires CallsInRange(calls) && base + |rs| + Payloads(calls) < U64_LIMIT
    ensures var all := AfterCalls(base, rs, max, calls);
            r == if base <= offset < base + k || base + |rs| <= offset < base + |all| then Some(all[offset - base])
                 else None
  {
    hide Recovers, Segment.Valid, Segment.Listed, Trusted, Dense, AfterCalls, Unusable, SizeOf;
    var s := LoadLagging(base, max, files, rs, k);
    MakeCalls(s, calls);
    CountsOf(s);
    WhatIsIndexed(s, offset);
    r := s.ReadAt(offset, short);
  }

  method LoadLagging(base: nat, max: nat, files: FilePair, ghost rs: seq<Record>, ghost k: nat) returns (s: Segment)
    requires Recovers(base, files, rs) && 0 < k <= |rs| && !Unusable(files.index)
    requires Trusted(files.index) == Dense(base, rs)[..k]
    ensures fresh(s) && fresh(s.index) && s.base == base && s.max == max
    ensures s.Valid() && s.log.AtEnd() && s.recs == rs && s.Listed() && s.gap == GapAfter(base, rs, k)
  {
    hide Recovers, Segment.Valid, Trusted, Dense, IndexSound, Unusable, ListedEntries;
    LaggingIsSound(base, rs, k);
    ListedPrefix(base, rs, k);
    s := LoadSegment(base, max, files, rs, GapAfter(base, rs, k));
  }

  /** Calls on a segment whose index has a gap: what they add is listed. */
  method MakeCalls(s: Segment, calls: seq<Call>)
    requires s.Valid() && s.log.AtEnd() && s.Listed()
    requires CallsInRange(calls) && s.base + |s.recs| + Payloads(calls) < U64_LIMIT
    modifies s, s.index
    ensures s.Valid() && s.Listed() && s.recs == AfterCalls(s.base, old(s.recs), s.max, calls)
  {
    hide Segment.Valid, Segment.Listed, SizeOf, AfterCalls, CallInRange, Payloads;
    ghost var rs := s.recs;
    NoCalls(s.base, rs, s.max);
    for i := 0 to |calls|
      invariant s.Valid() && s.log.AtEnd() && s.Listed() && rs <= s.recs
      invariant s.recs == AfterCalls(s.base, rs, s.max, calls[..i]) && |s.recs| <= |rs| + Payloads(calls[..i])
    {
      CallStep(s.base, rs, s.max, calls, i);
      PayloadsStep(calls, i);
      PayloadsGrow(calls, i + 1);
      MakeCall(s, calls[i]);
    }
    assert calls[..|calls|] == calls;
  }

  lemma NoCalls(base: nat, rs: seq<Record>, max: nat)
    ensures AfterCalls(base, rs, max, []) == rs && Payloads([]) == 0
  {
  }

  lemma CallStep(base: nat, rs: seq<Record>, max: nat, calls: seq<Call>, i: nat)
    requires i < |calls|
    ensures var before, ps := AfterCalls(base, rs, max, calls[..i]), Offered(calls[i]);
            AfterCalls(base, rs, max, calls[..i + 1]) ==
            before + RecordsOf(ps[..Taken(SizeOf(before), max, ps)], base + |before|, calls[i].now)
  {
    hide SizeOf, Taken, RecordsOf, Offered;
    assert calls[..i + 1][..i] == calls[..i];
  }

  lemma PayloadsStep(calls: seq<Call>, i: nat)
    requires i < |calls|
    ensures Payloads(calls[..i + 1]) == Payloads(calls[..i]) + |Offered(calls[i])|
  {
    hide Offered;
    assert calls[..i + 1][..i] == calls[..i];
  }

  lemma {:induction false} PayloadsGrow(calls: seq<Call>, i: nat)
    requires i <= |calls|
    ensures Payloads(calls[..i]) <= Payloads(calls)
    decreases |calls| - i
  {
    hide Payloads;
    if i < |calls| {
      PayloadsGrow(calls, i + 1);
      PayloadsStep(calls, i);
    } else {
      assert calls[..i] == calls;
    }
  }

  lemma TotalOfOne(p: Payload)
    ensures Total([p]) == PayloadLen(p) && Total([]) == 0
  {
    assert [p][..0] == [];
  }

  lemma OneTaken(rs: seq<Record>, next: nat, max: nat, p: Payload, now: nat, res: Result<nat>)
    requires res == if PayloadLen(p) > max then Err(MessageTooLarge)
                    else if rs != [] && SizeOf(rs) + PayloadLen(p) > max then Err(SegmentFull)
                    else Ok(next)
    ensures RecordsOf([p][..Taken(SizeOf(rs), max, [p])], next, now) == if res.Ok? then [RecordOf(p, next, now)] else []
  {
    hide SizeOf, Taken, RecordsOf, PayloadLen, Total;
    SizeIsZeroIffEmpty(rs);
    TotalOfOne(p);
    assert [p][..0] == [] && [p][..1] == [p];
    TakenIs(SizeOf(rs), max, [p], if res.Ok? then 1 else 0);
  }

  lemma ManyTaken(rs: seq<Record>, next: nat, max: nat, ps: seq<Payload>, now: nat, res: Result<(nat, nat)>)
    requires BatchAnswer(rs, next, max, ps, now, res)
    ensures Taken(SizeOf(rs), max, ps) == if res.Ok? then res.value.1 else 0
  {
    hide SizeOf, Taken, RecordsOf, PayloadLen, Total;
    match res
    case Ok((_, k)) =>
      TotalIsSize(ps[..k], next, now);
      TakenIs(SizeOf(rs), max, ps, k);
    case Err(MessageTooLarge) =>
      var j := FirstTooLarge(max, ps);
      TotalIsSize(ps[..j], next, now);
      TakenIs(SizeOf(rs), max, ps, j);
    case Err(SegmentFull) =>
      TotalOfOne(ps[0]);
      assert ps[..0] == [];
      TakenIs(SizeOf(rs), max, ps, 0);
  }

  /** One call: the segment grows by what it takes, and the index learns exactly that. */
  method MakeCall(s: Segment, call: Call)
    requires s.Valid() && s.log.AtEnd() && s.Listed()
    requires CallInRange(call) && s.base + |s.recs| + |Offered(call)| < U64_LIMIT
    modifies s, s.index
    ensures s.Valid() && s.log.AtEnd() && s.Listed()
    ensures var ps, rs := Offered(call), old(s.recs);
            s.recs == rs + RecordsOf(ps[..Taken(SizeOf(rs), s.max, ps)], s.base + |rs|, call.now)
  {
    match call
    case One(p, now) =>
      assert PayloadLen(Offered(call)[0]) < U32_LIMIT;
      MakeOne(s, p, now);
    case Many(ps, now) =>
      assert forall i :: 0 <= i < |ps| ==> PayloadLen(ps[i]) == PayloadLen(Offered(call)[i]);
      MakeMany(s, ps, now);
  }

  method MakeOne(s: Segment, p: Payload, now: nat)
    requires s.Valid() && s.log.AtEnd() && s.Listed()
    requires now < U64_LIMIT && PayloadLen(p) < U32_LIMIT && s.base + |s.recs| + 1 < U64_LIMIT
    modifies s, s.index
    ensures s.Valid() && s.log.AtEnd() && s.Listed()
    ensures var rs := old(s.recs);
            s.recs == rs + RecordsOf([p][..Taken(SizeOf(rs), s.max, [p])], s.base + |rs|, now)
  {
    hide Segment.Valid, Segment.Damaged, Segment.Listed, SizeOf, Taken, RecordsOf, PayloadLen, File.Write, Encode,
         Segment.Lost;
    CountsOf(s);
    ghost var rs := s.recs;
    var res := s.Append(p, now);
    OneTaken(rs, s.base + |rs|, s.max, p, now, res);
    assert rs + [] == rs;
  }

  method MakeMany(s: Segment, ps: seq<Payload>, now: nat)
    requires s.Valid() && s.log.AtEnd() && s.Listed()
    requires now < U64_LIMIT && s.base + |s.recs| + |ps| < U64_LIMIT
    requires forall i :: 0 <= i < |ps| ==> PayloadLen(ps[i]) < U32_LIMIT
    modifies s, s.index
    ensures s.Valid() && s.log.AtEnd() && s.Listed()
    ensures var rs := old(s.recs);
            s.recs == rs + RecordsOf(ps[..Taken(SizeOf(rs), s.max, ps)], s.base + |rs|, now)
  {
    hide Segment.Valid, Segment.Damaged, Segment.Listed, SizeOf, Taken, RecordsOf, PayloadLen, Dense, File.Write,
         EncodeAll, FirstTooLarge, Segment.Lost, BatchAnswer;
    CountsOf(s);
    ghost var rs := s.recs;
    var res := s.AppendBatch(ps, now);
    AnswerCount(rs, s.base + |rs|, s.max, ps, now, res);
    ManyTaken(rs, s.base + |rs|, s.max, ps, now, res);
    assert ps[..0] == [];
    assert rs + RecordsOf([], s.base + |rs|, now) == rs;
  }

  // ---------- what goes wrong otherwise ----------

  lemma LastSegmentHolds(log: Log, k: nat)
    requires log.segs != [] && k < |Last(log)|
    ensures var n := |log.segs| - 1;
            var o := BaseOf(log, n) + k;
            log.base <= o < Next(log) && SegmentAt(log.segs, o - log.base) == n
  {
    hide Flat, SegmentAt;
    LastBase(log);
    SegmentAtUnique(log.segs, |Flat(log.segs[..|log.segs| - 1])| + k, |log.segs| - 1);
  }

  /** A fetch of the last offset gives the last record. */
  lemma FetchLastRecord(log: Log, maxBytes: nat)
    requires log.segs != [] && Last(log) != [] && maxBytes > 0
    ensures Next(log) > 0 && Fetch(log, Next(log) - 1, maxBytes) == [Last(log)[|Last(log)| - 1]]
  {
    hide Flat, SegmentAt, Fetch, FetchOn, FirstRun, SizeOf, Run;
    var n, k := |log.segs| - 1, |Last(log)| - 1;
    var r := Last(log)[k];
    LastBase(log);
    LastSegmentHolds(log, k);
    FetchFirst(log, Next(log) - 1, maxBytes);
    assert Last(log)[k..] == [r];
    OneRun(r, maxBytes);
    NothingAfter(log.segs, maxBytes - Min(SizeOf([r]), maxBytes));
  }

  lemma OneRun(r: Record, budget: nat)
    ensures FirstRun([r], budget) == [r]
  {
    hide Whole;
  }

  lemma NothingAfter(segs: seq<seq<Record>>, budget: nat)
    ensures FetchOn(segs, |segs|, budget) == []
  {
  }

  /** A fetch from the start of a large last segment leaves the cursor at the end of the read buffer. */
  lemma CursorAtBuffer(log: Log, maxBytes: nat, cursor: nat)
    requires log.segs != [] && Last(log) != [] && 0 < maxBytes <= MIN_BATCH_READ
    requires Len(Last(log)[0]) <= MIN_BATCH_READ <= SizeOf(Last(log))
    ensures CursorAfterFetch(log, BaseOf(log, |log.segs| - 1), maxBytes, cursor) == MIN_BATCH_READ
  {
    hide Flat, SegmentAt, SizeOf;
    LastSegmentHolds(log, 0);
    assert Last(log)[..0] == [] && Last(log)[0..] == Last(log);
    SizeOfNone();
  }

  /** A fetch from the start of the last segment, a produce, and a fetch of the record that was produced. */
  function ReadWriteRead(log: Log, payload: Payload, m: nat, m': nat, clock: nat -> nat): seq<Job>
    requires log.segs != []
  {
    [Job(FetchFrom(BaseOf(log, |log.segs| - 1), m), clock), Job(Produce(payload), clock),
     Job(FetchFrom(Next(log), m'), clock)]
  }

  /** What the sequential log answers: the record is there. */
  lemma ReadWriteReadReplies(log: Log, payload: Payload, m: nat, m': nat, clock: nat -> nat)
    requires log.segs != [] && m' > 0 && PayloadLen(payload) <= log.max && FitsLast(log, PayloadLen(payload))
    ensures var jobs := ReadWriteRead(log, payload, m, m', clock);
            && ReplyTo(log, jobs, 1) == Assigned(Ok(Next(log)))
            && ReplyTo(log, jobs, 2) == Fetched([RecordOf(payload, Next(log), clock(|log.segs| - 1))])
            && RunJobs(log, jobs[..1]) == log
            && RunJobs(log, jobs[..2]) == Extend(log, [RecordOf(payload, Next(log), clock(|log.segs| - 1))])
  {
    hide Exec, Next, SizeOf, PayloadLen, FitsLast, RecordOf, Extend, ReplyTo, RunJobs;
    var jobs, r := ReadWriteRead(log, payload, m, m', clock), RecordOf(payload, Next(log), clock(|log.segs| - 1));
    RunNothing(log, jobs);
    RunStep(log, jobs, 0);
    RunStep(log, jobs, 1);
    RunStep(log, jobs, 2);
    ExecFetch(log, BaseOf(log, |log.segs| - 1), m, clock);
    ExecProduce(log, payload, clock);
    ExtendParts(log, [r]);
    ExtendFlat(log, [r]);
    ExecFetch(Extend(log, [r]), Next(log), m', clock);
    FetchLastRecord(Extend(log, [r]), m');
  }

  lemma RunNothing(log: Log, jobs: seq<Job>)
    requires log.segs != []
    ensures RunJobs(log, jobs[..0]) == log
  {
  }

  lemma ExecFetch(log: Log, offset: nat, maxBytes: nat, clock: nat -> nat)
    requires log.segs != []
    ensures Exec(log, FetchFrom(offset, maxBytes), clock) == (log, Fetched(Fetch(log, offset, maxBytes)))
  {
    hide Fetch;
  }

  lemma ExecProduce(log: Log, p: Payload, clock: nat -> nat)
    requires log.segs != [] && PayloadLen(p) <= log.max && FitsLast(log, PayloadLen(p))
    ensures Exec(log, Produce(p), clock) ==
            (Extend(log, [RecordOf(p, Next(log), clock(|log.segs| - 1))]), Assigned(Ok(Next(log))))
  {
    hide SizeOf, Flat, Extend, RecordOf;
  }

  /**
   * On a reopened partition whose last segment is larger than the read buffer, a fetch followed by a
   * produce loses an acknowledged record: the produce is answered with the next offset, and a fetch
   * of that offset then finds nothing, where the sequential log has the record.
   */
  method LosesAcknowledged(p: Partition, payload: Payload, m: nat, m': nat, clock: nat -> nat)
    returns (replies: seq<Reply>)
    requires p.Valid() && !p.ActiveTail().append && 0 < m <= MIN_BATCH_READ && m' > 0
    requires |Last(p.log)| > 1 && Len(Last(p.log)[0]) <= MIN_BATCH_READ
    requires MIN_BATCH_READ + PayloadLen(payload) <= SizeOf(Last(p.log))
    requires SizeOf(Last(p.log)) + PayloadLen(payload) <= p.max
    requires InRange(Produce(payload), clock) && Next(p.log) + 1 < U64_LIMIT
    modifies p.Objects()
    ensures old(p.log).segs != []
    ensures var o, jobs := Next(old(p.log)), ReadWriteRead(old(p.log), payload, m, m', clock);
            && |replies| == 3 && replies[0] == ReplyTo(old(p.log), jobs, 0)
            && replies[1] == Assigned(Ok(o)) == ReplyTo(old(p.log), jobs, 1)
            && replies[2] == Fetched([])
            && ReplyTo(old(p.log), jobs, 2) == Fetched([RecordOf(payload, o, clock(|old(p.log).segs| - 1))])
  {
    hide Partition.Sound, Next, Exec, SizeOf, PayloadLen, ReplyTo, RunJobs, Extend, RecordOf, Len, Ticks, FitsLast,
         Fetch, BaseOf, NoGaps, GapsKept;
    p.Basics();
    ghost var start, jobs := p.log, ReadWriteRead(p.log, payload, m, m', clock);
    FitsInLast(start, payload);
    ReadWriteReadReplies(start, payload, m, m', clock);
    RunNothing(start, jobs);
    RunStep(start, jobs, 0);
    ExecFetch(start, BaseOf(start, |start.segs| - 1), m, clock);
    ExtendFlat(start, [RecordOf(payload, Next(start), clock(|start.segs| - 1))]);
    ExtendParts(start, [RecordOf(payload, Next(start), clock(|start.segs| - 1))]);
    var first, second := ReadThenAppend(p, payload, m, clock);
    EndsAt(p.log);
    NothingAtEnd(p.log, m');
    ExecFetch(p.log, second.offset.value, m', clock);
    var third := Serve(p, FetchFrom(second.offset.value, m'), clock);
    replies := [first, second, third.value];
  }

  lemma NothingAtEnd(log: Log, maxBytes: nat)
    ensures Fetch(log, Next(log), maxBytes) == []
  {
  }

  lemma FitsInLast(log: Log, p: Payload)
    requires log.segs != [] && SizeOf(Last(log)) + PayloadLen(p) <= log.max
    ensures PayloadLen(p) <= log.max && FitsLast(log, PayloadLen(p))
  {
  }

  /** The fetch leaves the cursor inside the file, and the produce then writes its record there. */
  method ReadThenAppend(p: Partition, payload: Payload, m: nat, clock: nat -> nat) returns (first: Reply, second: Reply)
    requires p.Valid() && !p.ActiveTail().append && 0 < m <= MIN_BATCH_READ
    requires |Last(p.log)| > 1 && Len(Last(p.log)[0]) <= MIN_BATCH_READ
    requires MIN_BATCH_READ + PayloadLen(payload) <= SizeOf(Last(p.log))
    requires SizeOf(Last(p.log)) + PayloadLen(payload) <= p.max
    requires InRange(Produce(payload), clock) && Next(p.log) + 1 < U64_LIMIT
    modifies p.Objects()
    ensures fresh(p.Objects() - old(p.Objects())) && old(p.log).segs != []
    ensures first == Fetched(Fetch(old(p.log), BaseOf(old(p.log), |old(p.log).segs| - 1), m))
    ensures second == Assigned(Ok(Next(old(p.log))))
    ensures p.log == Extend(old(p.log), [RecordOf(payload, Next(old(p.log)), clock(|old(p.log).segs| - 1))])
    ensures p.Sound() && p.damaged == |p.log.segs| - 1 && p.lost.Has(Next(old(p.log)))
  {
    hide Partition.Sound, Next, Exec, SizeOf, PayloadLen, CursorAfterFetch, Extend, RecordOf, Len, Ticks, FitsLast,
         Misplaces, TailAfter, Fetch, Redirect, BaseOf;
    p.Basics();
    ghost var start, f := p.log, p.ActiveTail();
    p.BasesAre();
    var base := p.segments[|p.segments| - 1].base;
    FitsInLast(start, payload);
    ExecFetch(start, base, m, clock);
    ExecProduce(start, payload, clock);
    ExtendParts(start, [RecordOf(payload, Next(start), clock(|start.segs| - 1))]);
    InsideTheFile(start, payload, m, clock, f);
    NothingRedirected(start, p.gaps, FetchFrom(base, m));
    var reply := Serve(p, FetchFrom(base, m), clock);
    p.Basics();
    WritesAreKept(start, p.gaps, payload);
    first := reply.value;
    reply := Serve(p, Produce(payload), clock);
    second := reply.value;
  }

  lemma WritesAreKept(log: Log, gaps: seq<Span>, p: Payload)
    requires |gaps| == |log.segs|
    ensures Redirect(log, gaps, Produce(p)) == Produce(p)
  {
  }

  lemma InsideTheFile(log: Log, payload: Payload, m: nat, clock: nat -> nat, f: Tail)
    requires log.segs != [] && |Last(log)| > 1 && 0 < m <= MIN_BATCH_READ && !f.append
    requires Len(Last(log)[0]) <= MIN_BATCH_READ && MIN_BATCH_READ + PayloadLen(payload) <= SizeOf(Last(log))
    requires PayloadLen(payload) <= log.max && FitsLast(log, PayloadLen(payload))
    ensures var fetch := FetchFrom(BaseOf(log, |log.segs| - 1), m);
            var g := TailAfter(log, fetch, clock, f);
            && !Misplaces(log, fetch, f) && g == Tail(false, MIN_BATCH_READ)
            && Misplaces(log, Produce(payload), g)
  {
    hide SizeOf, Flat, FitsLast, CursorAfterFetch;
    CursorAtBuffer(log, m, f.cursor);
  }

  function Zeros(n: nat): (bs: seq<Byte>)
    ensures |bs| == n
  {
    seq(n, i => 0)
  }

  lemma SizeOfTwo(rs: seq<Record>)
    requires |rs| == 2
    ensures SizeOf(rs) == Len(rs[0]) + Len(rs[1])
  {
    assert rs == [rs[0]] + [rs[1]];
    EncodeAllConcat([rs[0]], [rs[1]]);
    EncodeAllOne(rs[0]);
    EncodeAllOne(rs[1]);
  }

  lemma OneSegment(max: nat, rs: seq<Record>)
    requires Numbered(0, rs)
    ensures var log := Log(0, max, [rs]); WellFormed(log) && BaseOf(log, 0) == 0 && Next(log) == |rs|
  {
    hide Flat;
    FlatSnoc([], rs);
    assert [] + [rs] == [rs] && [rs][..0] == [];
    FlatOfNone();
  }

  lemma OneSegmentStores(dir: map<nat, FilePair>, max: nat, rs: seq<Record>)
    requires AllStorable(rs) && Numbered(0, rs) && dir == map[0 := FilePair(EncodeAll(rs), None)]
    ensures Stores(dir, Log(0, max, [rs]), [NO_GAP]) && Lists([0], dir)
  {
    hide Recovers, EncodeAll, BaseOf;
    OneSegment(max, rs);
    WholeLogRecovers(0, rs, None);
    assert StoresSegment(dir, Log(0, max, [rs]), 0, NO_GAP);
  }

  /** Such a directory exists: two records of 600 kB, with room for a third of 28 bytes, which is lost. */
  method LostRecord() returns (replies: seq<Reply>)
    ensures |replies| == 3 && replies[1] == Assigned(Ok(2)) && replies[2] == Fetched([])
  {
    hide Partition.Sound, SizeOf, EncodeAll, Stores, Lists, ReplyTo;
    var rs := [Record(0, 0, None, Some(Zeros(600_000))), Record(1, 0, None, Some(Zeros(600_000)))];
    var dir := map[0 := FilePair(EncodeAll(rs), None)];
    ghost var log := Log(0, 2_000_000, [rs]);
    SizeOfTwo(rs);
    OneSegment(2_000_000, rs);
    OneSegmentStores(dir, 2_000_000, rs);
    assert dir != map[] by { assert 0 in dir; }
    var p := new Partition.OpenOrCreate(dir, [0], 2_000_000, log, [NO_GAP]);
    p.Basics();
    replies := LosesAcknowledged(p, ValueOnly([]), 1024, 1024, i => 0);
  }
}
