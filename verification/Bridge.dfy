/** The partition objects give the actors of a run exactly the logs and the replies that the run records. */
module Bridge {
  import opened Bytes
  import opened Records
  import opened LogSpec
  import opened AppendTheorems
  import opened Cursors
  import opened Segments
  import opened Staging
  import opened Partitions
  import opened Recovery
  import B = Broker
  import L = Linearizability

  /** The files that opening partition `k` finds: none if it is created, else those of its log. */
  ghost predicate FilesOf(cfg: B.Config, k: B.Key, dir: map<nat, FilePair>, gaps: seq<Span>)
  {
    if cfg.created(k) then dir == map[] else dir != map[] && Stores(dir, cfg.disk(k), gaps) && NoGaps(gaps)
  }

  /** The first `m` jobs that actor `a` has done. */
  function DoneBy(s: B.State, a: nat, m: nat): seq<Job>
    requires a < |s.actors| && m <= |s.actors[a].served|
  {
    B.Jobs(s.actors[a].served)[..m]
  }

  /** Nothing of a run outside the ranges of the formats: offsets, times and payload sizes. */
  ghost predicate WithinRanges(start: Log, jobs: seq<Job>)
  {
    AllInRange(jobs) && Next(start) + Volume(jobs) < U64_LIMIT
  }

  method OpenFor(x: L.Execution, k: B.Key, dir: map<nat, FilePair>, listing: seq<nat>, ghost gaps: seq<Span>)
    returns (p: Partition)
    requires L.IsRun(x) && FilesOf(x.cfg, k, dir, gaps) && Lists(listing, dir)
    ensures fresh(p) && fresh(p.Objects()) && p.Valid() && p.segments != []
    ensures p.log == x.cfg.disk(k) && p.log.segs != []
    ensures p.ActiveTail() == B.OpenTail(x.cfg, k)
  {
    hide Partition.Sound, L.IsRun, WellFormed, Stores, NoGaps, Lists, SizeOf, Timely;
    DiskOf(x, k);
    p := new Partition.OpenOrCreate(dir, listing, x.cfg.disk(k).max, x.cfg.disk(k), gaps);
    p.Basics();
  }

  lemma DiskOf(x: L.Execution, k: B.Key)
    requires L.IsRun(x)
    ensures WellFormed(x.cfg.disk(k)) && x.cfg.disk(k).segs != []
    ensures x.cfg.created(k) ==> x.cfg.disk(k) == Fresh(x.cfg.disk(k).max)
  {
    assert B.GoodDisk(x.cfg, k);
  }

  /**
   * For every actor of every run: opening its partition and running the actor loop on the jobs it has
   * done gives exactly the replies the run records to every write, and to every fetch before which no
   * job was misplaced, and leaves the log the run records. The files are intact exactly if the run has
   * not marked the actor as hurt. The loop can end early only in a fetch after a misplaced job.
   */
  method StorageAnswers(x: L.Execution, i: nat, a: nat, m: nat, dir: map<nat, FilePair>, listing: seq<nat>,
                        ghost gaps: seq<Span>)
    returns (p: Partition, replies: seq<Reply>)
    requires L.IsRun(x) && i < |x.states| && a < |x.states[i].actors| && m <= |x.states[i].actors[a].served|
    requires FilesOf(x.cfg, x.states[i].actors[a].key, dir, gaps) && Lists(listing, dir)
    requires WithinRanges(x.cfg.disk(x.states[i].actors[a].key), DoneBy(x.states[i], a, m))
    ensures fresh(p) && |replies| <= m && x.cfg.disk(x.states[i].actors[a].key).segs != []
    ensures |replies| < m ==>
              && x.states[i].actors[a].served[|replies|].job.cmd.FetchFrom?
              && !IntactFor(x, i, a, |replies|)
    ensures forall n :: 0 <= n < |replies| ==>
                          var done := x.states[i].actors[a].served[n];
                          !done.job.cmd.FetchFrom? || IntactFor(x, i, a, n) ==> replies[n] == done.reply
    ensures p.log == RunJobs(x.cfg.disk(x.states[i].actors[a].key), DoneBy(x.states[i], a, |replies|))
    ensures |replies| == |x.states[i].actors[a].served| ==>
              && p.log == x.states[i].actors[a].log
              && (p.Valid() <==> !x.states[i].actors[a].hurt)
              && (p.Valid() ==> p.segments != [] && p.ActiveTail() == x.states[i].actors[a].tail)
  {
    hide Partition.Sound, L.IsRun, FilesOf, Lists, AllInRange, RunJobs, RunTail, NeverMisplaced, ReplyTo, Volume,
         B.OpenTail, Next;
    var s := x.states[i];
    var k, jobs := s.actors[a].key, DoneBy(s, a, m);
    p := OpenFor(x, k, dir, listing, gaps);
    replies := ActorLoop(p, jobs);
    RecordedReplies(x, i, a, m);
    assert jobs[..|replies|] == DoneBy(s, a, |replies|);
    forall n | 0 <= n < |replies|
      ensures jobs[..n] == DoneBy(s, a, n) && RightReply(x.cfg.disk(k), B.OpenTail(x.cfg, k), jobs, n, replies[n])
    {
    }
    if |replies| == |s.actors[a].served| {
      assert jobs == B.Jobs(s.actors[a].served);
    }
  }

  /** None of the first `n` jobs of actor `a` was written behind a moved cursor. */
  ghost predicate IntactFor(x: L.Execution, i: nat, a: nat, n: nat)
    requires i < |x.states| && a < |x.states[i].actors| && n <= |x.states[i].actors[a].served|
    requires x.cfg.disk(x.states[i].actors[a].key).segs != []
  {
    var k := x.states[i].actors[a].key;
    NeverMisplaced(x.cfg.disk(k), B.OpenTail(x.cfg, k), DoneBy(x.states[i], a, n))
  }

  /** The replies that the run records to the first `m` jobs of an actor are those of the sequential log. */
  lemma RecordedReplies(x: L.Execution, i: nat, a: nat, m: nat)
    requires L.IsRun(x) && i < |x.states| && a < |x.states[i].actors| && m <= |x.states[i].actors[a].served|
    ensures x.cfg.disk(x.states[i].actors[a].key).segs != []
    ensures var actor := x.states[i].actors[a];
            var start, f, jobs := x.cfg.disk(actor.key), B.OpenTail(x.cfg, actor.key), B.Jobs(actor.served);
            && (forall n :: 0 <= n < m ==> RightReply(start, f, DoneBy(x.states[i], a, m), n, actor.served[n].reply))
            && actor.log == RunJobs(start, jobs) && actor.tail == RunTail(start, f, jobs)
            && (actor.hurt <==> !NeverMisplaced(start, f, jobs))
  {
    hide L.IsRun, RunJobs, RunTail, NeverMisplaced, ReplyTo, B.OpenTail, B.Orderly;
    L.RunInv(x, i);
    var actor := x.states[i].actors[a];
    assert B.ActorOk(x.cfg, actor);
    DiskOf(x, actor.key);
    var start, f, jobs := x.cfg.disk(actor.key), B.OpenTail(x.cfg, actor.key), B.Jobs(actor.served);
    forall n | 0 <= n < m
      ensures RightReply(start, f, jobs[..m], n, actor.served[n].reply)
    {
      assert jobs[..m][..n] == jobs[..n];
      ReplyPrefix(start, jobs, m, n);
    }
  }
}
