/** Every interleaving of handlers and actors answers as if each partition ran its commands one at a time. */
module Linearizability {
  import opened Bytes
  import opened Records
  import opened LogSpec
  import opened AppendTheorems
  import opened Cursors
  import FetchTheorems
  import opened Broker

  /** A run of the broker from a registry loaded with some partitions, taking any steps in any order. */
  datatype Execution = Execution(cfg: Config, keys: seq<Key>, steps: seq<Step>, states: seq<State>)

  ghost predicate IsRun(x: Execution)
  {
    && GoodConfig(x.cfg) && (forall k :: k in x.keys ==> x.cfg.disk(k).segs != [])
    && (forall i, j :: 0 <= i < j < |x.keys| ==> x.keys[i] != x.keys[j])
    && |x.states| == |x.steps| + 1
    && x.states[0] == Loaded(x.cfg, x.keys)
    && forall i :: 0 <= i < |x.steps| ==> Takes(x.cfg, x.states[i], x.steps[i], x.states[i + 1])
  }

  lemma {:induction false} RunInv(x: Execution, i: nat)
    requires IsRun(x) && i < |x.states|
    ensures Inv(x.cfg, x.states[i])
  {
    hide Inv, Takes, Loaded, GoodConfig;
    if i == 0 {
      LoadedInv(x.cfg, x.keys);
    } else {
      RunInv(x, i - 1);
      StepKeeps(x.cfg, x.states[i - 1], x.steps[i - 1], x.states[i]);
    }
  }

  // ---------- what never changes once it is there ----------

  /** Bindings, histories and answers are only ever added to. */
  ghost predicate Later(s: State, s': State)
  {
    && ActorsGrown(s, s')
    && (forall k :: k in s.registry ==> k in s'.registry && s'.registry[k] == s.registry[k])
    && forall t :: t in s.tasks && s.tasks[t].Answered? ==> t in s'.tasks && s'.tasks[t] == s.tasks[t]
  }

  lemma StepIsLater(cfg: Config, s: State, step: Step, s': State)
    requires Inv(cfg, s) && Takes(cfg, s, step, s')
    ensures Later(s, s')
  {
    hide ActorOk, Exec, ReplyOk, LetterOk, RegistryOk;
    if step.Insert? {
      assert TaskOk(s, step.task);
    }
  }

  lemma LaterTransitive(s: State, s': State, s'': State)
    requires Later(s, s') && Later(s', s'')
    ensures Later(s, s'')
  {
    forall a | 0 <= a < |s.actors|
      ensures Grown(s.actors[a], s''.actors[a])
    {
      assert Grown(s.actors[a], s'.actors[a]) && Grown(s'.actors[a], s''.actors[a]);
    }
  }

  /** In particular a partition, once bound to an actor, stays bound to it. */
  lemma {:induction false} RunIsLater(x: Execution, i: nat, j: nat)
    requires IsRun(x) && i <= j < |x.states|
    ensures Later(x.states[i], x.states[j])
    decreases j
  {
    hide Inv, Takes, Loaded, GoodConfig;
    if i < j {
      RunIsLater(x, i, j - 1);
      RunInv(x, j - 1);
      StepIsLater(x.cfg, x.states[j - 1], x.steps[j - 1], x.states[j]);
      LaterTransitive(x.states[i], x.states[j - 1], x.states[j]);
    } else {
      LaterSelf(x.states[i]);
    }
  }

  lemma LaterSelf(s: State)
    ensures Later(s, s)
  {
  }

  /** Only a produce creates a partition, and it does so only while none is registered. */
  lemma OnlyProducesCreate(x: Execution, i: nat)
    requires IsRun(x) && i < |x.steps| && |x.states[i].actors| < |x.states[i + 1].actors|
    ensures x.steps[i].Spawn?
    ensures var s, t := x.states[i], x.steps[i].task;
            && t in s.tasks && !s.tasks[t].cmd.FetchFrom? && s.tasks[t].key !in s.registry
            && x.states[i + 1].actors[|s.actors|].key == s.tasks[t].key
            && x.states[i + 1].actors[|s.actors|].log == x.cfg.disk(s.tasks[t].key)
            && forall a :: 0 <= a < |s.actors| ==> s.actors[a].key != s.tasks[t].key
  {
    hide ActorOk, LetterOk, ReplyOk, Loaded, GoodConfig, Exec;
    var s, s', step := x.states[i], x.states[i + 1], x.steps[i];
    assert Takes(x.cfg, s, step, s');
    RunInv(x, i);
    RunInv(x, i + 1);
    assert TaskOk(s, step.task);
    forall a | 0 <= a < |s.actors|
      ensures s.actors[a].key != s.tasks[step.task].key
    {
      if s.actors[a].key == s.tasks[step.task].key {
        OneActorPerPartition(x.cfg, s', a, |s.actors|);
      }
    }
  }

  // ---------- linearizability ----------

  /** The jobs that the actor of this task has done so far, in the order their letters were accepted. */
  ghost function History(s: State, t: nat): seq<Job>
    requires t in s.tasks && s.tasks[t].Answered? && s.tasks[t].actor < |s.actors|
  {
    Jobs(s.actors[s.tasks[t].actor].served)
  }

  /** No job that the partition did before this task's was written behind a moved cursor. */
  ghost predicate Intact(cfg: Config, s: State, t: nat)
    requires t in s.tasks && s.tasks[t].Answered? && s.tasks[t].actor < |s.actors|
  {
    var k := s.tasks[t].key;
    && cfg.disk(k).segs != [] && s.tasks[t].ticket <= |History(s, t)|
    && NeverMisplaced(cfg.disk(k), OpenTail(cfg, k), History(s, t)[..s.tasks[t].ticket])
  }

  /**
   * In every reachable state every answer is the one that the sequential log gives when the commands
   * of that partition are run one at a time in the order its mailbox accepted them. For a fetch this
   * needs that no earlier one of them was written behind a moved cursor.
   */
  lemma Linearizable(x: Execution, i: nat, t: nat)
    requires IsRun(x) && i < |x.states| && t in x.states[i].tasks && x.states[i].tasks[t].Answered?
    ensures var s, task := x.states[i], x.states[i].tasks[t];
            && task.actor < |s.actors| && s.actors[task.actor].key == task.key
            && var actor, jobs, start := s.actors[task.actor], History(s, t), x.cfg.disk(task.key);
               && task.ticket < |jobs| <= |actor.sent|
               && (forall k :: 0 <= k < |jobs| ==> jobs[k].cmd == actor.sent[k].cmd)
               && (forall k :: 0 <= k < |jobs| ==> Ticks(jobs[k].clock))
               && jobs[task.ticket].cmd == task.cmd
               && start.segs != []
               && (!task.cmd.FetchFrom? || Intact(x.cfg, s, t) ==> task.reply == ReplyTo(start, jobs, task.ticket))
               && (task.cmd.FetchFrom? ==> task.reply.Fetched?)
  {
    hide ReplyTo, RunJobs, RunTail, NeverMisplaced, IsRun, RegistryOk, LetterOk, ReplyOk, Ticks, OpenTail;
    RunInv(x, i);
    assert TaskOk(x.states[i], t);
    var a, k := x.states[i].actors[x.states[i].tasks[t].actor], x.states[i].tasks[t].ticket;
    assert ActorOk(x.cfg, a);
    assert RightReply(x.cfg.disk(a.key), OpenTail(x.cfg, a.key), Jobs(a.served), k, a.served[k].reply);
    FetchIsFetched(x.cfg.disk(a.key), Jobs(a.served), k);
  }

  lemma FetchIsFetched(log: Log, jobs: seq<Job>, k: nat)
    requires log.segs != [] && k < |jobs|
    ensures jobs[k].cmd.FetchFrom? ==> ReplyTo(log, jobs, k).Fetched?
  {
    hide RunJobs, Fetch;
  }

  /**
   * A partition that the broker created is always intact. So is one that was loaded with segments
   * within one read buffer, and one on which nothing was written after a fetch.
   */
  lemma IntactWhen(x: Execution, i: nat, t: nat)
    requires IsRun(x) && i < |x.states| && t in x.states[i].tasks && x.states[i].tasks[t].Answered?
    requires var s, k := x.states[i], x.states[i].tasks[t].key;
             || x.cfg.created(k)
             || (x.cfg.disk(k).max <= MIN_BATCH_READ && Bounded(x.cfg.disk(k)))
             || (s.tasks[t].actor < |s.actors| && WritesFirst(History(s, t)))
    ensures x.states[i].tasks[t].actor < |x.states[i].actors| && Intact(x.cfg, x.states[i], t)
  {
    hide IsRun, WellFormed, Bounded, NeverMisplaced, WritesFirst, SizeOf, Ticks, ReplyTo, Timely;
    Linearizable(x, i, t);
    var s, k := x.states[i], x.states[i].tasks[t].key;
    var start, f, jobs := x.cfg.disk(k), OpenTail(x.cfg, k), History(s, t);
    StartIsFine(x, k);
    OpensAtEnd(x.cfg, k);
    if x.cfg.created(k) {
      AppendModeIsSafe(start, f, jobs);
    } else if start.max <= MIN_BATCH_READ && Bounded(start) {
      SmallSegmentsAreSafe(start, f, jobs);
    } else {
      WritesFirstIsSafe(start, f, jobs);
    }
    MisplacedPrefix(start, f, jobs, s.tasks[t].ticket);
  }

  lemma OpensAtEnd(cfg: Config, k: Key)
    requires cfg.disk(k).segs != []
    ensures AtEnd(cfg.disk(k), OpenTail(cfg, k)) && (cfg.created(k) ==> OpenTail(cfg, k).append)
  {
    hide SizeOf;
  }

  /** A task that has not put its letter into the mailbox yet. */
  predicate NotSent(s: State, t: nat)
  {
    t !in s.tasks || !(s.tasks[t].Waiting? || s.tasks[t].Answered?)
  }

  /**
   * The order of the sequential run respects real time: what was answered before another letter was
   * sent comes first.
   */
  lemma RealTimeOrder(x: Execution, i: nat, j: nat, t: nat, u: nat)
    requires IsRun(x) && i <= j < |x.states|
    requires t in x.states[i].tasks && x.states[i].tasks[t].Answered? && NotSent(x.states[i], u)
    requires u in x.states[j].tasks && x.states[j].tasks[u].Answered?
    requires x.states[i].tasks[t].key == x.states[j].tasks[u].key
    ensures t in x.states[j].tasks && x.states[j].tasks[t] == x.states[i].tasks[t]
    ensures x.states[j].tasks[t].actor == x.states[j].tasks[u].actor
    ensures x.states[j].tasks[t].ticket < x.states[j].tasks[u].ticket
  {
    hide ActorOk, RegistryOk, IsRun, ReplyOk;
    var s, s' := x.states[i], x.states[j];
    RunInv(x, i);
    RunInv(x, j);
    RunIsLater(x, i, j);
    assert TaskOk(s, t) && TaskOk(s', t) && TaskOk(s', u);
    OneActorPerPartition(x.cfg, s', s'.tasks[t].actor, s'.tasks[u].actor);
    var a, k := s'.tasks[u].actor, s'.tasks[u].ticket;
    assert Grown(s.actors[a], s'.actors[a]);
    if k < |s.actors[a].sent| {
      assert LetterOk(s, a, k);
    }
    assert ActorOk(x.cfg, s.actors[a]);
    ServedWereSent(x.cfg, s.actors[a]);
  }

  lemma ServedWereSent(cfg: Config, a: Actor)
    requires ActorOk(cfg, a)
    ensures |a.served| <= |a.sent|
  {
  }

  // ---------- what a successful produce leaves in the log ----------

  /** The payloads that a command appends. */
  function Payloads(cmd: Command): seq<Payload>
  {
    match cmd
    case Produce(p) => [p]
    case ProduceBatch(vs) => ValuesOnly(vs)
    case FetchFrom(_, _) => []
  }

  lemma AcknowledgedIsAppended(log: Log, cmd: Command, clock: nat -> nat)
    requires WellFormed(log)
    requires Exec(log, cmd, clock).1.Assigned? && Exec(log, cmd, clock).1.offset.Ok?
    ensures var (log', reply) := Exec(log, cmd, clock);
            reply.offset.value == Next(log) && Grew(log, log', Payloads(cmd))
  {
    hide Flat, Place, PlaceAll, LogSpec.AppendBatch, WellFormed, Bounded, Grew;
    NonEmpty(log);
    match cmd
    case Produce(p) => PlaceGrows(log, p, clock);
    case ProduceBatch(vs) => AppendBatchMeaning(log, ValuesOnly(vs), clock);
    case FetchFrom(_, _) =>
  }

  lemma RunOrder(start: Log, jobs: seq<Job>, k: nat, m: nat)
    requires WellFormed(start) && k <= m <= |jobs|
    ensures start.segs != []
    ensures Extends(RunJobs(start, jobs[..k]), RunJobs(start, jobs[..m]))
    ensures WellFormed(RunJobs(start, jobs[..k])) && WellFormed(RunJobs(start, jobs[..m]))
    ensures RunJobs(start, jobs[..k]).base == start.base && RunJobs(start, jobs[..m]).base == start.base
  {
    hide RunJobs, WellFormed, Bounded, Flat;
    NonEmpty(start);
    RunExtends(start, jobs[..m], k);
    RunExtends(start, jobs[..k], k);
    assert jobs[..m][..k] == jobs[..k];
  }

  ghost predicate Acknowledged(reply: Reply) { reply.Assigned? && reply.offset.Ok? }

  /** Every later log of the run holds the acknowledged payloads at their offsets. */
  lemma AcknowledgedStays(start: Log, jobs: seq<Job>, k: nat, m: nat)
    requires WellFormed(start) && k < m <= |jobs|
    requires start.segs != [] && Acknowledged(ReplyTo(start, jobs, k))
    ensures var o, ps, log := ReplyTo(start, jobs, k).offset.value, Payloads(jobs[k].cmd), RunJobs(start, jobs[..m]);
            && log.base <= o && o + |ps| <= Next(log)
            && forall n :: 0 <= n < |ps| ==> Carries(All(log)[o - log.base + n], ps[n])
  {
    hide RunJobs, WellFormed, Bounded, Flat, Exec, Payloads, Carries;
    var before, after, log := RunJobs(start, jobs[..k]), RunJobs(start, jobs[..k + 1]), RunJobs(start, jobs[..m]);
    RunOrder(start, jobs, k, k + 1);
    RunOrder(start, jobs, k + 1, m);
    RunStep(start, jobs, k);
    AcknowledgedIsAppended(before, jobs[k].cmd, jobs[k].clock);
  }

  /** The time at which job `k` wrote the record at this place of the flat log. */
  ghost function TimeOf(start: Log, jobs: seq<Job>, k: nat, p: nat): nat
    requires start.segs != [] && k < |jobs| && p < |All(RunJobs(start, jobs[..k + 1]))|
  {
    jobs[k].clock(SegmentAt(RunJobs(start, jobs[..k + 1]).segs, p))
  }

  /** Every later log of the run holds the acknowledged payloads with the times at which they were written. */
  lemma AcknowledgedTime(start: Log, jobs: seq<Job>, k: nat, m: nat, n: nat)
    requires WellFormed(start) && k < m <= |jobs| && n < |Payloads(jobs[k].cmd)|
    requires start.segs != [] && Acknowledged(ReplyTo(start, jobs, k))
    ensures var log := RunJobs(start, jobs[..m]);
            var p := ReplyTo(start, jobs, k).offset.value + n - log.base;
            && 0 <= p < |All(RunJobs(start, jobs[..k + 1]))| && p < |All(log)|
            && All(log)[p].timestamp == TimeOf(start, jobs, k, p)
  {
    hide RunJobs, WellFormed, Bounded, Flat, Exec, Payloads, Carries, SegmentAt, Stamped;
    var before, after := RunJobs(start, jobs[..k]), RunJobs(start, jobs[..k + 1]);
    RunOrder(start, jobs, k, k + 1);
    RunOrder(start, jobs, k + 1, m);
    RunStep(start, jobs, k);
    AcknowledgedIsAppended(before, jobs[k].cmd, jobs[k].clock);
    ExecStamped(before, jobs[k].cmd, jobs[k].clock);
    AddedCarryTheTime(before, after, jobs[k].clock, |All(before)| + n);
  }

  /** Of two acknowledged produces on one partition, the later one starts after the end of the earlier one. */
  lemma RangesDoNotOverlap(start: Log, jobs: seq<Job>, k: nat, m: nat)
    requires WellFormed(start) && k < m < |jobs| && start.segs != []
    requires Acknowledged(ReplyTo(start, jobs, k)) && Acknowledged(ReplyTo(start, jobs, m))
    ensures ReplyTo(start, jobs, k).offset.value + |Payloads(jobs[k].cmd)| <= ReplyTo(start, jobs, m).offset.value
  {
    hide RunJobs, WellFormed, Bounded, Flat, Exec, Payloads;
    RunOrder(start, jobs, m, m);
    AcknowledgedStays(start, jobs, k, m);
    AcknowledgedIsAppended(RunJobs(start, jobs[..m]), jobs[m].cmd, jobs[m].clock);
  }

  ghost predicate IntactTask(x: Execution, i: nat, t: nat)
    requires i < |x.states| && t in x.states[i].tasks && x.states[i].tasks[t].Answered?
  {
    x.states[i].tasks[t].actor < |x.states[i].actors| && Intact(x.cfg, x.states[i], t)
  }

  /** Acknowledged offset ranges of different tasks on one partition are disjoint, in every reachable state. */
  lemma AcknowledgedRangesDisjoint(x: Execution, i: nat, t: nat, u: nat)
    requires IsRun(x) && i < |x.states| && t != u
    requires t in x.states[i].tasks && x.states[i].tasks[t].Answered? && Acknowledged(x.states[i].tasks[t].reply)
    requires u in x.states[i].tasks && x.states[i].tasks[u].Answered? && Acknowledged(x.states[i].tasks[u].reply)
    requires x.states[i].tasks[t].key == x.states[i].tasks[u].key
    ensures var a, b := x.states[i].tasks[t], x.states[i].tasks[u];
            || a.reply.offset.value + |Payloads(a.cmd)| <= b.reply.offset.value
            || b.reply.offset.value + |Payloads(b.cmd)| <= a.reply.offset.value
  {
    hide ActorOk, RegistryOk, IsRun, LetterOk, ReplyOk, Payloads, WellFormed, ReplyTo, Ticks, Intact;
    var s := x.states[i];
    RunInv(x, i);
    Linearizable(x, i, t);
    Linearizable(x, i, u);
    assert TaskOk(s, t) && TaskOk(s, u);
    OneActorPerPartition(x.cfg, s, s.tasks[t].actor, s.tasks[u].actor);
    StartIsFine(x, s.tasks[t].key);
    var start, jobs, k, m := x.cfg.disk(s.tasks[t].key), History(s, t), s.tasks[t].ticket, s.tasks[u].ticket;
    if k < m {
      RangesDoNotOverlap(start, jobs, k, m);
    } else if m < k {
      RangesDoNotOverlap(start, jobs, m, k);
    }
  }

  lemma StartIsFine(x: Execution, k: Key)
    requires IsRun(x)
    ensures WellFormed(x.cfg.disk(k)) && Timely(x.cfg.disk(k))
  {
    assert GoodDisk(x.cfg, k);
  }

  /** The record carries the time at which the job of task `t` wrote it. */
  ghost predicate HasTimeOf(x: Execution, i: nat, t: nat, r: Record)
    requires i < |x.states|
  {
    var s := x.states[i];
    && t in s.tasks && s.tasks[t].Answered? && s.tasks[t].actor < |s.actors|
    && var start, jobs, k := x.cfg.disk(s.tasks[t].key), History(s, t), s.tasks[t].ticket;
       && k < |jobs| && start.segs != []
       && start.base <= r.offset && r.offset - start.base < |All(RunJobs(start, jobs[..k + 1]))|
       && r.timestamp == TimeOf(start, jobs, k, r.offset - start.base)
  }

  /**
   * Read your writes: a fetch sent after a produce was answered, at any acknowledged offset and with
   * a budget, is answered with records of which the first is the acknowledged payload at that offset,
   * with the time at which it was written, provided the partition was intact. They stay within the
   * budget unless there is only one.
   */
  lemma FetchSeesAcknowledged(x: Execution, i: nat, j: nat, t: nat, u: nat, n: nat)
    requires IsRun(x) && i <= j < |x.states|
    requires t in x.states[i].tasks && x.states[i].tasks[t].Answered? && Acknowledged(x.states[i].tasks[t].reply)
    requires n < |Payloads(x.states[i].tasks[t].cmd)| && NotSent(x.states[i], u)
    requires u in x.states[j].tasks && x.states[j].tasks[u].Answered?
    requires var o := x.states[i].tasks[t].reply.offset.value + n;
             var cmd := x.states[j].tasks[u].cmd;
             cmd.FetchFrom? && cmd.offset == o && cmd.maxBytes > 0
    requires x.states[i].tasks[t].key == x.states[j].tasks[u].key && IntactTask(x, j, u)
    ensures var reply, o := x.states[j].tasks[u].reply, x.states[i].tasks[t].reply.offset.value + n;
            && reply.Fetched? && reply.records != []
            && reply.records[0].offset == o && reply.records[0].timestamp < U64_LIMIT
            && Carries(reply.records[0], Payloads(x.states[i].tasks[t].cmd)[n])
            && (SizeOf(reply.records) <= x.states[j].tasks[u].cmd.maxBytes || |reply.records| == 1)
    ensures HasTimeOf(x, j, t, x.states[j].tasks[u].reply.records[0])
  {
    hide IsRun, Payloads, WellFormed, RunJobs, Fetch, Flat, Carries, Inv, Ticks, SizeOf, NeverMisplaced, OpenTail;
    RealTimeOrder(x, i, j, t, u);
    Linearizable(x, j, t);
    Linearizable(x, j, u);
    var s := x.states[j];
    var start, jobs := x.cfg.disk(s.tasks[t].key), History(s, t);
    var k, m := s.tasks[t].ticket, s.tasks[u].ticket;
    StartIsFine(x, s.tasks[t].key);
    MisplacedPrefix(start, OpenTail(x.cfg, s.tasks[t].key), jobs[..m], k);
    assert jobs[..m][..k] == jobs[..k];
    var log := RunJobs(start, jobs[..m]);
    RunOrder(start, jobs, m, m);
    AcknowledgedStays(start, jobs, k, m);
    AcknowledgedTime(start, jobs, k, m, n);
    RunTimely(start, jobs[..m]);
    FetchGivesRecord(log, s.tasks[u].cmd.offset, s.tasks[u].cmd.maxBytes);
  }

  lemma FetchGivesRecord(log: Log, offset: nat, maxBytes: nat)
    requires WellFormed(log) && log.base <= offset < Next(log) && maxBytes > 0
    ensures var rs := Fetch(log, offset, maxBytes);
            && rs != [] && rs[0] == All(log)[offset - log.base] && rs[0].offset == offset
            && (SizeOf(rs) <= maxBytes || |rs| == 1)
  {
    hide Fetch, FetchTheorems.Follows, Flat;
    FetchTheorems.FetchMeaning(log, offset, maxBytes);
  }
}
