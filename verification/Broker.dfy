/**
 * The registry and the partition actors as a transition system: handler tasks find or create the
 * actor of a partition under double-checked locking, send it a command through a bounded mailbox
 * and wait for a one-shot reply (src/storage/topic.rs, src/broker/handler.rs).
 */
module Broker {
  import opened Bytes
  import opened Records
  import opened LogSpec
  import opened AppendTheorems
  import opened Cursors

  datatype Key = Key(topic: seq<Byte>, partition: nat)

  /** `disk(k)` is the log that opening partition `k` finds; a partition with no files yet is created. */
  datatype Config = Config(capacity: nat, disk: Key -> Log, created: Key -> bool)

  /** A created log file is in append mode; a loaded one has its cursor at the end. */
  function OpenTail(cfg: Config, k: Key): Tail
    requires cfg.disk(k).segs != []
  {
    if cfg.created(k) then Tail(true, 0) else Tail(false, SizeOf(Last(cfg.disk(k))))
  }

  datatype Letter = Letter(task: nat, cmd: Command)

  datatype Served = Served(job: Job, reply: Reply)

  /**
   * `log` is what the actor has accepted, `tail` its active log file, and `hurt` says that a write has
   * gone behind a moved cursor, after which the files no longer hold the log. `sent` records
   * every letter ever accepted, in order; `served` every job done, in order.
   */
  datatype Actor = Actor(
    key: Key, log: Log, tail: Tail, hurt: bool, mailbox: seq<Letter>, sent: seq<Letter>, served: seq<Served>)

  function NewActor(cfg: Config, k: Key): Actor
    requires cfg.disk(k).segs != []
  {
    Actor(k, cfg.disk(k), OpenTail(cfg, k), false, [], [], [])
  }

  /** Why a handler gives up before it has an actor. */
  datatype Refusal = NotRegistered | OpenFailed

  /** A handler task. `ticket` is the place of its letter among all letters its actor accepted. */
  datatype Task =
    | Idle(key: Key, cmd: Command)
    | Missed(key: Key, cmd: Command)
    | Holding(key: Key, cmd: Command)
    | Spawned(key: Key, cmd: Command, actor: nat)
    | Ready(key: Key, cmd: Command, actor: nat)
    | Waiting(key: Key, cmd: Command, actor: nat, ticket: nat)
    | Answered(key: Key, cmd: Command, actor: nat, ticket: nat, reply: Reply)
    | Refused(key: Key, cmd: Command, why: Refusal)

  /** `writer` holds the registry's write lock; `replies` are the one-shot channels that have been filled. */
  datatype State = State(
    registry: map<Key, nat>, writer: Option<nat>, actors: seq<Actor>, tasks: map<nat, Task>, replies: map<nat, Reply>)

  function SetTask(s: State, t: nat, task: Task): State { s.(tasks := s.tasks[t := task]) }

  // ---------- steps ----------

  datatype Step =
    | Arrive(task: nat, key: Key, cmd: Command)
    | Look(task: nat)
    | Acquire(task: nat)
    | Recheck(task: nat)
    | Spawn(task: nat)
    | OpenFails(task: nat)
    | Insert(task: nat)
    | Send(task: nat)
    | Serve(actor: nat, clock: nat -> nat, reply: Reply)
    | Receive(task: nat)

  /** A request reaches a handler. */
  ghost predicate ArriveStep(s: State, t: nat, key: Key, cmd: Command, s': State)
  {
    t !in s.tasks && s' == SetTask(s, t, Idle(key, cmd))
  }

  /** The check under the read lock. A fetch of an unknown partition is refused; a produce goes on to create it. */
  ghost predicate LookStep(s: State, t: nat, s': State)
  {
    && t in s.tasks && s.tasks[t].Idle? && s.writer.None?
    && var k, c := s.tasks[t].key, s.tasks[t].cmd;
       s' == SetTask(s, t, if k in s.registry then Ready(k, c, s.registry[k])
                           else if c.FetchFrom? then Refused(k, c, NotRegistered)
                           else Missed(k, c))
  }

  ghost predicate AcquireStep(s: State, t: nat, s': State)
  {
    && t in s.tasks && s.tasks[t].Missed? && s.writer.None?
    && s' == SetTask(s, t, Holding(s.tasks[t].key, s.tasks[t].cmd)).(writer := Some(t))
  }

  /** The second check, now under the write lock, finds an actor. */
  ghost predicate RecheckStep(s: State, t: nat, s': State)
  {
    && t in s.tasks && s.tasks[t].Holding?
    && var k := s.tasks[t].key;
       k in s.registry && s' == SetTask(s, t, Ready(k, s.tasks[t].cmd, s.registry[k])).(writer := None)
  }

  /** The partition is opened and its actor spawned; the write lock is still held. */
  ghost predicate SpawnStep(cfg: Config, s: State, t: nat, s': State)
  {
    && t in s.tasks && s.tasks[t].Holding?
    && var k := s.tasks[t].key;
       && k !in s.registry && cfg.disk(k).segs != []
       && s' == SetTask(s, t, Spawned(k, s.tasks[t].cmd, |s.actors|)).(
                  actors := s.actors + [NewActor(cfg, k)])
  }

  ghost predicate OpenFailsStep(s: State, t: nat, s': State)
  {
    && t in s.tasks && s.tasks[t].Holding? && s.tasks[t].key !in s.registry
    && s' == SetTask(s, t, Refused(s.tasks[t].key, s.tasks[t].cmd, OpenFailed)).(writer := None)
  }

  ghost predicate InsertStep(s: State, t: nat, s': State)
  {
    && t in s.tasks && s.tasks[t].Spawned?
    && var k, a := s.tasks[t].key, s.tasks[t].actor;
       s' == SetTask(s, t, Ready(k, s.tasks[t].cmd, a)).(registry := s.registry[k := a], writer := None)
  }

  /** The mailbox accepts a letter only while it has room. */
  ghost predicate SendStep(cfg: Config, s: State, t: nat, s': State)
  {
    && t in s.tasks && s.tasks[t].Ready?
    && var k, c, a := s.tasks[t].key, s.tasks[t].cmd, s.tasks[t].actor;
       && a < |s.actors| && |s.actors[a].mailbox| < cfg.capacity
       && var actor, letter := s.actors[a], Letter(t, c);
          s' == SetTask(s, t, Waiting(k, c, a, |actor.sent|)).(
                  actors := s.actors[a := actor.(mailbox := actor.mailbox + [letter], sent := actor.sent + [letter])])
  }

  /** The actor after it has taken its oldest letter, run it and given this reply. */
  function AfterServe(a: Actor, clock: nat -> nat, reply: Reply): Actor
    requires a.mailbox != [] && a.log.segs != []
  {
    var cmd := a.mailbox[0].cmd;
    a.(log := Exec(a.log, cmd, clock).0,
       tail := TailAfter(a.log, cmd, clock, a.tail),
       hurt := a.hurt || Misplaces(a.log, cmd, a.tail),
       mailbox := a.mailbox[1..],
       served := a.served + [Served(Job(cmd, clock), reply)])
  }

  ghost predicate Allowed(a: Actor, clock: nat -> nat, reply: Reply)
    requires a.mailbox != [] && a.log.segs != []
  {
    var cmd := a.mailbox[0].cmd;
    if a.hurt && cmd.FetchFrom? then reply.Fetched? else reply == Exec(a.log, cmd, clock).1
  }

  /**
   * The actor takes the oldest letter, runs it on its partition and answers. A write is always
   * answered as the log says; a fetch is while the files are intact, and afterwards may find anything.
   */
  ghost predicate ServeStep(s: State, a: nat, clock: nat -> nat, reply: Reply, s': State)
  {
    && a < |s.actors| && s.actors[a].mailbox != [] && s.actors[a].log.segs != [] && Ticks(clock)
    && var actor := s.actors[a];
       && Allowed(actor, clock, reply)
       && s' == s.(actors := s.actors[a := AfterServe(actor, clock, reply)],
                   replies := s.replies[actor.mailbox[0].task := reply])
  }

  ghost predicate ReceiveStep(s: State, t: nat, s': State)
  {
    && t in s.tasks && s.tasks[t].Waiting? && t in s.replies
    && var w := s.tasks[t];
       s' == SetTask(s, t, Answered(w.key, w.cmd, w.actor, w.ticket, s.replies[t]))
  }

  ghost predicate Takes(cfg: Config, s: State, step: Step, s': State)
  {
    match step
    case Arrive(t, k, c) => ArriveStep(s, t, k, c, s')
    case Look(t) => LookStep(s, t, s')
    case Acquire(t) => AcquireStep(s, t, s')
    case Recheck(t) => RecheckStep(s, t, s')
    case Spawn(t) => SpawnStep(cfg, s, t, s')
    case OpenFails(t) => OpenFailsStep(s, t, s')
    case Insert(t) => InsertStep(s, t, s')
    case Send(t) => SendStep(cfg, s, t, s')
    case Serve(a, clock, reply) => ServeStep(s, a, clock, reply, s')
    case Receive(t) => ReceiveStep(s, t, s')
  }

  /** `TopicRegistry::load` spawns and registers one actor for each partition on disk; `new` starts with none. */
  function Loaded(cfg: Config, keys: seq<Key>): State
    requires forall k :: k in keys ==> cfg.disk(k).segs != []
  {
    State(map k | k in keys :: PlaceOf(keys, k), None,
          seq(|keys|, i requires 0 <= i < |keys| => NewActor(cfg, keys[i])), map[], map[])
  }

  function PlaceOf(keys: seq<Key>, k: Key): (i: nat)
    requires k in keys
    ensures i < |keys| && keys[i] == k
  {
    if keys[0] == k then 0 else 1 + PlaceOf(keys[1..], k)
  }

  // ---------- the invariant ----------

  function Jobs(served: seq<Served>): (js: seq<Job>)
    ensures |js| == |served| && forall i :: 0 <= i < |js| ==> js[i] == served[i].job
  {
    seq(|served|, i requires 0 <= i < |served| => served[i].job)
  }

  ghost predicate GoodConfig(cfg: Config) { forall k :: GoodDisk(cfg, k) }

  ghost predicate GoodDisk(cfg: Config, k: Key)
  {
    && WellFormed(cfg.disk(k)) && Timely(cfg.disk(k))
    && (cfg.created(k) ==> cfg.disk(k) == Fresh(cfg.disk(k).max))
  }

  /** Letters are served in the order they were accepted, and the mailbox holds the rest within its capacity. */
  ghost predicate Orderly(cfg: Config, a: Actor)
  {
    && |a.mailbox| <= cfg.capacity
    && |a.served| <= |a.sent| && a.mailbox == a.sent[|a.served|..]
    && forall i :: 0 <= i < |a.served| ==> a.served[i].job.cmd == a.sent[i].cmd && Ticks(a.served[i].job.clock)
  }

  /**
   * The served jobs left the log and the active file of the sequential run. The files are hurt exactly
   * if some job was misplaced. Every write got the reply of the sequential run, and so did every fetch
   * before which no job was misplaced.
   */
  ghost predicate Sequential(start: Log, f: Tail, a: Actor)
  {
    var jobs := Jobs(a.served);
    && start.segs != [] && a.log == RunJobs(start, jobs) && a.tail == RunTail(start, f, jobs)
    && (a.hurt <==> !NeverMisplaced(start, f, jobs))
    && forall i :: 0 <= i < |a.served| ==> RightReply(start, f, jobs, i, a.served[i].reply)
  }

  ghost predicate ActorOk(cfg: Config, a: Actor)
  {
    cfg.disk(a.key).segs != [] && Orderly(cfg, a) && Sequential(cfg.disk(a.key), OpenTail(cfg, a.key), a)
  }

  /** The lock is held by a task that says so, and an actor being spawned is not registered yet. */
  ghost predicate TaskOk(s: State, t: nat)
    requires t in s.tasks
  {
    var task := s.tasks[t];
    && (task.Holding? || task.Spawned? ==> s.writer == Some(t))
    && (task.Missed? || task.Holding? || task.Spawned? ==> !task.cmd.FetchFrom?)
    && (task.Refused? ==> (task.why == NotRegistered <==> task.cmd.FetchFrom?))
    && (task.Spawned? || task.Ready? || task.Waiting? || task.Answered? ==>
          task.actor < |s.actors| && s.actors[task.actor].key == task.key)
    && (task.Spawned? ==> task.key !in s.registry)
    && (task.Waiting? || task.Answered? ==>
          var a := s.actors[task.actor];
          task.ticket < |a.sent| && a.sent[task.ticket] == Letter(t, task.cmd))
    && (task.Answered? ==>
          var a := s.actors[task.actor];
          task.ticket < |a.served| && a.served[task.ticket].reply == task.reply)
  }

  /** Every accepted letter belongs to a task that is waiting for it or has its answer. */
  ghost predicate LetterOk(s: State, a: nat, i: nat)
    requires a < |s.actors| && i < |s.actors[a].sent|
  {
    var t := s.actors[a].sent[i].task;
    && t in s.tasks && (s.tasks[t].Waiting? || s.tasks[t].Answered?)
    && s.tasks[t].actor == a && s.tasks[t].ticket == i
  }

  ghost predicate ReplyOk(s: State, t: nat)
    requires t in s.replies
  {
    && t in s.tasks && (s.tasks[t].Waiting? || s.tasks[t].Answered?)
    && s.tasks[t].actor < |s.actors|
    && var a := s.actors[s.tasks[t].actor];
       s.tasks[t].ticket < |a.served| && a.served[s.tasks[t].ticket].reply == s.replies[t]
  }

  /** The actor is registered for its key, or is just being registered by the holder of the write lock. */
  ghost predicate Owned(s: State, a: nat)
    requires a < |s.actors|
  {
    || (s.actors[a].key in s.registry && s.registry[s.actors[a].key] == a)
    || (s.writer.Some? && s.writer.value in s.tasks && s.tasks[s.writer.value].Spawned? &&
        s.tasks[s.writer.value].actor == a)
  }

  ghost predicate RegistryOk(s: State)
  {
    && (forall k :: k in s.registry ==> s.registry[k] < |s.actors| && s.actors[s.registry[k]].key == k)
    && forall a :: 0 <= a < |s.actors| ==> Owned(s, a)
  }

  ghost predicate Inv(cfg: Config, s: State)
  {
    && RegistryOk(s)
    && (forall t :: t in s.tasks ==> TaskOk(s, t))
    && (forall a :: 0 <= a < |s.actors| ==> ActorOk(cfg, s.actors[a]))
    && (forall a, i :: 0 <= a < |s.actors| && 0 <= i < |s.actors[a].sent| ==> LetterOk(s, a, i))
    && forall t :: t in s.replies ==> ReplyOk(s, t)
  }

  /** No partition ever has two actors. */
  lemma OneActorPerPartition(cfg: Config, s: State, a: nat, b: nat)
    requires Inv(cfg, s) && a < |s.actors| && b < |s.actors| && s.actors[a].key == s.actors[b].key
    ensures a == b
  {
    assert Owned(s, a) && Owned(s, b);
    if s.writer.Some? && s.writer.value in s.tasks {
      assert TaskOk(s, s.writer.value);
    }
  }

  lemma DiskIsThere(cfg: Config, k: Key)
    requires GoodConfig(cfg)
    ensures cfg.disk(k).segs != []
  {
    assert GoodDisk(cfg, k);
  }

  lemma LoadedInv(cfg: Config, keys: seq<Key>)
    requires GoodConfig(cfg) && forall i, j :: 0 <= i < j < |keys| ==> keys[i] != keys[j]
    ensures (forall k :: k in keys ==> cfg.disk(k).segs != []) && Inv(cfg, Loaded(cfg, keys))
  {
    hide GoodConfig, ActorOk, SizeOf;
    forall k | k in keys
      ensures cfg.disk(k).segs != []
    {
      DiskIsThere(cfg, k);
    }
    var s := Loaded(cfg, keys);
    forall a | 0 <= a < |s.actors|
      ensures ActorOk(cfg, s.actors[a]) && Owned(s, a)
    {
      NewActorOk(cfg, keys[a]);
      assert keys[a] in keys;
    }
  }

  // ---------- every step keeps the invariant ----------

  /** A step that only moves one task along, without touching actors or replies. */
  lemma TaskMoves(cfg: Config, s: State, s': State, t: nat)
    requires Inv(cfg, s)
    requires s'.actors == s.actors && s'.replies == s.replies
    requires t in s'.tasks && s'.tasks == s.tasks[t := s'.tasks[t]]
    requires t in s.tasks ==> !s.tasks[t].Waiting? && !s.tasks[t].Answered?
    requires RegistryOk(s') && TaskOk(s', t)
    requires forall u :: u in s.tasks && u != t ==> TaskOk(s', u)
    ensures Inv(cfg, s')
  {
    hide ActorOk, RegistryOk, TaskOk;
    forall a, i | 0 <= a < |s'.actors| && 0 <= i < |s'.actors[a].sent|
      ensures LetterOk(s', a, i)
    {
      assert LetterOk(s, a, i);
    }
    forall u | u in s'.replies
      ensures ReplyOk(s', u)
    {
      assert ReplyOk(s, u);
    }
  }

  /** Other tasks do not notice a change of the lock that concerns only the holder. */
  lemma OtherTasks(cfg: Config, s: State, s': State, t: nat)
    requires Inv(cfg, s) && s'.actors == s.actors && t in s'.tasks && s'.tasks == s.tasks[t := s'.tasks[t]]
    requires || s'.writer == s.writer
             || (s.writer.None? && s'.writer == Some(t))
             || (s.writer == Some(t) && s'.writer.None?)
    requires s'.registry == s.registry || s.writer == Some(t)
    ensures forall u :: u in s.tasks && u != t ==> TaskOk(s', u)
  {
    forall u | u in s.tasks && u != t
      ensures TaskOk(s', u)
    {
      assert TaskOk(s, u);
    }
  }

  lemma OwnersKept(s: State, s': State, t: nat)
    requires RegistryOk(s) && s'.actors == s.actors && s'.registry == s.registry
    requires t in s'.tasks && s'.tasks == s.tasks[t := s'.tasks[t]]
    requires t in s.tasks ==> !s.tasks[t].Spawned?
    requires s'.writer == s.writer || s.writer.None? || s.writer == Some(t)
    ensures RegistryOk(s')
  {
    forall a | 0 <= a < |s'.actors|
      ensures Owned(s', a)
    {
      assert Owned(s, a);
    }
  }

  lemma ArriveKeeps(cfg: Config, s: State, t: nat, k: Key, c: Command, s': State)
    requires Inv(cfg, s) && ArriveStep(s, t, k, c, s')
    ensures Inv(cfg, s')
  {
    hide Inv, TaskOk;
    InvParts(cfg, s);
    OwnersKept(s, s', t);
    OtherTasks(cfg, s, s', t);
    NewTaskOk(s', t);
    TaskMoves(cfg, s, s', t);
  }

  lemma NewTaskOk(s: State, t: nat)
    requires t in s.tasks && s.tasks[t].Idle?
    ensures TaskOk(s, t)
  {
  }

  lemma InvParts(cfg: Config, s: State)
    requires Inv(cfg, s)
    ensures RegistryOk(s)
    ensures forall t :: t in s.tasks ==> TaskOk(s, t)
  {
  }

  lemma LookKeeps(cfg: Config, s: State, t: nat, s': State)
    requires Inv(cfg, s) && LookStep(s, t, s')
    ensures Inv(cfg, s')
  {
    hide Inv;
    InvParts(cfg, s);
    OwnersKept(s, s', t);
    OtherTasks(cfg, s, s', t);
    TaskMoves(cfg, s, s', t);
  }

  lemma AcquireKeeps(cfg: Config, s: State, t: nat, s': State)
    requires Inv(cfg, s) && AcquireStep(s, t, s')
    ensures Inv(cfg, s')
  {
    hide Inv;
    InvParts(cfg, s);
    OwnersKept(s, s', t);
    OtherTasks(cfg, s, s', t);
    TaskMoves(cfg, s, s', t);
  }

  lemma ReleaseKeeps(cfg: Config, s: State, t: nat, s': State)
    requires Inv(cfg, s) && (RecheckStep(s, t, s') || OpenFailsStep(s, t, s'))
    ensures Inv(cfg, s')
  {
    hide Inv;
    InvParts(cfg, s);
    assert TaskOk(s, t);
    OwnersKept(s, s', t);
    OtherTasks(cfg, s, s', t);
    TaskMoves(cfg, s, s', t);
  }

  lemma InsertKeeps(cfg: Config, s: State, t: nat, s': State)
    requires Inv(cfg, s) && InsertStep(s, t, s')
    ensures Inv(cfg, s')
  {
    hide Inv;
    InvParts(cfg, s);
    assert TaskOk(s, t);
    forall a | 0 <= a < |s'.actors|
      ensures Owned(s', a)
    {
      assert Owned(s, a);
    }
    OtherTasks(cfg, s, s', t);
    TaskMoves(cfg, s, s', t);
  }

  /** Actors only ever gain letters and served jobs, and new actors come at the end. */
  ghost predicate Grown(a: Actor, b: Actor)
  {
    b.key == a.key && a.sent <= b.sent && a.served <= b.served
  }

  ghost predicate ActorsGrown(s: State, s': State)
  {
    |s.actors| <= |s'.actors| && forall a :: 0 <= a < |s.actors| ==> Grown(s.actors[a], s'.actors[a])
  }

  /** What is true of a task stays true when actors grow and the registry and the lock are left alone. */
  lemma TaskSurvives(s: State, s': State, t: nat)
    requires t in s.tasks && TaskOk(s, t) && t in s'.tasks && s'.tasks[t] == s.tasks[t]
    requires ActorsGrown(s, s') && s'.writer == s.writer && s'.registry == s.registry
    ensures TaskOk(s', t)
  {
    var task := s.tasks[t];
    if task.Spawned? || task.Ready? || task.Waiting? || task.Answered? {
      assert Grown(s.actors[task.actor], s'.actors[task.actor]);
    }
  }

  lemma ReplySurvives(s: State, s': State, t: nat)
    requires t in s.replies && ReplyOk(s, t) && t in s'.tasks && s'.tasks[t] == s.tasks[t]
    requires t in s'.replies && s'.replies[t] == s.replies[t] && ActorsGrown(s, s')
    ensures ReplyOk(s', t)
  {
    assert Grown(s.actors[s.tasks[t].actor], s'.actors[s.tasks[t].actor]);
  }

  lemma SpawnKeeps(cfg: Config, s: State, t: nat, s': State)
    requires GoodConfig(cfg) && Inv(cfg, s) && SpawnStep(cfg, s, t, s')
    ensures Inv(cfg, s')
  {
    hide GoodConfig, ActorOk, SizeOf;
    var k := s.tasks[t].key;
    assert TaskOk(s, t);
    NewActorOk(cfg, k);
    forall u | u in s.tasks && u != t
      ensures TaskOk(s', u)
    {
      TaskSurvives(s, s', u);
    }
    forall a | 0 <= a < |s'.actors|
      ensures Owned(s', a)
    {
      if a < |s.actors| {
        assert Owned(s, a);
      }
    }
    forall a, i | 0 <= a < |s'.actors| && 0 <= i < |s'.actors[a].sent|
      ensures LetterOk(s', a, i)
    {
      assert LetterOk(s, a, i);
    }
    forall u | u in s'.replies
      ensures ReplyOk(s', u)
    {
      assert ReplyOk(s, u);
      ReplySurvives(s, s', u);
    }
  }

  lemma NewActorOk(cfg: Config, k: Key)
    requires cfg.disk(k).segs != []
    ensures ActorOk(cfg, NewActor(cfg, k))
  {
    hide SizeOf;
    assert Jobs([]) == [];
  }

  lemma SentActorOk(cfg: Config, a: Actor, letter: Letter)
    requires ActorOk(cfg, a) && |a.mailbox| < cfg.capacity
    ensures ActorOk(cfg, a.(mailbox := a.mailbox + [letter], sent := a.sent + [letter]))
  {
    hide Ticks, RunJobs, RunTail, NeverMisplaced, RightReply, OpenTail;
  }

  lemma SendKeeps(cfg: Config, s: State, t: nat, s': State)
    requires Inv(cfg, s) && SendStep(cfg, s, t, s')
    ensures Inv(cfg, s')
  {
    hide ActorOk;
    var a := s.tasks[t].actor;
    assert TaskOk(s, t);
    SentActorOk(cfg, s.actors[a], Letter(t, s.tasks[t].cmd));
    forall u | u in s.tasks && u != t
      ensures TaskOk(s', u)
    {
      TaskSurvives(s, s', u);
    }
    forall b | 0 <= b < |s'.actors|
      ensures Owned(s', b)
    {
      assert Owned(s, b);
    }
    forall b, i | 0 <= b < |s'.actors| && 0 <= i < |s'.actors[b].sent|
      ensures LetterOk(s', b, i)
    {
      if i < |s.actors[b].sent| {
        assert LetterOk(s, b, i);
      }
    }
    forall u | u in s'.replies
      ensures ReplyOk(s', u)
    {
      assert ReplyOk(s, u);
      ReplySurvives(s, s', u);
    }
  }

  lemma ServedActorOk(cfg: Config, a: Actor, clock: nat -> nat, reply: Reply)
    requires ActorOk(cfg, a) && a.mailbox != [] && Ticks(clock) && a.log.segs != [] && Allowed(a, clock, reply)
    ensures ActorOk(cfg, AfterServe(a, clock, reply))
  {
    hide Exec, Ticks, Sequential, TailAfter, Misplaces, OpenTail, Allowed;
    SequentialStep(cfg.disk(a.key), OpenTail(cfg, a.key), a, clock, reply);
  }

  lemma SequentialStep(start: Log, f: Tail, a: Actor, clock: nat -> nat, reply: Reply)
    requires Sequential(start, f, a) && a.mailbox != [] && a.log.segs != [] && Allowed(a, clock, reply)
    ensures Sequential(start, f, AfterServe(a, clock, reply))
  {
    hide Exec, TailAfter, Misplaces, RunJobs, RunTail, NeverMisplaced, ReplyTo;
    var n, a' := |a.served|, AfterServe(a, clock, reply);
    var jobs, jobs' := Jobs(a.served), Jobs(a'.served);
    assert jobs'[..n] == jobs && jobs'[..n + 1] == jobs';
    RunStep(start, jobs', n);
    TailStep(start, f, jobs', n);
    forall i | 0 <= i < n
      ensures RightReply(start, f, jobs', i, a'.served[i].reply)
    {
      SameReply(start, jobs, jobs', i);
    }
  }

  lemma SameReply(start: Log, jobs: seq<Job>, jobs': seq<Job>, i: nat)
    requires start.segs != [] && i < |jobs| && jobs <= jobs'
    ensures jobs[..i] == jobs'[..i] && ReplyTo(start, jobs, i) == ReplyTo(start, jobs', i)
  {
    hide Exec, RunJobs;
    assert jobs[..i] == jobs'[..i];
  }

  lemma ServeKeeps(cfg: Config, s: State, a: nat, clock: nat -> nat, reply: Reply, s': State)
    requires Inv(cfg, s) && ServeStep(s, a, clock, reply, s')
    ensures Inv(cfg, s')
  {
    hide Exec, TailAfter, Misplaces, Sequential, Owned, Ticks, OpenTail, Allowed;
    var actor := s.actors[a];
    var n := |actor.served|;
    assert ActorOk(cfg, actor);
    ServedActorOk(cfg, actor, clock, reply);
    ServeOwners(s, s', a);
    forall u | u in s'.tasks
      ensures TaskOk(s', u)
    {
      TaskSurvives(s, s', u);
    }
    forall b, i | 0 <= b < |s'.actors| && 0 <= i < |s'.actors[b].sent|
      ensures LetterOk(s', b, i)
    {
      assert LetterOk(s, b, i);
    }
    var t := actor.mailbox[0].task;
    assert LetterOk(s, a, n) && actor.sent[n].task == t;
    forall u | u in s'.replies && u != t
      ensures ReplyOk(s', u)
    {
      assert ReplyOk(s, u);
      ReplySurvives(s, s', u);
    }
  }

  lemma ServeOwners(s: State, s': State, a: nat)
    requires RegistryOk(s) && ActorsGrown(s, s') && |s'.actors| == |s.actors|
    requires s'.registry == s.registry && s'.writer == s.writer && s'.tasks == s.tasks
    ensures RegistryOk(s')
  {
    forall b | 0 <= b < |s'.actors|
      ensures Owned(s', b)
    {
      assert Owned(s, b) && Grown(s.actors[b], s'.actors[b]);
    }
    forall k | k in s'.registry
      ensures s'.registry[k] < |s'.actors| && s'.actors[s'.registry[k]].key == k
    {
      assert Grown(s.actors[s.registry[k]], s'.actors[s.registry[k]]);
    }
  }

  lemma ReceiveKeeps(cfg: Config, s: State, t: nat, s': State)
    requires Inv(cfg, s) && ReceiveStep(s, t, s')
    ensures Inv(cfg, s')
  {
    hide ActorOk, RegistryOk, TaskOk;
    ReceiverOk(cfg, s, t, s');
    forall b, i | 0 <= b < |s'.actors| && 0 <= i < |s'.actors[b].sent|
      ensures LetterOk(s', b, i)
    {
      assert LetterOk(s, b, i);
    }
    forall u | u in s'.replies
      ensures ReplyOk(s', u)
    {
      assert ReplyOk(s, u);
    }
  }

  lemma ReceiverOk(cfg: Config, s: State, t: nat, s': State)
    requires Inv(cfg, s) && ReceiveStep(s, t, s')
    ensures RegistryOk(s') && forall u :: u in s'.tasks ==> TaskOk(s', u)
  {
    hide ActorOk, Owned, LetterOk;
    OwnersKept(s, s', t);
    assert TaskOk(s, t) && ReplyOk(s, t);
    forall u | u in s.tasks && u != t
      ensures TaskOk(s', u)
    {
      TaskSurvives(s, s', u);
    }
  }

  lemma StepKeeps(cfg: Config, s: State, step: Step, s': State)
    requires GoodConfig(cfg) && Inv(cfg, s) && Takes(cfg, s, step, s')
    ensures Inv(cfg, s')
  {
    hide Inv, GoodConfig, ArriveStep, LookStep, AcquireStep, RecheckStep, SpawnStep, OpenFailsStep, InsertStep,
      SendStep, ServeStep, ReceiveStep;
    match step
    case Arrive(t, k, c) => ArriveKeeps(cfg, s, t, k, c, s');
    case Look(t) => LookKeeps(cfg, s, t, s');
    case Acquire(t) => AcquireKeeps(cfg, s, t, s');
    case Recheck(t) => ReleaseKeeps(cfg, s, t, s');
    case Spawn(t) => SpawnKeeps(cfg, s, t, s');
    case OpenFails(t) => ReleaseKeeps(cfg, s, t, s');
    case Insert(t) => InsertKeeps(cfg, s, t, s');
    case Send(t) => SendKeeps(cfg, s, t, s');
    case Serve(a, clock, reply) => ServeKeeps(cfg, s, a, clock, reply, s');
    case Receive(t) => ReceiveKeeps(cfg, s, t, s');
  }
}
