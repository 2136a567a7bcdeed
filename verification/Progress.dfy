/**
 * What becomes of a request: it is never refused once its partition is registered, the write lock is
 * always given back, and from every state of every run it can be brought to its end.
 */
module Progress {
  import opened Bytes
  import opened LogSpec
  import opened AppendTheorems
  import opened Cursors
  import opened Broker
  import opened Linearizability

  // ---------- more that every step keeps ----------

  predicate Holds(task: Task) { task.Holding? || task.Spawned? }

  /** The write lock is held only by a task that is about to give it back. */
  ghost predicate LockHeld(s: State)
  {
    s.writer.Some? ==> s.writer.value in s.tasks && Holds(s.tasks[s.writer.value])
  }

  /** A task that has an actor has the one that is registered for its partition. */
  ghost predicate Bound(s: State, t: nat)
    requires t in s.tasks
  {
    var task := s.tasks[t];
    task.Ready? || task.Waiting? || task.Answered? ==> task.key in s.registry && s.registry[task.key] == task.actor
  }

  /** Once its letter is served, a waiting task has its reply. */
  ghost predicate Delivered(s: State, t: nat)
    requires t in s.tasks
  {
    var task := s.tasks[t];
    task.Waiting? && task.actor < |s.actors| && task.ticket < |s.actors[task.actor].served| ==> t in s.replies
  }

  ghost predicate Settled(s: State)
  {
    LockHeld(s) && forall t :: t in s.tasks ==> Bound(s, t) && Delivered(s, t)
  }

  /** Bindings and replies are kept, and no letter is served. */
  ghost predicate Quiet(s: State, s': State)
  {
    && (forall k :: k in s.registry ==> k in s'.registry && s'.registry[k] == s.registry[k])
    && |s.actors| <= |s'.actors| && (forall a :: 0 <= a < |s.actors| ==> s'.actors[a].served == s.actors[a].served)
    && s'.replies == s.replies
  }

  lemma OthersSettled(cfg: Config, s: State, s': State, t: nat)
    requires Inv(cfg, s) && Settled(s) && Quiet(s, s') && t in s'.tasks && s'.tasks == s.tasks[t := s'.tasks[t]]
    requires LockHeld(s') && Bound(s', t) && Delivered(s', t)
    ensures Settled(s')
  {
    hide ActorOk, RegistryOk, LetterOk, ReplyOk;
    forall u | u in s'.tasks && u != t
      ensures Bound(s', u) && Delivered(s', u)
    {
      assert TaskOk(s, u) && Bound(s, u) && Delivered(s, u);
    }
  }

  lemma InsertSettles(cfg: Config, s: State, t: nat, s': State)
    requires Inv(cfg, s) && Settled(s) && InsertStep(s, t, s')
    ensures Settled(s')
  {
    hide Inv;
    InvParts(cfg, s);
    assert TaskOk(s, t);
    OthersSettled(cfg, s, s', t);
  }

  lemma SendSettles(cfg: Config, s: State, t: nat, s': State)
    requires Inv(cfg, s) && Settled(s) && SendStep(cfg, s, t, s')
    ensures Settled(s')
  {
    hide Inv;
    var a := s.tasks[t].actor;
    ServedAtMostSent(cfg, s, a);
    assert Bound(s, t);
    OthersSettled(cfg, s, s', t);
  }

  lemma ServedAtMostSent(cfg: Config, s: State, a: nat)
    requires Inv(cfg, s) && a < |s.actors|
    ensures ActorOk(cfg, s.actors[a]) && |s.actors[a].served| <= |s.actors[a].sent|
  {
    assert ActorOk(cfg, s.actors[a]);
    ServedWereSent(cfg, s.actors[a]);
  }

  /** The step of a task that gains no letter and no binding of its own. */
  lemma TaskSettles(cfg: Config, s: State, step: Step, s': State)
    requires Inv(cfg, s) && Settled(s) && Takes(cfg, s, step, s')
    requires !step.Insert? && !step.Send? && !step.Serve?
    ensures Settled(s')
  {
    hide Inv, NewActor;
    InvParts(cfg, s);
    var t := step.task;
    if t in s.tasks {
      assert TaskOk(s, t) && Bound(s, t);
    }
    OthersSettled(cfg, s, s', t);
  }

  lemma ServeSettles(cfg: Config, s: State, a: nat, clock: nat -> nat, reply: Reply, s': State)
    requires Inv(cfg, s) && Settled(s) && ServeStep(s, a, clock, reply, s')
    ensures Settled(s')
  {
    hide RegistryOk, LetterOk, ReplyOk, Exec, TailAfter, Misplaces, Allowed, Ticks, Sequential;
    var actor := s.actors[a];
    assert ActorOk(cfg, actor);
    forall t | t in s'.tasks
      ensures Bound(s', t) && Delivered(s', t)
    {
      assert TaskOk(s, t) && Bound(s, t) && Delivered(s, t);
    }
  }

  lemma StepSettles(cfg: Config, s: State, step: Step, s': State)
    requires Inv(cfg, s) && Settled(s) && Takes(cfg, s, step, s')
    ensures Settled(s')
  {
    hide Inv, Settled, InsertStep, SendStep, ServeStep;
    match step
    case Insert(t) => InsertSettles(cfg, s, t, s');
    case Send(t) => SendSettles(cfg, s, t, s');
    case Serve(a, clock, reply) => ServeSettles(cfg, s, a, clock, reply, s');
    case _ => TaskSettles(cfg, s, step, s');
  }

  lemma LoadedSettled(cfg: Config, keys: seq<Key>)
    requires forall k :: k in keys ==> cfg.disk(k).segs != []
    ensures Settled(Loaded(cfg, keys))
  {
  }

  lemma {:induction false} RunSettled(x: Execution, i: nat)
    requires IsRun(x) && i < |x.states|
    ensures Settled(x.states[i])
  {
    hide Inv, Takes, Loaded, GoodConfig, Settled;
    if i == 0 {
      LoadedSettled(x.cfg, x.keys);
    } else {
      RunSettled(x, i - 1);
      RunInv(x, i - 1);
      StepSettles(x.cfg, x.states[i - 1], x.steps[i - 1], x.states[i]);
    }
  }

  /**
   * In every state of every run a task holds the write lock if and only if it is between acquiring it
   * and giving it back: opening the partition or registering its actor.
   */
  lemma LockHolder(x: Execution, i: nat, t: nat)
    requires IsRun(x) && i < |x.states|
    ensures x.states[i].writer == Some(t) <==> t in x.states[i].tasks && Holds(x.states[i].tasks[t])
  {
    hide IsRun, ActorOk, RegistryOk, LetterOk, ReplyOk, Bound, Delivered;
    RunInv(x, i);
    RunSettled(x, i);
    if t in x.states[i].tasks {
      assert TaskOk(x.states[i], t);
    }
  }

  // ---------- what becomes of a request ----------

  /** A task never changes its request. */
  ghost predicate SameRequest(s: State, s': State, t: nat)
    requires t in s.tasks
  {
    t in s'.tasks && s'.tasks[t].key == s.tasks[t].key && s'.tasks[t].cmd == s.tasks[t].cmd
  }

  lemma {:induction false} RequestKept(x: Execution, i: nat, j: nat, t: nat)
    requires IsRun(x) && i <= j < |x.states| && t in x.states[i].tasks
    ensures SameRequest(x.states[i], x.states[j], t)
    decreases j
  {
    hide GoodConfig, Loaded, Takes;
    if i < j {
      RequestKept(x, i, j - 1, t);
      StepKeepsRequest(x.cfg, x.states[j - 1], x.steps[j - 1], x.states[j], t);
    }
  }

  lemma StepKeepsRequest(cfg: Config, s: State, step: Step, s': State, t: nat)
    requires Takes(cfg, s, step, s') && t in s.tasks
    ensures SameRequest(s, s', t)
  {
    hide Exec, NewActor, AfterServe, Allowed;
  }

  /** Only a task whose partition is not registered is refused. */
  lemma RefusalStep(cfg: Config, s: State, step: Step, s': State, t: nat)
    requires Takes(cfg, s, step, s') && t in s'.tasks && s'.tasks[t].Refused?
    requires !(t in s.tasks && s.tasks[t].Refused?)
    ensures t in s.tasks && s.tasks[t].key == s'.tasks[t].key && s'.tasks[t].key !in s.registry
  {
    hide Exec, NewActor, AfterServe, Allowed;
  }

  /** Once a partition is registered, no request for it is refused any more, whatever its kind. */
  lemma {:induction false} RegisteredIsNotRefused(x: Execution, i: nat, j: nat, u: nat)
    requires IsRun(x) && i <= j < |x.states| && u in x.states[j].tasks
    requires x.states[j].tasks[u].key in x.states[i].registry
    requires !(u in x.states[i].tasks && x.states[i].tasks[u].Refused?)
    ensures !x.states[j].tasks[u].Refused?
    decreases j
  {
    hide Inv, Takes, Loaded, GoodConfig;
    if i < j && x.states[j].tasks[u].Refused? {
      var s, s' := x.states[j - 1], x.states[j];
      if u in s.tasks {
        RequestKept(x, j - 1, j, u);
        RegisteredIsNotRefused(x, i, j - 1, u);
      }
      RefusalStep(x.cfg, s, x.steps[j - 1], s', u);
      RunIsLater(x, i, j - 1);
    }
  }

  /**
   * In particular, once any request for a partition was answered, no request for it that has not been
   * refused by then is ever refused: it is not told that the partition does not exist.
   */
  lemma AnsweredIsNotRefused(x: Execution, i: nat, j: nat, t: nat, u: nat)
    requires IsRun(x) && i <= j < |x.states|
    requires t in x.states[i].tasks && x.states[i].tasks[t].Answered?
    requires u in x.states[j].tasks && x.states[j].tasks[u].key == x.states[i].tasks[t].key
    requires !(u in x.states[i].tasks && x.states[i].tasks[u].Refused?)
    ensures !x.states[j].tasks[u].Refused?
  {
    hide IsRun, LockHeld, Delivered;
    RunSettled(x, i);
    assert Bound(x.states[i], t);
    RegisteredIsNotRefused(x, i, j, u);
  }

  /** A partition that was on disk when the broker started is registered in every state of every run. */
  lemma LoadedIsRegistered(x: Execution, j: nat, k: Key)
    requires IsRun(x) && j < |x.states| && k in x.keys
    ensures k in x.states[j].registry
    ensures forall u :: u in x.states[j].tasks && x.states[j].tasks[u].key == k ==> !x.states[j].tasks[u].Refused?
  {
    hide Takes, GoodConfig;
    RunIsLater(x, 0, j);
    forall u | u in x.states[j].tasks && x.states[j].tasks[u].key == k
      ensures !x.states[j].tasks[u].Refused?
    {
      RegisteredIsNotRefused(x, 0, j, u);
    }
  }

  // ---------- every request can be brought to its end ----------

  /** The run up to state `i`. */
  function Upto(x: Execution, i: nat): Execution
    requires i < |x.states| == |x.steps| + 1
  {
    Execution(x.cfg, x.keys, x.steps[..i], x.states[..i + 1])
  }

  ghost predicate Continues(x: Execution, y: Execution)
  {
    IsRun(y) && y.cfg == x.cfg && y.keys == x.keys && x.steps <= y.steps && x.states <= y.states
  }

  function End(x: Execution): State
    requires x.states != []
  {
    x.states[|x.states| - 1]
  }

  function Then(x: Execution, step: Step, s: State): Execution
  {
    Execution(x.cfg, x.keys, x.steps + [step], x.states + [s])
  }

  lemma ThenIsRun(x: Execution, step: Step, s: State)
    requires IsRun(x) && Takes(x.cfg, End(x), step, s)
    ensures Continues(x, Then(x, step, s)) && End(Then(x, step, s)) == s
  {
    hide Takes, Loaded, GoodConfig;
    var y := Then(x, step, s);
    forall i | 0 <= i < |y.steps|
      ensures Takes(y.cfg, y.states[i], y.steps[i], y.states[i + 1])
    {
      if i < |x.steps| {
        assert y.states[i] == x.states[i] && y.states[i + 1] == x.states[i + 1] && y.steps[i] == x.steps[i];
      }
    }
  }

  lemma UptoIsRun(x: Execution, i: nat)
    requires IsRun(x) && i < |x.states|
    ensures IsRun(Upto(x, i)) && End(Upto(x, i)) == x.states[i]
  {
    hide Takes, Loaded, GoodConfig;
  }

  lemma EndIsFine(x: Execution)
    requires IsRun(x)
    ensures x.states != [] && Inv(x.cfg, End(x)) && Settled(End(x))
  {
    hide Inv, Settled, Takes, Loaded, GoodConfig;
    RunInv(x, |x.states| - 1);
    RunSettled(x, |x.states| - 1);
  }

  lemma StillThere(x: Execution, y: Execution, t: nat)
    requires IsRun(x) && Continues(x, y) && t in End(x).tasks
    ensures y.states != [] && SameRequest(End(x), End(y), t)
    ensures forall k :: k in End(x).registry ==> k in End(y).registry
  {
    hide Takes, Loaded, GoodConfig;
    RequestKept(y, |x.states| - 1, |y.states| - 1, t);
    RunIsLater(y, |x.states| - 1, |y.states| - 1);
  }


  /** The holder of the lock opens its partition if it is not registered yet, registers its actor and lets go. */
  lemma HolderFinishes(x: Execution, t: nat) returns (y: Execution)
    requires IsRun(x) && x.states != [] && End(x).writer == Some(t) && t in End(x).tasks && Holds(End(x).tasks[t])
    ensures Continues(x, y) && y.states != [] && End(y).writer.None?
    ensures t in End(y).tasks && End(y).tasks[t].Ready? && End(y).tasks == End(x).tasks[t := End(y).tasks[t]]
    decreases End(x).tasks[t].Holding?
  {
    hide IsRun, NewActor;
    var s := End(x);
    var task := s.tasks[t];
    if task.Spawned? {
      var s' := SetTask(s, t, Ready(task.key, task.cmd, task.actor)).(
        registry := s.registry[task.key := task.actor], writer := None);
      assert Takes(x.cfg, s, Insert(t), s');
      ThenIsRun(x, Insert(t), s');
      y := Then(x, Insert(t), s');
    } else if task.key in s.registry {
      var s' := SetTask(s, t, Ready(task.key, task.cmd, s.registry[task.key])).(writer := None);
      assert Takes(x.cfg, s, Recheck(t), s');
      ThenIsRun(x, Recheck(t), s');
      y := Then(x, Recheck(t), s');
    } else {
      StartIsThere(x, task.key);
      var s' := SetTask(s, t, Spawned(task.key, task.cmd, |s.actors|)).(
        actors := s.actors + [NewActor(x.cfg, task.key)]);
      assert Takes(x.cfg, s, Spawn(t), s');
      ThenIsRun(x, Spawn(t), s');
      y := HolderFinishes(Then(x, Spawn(t), s'), t);
      ContinuesOn(x, Then(x, Spawn(t), s'), y);
    }
  }

  lemma StartIsThere(x: Execution, k: Key)
    requires IsRun(x)
    ensures x.cfg.disk(k).segs != []
  {
    DiskIsThere(x.cfg, k);
  }

  lemma ContinuesOn(x: Execution, y: Execution, z: Execution)
    requires Continues(x, y) && Continues(y, z)
    ensures Continues(x, z)
  {
    hide IsRun;
  }

  lemma ContinuesItself(x: Execution)
    requires IsRun(x)
    ensures Continues(x, x)
  {
    hide IsRun;
  }

  /** Whoever holds the lock, it can be given back. A task that held it has an actor then; no other task moves. */
  lemma LockIsReleased(x: Execution) returns (y: Execution)
    requires IsRun(x)
    ensures Continues(x, y) && x.states != [] && y.states != [] && End(y).writer.None?
    ensures forall t :: t in End(x).tasks ==>
                          && t in End(y).tasks
                          && if Holds(End(x).tasks[t]) then End(y).tasks[t].Ready?
                             else End(y).tasks[t] == End(x).tasks[t]
  {
    hide IsRun, ActorOk, RegistryOk, LetterOk, ReplyOk, Bound, Delivered;
    EndIsFine(x);
    ContinuesItself(x);
    y := x;
    var s := End(x);
    if s.writer.Some? {
      y := HolderFinishes(x, s.writer.value);
    }
    forall t | t in s.tasks && Holds(s.tasks[t])
      ensures s.writer == Some(t)
    {
      assert TaskOk(s, t);
    }
  }

  /** A task that has no actor yet can get one, or is refused because it is a fetch of an unknown partition. */
  lemma ActorIsFound(x: Execution, t: nat) returns (y: Execution)
    requires IsRun(x) && x.states != [] && t in End(x).tasks
    requires var task := End(x).tasks[t]; !task.Waiting? && !task.Answered? && !task.Refused?
    ensures Continues(x, y) && y.states != [] && t in End(y).tasks
    ensures End(y).tasks[t].Ready? || Unknown(End(x), End(y), t)
  {
    hide IsRun;
    y := LockIsReleased(x);
    StillThere(x, y, t);
    var s := End(y);
    if s.tasks[t].Idle? {
      var k, c := s.tasks[t].key, s.tasks[t].cmd;
      var s' := SetTask(s, t, if k in s.registry then Ready(k, c, s.registry[k])
                              else if c.FetchFrom? then Refused(k, c, NotRegistered)
                              else Missed(k, c));
      assert Takes(x.cfg, s, Look(t), s');
      ThenIsRun(y, Look(t), s');
      ContinuesOn(x, y, Then(y, Look(t), s'));
      y := Then(y, Look(t), s');
    }
    if End(y).tasks[t].Missed? {
      var z := LockIsTaken(y, t);
      ContinuesOn(x, y, z);
      y := z;
    }
  }

  /** A fetch that found no partition. */
  ghost predicate Unknown(s: State, s': State, t: nat)
  {
    && t in s.tasks && t in s'.tasks && s.tasks[t].Idle? && s.tasks[t].cmd.FetchFrom?
    && s.tasks[t].key !in s.registry
    && s'.tasks[t] == Refused(s.tasks[t].key, s.tasks[t].cmd, NotRegistered)
  }

  lemma LockIsTaken(x: Execution, t: nat) returns (y: Execution)
    requires IsRun(x) && x.states != [] && End(x).writer.None? && t in End(x).tasks && End(x).tasks[t].Missed?
    ensures Continues(x, y) && y.states != [] && t in End(y).tasks && End(y).tasks[t].Ready?
  {
    hide IsRun;
    var s := End(x);
    var s' := SetTask(s, t, Holding(s.tasks[t].key, s.tasks[t].cmd)).(writer := Some(t));
    assert Takes(x.cfg, s, Acquire(t), s');
    ThenIsRun(x, Acquire(t), s');
    y := HolderFinishes(Then(x, Acquire(t), s'), t);
    ContinuesOn(x, Then(x, Acquire(t), s'), y);
  }

  /** An actor with a letter can serve it. */
  lemma LetterIsServed(x: Execution, a: nat) returns (y: Execution)
    requires IsRun(x) && x.states != [] && a < |End(x).actors| && End(x).actors[a].mailbox != []
    ensures Continues(x, y) && y.states != [] && End(y).tasks == End(x).tasks && |End(y).actors| == |End(x).actors|
    ensures var b, b' := End(x).actors[a], End(y).actors[a];
            b'.mailbox == b.mailbox[1..] && |b'.served| == |b.served| + 1 && b'.sent == b.sent
  {
    hide IsRun, Exec, RegistryOk, LetterOk, ReplyOk, TaskOk, Settled, TailAfter, Misplaces;
    EndIsFine(x);
    var s := End(x);
    var actor := s.actors[a];
    assert ActorOk(x.cfg, actor);
    var clock := (n: nat) => 0;
    var reply := Exec(actor.log, actor.mailbox[0].cmd, clock).1;
    ReplyIsAllowed(actor, clock);
    var s' := s.(actors := s.actors[a := AfterServe(actor, clock, reply)],
                 replies := s.replies[actor.mailbox[0].task := reply]);
    assert Takes(x.cfg, s, Serve(a, clock, reply), s');
    ThenIsRun(x, Serve(a, clock, reply), s');
    y := Then(x, Serve(a, clock, reply), s');
  }

  lemma ReplyIsAllowed(a: Actor, clock: nat -> nat)
    requires a.mailbox != [] && a.log.segs != []
    ensures Allowed(a, clock, Exec(a.log, a.mailbox[0].cmd, clock).1)
  {
    hide Fetch, Place, AppendBatch;
  }

  /** A task with an actor can put its letter into the mailbox: if that is full, the actor makes room. */
  lemma LetterIsSent(x: Execution, t: nat) returns (y: Execution)
    requires IsRun(x) && x.cfg.capacity > 0 && x.states != [] && t in End(x).tasks && End(x).tasks[t].Ready?
    ensures Continues(x, y) && y.states != [] && t in End(y).tasks && End(y).tasks[t].Waiting?
    ensures y.cfg == x.cfg
  {
    hide IsRun, RegistryOk, LetterOk, ReplyOk, Settled, Sequential;
    EndIsFine(x);
    ContinuesItself(x);
    assert TaskOk(End(x), t);
    var a := End(x).tasks[t].actor;
    assert ActorOk(x.cfg, End(x).actors[a]);
    var z := x;
    if |End(x).actors[a].mailbox| == x.cfg.capacity {
      z := LetterIsServed(x, a);
    }
    var s := End(z);
    var actor, letter := s.actors[a], Letter(t, s.tasks[t].cmd);
    var s' := SetTask(s, t, Waiting(s.tasks[t].key, s.tasks[t].cmd, a, |actor.sent|)).(
      actors := s.actors[a := actor.(mailbox := actor.mailbox + [letter], sent := actor.sent + [letter])]);
    assert Takes(x.cfg, s, Send(t), s');
    ThenIsRun(z, Send(t), s');
    y := Then(z, Send(t), s');
    ContinuesOn(x, z, y);
  }

  /** A waiting task can get its answer: the actor serves the letters before it, then its own. */
  lemma {:induction false} ReplyIsReceived(x: Execution, t: nat) returns (y: Execution)
    requires IsRun(x) && x.states != [] && t in End(x).tasks && End(x).tasks[t].Waiting?
    ensures Continues(x, y) && y.states != [] && t in End(y).tasks && End(y).tasks[t].Answered?
    decreases var task := End(x).tasks[t];
              if task.actor < |End(x).actors| then task.ticket - |End(x).actors[task.actor].served| else 0
  {
    hide IsRun, RegistryOk, LetterOk, ReplyOk, Sequential, LockHeld, Bound;
    EndIsFine(x);
    var s := End(x);
    var w := s.tasks[t];
    assert TaskOk(s, t) && Delivered(s, t);
    assert ActorOk(x.cfg, s.actors[w.actor]);
    if w.ticket < |s.actors[w.actor].served| {
      var s' := SetTask(s, t, Answered(w.key, w.cmd, w.actor, w.ticket, s.replies[t]));
      assert Takes(x.cfg, s, Receive(t), s');
      ThenIsRun(x, Receive(t), s');
      y := Then(x, Receive(t), s');
    } else {
      var z := LetterIsServed(x, w.actor);
      y := ReplyIsReceived(z, t);
      ContinuesOn(x, z, y);
    }
  }

  /** How the request of task `t`, as it is in `s`, ends in `s'`. */
  ghost predicate Concluded(s: State, s': State, t: nat)
    requires t in s.tasks
  {
    SameRequest(s, s', t) && (s'.tasks[t].Answered? || Unknown(s, s', t))
  }

  /**
   * Progress: no state of any run is a dead end for any task. With mailboxes that hold a letter at all,
   * the run can be continued so that the task is answered; only a fetch that has not looked yet, of a
   * partition that is not registered, may end by being refused instead.
   */
  lemma CanBeConcluded(x: Execution, i: nat, t: nat)
    requires IsRun(x) && x.cfg.capacity > 0 && i < |x.states|
    requires t in x.states[i].tasks && !x.states[i].tasks[t].Refused?
    ensures exists y :: Continues(Upto(x, i), y) && y.states != [] && Concluded(x.states[i], End(y), t)
  {
    hide Takes, Loaded, GoodConfig, Unknown;
    UptoIsRun(x, i);
    var y := Concludes(Upto(x, i), t);
  }

  lemma Concludes(x: Execution, t: nat) returns (y: Execution)
    requires IsRun(x) && x.cfg.capacity > 0 && x.states != [] && t in End(x).tasks && !End(x).tasks[t].Refused?
    ensures Continues(x, y) && y.states != [] && Concluded(End(x), End(y), t)
  {
    hide IsRun, Unknown;
    ContinuesItself(x);
    var z := x;
    if !End(x).tasks[t].Waiting? && !End(x).tasks[t].Answered? {
      z := ActorIsFound(x, t);
      if End(z).tasks[t].Ready? {
        var sent := LetterIsSent(z, t);
        ContinuesOn(x, z, sent);
        z := sent;
      }
    }
    y := z;
    if End(z).tasks[t].Waiting? {
      y := ReplyIsReceived(z, t);
      ContinuesOn(x, z, y);
    }
    StillThere(x, y, t);
  }

  /**
   * Opening a partition may fail. Then the produce that wanted it is refused, the lock is given back,
   * and the partition is as unregistered as before, with no actor spawned.
   */
  lemma OpenMayFail(x: Execution, i: nat, t: nat)
    requires IsRun(x) && i < |x.states| && t in x.states[i].tasks && x.states[i].tasks[t].Holding?
    requires x.states[i].tasks[t].key !in x.states[i].registry
    ensures exists y :: Continues(Upto(x, i), y) && y.states != [] && FailedToOpen(x.states[i], End(y), t)
  {
    hide Loaded, GoodConfig;
    UptoIsRun(x, i);
    var s := x.states[i];
    var s' := SetTask(s, t, Refused(s.tasks[t].key, s.tasks[t].cmd, OpenFailed)).(writer := None);
    assert Takes(x.cfg, s, OpenFails(t), s');
    ThenIsRun(Upto(x, i), OpenFails(t), s');
    assert FailedToOpen(s, End(Then(Upto(x, i), OpenFails(t), s')), t);
  }

  ghost predicate FailedToOpen(s: State, s': State, t: nat)
    requires t in s.tasks
  {
    && t in s'.tasks && s'.tasks[t] == Refused(s.tasks[t].key, s.tasks[t].cmd, OpenFailed)
    && s'.writer.None? && s'.registry == s.registry && s'.actors == s.actors
  }

  /**
   * So in every state of every run a new request can arrive and be answered, unless it is a fetch of a
   * partition that is not registered.
   */
  lemma EveryRequestCanBeAnswered(x: Execution, i: nat, t: nat, key: Key, cmd: Command)
    requires IsRun(x) && x.cfg.capacity > 0 && i < |x.states| && t !in x.states[i].tasks
    requires cmd.FetchFrom? ==> key in x.states[i].registry
    ensures exists y :: Continues(Upto(x, i), y) && AnsweredIn(y, t, key, cmd)
  {
    hide Loaded, GoodConfig;
    UptoIsRun(x, i);
    var s' := SetTask(x.states[i], t, Idle(key, cmd));
    assert Takes(x.cfg, x.states[i], Arrive(t, key, cmd), s');
    ThenIsRun(Upto(x, i), Arrive(t, key, cmd), s');
    var z := Then(Upto(x, i), Arrive(t, key, cmd), s');
    var y := Concludes(z, t);
    ContinuesOn(Upto(x, i), z, y);
  }

  ghost predicate AnsweredIn(x: Execution, t: nat, key: Key, cmd: Command)
  {
    && x.states != [] && t in End(x).tasks && End(x).tasks[t].Answered?
    && End(x).tasks[t].key == key && End(x).tasks[t].cmd == cmd
  }
}
