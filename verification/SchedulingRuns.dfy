/** Every run of the scheduler: nothing is freed too early, the kernel never stops, and
    a task that can run does not wait longer than its place in the list. */
module SchedulingRuns {
  import opened Wrappers
  import opened LinkedLists
  import opened Scheduling

  // -------------------------------------------------------- the invariant

  lemma InitInv()
    ensures Inv(Init())
  {
    var s := Init();
    assert s.queue[1] == IDLE;
    assert OneThread(s, CLEANUP) && OneThread(s, IDLE);
  }

  lemma CreateInv(s: Sys, user: bool)
    requires Inv(s)
    ensures Inv(Apply(s, Create(user)).value)
  {
    var s' := Apply(s, Create(user)).value;
    var t := s.nextTid;
    assert t !in s.tasks;
    assert t !in s.all by {
      assert t !in Elems(s.all);
    }
    assert Elems(s'.all) == Elems(s.all) + {t};
    forall u | u in s'.tasks
      ensures OneThread(s', u)
    {
      assert u != t ==> OneThread(s, u);
    }
    forall u, v | u in s'.tasks && v in s'.tasks && u != v && s'.tasks[u].process.Some?
      ensures s'.tasks[u].process != s'.tasks[v].process
    {
      assert u != t ==> OneThread(s, u);
      assert v != t ==> OneThread(s, v);
    }
  }

  lemma Appended(q: seq<nat>, t: nat, x: nat)
    requires x in q
    ensures IndexOf(q + [t], x) == IndexOf(q, x)
  {
    var k := IndexOf(q, x);
    NotBefore(q, x);
    assert (q + [t])[..k] == q[..k];
    FirstIs(q + [t], x, k);
  }

  lemma InsertInv(s: Sys, t: nat)
    requires Inv(s) && Enabled(s, Insert(t))
    ensures Inv(Apply(s, Insert(t)).value)
  {
    var s' := Apply(s, Insert(t)).value;
    Appended(s.queue, t, IDLE);
    if s.current.Some? { Appended(s.queue, t, s.current.value); }
    forall u | u in s'.tasks
      ensures OneThread(s', u)
    {
      assert OneThread(s, u);
    }
    assert s'.queue[IndexOf(s.queue, IDLE)] == IDLE;
  }

  lemma KillInv(s: Sys, op: Op)
    requires Inv(s) && Enabled(s, op) && (op.Kill? || op.Exit?)
    ensures Inv(Apply(s, op).value)
  {
    var s' := Apply(s, op).value;
    var c := s.current.value;
    assert OneThread(s, c);
    forall u | u in s'.tasks
      ensures OneThread(s', u)
    {
      assert OneThread(s, u);
    }
    assert s'.tasks.Keys == s.tasks.Keys;
  }

  lemma FlagInv(s: Sys, t: nat, wait: bool)
    requires Inv(s) && t in s.tasks && (wait ==> t != IDLE)
    ensures Inv(SetTask(s, t, s.tasks[t].(irqWait := wait)))
  {
    var s' := SetTask(s, t, s.tasks[t].(irqWait := wait));
    forall u | u in s'.tasks
      ensures OneThread(s', u)
    {
      assert OneThread(s, u);
    }
    assert s'.tasks.Keys == s.tasks.Keys;
  }

  /** What the cleanup task finds killed is neither running nor in the run list. */
  lemma ReapSafe(s: Sys, t: nat)
    requires Inv(s) && Enabled(s, Reap(t))
    ensures t !in s.queue && s.current != Some(t) && t != IDLE && t != CLEANUP
  {
  }

  lemma ReapInv(s: Sys, t: nat)
    requires Inv(s) && Enabled(s, Reap(t))
    ensures Inv(Apply(s, Reap(t)).value)
  {
    var s' := Apply(s, Reap(t)).value;
    ReapSafe(s, t);
    RemovedElems(s.all, t);
    forall u | u in s'.tasks
      ensures OneThread(s', u)
    {
      assert OneThread(s, u);
    }
  }

  /** No step stops the kernel, and each keeps the invariant. */
  lemma StepKeeps(s: Sys, op: Op)
    requires Inv(s) && Enabled(s, op)
    ensures Apply(s, op).Some? && Inv(Apply(s, op).value)
  {
    match op
    case Enable => EnableInv(s);
    case Tick => if s.enabled { var _ := TickKeeps(s); }
    case Create(user) => CreateInv(s, user);
    case Insert(t) => InsertInv(s, t);
    case Kill => KillInv(s, op);
    case Exit => KillInv(s, op);
    case Wait => FlagInv(s, s.current.value, true);
    case Signal(t) => FlagInv(s, t, false);
    case Reap(t) => ReapInv(s, t);
  }

  lemma EnableInv(s: Sys)
    requires Inv(s)
    ensures Inv(s.(enabled := true))
  {
    forall u | u in s.tasks
      ensures OneThread(s.(enabled := true), u)
    {
      assert OneThread(s, u);
    }
  }

  // ------------------------------------------------------------ whole runs

  function Run(s: Sys, ops: seq<Op>): Option<Sys>
    requires Runnable(s, ops)
    decreases |ops|
  {
    if ops == [] then Some(s)
    else
      match Apply(s, ops[0])
      case None => None
      case Some(s') => Run(s', ops[1..])
  }

  predicate Runnable(s: Sys, ops: seq<Op>)
    decreases |ops|
  {
    ops == [] ||
    (Enabled(s, ops[0]) && (Apply(s, ops[0]).Some? ==> Runnable(Apply(s, ops[0]).value, ops[1..])))
  }

  /** From start-up, no run stops the kernel, and after every run a task that could be
      reaped is neither running nor in the run list. */
  lemma RunsAreSafe(ops: seq<Op>)
    requires Runnable(Init(), ops)
    ensures Run(Init(), ops).Some?
    ensures var s := Run(Init(), ops).value;
      Inv(s) && forall t | Enabled(s, Reap(t)) :: t !in s.queue && s.current != Some(t)
  {
    InitInv();
    RunKeeps(Init(), ops);
    var s := Run(Init(), ops).value;
    forall t | Enabled(s, Reap(t))
      ensures t !in s.queue && s.current != Some(t)
    {
      ReapSafe(s, t);
    }
  }

  lemma {:induction false} RunKeeps(s: Sys, ops: seq<Op>)
    requires Inv(s) && Runnable(s, ops)
    ensures Run(s, ops).Some? && Inv(Run(s, ops).value)
    decreases |ops|
  {
    if ops != [] {
      StepKeeps(s, ops[0]);
      RunKeeps(Apply(s, ops[0]).value, ops[1..]);
    }
  }

  /** A killed task is off the run list after one scheduling decision, and every other
      task is still on it. */
  lemma KilledLeaves(s: Sys)
    requires Inv(s) && s.enabled
    ensures Schedule(s).Some?
    ensures var s' := Schedule(s).value;
      && Elems(s'.queue) == Elems(s.queue) - (if Leaver(s).Some? then {Leaver(s).value} else {})
      && s'.tasks == s.tasks && forall t | t in s'.queue :: t in s'.tasks && s'.tasks[t].state != Killed
  {
    var j := TickKeeps(s);
    TickExactly(s, j);
    AfterQueue(s.queue, j, Leaver(s));
    var s' := Schedule(s).value;
    forall t | t in s'.queue
      ensures t in s'.tasks && s'.tasks[t].state != Killed
    {
      assert t in Elems(s'.queue);
    }
  }

  // ---------------------------------------------------- what a decision picks

  /** A decision goes to the first task of the run list that is running, waits for no
      interrupt and belongs to no dead process; every task before it is killed, waits, or
      belongs to one. */
  lemma PicksFirst(s: Sys) returns (j: nat)
    requires Inv(s) && s.enabled
    ensures j < |s.queue| && Schedule(s).Some? && Schedule(s).value.current == Some(s.queue[j])
    ensures s.queue[j] in s.tasks
    ensures var t := s.tasks[s.queue[j]];
      t.state == Running && !t.irqWait && (t.process.Some? ==> t.process.value !in s.dead)
    ensures forall i | 0 <= i < j ::
      && s.queue[i] in s.tasks
      && var t := s.tasks[s.queue[i]];
         t.state == Killed || t.irqWait || (t.process.Some? && t.process.value in s.dead)
  {
    j := TickKeeps(s);
  }

  /** No decision of any run is for a task that waits until it is signalled. */
  lemma {:induction false} WaitsForSignal(s: Sys, ops: seq<Op>, t: nat)
    requires Inv(s) && Runnable(s, ops) && t < s.nextTid && (t in s.tasks ==> s.tasks[t].irqWait)
    requires Signal(t) !in ops
    ensures !Dispatched(s, ops, t)
    decreases |ops|
  {
    if ops != [] {
      StepKeeps(s, ops[0]);
      var s' := Apply(s, ops[0]).value;
      assert ops[0] != Signal(t);
      StaysWaiting(s, ops[0], t);
      WaitsForSignal(s', ops[1..], t);
    }
  }

  lemma StaysWaiting(s: Sys, op: Op, t: nat)
    requires Inv(s) && Enabled(s, op) && t < s.nextTid && (t in s.tasks ==> s.tasks[t].irqWait) && op != Signal(t)
    ensures Apply(s, op).Some?
    ensures var s' := Apply(s, op).value;
      && t < s'.nextTid && (t in s'.tasks ==> s'.tasks[t].irqWait) && (op.Tick? ==> s'.current != Some(t))
  {
    StepKeeps(s, op);
    if op.Tick? && s.enabled { var j := TickKeeps(s); }
  }

  /** So a task that has begun to wait gets no decision before its signal. */
  lemma WaitHolds(s: Sys, ops: seq<Op>)
    requires Inv(s) && Enabled(s, Wait) && Runnable(Apply(s, Wait).value, ops) && Signal(s.current.value) !in ops
    ensures !Dispatched(Apply(s, Wait).value, ops, s.current.value)
  {
    assert OneThread(s, s.current.value);
    FlagInv(s, s.current.value, true);
    WaitsForSignal(Apply(s, Wait).value, ops, s.current.value);
  }

  /** The signal: a task that is neither killed nor of a dead process can run again. */
  lemma SignalWakes(s: Sys, t: nat)
    requires t in s.tasks
    ensures var s' := Apply(s, Signal(t)).value;
      && s'.tasks.Keys == s.tasks.Keys && s' == s.(tasks := s'.tasks)
      && (forall u | u in s.tasks && u != t :: s'.tasks[u] == s.tasks[u])
      && (Ready(s', t) <==>
            s.tasks[t].state == Running && (s.tasks[t].process.Some? ==> s.tasks[t].process.value !in s.dead))
  {
  }

  /** A new task, once inserted, can run, and is dispatched within as many decisions as the
      run list is long, unless it stops being able to. */
  lemma NewTaskServed(s: Sys, user: bool, ops: seq<Op>)
    requires Inv(s) && s.enabled
    requires var s1 := Apply(s, Create(user)).value;
      && Enabled(s1, Insert(s.nextTid)) && Runnable(Apply(s1, Insert(s.nextTid)).value, ops)
      && StaysReady(Apply(s1, Insert(s.nextTid)).value, ops, s.nextTid) && Ticks(ops) > |s.queue|
    ensures Dispatched(Apply(Apply(s, Create(user)).value, Insert(s.nextTid)).value, ops, s.nextTid)
  {
    CreateInv(s, user);
    var s1 := Apply(s, Create(user)).value;
    StepKeeps(s1, Insert(s.nextTid));
    var s2 := Apply(s1, Insert(s.nextTid)).value;
    FirstIs(s2.queue, s.nextTid, |s.queue|);
    BoundedWaiting(s2, ops, s.nextTid);
  }

  /** It is one that may be inserted, and then can run. */
  lemma NewTaskReady(s: Sys, user: bool)
    requires Inv(s)
    ensures var s1 := Apply(s, Create(user)).value;
      Enabled(s1, Insert(s.nextTid)) && Ready(Apply(s1, Insert(s.nextTid)).value, s.nextTid)
  {
    forall t | t in s.queue
      ensures t != s.nextTid
    {
      assert OneThread(s, t);
    }
    assert user ==> s.nextPid !in s.dead;
  }

  // ------------------------------------------------------------------- exit

  /** exit kills the running task and its process, whatever threads that has, and changes
      no other task and no other process. */
  lemma ExitExactly(s: Sys)
    requires Enabled(s, Exit)
    ensures var s', c := Apply(s, Exit).value, s.current.value;
      && s'.dead == s.dead + {s.tasks[c].process.value} && s'.tasks.Keys == s.tasks.Keys
      && s'.tasks[c] == Task(Killed, s.tasks[c].irqWait, s.tasks[c].process)
      && (forall t | t in s.tasks && t != c :: s'.tasks[t] == s.tasks[t])
      && s' == s.(dead := s'.dead, tasks := s'.tasks)
      && forall t | t in s.tasks && s.tasks[t].process == s.tasks[c].process :: !Ready(s', t)
  {
  }

  /** No thread of a dead process is ever given the processor again. */
  lemma {:induction false} DeadForever(s: Sys, ops: seq<Op>, p: nat, t: nat)
    requires Inv(s) && Runnable(s, ops) && p in s.dead && t < s.nextTid
    requires t in s.tasks ==> s.tasks[t].process == Some(p)
    ensures !Dispatched(s, ops, t)
    decreases |ops|
  {
    if ops != [] {
      StepKeeps(s, ops[0]);
      if ops[0].Tick? && s.enabled { var j := TickKeeps(s); }
      DeadForever(Apply(s, ops[0]).value, ops[1..], p, t);
    }
  }

  // ------------------------------------------------------- bounded waiting

  function Ticks(ops: seq<Op>): nat {
    if ops == [] then 0 else (if ops[0].Tick? then 1 else 0) + Ticks(ops[1..])
  }

  /** Whenever a decision is taken, the task can run. */
  predicate StaysReady(s: Sys, ops: seq<Op>, t: nat)
    requires Runnable(s, ops)
    decreases |ops|
  {
    ops == [] ||
    ((ops[0].Tick? ==> Ready(s, t)) &&
     (Apply(s, ops[0]).Some? ==> StaysReady(Apply(s, ops[0]).value, ops[1..], t)))
  }

  /** Some decision of the run is for the task. */
  predicate Dispatched(s: Sys, ops: seq<Op>, t: nat)
    requires Runnable(s, ops)
    decreases |ops|
  {
    ops != [] && Apply(s, ops[0]).Some? &&
    ((ops[0].Tick? && Apply(s, ops[0]).value.current == Some(t)) ||
     Dispatched(Apply(s, ops[0]).value, ops[1..], t))
  }

  lemma TickMoves(s: Sys, t: nat)
    requires Inv(s) && s.enabled && t in s.queue && Ready(s, t)
    ensures Schedule(s).Some?
    ensures var s' := Schedule(s).value;
      s'.current == Some(t) || (t in s'.queue && IndexOf(s'.queue, t) < IndexOf(s.queue, t))
  {
    var j := SomeReady(s);
    TickExactly(s, j);
    var k := IndexOf(s.queue, t);
    if j < k {
      MovesUp(s.queue, j, Leaver(s), t, k);
    }
  }

  /** A step that is no decision leaves a task where it is in the run list. */
  lemma StepStays(s: Sys, op: Op, t: nat)
    requires Inv(s) && Enabled(s, op) && !op.Tick? && t in s.queue
    ensures Apply(s, op).Some?
    ensures var s' := Apply(s, op).value;
      t in s'.queue && IndexOf(s'.queue, t) == IndexOf(s.queue, t) && (s.enabled ==> s'.enabled)
  {
    if op.Insert? {
      Appended(s.queue, op.t, t);
      assert t in s.queue + [op.t];
    }
  }

  /** A step brings the task nearer, or hands it the processor. */
  lemma Nearer(s: Sys, op: Op, t: nat)
    requires Inv(s) && s.enabled && Enabled(s, op) && t in s.queue && (op.Tick? ==> Ready(s, t))
    ensures Apply(s, op).Some? && Inv(Apply(s, op).value) && Apply(s, op).value.enabled
    ensures var s' := Apply(s, op).value;
      || (op.Tick? && s'.current == Some(t))
      || (t in s'.queue && IndexOf(s'.queue, t) + (if op.Tick? then 1 else 0) <= IndexOf(s.queue, t))
  {
    StepKeeps(s, op);
    if op.Tick? {
      var _ := TickKeeps(s);
      TickMoves(s, t);
    } else {
      StepStays(s, op, t);
    }
  }

  /** A task at place k of the run list that can run whenever a decision is taken is
      dispatched within k + 1 decisions, whatever the other tasks do. */
  lemma {:induction false} BoundedWaiting(s: Sys, ops: seq<Op>, t: nat)
    requires Inv(s) && s.enabled && Runnable(s, ops) && t in s.queue && StaysReady(s, ops, t)
    requires Ticks(ops) > IndexOf(s.queue, t)
    ensures Dispatched(s, ops, t)
    decreases |ops|
  {
    Nearer(s, ops[0], t);
    var s' := Apply(s, ops[0]).value;
    if !(ops[0].Tick? && s'.current == Some(t)) {
      BoundedWaiting(s', ops[1..], t);
    }
  }

  // ------------------------------------------------ exit taken as two steps

  /** A user task runs behind the two system tasks. */
  function UserRunning(): Sys {
    Sys(map[CLEANUP := KERNEL_TASK, IDLE := KERNEL_TASK, 3 := Task(Running, false, Some(1))], {},
        [CLEANUP, IDLE, 3], Some(3), [CLEANUP, IDLE, 3], true, 4, 2)
  }

  function ToUser(): seq<Op> {
    [Enable, Create(true), Insert(3)] + [Tick, Tick, Tick]
  }

  lemma {:induction false} RunAppend(s: Sys, a: seq<Op>, b: seq<Op>)
    requires Runnable(s, a) && Run(s, a).Some? && Runnable(Run(s, a).value, b)
    ensures Runnable(s, a + b) && Run(s, a + b) == Run(Run(s, a).value, b)
    decreases |a|
  {
    if a == [] {
      assert a + b == b;
    } else {
      assert (a + b)[1..] == a[1..] + b;
      RunAppend(Apply(s, a[0]).value, a[1..], b);
    }
  }

  lemma RunOne(s: Sys, op: Op)
    requires Enabled(s, op)
    ensures Runnable(s, [op]) && Run(s, [op]) == Apply(s, op)
  {
  }

  /** The run that leads there. */
  lemma UserReached()
    ensures Runnable(Init(), ToUser()) && Run(Init(), ToUser()) == Some(UserRunning())
  {
    var tasks := map[CLEANUP := KERNEL_TASK, IDLE := KERNEL_TASK, 3 := Task(Running, false, Some(1))];
    var a := [Enable, Create(true), Insert(3)];
    var s3 := Sys(tasks, {}, [CLEANUP, IDLE, 3], None, [CLEANUP, IDLE, 3], true, 4, 2);
    var s1 := Init().(enabled := true);
    var s2 := s3.(queue := [CLEANUP, IDLE]);
    assert [CLEANUP, IDLE] + [3] == [CLEANUP, IDLE, 3];
    assert Apply(s1, Create(true)) == Some(s2);
    assert Apply(s2, Insert(3)) == Some(s3);
    assert a[1..] == [Create(true), Insert(3)] && a[1..][1..] == [Insert(3)];
    RunOne(s2, Insert(3));
    assert Runnable(s1, a[1..]) && Run(s1, a[1..]) == Some(s3);
    assert Runnable(Init(), a) && Run(Init(), a) == Some(s3);
    var s4 := s3.(queue := [IDLE, 3, CLEANUP], current := Some(CLEANUP));
    var s5 := s3.(queue := [3, CLEANUP, IDLE], current := Some(IDLE));
    var b := [Tick, Tick, Tick];
    assert Rotate([CLEANUP, IDLE, 3]) == [IDLE, 3, CLEANUP] && Rotate([IDLE, 3, CLEANUP]) == [3, CLEANUP, IDLE]
        && Rotate([3, CLEANUP, IDLE]) == [CLEANUP, IDLE, 3];
    TickFirst(s3);
    TickFirst(s4);
    TickFirst(s5);
    assert b[1..] == [Tick, Tick] && b[1..][1..] == [Tick];
    RunOne(s5, Tick);
    assert Schedule(s5) == Some(s3.(queue := [CLEANUP, IDLE, 3], current := Some(3)));
    assert Runnable(s4, b[1..]) && Run(s4, b[1..]) == Schedule(s5);
    assert Runnable(s3, b) && Run(s3, b) == Schedule(s5);
    RunAppend(Init(), a, b);
  }

  /** The same run list, one decision after another, once the process of task 3 is
      marked killed but the task itself not yet. */
  function Marked(queue: seq<nat>, current: nat, state: TaskState): Sys {
    Sys(map[CLEANUP := KERNEL_TASK, IDLE := KERNEL_TASK, 3 := Task(state, false, Some(1))], {1},
        queue, Some(current), [CLEANUP, IDLE, 3], true, 4, 2)
  }

  lemma TickFirst(s: Sys)
    requires s.queue != [] && Ready(s, s.queue[0]) && s.enabled
    requires s.current.Some? ==> s.current.value in s.tasks && s.tasks[s.current.value].state != Killed
    ensures Schedule(s) == Some(s.(queue := Rotate(s.queue), current := Some(s.queue[0])))
  {
    assert LoopTurn(s) == Dispatch(s.queue[0], s.(queue := Rotate(s.queue)));
  }

  /** With a decision between the two writes of sys_exit, the third decision takes the
      idle task off the run list instead of the exiting one, and the next stops the
      kernel. */
  lemma SplitExitFails()
    ensures Runnable(Init(), ToUser()) && Run(Init(), ToUser()) == Some(UserRunning())
    ensures Enabled(UserRunning(), Exit)
    ensures var s0 := MarkProcess(UserRunning());
      && Schedule(s0) == Some(Marked([IDLE, 3, CLEANUP], CLEANUP, Running))
      && Schedule(Marked([IDLE, 3, CLEANUP], CLEANUP, Running)) == Some(Marked([3, CLEANUP, IDLE], IDLE, Running))
      && Schedule(Marked([3, CLEANUP, IDLE], IDLE, Running)) == Some(Marked([3, CLEANUP], CLEANUP, Killed))
      && Schedule(Marked([3, CLEANUP], CLEANUP, Killed)) == None
  {
    UserReached();
    FirstTicks();
    ThirdTick();
    FourthTick();
  }

  lemma FirstTicks()
    ensures Schedule(MarkProcess(UserRunning())) == Some(Marked([IDLE, 3, CLEANUP], CLEANUP, Running))
    ensures Schedule(Marked([IDLE, 3, CLEANUP], CLEANUP, Running)) == Some(Marked([3, CLEANUP, IDLE], IDLE, Running))
  {
    var s0 := MarkProcess(UserRunning());
    assert s0 == Marked([CLEANUP, IDLE, 3], 3, Running);
    assert Rotate([CLEANUP, IDLE, 3]) == [IDLE, 3, CLEANUP] && Rotate([IDLE, 3, CLEANUP]) == [3, CLEANUP, IDLE];
    TickFirst(s0);
    TickFirst(Marked([IDLE, 3, CLEANUP], CLEANUP, Running));
  }

  lemma ThirdTick()
    ensures Schedule(Marked([3, CLEANUP, IDLE], IDLE, Running)) == Some(Marked([3, CLEANUP], CLEANUP, Killed))
  {
    var s := Marked([3, CLEANUP, IDLE], IDLE, Running);
    var s1 := Marked([CLEANUP, 3], IDLE, Killed);
    var s2 := Marked([3, CLEANUP], IDLE, Killed);
    ExamineMarked([3, CLEANUP, IDLE], IDLE, Running);
    assert Rotate(s.queue) == [CLEANUP, IDLE, 3];
    UniqueIndex([CLEANUP, IDLE, 3], 1);
    assert [CLEANUP, IDLE, 3][1] == IDLE && RemoveAt([CLEANUP, IDLE, 3], 1) == [CLEANUP, 3];
    assert LoopTurn(s) == Again(s1);
    assert Rotate([CLEANUP, 3]) == [3, CLEANUP];
    assert LoopTurn(s1) == Dispatch(CLEANUP, s2);
    assert Loop(s, 3) == Loop(s1, 2) == Dispatch(CLEANUP, s2);
    assert Switch(s2, CLEANUP) == Some(Marked([3, CLEANUP], CLEANUP, Killed));
  }

  /** Task 3 is examined while its process is marked: the running task leaves the list. */
  lemma ExamineMarked(queue: seq<nat>, current: nat, state: TaskState)
    requires queue != [] && queue[0] == 3 && current in Rotate(queue)
    ensures LoopTurn(Marked(queue, current, state)) ==
      Again(Marked(RemoveAt(Rotate(queue), IndexOf(Rotate(queue), current)), current, Killed))
  {
    var s := Marked(queue, current, state);
    assert Doomed(s.(queue := Rotate(queue)), 3);
    assert s.tasks[3 := s.tasks[3].(state := Killed)] == Marked(queue, current, Killed).tasks;
  }

  lemma FourthTick()
    ensures Schedule(Marked([3, CLEANUP], CLEANUP, Killed)) == None
  {
    var s := Marked([3, CLEANUP], CLEANUP, Killed);
    var s1 := Marked([3], CLEANUP, Killed);
    assert Rotate(s.queue) == [CLEANUP, 3];
    assert [CLEANUP, 3][0] == CLEANUP;
    ExamineMarked([3, CLEANUP], CLEANUP, Killed);
    UniqueIndex([CLEANUP, 3], 0);
    assert RemoveAt([CLEANUP, 3], 0) == [3];
    assert LoopTurn(s) == Again(s1);
    assert LoopTurn(s1) == Panic;
    assert Loop(s, 2) == Loop(s1, 1) == Panic;
  }
}
