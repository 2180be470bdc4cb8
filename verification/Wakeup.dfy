/** Waiting for the disk interrupt: the reading task, the interrupt handler and the
    scheduler in every interleaving. */
module Wakeups {
  import opened Wrappers
  import opened LinkedLists
  import opened Scheduling
  import opened SchedulingRuns

  /** Where the task inside ata_read stands: about to name itself as the task to signal,
      about to start the transfer, about to look at the flag in irq_wait_until, about to
      yield after it has marked itself waiting, or past irq_wait_until. */
  datatype Pc = Outside | Signalling | Starting | Looking | Yielding | Returned

  /** The channel's flag and task to signal, and the task that reads. */
  datatype World = World(sys: Sys, dataReady: bool, signalTask: Option<nat>, reader: nat, pc: Pc)

  datatype Step =
    | Other(op: Op)
    | Begin
    | SetSignal
    | Start
    | Look
    | Yield
    | Finish
    | Irq(raised: bool)

  predicate Reading(w: World) {
    w.sys.current == Some(w.reader)
  }

  /** Interrupts and all steps of other tasks are possible at any point; the reader's own
      steps when it runs.  Looking at the flag and marking the wait happen with
      interrupts disabled and make one step. */
  predicate Allowed(w: World, st: Step) {
    match st
    case Other(op) =>
      && Enabled(w.sys, op)
      && (w.pc != Outside && Reading(w) ==> !op.Kill? && !op.Exit? && !op.Wait?)
    case Begin => w.pc == Outside && Lives(w.sys) && Ready(w.sys, w.sys.current.value)
    case SetSignal => w.pc == Signalling && Reading(w)
    case Start => w.pc == Starting && Reading(w)
    case Look => w.pc == Looking && Reading(w)
    case Yield => w.pc == Yielding && Reading(w)
    case Finish => w.pc == Returned && Reading(w)
    case Irq(raised) => raised ==> w.signalTask.Some? && w.signalTask.value in w.sys.tasks
  }

  function OnSys(w: World, s: Option<Sys>): Option<World> {
    if s.None? then None else Some(w.(sys := s.value))
  }

  function Next(w: World, st: Step): Option<World>
    requires Allowed(w, st)
  {
    match st
    case Other(op) => OnSys(w, Apply(w.sys, op))
    case Begin => Some(w.(dataReady := false, reader := w.sys.current.value, pc := Signalling))
    case SetSignal => Some(w.(signalTask := w.sys.current, pc := Starting))
    case Start => Some(w.(pc := Looking))
    case Look =>
      if w.dataReady then Some(w.(pc := Returned))
      else if w.reader !in w.sys.tasks then None
      else Some(w.(sys := SetTask(w.sys, w.reader, w.sys.tasks[w.reader].(irqWait := true)), pc := Yielding))
    case Yield => OnSys(w.(pc := Looking), Schedule(w.sys))
    case Finish => Some(w.(pc := Outside))
    case Irq(raised) =>
      if !raised then Some(w)
      else
        var t := w.signalTask.value;
        Some(w.(dataReady := true, sys := SetTask(w.sys, t, w.sys.tasks[t].(irqWait := false))))
  }

  predicate MarkedWaiting(w: World) {
    w.reader in w.sys.tasks && w.sys.tasks[w.reader].irqWait
  }

  /** While a read is under way: the reader is alive and in the run list, only a reader in
      irq_wait_until waits, and it does not wait once the data is there. */
  ghost predicate Good(w: World) {
    && Inv(w.sys)
    && (w.pc != Outside ==>
          && w.reader in w.sys.tasks && w.reader in w.sys.queue && w.reader != IDLE && !Doomed(w.sys, w.reader)
          && w.sys.tasks[w.reader].state == Running
          && (w.dataReady ==> !MarkedWaiting(w))
          && (MarkedWaiting(w) ==> w.pc == Yielding || (w.pc == Looking && !Reading(w)))
          && (w.pc == Starting || w.pc == Looking || w.pc == Yielding ==> w.signalTask == Some(w.reader))
          && (w.pc == Returned ==> w.dataReady))
  }

  // ------------------------------------------------------- single steps

  /** A task that is neither killed nor doomed keeps its place among the tasks and in
      the run list. */
  lemma AliveStays(s: Sys, op: Op, t: nat)
    requires Inv(s) && Enabled(s, op) && t in s.queue && !Doomed(s, t) && t in s.tasks
    requires s.current == Some(t) ==> !op.Kill? && !op.Exit? && !op.Wait?
    ensures Apply(s, op).Some? && Inv(Apply(s, op).value)
    ensures var s' := Apply(s, op).value;
      && t in s'.queue && t in s'.tasks && !Doomed(s', t)
      && s'.tasks[t].state == s.tasks[t].state && (s'.tasks[t].irqWait ==> s.tasks[t].irqWait)
      && (s'.current == Some(t) && s.current != Some(t) ==> Ready(s', t))
  {
    StepKeeps(s, op);
    match op
    case Tick =>
      if s.enabled {
        TickOther(s, t);
      }
    case Exit =>
      assert t != s.current.value;
      assert s.tasks[t].process != s.tasks[s.current.value].process;
    case _ =>
  }

  lemma TickOther(s: Sys, t: nat)
    requires Inv(s) && s.enabled && t in s.queue && !Doomed(s, t) && t in s.tasks
    ensures Schedule(s).Some?
    ensures var s' := Schedule(s).value;
      && t in s'.queue && s'.tasks == s.tasks && s'.dead == s.dead
      && (s'.current == Some(t) ==> Ready(s', t))
  {
    var j := TickKeeps(s);
    KilledLeaves(s);
    var s' := Schedule(s).value;
    assert t in Elems(s.queue);
    assert t in Elems(s'.queue);
    assert Ready(s, s.queue[j]);
  }

  lemma OtherGood(w: World, op: Op)
    requires Good(w) && Allowed(w, Other(op))
    ensures Next(w, Other(op)).Some? && Good(Next(w, Other(op)).value)
  {
    StepKeeps(w.sys, op);
    if w.pc != Outside {
      AliveStays(w.sys, op, w.reader);
      if op.Tick? && w.sys.enabled {
        TickOther(w.sys, w.reader);
      }
    }
  }

  lemma YieldGood(w: World)
    requires Good(w) && Allowed(w, Yield)
    ensures Next(w, Yield).Some? && Good(Next(w, Yield).value)
  {
    var _ := TickKeeps(w.sys);
    TickOther(w.sys, w.reader);
  }

  lemma FlagGood(w: World, st: Step)
    requires Good(w) && Allowed(w, st) && (st.Look? || st.Irq?)
    ensures Next(w, st).Some? && Good(Next(w, st).value)
  {
    if st.Look? {
      if !w.dataReady { FlagInv(w.sys, w.reader, true); }
    } else if st.raised {
      FlagInv(w.sys, w.signalTask.value, false);
    }
  }

  lemma BeginGood(w: World)
    requires Good(w) && Allowed(w, Begin)
    ensures Good(Next(w, Begin).value)
  {
    assert OneThread(w.sys, w.sys.current.value);
  }

  /** No step of any interleaving breaks the invariant or stops the kernel. */
  lemma StepGood(w: World, st: Step)
    requires Good(w) && Allowed(w, st)
    ensures Next(w, st).Some? && Good(Next(w, st).value)
  {
    match st
    case Other(op) => OtherGood(w, op);
    case Begin => BeginGood(w);
    case Look => FlagGood(w, st);
    case Irq(_) => FlagGood(w, st);
    case Yield => YieldGood(w);
    case _ =>
  }

  // ------------------------------------------------------------ whole runs

  predicate Runs(w: World, steps: seq<Step>)
    decreases |steps|
  {
    steps == [] ||
    (Allowed(w, steps[0]) && (Next(w, steps[0]).Some? ==> Runs(Next(w, steps[0]).value, steps[1..])))
  }

  function After(w: World, steps: seq<Step>): Option<World>
    requires Runs(w, steps)
    decreases |steps|
  {
    if steps == [] then Some(w)
    else
      match Next(w, steps[0])
      case None => None
      case Some(w') => After(w', steps[1..])
  }

  /** After every interleaving: once the data is there the reader is not marked waiting,
      and irq_wait_until has been left only with the data there. */
  lemma {:induction false} NoLostWakeup(w: World, steps: seq<Step>)
    requires Good(w) && Runs(w, steps)
    ensures After(w, steps).Some?
    ensures var w' := After(w, steps).value;
      && Good(w')
      && (w'.pc != Outside && w'.dataReady ==> Ready(w'.sys, w'.reader))
      && (w'.pc == Returned ==> w'.dataReady)
    decreases |steps|
  {
    if steps != [] {
      StepGood(w, steps[0]);
      NoLostWakeup(Next(w, steps[0]).value, steps[1..]);
    }
  }

  /** The interrupt of a transfer under way is never left out: the task it signals is there. */
  lemma IrqAllowed(w: World)
    requires Good(w) && (w.pc == Starting || w.pc == Looking || w.pc == Yielding)
    ensures Allowed(w, Irq(true))
  {
  }

  /** A transfer has been set up and its interrupt is still to come. */
  predicate Pending(w: World) {
    w.pc != Outside && w.pc != Returned && !w.dataReady
  }

  /** Without an interrupt a pending read stays pending, whatever else happens. */
  lemma {:induction false} StaysPending(w: World, steps: seq<Step>)
    requires Good(w) && Runs(w, steps) && Pending(w) && Irq(true) !in steps
    ensures After(w, steps).Some? && Pending(After(w, steps).value)
    decreases |steps|
  {
    if steps != [] {
      StepGood(w, steps[0]);
      assert steps[0] != Irq(true) && Irq(true) !in steps[1..];
      StaysPending(Next(w, steps[0]).value, steps[1..]);
    }
  }

  /** So does the run up to any of its steps. */
  lemma {:induction false} RunsSplit(w: World, steps: seq<Step>, i: nat) returns (mid: World)
    requires Good(w) && Runs(w, steps) && i <= |steps|
    ensures Runs(w, steps[..i]) && After(w, steps[..i]) == Some(mid) && Good(mid)
    ensures Runs(mid, steps[i..]) && After(mid, steps[i..]) == After(w, steps)
    decreases |steps|
  {
    if i == 0 {
      mid := w;
      assert steps[i..] == steps;
    } else {
      StepGood(w, steps[0]);
      mid := RunsSplit(Next(w, steps[0]).value, steps[1..], i - 1);
      assert steps[..i][1..] == steps[1..][..i - 1] && steps[i..] == steps[1..][i - 1..];
    }
  }

  /** Over all runs: between the start of a read and any later moment past irq_wait_until,
      an interrupt has come.  The data is never that of an earlier transfer. */
  lemma OwnInterrupt(w: World, steps: seq<Step>, i: nat, j: nat)
    requires Good(w) && Runs(w, steps) && i < j <= |steps| && steps[i] == Begin
    requires Runs(w, steps[..j]) && After(w, steps[..j]).Some? && After(w, steps[..j]).value.pc == Returned
    ensures exists k :: i < k < j && steps[k] == Irq(true)
  {
    var before := RunsSplit(w, steps[..j], i);
    assert steps[..j][i..] == steps[i..j];
    BeginPends(before, steps[i..j]);
    var m :| 1 <= m < |steps[i..j]| && steps[i..j][m] == Irq(true);
    assert steps[i + m] == Irq(true);
  }

  /** A run that begins a read and ends past its wait has an interrupt in it. */
  lemma BeginPends(w: World, steps: seq<Step>)
    requires Good(w) && Runs(w, steps) && steps != [] && steps[0] == Begin
    requires After(w, steps).Some? && After(w, steps).value.pc == Returned
    ensures exists m :: 1 <= m < |steps| && steps[m] == Irq(true)
  {
    StepGood(w, Begin);
    var rest := steps[1..];
    if Irq(true) in rest {
      var m :| 0 <= m < |rest| && rest[m] == Irq(true);
      assert steps[m + 1] == Irq(true);
    } else {
      StaysPending(Next(w, Begin).value, rest);
    }
  }

  /** An interrupt that is still due when the device is started is the one that ends the wait:
      with none since the read began, one comes between the start and the end of the wait. */
  lemma InterruptAfterStart(w: World, steps: seq<Step>, i: nat, m: nat, j: nat)
    requires Good(w) && Runs(w, steps) && i < m < j <= |steps| && steps[i] == Begin && steps[m] == Start
    requires Runs(w, steps[..j]) && After(w, steps[..j]).Some? && After(w, steps[..j]).value.pc == Returned
    requires forall k | i < k < m :: steps[k] != Irq(true)
    ensures exists k :: m < k < j && steps[k] == Irq(true)
  {
    OwnInterrupt(w, steps, i, j);
  }

  /** Nothing is being read at start-up. */
  lemma StartGood(sys: Sys, ready: bool, signal: Option<nat>, reader: nat)
    requires Inv(sys)
    ensures Good(World(sys, ready, signal, reader, Outside))
  {
  }

  // -------------------------------------------------------------- progress

  function Decisions(steps: seq<Step>): nat {
    if steps == [] then 0 else (if IsDecision(steps[0]) then 1 else 0) + Decisions(steps[1..])
  }

  predicate IsDecision(st: Step) {
    st.Yield? || st == Other(Tick)
  }

  predicate InWait(w: World) {
    w.pc == Looking || w.pc == Yielding
  }

  /** The reader gets the processor in some decision of the run, or leaves irq_wait_until. */
  predicate Woken(w: World, steps: seq<Step>)
    requires Runs(w, steps)
    decreases |steps|
  {
    steps != [] && Next(w, steps[0]).Some? &&
    (var w' := Next(w, steps[0]).value;
     || (IsDecision(steps[0]) && Reading(w')) || w'.pc == Returned
     || Woken(w', steps[1..]))
  }

  /** One step of a wait that is over: the reader is dispatched, leaves, or moves up. */
  lemma WokenStep(w: World, st: Step)
    requires Good(w) && Allowed(w, st) && InWait(w) && w.dataReady && w.sys.enabled
    ensures Next(w, st).Some? && Good(Next(w, st).value)
    ensures var w' := Next(w, st).value;
      || (IsDecision(st) && Reading(w')) || w'.pc == Returned
      || (InWait(w') && w'.dataReady && w'.sys.enabled && w'.reader == w.reader &&
          IndexOf(w'.sys.queue, w.reader) + (if IsDecision(st) then 1 else 0) <= IndexOf(w.sys.queue, w.reader))
  {
    StepGood(w, st);
    match st
    case Other(op) => Nearer(w.sys, op, w.reader);
    case Yield => Nearer(w.sys, Tick, w.reader);
    case _ =>
  }

  /** A reader whose data has arrived is dispatched within as many decisions as its place
      in the run list asks for, whatever the others do. */
  lemma {:induction false} WakeupServed(w: World, steps: seq<Step>)
    requires Good(w) && Runs(w, steps) && InWait(w) && w.dataReady && w.sys.enabled
    requires Decisions(steps) > IndexOf(w.sys.queue, w.reader)
    ensures Woken(w, steps)
    decreases |steps|
  {
    WokenStep(w, steps[0]);
    var w' := Next(w, steps[0]).value;
    if !((IsDecision(steps[0]) && Reading(w')) || w'.pc == Returned) {
      WakeupServed(w', steps[1..]);
    }
  }
}
