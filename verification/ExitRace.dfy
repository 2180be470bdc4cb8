/** What a scheduling decision between the two writes of sys_exit leads to. */
module ExitRace {
  import opened Wrappers
  import opened LinkedLists
  import opened Scheduling
  import opened SchedulingRuns
  import opened MeantLoop

  // -------------------------------------- a decision between the two writes

  /** The state without the mark on the process of task c. */
  function Unmarked(s: Sys, c: nat): Sys
    requires c in s.tasks && s.tasks[c].process.Some?
  {
    s.(dead := s.dead - {s.tasks[c].process.value})
  }

  /** The state with process p marked. */
  function Marked(u: Sys, p: nat): Sys {
    u.(dead := u.dead + {p})
  }

  /** Task c has marked its process killed, not yet itself, and has lost the processor; all
      else is in order. */
  ghost predicate HalfDead(s: Sys, c: nat) {
    && c in s.tasks && s.tasks[c].process.Some? && s.tasks[c].state == Running && c in s.queue
    && s.tasks[c].process.value in s.dead && s.current.Some? && s.current != Some(c)
    && Inv(Unmarked(s, c))
  }

  /** The mark concerns task c alone. */
  lemma OthersUnmarked(s: Sys, c: nat, x: nat)
    requires HalfDead(s, c) && x in s.tasks && x != c
    ensures Doomed(s, x) == Doomed(Unmarked(s, c), x) && Ready(s, x) == Ready(Unmarked(s, c), x)
  {
    var u := Unmarked(s, c);
    assert u.tasks[c].process.Some? && u.tasks[c].process != u.tasks[x].process;
  }

  lemma PrefixSame(s: Sys, c: nat, j: nat)
    requires HalfDead(s, c) && j <= IndexOf(s.queue, c)
    ensures forall i | 0 <= i < j :: s.queue[i] in s.tasks && s.queue[i] != c
    ensures forall i | 0 <= i < j :: Doomed(s, s.queue[i]) == Doomed(Unmarked(s, c), s.queue[i])
    ensures forall i | 0 <= i < j :: Ready(s, s.queue[i]) == Ready(Unmarked(s, c), s.queue[i])
  {
    var k := IndexOf(s.queue, c);
    assert Known(Unmarked(s, c)) && Unique(s.queue);
    forall i | 0 <= i < j
      ensures s.queue[i] in s.tasks && s.queue[i] != c
      ensures Doomed(s, s.queue[i]) == Doomed(Unmarked(s, c), s.queue[i])
      ensures Ready(s, s.queue[i]) == Ready(Unmarked(s, c), s.queue[i])
    {
      assert s.queue[k] == c && s.queue[i] in Unmarked(s, c).tasks;
      OthersUnmarked(s, c, s.queue[i]);
    }
  }

  /** A run list has lost a task that is not killed. */
  ghost predicate Loses(s: Sys, s': Sys) {
    exists t :: t in s.queue && t in s.tasks && !Doomed(s, t) && t !in s'.queue
  }

  // ------------------------------------------------ task c is not reached yet

  /** A task that can run stands before task c: the decision is as without the mark. */
  lemma TickBefore(s: Sys, c: nat, j: nat)
    requires HalfDead(s, c) && FirstReady(Unmarked(s, c), j) && NoneDoomed(Unmarked(s, c), j)
    requires j < IndexOf(s.queue, c)
    ensures Schedule(s).Some? && HalfDead(Schedule(s).value, c)
    ensures IndexOf(Schedule(s).value.queue, c) < IndexOf(s.queue, c)
  {
    var u := Unmarked(s, c);
    var j' := TickKeeps(u);
    TickExactly(u, j);
    BeforeSchedules(s, c, j);
    MovesUp(u.queue, j, Leaver(u), c, IndexOf(s.queue, c));
    StillHalfDead(s, c, Schedule(u).value);
  }

  lemma StillHalfDead(s: Sys, c: nat, u': Sys)
    requires HalfDead(s, c) && Inv(u') && c in u'.queue && u'.current.Some? && u'.current != Some(c)
    requires u'.tasks == s.tasks && u'.dead == Unmarked(s, c).dead
    ensures HalfDead(Marked(u', s.tasks[c].process.value), c)
  {
    var p := s.tasks[c].process.value;
    assert u'.dead + {p} - {p} == u'.dead;
    assert Unmarked(Marked(u', p), c) == u';
  }

  lemma BeforeFirst(s: Sys, c: nat, j: nat)
    requires HalfDead(s, c) && FirstReady(Unmarked(s, c), j) && NoneDoomed(Unmarked(s, c), j)
    requires j < IndexOf(s.queue, c)
    ensures Known(s) && FirstReady(s, j) && NoneDoomed(s, j)
  {
    PrefixSame(s, c, j + 1);
    assert Known(Unmarked(s, c));
  }

  lemma BeforeSchedules(s: Sys, c: nat, j: nat)
    requires HalfDead(s, c) && FirstReady(Unmarked(s, c), j) && NoneDoomed(Unmarked(s, c), j)
    requires j < IndexOf(s.queue, c) && Schedule(Unmarked(s, c)).Some?
    ensures Schedule(s) == Some(Marked(Schedule(Unmarked(s, c)).value, s.tasks[c].process.value))
  {
    var u := Unmarked(s, c);
    var v := u.(queue := RotateBy(u.queue, j + 1));
    BeforeFirst(s, c, j);
    RotatedDecision(s, j);
    RotatedDecision(u, j);
    var p := s.tasks[c].process.value;
    assert u.dead + {p} == s.dead;
    assert s.(queue := v.queue) == Marked(v, p);
    SwitchMarked(v, p, s.queue[j]);
  }

  /** A decision with no killed task in front. */
  lemma RotatedDecision(s: Sys, j: nat)
    requires s.enabled && Known(s) && FirstReady(s, j) && NoneDoomed(s, j)
    ensures Schedule(s) == Switch(s.(queue := RotateBy(s.queue, j + 1)), s.queue[j])
  {
    LoopRotates(s, j, |s.queue|);
  }

  lemma SwitchMarked(u: Sys, p: nat, next: nat)
    requires Switch(u, next).Some?
    ensures Switch(Marked(u, p), next) == Some(Marked(Switch(u, next).value, p))
  {
  }

  // -------------------------------------------------------- task c is reached

  /** A task in front that can neither run nor is killed is passed over. */
  lemma SkipOne(s: Sys, n: nat)
    requires n > 0 && s.queue != [] && s.queue[0] in s.tasks && !Ready(s, s.queue[0]) && !Doomed(s, s.queue[0])
    ensures Loop(s, n) == Loop(Passed(s), n - 1)
  {
    assert LoopTurn(s) == Again(Passed(s));
  }

  lemma RotateNext(q: seq<nat>, k: nat)
    requires 0 < k <= |q|
    ensures RotateBy(q, k - 1) != [] && RotateBy(q, k - 1)[0] == q[k - 1]
    ensures Rotate(RotateBy(q, k - 1)) == RotateBy(q, k)
  {
  }

  lemma {:induction false} LoopSkips(s: Sys, k: nat, n: nat)
    requires k <= |s.queue| && k <= n && Known(s)
    requires forall i | 0 <= i < k :: !Ready(s, s.queue[i]) && !Doomed(s, s.queue[i])
    ensures Loop(s, n) == Loop(s.(queue := RotateBy(s.queue, k)), n - k)
    decreases k
  {
    if k == 0 {
      assert RotateBy(s.queue, 0) == s.queue;
    } else {
      LoopSkips(s, k - 1, n);
      RotateNext(s.queue, k);
      SkipOne(s.(queue := RotateBy(s.queue, k - 1)), n - (k - 1));
    }
  }

  /** A loop hands the processor to a task of its run list, adds none to it, and leaves the
      state of a task that is not in it. */
  lemma {:induction false} LoopStays(s: Sys, n: nat, d: nat)
    requires d !in s.queue
    ensures var r := Loop(s, n); r.Dispatch? ==>
      && r.next != d && d !in r.s.queue && r.s.current == s.current
      && (d in s.tasks ==> d in r.s.tasks && r.s.tasks[d] == s.tasks[d])
    decreases n
  {
    TurnStays(s, d);
    match LoopTurn(s)
    case Again(s') => if n > 0 { LoopStays(s', n - 1, d); }
    case _ =>
  }

  lemma TurnStays(s: Sys, d: nat)
    requires d !in s.queue
    ensures var r := LoopTurn(s);
      && (r.Dispatch? ==> r.next != d)
      && (!r.Panic? ==>
            && d !in r.s.queue && r.s.current == s.current
            && (d in s.tasks ==> d in r.s.tasks && r.s.tasks[d] == s.tasks[d]))
  {
    assert forall x | x in Rotate(s.queue) :: x in s.queue;
  }

  /** The turn that examines task c takes the running task off the list. */
  lemma ExamineHalfDead(s: Sys, c: nat, d: nat)
    requires s.queue != [] && s.queue[0] == c && Doomed(s, c) && s.current == Some(d) && d != c
    requires Unique(s.queue) && d in s.queue && d in s.tasks
    ensures var r := LoopTurn(s);
      r.Again? && d !in r.s.queue && r.s.current == Some(d) && d in r.s.tasks && r.s.tasks[d] == s.tasks[d]
  {
    var q := Rotate(s.queue);
    assert q == RotateBy(s.queue, 1);
    RotatedUnique(s.queue, 1);
    assert d in q;
    RemovedElems(q, d);
    assert d !in Elems(RemoveAt(q, IndexOf(q, d)));
  }

  /** Then the kernel stops, or the running task is lost though it is not killed. */
  lemma Reached(s: Sys, c: nat, k: nat)
    requires HalfDead(s, c) && s.enabled && k == IndexOf(s.queue, c)
    requires forall i | 0 <= i < k :: !Ready(s, s.queue[i]) && !Doomed(s, s.queue[i])
    ensures Schedule(s).None? || Loses(s, Schedule(s).value)
  {
    var u, d := Unmarked(s, c), s.current.value;
    assert IdleFirst(u) && Known(u);
    var s1 := s.(queue := RotateBy(s.queue, k));
    LoopSkips(s, k, |s.queue|);
    RotatedUnique(s.queue, k);
    assert s1.queue[0] == c;
    assert d in Elems(s1.queue);
    ExamineHalfDead(s1, c, d);
    var s2 := LoopTurn(s1).s;
    if |s.queue| > k {
      LoopStays(s2, |s.queue| - k - 1, d);
    }
    LostRunner(s, c, d, Loop(s, |s.queue|));
  }

  lemma LostRunner(s: Sys, c: nat, d: nat, r: Turn)
    requires HalfDead(s, c) && s.enabled && s.current == Some(d) && d in s.queue && d in s.tasks
    requires r == Loop(s, |s.queue|)
    requires r.Dispatch? ==>
      r.next != d && d !in r.s.queue && r.s.current == Some(d) && d in r.s.tasks && r.s.tasks[d] == s.tasks[d]
    ensures Schedule(s).None? || Loses(s, Schedule(s).value)
  {
    if r.Dispatch? && s.tasks[d].state != Killed {
      OthersUnmarked(s, c, d);
      assert OneThread(Unmarked(s, c), d);
      assert !Doomed(s, d);
    }
  }

  /** A decision while task c is half dead: a stop, a loss, or task c comes nearer. */
  lemma TickWrecks(s: Sys, c: nat)
    requires HalfDead(s, c)
    ensures || Schedule(s).None? || Loses(s, Schedule(s).value)
            || (HalfDead(Schedule(s).value, c) && IndexOf(Schedule(s).value.queue, c) < IndexOf(s.queue, c))
  {
    var u, k := Unmarked(s, c), IndexOf(s.queue, c);
    var j := SomeReady(u);
    if j < k {
      TickBefore(s, c, j);
    } else {
      PrefixSame(s, c, k);
      Reached(s, c, k);
    }
  }

  // ------------------------------------------------------------ whole runs

  /** Any other step leaves task c half dead and in its place. */
  lemma StepHalfDead(s: Sys, op: Op, c: nat)
    requires HalfDead(s, c) && Enabled(s, op) && !op.Tick?
    ensures Apply(s, op).Some? && HalfDead(Apply(s, op).value, c)
    ensures IndexOf(Apply(s, op).value.queue, c) == IndexOf(s.queue, c)
  {
    var u := Unmarked(s, c);
    assert Enabled(u, op);
    StepKeeps(u, op);
    StepStays(u, op, c);
    StepUnmarked(s, op, c);
  }

  lemma StepUnmarked(s: Sys, op: Op, c: nat)
    requires HalfDead(s, c) && Enabled(s, op) && !op.Tick? && Enabled(Unmarked(s, c), op)
    ensures Apply(s, op).Some? && Apply(Unmarked(s, c), op).Some?
    ensures var s', u' := Apply(s, op).value, Apply(Unmarked(s, c), op).value;
      && c in s'.tasks && s'.tasks[c].process == s.tasks[c].process && s'.tasks[c].state == Running
      && s'.current == s.current && s.tasks[c].process.value in s'.dead && Unmarked(s', c) == u'
  {
    var u := Unmarked(s, c);
    assert OneThread(u, c);
    if op.Exit? {
      assert u.tasks[c].process != u.tasks[s.current.value].process;
    }
  }

  /** Some decision of the run stops the kernel or loses a task that is not killed. */
  ghost predicate Wrecked(s: Sys, ops: seq<Op>)
    requires Runnable(s, ops)
    decreases |ops|
  {
    ops != [] &&
    (|| (ops[0].Tick? && (Schedule(s).None? || Loses(s, Schedule(s).value)))
     || (Apply(s, ops[0]).Some? && Wrecked(Apply(s, ops[0]).value, ops[1..])))
  }

  lemma {:induction false} HalfDeadWrecks(s: Sys, ops: seq<Op>, c: nat)
    requires HalfDead(s, c) && Runnable(s, ops) && Ticks(ops) > IndexOf(s.queue, c)
    ensures Wrecked(s, ops)
    decreases |ops|
  {
    if ops[0].Tick? {
      TickWrecks(s, c);
      if Schedule(s).Some? && !Loses(s, Schedule(s).value) {
        HalfDeadWrecks(Schedule(s).value, ops[1..], c);
      }
    } else {
      StepHalfDead(s, ops[0], c);
      HalfDeadWrecks(Apply(s, ops[0]).value, ops[1..], c);
    }
  }

  /** A decision right after the first write of sys_exit leaves the task half dead. */
  lemma FirstWrite(s: Sys)
    requires Inv(s) && Enabled(s, Exit)
    ensures Schedule(MarkProcess(s)).Some? && HalfDead(Schedule(MarkProcess(s)).value, s.current.value)
  {
    var c := s.current.value;
    var j := SomeReady(s);
    assert j < IndexOf(s.queue, c);
    TickExactly(s, j);
    var j' := TickKeeps(s);
    AfterQueue(s.queue, j, None);
    assert c in Elems(s.queue);
    FirstDecision(s, c, j);
    Halved(s, c, Schedule(s).value);
  }

  lemma Halved(s: Sys, c: nat, u: Sys)
    requires Inv(s) && Enabled(s, Exit) && c == s.current.value && Inv(u) && c in u.queue
    requires u.current.Some? && u.current != Some(c) && u.tasks == s.tasks && u.dead == s.dead
    ensures HalfDead(Marked(u, s.tasks[c].process.value), c)
  {
    var p := s.tasks[c].process.value;
    assert u.dead + {p} - {p} == u.dead;
    assert Unmarked(Marked(u, p), c) == u;
  }

  lemma FirstDecision(s: Sys, c: nat, j: nat)
    requires Inv(s) && Enabled(s, Exit) && c == s.current.value && j < IndexOf(s.queue, c)
    requires FirstReady(s, j) && NoneDoomed(s, j) && Schedule(s).Some?
    ensures Schedule(MarkProcess(s)) == Some(Marked(Schedule(s).value, s.tasks[c].process.value))
  {
    var m := MarkProcess(s);
    var v := s.(queue := RotateBy(s.queue, j + 1));
    MarkedPrefix(s, c, j + 1);
    RotatedDecision(m, j);
    RotatedDecision(s, j);
    assert m.(queue := v.queue) == Marked(v, s.tasks[c].process.value);
    SwitchMarked(v, s.tasks[c].process.value, s.queue[j]);
  }

  lemma MarkedPrefix(s: Sys, c: nat, j: nat)
    requires Inv(s) && Enabled(s, Exit) && c == s.current.value && j <= IndexOf(s.queue, c)
    ensures forall i | 0 <= i < j :: s.queue[i] != c
    ensures forall i | 0 <= i < j :: Doomed(MarkProcess(s), s.queue[i]) == Doomed(s, s.queue[i])
    ensures forall i | 0 <= i < j :: Ready(MarkProcess(s), s.queue[i]) == Ready(s, s.queue[i])
  {
    var k := IndexOf(s.queue, c);
    forall i | 0 <= i < j
      ensures s.queue[i] != c && Doomed(MarkProcess(s), s.queue[i]) == Doomed(s, s.queue[i])
      ensures Ready(MarkProcess(s), s.queue[i]) == Ready(s, s.queue[i])
    {
      assert s.queue[k] == c;
      assert s.tasks[c].process != s.tasks[s.queue[i]].process;
    }
  }

  /** From every state in order: if a decision falls between the two writes of sys_exit, then
      whatever the tasks do afterwards, within as many further decisions as the exiting task
      has places before it, and one, the kernel stops or loses a task that is not killed. */
  lemma SplitExitWrecks(s: Sys, ops: seq<Op>)
    requires Inv(s) && Enabled(s, Exit)
    ensures Schedule(MarkProcess(s)).Some?
    ensures var s1 := Schedule(MarkProcess(s)).value;
      Runnable(s1, ops) && Ticks(ops) > IndexOf(s1.queue, s.current.value) ==> Wrecked(s1, ops)
  {
    FirstWrite(s);
    var s1 := Schedule(MarkProcess(s)).value;
    if Runnable(s1, ops) && Ticks(ops) > IndexOf(s1.queue, s.current.value) {
      HalfDeadWrecks(s1, ops, s.current.value);
    }
  }
}
