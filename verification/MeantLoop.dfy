/** task_schedulable as its comment means it, and exactly when the code does the same. */
module MeantLoop {
  import opened Wrappers
  import opened LinkedLists
  import opened Scheduling

  // ------------------------------------------- loops that take turns to an end

  /** The loop cut off after n + 1 turns. */
  function Iterate(turn: Sys -> Turn, s: Sys, n: nat): Turn
    decreases n
  {
    match turn(s)
    case Again(s') => if n == 0 then Again(s') else Iterate(turn, s', n - 1)
    case other => other
  }

  /** The loop makes its choice in turn j, over states that are `ok`. */
  predicate Nearing(turn: Sys -> Turn, ok: Sys -> bool, s: Sys, j: nat)
    decreases j
  {
    ok(s) && if j == 0 then turn(s).Dispatch? else turn(s).Again? && Nearing(turn, ok, turn(s).s, j - 1)
  }

  /** Until then every state satisfies `fine`. */
  predicate All(turn: Sys -> Turn, ok: Sys -> bool, fine: Sys -> bool, s: Sys, j: nat)
    requires Nearing(turn, ok, s, j)
    decreases j
  {
    fine(s) && (j == 0 || All(turn, ok, fine, turn(s).s, j - 1))
  }

  /** Turns keep what they keep. */
  ghost predicate Closed(turn: Sys -> Turn, keep: Sys -> bool) {
    forall x | keep(x) && !turn(x).Panic? :: keep(turn(x).s)
  }

  lemma {:induction false} IterateKeeps(turn: Sys -> Turn, keep: Sys -> bool, s: Sys, n: nat)
    requires keep(s) && Closed(turn, keep)
    ensures Iterate(turn, s, n).Panic? || keep(Iterate(turn, s, n).s)
    decreases n
  {
    match turn(s)
    case Again(s') => if n > 0 { IterateKeeps(turn, keep, s', n - 1); }
    case _ =>
  }

  lemma {:induction false} NearingEnds(turn: Sys -> Turn, ok: Sys -> bool, s: Sys, j: nat, n: nat)
    requires Nearing(turn, ok, s, j) && n >= j
    ensures Iterate(turn, s, n).Dispatch?
    decreases j
  {
    if j > 0 { NearingEnds(turn, ok, turn(s).s, j - 1, n - 1); }
  }

  /** Two loops of which one keeps what the other has lost after its first turn. */
  lemma EndsApart(f: Sys -> Turn, g: Sys -> Turn, ok: Sys -> bool, keep: Sys -> bool, gone: Sys -> bool, s: Sys, j: nat, n: nat)
    requires Nearing(g, ok, s, j) && 0 < j <= n
    requires keep(s) && Closed(f, keep) && gone(g(s).s) && Closed(g, gone) && forall x | keep(x) :: !gone(x)
    ensures Iterate(f, s, n) != Iterate(g, s, n)
  {
    IterateKeeps(f, keep, s, n);
    IterateKeeps(g, gone, g(s).s, n - 1);
    NearingEnds(g, ok, g(s).s, j - 1, n - 1);
  }

  /** Loops whose turns are the same on the way come to the same end. */
  lemma {:induction false} SameEnd(f: Sys -> Turn, g: Sys -> Turn, ok: Sys -> bool, fine: Sys -> bool, s: Sys, j: nat, n: nat)
    requires Nearing(g, ok, s, j) && n >= j && All(g, ok, fine, s, j)
    requires forall x | ok(x) && fine(x) :: f(x) == g(x)
    ensures Iterate(f, s, n) == Iterate(g, s, n)
    decreases j
  {
    if j > 0 { SameEnd(f, g, ok, fine, g(s).s, j - 1, n - 1); }
  }

  /** The first state on the way that is not fine: up to it the loops run together. */
  lemma {:induction false} FirstApart(f: Sys -> Turn, g: Sys -> Turn, ok: Sys -> bool, fine: Sys -> bool, s: Sys, j: nat, n: nat)
    returns (x: Sys, i: nat, m: nat)
    requires Nearing(g, ok, s, j) && n >= j && !All(g, ok, fine, s, j)
    requires forall x | ok(x) && fine(x) :: f(x) == g(x)
    ensures Nearing(g, ok, x, i) && i <= m && !fine(x)
    ensures Iterate(f, s, n) == Iterate(f, x, m) && Iterate(g, s, n) == Iterate(g, x, m)
    decreases j
  {
    if !fine(s) {
      x, i, m := s, j, n;
    } else {
      x, i, m := FirstApart(f, g, ok, fine, g(s).s, j - 1, n - 1);
    }
  }

  // ------------------------------------------------------- the loop as meant

  /** task_schedulable as meant: a killed task itself leaves the run list. */
  function SchedulableMeant(s: Sys, t: nat): Turn
    requires t in s.tasks
  {
    if !Doomed(s, t) then
      if Ready(s, t) then Dispatch(t, s) else Again(s)
    else if t !in s.queue then Panic
    else Again(s.(tasks := s.tasks[t := s.tasks[t].(state := Killed)], queue := RemoveAt(s.queue, IndexOf(s.queue, t))))
  }

  function TurnMeant(s: Sys): Turn {
    if s.queue == [] || s.queue[0] !in s.tasks then Panic
    else SchedulableMeant(s.(queue := Rotate(s.queue)), s.queue[0])
  }

  /** get_next_task's loop with that reading, cut off after n + 1 turns. */
  function LoopMeant(s: Sys, n: nat): Turn {
    Iterate(Meant(), s, n)
  }

  function Meant(): Sys -> Turn {
    (s: Sys) => TurnMeant(s)
  }

  function Written(): Sys -> Turn {
    (s: Sys) => LoopTurn(s)
  }

  lemma {:induction false} LoopIs(s: Sys, n: nat)
    ensures Loop(s, n) == Iterate(Written(), s, n)
    decreases n
  {
    match LoopTurn(s)
    case Again(s') => if n > 0 { LoopIs(s', n - 1); }
    case _ =>
  }

  /** Of the tasks before place j, at most the running one is killed. */
  predicate OnlyCurrent(s: Sys, j: nat) {
    j <= |s.queue| && forall i | 0 <= i < j && Doomed(s, s.queue[i]) :: s.current == Some(s.queue[i])
  }

  /** The state after a task in front that cannot run and is not killed. */
  function Passed(s: Sys): Sys {
    s.(queue := Rotate(s.queue))
  }

  /** The state after a killed task in front has left. */
  function Dropped(s: Sys): Sys
    requires s.queue != [] && s.queue[0] in s.tasks
  {
    s.(tasks := s.tasks[s.queue[0] := s.tasks[s.queue[0]].(state := Killed)], queue := s.queue[1..])
  }

  lemma FrontIndex(q: seq<nat>)
    requires Unique(q) && |q| >= 2
    ensures RemoveAt(Rotate(q), IndexOf(Rotate(q), q[0])) == q[1..]
  {
    var r := Rotate(q);
    assert r[|q| - 1] == q[0];
    assert q[0] !in r[..|q| - 1] by {
      assert forall i | 0 <= i < |q| - 1 :: r[i] == q[i + 1];
    }
    FirstIs(r, q[0], |q| - 1);
    assert RemoveAt(r, |q| - 1) == q[1..];
  }

  lemma PassedFirst(s: Sys, j: nat)
    requires Known(s) && Unique(s.queue) && FirstReady(s, j) && j > 0
    ensures Known(Passed(s)) && Unique(Passed(s).queue) && FirstReady(Passed(s), j - 1)
    ensures !Doomed(s, s.queue[0]) ==> (OnlyCurrent(Passed(s), j - 1) <==> OnlyCurrent(s, j))
  {
    var s1 := Passed(s);
    assert forall i | 0 <= i < |s.queue| - 1 :: s1.queue[i] == s.queue[i + 1];
    assert s1.queue == RotateBy(s.queue, 1);
    RotatedUnique(s.queue, 1);
    if OnlyCurrent(s1, j - 1) && !Doomed(s, s.queue[0]) {
      forall i | 0 <= i < j && Doomed(s, s.queue[i])
        ensures s.current == Some(s.queue[i])
      {
        assert Doomed(s1, s1.queue[i - 1]);
      }
    }
  }

  lemma DroppedFirst(s: Sys, j: nat)
    requires Known(s) && Unique(s.queue) && FirstReady(s, j) && j > 0 && Doomed(s, s.queue[0])
    ensures Known(Dropped(s)) && Unique(Dropped(s).queue) && FirstReady(Dropped(s), j - 1)
    ensures s.queue[0] !in Dropped(s).queue
    ensures s.current == Some(s.queue[0]) ==> (OnlyCurrent(Dropped(s), j - 1) <==> OnlyCurrent(s, j))
  {
    var s1 := Dropped(s);
    assert forall i | 0 <= i < |s.queue| - 1 :: s1.queue[i] == s.queue[i + 1] != s.queue[0];
    forall x | x in s.tasks && x != s.queue[0]
      ensures Doomed(s1, x) == Doomed(s, x) && Ready(s1, x) == Ready(s, x)
    {
    }
    if OnlyCurrent(s1, j - 1) && s.current == Some(s.queue[0]) {
      forall i | 0 <= i < j && Doomed(s, s.queue[i])
        ensures s.current == Some(s.queue[i])
      {
        if i > 0 { assert Doomed(s1, s1.queue[i - 1]); }
      }
    }
  }

  /** The first turn as meant: the first task that can run comes one place nearer. */
  lemma MeantTurn(s: Sys, j: nat) returns (s1: Sys)
    requires Known(s) && Unique(s.queue) && FirstReady(s, j) && j > 0
    ensures TurnMeant(s) == Again(s1) && Known(s1) && Unique(s1.queue) && FirstReady(s1, j - 1)
    ensures Doomed(s, s.queue[0]) ==> s.queue[0] !in s1.queue
    ensures Doomed(s, s.queue[0]) && s.current != Some(s.queue[0]) ==> !OnlyCurrent(s, j)
    ensures Agrees(s) ==> (OnlyCurrent(s1, j - 1) <==> OnlyCurrent(s, j))
  {
    FrontIndex(s.queue);
    if Doomed(s, s.queue[0]) {
      s1 := Dropped(s);
      DroppedFirst(s, j);
    } else {
      s1 := Passed(s);
      PassedFirst(s, j);
    }
  }

  // ---------------------------------------------------- along the loop as meant

  /** The task in front is not killed, or is the running one. */
  predicate Agrees(s: Sys) {
    s.queue != [] && (Doomed(s, s.queue[0]) ==> s.current == Some(s.queue[0]))
  }

  /** A task stands in front, and if it is killed the turn as meant takes it off the list. */
  predicate Front(s: Sys) {
    && s.queue != [] && s.queue[0] in s.tasks
    && (Doomed(s, s.queue[0]) && TurnMeant(s).Again? ==> s.queue[0] !in TurnMeant(s).s.queue)
  }

  function Fronts(): Sys -> bool {
    (s: Sys) => Front(s)
  }

  /** Turns on which both readings agree, or that choose a task. */
  function Fine(): Sys -> bool {
    (s: Sys) => Agrees(s) || TurnMeant(s).Dispatch?
  }

  lemma {:induction false} NearingIs(s: Sys, j: nat)
    requires Known(s) && Unique(s.queue) && FirstReady(s, j)
    ensures Nearing(Meant(), Fronts(), s, j) && (All(Meant(), Fronts(), Fine(), s, j) <==> OnlyCurrent(s, j))
    decreases j
  {
    if j > 0 {
      var s1 := MeantTurn(s, j);
      NearingIs(s1, j - 1);
    }
  }

  lemma AgreesTurn(s: Sys)
    requires Front(s) && (Agrees(s) || TurnMeant(s).Dispatch?)
    ensures LoopTurn(s) == TurnMeant(s)
  {
  }

  lemma FineTurns()
    ensures forall x: Sys | Fronts()(x) && Fine()(x) :: Written()(x) == Meant()(x)
  {
    forall x: Sys | Fronts()(x) && Fine()(x)
      ensures Written()(x) == Meant()(x)
    {
      AgreesTurn(x);
    }
  }

  /** Task t is in the run list and does not run. */
  function Stays(t: nat): Sys -> bool {
    (s: Sys) => t in s.queue && s.current != Some(t)
  }

  function Gone(t: nat): Sys -> bool {
    (s: Sys) => t !in s.queue
  }

  lemma TurnKeeps(s: Sys, t: nat)
    requires t in s.queue && s.current != Some(t)
    ensures LoopTurn(s).Panic? || (t in LoopTurn(s).s.queue && LoopTurn(s).s.current == s.current)
  {
    assert t in Rotate(s.queue);
    if s.current.Some? && s.current.value in Rotate(s.queue) {
      RemovedKeeps(Rotate(s.queue), IndexOf(Rotate(s.queue), s.current.value), t);
    }
  }

  lemma TurnLeaves(s: Sys, t: nat)
    requires t !in s.queue && !TurnMeant(s).Panic?
    ensures t !in TurnMeant(s).s.queue
  {
    assert t !in Rotate(s.queue);
  }

  /** As written no task but the running one is taken off the run list; as meant a task that
      has left does not come back. */
  lemma TurnsClosed(t: nat)
    ensures Closed(Written(), Stays(t)) && Closed(Meant(), Gone(t))
  {
    forall x: Sys | Stays(t)(x) && !Written()(x).Panic?
      ensures Stays(t)(Written()(x).s)
    {
      TurnKeeps(x, t);
    }
    forall x: Sys | Gone(t)(x) && !Meant()(x).Panic?
      ensures Gone(t)(Meant()(x).s)
    {
      TurnLeaves(x, t);
    }
  }

  /** A killed task in front that is not the running one makes the difference: it stays as
      written and leaves as meant. */
  lemma LoopsDiffer(s: Sys, j: nat, n: nat)
    requires Nearing(Meant(), Fronts(), s, j) && j <= n && !Fine()(s)
    ensures Iterate(Written(), s, n) != Iterate(Meant(), s, n)
  {
    var t := s.queue[0];
    TurnsClosed(t);
    EndsApart(Written(), Meant(), Fronts(), Stays(t), Gone(t), s, j, n);
  }

  /** The loop of get_next_task does what its comment means, if and only if every killed task
      before the first one that can run is the running task. */
  lemma LoopsExactly(s: Sys, j: nat, n: nat)
    requires Known(s) && Unique(s.queue) && FirstReady(s, j) && n >= j
    ensures Loop(s, n) == LoopMeant(s, n) <==> OnlyCurrent(s, j)
  {
    NearingIs(s, j);
    LoopIs(s, n);
    LoopsFine(s, j, n);
  }

  lemma LoopsFine(s: Sys, j: nat, n: nat)
    requires Nearing(Meant(), Fronts(), s, j) && n >= j
    ensures Iterate(Written(), s, n) == Iterate(Meant(), s, n) <==> All(Meant(), Fronts(), Fine(), s, j)
  {
    FineTurns();
    if All(Meant(), Fronts(), Fine(), s, j) {
      SameEnd(Written(), Meant(), Fronts(), Fine(), s, j, n);
    } else {
      var x, i, m := FirstApart(Written(), Meant(), Fronts(), Fine(), s, j, n);
      LoopsDiffer(x, i, m);
    }
  }

  /** With exit as one step every decision is the one that is meant. */
  lemma AlwaysMeant(s: Sys)
    requires Inv(s)
    ensures Loop(s, |s.queue|) == LoopMeant(s, |s.queue|)
  {
    var j := SomeReady(s);
    LoopsExactly(s, j, |s.queue|);
  }
}
