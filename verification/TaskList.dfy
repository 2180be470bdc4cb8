/** The task list and the pass of the cleanup task over it. */
module TaskLists {
  import opened Wrappers
  import opened LinkedLists
  import opened Scheduling
  import opened SchedulingRuns

  /** The entries of q that are in `keep`, in order. */
  function Filter(q: seq<nat>, keep: set<nat>): seq<nat> {
    if q == [] then []
    else Filter(q[..|q| - 1], keep) + if q[|q| - 1] in keep then [q[|q| - 1]] else []
  }

  lemma {:induction false} FilterMember(q: seq<nat>, keep: set<nat>, t: nat)
    ensures t in Filter(q, keep) <==> t in q && t in keep
  {
    if q != [] {
      FilterMember(q[..|q| - 1], keep, t);
      assert q == q[..|q| - 1] + [q[|q| - 1]];
    }
  }

  lemma {:induction false} FilterAll(q: seq<nat>, keep: set<nat>)
    requires forall i | 0 <= i < |q| :: q[i] in keep
    ensures Filter(q, keep) == q
  {
    if q != [] {
      FilterAll(q[..|q| - 1], keep);
    }
  }

  lemma {:induction false} FilterAppend(a: seq<nat>, b: seq<nat>, keep: set<nat>)
    ensures Filter(a + b, keep) == Filter(a, keep) + Filter(b, keep)
  {
    if b == [] {
      assert a + b == a;
    } else {
      assert (a + b)[..|a + b| - 1] == a + b[..|b| - 1];
      FilterAppend(a, b[..|b| - 1], keep);
    }
  }

  lemma {:induction false} FilterSame(q: seq<nat>, keep: set<nat>, keep': set<nat>)
    requires forall i | 0 <= i < |q| :: q[i] in keep <==> q[i] in keep'
    ensures Filter(q, keep) == Filter(q, keep')
  {
    if q != [] {
      FilterSame(q[..|q| - 1], keep, keep');
    }
  }

  class TaskList {
    const tasks: List<nat>
    var taskCount: nat

    ghost predicate Valid()
      reads this, tasks, tasks.repr
    {
      tasks.Valid() && taskCount == |tasks.Contents()|
    }

    constructor ()
      ensures Valid() && tasks.Contents() == [] && fresh(tasks) && fresh(tasks.repr)
    {
      tasks := new List();
      taskCount := 0;
    }

    /** tl_insert. */
    method Insert(t: nat)
      requires Valid()
      modifies this, tasks, tasks.repr
      ensures Valid() && tasks.Contents() == old(tasks.Contents()) + [t]
      ensures fresh(tasks.repr - old(tasks.repr))
    {
      var _ := tasks.Add(t);
      taskCount := taskCount + 1;
    }

    /** Where the pass stands: the first i tasks have been looked at. */
    ghost predicate Passed(was: seq<nat>, i: nat, killed: set<nat>, alive: set<nat>, reaped: seq<nat>)
      reads this, tasks, tasks.repr
    {
      && Valid() && i <= |was|
      && tasks.Contents() == Filter(was[..i], alive) + was[i..]
      && reaped == Filter(was[..i], killed)
    }

    /** The item at which the pass stands. */
    ghost predicate StandsAt(it: Item?<nat>, k: nat)
      reads this, tasks
    {
      k <= |tasks.nodes| && it == if k < |tasks.nodes| then tasks.nodes[k] else null
    }

    /** One pass of cleanup_task_func: the killed tasks leave the list and are handed to
        task_delete in order, the others stay in order. */
    method Pass(killed: set<nat>, ghost alive: set<nat>) returns (reaped: seq<nat>)
      requires Valid() && forall t | t in tasks.Contents() :: t in alive <==> t !in killed
      modifies this, tasks, tasks.repr
      ensures Valid() && tasks.repr == old(tasks.repr)
      ensures tasks.Contents() == Filter(old(tasks.Contents()), alive)
      ensures reaped == Filter(old(tasks.Contents()), killed)
    {
      ghost var was := tasks.Contents();
      ghost var i := 0;
      reaped := [];
      var it := tasks.first;
      while it != null
        invariant Passed(was, i, killed, alive, reaped) && tasks.repr == old(tasks.repr)
        invariant StandsAt(it, |Filter(was[..i], alive)|)
        decreases |was| - i
      {
        it, reaped := Visit(was, i, it, killed, alive, reaped);
        i := i + 1;
      }
      assert was[..i] == was;
    }

    /** One turn of the pass; the successor is read before the item goes. */
    method Visit(ghost was: seq<nat>, ghost i: nat, it: Item<nat>, killed: set<nat>, ghost alive: set<nat>,
                 reaped: seq<nat>) returns (next: Item?<nat>, reaped': seq<nat>)
      requires Passed(was, i, killed, alive, reaped) && i < |was| && (was[i] in alive <==> was[i] !in killed)
      requires StandsAt(it, |Filter(was[..i], alive)|)
      modifies this, tasks, tasks.repr
      ensures Passed(was, i + 1, killed, alive, reaped') && tasks.repr == old(tasks.repr)
      ensures StandsAt(next, |Filter(was[..i + 1], alive)|)
    {
      ghost var k := |Filter(was[..i], alive)|;
      assert was[..i + 1][..i] == was[..i];
      assert tasks.LinkedAt(tasks.nodes, k);
      assert it.payload == tasks.Contents()[k] == was[i];
      next := it.next;
      reaped' := reaped;
      if it.payload in killed {
        reaped' := reaped + [it.payload];
        tasks.ItRemove(it, k);
        taskCount := taskCount - 1;
      }
    }
  }

  // ------------------------------------------------- the pass as reap steps

  function KilledTasks(s: Sys): set<nat> {
    set t | t in s.tasks && s.tasks[t].state == Killed
  }

  function Reaps(ts: seq<nat>): (ops: seq<Op>)
    ensures |ops| == |ts|
  {
    seq(|ts|, i requires 0 <= i < |ts| => Reap(ts[i]))
  }

  /** Taking the first match out of a row. */
  lemma FilterDrop(q: seq<nat>, t: nat, killed: set<nat>, alive: set<nat>)
    requires Unique(q) && t in q && t in killed && t !in alive
    requires Filter(q, killed) != [] && Filter(q, killed)[0] == t
    ensures var r := RemoveAt(q, IndexOf(q, t));
      Filter(r, killed) == Filter(q, killed)[1..] && Filter(r, alive) == Filter(q, alive)
  {
    var i := IndexOf(q, t);
    assert q == q[..i] + [t] + q[i + 1..];
    NotBefore(q, t);
    FilterSplit(q[..i], t, q[i + 1..], killed, alive);
  }

  lemma FilterSplit(a: seq<nat>, t: nat, b: seq<nat>, killed: set<nat>, alive: set<nat>)
    requires t !in a && t in killed && t !in alive
    requires var f := Filter(a + [t] + b, killed); f != [] && f[0] == t
    ensures Filter(a + b, killed) == Filter(a + [t] + b, killed)[1..]
    ensures Filter(a + b, alive) == Filter(a + [t] + b, alive)
  {
    FilterAround(a, t, b, killed);
    FilterAround(a, t, b, alive);
    FilterMember(a, killed, t);
    NoneBefore(Filter(a, killed), [t], t);
  }

  lemma NoneBefore(f: seq<nat>, g: seq<nat>, t: nat)
    requires f + g != [] && (f + g)[0] == t && t !in f
    ensures f == []
  {
  }

  lemma FilterAround(a: seq<nat>, t: nat, b: seq<nat>, keep: set<nat>)
    ensures Filter(a + [t] + b, keep) == Filter(a, keep) + (if t in keep then [t] else []) + Filter(b, keep)
    ensures Filter(a + b, keep) == Filter(a, keep) + Filter(b, keep)
  {
    FilterAppend(a + [t], b, keep);
    assert (a + [t])[..|a|] == a;
    FilterAppend(a, b, keep);
  }

  lemma ReapOne(s: Sys, t: nat)
    requires Unique(s.all) && Enabled(s, Reap(t)) && Filter(s.all, KilledTasks(s)) != []
    requires t == Filter(s.all, KilledTasks(s))[0]
    ensures var s' := Apply(s, Reap(t)).value;
      && Filter(s'.all, KilledTasks(s')) == Filter(s.all, KilledTasks(s))[1..]
      && Filter(s'.all, s'.tasks.Keys - KilledTasks(s')) == Filter(s.all, s.tasks.Keys - KilledTasks(s))
  {
    var s' := Apply(s, Reap(t)).value;
    FilterDrop(s.all, t, KilledTasks(s), s.tasks.Keys - KilledTasks(s));
    RemovedUnique(s.all, IndexOf(s.all, t));
    FilterSame(s'.all, KilledTasks(s'), KilledTasks(s));
    FilterSame(s'.all, s'.tasks.Keys - KilledTasks(s'), s.tasks.Keys - KilledTasks(s));
  }

  lemma NoneKilled(s: Sys)
    requires Inv(s) && Filter(s.all, KilledTasks(s)) == []
    ensures KilledTasks(s) == {}
  {
    forall t | t in s.tasks
      ensures t !in KilledTasks(s)
    {
      assert t in Elems(s.all);
      FilterMember(s.all, KilledTasks(s), t);
    }
  }

  /** What a pass does to the state: the killed tasks are gone. */
  function Swept(s: Sys): Sys {
    s.(tasks := s.tasks - KilledTasks(s), all := Filter(s.all, s.tasks.Keys - KilledTasks(s)))
  }

  lemma SweptAfter(s: Sys, t: nat)
    requires Unique(s.all) && Enabled(s, Reap(t)) && Filter(s.all, KilledTasks(s)) != []
    requires t == Filter(s.all, KilledTasks(s))[0]
    ensures Swept(Apply(s, Reap(t)).value) == Swept(s)
  {
    ReapOne(s, t);
    var s' := Apply(s, Reap(t)).value;
    assert KilledTasks(s') == KilledTasks(s) - {t};
    assert s'.tasks - KilledTasks(s') == s.tasks - KilledTasks(s);
  }

  lemma SweptNone(s: Sys)
    requires Inv(s) && Filter(s.all, KilledTasks(s)) == []
    ensures Swept(s) == s
  {
    NoneKilled(s);
    FilterAll(s.all, s.tasks.Keys);
    assert s.tasks - KilledTasks(s) == s.tasks && s.tasks.Keys - KilledTasks(s) == s.tasks.Keys;
  }

  /** The first of the killed tasks can be reaped. */
  lemma FirstReapable(s: Sys)
    requires Inv(s) && s.current == Some(CLEANUP) && Filter(s.all, KilledTasks(s)) != []
    ensures Enabled(s, Reap(Filter(s.all, KilledTasks(s))[0]))
  {
    var t := Filter(s.all, KilledTasks(s))[0];
    FilterMember(s.all, KilledTasks(s), t);
  }

  /** The steps of a pass, and what they come to. */
  predicate Sweeps(s: Sys) {
    var ops := Reaps(Filter(s.all, KilledTasks(s)));
    Runnable(s, ops) && Run(s, ops) == Some(Swept(s))
  }

  lemma SweepsFirst(s: Sys, s': Sys, t: nat, rest: seq<nat>)
    requires Enabled(s, Reap(t)) && Apply(s, Reap(t)) == Some(s')
    requires Filter(s.all, KilledTasks(s)) == [t] + rest && Filter(s'.all, KilledTasks(s')) == rest
    requires Swept(s') == Swept(s) && Sweeps(s')
    ensures Sweeps(s)
  {
    assert Reaps([t] + rest) == [Reap(t)] + Reaps(rest);
    RunOne(s, Reap(t));
    RunAppend(s, [Reap(t)], Reaps(rest));
  }

  lemma SweepsNone(s: Sys)
    requires Inv(s) && Filter(s.all, KilledTasks(s)) == []
    ensures Sweeps(s)
  {
    SweptNone(s);
    assert Reaps([]) == [];
  }

  lemma SweepsNext(s: Sys, t: nat, s': Sys)
    requires Unique(s.all) && Filter(s.all, KilledTasks(s)) != [] && t == Filter(s.all, KilledTasks(s))[0]
    requires Enabled(s, Reap(t)) && Apply(s, Reap(t)) == Some(s') && Sweeps(s')
    ensures Sweeps(s)
  {
    var dead := Filter(s.all, KilledTasks(s));
    ReapOne(s, t);
    SweptAfter(s, t);
    assert dead == [t] + dead[1..];
    SweepsFirst(s, s', t, dead[1..]);
  }

  lemma ReapedShorter(s: Sys, t: nat)
    requires Inv(s) && Enabled(s, Reap(t))
    ensures Inv(Apply(s, Reap(t)).value) && |Apply(s, Reap(t)).value.all| < |s.all|
  {
    ReapInv(s, t);
  }

  /** A whole pass is a run of single reap steps, each of them allowed when it comes. */
  lemma {:induction false} PassIsReaps(s: Sys)
    requires Inv(s) && s.current == Some(CLEANUP)
    ensures Sweeps(s)
    decreases |s.all|
  {
    if Filter(s.all, KilledTasks(s)) == [] {
      SweepsNone(s);
    } else {
      FirstReapable(s);
      var t := Filter(s.all, KilledTasks(s))[0];
      ReapedShorter(s, t);
      PassIsReaps(Apply(s, Reap(t)).value);
      SweepsNext(s, t, Apply(s, Reap(t)).value);
    }
  }
}
