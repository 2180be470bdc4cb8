/** A process and its threads: every thread has a stack of its own, and the last thread
    takes the process with it. */
module Processes {
  import opened Wrappers
  import opened PageTables
  import opened AddressSpaces
  import opened AddressSpaceRuns
  import opened VSpaces
  import opened LinkedLists
  import opened UserStacks

  /** A task of the process and the index of its stack. */
  datatype Thread = Thread(tid: nat, userStack: nat)

  function StacksOf(threads: seq<Thread>): set<nat> {
    set i | 0 <= i < |threads| :: threads[i].userStack
  }

  /** Threads and stacks in use correspond one to one. */
  ghost predicate Paired(stacks: seq<Stack>, threads: seq<Thread>) {
    && LastAllocated(stacks)
    && (forall i, j | 0 <= i < j < |threads| ::
          threads[i].tid != threads[j].tid && threads[i].userStack != threads[j].userStack)
    && StacksOf(threads) == InUse(stacks)
  }

  lemma ThreadStack(stacks: seq<Stack>, threads: seq<Thread>, k: nat)
    requires Paired(stacks, threads) && k < |threads|
    ensures threads[k].userStack < |stacks| && stacks[threads[k].userStack].taken
  {
    assert threads[k].userStack in StacksOf(threads);
  }

  lemma StacksOfAppend(threads: seq<Thread>, t: Thread)
    ensures StacksOf(threads + [t]) == StacksOf(threads) + {t.userStack}
  {
    var a := threads + [t];
    assert forall i | 0 <= i < |threads| :: a[i] == threads[i];
    assert a[|threads|] == t;
  }

  lemma StacksOfRemove(threads: seq<Thread>, k: nat)
    requires k < |threads|
    requires forall i, j | 0 <= i < j < |threads| :: threads[i].userStack != threads[j].userStack
    ensures StacksOf(RemoveAt(threads, k)) == StacksOf(threads) - {threads[k].userStack}
  {
    var r := RemoveAt(threads, k);
    forall x | x in StacksOf(threads) && x != threads[k].userStack
      ensures x in StacksOf(r)
    {
      var i :| 0 <= i < |threads| && threads[i].userStack == x;
      assert r[if i < k then i else i - 1] == threads[i];
    }
    forall i | 0 <= i < |r|
      ensures r[i].userStack in StacksOf(threads) && r[i].userStack != threads[k].userStack
    {
      assert r[i] == threads[if i < k then i else i + 1];
    }
  }

  /** A new thread gets a stack no other thread has. */
  lemma StartPaired(stacks: seq<Stack>, threads: seq<Thread>, tid: nat)
    requires Paired(stacks, threads) && |stacks| < MAX_STACKS && forall i | 0 <= i < |threads| :: threads[i].tid != tid
    ensures Paired(Created(stacks), threads + [Thread(tid, FirstFree(stacks))])
  {
    var f := FirstFree(stacks);
    CreatedLast(stacks);
    CreatedInUse(stacks, f, Created(stacks));
    StacksOfAppend(threads, Thread(tid, f));
    forall i | 0 <= i < |threads|
      ensures threads[i].userStack != f
    {
      assert threads[i].userStack in StacksOf(threads);
    }
  }

  /** A thread that goes takes its own stack and no other, and the last one leaves no
      stack behind. */
  lemma RemovePaired(stacks: seq<Stack>, threads: seq<Thread>, k: nat)
    requires Paired(stacks, threads) && k < |threads|
    ensures threads[k].userStack < |stacks| && stacks[threads[k].userStack].taken
    ensures Paired(Deleted(stacks, threads[k].userStack), RemoveAt(threads, k))
    ensures |threads| == 1 ==> Deleted(stacks, threads[k].userStack) == []
  {
    ThreadStack(stacks, threads, k);
    var x := threads[k].userStack;
    DeletedInUse(stacks, x);
    StacksOfRemove(threads, k);
    RemovedPairwise(threads, k);
    if |threads| == 1 {
      assert StacksOf(RemoveAt(threads, k)) == {};
    }
  }

  lemma RemovedPairwise(threads: seq<Thread>, k: nat)
    requires k < |threads|
    requires forall i, j | 0 <= i < j < |threads| ::
      threads[i].tid != threads[j].tid && threads[i].userStack != threads[j].userStack
    ensures var r := RemoveAt(threads, k); forall i, j | 0 <= i < j < |r| ::
      r[i].tid != r[j].tid && r[i].userStack != r[j].userStack
  {
    var r := RemoveAt(threads, k);
    assert forall i | 0 <= i < |r| :: r[i] == threads[if i < k then i else i + 1];
  }

  // ------------------------------------------------------ whole teardowns

  /** Where a thread stands in the process' task list, or the length. */
  function Find(threads: seq<Thread>, tid: nat): (k: nat)
    ensures k <= |threads| && (k < |threads| ==> threads[k].tid == tid)
    ensures k == |threads| ==> forall i | 0 <= i < |threads| :: threads[i].tid != tid
  {
    if threads == [] || threads[0].tid == tid then 0 else 1 + Find(threads[1..], tid)
  }

  /** What is left after the threads named have been deleted one by one, or None when one
      is not there or its stack is not in use. */
  function TearDown(stacks: seq<Stack>, threads: seq<Thread>, order: seq<nat>): Option<(seq<Stack>, seq<Thread>)>
    decreases |order|
  {
    if order == [] then Some((stacks, threads))
    else
      var k := Find(threads, order[0]);
      if k == |threads| || threads[k].userStack >= |stacks| || !stacks[threads[k].userStack].taken then None
      else TearDown(Deleted(stacks, threads[k].userStack), RemoveAt(threads, k), order[1..])
  }

  function Tids(threads: seq<Thread>): set<nat> {
    set i | 0 <= i < |threads| :: threads[i].tid
  }

  lemma TidsRemove(threads: seq<Thread>, k: nat)
    requires k < |threads| && forall i, j | 0 <= i < j < |threads| :: threads[i].tid != threads[j].tid
    ensures Tids(RemoveAt(threads, k)) == Tids(threads) - {threads[k].tid}
  {
    var r := RemoveAt(threads, k);
    forall x | x in Tids(threads) && x != threads[k].tid
      ensures x in Tids(r)
    {
      var i :| 0 <= i < |threads| && threads[i].tid == x;
      assert r[if i < k then i else i - 1] == threads[i];
    }
    forall i | 0 <= i < |r|
      ensures r[i].tid in Tids(threads) && r[i].tid != threads[k].tid
    {
      assert r[i] == threads[if i < k then i else i + 1];
    }
  }

  function Names(order: seq<nat>): set<nat> {
    set i | 0 <= i < |order| :: order[i]
  }

  lemma NamesTail(order: seq<nat>)
    requires order != [] && forall i, j | 0 <= i < j < |order| :: order[i] != order[j]
    ensures Names(order[1..]) == Names(order) - {order[0]}
  {
    var rest := order[1..];
    assert forall i | 0 <= i < |rest| :: rest[i] == order[i + 1];
    forall x | x in Names(order) && x != order[0]
      ensures x in Names(rest)
    {
      var i :| 0 <= i < |order| && order[i] == x;
      assert rest[i - 1] == x;
    }
  }

  lemma TidsEmpty(threads: seq<Thread>)
    ensures Tids(threads) == {} <==> threads == []
  {
    if threads != [] { assert threads[0].tid in Tids(threads); }
  }

  lemma NoThreads(stacks: seq<Stack>, threads: seq<Thread>)
    requires Paired(stacks, threads) && Tids(threads) == {}
    ensures stacks == [] && threads == []
  {
    TidsEmpty(threads);
    assert StacksOf(threads) == {};
    assert stacks != [] ==> |stacks| - 1 in InUse(stacks);
  }

  /** Deleting all threads, each once, in any order: every stack is found in use when its
      thread goes, and both lists are empty at the end. */
  lemma {:induction false} TearDownAll(stacks: seq<Stack>, threads: seq<Thread>, order: seq<nat>)
    requires Paired(stacks, threads)
    requires (forall i, j | 0 <= i < j < |order| :: order[i] != order[j]) && Names(order) == Tids(threads)
    ensures TearDown(stacks, threads, order) == Some(([], []))
    decreases |order|
  {
    if order == [] {
      NoThreads(stacks, threads);
    } else {
      assert order[0] in Names(order);
      var k := Find(threads, order[0]);
      RemovePaired(stacks, threads, k);
      TidsRemove(threads, k);
      NamesTail(order);
      TearDownAll(Deleted(stacks, threads[k].userStack), RemoveAt(threads, k), order[1..]);
    }
  }

  // ------------------------------------------------------------ the process

  class Process {
    const stacks: StackList
    const vspace: VSpace
    var threads: seq<Thread>

    ghost predicate Valid()
      reads this, vspace, stacks, stacks.vm, stacks.vm.frames, stacks.vm.frames.freePages.bytes
    {
      stacks.Valid() && vspace.pml4Ppn == stacks.root && Paired(stacks.stacks, threads)
    }

    /** A process in a space that has just been created. */
    constructor (vm: VirtualMemory, vs: VSpace)
      requires vm.Valid() && 0 <= vs.pml4Ppn && vs.pml4Ppn in vm.spaces
      ensures Valid() && threads == [] && fresh(stacks) && stacks.vm == vm && vspace == vs
    {
      stacks := new StackList(vm, vs.pml4Ppn);
      vspace := vs;
      threads := [];
    }

    /** proc_start: a stack, then the thread that uses it.  The pages of the stacks stay
        accounted for unless a new slot lies over pages mapped for something else. */
    method StartThread(tid: nat)
      requires Valid() && |stacks.stacks| < MAX_STACKS && forall i | 0 <= i < |threads| :: threads[i].tid != tid
      modifies this, stacks
      ensures Valid() <==> SlotClear(stacks.vm.State(), stacks.root, old(stacks.stacks))
      ensures Paired(stacks.stacks, threads) && stacks.stacks == Created(old(stacks.stacks))
      ensures threads == old(threads) + [Thread(tid, FirstFree(old(stacks.stacks)))]
    {
      StartPaired(stacks.stacks, threads, tid);
      var stack := stacks.CreateStack();
      threads := threads + [Thread(tid, stack)];
    }

    /** The part of task_delete that concerns the process, for one of its threads. */
    method DeleteThread(tid: nat) returns (dead: bool)
      requires Valid() && Find(threads, tid) < |threads|
      modifies this, vspace, stacks, stacks.vm, stacks.vm.frames, stacks.vm.frames.freePages.bytes
      ensures dead <==> |old(threads)| == 1
      ensures TearDown(old(stacks.stacks), old(threads), [tid]) == Some((stacks.stacks, threads))
      ensures dead ==> stacks.stacks == [] && threads == [] && vspace.pml4Ppn == -1
      ensures dead ==> stacks.vm.Valid() && stacks.root !in stacks.vm.spaces
      ensures dead ==> Unowned(stacks.vm.State()) == Unowned(old(stacks.vm.State()))
      ensures !dead ==> Valid()
    {
      var k := Find(threads, tid);
      RemovePaired(stacks.stacks, threads, k);
      stacks.DeleteStack(threads[k].userStack);
      threads := RemoveAt(threads, k);
      dead := |threads| == 0;
      if dead {
        DeleteProcess();
      }
    }

    /** proc_delete.  Its two assertions are the preconditions. */
    method DeleteProcess()
      requires stacks.vm.Valid() && stacks.root in stacks.vm.spaces && vspace.pml4Ppn == stacks.root
      requires stacks.stacks == [] && threads == []
      modifies vspace, stacks.vm`owner, stacks.vm`spaces, stacks.vm.frames.freePages.bytes
      ensures vspace.pml4Ppn == -1 && stacks.vm.Valid()
      ensures stacks.vm.State() == DeleteSpace(old(stacks.vm.State()), stacks.root)
      ensures Unowned(stacks.vm.State()) == Unowned(old(stacks.vm.State()))
    {
      DeleteCorrect(stacks.vm.State(), stacks.root);
      stacks.vm.Delete(vspace);
    }
  }
}
