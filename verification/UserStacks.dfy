/** User stacks: slots below the user break whose pages are mapped when they are
    touched and unmapped when the thread goes. */
module UserStacks {
  import opened Wrappers
  import opened Layout
  import opened PageTables
  import opened AddressSpaceRuns
  import opened VSpaces
  import opened UserPages

  const STACK_SIZE: nat := 32 * 1024 * 1024
  const STACK_PAGES: nat := 8192

  /** As many slots as there is room for below the user break. */
  const MAX_STACKS: nat := 0x20_0000

  const STACK_FLAGS: Flags := Flags(true, true, true)

  datatype Stack = Stack(index: nat, startPage: nat, pageCount: nat, stackPtr: nat, taken: bool, pagesMapped: nat)

  function StartPage(index: nat): int {
    USER_PAGES - 2 * (index + 1) * STACK_PAGES
  }

  predicate Within(st: Stack, page: nat) {
    st.startPage <= page < st.startPage + st.pageCount
  }

  /** Position and range of the slot at index i. */
  predicate Placed(st: Stack, i: nat) {
    && i < MAX_STACKS
    && st.index == i && st.startPage == StartPage(i) && st.pageCount == STACK_PAGES
    && st.stackPtr == (st.startPage + STACK_PAGES) * PAGE_SIZE
  }

  predicate Accounted(s: State, root: nat, st: Stack) {
    && st.pagesMapped == Count(s, root, st.startPage, st.startPage + st.pageCount)
    && (!st.taken ==> st.pagesMapped == 0)
  }

  predicate LastAllocated(stacks: seq<Stack>) {
    stacks != [] ==> stacks[|stacks| - 1].taken
  }

  ghost predicate Good(s: State, root: nat, stacks: seq<Stack>) {
    && (forall i | 0 <= i < |stacks| :: Placed(stacks[i], i))
    && (forall i | 0 <= i < |stacks| :: Accounted(s, root, stacks[i]))
  }

  /** Two slots are a whole slot apart, and every slot ends below the user break, a whole
      slot of pages between them. */
  lemma SlotsApart(a: Stack, b: Stack, i: nat, j: nat)
    requires Placed(a, i) && Placed(b, j) && i < j
    ensures b.startPage + b.pageCount + STACK_PAGES <= a.startPage
    ensures a.startPage + a.pageCount + STACK_PAGES <= USER_PAGES
    ensures a.stackPtr <= USER_BREAK - STACK_SIZE && b.startPage >= 0
  {
  }

  /** The STACK_SIZE bytes below the initial stack pointer, and no others, lie in the slot. */
  lemma StackBytes(st: Stack, i: nat, addr: nat)
    requires Placed(st, i)
    ensures st.stackPtr - STACK_SIZE <= addr < st.stackPtr <==> Within(st, addr / PAGE_SIZE)
  {
  }

  /** The test of stack_load. */
  predicate Holds(st: Stack, page: nat) {
    st.taken && Within(st, page)
  }

  /** A page of a stack in use. */
  predicate InStack(stacks: seq<Stack>, p: nat) {
    exists k :: 0 <= k < |stacks| && Holds(stacks[k], p)
  }

  /** A page of a slot, in use or not. */
  predicate InSlot(stacks: seq<Stack>, p: nat) {
    exists k :: 0 <= k < |stacks| && Within(stacks[k], p)
  }

  // ------------------------------------------------------------ list values

  /** First slot that is free, or the length. */
  function FirstFree(stacks: seq<Stack>): (i: nat)
    ensures i <= |stacks| && (i < |stacks| ==> !stacks[i].taken)
    ensures forall k | 0 <= k < i :: stacks[k].taken
  {
    if stacks == [] || !stacks[0].taken then 0 else 1 + FirstFree(stacks[1..])
  }

  function NewStack(i: nat): Stack
    requires i < MAX_STACKS
  {
    Stack(i, StartPage(i), STACK_PAGES, (StartPage(i) + STACK_PAGES) * PAGE_SIZE, true, 0)
  }

  /** create_stack on the list: reuse the first free slot or append one. */
  function Created(stacks: seq<Stack>): seq<Stack>
    requires |stacks| < MAX_STACKS
  {
    var i := FirstFree(stacks);
    if i < |stacks| then stacks[i := stacks[i].(taken := true)] else stacks + [NewStack(i)]
  }

  /** Free slots at the end go. */
  function Trimmed(stacks: seq<Stack>): (r: seq<Stack>)
    ensures LastAllocated(r) && r <= stacks
    ensures forall i | |r| <= i < |stacks| :: !stacks[i].taken
  {
    if stacks != [] && !stacks[|stacks| - 1].taken then Trimmed(stacks[..|stacks| - 1]) else stacks
  }

  function Freed(stacks: seq<Stack>, i: nat): seq<Stack>
    requires i < |stacks|
  {
    stacks[i := stacks[i].(taken := false, pagesMapped := 0)]
  }

  /** delete_stack on the list. */
  function Deleted(stacks: seq<Stack>, i: nat): seq<Stack>
    requires i < |stacks|
  {
    Trimmed(Freed(stacks, i))
  }

  /** Indices of the slots in use. */
  function InUse(stacks: seq<Stack>): set<nat> {
    set i: nat | i < |stacks| && stacks[i].taken
  }

  lemma ReusedInUse(stacks: seq<Stack>, f: nat)
    requires f < |stacks| && !stacks[f].taken
    ensures InUse(stacks[f := stacks[f].(taken := true)]) == InUse(stacks) + {f} && f !in InUse(stacks)
  {
  }

  lemma AppendedInUse(stacks: seq<Stack>, st: Stack)
    requires st.taken
    ensures InUse(stacks + [st]) == InUse(stacks) + {|stacks|} && |stacks| !in InUse(stacks)
  {
    var c := stacks + [st];
    assert forall k: nat | k < |stacks| :: c[k] == stacks[k];
  }

  /** create_stack takes an index that was not in use. */
  lemma CreatedInUse(stacks: seq<Stack>, f: nat, c: seq<Stack>)
    requires |stacks| < MAX_STACKS && f == FirstFree(stacks) && c == Created(stacks)
    ensures InUse(c) == InUse(stacks) + {f} && f !in InUse(stacks)
  {
    if f < |stacks| {
      assert c == stacks[f := stacks[f].(taken := true)];
      ReusedInUse(stacks, f);
    } else {
      assert c == stacks + [NewStack(f)];
      AppendedInUse(stacks, NewStack(f));
    }
  }

  lemma CreatedLast(stacks: seq<Stack>)
    requires |stacks| < MAX_STACKS && LastAllocated(stacks)
    ensures LastAllocated(Created(stacks))
  {
    var f := FirstFree(stacks);
    var n := |stacks| - 1;
    if f < |stacks| {
      assert Created(stacks)[n] == stacks[n];
    } else {
      assert Created(stacks)[f] == NewStack(f);
    }
  }

  /** delete_stack gives up exactly one index; with none left the list is empty. */
  lemma DeletedInUse(stacks: seq<Stack>, i: nat)
    requires i < |stacks| && stacks[i].taken
    ensures InUse(Deleted(stacks, i)) == InUse(stacks) - {i} && LastAllocated(Deleted(stacks, i))
    ensures InUse(Deleted(stacks, i)) == {} ==> Deleted(stacks, i) == []
  {
    var u := Freed(stacks, i);
    var d := Deleted(stacks, i);
    forall k: nat
      ensures k in InUse(d) <==> k in InUse(stacks) && k != i
    {
      assert k < |d| ==> d[k] == u[k];
      assert |d| <= k < |u| ==> !u[k].taken;
      assert k < |u| && k != i ==> u[k] == stacks[k];
    }
    if d != [] {
      assert |d| - 1 in InUse(d);
    }
  }

  // ---------------------------------------------------------- page changes

  /** A page of no slot, or of one slot only, changes. */
  lemma AccountedElsewhere(s: State, s': State, root: nat, st: Stack, i: nat, lo: nat, hi: nat)
    requires Placed(st, i) && Accounted(s, root, st) && Live(s, root)
    requires OthersSame(s, s', root, lo, hi) && (hi <= st.startPage || st.startPage + st.pageCount <= lo)
    ensures Accounted(s', root, st)
  {
    forall v | st.startPage <= v < st.startPage + st.pageCount
      ensures Mapped(s', root, v) == Mapped(s, root, v)
    {
      OthersSamePage(s, s', root, lo, hi, v);
    }
    CountSame(s, s', root, st.startPage, st.startPage + st.pageCount);
  }

  /** One page of a slot is mapped afterwards: the count grows if it was not before. */
  lemma CountOneMore(s: State, s': State, root: nat, st: Stack, i: nat, page: nat)
    requires Live(s, root) && Placed(st, i) && Within(st, page)
    requires OthersSame(s, s', root, page, page + 1) && Mapped(s', root, page)
    ensures var lo, hi := st.startPage, st.startPage + st.pageCount;
      Count(s', root, lo, hi) == Count(s, root, lo, hi) + if Mapped(s, root, page) then 0 else 1
  {
    var lo, hi := st.startPage, st.startPage + st.pageCount;
    forall v | lo <= v < hi && v != page
      ensures Mapped(s', root, v) == Mapped(s, root, v)
    {
      OthersSamePage(s, s', root, page, page + 1, v);
    }
    if Mapped(s, root, page) {
      CountSame(s, s', root, lo, hi);
    } else {
      CountMapped(s, s', root, lo, hi, page);
    }
  }

  /** stack_load counts one more page exactly when the page was not mapped; otherwise the
      count and the pages part. */
  lemma LoadAccounted(s: State, s': State, root: nat, st: Stack, i: nat, page: nat)
    requires Live(s, root) && Placed(st, i) && Accounted(s, root, st) && st.taken && Within(st, page)
    requires OthersSame(s, s', root, page, page + 1) && Mapped(s', root, page)
    ensures Accounted(s', root, st.(pagesMapped := st.pagesMapped + 1)) <==> !Mapped(s, root, page)
  {
    CountOneMore(s, s', root, st, i, page);
  }

  lemma LoadKeeps(s: State, s': State, root: nat, stacks: seq<Stack>, k: nat, page: nat, after: seq<Stack>)
    requires root in s.spaces && Good(s, root, stacks)
    requires k < |stacks| && stacks[k].taken && Within(stacks[k], page) && !Mapped(s, root, page)
    requires OthersSame(s, s', root, page, page + 1) && Mapped(s', root, page)
    requires |after| == |stacks| && after[k] == AddPage(stacks[k])
    requires forall i | 0 <= i < |stacks| && i != k :: after[i] == stacks[i]
    ensures Good(s', root, after)
  {
    forall i | 0 <= i < |after|
      ensures Placed(after[i], i) && Accounted(s', root, after[i])
    {
      assert Placed(stacks[k], k) && Placed(stacks[i], i) && Accounted(s, root, stacks[i]);
      if i == k {
        CountOneMore(s, s', root, stacks[k], k, page);
      } else {
        LoadedElsewhere(s, s', root, stacks[i], i, stacks[k], k, page);
      }
    }
  }

  lemma LoadedElsewhere(s: State, s': State, root: nat, a: Stack, i: nat, b: Stack, k: nat, page: nat)
    requires root in s.spaces && Placed(a, i) && Placed(b, k) && i != k && Accounted(s, root, a) && Within(b, page)
    requires OthersSame(s, s', root, page, page + 1)
    ensures Accounted(s', root, a)
  {
    if i < k { SlotsApart(a, b, i, k); } else { SlotsApart(b, a, k, i); }
    AccountedElsewhere(s, s', root, a, i, page, page + 1);
  }

  /** The stacks stay in order if and only if the page was not mapped. */
  lemma LoadExactly(s: State, s': State, root: nat, stacks: seq<Stack>, k: nat, page: nat)
    requires root in s.spaces && Good(s, root, stacks)
    requires k < |stacks| && stacks[k].taken && Within(stacks[k], page)
    requires OthersSame(s, s', root, page, page + 1) && Mapped(s', root, page)
    ensures Good(s', root, stacks[k := AddPage(stacks[k])]) <==> !Mapped(s, root, page)
  {
    if Mapped(s, root, page) {
      LoadAccounted(s, s', root, stacks[k], k, page);
      assert !Accounted(s', root, stacks[k := AddPage(stacks[k])][k]);
    } else {
      LoadKeeps(s, s', root, stacks, k, page, stacks[k := AddPage(stacks[k])]);
    }
  }

  /** One page is mapped afterwards and no stack has counted it: the stacks stay in order if
      and only if it was mapped before or lies in no slot. */
  lemma AddedExactly(s: State, s': State, root: nat, stacks: seq<Stack>, page: nat)
    requires root in s.spaces && Good(s, root, stacks)
    requires OthersSame(s, s', root, page, page + 1) && Mapped(s', root, page)
    ensures Good(s', root, stacks) <==> Mapped(s, root, page) || !InSlot(stacks, page)
  {
    forall k | 0 <= k < |stacks|
      ensures Accounted(s', root, stacks[k]) <==> Mapped(s, root, page) || !Within(stacks[k], page)
    {
      assert Placed(stacks[k], k) && Accounted(s, root, stacks[k]);
      if Within(stacks[k], page) {
        CountOneMore(s, s', root, stacks[k], k, page);
      } else {
        AccountedElsewhere(s, s', root, stacks[k], k, page, page + 1);
      }
    }
    if InSlot(stacks, page) && !Mapped(s, root, page) {
      var k :| 0 <= k < |stacks| && Within(stacks[k], page);
      assert !Accounted(s', root, stacks[k]);
    }
  }

  /** Pages lo to hi go and no stack takes note: the stacks stay in order if and only if no
      mapped page of a slot was among them. */
  lemma ClearedExactly(s: State, s': State, root: nat, stacks: seq<Stack>, lo: nat, hi: nat)
    requires root in s.spaces && Good(s, root, stacks)
    requires OthersSame(s, s', root, lo, hi) && forall v | lo <= v < hi :: !Mapped(s', root, v)
    ensures Good(s', root, stacks) <==>
      forall k, v: nat | 0 <= k < |stacks| && Within(stacks[k], v) && lo <= v < hi :: !Mapped(s, root, v)
  {
    forall k | 0 <= k < |stacks|
      ensures Accounted(s', root, stacks[k]) <==>
        forall v: nat | Within(stacks[k], v) && lo <= v < hi :: !Mapped(s, root, v)
    {
      assert Placed(stacks[k], k) && Accounted(s, root, stacks[k]);
      SlotCleared(s, s', root, stacks[k], k, lo, hi);
    }
    if Good(s', root, stacks) {
      forall k, v: nat | 0 <= k < |stacks| && Within(stacks[k], v) && lo <= v < hi
        ensures !Mapped(s, root, v)
      {
        assert Accounted(s', root, stacks[k]);
      }
    }
  }

  lemma ClearedPage(s: State, s': State, root: nat, lo: nat, hi: nat, v: nat)
    requires OthersSame(s, s', root, lo, hi) && Live(s, root) && v < USER_PAGES
    requires lo <= v < hi ==> !Mapped(s', root, v)
    ensures Mapped(s', root, v) <==> Mapped(s, root, v) && !(lo <= v < hi)
  {
    if !(lo <= v < hi) { OthersSamePage(s, s', root, lo, hi, v); }
  }

  lemma SlotCleared(s: State, s': State, root: nat, st: Stack, i: nat, lo: nat, hi: nat)
    requires root in s.spaces && Placed(st, i) && Accounted(s, root, st)
    requires OthersSame(s, s', root, lo, hi) && forall v | lo <= v < hi :: !Mapped(s', root, v)
    ensures Accounted(s', root, st) <==> forall v: nat | Within(st, v) && lo <= v < hi :: !Mapped(s, root, v)
  {
    RangeCleared(s, s', root, st.startPage, st.startPage + st.pageCount, lo, hi);
    NoneWithin(s, root, st, lo, hi);
  }

  lemma RangeCleared(s: State, s': State, root: nat, a: nat, b: nat, lo: nat, hi: nat)
    requires Live(s, root) && b <= USER_PAGES
    requires OthersSame(s, s', root, lo, hi) && forall v | lo <= v < hi :: !Mapped(s', root, v)
    ensures Count(s', root, a, b) <= Count(s, root, a, b)
    ensures Count(s', root, a, b) == Count(s, root, a, b) <==> forall v | a <= v < b && lo <= v < hi :: !Mapped(s, root, v)
  {
    forall v | a <= v < b
      ensures Mapped(s', root, v) <==> Mapped(s, root, v) && !(lo <= v < hi)
    {
      ClearedPage(s, s', root, lo, hi, v);
    }
    CountCleared(s, s', root, a, b, lo, hi);
  }

  lemma NoneWithin(s: State, root: nat, st: Stack, lo: nat, hi: nat)
    ensures (forall v: nat | Within(st, v) && lo <= v < hi :: !Mapped(s, root, v))
       <==> forall v | st.startPage <= v < st.startPage + st.pageCount && lo <= v < hi :: !Mapped(s, root, v)
  {
    if forall v: nat | Within(st, v) && lo <= v < hi :: !Mapped(s, root, v) {
      forall v | st.startPage <= v < st.startPage + st.pageCount && lo <= v < hi
        ensures !Mapped(s, root, v)
      {
        assert Within(st, v);
      }
    }
  }

  // ------------------------------------------------------------- unwinding

  /** The pages from `page` up to hi are gone, and nothing else. */
  ghost predicate Unwound(s: State, s': State, root: nat, page: nat, hi: nat) {
    && Inv(s') && OthersSame(s, s', root, page, hi) && Unowned(s') == Unowned(s)
    && (forall v | page <= v < hi :: !Mapped(s', root, v))
  }

  /** The unwinding loop of delete_stack has come down from `top` to `page`: all pages it has
      passed are gone, and `done` of them were mapped. */
  ghost predicate Unwinding(s: State, s': State, root: nat, page: nat, top: nat, done: nat) {
    && page <= top <= USER_PAGES && Unwound(s, s', root, page, top)
    && done == Count(s, root, page, top) && |s'.used| == |s.used| - done
  }

  /** It ends on the page at which the count is used up. */
  ghost predicate EndsAt(s: State, s': State, root: nat, page: nat, top: nat, count: nat) {
    && Unwinding(s, s', root, page, top, count)
    && if count == 0 then page == top else Mapped(s, root, page)
  }

  lemma UnwindStart(s: State, root: nat, top: nat)
    requires Inv(s) && top <= USER_PAGES
    ensures Unwinding(s, s, root, top, top, 0)
  {
  }

  lemma UnwoundNext(s: State, s1: State, s2: State, root: nat, page: nat, hi: nat)
    requires page < hi <= USER_PAGES && root in s.spaces && Unwound(s, s1, root, page + 1, hi) && PageGone(s1, s2, root, page)
    ensures Unwound(s, s2, root, page, hi)
  {
    OthersCompose(s, s1, s2, root, page, page + 1, hi);
    forall v | page + 1 <= v < hi
      ensures !Mapped(s2, root, v)
    {
      assert !Mapped(s1, root, v);
      OthersSamePage(s1, s2, root, page, page + 1, v);
    }
  }

  /** One turn of the loop. */
  lemma UnwindTurn(s: State, s1: State, s2: State, root: nat, page: nat, top: nat, done: nat)
    requires root in s.spaces && page < top && Unwinding(s, s1, root, page + 1, top, done) && PageGone(s1, s2, root, page)
    ensures Mapped(s1, root, page) == Mapped(s, root, page)
    ensures Unwinding(s, s2, root, page, top, done + if Mapped(s, root, page) then 1 else 0)
  {
    OthersSamePage(s, s1, root, page + 1, top, page);
    UnwoundNext(s, s1, s2, root, page, top);
    CountFromBelow(s, root, page, top);
  }

  /** Where the loop stands with `left` of `count` still to go: enough mapped pages lie below,
      and with none to go it has just used the count up. */
  ghost predicate Turning(s: State, s': State, root: nat, page: nat, top: nat, count: nat, left: nat) {
    && left <= count && left <= Count(s, root, 0, page) && Unwinding(s, s', root, page, top, count - left)
    && (left == 0 ==> if count == 0 then page == top else Mapped(s, root, page))
  }

  lemma TurnNext(s: State, s1: State, s2: State, root: nat, page: nat, top: nat, count: nat, left: nat)
    requires root in s.spaces && left > 0 && Turning(s, s1, root, page + 1, top, count, left) && PageGone(s1, s2, root, page)
    ensures Turning(s, s2, root, page, top, count, if Mapped(s1, root, page) then left - 1 else left)
  {
    UnwindTurn(s, s1, s2, root, page, top, count - left);
  }

  /** The loop ends inside the slot with all its pages gone if and only if the count was the
      number of the slot's mapped pages.  With a smaller one pages stay; with a larger one the
      loop goes on below the slot. */
  lemma UnwindExactly(s: State, s': State, root: nat, lo: nat, page: nat, top: nat, count: nat)
    requires root in s.spaces && lo <= top && EndsAt(s, s', root, page, top, count)
    ensures lo <= page && (forall v | lo <= v < top :: !Mapped(s', root, v)) <==> count == Count(s, root, lo, top)
  {
    if lo <= page {
      CountSplit(s, root, lo, page, top);
      CountZero(s, root, lo, page);
      forall v | lo <= v < page
        ensures Mapped(s', root, v) == Mapped(s, root, v)
      {
        OthersSamePage(s, s', root, page, top, v);
      }
    } else {
      CountSplit(s, root, page, lo, top);
      CountFromBelow(s, root, page, lo);
    }
  }

  /** A right count never leads past page 0. */
  lemma RightCountEnds(s: State, root: nat, lo: nat, top: nat)
    requires lo <= top
    ensures Count(s, root, lo, top) <= Count(s, root, 0, top)
  {
    CountSplit(s, root, 0, lo, top);
  }

  // ------------------------------------------------------ slots come and go

  /** A slot that is yet to be created lies over no mapped page. */
  predicate SlotClear(s: State, root: nat, stacks: seq<Stack>)
    requires |stacks| < MAX_STACKS
  {
    FirstFree(stacks) == |stacks| ==> Count(s, root, StartPage(|stacks|), StartPage(|stacks|) + STACK_PAGES) == 0
  }

  /** create_stack keeps the stacks in order if and only if the slot is clear; one that is
      used again always is. */
  lemma CreateExactly(s: State, root: nat, stacks: seq<Stack>)
    requires Good(s, root, stacks) && |stacks| < MAX_STACKS
    ensures Good(s, root, Created(stacks)) <==> SlotClear(s, root, stacks)
  {
    if SlotClear(s, root, stacks) {
      CreateKeeps(s, root, stacks);
    } else {
      var c := Created(stacks);
      assert c[|stacks|] == NewStack(|stacks|) && !Accounted(s, root, c[|stacks|]);
    }
  }

  lemma CreateKeeps(s: State, root: nat, stacks: seq<Stack>)
    requires Good(s, root, stacks) && |stacks| < MAX_STACKS && SlotClear(s, root, stacks)
    ensures Good(s, root, Created(stacks))
  {
    var c, f := Created(stacks), FirstFree(stacks);
    forall i | 0 <= i < |c|
      ensures Placed(c[i], i) && Accounted(s, root, c[i])
    {
      if i < |stacks| {
        assert Placed(stacks[i], i) && Accounted(s, root, stacks[i]);
      }
    }
  }

  lemma DeleteKeeps(s: State, s': State, root: nat, stacks: seq<Stack>, k: nat)
    requires Inv(s) && root in s.spaces && Good(s, root, stacks) && k < |stacks|
    requires OthersSame(s, s', root, stacks[k].startPage, stacks[k].startPage + stacks[k].pageCount)
    requires Count(s', root, stacks[k].startPage, stacks[k].startPage + stacks[k].pageCount) == 0
    ensures Good(s', root, Deleted(stacks, k))
  {
    var u := Freed(stacks, k);
    var d := Deleted(stacks, k);
    assert forall i | 0 <= i < |d| :: d[i] == u[i];
    forall i | 0 <= i < |d|
      ensures Placed(d[i], i) && Accounted(s', root, d[i])
    {
      assert Placed(stacks[i], i) && Placed(stacks[k], k) && Accounted(s, root, stacks[i]);
      if i != k {
        if i < k { SlotsApart(stacks[i], stacks[k], i, k); } else { SlotsApart(stacks[k], stacks[i], k, i); }
        AccountedElsewhere(s, s', root, stacks[i], i, stacks[k].startPage, stacks[k].startPage + stacks[k].pageCount);
      }
    }
  }

  /** The pages of the stack are gone with their frames, and nothing else. */
  ghost predicate Released(s: State, s': State, root: nat, st: Stack) {
    && OthersSame(s, s', root, st.startPage, st.startPage + st.pageCount)
    && (forall v | st.startPage <= v < st.startPage + st.pageCount :: !Mapped(s', root, v))
    && Unowned(s') == Unowned(s) && |s'.used| == |s.used| - st.pagesMapped
  }

  lemma ReleaseKeeps(s: State, s': State, root: nat, stacks: seq<Stack>, k: nat, page: nat)
    requires root in s.spaces && Inv(s) && Good(s, root, stacks) && k < |stacks|
    requires var st := stacks[k]; EndsAt(s, s', root, page, st.startPage + st.pageCount, st.pagesMapped)
    ensures Released(s, s', root, stacks[k]) && Good(s', root, Deleted(stacks, k))
  {
    var lo, top := stacks[k].startPage, stacks[k].startPage + stacks[k].pageCount;
    assert Placed(stacks[k], k) && Accounted(s, root, stacks[k]);
    UnwindExactly(s, s', root, lo, page, top, stacks[k].pagesMapped);
    CountZero(s', root, lo, top);
    OthersWider(s, s', root, lo, page, top);
    DeleteKeeps(s, s', root, stacks, k);
  }

  lemma OthersWider(s: State, s': State, root: nat, lo: nat, page: nat, top: nat)
    requires lo <= page && OthersSame(s, s', root, page, top)
    ensures OthersSame(s, s', root, lo, top)
  {
  }

  // ------------------------------------------------------------- the stacks

  class StackList {
    const vm: VirtualMemory
    const root: nat
    var stacks: seq<Stack>

    ghost predicate Valid()
      reads this, vm, vm.frames, vm.frames.freePages.bytes
    {
      vm.Valid() && root in vm.spaces && Good(vm.State(), root, stacks) && LastAllocated(stacks)
    }

    constructor (vm: VirtualMemory, root: nat)
      requires vm.Valid() && root in vm.spaces
      ensures Valid() && stacks == [] && this.vm == vm && this.root == root
    {
      this.vm, this.root, stacks := vm, root, [];
    }

    /** create_stack.  The stacks stay in order unless a new slot lies over pages mapped for
        something else. */
    method CreateStack() returns (index: nat)
      requires Valid() && |stacks| < MAX_STACKS
      modifies this
      ensures stacks == Created(old(stacks)) && index == FirstFree(old(stacks))
      ensures vm.Valid() && LastAllocated(stacks) && (Valid() <==> SlotClear(vm.State(), root, old(stacks)))
    {
      CreatedLast(stacks);
      CreateExactly(vm.State(), root, stacks);
      index := FindFree();
      Take(index);
    }

    /** The slot found is marked, or a new one appended. */
    method Take(index: nat)
      requires index == FirstFree(stacks) && |stacks| < MAX_STACKS
      modifies this
      ensures stacks == Created(old(stacks))
    {
      if index < |stacks| {
        stacks := stacks[index := stacks[index].(taken := true)];
        return;
      }
      var startPage := USER_PAGES - 2 * (index + 1) * STACK_PAGES;
      stacks := stacks + [Stack(index, startPage, STACK_PAGES, (startPage + STACK_PAGES) * PAGE_SIZE, true, 0)];
    }

    /** The search loop of create_stack. */
    method FindFree() returns (index: nat)
      ensures index == FirstFree(stacks)
    {
      index := 0;
      while index < |stacks|
        invariant index <= |stacks| && forall k | 0 <= k < index :: stacks[k].taken
      {
        if !stacks[index].taken {
          break;
        }
        index := index + 1;
      }
      FirstFreeIs(stacks, index);
    }

    /** stack_load.  The stacks stay in order unless the page was mapped already: then the
        count and the pages of its stack part. */
    method StackLoad(page: nat) returns (found: bool)
      requires Valid() && vm.frames.Room(4)
      modifies this, vm`owner, vm.frames, vm.frames.freePages.bytes
      ensures vm.Valid() && (Valid() <==> !(found && Mapped(old(vm.State()), root, page))) && |stacks| == |old(stacks)|
      ensures found <==> exists k :: 0 <= k < |old(stacks)| && Holds(old(stacks)[k], page)
      ensures !found ==> vm.State() == old(vm.State()) && stacks == old(stacks)
      ensures found ==> PageServed(old(vm.State()), vm.State(), root, page, STACK_FLAGS)
      ensures found && !Mapped(old(vm.State()), root, page) ==>
        match Lookup(vm.frames.mem, root, page)
        case Some(leaf) => leaf.write && leaf.user && leaf.noExec
        case None => false
      ensures forall k | 0 <= k < |stacks| ::
        stacks[k] == if Holds(old(stacks)[k], page) then AddPage(old(stacks)[k]) else old(stacks)[k]
    {
      found := false;
      var k := 0;
      while k < |stacks|
        invariant k <= |stacks| && forall i | 0 <= i < k :: !Holds(stacks[i], page)
      {
        if stacks[k].taken && page >= stacks[k].startPage && page < stacks[k].startPage + stacks[k].pageCount {
          OnlyHolder(stacks, k, page);
          LoadInto(k, page);
          return true;
        }
        k := k + 1;
      }
    }

    method LoadInto(k: nat, page: nat)
      requires Valid() && vm.frames.Room(4) && k < |stacks| && Holds(stacks[k], page)
      modifies this, vm`owner, vm.frames, vm.frames.freePages.bytes
      ensures vm.Valid() && (Valid() <==> !Mapped(old(vm.State()), root, page))
      ensures PageServed(old(vm.State()), vm.State(), root, page, STACK_FLAGS)
      ensures stacks == old(stacks)[k := AddPage(old(stacks)[k])]
    {
      ghost var s := vm.State();
      assert Placed(stacks[k], k) && Accounted(s, root, stacks[k]);
      MapUserPage(vm, root, page, STACK_FLAGS);
      LoadExactly(s, vm.State(), root, stacks, k, page);
      LastKept(stacks, k);
      stacks := stacks[k := AddPage(stacks[k])];
    }

    /** delete_stack: the pages of the slot are unmapped from the top down until the count
        is used up, and no other page of any space changes. */
    method DeleteStack(index: nat)
      requires Valid() && index < |stacks| && stacks[index].taken
      modifies this, vm`owner, vm.frames, vm.frames.freePages.bytes
      ensures Valid() && stacks == Deleted(old(stacks), index)
      ensures var st := old(stacks)[index];
        && OthersSame(old(vm.State()), vm.State(), root, st.startPage, st.startPage + st.pageCount)
        && (forall v | st.startPage <= v < st.startPage + st.pageCount :: !Mapped(vm.State(), root, v))
        && Unowned(vm.State()) == Unowned(old(vm.State()))
        && |vm.State().used| == |old(vm.State()).used| - st.pagesMapped
    {
      ghost var now, s' := FreeSlot(index);
      Trim();
    }

    /** The head of delete_stack: the slot is free and its pages are unwound. */
    method FreeSlot(index: nat) returns (ghost now: State, ghost s': State)
      requires Valid() && index < |stacks|
      modifies this, vm`owner, vm.frames, vm.frames.freePages.bytes
      ensures now == old(vm.State()) && vm.State() == s' && vm.Valid() && root in vm.spaces
      ensures stacks == Freed(old(stacks), index)
      ensures Released(now, s', root, old(stacks)[index]) && Good(s', root, Deleted(old(stacks), index))
    {
      now := vm.State();
      ghost var was, st := stacks, stacks[index];
      assert Placed(st, index) && Accounted(now, root, st);
      RightCountEnds(now, root, st.startPage, st.startPage + st.pageCount);
      stacks := stacks[index := stacks[index].(taken := false)];
      var page;
      page, s' := Unwind(index, now);
      ReleaseKeeps(now, s', root, was, index, page);
      assert stacks == Freed(was, index);
    }

    /** The unwinding loop, for any count that does not lead below page 0: it ends on the page
        at which the count is used up, with all pages it passed gone. */
    method Unwind(index: nat, ghost s: State) returns (page: nat, ghost s': State)
      requires index < |stacks| && Placed(stacks[index], index) && vm.Valid() && root in vm.spaces && vm.State() == s
      requires stacks[index].pagesMapped <= Count(s, root, 0, stacks[index].startPage + stacks[index].pageCount)
      modifies this, vm`owner, vm.frames, vm.frames.freePages.bytes
      ensures vm.Valid() && root in vm.spaces && vm.State() == s'
      ensures stacks == old(stacks)[index := old(stacks)[index].(pagesMapped := 0)]
      ensures var st := old(stacks)[index]; EndsAt(s, s', root, page, st.startPage + st.pageCount, st.pagesMapped)
    {
      ghost var st, count := stacks[index], stacks[index].pagesMapped;
      page := stacks[index].startPage + stacks[index].pageCount;
      ghost var top := page;
      s' := s;
      UnwindStart(s, root, top);
      while stacks[index].pagesMapped != 0
        invariant vm.Valid() && root in vm.spaces && vm.State() == s' && |stacks| == |old(stacks)|
        invariant stacks == old(stacks)[index := st.(pagesMapped := stacks[index].pagesMapped)]
        invariant Turning(s, s', root, page, top, count, stacks[index].pagesMapped)
        decreases page
      {
        page, s' := UnwindPage(index, page, s, s', top, count);
      }
    }

    /** One turn: the page below goes, and counts if it was mapped. */
    method UnwindPage(index: nat, page: nat, ghost s: State, ghost now: State, ghost top: nat, ghost count: nat)
      returns (page': nat, ghost next: State)
      requires index < |stacks| && vm.Valid() && root in vm.spaces && root in s.spaces && vm.State() == now
      requires stacks[index].pagesMapped > 0 && Turning(s, now, root, page, top, count, stacks[index].pagesMapped)
      modifies this, vm`owner, vm.frames, vm.frames.freePages.bytes
      ensures vm.Valid() && root in vm.spaces && vm.State() == next && page' < page && |stacks| == |old(stacks)|
      ensures stacks == old(stacks)[index := old(stacks)[index].(pagesMapped := stacks[index].pagesMapped)]
      ensures Turning(s, next, root, page', top, count, stacks[index].pagesMapped)
    {
      ghost var left := stacks[index].pagesMapped;
      page' := page - 1;
      var gone := UnmapUserPage(vm, root, page');
      next := vm.State();
      TurnNext(s, now, next, root, page', top, count, left);
      if gone {
        stacks := stacks[index := stacks[index].(pagesMapped := stacks[index].pagesMapped - 1)];
      }
    }

    /** The loop that drops free slots at the end of the list. */
    method Trim()
      modifies this
      ensures stacks == Trimmed(old(stacks))
    {
      while stacks != [] && !stacks[|stacks| - 1].taken
        invariant Trimmed(stacks) == Trimmed(old(stacks))
        decreases |stacks|
      {
        stacks := stacks[..|stacks| - 1];
      }
    }
  }

  function AddPage(st: Stack): Stack {
    st.(pagesMapped := st.pagesMapped + 1)
  }

  lemma LastKept(stacks: seq<Stack>, k: nat)
    requires k < |stacks| && LastAllocated(stacks)
    ensures LastAllocated(stacks[k := AddPage(stacks[k])])
  {
  }

  lemma OnlyHolder(stacks: seq<Stack>, k: nat, page: nat)
    requires forall i | 0 <= i < |stacks| :: Placed(stacks[i], i)
    requires k < |stacks| && Within(stacks[k], page)
    ensures forall i | 0 <= i < |stacks| && i != k :: !Within(stacks[i], page)
  {
    forall i | 0 <= i < |stacks| && i != k
      ensures !Within(stacks[i], page)
    {
      assert Placed(stacks[i], i) && Placed(stacks[k], k);
      if i < k { SlotsApart(stacks[i], stacks[k], i, k); } else { SlotsApart(stacks[k], stacks[i], k, i); }
    }
  }

  lemma FirstFreeIs(stacks: seq<Stack>, i: nat)
    requires i <= |stacks| && (i < |stacks| ==> !stacks[i].taken) && forall k | 0 <= k < i :: stacks[k].taken
    ensures FirstFree(stacks) == i
  {
    var f := FirstFree(stacks);
  }
}
