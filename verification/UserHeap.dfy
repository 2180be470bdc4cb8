/** The user heap: sbrk moves a break, pages below it are mapped when they are touched. */
module UserHeap {
  import opened Layout
  import opened PageTables
  import opened AddressSpaceRuns
  import opened VSpaces
  import opened UserPages
  import opened UpperPages

  /** Heap pages can be written and executed. */
  const HEAP_FLAGS: Flags := Flags(true, true, false)

  /** Where sys_sbrk puts the break, computed in 64-bit words. */
  function Target(brk: nat, increment: int, minBreak: nat): nat {
    var moved := (brk + increment) % WORD;
    if moved < minBreak then minBreak else moved
  }

  /** The increments a signed word can hold. */
  predicate Signed(increment: int) {
    -0x8000_0000_0000_0000 <= increment < 0x8000_0000_0000_0000
  }

  /** The break moves by the increment but not below its minimum, if and only if the move
      stays in the address space. */
  lemma TargetExactly(brk: nat, increment: int, minBreak: nat)
    requires minBreak <= brk < WORD && Signed(increment)
    ensures Target(brk, increment, minBreak) == (if brk + increment < minBreak then minBreak else brk + increment)
       <==> 0 <= brk + increment < WORD
  {
    if brk + increment < 0 {
      assert (brk + increment) % WORD == brk + increment + WORD;
    } else if brk + increment < WORD {
      assert (brk + increment) % WORD == brk + increment;
    } else {
      assert (brk + increment) % WORD == brk + increment - WORD;
    }
  }

  /** Pages lo to hi have been unmapped one by one, up to `page`. */
  ghost predicate Cleared(s: State, s': State, root: nat, lo: nat, page: nat) {
    && Inv(s') && OthersSame(s, s', root, lo, page) && Unowned(s') == Unowned(s)
    && (forall v | lo <= v < page :: !Mapped(s', root, v))
  }

  lemma ClearNext(s: State, s1: State, s2: State, root: nat, lo: nat, page: nat)
    requires lo <= page < USER_PAGES && root in s.spaces && Cleared(s, s1, root, lo, page) && PageGone(s1, s2, root, page)
    ensures Cleared(s, s2, root, lo, page + 1)
  {
    forall r, v: nat | Live(s, r) && (r == root ==> !(lo <= v % 0x10_0000_0000 < page + 1))
      ensures Lookup(s2.mem, r, v) == Lookup(s.mem, r, v)
    {
      assert Live(s1, r);
    }
    forall v | lo <= v < page
      ensures !Mapped(s2, root, v)
    {
      assert !Mapped(s1, root, v);
      OthersSamePage(s1, s2, root, page, page + 1, v);
    }
  }

  lemma ClearOne(s: State, s1: State, root: nat, lo: nat, page: nat) returns (s2: State)
    requires lo <= page < USER_PAGES && root in s.spaces && Cleared(s, s1, root, lo, page)
    ensures s2 == UnmapPage(s1, root, page) && Cleared(s, s2, root, lo, page + 1)
  {
    s2 := UnmapPage(s1, root, page);
    UnmapUser(s1, root, page);
    ClearNext(s, s1, s2, root, lo, page);
  }

  lemma {:induction false} UnmapAllClears(s: State, root: nat, lo: nat, hi: nat) returns (s': State)
    requires Inv(s) && root in s.spaces && lo <= hi <= USER_PAGES
    ensures s' == UnmapAll(s, root, lo, hi) && Cleared(s, s', root, lo, hi)
    decreases hi - lo
  {
    if lo < hi {
      var s1 := UnmapAllClears(s, root, lo, hi - 1);
      s' := ClearOne(s, s1, root, lo, hi - 1);
      UnmapAllNext(s, s1, s', root, lo, hi - 1);
    } else {
      s' := s;
    }
  }

  /** Below the user break there is nothing above, and the pages of the range go. */
  lemma ShrinkInUser(s: State, root: nat, lo: nat, hi: nat)
    requires Inv(s) && root in s.spaces && hi <= USER_PAGES
    ensures NoneAbove(s, root, lo, hi) && Cleared(s, UnmapAll(s, root, lo, hi), root, lo, hi)
  {
    forall p | lo <= p < hi
      ensures PathOf(p)[0] < 256
    {
      UserSlot(p);
    }
    if lo <= hi { var _ := UnmapAllClears(s, root, lo, hi); }
  }

  // ------------------------------------------------------- in the kernel half

  /** Two growths by 0x7fff_ffff_0000_0000 bring the break into the kernel half without a wrap,
      and heap_load then finds addresses there. */
  lemma HeapIntoKernel(minBreak: nat)
    requires 0 < minBreak < 0x2_0000_0000
    ensures var once := Target(minBreak, 0x7fff_ffff_0000_0000, minBreak);
      var brk := Target(once, 0x7fff_ffff_0000_0000, minBreak);
      brk == minBreak + 0xffff_fffe_0000_0000 && minBreak <= 0xffff_e000_0000_0000 < brk
  {
  }

  /** Serving such an address ends the separation of the spaces, in every state. */
  lemma KernelHeapBreaks(s: State, root: nat)
    requires Inv(s) && root in s.spaces && !Mapped(s, root, 0xf_fffe_0000_0000)
    ensures 0xffff_e000_0000_0000 / 4096 == 0xf_fffe_0000_0000
    ensures var s' := MapFresh(s, root, 0xf_fffe_0000_0000, HEAP_FLAGS);
      !(Trees(s') && OtherSpaces(s, s', root))
  {
    ServedExactly(s, root, 0xf_fffe_0000_0000, HEAP_FLAGS);
  }

  /** The loop of sys_sbrk has unmapped the pages from lo up to hi. */
  ghost predicate Gone(s: State, s': State, root: nat, lo: nat, hi: nat) {
    s' == UnmapAll(s, root, lo, hi) && Lowered(s, s', root)
  }

  lemma GoneNone(s: State, root: nat, lo: nat, hi: nat) returns (s': State)
    requires Inv(s) && hi <= lo
    ensures s' == s && Gone(s, s', root, lo, hi)
  {
    s' := s;
  }

  class Heap {
    const vm: VirtualMemory
    const root: nat
    const minBreak: nat
    var brk: nat

    ghost predicate Valid()
      reads this, vm, vm.frames, vm.frames.freePages.bytes
    {
      && vm.Valid() && root in vm.spaces && 0 < minBreak <= brk < WORD
      && (minBreak == INVALID || minBreak % 4096 == 0)
    }

    /** proc_start: the break starts at its minimum. */
    constructor (vm: VirtualMemory, root: nat, minBreak: nat)
      requires vm.Valid() && root in vm.spaces
      requires minBreak == INVALID || (0 < minBreak < WORD && minBreak % 4096 == 0)
      ensures Valid() && brk == minBreak && this.minBreak == minBreak && this.vm == vm && this.root == root
    {
      this.vm, this.root, this.minBreak := vm, root, minBreak;
      brk := minBreak;
    }

    /** The pages a call unmaps hold nothing in the upper half. */
    ghost predicate Lowers(increment: int)
      reads this, vm, vm.frames, vm.frames.freePages.bytes
    {
      brk != INVALID && increment < 0 ==>
        NoneAbove(vm.State(), root, PageUp(Target(brk, increment, minBreak)), PageUp(brk))
    }

    /** sys_sbrk.  The break may go anywhere; a negative increment unmaps exactly the pages
        that hold an address below the old break and none below the new. */
    method Sbrk(increment: int) returns (oldBreak: nat)
      requires Valid() && Signed(increment) && Lowers(increment)
      modifies this, vm`owner, vm.frames, vm.frames.freePages.bytes
      ensures Valid() && oldBreak == old(brk)
      ensures brk == if oldBreak == INVALID then INVALID else Target(oldBreak, increment, minBreak)
      ensures oldBreak == INVALID || increment >= 0 ==> vm.State() == old(vm.State())
      ensures oldBreak != INVALID && increment < 0 ==>
        && vm.State() == UnmapAll(old(vm.State()), root, PageUp(brk), PageUp(oldBreak))
        && Lowered(old(vm.State()), vm.State(), root)
    {
      oldBreak := brk;
      if brk == INVALID {
        return;
      }
      Move(increment);
      if increment < 0 {
        Shrink(oldBreak);
      }
    }

    method Move(increment: int)
      requires 0 < minBreak <= brk < WORD
      modifies this
      ensures brk == Target(old(brk), increment, minBreak) && minBreak <= brk < WORD
    {
      if (brk + increment) % WORD < minBreak {
        brk := minBreak;
      } else {
        brk := (brk + increment) % WORD;
      }
    }

    method Shrink(oldBreak: nat)
      requires vm.Valid() && root in vm.spaces && 0 < oldBreak
      requires NoneAbove(vm.State(), root, PageUp(brk), PageUp(oldBreak))
      modifies vm`owner, vm.frames, vm.frames.freePages.bytes
      ensures vm.Valid() && vm.State() == UnmapAll(old(vm.State()), root, PageUp(brk), PageUp(oldBreak))
      ensures Lowered(old(vm.State()), vm.State(), root)
    {
      var firstUnmap := brk / 4096;
      if brk % 4096 != 0 {
        firstUnmap := firstUnmap + 1;
      }
      var lastUnmap := oldBreak / 4096;
      if oldBreak % 4096 == 0 {
        lastUnmap := lastUnmap - 1;
      }
      assert firstUnmap == PageUp(brk) && lastUnmap + 1 == PageUp(oldBreak);
      if firstUnmap <= lastUnmap {
        UnmapRange(vm.State(), firstUnmap, lastUnmap);
      } else {
        ghost var _ := GoneNone(vm.State(), root, firstUnmap, lastUnmap + 1);
      }
    }

    /** The loop of sys_sbrk, when it has a turn; the last page is included. */
    method UnmapRange(ghost s: State, firstUnmap: nat, lastUnmap: nat)
      requires vm.Valid() && root in vm.spaces && s == vm.State() && firstUnmap <= lastUnmap
      requires NoneAbove(s, root, firstUnmap, lastUnmap + 1)
      modifies vm`owner, vm.frames, vm.frames.freePages.bytes
      ensures vm.Valid() && Gone(s, vm.State(), root, firstUnmap, lastUnmap + 1)
    {
      ghost var now := GoneNone(s, root, firstUnmap, firstUnmap);
      for page := firstUnmap to lastUnmap + 1
        invariant vm.Valid() && vm.State() == now && Gone(s, now, root, firstUnmap, page)
      {
        now := UnmapNext(s, now, firstUnmap, page);
      }
    }

    /** One turn of the loop. */
    method UnmapNext(ghost s: State, ghost now: State, ghost lo: nat, page: nat) returns (ghost next: State)
      requires vm.Valid() && root in s.spaces && lo <= page && (PathOf(page)[0] >= 256 ==> !Mapped(s, root, page))
      requires vm.State() == now && Gone(s, now, root, lo, page)
      modifies vm`owner, vm.frames, vm.frames.freePages.bytes
      ensures vm.Valid() && vm.State() == next && Gone(s, next, root, lo, page + 1)
    {
      next := LoweredNext(s, now, root, page);
      UnmapAllNext(s, now, next, root, lo, page);
      var _ := vm.Unmap(root, page);
    }

    /** heap_load, for an address in the user half when it is one of the heap.  A page that was
        absent can then be read, written and executed from user mode. */
    method HeapLoad(addr: nat) returns (found: bool)
      requires Valid() && vm.frames.Room(4) && (minBreak <= addr < brk ==> addr < USER_BREAK)
      modifies vm`owner, vm.frames, vm.frames.freePages.bytes
      ensures Valid() && (found <==> minBreak <= addr < brk)
      ensures found ==> PageServed(old(vm.State()), vm.State(), root, addr / 4096, HEAP_FLAGS)
      ensures found && !Mapped(old(vm.State()), root, addr / 4096) ==>
        match Lookup(vm.frames.mem, root, addr / 4096)
        case Some(leaf) => leaf.write && leaf.user && !leaf.noExec
        case None => false
      ensures !found ==> vm.State() == old(vm.State())
    {
      found := false;
      if addr >= minBreak && addr < brk {
        MapUserPage(vm, root, addr / 4096, HEAP_FLAGS);
        found := true;
      }
    }
  }
}
