/** Pages below the user break, mapped one at a time into one space. */
module UserPages {
  import opened Wrappers
  import opened PageTables
  import opened PageTableProofs
  import opened AddressSpaces
  import opened AddressSpaceRuns
  import opened VSpaces
  import opened PageNumbers

  const USER_PAGES: nat := 0x8_0000_0000

  predicate Mapped(s: State, root: nat, page: nat) {
    Lookup(s.mem, root, page).Some?
  }

  lemma UserPageMayMap(s: State, root: nat, page: nat)
    requires page < USER_PAGES && root in s.spaces
    ensures MayMap(s, root, page)
  {
    assert page / 0x800_0000 < 256;
  }

  /** Every page of every space translates as before, those of `root` from lo to hi apart. */
  ghost predicate OthersSame(s: State, s': State, root: nat, lo: nat, hi: nat) {
    && s'.kernel == s.kernel && s'.spaces == s.spaces
    && forall r, v: nat | Live(s, r) && (r == root ==> !(lo <= v % 0x10_0000_0000 < hi)) ::
         Lookup(s'.mem, r, v) == Lookup(s.mem, r, v)
  }

  lemma OthersSamePage(s: State, s': State, root: nat, lo: nat, hi: nat, page: nat)
    requires OthersSame(s, s', root, lo, hi) && Live(s, root) && page < USER_PAGES && !(lo <= page < hi)
    ensures Lookup(s'.mem, root, page) == Lookup(s.mem, root, page)
  {
    assert page % 0x10_0000_0000 == page;
  }

  lemma OthersCompose(s: State, s1: State, s2: State, root: nat, lo: nat, mid: nat, hi: nat)
    requires lo <= mid <= hi
    requires OthersSame(s, s1, root, mid, hi) && OthersSame(s1, s2, root, lo, mid)
    ensures OthersSame(s, s2, root, lo, hi)
  {
    forall r, v: nat | Live(s, r) && (r == root ==> !(lo <= v % 0x10_0000_0000 < hi))
      ensures Lookup(s2.mem, r, v) == Lookup(s.mem, r, v)
    {
      assert Live(s1, r);
    }
  }

  /** A page that is not this page of this space. */
  lemma OtherPage(s: State, root: nat, page: nat, r: nat, v: nat)
    requires root in s.spaces && page < USER_PAGES && (r == root ==> v % 0x10_0000_0000 != page)
    ensures PathOf(v) != PathOf(page) || (r != root && PathOf(v)[0] < 256)
  {
    if PathOf(v) == PathOf(page) {
      SamePath(v, page);
      UserSlot(page);
    }
  }

  lemma UserSlot(page: nat)
    requires page < USER_PAGES
    ensures PathOf(page)[0] < 256
  {
    assert page / 0x800_0000 < 256;
  }

  lemma MapOthers(s: State, root: nat, page: nat, flags: Flags)
    requires Inv(s) && root in s.spaces && page < USER_PAGES
    ensures OthersSame(s, MapFresh(s, root, page, flags), root, page, page + 1)
  {
    UserPageMayMap(s, root, page);
    MapStep(s, root, page, flags);
    var mem' := MapFresh(s, root, page, flags).mem;
    forall r, v: nat | Live(s, r) && (r == root ==> !(page <= v % 0x10_0000_0000 < page + 1))
      ensures Lookup(mem', r, v) == Lookup(s.mem, r, v)
    {
      OtherPage(s, root, page, r, v);
      MapTranslations(s, root, page, flags, r, v);
    }
  }

  /** Where the page leads after that: to the fresh frame, or where it led before. */
  function LeafAfter(s: State, root: nat, page: nat, flags: Flags): Option<Leaf> {
    if Mapped(s, root, page) then Lookup(s.mem, root, page) else Some(MappedLeaf(Lowest(s.used), flags))
  }

  /** Mapping a user page with a fresh frame. */
  lemma MapUser(s: State, root: nat, page: nat, flags: Flags)
    requires Inv(s) && root in s.spaces && page < USER_PAGES
    ensures var s' := MapFresh(s, root, page, flags);
      && Inv(s') && OthersSame(s, s', root, page, page + 1) && Mapped(s', root, page)
      && Lookup(s'.mem, root, page) == LeafAfter(s, root, page, flags)
      && Unowned(s') == Unowned(s) + if Mapped(s, root, page) then {Lowest(s.used)} else {}
  {
    UserPageMayMap(s, root, page);
    MapStep(s, root, page, flags);
    MapLeafOf(s, root, page, flags);
    MapOthers(s, root, page, flags);
  }

  lemma MapLeafOf(s: State, root: nat, page: nat, flags: Flags)
    requires Inv(s) && MayMap(s, root, page)
    ensures var s' := MapFresh(s, root, page, flags);
      Mapped(s', root, page) && Lookup(s'.mem, root, page) == LeafAfter(s, root, page, flags)
  {
    MapFreshStep(s, root, page, flags);
    MappedAfter(s, root, page, flags);
    if Mapped(s, root, page) {
      assert OwnPage(s, root, page);
      AllocView(s, root, page);
    }
  }

  lemma UnmapOthers(s: State, root: nat, page: nat)
    requires Inv(s) && root in s.spaces && page < USER_PAGES
    ensures OthersSame(s, UnmapPage(s, root, page), root, page, page + 1)
  {
    UserPageMayMap(s, root, page);
    UnmapStep(s, root, page);
    forall r, v: nat | Live(s, r) && (r == root ==> !(page <= v % 0x10_0000_0000 < page + 1))
      ensures Lookup(UnmapPage(s, root, page).mem, r, v) == Lookup(s.mem, r, v)
    {
      OtherPage(s, root, page, r, v);
      UnmapTranslations(s, root, page, r, v);
    }
  }

  /** Unmapping one. */
  lemma UnmapUser(s: State, root: nat, page: nat)
    requires Inv(s) && root in s.spaces && page < USER_PAGES
    ensures var s' := UnmapPage(s, root, page);
      && Inv(s') && OthersSame(s, s', root, page, page + 1) && !Mapped(s', root, page)
      && Unowned(s') == Unowned(s)
      && |s'.used| == |s.used| - if Mapped(s, root, page) then 1 else 0
  {
    UserPageMayMap(s, root, page);
    UnmapStep(s, root, page);
    UnmapCorrect(s, root, page);
    UnmapOthers(s, root, page);
  }

  /** A loop of vspace_unmap over the pages from lo to hi, whatever half they lie in. */
  function UnmapAll(s: State, root: nat, lo: nat, hi: nat): State
    decreases hi - lo
  {
    if hi <= lo then s else UnmapPage(UnmapAll(s, root, lo, hi - 1), root, hi - 1)
  }

  lemma UnmapAllNext(s: State, s1: State, s2: State, root: nat, lo: nat, hi: nat)
    requires lo <= hi && s1 == UnmapAll(s, root, lo, hi) && s2 == UnmapPage(s1, root, hi)
    ensures s2 == UnmapAll(s, root, lo, hi + 1)
  {
  }

  /** How many pages from lo to hi are mapped. */
  function Count(s: State, root: nat, lo: nat, hi: nat): nat
    decreases hi - lo
  {
    if hi <= lo then 0 else Count(s, root, lo, hi - 1) + if Mapped(s, root, hi - 1) then 1 else 0
  }

  lemma {:induction false} CountSame(s: State, s': State, root: nat, lo: nat, hi: nat)
    requires forall v | lo <= v < hi :: Mapped(s', root, v) == Mapped(s, root, v)
    ensures Count(s', root, lo, hi) == Count(s, root, lo, hi)
    decreases hi - lo
  {
    if lo < hi {
      CountSame(s, s', root, lo, hi - 1);
    }
  }

  lemma {:induction false} CountMapped(s: State, s': State, root: nat, lo: nat, hi: nat, page: nat)
    requires lo <= page < hi && !Mapped(s, root, page) && Mapped(s', root, page)
    requires forall v | lo <= v < hi && v != page :: Mapped(s', root, v) == Mapped(s, root, v)
    ensures Count(s', root, lo, hi) == Count(s, root, lo, hi) + 1
    decreases hi - lo
  {
    if page == hi - 1 {
      CountSame(s, s', root, lo, hi - 1);
    } else {
      CountMapped(s, s', root, lo, hi - 1, page);
    }
  }

  /** Where pages from lo to hi have gone and no others, the count of a range stays if and only
      if none of the range was mapped among them. */
  lemma {:induction false} CountCleared(s: State, s': State, root: nat, a: nat, b: nat, lo: nat, hi: nat)
    requires forall v | a <= v < b :: Mapped(s', root, v) <==> Mapped(s, root, v) && !(lo <= v < hi)
    ensures Count(s', root, a, b) <= Count(s, root, a, b)
    ensures Count(s', root, a, b) == Count(s, root, a, b) <==> forall v | a <= v < b && lo <= v < hi :: !Mapped(s, root, v)
    decreases b - a
  {
    if a < b {
      CountCleared(s, s', root, a, b - 1, lo, hi);
      CountLast(s, root, a, b);
      CountLast(s', root, a, b);
    }
  }

  lemma CountLast(s: State, root: nat, lo: nat, hi: nat)
    requires lo < hi
    ensures Count(s, root, lo, hi) == Count(s, root, lo, hi - 1) + if Mapped(s, root, hi - 1) then 1 else 0
  {
  }

  lemma {:induction false} CountFromBelow(s: State, root: nat, lo: nat, hi: nat)
    requires lo < hi
    ensures Count(s, root, lo, hi) == Count(s, root, lo + 1, hi) + if Mapped(s, root, lo) then 1 else 0
    decreases hi - lo
  {
    if lo + 1 < hi {
      CountFromBelow(s, root, lo, hi - 1);
    }
  }

  lemma {:induction false} CountSplit(s: State, root: nat, lo: nat, mid: nat, hi: nat)
    requires lo <= mid <= hi
    ensures Count(s, root, lo, hi) == Count(s, root, lo, mid) + Count(s, root, mid, hi)
    decreases hi - mid
  {
    if mid < hi {
      CountSplit(s, root, lo, mid, hi - 1);
    }
  }

  /** A count of zero means no page is mapped. */
  lemma {:induction false} CountZero(s: State, root: nat, lo: nat, hi: nat)
    ensures Count(s, root, lo, hi) == 0 <==> forall v | lo <= v < hi :: !Mapped(s, root, v)
    decreases hi - lo
  {
    if lo < hi {
      CountZero(s, root, lo, hi - 1);
    }
  }

  /** A page has been mapped to a fresh frame, or was mapped and the frame has gone astray;
      nothing else has changed. */
  ghost predicate PageServed(s: State, s': State, root: nat, page: nat, flags: Flags) {
    && Inv(s') && OthersSame(s, s', root, page, page + 1) && Mapped(s', root, page)
    && Lookup(s'.mem, root, page) == LeafAfter(s, root, page, flags)
    && Unowned(s') == Unowned(s) + if Mapped(s, root, page) then {Lowest(s.used)} else {}
  }

  /** alloc_page, for a frame that is to be mapped. */
  method TakeFrame(vm: VirtualMemory) returns (ppn: nat)
    requires vm.Valid() && vm.frames.Room(4)
    modifies vm.frames, vm.frames.freePages.bytes
    ensures vm.Valid() && vm.State() == Alloc(old(vm.State())) && ppn == Lowest(old(vm.State()).used)
    ensures vm.frames.Room(3) && Inv(old(vm.State()))
  {
    AllocKeepsInv(vm.State());
    ppn := vm.frames.AllocPage();
    assert vm.State() == Alloc(old(vm.State()));
  }

  lemma TakenIsFree(s: State, root: nat, page: nat)
    requires Inv(s) && root in s.spaces && page < USER_PAGES
    ensures MayMap(Alloc(s), root, page) && Lowest(s.used) in Alloc(s).used && Lowest(s.used) !in Alloc(s).owner
  {
    OwnedUsed(s);
    UserPageMayMap(s, root, page);
  }

  lemma TakenServed(s: State, s': State, root: nat, page: nat, flags: Flags)
    requires Inv(s) && root in s.spaces && page < USER_PAGES
    requires s' == MapPage(Alloc(s), root, page, Lowest(s.used), flags)
    ensures PageServed(s, s', root, page, flags)
  {
    MapUser(s, root, page, flags);
  }

  /** Mapping the frame that was just taken. */
  method MapTaken(vm: VirtualMemory, ghost s: State, root: nat, page: nat, ppn: nat, flags: Flags)
    requires vm.Valid() && Inv(s) && vm.State() == Alloc(s) && ppn == Lowest(s.used) && vm.frames.Room(3)
    requires root in s.spaces && page < USER_PAGES
    modifies vm`owner, vm.frames, vm.frames.freePages.bytes
    ensures vm.Valid() && PageServed(s, vm.State(), root, page, flags)
  {
    TakenIsFree(s, root, page);
    vm.Map(root, page, ppn, flags);
    TakenServed(s, vm.State(), root, page, flags);
  }

  /** alloc_page and vspace_map into a user space. */
  method MapUserPage(vm: VirtualMemory, root: nat, page: nat, flags: Flags)
    requires vm.Valid() && root in vm.spaces && page < USER_PAGES && vm.frames.Room(4)
    modifies vm`owner, vm.frames, vm.frames.freePages.bytes
    ensures vm.Valid() && PageServed(old(vm.State()), vm.State(), root, page, flags)
  {
    ghost var s := vm.State();
    var ppn := TakeFrame(vm);
    MapTaken(vm, s, root, page, ppn, flags);
  }

  ghost predicate PageGone(s: State, s': State, root: nat, page: nat) {
    && Inv(s') && OthersSame(s, s', root, page, page + 1) && !Mapped(s', root, page)
    && Unowned(s') == Unowned(s)
    && |s'.used| == |s.used| - if Mapped(s, root, page) then 1 else 0
  }

  /** vspace_unmap in a user space. */
  method UnmapUserPage(vm: VirtualMemory, root: nat, page: nat) returns (gone: bool)
    requires vm.Valid() && root in vm.spaces && page < USER_PAGES
    modifies vm`owner, vm.frames, vm.frames.freePages.bytes
    ensures vm.Valid() && vm.State() == UnmapPage(old(vm.State()), root, page)
    ensures PageGone(old(vm.State()), vm.State(), root, page)
    ensures gone == Mapped(old(vm.State()), root, page)
  {
    UserPageMayMap(vm.State(), root, page);
    UnmapUser(vm.State(), root, page);
    gone := vm.Unmap(root, page);
  }
}
