/** All of a process' memory: program pages, heap and stacks in one address space, each
    mapped when it is touched. */
module UserMemory {
  import opened Layout
  import opened Bytes
  import opened PageTables
  import opened AddressSpaces
  import opened AddressSpaceRuns
  import opened VSpaces
  import opened UserPages
  import opened UserStacks
  import opened Segments
  import opened Ext2
  import opened Loaders
  import UserHeap

  // ----------------------------------------------------------- what is in order

  /** What a process knows of its pages: the stacks, the program pages touched so far with
      their contents, and where the heap starts and ends. */
  datatype Regions = Regions(
    stacks: seq<Stack>,
    touched: set<nat>, bytes: map<nat, seq<Byte>>, file: seq<Byte>, segs: seq<Segment>,
    minBreak: nat, brk: nat)

  predicate InHeap(g: Regions, p: nat) {
    g.minBreak <= p * 4096 < g.brk
  }

  predicate Belongs(g: Regions, p: nat) {
    p in g.touched || InHeap(g, p) || InStack(g.stacks, p)
  }

  /** Every mapped page is a touched program page, a heap page below the break, or a page
      of a stack in use. */
  ghost predicate Laid(s: State, root: nat, g: Regions) {
    forall p | 0 <= p < USER_PAGES && Mapped(s, root, p) :: Belongs(g, p)
  }

  /** No touched page lies in a slot. */
  ghost predicate Off(g: Regions) {
    forall p | p in g.touched :: !InSlot(g.stacks, p)
  }

  /** The stacks have counted their pages, the touched pages show the program, and no page
      is mapped for nothing. */
  ghost predicate InOrder(s: State, root: nat, g: Regions) {
    && Good(s, root, g.stacks) && Laid(s, root, g) && Off(g)
    && AllServed(s, g.bytes, root, g.file, g.segs, g.touched)
  }

  // ------------------------------------------------------------- page changes

  /** Every user page of the space translates as before, those from lo to hi apart. */
  ghost predicate SamePages(s: State, s': State, root: nat, lo: nat, hi: nat) {
    forall p | 0 <= p < USER_PAGES && !(lo <= p < hi) :: SamePage(s, s', root, p)
  }

  predicate SamePage(s: State, s': State, root: nat, p: nat) {
    Lookup(s'.mem, root, p) == Lookup(s.mem, root, p)
  }

  lemma OthersSamePages(s: State, s': State, root: nat, lo: nat, hi: nat)
    requires OthersSame(s, s', root, lo, hi) && Live(s, root)
    ensures SamePages(s, s', root, lo, hi)
  {
    forall p | 0 <= p < USER_PAGES && !(lo <= p < hi)
      ensures SamePage(s, s', root, p)
    {
      OthersSamePage(s, s', root, lo, hi, p);
    }
  }

  lemma TakenBackPages(s: State, root: nat)
    requires Inv(s) && root in s.spaces
    ensures SamePages(s, TakenBack(s), root, 0, 0) && Unowned(TakenBack(s)) == Unowned(s)
  {
    TakenBackInv(s);
    forall p | 0 <= p < USER_PAGES
      ensures SamePage(s, TakenBack(s), root, p)
    {
      UserPageMayMap(s, root, p);
      assert OwnPage(s, root, p);
    }
  }

  /** Touched pages are mapped. */
  lemma TouchedMapped(s: State, root: nat, g: Regions, p: nat)
    requires AllServed(s, g.bytes, root, g.file, g.segs, g.touched) && p in g.touched
    ensures p < USER_PAGES && Mapped(s, root, p) && Serving(g.segs, p) < |g.segs|
  {
    assert ServedAt(s, g.bytes, root, g.file, g.segs, p);
  }

  /** Program pages keep their contents when their translations stay. */
  lemma ServedSame(s: State, s': State, root: nat, g: Regions)
    requires AllServed(s, g.bytes, root, g.file, g.segs, g.touched)
    requires forall p | p in g.touched :: SamePage(s, s', root, p)
    ensures AllServed(s', g.bytes, root, g.file, g.segs, g.touched)
  {
    forall p | p in g.touched
      ensures ServedAt(s', g.bytes, root, g.file, g.segs, p)
    {
      assert ServedAt(s, g.bytes, root, g.file, g.segs, p) && SamePage(s, s', root, p);
    }
  }

  /** Serving a page leaves the translations of all mapped pages. */
  lemma MappedStay(s: State, s': State, root: nat, page: nat, flags: Flags, p: nat)
    requires root in s.spaces && p < USER_PAGES && Mapped(s, root, p) && PageServed(s, s', root, page, flags)
    ensures SamePage(s, s', root, p)
  {
    if p != page { OthersSamePage(s, s', root, page, page + 1, p); }
  }

  lemma ServedStay(s: State, s': State, root: nat, page: nat, flags: Flags, g: Regions)
    requires root in s.spaces && AllServed(s, g.bytes, root, g.file, g.segs, g.touched)
    requires PageServed(s, s', root, page, flags)
    ensures AllServed(s', g.bytes, root, g.file, g.segs, g.touched)
  {
    forall p | p in g.touched
      ensures SamePage(s, s', root, p)
    {
      TouchedMapped(s, root, g, p);
      MappedStay(s, s', root, page, flags, p);
    }
    ServedSame(s, s', root, g);
  }

  /** One page more of a region that has it. */
  lemma LaidAdded(s: State, s': State, root: nat, page: nat, flags: Flags, g: Regions, g': Regions)
    requires root in s.spaces && Laid(s, root, g) && PageServed(s, s', root, page, flags)
    requires Mapped(s, root, page) || Belongs(g', page)
    requires forall p | Belongs(g, p) :: Belongs(g', p)
    ensures Laid(s', root, g')
  {
    forall p | 0 <= p < USER_PAGES && Mapped(s', root, p)
      ensures Belongs(g', p)
    {
      if p != page {
        OthersSamePage(s, s', root, page, page + 1, p);
        assert Mapped(s, root, p);
      }
    }
  }

  // ------------------------------------------------------------------- faults

  /** stack_load leaves every slot where it is. */
  predicate SameSlots(a: seq<Stack>, b: seq<Stack>) {
    |a| == |b| && forall k | 0 <= k < |a| :: SameSlot(a[k], b[k])
  }

  predicate SameSlot(a: Stack, b: Stack) {
    a.startPage == b.startPage && a.pageCount == b.pageCount && a.taken == b.taken
  }

  lemma SlotsKeep(a: seq<Stack>, b: seq<Stack>, p: nat)
    requires SameSlots(a, b)
    ensures InStack(a, p) ==> InStack(b, p)
    ensures InSlot(a, p) ==> InSlot(b, p)
  {
    if InStack(a, p) {
      var k :| 0 <= k < |a| && Holds(a[k], p);
      assert SameSlot(a[k], b[k]) && Holds(b[k], p);
    }
    if InSlot(a, p) {
      var k :| 0 <= k < |a| && Within(a[k], p);
      assert SameSlot(a[k], b[k]) && Within(b[k], p);
    }
  }

  lemma SlotsSame(a: seq<Stack>, b: seq<Stack>)
    requires SameSlots(a, b)
    ensures forall p :: (InStack(a, p) <==> InStack(b, p)) && (InSlot(a, p) <==> InSlot(b, p))
  {
    forall p
      ensures (InStack(a, p) <==> InStack(b, p)) && (InSlot(a, p) <==> InSlot(b, p))
    {
      assert SameSlots(b, a) by {
        assert forall k | 0 <= k < |a| :: SameSlot(a[k], b[k]);
      }
      SlotsKeep(a, b, p);
      SlotsKeep(b, a, p);
    }
  }

  /** A stack page is served: all stays in order if and only if it was not mapped. */
  lemma StackServed(s: State, s': State, root: nat, page: nat, g: Regions, stacks': seq<Stack>)
    requires root in s.spaces && InOrder(s, root, g) && InStack(g.stacks, page)
    requires PageServed(s, s', root, page, STACK_FLAGS) && SameSlots(g.stacks, stacks')
    requires Good(s', root, stacks') <==> !Mapped(s, root, page)
    ensures InOrder(s', root, g.(stacks := stacks')) <==> !Mapped(s, root, page)
  {
    var g' := g.(stacks := stacks');
    SlotsSame(g.stacks, stacks');
    ServedStay(s, s', root, page, STACK_FLAGS, g);
    LaidAdded(s, s', root, page, STACK_FLAGS, g, g');
  }

  /** A page is served for the heap or the program: all stays in order if and only if it was
      mapped or lies in no slot. */
  lemma PlainServed(s: State, s': State, root: nat, page: nat, flags: Flags, g: Regions, g': Regions)
    requires root in s.spaces && InOrder(s, root, g) && PageServed(s, s', root, page, flags)
    requires g'.stacks == g.stacks && g'.minBreak == g.minBreak && g'.brk == g.brk
    requires g'.touched == g.touched || (!Mapped(s, root, page) && g'.touched == g.touched + {page})
    requires Mapped(s, root, page) || Belongs(g', page)
    requires AllServed(s', g'.bytes, root, g'.file, g'.segs, g'.touched)
    ensures InOrder(s', root, g') <==> Mapped(s, root, page) || !InSlot(g.stacks, page)
  {
    AddedExactly(s, s', root, g.stacks, page);
    LaidAdded(s, s', root, page, flags, g, g');
  }

  /** No page has changed. */
  lemma Untouched(s: State, s': State, root: nat, g: Regions, g': Regions)
    requires InOrder(s, root, g) && SamePages(s, s', root, 0, 0)
    requires g'.stacks == g.stacks && g'.minBreak == g.minBreak && g'.brk == g.brk && g'.touched == g.touched
    requires AllServed(s', g'.bytes, root, g'.file, g'.segs, g'.touched)
    ensures InOrder(s', root, g')
  {
    forall p | 0 <= p < USER_PAGES && Mapped(s', root, p)
      ensures Belongs(g', p)
    {
      assert SamePage(s, s', root, p) && Mapped(s, root, p);
      assert Belongs(g, p);
    }
    forall k | 0 <= k < |g.stacks|
      ensures Accounted(s', root, g.stacks[k])
    {
      assert Placed(g.stacks[k], k) && Accounted(s, root, g.stacks[k]);
      SlotUntouched(s, s', root, g.stacks[k], k);
    }
  }

  lemma SlotUntouched(s: State, s': State, root: nat, st: Stack, k: nat)
    requires SamePages(s, s', root, 0, 0) && Placed(st, k) && Accounted(s, root, st)
    ensures Accounted(s', root, st)
  {
    forall v | st.startPage <= v < st.startPage + st.pageCount
      ensures Mapped(s', root, v) == Mapped(s, root, v)
    {
      assert SamePage(s, s', root, v);
    }
    CountSame(s, s', root, st.startPage, st.startPage + st.pageCount);
  }

  // -------------------------------------------------------------------- sbrk

  /** No mapped page from lo to hi is one of a slot or of the program. */
  ghost predicate Spares(s: State, root: nat, g: Regions, lo: nat, hi: nat) {
    forall p | lo <= p < hi && Mapped(s, root, p) :: p !in g.touched && !InSlot(g.stacks, p)
  }

  /** The break has gone down: all stays in order if and only if the pages unmapped were none
      of a slot or of the program. */
  lemma BreakLowered(s: State, s': State, root: nat, g: Regions, brk': nat)
    requires root in s.spaces && InOrder(s, root, g) && g.minBreak <= brk' && PageUp(g.brk) <= USER_PAGES
    requires UserHeap.Cleared(s, s', root, PageUp(brk'), PageUp(g.brk))
    ensures InOrder(s', root, g.(brk := brk')) <==> Spares(s, root, g, PageUp(brk'), PageUp(g.brk))
  {
    var lo, hi, g' := PageUp(brk'), PageUp(g.brk), g.(brk := brk');
    OthersSamePages(s, s', root, lo, hi);
    ClearedExactly(s, s', root, g.stacks, lo, hi);
    LaidLowered(s, s', root, g, brk');
    ServedLowered(s, s', root, g, lo, hi);
    SparesIs(s, root, g, lo, hi);
  }

  lemma SparesIs(s: State, root: nat, g: Regions, lo: nat, hi: nat)
    ensures Spares(s, root, g, lo, hi) <==>
      && (forall k, v: nat | 0 <= k < |g.stacks| && Within(g.stacks[k], v) && lo <= v < hi :: !Mapped(s, root, v))
      && (forall p | p in g.touched && lo <= p < hi :: !Mapped(s, root, p))
  {
    if Spares(s, root, g, lo, hi) {
      forall k, v: nat | 0 <= k < |g.stacks| && Within(g.stacks[k], v) && lo <= v < hi
        ensures !Mapped(s, root, v)
      {
        assert InSlot(g.stacks, v);
      }
    }
  }

  lemma LaidLowered(s: State, s': State, root: nat, g: Regions, brk': nat)
    requires Laid(s, root, g) && SamePages(s, s', root, PageUp(brk'), PageUp(g.brk))
    requires forall v | PageUp(brk') <= v < PageUp(g.brk) :: !Mapped(s', root, v)
    ensures Laid(s', root, g.(brk := brk'))
  {
    forall p | 0 <= p < USER_PAGES && Mapped(s', root, p)
      ensures Belongs(g.(brk := brk'), p)
    {
      assert SamePage(s, s', root, p) && Mapped(s, root, p);
      assert Belongs(g, p);
      assert p * 4096 < g.brk ==> p < PageUp(g.brk);
    }
  }

  lemma ServedLowered(s: State, s': State, root: nat, g: Regions, lo: nat, hi: nat)
    requires AllServed(s, g.bytes, root, g.file, g.segs, g.touched) && SamePages(s, s', root, lo, hi)
    requires forall v | lo <= v < hi :: !Mapped(s', root, v)
    ensures AllServed(s', g.bytes, root, g.file, g.segs, g.touched) <==>
      forall p | p in g.touched && lo <= p < hi :: !Mapped(s, root, p)
  {
    if forall p | p in g.touched && lo <= p < hi :: !Mapped(s, root, p) {
      forall p | p in g.touched
        ensures SamePage(s, s', root, p)
      {
        TouchedMapped(s, root, g, p);
      }
      ServedSame(s, s', root, g);
    }
    if AllServed(s', g.bytes, root, g.file, g.segs, g.touched) {
      forall p | p in g.touched
        ensures !(lo <= p < hi)
      {
        TouchedMapped(s', root, g, p);
      }
    }
  }

  /** No page between the new break and the old is mapped for the heap alone. */
  ghost predicate Covered(s: State, root: nat, g: Regions, brk': nat) {
    forall p | 0 <= p < USER_PAGES && Mapped(s, root, p) && brk' <= p * 4096 < g.brk ::
      p in g.touched || InStack(g.stacks, p)
  }

  /** The break has moved and no page with it: all stays in order if and only if it has left no
      heap page behind.  That takes a wrap, since only a negative increment lowers it otherwise. */
  lemma BreakMoved(s: State, root: nat, g: Regions, brk': nat)
    requires InOrder(s, root, g) && g.minBreak <= brk'
    ensures InOrder(s, root, g.(brk := brk')) <==> Covered(s, root, g, brk')
    ensures g.brk <= brk' ==> Covered(s, root, g, brk')
  {
    var g' := g.(brk := brk');
    if Covered(s, root, g, brk') {
      forall p | 0 <= p < USER_PAGES && Mapped(s, root, p)
        ensures Belongs(g', p)
      {
        assert Belongs(g, p);
      }
    }
    if Laid(s, root, g') {
      forall p | 0 <= p < USER_PAGES && Mapped(s, root, p) && brk' <= p * 4096 < g.brk
        ensures p in g.touched || InStack(g.stacks, p)
      {
        assert Belongs(g', p);
      }
    }
  }

  // ------------------------------------------------------ stacks come and go

  lemma CreatedHolds(stacks: seq<Stack>, p: nat)
    requires |stacks| < MAX_STACKS
    ensures InStack(stacks, p) ==> InStack(Created(stacks), p)
    ensures InSlot(Created(stacks), p) ==>
      InSlot(stacks, p) || (FirstFree(stacks) == |stacks| && StartPage(|stacks|) <= p < StartPage(|stacks|) + STACK_PAGES)
  {
    var c := Created(stacks);
    if InStack(stacks, p) {
      var k :| 0 <= k < |stacks| && Holds(stacks[k], p);
      assert Holds(c[k], p);
    }
    if InSlot(c, p) {
      var k :| 0 <= k < |c| && Within(c[k], p);
      if k < |stacks| { assert Within(stacks[k], p); }
    }
  }

  /** A stack is created: all stays in order if and only if its slot is clear. */
  lemma StackStarted(s: State, root: nat, g: Regions, stacks': seq<Stack>)
    requires InOrder(s, root, g) && |g.stacks| < MAX_STACKS && stacks' == Created(g.stacks)
    ensures InOrder(s, root, g.(stacks := stacks')) <==> SlotClear(s, root, g.stacks)
  {
    var g' := g.(stacks := stacks');
    CreateExactly(s, root, g.stacks);
    forall p | 0 <= p < USER_PAGES && Mapped(s, root, p)
      ensures Belongs(g', p)
    {
      assert Belongs(g, p);
      CreatedHolds(g.stacks, p);
    }
    if SlotClear(s, root, g.stacks) {
      OffCreated(s, root, g);
    }
  }

  lemma OffCreated(s: State, root: nat, g: Regions)
    requires Off(g) && AllServed(s, g.bytes, root, g.file, g.segs, g.touched)
    requires |g.stacks| < MAX_STACKS && SlotClear(s, root, g.stacks)
    ensures Off(g.(stacks := Created(g.stacks)))
  {
    CountZero(s, root, StartPage(|g.stacks|), StartPage(|g.stacks|) + STACK_PAGES);
    forall p | p in g.touched
      ensures !InSlot(Created(g.stacks), p)
    {
      TouchedMapped(s, root, g, p);
      CreatedHolds(g.stacks, p);
    }
  }

  lemma DeletedHolds(stacks: seq<Stack>, i: nat, p: nat)
    requires i < |stacks|
    ensures InStack(stacks, p) && !Within(stacks[i], p) ==> InStack(Deleted(stacks, i), p)
    ensures InSlot(Deleted(stacks, i), p) ==> InSlot(stacks, p)
  {
    var f, d := Freed(stacks, i), Deleted(stacks, i);
    if InStack(stacks, p) && !Within(stacks[i], p) {
      var k :| 0 <= k < |stacks| && Holds(stacks[k], p);
      assert f[k] == stacks[k] && f[k].taken;
      assert Holds(d[k], p);
    }
    if InSlot(d, p) {
      var k :| 0 <= k < |d| && Within(d[k], p);
      assert d[k] == f[k];
      assert Within(stacks[k], p);
    }
  }

  /** A stack is deleted. */
  lemma StackEnded(s: State, s': State, root: nat, g: Regions, i: nat, stacks': seq<Stack>)
    requires root in s.spaces && InOrder(s, root, g) && i < |g.stacks| && stacks' == Deleted(g.stacks, i)
    requires OthersSame(s, s', root, g.stacks[i].startPage, g.stacks[i].startPage + g.stacks[i].pageCount)
    requires forall v | Within(g.stacks[i], v) :: !Mapped(s', root, v)
    requires Good(s', root, stacks')
    ensures InOrder(s', root, g.(stacks := stacks'))
  {
    var lo, hi, g' := g.stacks[i].startPage, g.stacks[i].startPage + g.stacks[i].pageCount, g.(stacks := stacks');
    OthersSamePages(s, s', root, lo, hi);
    forall p | p in g.touched
      ensures SamePage(s, s', root, p) && !InSlot(stacks', p)
    {
      TouchedMapped(s, root, g, p);
      assert !InSlot(g.stacks, p);
      assert !Within(g.stacks[i], p);
      DeletedHolds(g.stacks, i, p);
    }
    ServedSame(s, s', root, g);
    LaidDeleted(s, s', root, g, i);
  }

  lemma LaidDeleted(s: State, s': State, root: nat, g: Regions, i: nat)
    requires Laid(s, root, g) && i < |g.stacks|
    requires SamePages(s, s', root, g.stacks[i].startPage, g.stacks[i].startPage + g.stacks[i].pageCount)
    requires forall v | Within(g.stacks[i], v) :: !Mapped(s', root, v)
    ensures Laid(s', root, g.(stacks := Deleted(g.stacks, i)))
  {
    forall p | 0 <= p < USER_PAGES && Mapped(s', root, p)
      ensures Belongs(g.(stacks := Deleted(g.stacks, i)), p)
    {
      assert !Within(g.stacks[i], p);
      assert SamePage(s, s', root, p) && Mapped(s, root, p);
      assert Belongs(g, p);
      DeletedHolds(g.stacks, i, p);
    }
  }

  // ------------------------------------------------------------ regions apart

  /** Program, heap and slots lie one above the other, in the user half. */
  ghost predicate Apart(g: Regions) {
    && BreakHolds(g.segs) && g.minBreak == MinBreak(g.segs) && g.brk <= USER_BREAK
    && forall k | 0 <= k < |g.stacks| :: g.brk <= g.stacks[k].startPage * 4096
  }

  /** A page the loader serves lies below the heap. */
  lemma ServedBelow(segs: seq<Segment>, page: nat)
    requires BreakHolds(segs) && Serving(segs, page) < |segs|
    ensures page < MinBreak(segs) / 4096
  {
    BreakExactly(segs);
    MinBreakIs(segs);
    assert End(segs[Serving(segs, page)]) <= MinBreak(segs);
  }

  lemma SlotsAbove(g: Regions, p: nat)
    requires Apart(g) && InSlot(g.stacks, p)
    ensures g.brk <= p * 4096
  {
    var k :| 0 <= k < |g.stacks| && Within(g.stacks[k], p);
    assert g.brk <= g.stacks[k].startPage * 4096;
  }

  /** With the regions apart, neither heap nor program has an address in a slot or above the
      user half. */
  lemma ApartFault(g: Regions, addr: nat)
    requires Apart(g) && g.minBreak <= g.brk
    requires g.minBreak <= addr < g.brk || Serving(g.segs, addr / 4096) < |g.segs|
    ensures addr < USER_BREAK && !InSlot(g.stacks, addr / 4096)
  {
    MinBreakIs(g.segs);
    if Serving(g.segs, addr / 4096) < |g.segs| { ServedBelow(g.segs, addr / 4096); }
    if InSlot(g.stacks, addr / 4096) { SlotsAbove(g, addr / 4096); }
  }

  /** Lowering the break then spares slots and program. */
  lemma ApartLowers(s: State, root: nat, g: Regions, brk': nat)
    requires Apart(g) && InOrder(s, root, g) && g.minBreak <= brk'
    ensures Spares(s, root, g, PageUp(brk'), PageUp(g.brk))
  {
    MinBreakIs(g.segs);
    forall p | PageUp(brk') <= p < PageUp(g.brk) && Mapped(s, root, p)
      ensures p !in g.touched && !InSlot(g.stacks, p)
    {
      if p in g.touched {
        TouchedMapped(s, root, g, p);
        ServedBelow(g.segs, p);
      }
      if InSlot(g.stacks, p) { SlotsAbove(g, p); }
    }
  }

  /** A new slot above the break is clear. */
  lemma ApartSlot(s: State, root: nat, g: Regions)
    requires Apart(g) && InOrder(s, root, g) && g.minBreak <= g.brk && |g.stacks| < MAX_STACKS
    requires g.brk <= StartPage(|g.stacks|) * 4096
    ensures SlotClear(s, root, g.stacks)
  {
    var lo := StartPage(|g.stacks|);
    MinBreakIs(g.segs);
    forall v | lo <= v < lo + STACK_PAGES
      ensures !Mapped(s, root, v)
    {
      assert !InStack(g.stacks, v) by {
        assert forall k | 0 <= k < |g.stacks| :: Placed(g.stacks[k], k);
      }
      if v in g.touched {
        TouchedMapped(s, root, g, v);
        ServedBelow(g.segs, v);
      }
      assert Mapped(s, root, v) ==> Belongs(g, v);
    }
    CountZero(s, root, lo, lo + STACK_PAGES);
  }

  /** Every mapped page belongs to exactly one region. */
  lemma ExactlyOneRegion(s: State, root: nat, g: Regions, p: nat)
    requires Apart(g) && InOrder(s, root, g) && p < USER_PAGES && Mapped(s, root, p)
    ensures p in g.touched <==> !InHeap(g, p) && !InStack(g.stacks, p)
    ensures InHeap(g, p) <==> p !in g.touched && !InStack(g.stacks, p)
    ensures InStack(g.stacks, p) <==> p !in g.touched && !InHeap(g, p)
  {
    assert Belongs(g, p);
    MinBreakIs(g.segs);
    if p in g.touched {
      TouchedMapped(s, root, g, p);
      ServedBelow(g.segs, p);
      assert !InSlot(g.stacks, p);
    }
    if InStack(g.stacks, p) {
      var k :| 0 <= k < |g.stacks| && Holds(g.stacks[k], p);
      assert InSlot(g.stacks, p);
      if InHeap(g, p) { SlotsAbove(g, p); }
    }
  }

  /** Stack 0 with a page mapped, and a break that had grown over it and comes down again: the
      page is gone and the stack still counts it, for every state. */
  lemma HeapOverStack(s: State, s': State, root: nat, stacks: seq<Stack>, v: nat)
    requires root in s.spaces && Good(s, root, stacks) && stacks != [] && Within(stacks[0], v) && Mapped(s, root, v)
    requires UserHeap.Cleared(s, s', root, PageUp(0x7fff_fc00_0000), PageUp(0x7fff_fe00_0000))
    ensures UserHeap.Target(0x7fff_fe00_0000, -0x200_0000, 0x1000) == 0x7fff_fc00_0000
    ensures !Good(s', root, stacks)
  {
    assert Placed(stacks[0], 0);
    ClearedExactly(s, s', root, stacks, PageUp(0x7fff_fc00_0000), PageUp(0x7fff_fe00_0000));
  }

  /** Whatever another process maps or unmaps, this one's stacks, heap and program pages stay
      as they are. */
  lemma Isolated(s: State, s': State, other: nat, lo: nat, hi: nat, root: nat, g: Regions)
    requires OthersSame(s, s', other, lo, hi) && root in s.spaces && root != other && InOrder(s, root, g)
    ensures root in s'.spaces && InOrder(s', root, g)
  {
    forall p | 0 <= p < USER_PAGES
      ensures SamePage(s, s', root, p)
    {
      assert Live(s, root);
    }
    forall p | p in g.touched
      ensures SamePage(s, s', root, p)
    {
      TouchedMapped(s, root, g, p);
    }
    ServedSame(s, s', root, g);
    Untouched(s, s', root, g, g);
  }

  // -------------------------------------------------------------- the process

  class Memory {
    const vm: VirtualMemory
    const root: nat
    const stacks: StackList
    const heap: UserHeap.Heap
    const loader: Loader

    ghost function Picture(): Regions
      reads stacks, heap, loader
    {
      Regions(stacks.stacks, loader.touched, loader.bytes, loader.file, loader.segs, heap.minBreak, heap.brk)
    }

    /** One space, and a heap that starts behind the program. */
    ghost predicate Wired()
      reads stacks, heap
    {
      && stacks.vm == vm && heap.vm == vm && loader.vm == vm
      && stacks.root == root && heap.root == root && loader.root == root
      && 0 < heap.minBreak == MinBreak(loader.segs) <= heap.brk < WORD && LastAllocated(stacks.stacks)
    }

    ghost predicate Valid()
      reads this, stacks, heap, loader, vm, vm.frames, vm.frames.freePages.bytes
    {
      Wired() && vm.Valid() && root in vm.spaces && loader.OnDisk() && InOrder(vm.State(), root, Picture())
    }

    /** proc_start: a space with no user page mapped. */
    constructor (vm: VirtualMemory, root: nat, fs: Fs, inode: Inode, segs: seq<Segment>)
      requires vm.Valid() && root in vm.spaces && forall p | 0 <= p < USER_PAGES :: !Mapped(vm.State(), root, p)
      requires ValidFs(fs) && ValidInode(fs, inode) && 0 < MinBreak(segs)
      ensures Valid() && this.vm == vm && this.root == root && loader.fs == fs && loader.inode == inode
      ensures loader.segs == segs && fresh(stacks) && fresh(heap) && fresh(loader)
      ensures BreakHolds(segs) && MinBreak(segs) <= USER_BREAK ==> Apart(Picture())
    {
      MinBreakIs(segs);
      this.vm, this.root := vm, root;
      stacks := new StackList(vm, root);
      heap := new UserHeap.Heap(vm, root, MinBreak(segs));
      loader := new Loader(vm, root, fs, inode, segs);
    }

    /** The bytes of a page that a segment serves start within the file. */
    predicate InFile(page: nat)
      reads loader
    {
      Serving(loader.segs, page) < |loader.segs| ==>
        ReadOffset(loader.segs[Serving(loader.segs, page)], page) <= loader.inode.length
    }

    /** The loader finds a segment for the page, and its bytes come from the disk. */
    predicate Loads(page: nat)
      requires ValidFs(loader.fs) && ValidInode(loader.fs, loader.inode) && InFile(page)
      reads loader
    {
      && Serving(loader.segs, page) < |loader.segs|
      && Arrives(loader.fs, loader.inode, loader.segs[Serving(loader.segs, page)], page)
    }

    /** The first part of page_fault. */
    method StackFault(page: nat) returns (found: bool)
      requires Valid() && vm.frames.Room(4)
      modifies stacks, vm`owner, vm.frames, vm.frames.freePages.bytes
      ensures vm.Valid() && Wired() && (found <==> InStack(old(stacks.stacks), page))
      ensures Valid() <==> !(found && Mapped(old(vm.State()), root, page))
      ensures found ==> PageServed(old(vm.State()), vm.State(), root, page, STACK_FLAGS)
      ensures !found ==> vm.State() == old(vm.State()) && stacks.stacks == old(stacks.stacks)
      ensures SameSlots(old(stacks.stacks), stacks.stacks)
    {
      ghost var s, g := vm.State(), Picture();
      found := stacks.StackLoad(page);
      SlotsLoaded(g.stacks, stacks.stacks, page);
      if found {
        StackServed(s, vm.State(), root, page, g, stacks.stacks);
      }
    }

    /** The second part. */
    method HeapFault(addr: nat) returns (found: bool)
      requires Valid() && vm.frames.Room(4) && (heap.minBreak <= addr < heap.brk ==> addr < USER_BREAK)
      modifies vm`owner, vm.frames, vm.frames.freePages.bytes
      ensures vm.Valid() && (found <==> heap.minBreak <= addr < heap.brk)
      ensures Valid() <==>
        !(found && !Mapped(old(vm.State()), root, addr / 4096) && InSlot(stacks.stacks, addr / 4096))
      ensures found ==> PageServed(old(vm.State()), vm.State(), root, addr / 4096, UserHeap.HEAP_FLAGS)
      ensures !found ==> vm.State() == old(vm.State())
    {
      ghost var s, g := vm.State(), Picture();
      MinBreakIs(loader.segs);
      found := heap.HeapLoad(addr);
      if found {
        HeapServed(s, vm.State(), root, addr, g);
      }
    }

    /** The third part. */
    method LoaderFault(page: nat) returns (found: bool)
      requires Valid() && vm.frames.Room(4) && loader.Servable(page)
      modifies loader, vm`owner, vm.frames, vm.frames.freePages.bytes
      ensures vm.Valid() && loader.OnDisk() && (found <==> Loads(page))
      ensures Valid() <==> !(found && !Mapped(old(vm.State()), root, page) && InSlot(stacks.stacks, page))
      ensures found ==>
        PageServed(old(vm.State()), vm.State(), root, page, PageFlags(loader.segs[Serving(loader.segs, page)]))
      ensures !found ==>
        SamePages(old(vm.State()), vm.State(), root, 0, 0) && Unowned(vm.State()) == Unowned(old(vm.State()))
    {
      ghost var s, g := vm.State(), Picture();
      var status := loader.LoaderLoad(page);
      found := status >= 0;
      if found {
        PlainServed(s, vm.State(), root, page, PageFlags(loader.segs[Serving(loader.segs, page)]), g, Picture());
      } else {
        if status == -EIO { TakenBackPages(s, root); }
        Untouched(s, vm.State(), root, g, Picture());
      }
    }

    /** What page_fault upsets: a stack page that is mapped is counted again, or a page for the
        heap or the program is mapped in a slot. */
    ghost predicate Upsets(addr: nat)
      requires loader.OnDisk() && InFile(addr / 4096)
      reads this, stacks, heap, loader, vm, vm.frames, vm.frames.freePages.bytes
    {
      var page := addr / 4096;
      if InStack(stacks.stacks, page) then Mapped(vm.State(), root, page)
      else
        && (heap.minBreak <= addr < heap.brk || Loads(page))
        && !Mapped(vm.State(), root, page) && InSlot(stacks.stacks, page)
    }

    /** page_fault of a user task, whether or not the page is mapped; an address of the heap or
        the program lies in the user half.  All stays in order if and only if the fault upsets
        nothing, and a frame goes astray exactly when a mapped page is served. */
    method PageFault(addr: nat) returns (ok: bool)
      requires Valid() && vm.frames.Room(4) && loader.Servable(addr / 4096)
      requires heap.minBreak <= addr < heap.brk ==> addr < USER_BREAK
      modifies stacks, loader, vm`owner, vm.frames, vm.frames.freePages.bytes
      ensures vm.Valid() && loader.OnDisk() && (Valid() <==> !old(Upsets(addr)))
      ensures ok <==>
        InStack(old(stacks.stacks), addr / 4096) || heap.minBreak <= addr < heap.brk || Loads(addr / 4096)
      ensures ok ==>
        exists flags :: PageServed(old(vm.State()), vm.State(), root, addr / 4096, flags)
      ensures ok && !Mapped(old(vm.State()), root, addr / 4096) ==>
        match Lookup(vm.frames.mem, root, addr / 4096)
        case Some(leaf) => RightLeaf(old(stacks.stacks), heap.minBreak, heap.brk, loader.segs, addr, leaf)
        case None => false
      ensures !ok ==>
        SamePages(old(vm.State()), vm.State(), root, 0, 0) && Unowned(vm.State()) == Unowned(old(vm.State()))
      ensures SameSlots(old(stacks.stacks), stacks.stacks)
    {
      var page := addr / 4096;
      ok := StackFault(page);
      if ok {
        return;
      }
      ok := HeapFault(addr);
      if ok {
        return;
      }
      ok := LoaderFault(page);
    }

    /** sys_sbrk, up to any address.  Going down it keeps all in order if and only if it spares
        slots and program. */
    method Sbrk(increment: int) returns (oldBreak: nat)
      requires Valid() && UserHeap.Signed(increment)
      requires heap.brk != INVALID && increment < 0 ==> heap.brk <= USER_BREAK
      modifies heap, vm`owner, vm.frames, vm.frames.freePages.bytes
      ensures vm.Valid() && oldBreak == old(heap.brk) && Unowned(vm.State()) == Unowned(old(vm.State()))
      ensures heap.brk == if oldBreak == INVALID then INVALID else UserHeap.Target(oldBreak, increment, heap.minBreak)
      ensures oldBreak == INVALID || increment >= 0 ==>
        && vm.State() == old(vm.State())
        && (Valid() <==> Covered(old(vm.State()), root, old(Picture()), heap.brk))
      ensures oldBreak != INVALID && increment < 0 ==>
        && UserHeap.Cleared(old(vm.State()), vm.State(), root, PageUp(heap.brk), PageUp(oldBreak))
        && (Valid() <==> Spares(old(vm.State()), root, old(Picture()), PageUp(heap.brk), PageUp(oldBreak)))
    {
      ghost var s, g := vm.State(), Picture();
      MinBreakIs(loader.segs);
      if heap.brk != INVALID && increment < 0 {
        UserHeap.ShrinkInUser(s, root, PageUp(UserHeap.Target(heap.brk, increment, heap.minBreak)), PageUp(heap.brk));
      }
      oldBreak := heap.Sbrk(increment);
      if oldBreak != INVALID && increment < 0 {
        BreakLowered(s, vm.State(), root, g, heap.brk);
      } else {
        BreakMoved(s, root, g, heap.brk);
      }
    }

    /** create_stack: all stays in order if and only if the slot is clear. */
    method StartStack() returns (index: nat)
      requires Valid() && |stacks.stacks| < MAX_STACKS
      modifies stacks
      ensures stacks.stacks == Created(old(stacks.stacks)) && index == FirstFree(old(stacks.stacks))
      ensures Valid() <==> SlotClear(vm.State(), root, old(stacks.stacks))
    {
      ghost var g := Picture();
      index := stacks.CreateStack();
      StackStarted(vm.State(), root, g, stacks.stacks);
    }

    /** delete_stack next to heap and program. */
    method EndStack(index: nat)
      requires Valid() && index < |stacks.stacks| && stacks.stacks[index].taken
      modifies stacks, vm`owner, vm.frames, vm.frames.freePages.bytes
      ensures Valid() && stacks.stacks == Deleted(old(stacks.stacks), index)
      ensures Unowned(vm.State()) == Unowned(old(vm.State()))
      ensures |vm.State().used| == |old(vm.State()).used| - old(stacks.stacks[index]).pagesMapped
    {
      ghost var s, g := vm.State(), Picture();
      stacks.DeleteStack(index);
      StackEnded(s, vm.State(), root, g, index, stacks.stacks);
    }
  }

  lemma SlotsLoaded(a: seq<Stack>, b: seq<Stack>, page: nat)
    requires |a| == |b| && LastAllocated(a)
    requires forall k | 0 <= k < |b| :: b[k] == if Holds(a[k], page) then AddPage(a[k]) else a[k]
    ensures SameSlots(a, b) && LastAllocated(b)
  {
  }

  lemma HeapAddress(g: Regions, addr: nat)
    requires g.minBreak % 4096 == 0 && g.minBreak <= addr < g.brk
    ensures InHeap(g, addr / 4096)
  {
  }

  /** A heap page is served. */
  lemma HeapServed(s: State, s': State, root: nat, addr: nat, g: Regions)
    requires root in s.spaces && InOrder(s, root, g) && g.minBreak % 4096 == 0 && g.minBreak <= addr < g.brk
    requires PageServed(s, s', root, addr / 4096, UserHeap.HEAP_FLAGS)
    ensures InOrder(s', root, g) <==> Mapped(s, root, addr / 4096) || !InSlot(g.stacks, addr / 4096)
  {
    HeapAddress(g, addr);
    ServedStay(s, s', root, addr / 4096, UserHeap.HEAP_FLAGS, g);
    PlainServed(s, s', root, addr / 4096, UserHeap.HEAP_FLAGS, g, g);
  }

  /** The regions stay apart through a fault, which moves neither slots nor break. */
  lemma ApartSame(g: Regions, g': Regions)
    requires Apart(g) && SameSlots(g.stacks, g'.stacks)
    requires g'.segs == g.segs && g'.minBreak == g.minBreak && g'.brk == g.brk
    ensures Apart(g')
  {
    forall k | 0 <= k < |g'.stacks|
      ensures g'.brk <= g'.stacks[k].startPage * 4096
    {
      assert SameSlot(g.stacks[k], g'.stacks[k]);
    }
  }

  /** With the regions apart, a fault upsets nothing but a stack whose mapped page is loaded
      again. */
  lemma ApartUpsets(m: Memory, addr: nat)
    requires m.Valid() && Apart(m.Picture()) && m.loader.Servable(addr / 4096)
    ensures m.heap.minBreak <= addr < m.heap.brk ==> addr < USER_BREAK
    ensures m.Upsets(addr) <==> InStack(m.stacks.stacks, addr / 4096) && Mapped(m.vm.State(), m.root, addr / 4096)
  {
    var g := m.Picture();
    if g.minBreak <= addr < g.brk || Serving(g.segs, addr / 4096) < |g.segs| {
      ApartFault(g, addr);
    }
  }

  /** User mode reaches the page.  A stack page can be written and not executed, a heap page
      both, a program page what its segment says. */
  predicate RightLeaf(stacks: seq<Stack>, minBreak: nat, brk: nat, segs: seq<Segment>, addr: nat, leaf: Leaf) {
    && leaf.user
    && if InStack(stacks, addr / 4096) then leaf.write && leaf.noExec
       else if minBreak <= addr < brk then leaf.write && !leaf.noExec
       else
         && Serving(segs, addr / 4096) < |segs|
         && var g := segs[Serving(segs, addr / 4096)];
            leaf.write == g.write && leaf.noExec == !g.exec
  }
}
