/** The kernel heap's break: kbrk maps and unmaps the pages behind it. */
module KernelBreak {
  import opened Layout
  import opened PageTables
  import opened PageTableProofs
  import opened AddressSpaces
  import opened AddressSpaceRuns
  import opened VSpaces
  import opened PageNumbers

  const START_PAGE: nat := 0xf_fffe_0000_0000
  const END_PAGE: nat := 0x10_0000_0000_0000

  const KERNEL_FLAGS: Flags := Flags(false, true, true)

  predicate HeapPage(page: nat) {
    START_PAGE <= page < END_PAGE
  }

  // ------------------------------------------------------------ heap pages

  lemma HeapPageLow(a: nat)
    requires HeapPage(a)
    ensures a % 0x10_0000_0000 == a - 0xf_fff0_0000_0000
  {
    assert a / 0x10_0000_0000 == 0xffff;
  }

  lemma HeapPagesDistinct(a: nat, b: nat)
    requires HeapPage(a) && HeapPage(b) && a != b
    ensures PathOf(a) != PathOf(b)
  {
    Recompose(a);
    Recompose(b);
    HeapPageLow(a);
    HeapPageLow(b);
  }

  lemma HeapPageMayMap(s: State, page: nat)
    requires HeapPage(page)
    ensures MayMap(s, s.kernel, page)
  {
    assert page / 0x800_0000 % 512 == 448 + (page - START_PAGE) / 0x800_0000;
  }

  // -------------------------------------------------- runs of map and unmap

  predicate Mapped(s: State, page: nat) {
    Lookup(s.mem, s.kernel, page).Some?
  }

  /** The heap pages that are mapped. */
  ghost function View(s: State): iset<nat> {
    iset q: nat | HeapPage(q) && Mapped(s, q)
  }

  /** Heap pages can be written, by the kernel only, and not executed. */
  ghost predicate HeapRights(s: State) {
    forall q: nat | HeapPage(q) :: HeapLeaf(s, q)
  }

  predicate HeapLeaf(s: State, page: nat) {
    match Lookup(s.mem, s.kernel, page)
    case None => true
    case Some(leaf) => leaf.write && !leaf.user && leaf.noExec
  }

  predicate InRange(q: nat, first: nat, end: nat) {
    first <= q < end
  }

  ghost function Range(first: nat, end: nat): iset<nat> {
    iset q: nat | InRange(q, first, end)
  }

  lemma RangeCompose(v: iset<nat>, first: nat, end: nat)
    requires first <= end
    ensures v + Range(first, end) + Range(end, end + 1) == v + Range(first, end + 1)
    ensures v - Range(first, end) - Range(end, end + 1) == v - Range(first, end + 1)
  {
  }

  /** Of the heap pages from `first` on, at most the first is mapped. */
  ghost predicate OnlyFirst(s: State, first: nat, ahead: bool) {
    forall q: nat | HeapPage(q) && q >= first :: Mapped(s, q) <==> q == first && ahead
  }

  /** The range has been mapped.  A frame has gone astray if its first page was
      mapped before. */
  ghost predicate Grown(s: State, s': State, first: nat, end: nat, ahead: bool) {
    && Inv(s') && s'.kernel == s.kernel && s'.spaces == s.spaces
    && View(s') == View(s) + Range(first, end) && HeapRights(s')
    && |Unowned(s')| == |Unowned(s)| + if ahead && first < end then 1 else 0
  }

  ghost predicate Shrunk(s: State, s': State, first: nat, end: nat) {
    && Inv(s') && s'.kernel == s.kernel && s'.spaces == s.spaces
    && View(s') == View(s) - Range(first, end) && HeapRights(s')
    && Unowned(s') == Unowned(s)
  }

  lemma GrowView(s: State, page: nat)
    requires Inv(s) && HeapPage(page)
    ensures View(MapFresh(s, s.kernel, page, KERNEL_FLAGS)) == View(s) + Range(page, page + 1)
  {
    var s' := MapFresh(s, s.kernel, page, KERNEL_FLAGS);
    HeapPageMayMap(s, page);
    MapStep(s, s.kernel, page, KERNEL_FLAGS);
    MappedAfter(s, s.kernel, page, KERNEL_FLAGS);
    forall q: nat | HeapPage(q) && q != page
      ensures Mapped(s', q) <==> Mapped(s, q)
    {
      HeapPagesDistinct(q, page);
      MapTranslations(s, s.kernel, page, KERNEL_FLAGS, s.kernel, q);
    }
  }

  /** Pages from first up to `last` are to be mapped; at most the first is there already. */
  ghost predicate ToMap(s: State, first: nat, last: nat, ahead: bool) {
    START_PAGE <= first <= last <= END_PAGE && OnlyFirst(s, first, ahead)
  }

  lemma GrowRights(s: State, page: nat)
    requires Inv(s) && HeapPage(page) && HeapRights(s)
    ensures HeapRights(MapFresh(s, s.kernel, page, KERNEL_FLAGS))
  {
    var s' := MapFresh(s, s.kernel, page, KERNEL_FLAGS);
    HeapPageMayMap(s, page);
    MapStep(s, s.kernel, page, KERNEL_FLAGS);
    forall q: nat | HeapPage(q)
      ensures HeapLeaf(s', q)
    {
      assert HeapLeaf(s, q);
      if q == page {
        MapFreshStep(s, s.kernel, page, KERNEL_FLAGS);
        assert OwnPage(s, s.kernel, page);
        AllocView(s, s.kernel, page);
      } else {
        HeapPagesDistinct(q, page);
        MapTranslations(s, s.kernel, page, KERNEL_FLAGS, s.kernel, q);
      }
    }
  }

  /** The mapping loop takes one more page. */
  lemma GrowNext(s: State, s1: State, first: nat, end: nat, last: nat, ahead: bool) returns (s2: State)
    requires ToMap(s, first, last, ahead) && first <= end < last && Grown(s, s1, first, end, ahead)
    ensures s2 == MapFresh(s1, s1.kernel, end, KERNEL_FLAGS) && Grown(s, s2, first, end + 1, ahead)
  {
    s2 := MapFresh(s1, s1.kernel, end, KERNEL_FLAGS);
    GrowView(s1, end);
    GrowRights(s1, end);
    RangeCompose(View(s), first, end);
    HeapPageMayMap(s1, end);
    MapStep(s1, s1.kernel, end, KERNEL_FLAGS);
    assert Mapped(s1, end) <==> end == first && ahead by {
      assert HeapPage(end) && end !in Range(first, end);
      assert end in View(s1) <==> Mapped(s1, end);
      assert end in View(s) <==> Mapped(s, end);
    }
  }

  lemma ShrinkView(s: State, page: nat)
    requires Inv(s) && HeapPage(page)
    ensures View(UnmapPage(s, s.kernel, page)) == View(s) - Range(page, page + 1)
  {
    var s' := UnmapPage(s, s.kernel, page);
    HeapPageMayMap(s, page);
    UnmapStep(s, s.kernel, page);
    UnmapCorrect(s, s.kernel, page);
    forall q: nat | HeapPage(q) && q != page
      ensures Mapped(s', q) <==> Mapped(s, q)
    {
      HeapPagesDistinct(q, page);
      UnmapTranslations(s, s.kernel, page, s.kernel, q);
    }
  }

  lemma ShrinkRights(s: State, page: nat)
    requires Inv(s) && HeapPage(page) && HeapRights(s)
    ensures HeapRights(UnmapPage(s, s.kernel, page))
  {
    HeapPageMayMap(s, page);
    UnmapStep(s, s.kernel, page);
    UnmapCorrect(s, s.kernel, page);
    forall q: nat | HeapPage(q)
      ensures HeapLeaf(UnmapPage(s, s.kernel, page), q)
    {
      assert HeapLeaf(s, q);
      if q != page {
        HeapPagesDistinct(q, page);
        UnmapTranslations(s, s.kernel, page, s.kernel, q);
      }
    }
  }

  /** The unmapping loop takes one more page. */
  lemma ShrinkNext(s: State, s1: State, first: nat, end: nat)
    requires START_PAGE <= first <= end < END_PAGE && Shrunk(s, s1, first, end)
    ensures Shrunk(s, UnmapPage(s1, s1.kernel, end), first, end + 1)
  {
    ShrinkView(s1, end);
    ShrinkRights(s1, end);
    HeapPageMayMap(s1, end);
    UnmapStep(s1, s1.kernel, end);
    RangeCompose(View(s), first, end);
  }

  // ------------------------------------------------------------------ kbrk

  /** Every byte below the break is mapped and no page beyond the break's own is. */
  ghost predicate Backed(v: iset<nat>, brk: nat) {
    Range(START_PAGE, PageUp(brk)) <= v <= Range(START_PAGE, brk / 4096 + 1)
  }

  /** What this means for a single address. */
  lemma BackedBytes(s: State, brk: nat, addr: nat)
    requires Backed(View(s), brk) && HeapRights(s) && HEAP_START <= addr < HEAP_END
    ensures addr < brk ==>
      && Lookup(s.mem, s.kernel, addr / 4096).Some?
      && var leaf := Lookup(s.mem, s.kernel, addr / 4096).value;
         leaf.write && !leaf.user && leaf.noExec
    ensures addr / 4096 > brk / 4096 ==> !Mapped(s, addr / 4096)
  {
    var page := addr / 4096;
    assert HeapPage(page) && HeapLeaf(s, page);
    assert addr < brk ==> page in Range(START_PAGE, PageUp(brk));
    assert page > brk / 4096 ==> page !in Range(START_PAGE, brk / 4096 + 1);
    assert page in View(s) <==> Mapped(s, page);
  }

  /** The break's own page is mapped although the break stands at its start. */
  ghost predicate AheadOfBreak(v: iset<nat>, brk: nat) {
    brk % 4096 == 0 && brk / 4096 in v
  }

  /** The heap pages after the break has moved. */
  ghost function ViewMoved(v: iset<nat>, brk: nat, brk': nat): iset<nat> {
    if brk <= brk' then v + Range(PageUp(brk), brk' / 4096 + 1) else v - Range(PageUp(brk'), brk / 4096 + 1)
  }

  /** The state after kbrk.  A frame is left astray exactly when a break that already
      stands at the start of a mapped page grows. */
  ghost predicate Moved(s: State, s': State, brk: nat, brk': nat) {
    && Inv(s') && s'.kernel == s.kernel && s'.spaces == s.spaces
    && HeapRights(s') && Backed(View(s'), brk') && View(s') == ViewMoved(View(s), brk, brk')
    && |Unowned(s')| == |Unowned(s)| + if brk <= brk' && AheadOfBreak(View(s), brk) then 1 else 0
  }

  /** The pages kbrk unmaps when the break moves down keep the heap backed. */
  lemma BackedShrinks(v: iset<nat>, brk: nat, brk': nat)
    requires HEAP_START <= brk' < brk < HEAP_END && Backed(v, brk)
    ensures Backed(v - Range(PageUp(brk'), brk / 4096 + 1), brk')
  {
  }

  /** The pages it maps when the break moves up do so too; at most the first of them
      was mapped before. */
  lemma BackedGrows(s: State, brk: nat, brk': nat)
    requires HEAP_START <= brk <= brk' < HEAP_END && Backed(View(s), brk)
    ensures Backed(View(s) + Range(PageUp(brk), brk' / 4096 + 1), brk')
    ensures OnlyFirst(s, PageUp(brk), AheadOfBreak(View(s), brk))
    ensures AheadOfBreak(View(s), brk) ==> PageUp(brk) < brk' / 4096 + 1
  {
    forall q: nat | HeapPage(q) && q >= PageUp(brk)
      ensures Mapped(s, q) <==> q == PageUp(brk) && AheadOfBreak(View(s), brk)
    {
      assert q in View(s) <==> Mapped(s, q);
      assert q in View(s) ==> q in Range(START_PAGE, brk / 4096 + 1);
    }
  }

  lemma GrownMoves(s: State, s': State, brk: nat, brk': nat)
    requires HEAP_START <= brk <= brk' < HEAP_END && Backed(View(s), brk)
    requires Grown(s, s', PageUp(brk), brk' / 4096 + 1, AheadOfBreak(View(s), brk))
    ensures Moved(s, s', brk, brk')
  {
    BackedGrows(s, brk, brk');
  }

  lemma ShrunkMoves(s: State, s': State, brk: nat, brk': nat)
    requires HEAP_START <= brk' < brk < HEAP_END && Backed(View(s), brk)
    requires Shrunk(s, s', PageUp(brk'), brk / 4096 + 1)
    ensures Moved(s, s', brk, brk')
  {
    BackedShrinks(View(s), brk, brk');
  }

  /** A break that has grown to a page boundary costs a frame when it grows again. */
  lemma BoundaryLeaks(s: State, s1: State, s2: State, brk: nat, boundary: nat, brk': nat)
    requires HEAP_START <= brk <= boundary <= brk' < HEAP_END && boundary % 4096 == 0
    requires Moved(s, s1, brk, boundary) && Moved(s1, s2, boundary, brk')
    ensures |Unowned(s2)| == |Unowned(s1)| + 1
  {
    assert InRange(boundary / 4096, PageUp(brk), boundary / 4096 + 1);
  }

  /** Nothing mapped yet is a range of no pages. */
  lemma NoPages(s: State, first: nat, ahead: bool)
    requires Inv(s) && HeapRights(s)
    ensures Grown(s, s, first, first, ahead) && Shrunk(s, s, first, first)
  {
    assert View(s) + Range(first, first) == View(s) == View(s) - Range(first, first);
  }

  /** How many pages kbrk maps when the break grows. */
  function PagesToMap(brk: nat, brk': nat): nat
    requires brk <= brk'
  {
    brk' / 4096 + 1 - PageUp(brk)
  }

  class Break {
    const vm: VirtualMemory
    var brk: nat

    ghost predicate Valid()
      reads this, vm, vm.frames, vm.frames.freePages.bytes
    {
      && vm.Valid() && HEAP_START <= brk < HEAP_END
      && Backed(View(vm.State()), brk) && HeapRights(vm.State())
    }

    /** The heap starts empty: no page of its window is mapped. */
    constructor (vm: VirtualMemory)
      requires vm.Valid() && forall q: nat | HeapPage(q) :: !Mapped(vm.State(), q)
      ensures Valid() && this.vm == vm && brk == HEAP_START
    {
      this.vm := vm;
      brk := HEAP_START;
    }

    /** kbrk: move the break by a signed amount and return where it was.  A frame and
        up to three tables may be needed for each page. */
    method Kbrk(increment: int) returns (orig: nat)
      requires Valid() && HEAP_START <= brk + increment < HEAP_END
      requires increment >= 0 ==> vm.frames.Room(4 * PagesToMap(brk, brk + increment))
      modifies this, vm`owner, vm.frames, vm.frames.freePages.bytes
      ensures Valid() && orig == old(brk) && brk == orig + increment
      ensures Moved(old(vm.State()), vm.State(), orig, brk)
    {
      orig := brk;
      brk := brk + increment;
      if orig > brk {
        Release(orig, brk);
      } else {
        Extend(orig, brk);
      }
    }

    method Extend(orig: nat, target: nat)
      requires vm.Valid() && HEAP_START <= orig <= target < HEAP_END && Backed(View(vm.State()), orig) && HeapRights(vm.State())
      requires vm.frames.Room(4 * PagesToMap(orig, target))
      modifies vm`owner, vm.frames, vm.frames.freePages.bytes
      ensures vm.Valid() && Moved(old(vm.State()), vm.State(), orig, target)
    {
      ghost var s := vm.State();
      BackedGrows(s, orig, target);
      NoPages(s, PageUp(orig), AheadOfBreak(View(s), orig));
      MapRange(s, PageUp(orig), target / 4096, AheadOfBreak(View(s), orig));
      GrownMoves(s, vm.State(), orig, target);
    }

    method Release(orig: nat, target: nat)
      requires vm.Valid() && HEAP_START <= target < orig < HEAP_END && Backed(View(vm.State()), orig)
      requires HeapRights(vm.State())
      modifies vm`owner, vm.frames, vm.frames.freePages.bytes
      ensures vm.Valid() && Moved(old(vm.State()), vm.State(), orig, target)
    {
      ghost var s := vm.State();
      UnmapRange(PageUp(target), orig / 4096);
      ShrunkMoves(s, vm.State(), orig, target);
    }

    /** The mapping loop of kbrk has come to the state `now` and can take n more pages. */
    ghost predicate At(now: State, n: nat)
      reads vm, vm.frames, vm.frames.freePages.bytes
    {
      vm.frames.Valid() && vm.State() == now && vm.frames.Room(4 * n)
    }

    /** The mapping loop of kbrk; the last page is included. */
    method MapRange(ghost s: State, firstMap: nat, lastMap: nat, ghost ahead: bool)
      requires ToMap(s, firstMap, lastMap + 1, ahead) && Grown(s, s, firstMap, firstMap, ahead)
      requires At(s, lastMap + 1 - firstMap)
      modifies vm`owner, vm.frames, vm.frames.freePages.bytes
      ensures vm.frames.Valid() && Grown(s, vm.State(), firstMap, lastMap + 1, ahead)
    {
      ghost var now := s;
      for page := firstMap to lastMap + 1
        invariant Grown(s, now, firstMap, page, ahead) && At(now, lastMap + 1 - page)
      {
        now := MapNextPage(s, now, firstMap, page, lastMap + 1, ahead);
      }
    }

    method MapNextPage(ghost s: State, ghost now: State, ghost firstMap: nat, page: nat, ghost end: nat, ghost ahead: bool)
      returns (ghost next: State)
      requires ToMap(s, firstMap, end, ahead) && firstMap <= page < end
      requires Grown(s, now, firstMap, page, ahead) && At(now, end - page)
      modifies vm`owner, vm.frames, vm.frames.freePages.bytes
      ensures Grown(s, next, firstMap, page + 1, ahead) && At(next, end - (page + 1))
    {
      next := GrowNext(s, now, firstMap, page, end, ahead);
      MapFreshPage(now, next, page, end - page);
    }

    /** vspace_map(VSPACE_KERNEL, page, alloc_page(), PG_NOEXEC|PG_WRITE). */
    method MapFreshPage(ghost now: State, ghost next: State, page: nat, ghost n: nat)
      requires Inv(now) && next == MapFresh(now, now.kernel, page, KERNEL_FLAGS) && HeapPage(page) && n > 0 && At(now, n)
      modifies vm`owner, vm.frames, vm.frames.freePages.bytes
      ensures At(next, n - 1)
    {
      AllocKeepsInv(now);
      OwnedUsed(now);
      HeapPageMayMap(now, page);
      var ppn := vm.frames.AllocPage();
      assert vm.State() == Alloc(now);
      vm.Map(vm.kernelRoot, page, ppn, KERNEL_FLAGS);
    }

    method UnmapRange(firstUnmap: nat, lastUnmap: nat)
      requires vm.Valid() && START_PAGE <= firstUnmap <= lastUnmap + 1 <= END_PAGE && HeapRights(vm.State())
      modifies vm`owner, vm.frames, vm.frames.freePages.bytes
      ensures vm.Valid() && Shrunk(old(vm.State()), vm.State(), firstUnmap, lastUnmap + 1)
    {
      ghost var s := vm.State();
      NoPages(s, firstUnmap, false);
      var page := firstUnmap;
      while page <= lastUnmap
        invariant firstUnmap <= page <= lastUnmap + 1
        invariant vm.Valid() && Shrunk(s, vm.State(), firstUnmap, page)
      {
        ShrinkNext(s, vm.State(), firstUnmap, page);
        HeapPageMayMap(vm.State(), page);
        var _ := vm.Unmap(vm.kernelRoot, page);
        page := page + 1;
      }
    }
  }
}
