/** What becomes of the address spaces when a page fault is served above the user half. */
module UpperPages {
  import opened Wrappers
  import opened PageTables
  import opened PageTableProofs
  import opened AddressSpaces
  import opened AddressSpaceRuns
  import opened UserPages
  import opened Segments

  /** Page numbers a fault can have: the user half and the kernel half. */
  predicate Canonical(page: nat) {
    page < USER_PAGES || 0xf_fff8_0000_0000 <= page < 0x10_0000_0000_0000
  }

  lemma UpperSlot(page: nat)
    requires Canonical(page) && page >= USER_PAGES
    ensures 256 <= PathOf(page)[0] < 512
  {
    assert page / 0x800_0000 >= 0x1ff_ff00;
  }

  /** The tables are trees that share nothing but the kernel half, for some record of who
      owns what. */
  ghost predicate Trees(s: State) {
    exists owner :: Inv(State(s.mem, s.used, s.kernel, s.spaces, owner))
  }

  /** The other spaces, the kernel's among them, translate every page as before. */
  ghost predicate OtherSpaces(s: State, s': State, root: nat) {
    forall r, v: nat | Live(s, r) && r != root :: Lookup(s'.mem, r, v) == Lookup(s.mem, r, v)
  }

  // ------------------------------------------------ through a shared slot

  /** Two states that differ in their owners only. */
  predicate SameTables(a: State, b: State) {
    a.mem == b.mem && a.used == b.used && a.kernel == b.kernel && a.spaces == b.spaces
  }

  /** Below a shared slot a user space and the kernel make the same tables. */
  lemma LevelShared(a: State, b: State, r: nat, path: Path)
    requires SameTables(a, b) && 2 <= |path| && path[|path| - 1] < 512
    requires Child(a.mem, r, path[0]) == Child(a.mem, a.kernel, path[0])
    ensures SameTables(EnsureLevel(a, r, path), EnsureLevel(b, b.kernel, path))
  {
    SharedWalk(a.mem, r, a.kernel, path);
    SharedWalk(a.mem, r, a.kernel, path[..|path| - 1]);
  }

  /** Making a table for the kernel below a slot it has leaves that slot, and the user's. */
  lemma SlotStays(b: State, r: nat, path: Path)
    requires Inv(b) && r in b.spaces && 2 <= |path| <= 3 && Owns(b, b.kernel, path) && path[0] >= 256
    requires Child(b.mem, b.kernel, path[0]).Some? && NodeAt(b.mem, b.kernel, path[..|path| - 1]).Some?
    ensures var b' := EnsureLevel(b, b.kernel, path);
      && Child(b'.mem, r, path[0]) == Child(b.mem, r, path[0])
      && Child(b'.mem, b.kernel, path[0]) == Child(b.mem, b.kernel, path[0])
  {
    assert Owns(b, b.kernel, path[..|path| - 1]);
    EnsureLevelTop(b, b.kernel, path, r, path[0]);
    EnsureLevelCorrect(b, b.kernel, path);
    assert [path[0]][..0] == [];
    assert Walkable(b, b.kernel, [path[0]]);
    assert NodeAt(b.mem, b.kernel, [path[0]]) == Child(b.mem, b.kernel, path[0]);
    assert NodeAt(EnsureLevel(b, b.kernel, path).mem, b.kernel, [path[0]])
        == Child(EnsureLevel(b, b.kernel, path).mem, b.kernel, path[0]);
  }

  lemma TablesShared(s: State, r: nat, virt: nat)
    requires Inv(s) && r in s.spaces && PathOf(virt)[0] >= 256
    requires Child(s.mem, r, PathOf(virt)[0]) == Child(s.mem, s.kernel, PathOf(virt)[0]) != None
    ensures var a, b := EnsureTables(s, r, virt), EnsureTables(s, s.kernel, virt);
      SameTables(a, b) && Child(b.mem, r, PathOf(virt)[0]) == Child(b.mem, s.kernel, PathOf(virt)[0])
  {
    var path := PathOf(virt);
    MayTableOwns(s, s.kernel, virt, 1);
    MayTableOwns(s, s.kernel, virt, 2);
    MayTableOwns(s, s.kernel, virt, 3);
    assert path[..1][..0] == [] && path[..2][..1] == path[..1] && path[..3][..2] == path[..2] && path[..1] == [path[0]];
    assert EnsureLevel(s, r, path[..1]) == s && EnsureLevel(s, s.kernel, path[..1]) == s;
    LevelBoth(s, s, r, path[..2]);
    LevelBoth(EnsureLevel(s, r, path[..2]), EnsureLevel(s, s.kernel, path[..2]), r, path[..3]);
  }

  lemma LevelBoth(a: State, b: State, r: nat, path: Path)
    requires SameTables(a, b) && Inv(b) && r in b.spaces && 2 <= |path| <= 3 && Owns(b, b.kernel, path) && path[0] >= 256
    requires NodeAt(b.mem, b.kernel, path[..|path| - 1]).Some?
    requires Child(b.mem, r, path[0]) == Child(b.mem, b.kernel, path[0]) != None
    ensures var a', b' := EnsureLevel(a, r, path), EnsureLevel(b, b.kernel, path);
      && SameTables(a', b') && Inv(b') && b'.kernel == b.kernel && b'.spaces == b.spaces
      && NodeAt(b'.mem, b.kernel, path).Some?
      && Child(b'.mem, r, path[0]) == Child(b'.mem, b.kernel, path[0]) != None
  {
    LevelShared(a, b, r, path);
    SlotStays(b, r, path);
    assert Owns(b, b.kernel, path[..|path| - 1]);
    EnsureLevelCorrect(b, b.kernel, path);
  }

  lemma PageShared(a: State, b: State, r: nat, virt: nat, phys: nat, flags: Flags)
    requires SameTables(a, b) && Child(b.mem, r, PathOf(virt)[0]) == Child(b.mem, b.kernel, PathOf(virt)[0])
    ensures SetPage(a, r, virt, phys, flags).mem == SetPage(b, b.kernel, virt, phys, flags).mem
  {
    SharedWalk(b.mem, r, b.kernel, PathOf(virt)[..3]);
  }

  lemma MapShared(a: State, r: nat, virt: nat, phys: nat, flags: Flags)
    requires Inv(a) && r in a.spaces && PathOf(virt)[0] >= 256
    requires Child(a.mem, r, PathOf(virt)[0]) == Child(a.mem, a.kernel, PathOf(virt)[0]) != None
    ensures MapPage(a, r, virt, phys, flags).mem == MapPage(a, a.kernel, virt, phys, flags).mem
  {
    TablesShared(a, r, virt);
    PageShared(EnsureTables(a, r, virt), EnsureTables(a, a.kernel, virt), r, virt, phys, flags);
  }

  /** Taking a frame leaves the slots and what they show. */
  lemma AllocSlots(s: State, r: nat, virt: nat)
    requires Inv(s) && r in s.spaces && PathOf(virt)[0] >= 256
    ensures Inv(Alloc(s)) && Lookup(Alloc(s).mem, s.kernel, virt) == Lookup(s.mem, s.kernel, virt)
    ensures forall i | 0 <= i < 512 ::
      Child(Alloc(s).mem, r, i) == Child(s.mem, r, i) && Child(Alloc(s).mem, s.kernel, i) == Child(s.mem, s.kernel, i)
  {
    AllocKeepsInv(s);
    RootsOwned(s, r);
    RootsOwned(s, s.kernel);
    assert OwnPage(s, s.kernel, virt);
    AllocView(s, s.kernel, virt);
  }

  /** The page then shows in the kernel. */
  lemma ShowsInKernel(s: State, r: nat, virt: nat, flags: Flags)
    requires Inv(s) && r in s.spaces && PathOf(virt)[0] >= 256 && Lookup(s.mem, r, virt).None?
    requires TableAt(s.mem, r)[PathOf(virt)[0]].present
    ensures Lookup(s.mem, s.kernel, virt).None?
    ensures Lookup(MapFresh(s, r, virt, flags).mem, s.kernel, virt).Some?
  {
    UpperView(s, r, virt);
    assert SharesSlot(s, r, PathOf(virt)[0]);
    AllocSlots(s, r, virt);
    MapShared(Alloc(s), r, virt, Lowest(s.used), flags);
    KernelLeaf(Alloc(s), virt, Lowest(s.used), flags);
  }

  lemma KernelLeaf(a: State, virt: nat, phys: nat, flags: Flags)
    requires Inv(a) && PathOf(virt)[0] >= 256 && Lookup(a.mem, a.kernel, virt).None?
    ensures Lookup(MapPage(a, a.kernel, virt, phys, flags).mem, a.kernel, virt).Some?
  {
    EnsureTablesCorrect(a, a.kernel, virt);
    var b := EnsureTables(a, a.kernel, virt);
    assert OwnPage(a, a.kernel, virt) && OwnPage(b, a.kernel, virt);
    MayTableOwns(b, a.kernel, virt, 3);
    var t := NodeAt(b.mem, a.kernel, PathOf(virt)[..3]).value;
    PageEntryView(b, a.kernel, virt, t, LeafEntry(TableAt(b.mem, t)[PathOf(virt)[3]], phys, flags), a.kernel, virt);
  }

  // ------------------------------------------------ through a slot of its own

  /** A level below a clear table: a fresh clear table. */
  lemma LevelBelow(s: State, r: nat, path: Path, g: nat)
    requires 0 < |path| && path[|path| - 1] < 512 && g in s.used
    requires NodeAt(s.mem, r, path[..|path| - 1]) == Some(g) && TableAt(s.mem, g) == ZeroTable()
    ensures var s', h := EnsureLevel(s, r, path), Lowest(s.used);
      && s'.used == s.used + {h} && TableAt(s'.mem, h) == ZeroTable()
      && Child(s'.mem, g, path[|path| - 1]) == Some(h)
      && forall f | f in s.used && f != g :: TableAt(s'.mem, f) == TableAt(s.mem, f)
  {
    var i := path[|path| - 1];
    assert path == path[..|path| - 1] + [i];
    NodeStep(s.mem, r, path[..|path| - 1], i);
  }

  lemma ShortWalks(m: Memory, r: nat, a: nat, b: nat, c: nat)
    ensures NodeAt(m, r, [a]) == Child(m, r, a)
    ensures NodeAt(m, r, [a]).Some? ==> NodeAt(m, r, [a, b]) == Child(m, NodeAt(m, r, [a]).value, b)
    ensures NodeAt(m, r, [a, b]).Some? ==> NodeAt(m, r, [a, b, c]) == Child(m, NodeAt(m, r, [a, b]).value, c)
  {
    assert [] + [a] == [a] && [a] + [b] == [a, b] && [a, b] + [c] == [a, b, c];
    NodeStep(m, r, [], a);
    NodeStep(m, r, [a], b);
    NodeStep(m, r, [a, b], c);
  }

  /** A first level through an absent entry: the entry leads to a fresh clear table. */
  lemma FirstLevel(s: State, r: nat, i: nat)
    requires r in s.used && i < 512 && !TableAt(s.mem, r)[i].present
    ensures var s', g := EnsureLevel(s, r, [i]), Lowest(s.used);
      && s'.used == s.used + {g} && TableAt(s'.mem, g) == ZeroTable() && Child(s'.mem, r, i) == Some(g)
      && forall f | f in s.used && f != r :: TableAt(s'.mem, f) == TableAt(s.mem, f)
  {
    var path: Path := [i];
    assert path == [] + [i] && path[..0] == [];
    NodeStep(s.mem, r, [], i);
  }

  /** Three levels below an absent top-level entry: each a fresh clear table. */
  lemma OwnTables(s: State, r: nat, a: nat, b: nat, c: nat) returns (s3: State)
    requires r in s.used && a < 512 && b < 512 && c < 512 && !TableAt(s.mem, r)[a].present
    ensures s3 == EnsureLevel(EnsureLevel(EnsureLevel(s, r, [a]), r, [a, b]), r, [a, b, c])
    ensures NodeAt(s3.mem, r, [a, b, c]).Some? && NodeAt(s3.mem, r, [a, b, c]).value !in s.used
    ensures Child(s3.mem, r, a) == Some(Lowest(s.used))
    ensures forall f | f in s.used && f != r :: TableAt(s3.mem, f) == TableAt(s.mem, f)
  {
    var s1 := EnsureLevel(s, r, [a]);
    FirstLevel(s, r, a);
    ShortWalks(s1.mem, r, a, b, c);
    assert [a, b][..1] == [a] && [a, b, c][..2] == [a, b];
    var s2 := EnsureLevel(s1, r, [a, b]);
    LevelBelow(s1, r, [a, b], Lowest(s.used));
    ShortWalks(s2.mem, r, a, b, c);
    s3 := EnsureLevel(s2, r, [a, b, c]);
    LevelBelow(s2, r, [a, b, c], Lowest(s1.used));
    ShortWalks(s3.mem, r, a, b, c);
  }

  /** The new top-level entry leads to a fresh frame, and the kernel's PML4 is as before. */
  lemma OwnSlot(s: State, r: nat, virt: nat, phys: nat, flags: Flags)
    requires r in s.used && s.kernel in s.used && r != s.kernel
    requires !TableAt(s.mem, r)[PathOf(virt)[0]].present
    ensures var i, s' := PathOf(virt)[0], MapPage(s, r, virt, phys, flags);
      && TableAt(s'.mem, r)[i].present && TableAt(s'.mem, r)[i].ppn == Lowest(s.used)
      && TableAt(s'.mem, s.kernel) == TableAt(s.mem, s.kernel)
  {
    var path := PathOf(virt);
    assert path[..1] == [path[0]] && path[..2] == [path[0], path[1]] && path[..3] == [path[0], path[1], path[2]];
    var s3 := OwnTables(s, r, path[0], path[1], path[2]);
  }

  /** So the user's entry in that slot is not the kernel's, whoever owns what. */
  lemma NotShared(s: State, r: nat, virt: nat, flags: Flags)
    requires Inv(s) && r in s.spaces && 256 <= PathOf(virt)[0] < 512
    requires !TableAt(s.mem, r)[PathOf(virt)[0]].present
    ensures !SharesSlot(MapFresh(s, r, virt, flags), r, PathOf(virt)[0])
  {
    var i := PathOf(virt)[0];
    RootsOwned(s, r);
    RootsOwned(s, s.kernel);
    OwnSlot(Alloc(s), r, virt, Lowest(s.used), flags);
    if TableAt(s.mem, s.kernel)[i].present { KernelSlotUsed(s, i); }
  }

  lemma KernelSlotUsed(s: State, i: nat)
    requires Inv(s) && 256 <= i < 512 && TableAt(s.mem, s.kernel)[i].present
    ensures TableAt(s.mem, s.kernel)[i].ppn in s.used
  {
    assert [i][..0] == [];
    assert NodeAt(s.mem, s.kernel, [i]) == Some(TableAt(s.mem, s.kernel)[i].ppn);
    assert Owns(s, s.kernel, [i]) && Recorded(s, s.kernel, [i]);
    assert Genuine(s, TableAt(s.mem, s.kernel)[i].ppn);
  }

  // ------------------------------------------------------------- the condition

  lemma MapFreshFrame(s: State, r: nat, virt: nat, flags: Flags)
    ensures var s' := MapFresh(s, r, virt, flags); s'.kernel == s.kernel && s'.spaces == s.spaces
  {
  }

  /** A fault served by mapping a fresh frame keeps the trees apart and the other spaces as
      they were, if and only if the page lies in the user half. */
  lemma ServedExactly(s: State, root: nat, page: nat, flags: Flags)
    requires Inv(s) && root in s.spaces && Canonical(page) && !Mapped(s, root, page)
    ensures var s' := MapFresh(s, root, page, flags);
      Trees(s') && OtherSpaces(s, s', root) <==> page < USER_PAGES
  {
    var s' := MapFresh(s, root, page, flags);
    MapFreshFrame(s, root, page, flags);
    if page < USER_PAGES {
      MapUser(s, root, page, flags);
      assert Inv(State(s'.mem, s'.used, s'.kernel, s'.spaces, s'.owner));
    } else {
      UpperSlot(page);
      var i := PathOf(page)[0];
      if TableAt(s.mem, root)[i].present {
        ShowsInKernel(s, root, page, flags);
        assert Live(s, s.kernel) && s.kernel != root;
      } else {
        NotShared(s, root, page, flags);
        forall owner
          ensures !Inv(State(s'.mem, s'.used, s'.kernel, s'.spaces, owner))
        {
          assert !SharesSlot(State(s'.mem, s'.used, s'.kernel, s'.spaces, owner), root, i);
        }
      }
    }
  }

  /** A program with one page at the start of the kernel heap. */
  function KernelHeader(): seq<Segment> {
    [Segment(true, true, true, 0, 0xffff_e000_0000_0000, 0x1000, 0x1000)]
  }

  /** The loader serves that page, and in every state that ends the separation of the
      spaces. */
  lemma KernelHeaderBreaks(s: State, root: nat)
    requires Inv(s) && root in s.spaces && !Mapped(s, root, 0xf_fffe_0000_0000)
    ensures Serving(KernelHeader(), 0xf_fffe_0000_0000) == 0
    ensures var s' := MapFresh(s, root, 0xf_fffe_0000_0000, Flags(true, true, false));
      !(Trees(s') && OtherSpaces(s, s', root))
  {
    ServedExactly(s, root, 0xf_fffe_0000_0000, Flags(true, true, false));
  }

  // --------------------------------------------------- unmapping in the upper half

  /** A cleared entry adds no walk. */
  lemma {:induction false} WalksFewer(mem: Memory, t: nat, i: nat, r: nat, q: Path)
    requires i < 512
    ensures var m := SetEntry(mem, t, i, ZERO_ENTRY);
      NodeAt(m, r, q).Some? ==> NodeAt(m, r, q) == NodeAt(mem, r, q)
  {
    if q != [] { WalksFewer(mem, t, i, r, q[..|q| - 1]); }
  }

  /** What is not mapped stays so when a page is unmapped. */
  lemma UnmapFewer(s: State, root: nat, page: nat, r: nat, v: nat)
    requires Lookup(s.mem, r, v).None?
    ensures Lookup(UnmapPage(s, root, page).mem, r, v).None?
  {
    var t := NodeAt(s.mem, root, PathOf(page)[..3]);
    if t.Some? { WalksFewer(s.mem, t.value, PathOf(page)[3], r, PathOf(v)[..3]); }
  }

  /** An upper page that a space shares with the kernel goes from the kernel too. */
  lemma GoesFromKernel(s: State, root: nat, page: nat)
    requires Inv(s) && root in s.spaces && PathOf(page)[0] >= 256 && Mapped(s, root, page)
    ensures Lookup(s.mem, s.kernel, page).Some? && Lookup(UnmapPage(s, root, page).mem, s.kernel, page).None?
  {
    var path := PathOf(page);
    MappedSlot(s.mem, root, page);
    UpperView(s, root, page);
    assert SharesSlot(s, root, path[0]);
    SharedWalk(s.mem, root, s.kernel, path[..3]);
    WalksFewer(s.mem, NodeAt(s.mem, root, path[..3]).value, path[3], s.kernel, path[..3]);
  }

  /** No page from lo to hi that lies in the upper half is mapped.  Page numbers above the user
      half lead there or back into the user half, by their low 36 bits. */
  ghost predicate NoneAbove(s: State, root: nat, lo: nat, hi: nat) {
    forall p | lo <= p < hi && PathOf(p)[0] >= 256 :: !Mapped(s, root, p)
  }

  /** What a loop of unmapping leaves when it meets no mapped page of the upper half. */
  ghost predicate Lowered(s: State, s': State, root: nat) {
    && Inv(s') && s'.kernel == s.kernel && s'.spaces == s.spaces && OtherSpaces(s, s', root)
    && Unowned(s') == Unowned(s)
    && forall v: nat | PathOf(v)[0] >= 256 :: Lookup(s'.mem, root, v) == Lookup(s.mem, root, v)
  }

  lemma LoweredNext(s: State, s1: State, root: nat, page: nat) returns (s2: State)
    requires root in s.spaces && Lowered(s, s1, root) && (PathOf(page)[0] >= 256 ==> !Mapped(s, root, page))
    ensures s2 == UnmapPage(s1, root, page) && Lowered(s, s2, root)
  {
    s2 := UnmapPage(s1, root, page);
    if PathOf(page)[0] >= 256 {
      assert !Mapped(s1, root, page);
    } else {
      UnmapStep(s1, root, page);
      forall r, v: nat | Live(s, r) && (r != root || PathOf(v)[0] >= 256)
        ensures Lookup(s2.mem, r, v) == Lookup(s1.mem, r, v)
      {
        UnmapTranslations(s1, root, page, r, v);
      }
    }
  }

  lemma {:induction false} UnmapAllLowers(s: State, root: nat, lo: nat, hi: nat) returns (s': State)
    requires Inv(s) && root in s.spaces && NoneAbove(s, root, lo, hi)
    ensures s' == UnmapAll(s, root, lo, hi) && Lowered(s, s', root)
    decreases hi - lo
  {
    if lo < hi {
      var s1 := UnmapAllLowers(s, root, lo, hi - 1);
      s' := LoweredNext(s, s1, root, hi - 1);
      UnmapAllNext(s, s1, s', root, lo, hi - 1);
    } else {
      s' := s;
    }
  }

  lemma LastGoes(s: State, s1: State, root: nat, page: nat)
    requires Inv(s) && root in s.spaces && Lowered(s, s1, root) && PathOf(page)[0] >= 256 && Mapped(s, root, page)
    ensures Lookup(s.mem, s.kernel, page).Some? && Lookup(UnmapPage(s1, root, page).mem, s.kernel, page).None?
  {
    GoesFromKernel(s, root, page);
    GoesFromKernel(s1, root, page);
  }

  lemma {:induction false} FirstAbove(s: State, root: nat, lo: nat, hi: nat) returns (p: nat)
    requires !NoneAbove(s, root, lo, hi)
    ensures lo <= p < hi && NoneAbove(s, root, lo, p) && PathOf(p)[0] >= 256 && Mapped(s, root, p)
    decreases hi - lo
  {
    if NoneAbove(s, root, lo, hi - 1) {
      p := hi - 1;
    } else {
      p := FirstAbove(s, root, lo, hi - 1);
    }
  }

  lemma {:induction false} GoneStays(s: State, root: nat, lo: nat, mid: nat, hi: nat, r: nat, v: nat)
    requires lo <= mid <= hi && Lookup(UnmapAll(s, root, lo, mid).mem, r, v).None?
    ensures Lookup(UnmapAll(s, root, lo, hi).mem, r, v).None?
    decreases hi
  {
    if mid < hi {
      GoneStays(s, root, lo, mid, hi - 1, r, v);
      UnmapFewer(UnmapAll(s, root, lo, hi - 1), root, hi - 1, r, v);
    }
  }

  /** A mapped page of the upper half among them is gone from the kernel at the end. */
  lemma UnmapAllReaches(s: State, root: nat, lo: nat, hi: nat) returns (p: nat)
    requires Inv(s) && root in s.spaces && !NoneAbove(s, root, lo, hi)
    ensures Lookup(s.mem, s.kernel, p).Some? && Lookup(UnmapAll(s, root, lo, hi).mem, s.kernel, p).None?
  {
    p := FirstAbove(s, root, lo, hi);
    var s1 := UnmapAllLowers(s, root, lo, p);
    LastGoes(s, s1, root, p);
    UnmapAllNext(s, s1, UnmapPage(s1, root, p), root, lo, p);
    GoneStays(s, root, lo, p + 1, hi, s.kernel, p);
  }

  /** The loop of sys_sbrk keeps the trees apart and the other spaces as they were, if and only
      if no page it meets in the upper half is mapped. */
  lemma ShrinkExactly(s: State, root: nat, lo: nat, hi: nat)
    requires Inv(s) && root in s.spaces
    ensures var s' := UnmapAll(s, root, lo, hi);
      Trees(s') && OtherSpaces(s, s', root) <==> NoneAbove(s, root, lo, hi)
  {
    if NoneAbove(s, root, lo, hi) {
      var s' := UnmapAllLowers(s, root, lo, hi);
      assert Inv(State(s'.mem, s'.used, s'.kernel, s'.spaces, s'.owner));
    } else {
      var p := UnmapAllReaches(s, root, lo, hi);
      assert Live(s, s.kernel) && s.kernel != root;
    }
  }
}
