/** The virtual memory layer as it runs: page table entries written in place, and
    each operation shown to compute its counterpart on abstract states. */
module VSpaces {
  import opened Wrappers
  import opened PageTables
  import opened PageTableProofs
  import opened AddressSpaces
  import opened FrameAllocator
  import opened Teardown

  /** vspace_t: the frame of the PML4, or -1 once the space has been deleted. */
  class VSpace {
    var pml4Ppn: int

    constructor (ppn: int)
      ensures pml4Ppn == ppn
    {
      pml4Ppn := ppn;
    }
  }

  /** What resolve_mapping fills in: indices and the frames of the levels it reaches. */
  datatype VAddr = VAddr(
    pml4i: nat, pdpti: nat, pdiri: nat, ptbli: nat,
    pdpt: Option<nat>, pdir: Option<nat>, ptbl: Option<nat>, page: Option<nat>)

  class VirtualMemory {
    const frames: PageAllocator
    var kernelRoot: nat
    ghost var spaces: set<nat>
    ghost var owner: map<nat, Node>

    ghost function State(): State
      reads this, frames, frames.freePages.bytes
    {
      PageTables.State(frames.mem, frames.Used(), kernelRoot, spaces, owner)
    }

    ghost predicate Valid()
      reads this, frames, frames.freePages.bytes
    {
      frames.Valid() && Inv(State())
    }

    /** Take over memory whose tables satisfy the invariant, as vspace_setup does. */
    constructor (frames: PageAllocator, root: nat, ghost owner: map<nat, Node>)
      requires frames.Valid()
      requires Inv(PageTables.State(frames.mem, frames.Used(), root, {}, owner))
      ensures Valid() && this.frames == frames
      ensures State() == PageTables.State(frames.mem, frames.Used(), root, {}, owner)
    {
      this.frames := frames;
      kernelRoot := root;
      spaces := {};
      this.owner := owner;
    }

    /** resolve_mapping: the walk, as far as entries are present. */
    method ResolveMapping(root: nat, virt: nat) returns (v: VAddr)
      ensures [v.pml4i, v.pdpti, v.pdiri, v.ptbli] == PathOf(virt)
      ensures v.pdpt == NodeAt(frames.mem, root, PathOf(virt)[..1])
      ensures v.pdir == NodeAt(frames.mem, root, PathOf(virt)[..2])
      ensures v.ptbl == NodeAt(frames.mem, root, PathOf(virt)[..3])
      ensures v.page == NodeAt(frames.mem, root, PathOf(virt))
    {
      var ptbli := virt % 512;
      var pdiri := virt / 512 % 512;
      var pdpti := virt / 0x40000 % 512;
      var pml4i := virt / 0x8000000 % 512;
      var pdpt: Option<nat>, pdir: Option<nat>, ptbl: Option<nat>, page: Option<nat> := None, None, None, None;
      var pml4e := TableAt(frames.mem, root)[pml4i];
      if pml4e.present {
        pdpt := Some(pml4e.ppn);
        var pdpte := TableAt(frames.mem, pml4e.ppn)[pdpti];
        if pdpte.present {
          pdir := Some(pdpte.ppn);
          var pdire := TableAt(frames.mem, pdpte.ppn)[pdiri];
          if pdire.present {
            ptbl := Some(pdire.ppn);
            var ptble := TableAt(frames.mem, pdire.ppn)[ptbli];
            if ptble.present {
              page := Some(ptble.ppn);
            }
          }
        }
      }
      WalkUnfolds(frames.mem, root, virt);
      return VAddr(pml4i, pdpti, pdiri, ptbli, pdpt, pdir, ptbl, page);
    }

    method WriteEntry(t: nat, i: nat, e: Entry)
      requires i < 512
      modifies frames`mem
      ensures frames.mem == SetEntry(old(frames.mem), t, i, e)
    {
      frames.mem := frames.mem[t := TableAt(frames.mem, t)[i := e]];
    }

    /** One of the three blocks of vspace_map that give an absent entry a table:
        flags first, then the frame number from the allocator. */
    method AddTable(t: nat, i: nat) returns (ppn: nat)
      requires frames.Valid() && frames.Room(1) && i < 512 && t in frames.Used()
      modifies frames, frames.freePages.bytes
      ensures frames.Valid() && ppn == Lowest(old(frames.Used()))
      ensures frames.Used() == old(frames.Used()) + {ppn} && |frames.Used()| == |old(frames.Used())| + 1
      ensures frames.mem == SetEntry(old(frames.mem)[ppn := ZeroTable()], t, i,
                                     TableEntry(TableAt(old(frames.mem), t)[i], ppn))
    {
      var e := TableAt(frames.mem, t)[i];
      WriteEntry(t, i, e.(present := true, write := true, user := true));
      ppn := frames.AllocPage();
      e := TableAt(frames.mem, t)[i];
      WriteEntry(t, i, e.(ppn := ppn));
      SameWrites(old(frames.mem), t, i, ppn);
    }

    /** The same block as a step on states. */
    method EnsureTable(t: nat, i: nat, ghost root: nat, ghost path: Path)
      requires Valid() && frames.Room(1)
      requires 1 <= |path| <= 3 && Owns(State(), root, path) && Owns(State(), root, path[..|path| - 1])
      requires i == path[|path| - 1] && NodeAt(frames.mem, root, path[..|path| - 1]) == Some(t)
      requires NodeAt(frames.mem, root, path) == None
      modifies this`owner, frames, frames.freePages.bytes
      ensures State() == EnsureLevel(old(State()), root, path)
      ensures Valid() && |frames.Used()| == |old(frames.Used())| + 1
    {
      ghost var s := State();
      assert t in frames.Used() by {
        assert Recorded(s, root, path[..|path| - 1]);
        OwnedUsed(s);
      }
      EnsureLevelCorrect(s, root, path);
      var ppn := AddTable(t, i);
      owner := owner[ppn := Node(root, path)];
      assert State() == EnsureLevel(s, root, path);
    }

    /** The walk seen from level k: the table above, the slot in it, and whether it is filled. */
    method WalkTo(root: nat, virt: nat, k: nat) returns (t: nat, i: nat, present: bool)
      requires 1 <= k <= 3 && NodeAt(frames.mem, root, PathOf(virt)[..k - 1]).Some?
      ensures NodeAt(frames.mem, root, PathOf(virt)[..k - 1]) == Some(t) && i == PathOf(virt)[k - 1]
      ensures present == NodeAt(frames.mem, root, PathOf(virt)[..k]).Some?
    {
      var v := ResolveMapping(root, virt);
      if k == 1 {
        t, i, present := root, v.pml4i, v.pdpt.Some?;
      } else if k == 2 {
        t, i, present := v.pdpt.value, v.pdpti, v.pdir.Some?;
      } else {
        t, i, present := v.pdir.value, v.pdiri, v.ptbl.Some?;
      }
    }

    /** A walk and, when level k is missing, the block that adds it. */
    method EnsureAt(root: nat, virt: nat, k: nat)
      requires Valid() && MayMap(State(), root, virt) && frames.Room(1) && 1 <= k <= 3
      requires NodeAt(frames.mem, root, PathOf(virt)[..k - 1]).Some?
      modifies this`owner, frames, frames.freePages.bytes
      ensures Valid() && State() == EnsureLevel(old(State()), root, PathOf(virt)[..k])
      ensures |frames.Used()| <= |old(frames.Used())| + 1
      ensures NodeAt(frames.mem, root, PathOf(virt)[..k]).Some?
    {
      LevelStep(State(), root, virt, k);
      var t, i, present := WalkTo(root, virt, k);
      if !present {
        EnsureTable(t, i, root, PathOf(virt)[..k]);
      }
    }

    /** The first three blocks of vspace_map. */
    method MapTables(root: nat, virt: nat)
      requires Valid() && MayMap(State(), root, virt) && frames.Room(3)
      modifies this`owner, frames, frames.freePages.bytes
      ensures Valid() && State() == EnsureTables(old(State()), root, virt)
      ensures |frames.Used()| <= |old(frames.Used())| + 3
      ensures NodeAt(frames.mem, root, PathOf(virt)[..3]).Some?
    {
      EnsureAt(root, virt, 1);
      EnsureAt(root, virt, 2);
      EnsureAt(root, virt, 3);
    }

    /** The last block of vspace_map: the page entry, if absent. */
    method MapLeaf(root: nat, virt: nat, phys: nat, flags: Flags)
      requires NodeAt(frames.mem, root, PathOf(virt)[..3]).Some?
      modifies this`owner, frames`mem
      ensures State() == SetPage(old(State()), root, virt, phys, flags)
    {
      var v := ResolveMapping(root, virt);
      var e := TableAt(frames.mem, v.ptbl.value)[v.ptbli];
      if !e.present {
        WriteEntry(v.ptbl.value, v.ptbli,
                   e.(present := true, noExec := flags.noExec, write := flags.write, user := flags.user, ppn := phys));
        owner := owner[phys := Node(root, PathOf(virt))];
      }
    }

    /** vspace_map. */
    method Map(root: nat, virt: nat, phys: nat, flags: Flags)
      requires Valid() && MayMap(State(), root, virt) && frames.Room(3)
      requires phys in frames.Used() && phys !in owner
      modifies this`owner, frames, frames.freePages.bytes
      ensures Valid() && State() == MapPage(old(State()), root, virt, phys, flags)
      ensures |frames.Used()| <= |old(frames.Used())| + 3
    {
      MapPageCorrect(State(), root, virt, phys, flags);
      MapTables(root, virt);
      MapLeaf(root, virt, phys, flags);
    }

    /** vspace_unmap.  A page that is not mapped may be any. */
    method Unmap(root: nat, virt: nat) returns (ret: bool)
      requires Valid() && (MayMap(State(), root, virt) || Lookup(frames.mem, root, virt).None?)
      modifies this`owner, frames`mem, frames.freePages.bytes
      ensures Valid() && State() == UnmapPage(old(State()), root, virt)
      ensures ret == Lookup(old(frames.mem), root, virt).Some?
    {
      ghost var s := State();
      ghost var s' := UnmapShape(s, root, virt);
      ret := false;
      var v := ResolveMapping(root, virt);
      if v.page.Some? {
        WriteEntry(v.ptbl.value, v.ptbli, ZERO_ENTRY);
        frames.FreePage(v.page.value);
        owner := owner - {v.page.value};
        ret := true;
      }
      assert State() == s';
    }

    /** vspace_create. */
    method Create() returns (vs: VSpace)
      requires Valid() && frames.Room(1)
      modifies this`owner, this`spaces, frames, frames.freePages.bytes
      ensures Valid() && State() == CreateSpace(old(State()))
      ensures fresh(vs) && vs.pml4Ppn == Lowest(old(frames.Used())) && vs.pml4Ppn in spaces
    {
      CreateKeepsInv(State());
      RootsOwned(State(), kernelRoot);
      ghost var s := State();
      var ppn := frames.AllocPage();
      vs := new VSpace(ppn);
      UpdateKernelMapping(ppn);
      CopiedHalf(s.mem, s.kernel, ppn);
      spaces := spaces + {ppn};
      owner := owner[ppn := Node(ppn, [])];
    }

    /** vspace_delete: free every page, table and the PML4 of a space that has not
        been deleted before, children first.  The call of free_page demands each
        frame to be in use, so no frame is freed twice. */
    method Delete(vs: VSpace)
      requires Valid() && (vs.pml4Ppn == -1 || vs.pml4Ppn in spaces)
      modifies vs, this`owner, this`spaces, frames.freePages.bytes
      ensures vs.pml4Ppn == -1 && Valid()
      ensures State() == if old(vs.pml4Ppn) == -1 then old(State())
                         else DeleteSpace(old(State()), old(vs.pml4Ppn))
    {
      var delete := vs.pml4Ppn != -1;
      var root := vs.pml4Ppn;
      vs.pml4Ppn := -1;
      if !delete {
        return;
      }
      FreeSpace(root);
    }

    method FreeSpace(root: nat)
      requires Valid() && root in spaces
      modifies this`owner, this`spaces, frames.freePages.bytes
      ensures Valid() && State() == DeleteSpace(old(State()), root)
    {
      ghost var s := State();
      DeleteCorrect(s, root);
      FreedAll(s, root);
      FreeTree(s, root);
      frames.FreePage(root);
      spaces := spaces - {root};
      owner := owner - Frames(s, root);
      assert State() == DeleteSpace(s, root);
    }

    /** The four nested loops of vspace_delete. */
    method FreeTree(ghost s: State, root: nat)
      requires frames.Valid() && Inv(s) && root in s.spaces
      requires frames.mem == s.mem && frames.Used() == s.used
      modifies frames.freePages.bytes
      ensures frames.Valid() && frames.Used() == Left(s, root, [256])
    {
      ghost var p: Path := [];
      var pml4 := TableAt(frames.mem, root);
      FreedEnter(s, root, p);
      for pml4i := 0 to 256
        invariant frames.Valid() && frames.Used() == Left(s, root, p + [pml4i])
      {
        FreePml4Entry(s, root, p, pml4[pml4i], pml4i);
      }
      assert p + [256] == [256];
    }

    /** One turn of the outermost loop. */
    method FreePml4Entry(ghost s: State, ghost root: nat, ghost p: Path, e: Entry, ghost i: nat)
      requires FreesBelow(s, root, p, i, e) && |p| == 0
      modifies frames.freePages.bytes
      ensures frames.Valid() && frames.Used() == Left(s, root, p + [i + 1])
    {
      NodeStep(s.mem, root, p, i);
      if !e.present {
        FreedSkip(s, root, p, i);
        return;
      }
      FreePdpt(s, root, p + [i], e.ppn);
      FreedLeave(s, root, p, i, e.ppn);
      frames.FreePage(e.ppn);
    }

    /** The visit stands at entry i of the table at p, which is e. */
    ghost predicate FreesBelow(s: State, root: nat, p: Path, i: nat, e: Entry)
      reads frames, frames.freePages.bytes
    {
      && frames.Valid() && Inv(s) && root in s.spaces && |p| < 4 && i < 512 && Owns(s, root, p + [i])
      && frames.mem == s.mem && frames.Used() == Left(s, root, p + [i])
      && NodeAt(s.mem, root, p).Some? && e == TableAt(s.mem, NodeAt(s.mem, root, p).value)[i]
    }

    method FreePdpt(ghost s: State, ghost root: nat, ghost p: Path, pdptPpn: nat)
      requires frames.Valid() && Inv(s) && root in s.spaces && |p| == 1 && Owns(s, root, p)
      requires frames.mem == s.mem && frames.Used() == Left(s, root, p)
      requires NodeAt(s.mem, root, p) == Some(pdptPpn)
      modifies frames.freePages.bytes
      ensures frames.Valid() && frames.Used() == Left(s, root, p + [512])
    {
      var pdpt := TableAt(frames.mem, pdptPpn);
      FreedEnter(s, root, p);
      for pdpti := 0 to 512
        invariant frames.Valid() && frames.Used() == Left(s, root, p + [pdpti])
      {
        FreePdptEntry(s, root, p, pdpt[pdpti], pdpti);
      }
    }

    method FreePdptEntry(ghost s: State, ghost root: nat, ghost p: Path, e: Entry, ghost i: nat)
      requires FreesBelow(s, root, p, i, e) && |p| == 1
      modifies frames.freePages.bytes
      ensures frames.Valid() && frames.Used() == Left(s, root, p + [i + 1])
    {
      NodeStep(s.mem, root, p, i);
      if !e.present {
        FreedSkip(s, root, p, i);
        return;
      }
      FreePdir(s, root, p + [i], e.ppn);
      FreedLeave(s, root, p, i, e.ppn);
      frames.FreePage(e.ppn);
    }

    method FreePdir(ghost s: State, ghost root: nat, ghost p: Path, pdirPpn: nat)
      requires frames.Valid() && Inv(s) && root in s.spaces && |p| == 2 && Owns(s, root, p)
      requires frames.mem == s.mem && frames.Used() == Left(s, root, p)
      requires NodeAt(s.mem, root, p) == Some(pdirPpn)
      modifies frames.freePages.bytes
      ensures frames.Valid() && frames.Used() == Left(s, root, p + [512])
    {
      var pdir := TableAt(frames.mem, pdirPpn);
      FreedEnter(s, root, p);
      for pdiri := 0 to 512
        invariant frames.Valid() && frames.Used() == Left(s, root, p + [pdiri])
      {
        FreePdirEntry(s, root, p, pdir[pdiri], pdiri);
      }
    }

    method FreePdirEntry(ghost s: State, ghost root: nat, ghost p: Path, e: Entry, ghost i: nat)
      requires FreesBelow(s, root, p, i, e) && |p| == 2
      modifies frames.freePages.bytes
      ensures frames.Valid() && frames.Used() == Left(s, root, p + [i + 1])
    {
      NodeStep(s.mem, root, p, i);
      if !e.present {
        FreedSkip(s, root, p, i);
        return;
      }
      FreePtbl(s, root, p + [i], e.ppn);
      FreedLeave(s, root, p, i, e.ppn);
      frames.FreePage(e.ppn);
    }

    method FreePtbl(ghost s: State, ghost root: nat, ghost p: Path, ptblPpn: nat)
      requires frames.Valid() && Inv(s) && root in s.spaces && |p| == 3 && Owns(s, root, p)
      requires frames.mem == s.mem && frames.Used() == Left(s, root, p)
      requires NodeAt(s.mem, root, p) == Some(ptblPpn)
      modifies frames.freePages.bytes
      ensures frames.Valid() && frames.Used() == Left(s, root, p + [512])
    {
      var ptbl := TableAt(frames.mem, ptblPpn);
      FreedEnter(s, root, p);
      for ptbli := 0 to 512
        invariant frames.Valid() && frames.Used() == Left(s, root, p + [ptbli])
      {
        FreePage(s, root, p, ptbl[ptbli], ptbli);
      }
    }

    method FreePage(ghost s: State, ghost root: nat, ghost p: Path, e: Entry, ghost i: nat)
      requires FreesBelow(s, root, p, i, e) && |p| == 3
      modifies frames.freePages.bytes
      ensures frames.Valid() && frames.Used() == Left(s, root, p + [i + 1])
    {
      NodeStep(s.mem, root, p, i);
      if !e.present {
        FreedSkip(s, root, p, i);
        return;
      }
      FreedLeaf(s, root, p, i, e.ppn);
      frames.FreePage(e.ppn);
    }

    /** vspace_update_kernel_mapping: the space translates every page of the upper half as the
        kernel does; its lower slots and all other frames are as they were. */
    method UpdateKernelMapping(root: nat)
      requires root != kernelRoot
      modifies frames`mem
      ensures forall v: nat | PathOf(v)[0] >= 256 :: Lookup(frames.mem, root, v) == Lookup(frames.mem, kernelRoot, v)
      ensures var kernel := TableAt(old(frames.mem), kernelRoot);
        frames.mem == old(frames.mem)[root := TableAt(old(frames.mem), root)[..256] + kernel[256..]]
    {
      var upper := TableAt(frames.mem, kernelRoot)[256..];
      frames.mem := frames.mem[root := TableAt(frames.mem, root)[..256] + upper];
      forall v: nat | PathOf(v)[0] >= 256
        ensures Lookup(frames.mem, root, v) == Lookup(frames.mem, kernelRoot, v)
      {
        SharedLookup(frames.mem, root, kernelRoot, v);
      }
    }
  }

  lemma LevelStep(s: State, root: nat, virt: nat, k: nat)
    requires Inv(s) && MayMap(s, root, virt) && 1 <= k <= 3
    requires NodeAt(s.mem, root, PathOf(virt)[..k - 1]).Some?
    ensures Owns(s, root, PathOf(virt)[..k]) && Owns(s, root, PathOf(virt)[..k - 1])
    ensures PathOf(virt)[..k][..k - 1] == PathOf(virt)[..k - 1]
    ensures NodeAt(EnsureLevel(s, root, PathOf(virt)[..k]).mem, root, PathOf(virt)[..k]).Some?
  {
    MayMapOwns(s, root, virt, k - 1);
    MayMapOwns(s, root, virt, k);
    assert PathOf(virt)[..k][..k - 1] == PathOf(virt)[..k - 1];
    EnsureLevelCorrect(s, root, PathOf(virt)[..k]);
  }

  lemma CopiedHalf(mem: Memory, kernel: nat, g: nat)
    requires g != kernel
    ensures var m := mem[g := ZeroTable()];
      m[g := TableAt(m, g)[..256] + TableAt(m, kernel)[256..]] == mem[g := FreshRoot(TableAt(mem, kernel))]
  {
    assert ZeroTable()[..256] + TableAt(mem, kernel)[256..] == FreshRoot(TableAt(mem, kernel));
  }

  /** What vspace_unmap comes to, seen from where the walk ends. */
  lemma UnmapShape(s: State, root: nat, virt: nat) returns (s': State)
    requires Inv(s) && (MayMap(s, root, virt) || Lookup(s.mem, root, virt).None?)
    ensures s' == UnmapPage(s, root, virt) && Inv(s')
    ensures var p := PathOf(virt);
      match NodeAt(s.mem, root, p)
      case None => s' == s && Lookup(s.mem, root, virt).None?
      case Some(g) =>
        && Lookup(s.mem, root, virt).Some? && g in s.used && NodeAt(s.mem, root, p[..3]).Some?
        && s' == PageTables.State(SetEntry(s.mem, NodeAt(s.mem, root, p[..3]).value, p[3], ZERO_ENTRY), s.used - {g},
                                  s.kernel, s.spaces, s.owner - {g})
  {
    s' := UnmapPage(s, root, virt);
    LookupNode(s.mem, root, virt);
    WalkUnfolds(s.mem, root, virt);
    if Lookup(s.mem, root, virt).Some? { UnmapCorrect(s, root, virt); }
  }

  lemma WalkUnfolds(mem: Memory, root: nat, virt: nat)
    ensures var p := PathOf(virt);
      && NodeAt(mem, root, p[..1]) == Child(mem, root, p[0])
      && NodeAt(mem, root, p[..2]) == (match NodeAt(mem, root, p[..1]) case None => None case Some(f) => Child(mem, f, p[1]))
      && NodeAt(mem, root, p[..3]) == (match NodeAt(mem, root, p[..2]) case None => None case Some(f) => Child(mem, f, p[2]))
      && NodeAt(mem, root, p) == (match NodeAt(mem, root, p[..3]) case None => None case Some(f) => Child(mem, f, p[3]))
  {
    var p := PathOf(virt);
    assert p[..1] == [] + [p[0]] && p[..2] == p[..1] + [p[1]] && p[..3] == p[..2] + [p[2]] && p == p[..3] + [p[3]];
    NodeStep(mem, root, [], p[0]);
    NodeStep(mem, root, p[..1], p[1]);
    NodeStep(mem, root, p[..2], p[2]);
    NodeStep(mem, root, p[..3], p[3]);
  }

  /** Writing the flags before and the frame number after the allocation comes to
      one write after it. */
  lemma SameWrites(mem: Memory, t: nat, i: nat, g: nat)
    requires i < 512 && t != g
    ensures var e := TableAt(mem, t)[i];
      var m1 := SetEntry(mem, t, i, e.(present := true, write := true, user := true))[g := ZeroTable()];
      SetEntry(m1, t, i, TableAt(m1, t)[i].(ppn := g)) ==
      SetEntry(mem[g := ZeroTable()], t, i, TableEntry(e, g))
  {
    var e := TableAt(mem, t)[i];
    var m1 := SetEntry(mem, t, i, e.(present := true, write := true, user := true))[g := ZeroTable()];
    assert TableAt(m1, t)[i := TableEntry(e, g)] == TableAt(mem, t)[i := TableEntry(e, g)];
  }
}
