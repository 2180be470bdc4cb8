/** Whole runs of the virtual memory layer: what every interleaving of creating,
    mapping, unmapping and deleting address spaces keeps. */
module AddressSpaceRuns {
  import opened Wrappers
  import opened PageTables
  import opened PageTableProofs
  import opened AddressSpaces

  // ------------------------------------------------------------ the steps

  datatype Op =
    | Create
    | Map(root: nat, virt: nat, flags: Flags)
    | Unmap(root: nat, virt: nat)
    | Delete(root: nat)

  predicate Enabled(s: State, op: Op) {
    match op
    case Create => true
    case Map(root, virt, _) => MayMap(s, root, virt)
    case Unmap(root, virt) => MayMap(s, root, virt)
    case Delete(root) => root in s.spaces
  }

  function Apply(s: State, op: Op): State {
    match op
    case Create => CreateSpace(s)
    case Map(root, virt, flags) => MapFresh(s, root, virt, flags)
    case Unmap(root, virt) => UnmapPage(s, root, virt)
    case Delete(root) => DeleteSpace(s, root)
  }

  /** The frame taken for a page that is already mapped goes to nobody. */
  predicate Leaks(s: State, op: Op) {
    op.Map? && Lookup(s.mem, op.root, op.virt).Some?
  }

  function Run(s: State, ops: seq<Op>): State
    decreases |ops|
  {
    if ops == [] then s else Run(Apply(s, ops[0]), ops[1..])
  }

  predicate Runnable(s: State, ops: seq<Op>)
    decreases |ops|
  {
    ops == [] || (Enabled(s, ops[0]) && Runnable(Apply(s, ops[0]), ops[1..]))
  }

  function LeakCount(s: State, ops: seq<Op>): nat
    decreases |ops|
  {
    if ops == [] then 0
    else (if Leaks(s, ops[0]) then 1 else 0) + LeakCount(Apply(s, ops[0]), ops[1..])
  }

  // ----------------------------------------------------------- accounting

  /** Frames in use that no page table tree accounts for. */
  function Unowned(s: State): set<nat> {
    s.used - s.owner.Keys
  }

  lemma MapFreshStep(s: State, root: nat, virt: nat, flags: Flags)
    requires Inv(s) && MayMap(s, root, virt)
    ensures var s' := MapFresh(s, root, virt, flags);
      && Inv(s')
      && ViewsExcept(s, s', root, PathOf(virt))
      && match Lookup(s.mem, root, virt)
         case Some(_) => s' == Alloc(s)
         case None =>
           && Lookup(s'.mem, root, virt) == Some(MappedLeaf(Lowest(s.used), flags))
           && MapAccounts(Alloc(s), s', root, Lowest(s.used))
  {
    AllocKeepsInv(s);
    OwnedUsed(s);
    assert OwnPage(s, root, virt);
    AllocView(s, root, virt);
    MapPageCorrect(Alloc(s), root, virt, Lowest(s.used), flags);
    AllocViews(s, MapFresh(s, root, virt, flags), root, PathOf(virt));
  }

  lemma AllocViews(s: State, s': State, root: nat, path: Path)
    requires Inv(s) && ViewsExcept(Alloc(s), s', root, path)
    ensures ViewsExcept(s, s', root, path)
  {
    forall r, v | OwnPage(s, r, v) && (r != root || PathOf(v) != path)
      ensures Lookup(s'.mem, r, v) == Lookup(s.mem, r, v)
    {
      assert OwnPage(Alloc(s), r, v);
      AllocView(s, r, v);
    }
  }

  lemma CreateStep(s: State)
    requires Inv(s)
    ensures Inv(CreateSpace(s)) && Unowned(CreateSpace(s)) == Unowned(s)
  {
    CreateKeepsInv(s);
    OwnedUsed(s);
  }

  lemma MapStep(s: State, root: nat, virt: nat, flags: Flags)
    requires Inv(s) && MayMap(s, root, virt)
    ensures var s' := MapFresh(s, root, virt, flags);
      && Inv(s') && s'.kernel == s.kernel && s'.spaces == s.spaces
      && Unowned(s') == Unowned(s) + if Lookup(s.mem, root, virt).Some? then {Lowest(s.used)} else {}
  {
    MapFreshStep(s, root, virt, flags);
    OwnedUsed(s);
  }

  lemma UnmapStep(s: State, root: nat, virt: nat)
    requires Inv(s) && MayMap(s, root, virt)
    ensures var s' := UnmapPage(s, root, virt);
      && Inv(s') && s'.kernel == s.kernel && s'.spaces == s.spaces && Unowned(s') == Unowned(s)
  {
    UnmapCorrect(s, root, virt);
  }

  /** Every step keeps the invariant; a frame leaves the accounts exactly when a
      present page is mapped again. */
  lemma StepCorrect(s: State, op: Op)
    requires Inv(s) && Enabled(s, op)
    ensures var s' := Apply(s, op);
      && Inv(s') && s'.kernel == s.kernel
      && Unowned(s') == Unowned(s) + (if Leaks(s, op) then {Lowest(s.used)} else {})
  {
    match op
    case Create => CreateStep(s);
    case Map(root, virt, flags) => MapStep(s, root, virt, flags);
    case Unmap(root, virt) => UnmapStep(s, root, virt);
    case Delete(root) => DeleteCorrect(s, root);
  }

  /** Over every run: used frames are the trees' frames, those in use outside the
      trees from the start, and one more for each time a present page was mapped. */
  lemma {:induction false} RunCorrect(s: State, ops: seq<Op>)
    requires Inv(s) && Runnable(s, ops)
    ensures var s' := Run(s, ops);
      && Inv(s') && s'.kernel == s.kernel
      && Unowned(s) <= Unowned(s')
      && |Unowned(s')| == |Unowned(s)| + LeakCount(s, ops)
    decreases |ops|
  {
    if ops != [] {
      StepCorrect(s, ops[0]);
      assert |Unowned(Apply(s, ops[0]))| == |Unowned(s)| + (if Leaks(s, ops[0]) then 1 else 0);
      RunCorrect(Apply(s, ops[0]), ops[1..]);
    }
  }

  // -------------------------------------------------- one space's lifetime

  /** The trees of all spaces but one. */
  function Others(s: State, root: nat): map<nat, Node> {
    map f | f in s.owner && s.owner[f].root != root :: s.owner[f]
  }

  predicate OnlyOn(ops: seq<Op>, root: nat) {
    forall i | 0 <= i < |ops| :: (ops[i].Map? || ops[i].Unmap?) && ops[i].root == root
  }

  /** An operation on one space touches no other space's tree or translations. */
  lemma StepIsolated(s: State, op: Op, root: nat)
    requires Inv(s) && Enabled(s, op) && (op.Map? || op.Unmap?) && op.root == root
    ensures var s' := Apply(s, op);
      && Others(s', root) == Others(s, root) && s'.spaces == s.spaces
      && forall r, v | r != root && OwnPage(s, r, v) :: Lookup(s'.mem, r, v) == Lookup(s.mem, r, v)
  {
    if op.Map? {
      MapIsolated(s, root, op.virt, op.flags);
    } else {
      UnmapIsolated(s, root, op.virt);
    }
  }

  lemma UnmapIsolated(s: State, root: nat, virt: nat)
    requires Inv(s) && MayMap(s, root, virt)
    ensures var s' := UnmapPage(s, root, virt);
      && Others(s', root) == Others(s, root) && s'.spaces == s.spaces
      && forall r, v | r != root && OwnPage(s, r, v) :: Lookup(s'.mem, r, v) == Lookup(s.mem, r, v)
  {
    UnmapCorrect(s, root, virt);
    var g := Lookup(s.mem, root, virt);
    if g.Some? { OthersWithout(s, UnmapPage(s, root, virt), root, g.value.ppn); }
  }

  lemma OthersWithout(s: State, s': State, root: nat, g: nat)
    requires g in s.owner && s.owner[g].root == root && s'.owner == s.owner - {g}
    ensures Others(s', root) == Others(s, root)
  {
  }

  lemma MapIsolated(s: State, root: nat, virt: nat, flags: Flags)
    requires Inv(s) && MayMap(s, root, virt)
    ensures var s' := MapFresh(s, root, virt, flags);
      && Others(s', root) == Others(s, root) && s'.spaces == s.spaces
      && forall r, v | r != root && OwnPage(s, r, v) :: Lookup(s'.mem, r, v) == Lookup(s.mem, r, v)
  {
    var s' := MapFresh(s, root, virt, flags);
    MapFreshStep(s, root, virt, flags);
    MapStep(s, root, virt, flags);
    if Lookup(s.mem, root, virt).None? {
      OthersKept(Alloc(s), s', root);
    }
  }

  lemma OthersKept(a: State, s': State, root: nat)
    requires a.owner.Keys <= s'.owner.Keys && forall f | f in a.owner :: s'.owner[f] == a.owner[f]
    requires forall f | f in s'.owner && f !in a.owner :: s'.owner[f].root == root
    ensures Others(s', root) == Others(a, root)
  {
  }

  lemma {:induction false} RunIsolated(s: State, ops: seq<Op>, root: nat)
    requires Inv(s) && Runnable(s, ops) && OnlyOn(ops, root)
    ensures var s' := Run(s, ops);
      && Others(s', root) == Others(s, root) && s'.spaces == s.spaces
      && forall r, v | r != root && OwnPage(s, r, v) :: Lookup(s'.mem, r, v) == Lookup(s.mem, r, v)
    decreases |ops|
  {
    if ops != [] {
      var s1 := Apply(s, ops[0]);
      StepCorrect(s, ops[0]);
      StepIsolated(s, ops[0], root);
      RunIsolated(s1, ops[1..], root);
      forall r, v | r != root && OwnPage(s, r, v)
        ensures Lookup(Run(s, ops).mem, r, v) == Lookup(s.mem, r, v)
      {
        assert OwnPage(s1, r, v);
      }
    }
  }

  function Life(s: State, ops: seq<Op>): State {
    DeleteSpace(Run(CreateSpace(s), ops), Lowest(s.used))
  }

  /** Create a space, map and unmap any of its pages in any order, delete it: the
      frames in use are exactly those of the start, if and only if no page was
      mapped while present; and every other space is untouched either way. */
  lemma LifeConserves(s: State, ops: seq<Op>)
    requires Inv(s)
    requires Runnable(CreateSpace(s), ops) && OnlyOn(ops, Lowest(s.used))
    ensures var s' := Life(s, ops);
      && (s'.used == s.used <==> LeakCount(CreateSpace(s), ops) == 0)
      && s.used <= s'.used && |s'.used| == |s.used| + LeakCount(CreateSpace(s), ops)
      && s'.owner == s.owner && s'.spaces == s.spaces && Inv(s') && SameViews(s, s')
  {
    LifeCounts(s, ops);
    LifeRest(s, ops);
  }

  lemma LifeCounts(s: State, ops: seq<Op>)
    requires Inv(s)
    requires Runnable(CreateSpace(s), ops) && OnlyOn(ops, Lowest(s.used))
    ensures var s' := Life(s, ops);
      && (s'.used == s.used <==> LeakCount(CreateSpace(s), ops) == 0)
      && s.used <= s'.used && |s'.used| == |s.used| + LeakCount(CreateSpace(s), ops) && s'.owner == s.owner
  {
    LifeFacts(s, ops);
    OwnedUsed(s);
    LifeAccounts(s, Run(CreateSpace(s), ops), Lowest(s.used));
  }

  lemma LifeFacts(s: State, ops: seq<Op>)
    requires Inv(s)
    requires Runnable(CreateSpace(s), ops) && OnlyOn(ops, Lowest(s.used))
    ensures var d := Run(CreateSpace(s), ops);
      && d.owner.Keys <= d.used && Others(d, Lowest(s.used)) == s.owner && Unowned(s) <= Unowned(d)
      && |Unowned(d)| == |Unowned(s)| + LeakCount(CreateSpace(s), ops)
  {
    var c := CreateSpace(s);
    CreateStep(s);
    CreatedOthers(s);
    RunCorrect(c, ops);
    RunIsolated(c, ops, Lowest(s.used));
    OwnedUsed(Run(c, ops));
  }

  lemma LifeRest(s: State, ops: seq<Op>)
    requires Inv(s)
    requires Runnable(CreateSpace(s), ops) && OnlyOn(ops, Lowest(s.used))
    ensures var s' := Life(s, ops); s'.spaces == s.spaces && Inv(s') && SameViews(s, s')
  {
    var g, c := Lowest(s.used), CreateSpace(s);
    CreateCorrect(s);
    RunCorrect(c, ops);
    RunIsolated(c, ops, g);
    DeleteCorrect(Run(c, ops), g);
    RestViews(s, c, Run(c, ops), g);
  }

  /** Page 0 mapped twice. */
  function TwoMaps(root: nat, flags: Flags): seq<Op> {
    [Map(root, 0, flags), Map(root, 0, flags)]
  }

  /** From every state, a life in which a page is mapped twice costs a frame. */
  lemma TwoMapsLeak(s: State, flags: Flags)
    requires Inv(s)
    ensures var ops := TwoMaps(Lowest(s.used), flags);
      && Runnable(CreateSpace(s), ops) && OnlyOn(ops, Lowest(s.used))
      && |Life(s, ops).used| == |s.used| + 1
  {
    CreateStep(s);
    CreateCorrect(s);
    TwiceMapped(CreateSpace(s), Lowest(s.used), flags);
    LifeConserves(s, TwoMaps(Lowest(s.used), flags));
  }

  lemma TwiceMapped(c: State, g: nat, flags: Flags)
    requires Inv(c) && g in c.spaces && Lookup(c.mem, g, 0).None?
    ensures Runnable(c, TwoMaps(g, flags)) && LeakCount(c, TwoMaps(g, flags)) == 1
  {
    var ops, c1 := TwoMaps(g, flags), MapFresh(c, g, 0, flags);
    assert PathOf(0)[0] == 0;
    MapStep(c, g, 0, flags);
    MappedAfter(c, g, 0, flags);
    assert ops[1..] == [ops[1]];
    OneMap(c1, ops[1]);
  }

  lemma OneMap(c: State, op: Op)
    requires Enabled(c, op)
    ensures Runnable(c, [op]) && LeakCount(c, [op]) == if Leaks(c, op) then 1 else 0
  {
    assert [op][1..] == [];
  }

  /** Returning the frames of one tree, when the other trees are those of the start. */
  lemma LifeAccounts(s: State, d: State, g: nat)
    requires s.owner.Keys <= s.used && d.owner.Keys <= d.used
    requires Others(d, g) == s.owner && Unowned(s) <= Unowned(d)
    ensures var s' := DeleteSpace(d, g);
      && (s'.used == s.used <==> |Unowned(d)| == |Unowned(s)|)
      && s.used <= s'.used && |s'.used| - |s.used| == |Unowned(d)| - |Unowned(s)|
      && s'.owner == s.owner
  {
    var s' := DeleteSpace(d, g);
    RestOwner(d, g);
    var kept := s.owner.Keys;
    assert s'.owner.Keys == d.owner.Keys - Frames(d, g);
    FreedOutside(d.used, d.owner.Keys, Frames(d, g));
    AccountsEqual(s.used, s'.used, kept);
  }

  lemma RestOwner(d: State, g: nat)
    ensures DeleteSpace(d, g).owner == Others(d, g)
  {
  }

  lemma RestViews(s: State, c: State, d: State, g: nat)
    requires SameViews(s, c) && g !in s.spaces && g != s.kernel
    requires c.kernel == s.kernel && c.spaces == s.spaces + {g}
    requires forall r, v | r != g && OwnPage(c, r, v) :: Lookup(d.mem, r, v) == Lookup(c.mem, r, v)
    ensures SameViews(s, DeleteSpace(d, g))
  {
    forall r, v | OwnPage(s, r, v)
      ensures Lookup(d.mem, r, v) == Lookup(s.mem, r, v)
    {
      assert OwnPage(c, r, v);
    }
  }

  lemma FreedOutside(used: set<nat>, owned: set<nat>, freed: set<nat>)
    requires freed <= owned <= used
    ensures (used - freed) - (owned - freed) == used - owned && owned - freed <= used - freed
  {
  }

  lemma AccountsEqual(used: set<nat>, used': set<nat>, owned: set<nat>)
    requires owned <= used && owned <= used' && used - owned <= used' - owned
    ensures used <= used' && |used'| - |used| == |used' - owned| - |used - owned|
    ensures used' == used <==> |used' - owned| == |used - owned|
  {
    assert used == (used - owned) + owned && used' == (used' - owned) + owned;
    assert used' == used + (used' - used);
  }

  lemma CreatedOthers(s: State)
    requires Inv(s)
    ensures Others(CreateSpace(s), Lowest(s.used)) == s.owner
  {
    var g := Lowest(s.used);
    OwnedUsed(s);
    CreateCorrect(s);
    forall f | f in s.owner
      ensures s.owner[f].root != g
    {
      assert Genuine(s, f);
    }
  }

  // -------------------------------------------------------- kernel halves

  predicate KernelSlot(s: State, i: nat)
    requires i < 512
  {
    TableAt(s.mem, s.kernel)[i].present
  }

  /** Every top-level slot of the kernel is also in the space. */
  ghost predicate UpToDate(s: State, r: nat) {
    forall i | 256 <= i < 512 && KernelSlot(s, i) :: TableAt(s.mem, r)[i].present
  }

  /** A kernel mapping that has to open a top-level slot. */
  predicate OpensSlot(s: State, op: Op) {
    op.Map? && op.root == s.kernel && !KernelSlot(s, PathOf(op.virt)[0])
  }

  /** What a space sees of the kernel half: the kernel's own view in the slots it shares. */
  lemma UpperView(s: State, r: nat, v: nat)
    requires Inv(s) && r in s.spaces && PathOf(v)[0] >= 256
    ensures Lookup(s.mem, r, v) ==
            if TableAt(s.mem, r)[PathOf(v)[0]].present then Lookup(s.mem, s.kernel, v) else None
  {
    var i := PathOf(v)[0];
    var q := PathOf(v)[..3];
    assert SharesSlot(s, r, i);
    if TableAt(s.mem, r)[i].present {
      SharedLookup(s.mem, r, s.kernel, v);
    } else {
      AbsentBelow(s.mem, r, [], r, i, r, q);
    }
  }

  /** A space translates the whole kernel half as the kernel does once it is up to date. */
  lemma CoherentView(s: State, r: nat)
    requires Inv(s) && r in s.spaces && UpToDate(s, r)
    ensures forall v | PathOf(v)[0] >= 256 :: Lookup(s.mem, r, v) == Lookup(s.mem, s.kernel, v)
  {
    forall v | PathOf(v)[0] >= 256
      ensures Lookup(s.mem, r, v) == Lookup(s.mem, s.kernel, v)
    {
      UpperView(s, r, v);
      var i, q := PathOf(v)[0], PathOf(v)[..3];
      if !KernelSlot(s, i) {
        AbsentBelow(s.mem, s.kernel, [], s.kernel, i, s.kernel, q);
      }
    }
  }

  predicate Live(s: State, r: nat) {
    r == s.kernel || r in s.spaces
  }

  /** Ensuring a table writes a PML4 only in the slot of the path, and only for the first level. */
  lemma EnsureLevelTop(s: State, root: nat, path: Path, r: nat, j: nat)
    requires Inv(s) && 1 <= |path| <= 3 && Owns(s, root, path) && Owns(s, root, path[..|path| - 1])
    requires Live(s, r) && j < 512 && (r != root || j != path[0])
    ensures TableAt(EnsureLevel(s, root, path).mem, r)[j] == TableAt(s.mem, r)[j]
  {
    RootsOwned(s, r);
    assert Recorded(s, root, path[..|path| - 1]);
  }

  lemma EnsureTablesTop(s: State, root: nat, virt: nat, r: nat, j: nat)
    requires Inv(s) && MayTable(s, root, virt)
    requires Live(s, r) && j < 512 && (r != root || j != PathOf(virt)[0])
    ensures TableAt(EnsureTables(s, root, virt).mem, r)[j] == TableAt(s.mem, r)[j]
  {
    var path := PathOf(virt);
    MayTableOwns(s, root, virt, 0);
    MayTableOwns(s, root, virt, 1);
    MayTableOwns(s, root, virt, 2);
    MayTableOwns(s, root, virt, 3);
    assert path[..1][..0] == path[..0] && path[..2][..1] == path[..1] && path[..3][..2] == path[..2];
    var s1 := EnsureLevel(s, root, path[..1]);
    EnsureLevelCorrect(s, root, path[..1]);
    EnsureLevelTop(s, root, path[..1], r, j);
    var s2 := EnsureLevel(s1, root, path[..2]);
    EnsureLevelCorrect(s1, root, path[..2]);
    EnsureLevelTop(s1, root, path[..2], r, j);
    EnsureLevelTop(s2, root, path[..3], r, j);
  }

  /** Mapping a page writes the PML4s in no slot but that page's. */
  lemma MapTop(s: State, root: nat, virt: nat, flags: Flags, r: nat, j: nat)
    requires Inv(s) && MayMap(s, root, virt)
    requires Live(s, r) && j < 512 && (r != root || j != PathOf(virt)[0])
    ensures TableAt(MapFresh(s, root, virt, flags).mem, r)[j] == TableAt(s.mem, r)[j]
  {
    var a := Alloc(s);
    AllocKeepsInv(s);
    RootsOwned(s, r);
    EnsureTablesTop(a, root, virt, r, j);
    EnsureTablesCorrect(a, root, virt);
    SetPageTop(EnsureTables(a, root, virt), root, virt, Lowest(s.used), flags, r);
  }

  lemma SetPageTop(s: State, root: nat, virt: nat, phys: nat, flags: Flags, r: nat)
    requires Inv(s) && MayTable(s, root, virt) && Live(s, r)
    ensures TableAt(SetPage(s, root, virt, phys, flags).mem, r) == TableAt(s.mem, r)
  {
    RootsOwned(s, r);
    MayTableOwns(s, root, virt, 3);
    assert Recorded(s, root, PathOf(virt)[..3]);
  }

  /** A mapped page has its top-level slot. */
  lemma MappedSlot(mem: Memory, root: nat, virt: nat)
    requires Lookup(mem, root, virt).Some?
    ensures TableAt(mem, root)[PathOf(virt)[0]].present
  {
    if !TableAt(mem, root)[PathOf(virt)[0]].present {
      AbsentBelow(mem, root, [], root, PathOf(virt)[0], root, PathOf(virt)[..3]);
    }
  }

  /** A step opens at most the one kernel slot it maps into, and gives a live
      space no upper slot. */
  lemma StepTop(s: State, op: Op, r: nat, i: nat)
    requires Inv(s) && Enabled(s, op) && r in s.spaces && op != Delete(r) && 256 <= i < 512
    ensures var s' := Apply(s, op);
      && r in s'.spaces && s'.kernel == s.kernel
      && TableAt(s'.mem, r)[i] == TableAt(s.mem, r)[i]
      && (KernelSlot(s', i) <==> KernelSlot(s, i) || (OpensSlot(s, op) && i == PathOf(op.virt)[0]))
  {
    RootsOwned(s, r);
    RootsOwned(s, s.kernel);
    match op
    case Create =>
    case Delete(_) =>
    case Unmap(root, virt) =>
      UnmapTop(s, root, virt);
      UnmapCorrect(s, root, virt);
    case Map(root, virt, flags) =>
      MapStep(s, root, virt, flags);
      MapFreshStep(s, root, virt, flags);
      MapTop(s, root, virt, flags, r, i);
      if root == s.kernel && i == PathOf(virt)[0] {
        AllocKeepsInv(s);
        if Lookup(s.mem, root, virt).Some? { MappedSlot(s.mem, root, virt); }
        MappedAfter(s, root, virt, flags);
        MappedSlot(MapFresh(s, root, virt, flags).mem, root, virt);
      } else {
        MapTop(s, root, virt, flags, s.kernel, i);
      }
  }

  lemma MappedAfter(s: State, root: nat, virt: nat, flags: Flags)
    requires Inv(s) && MayMap(s, root, virt)
    ensures Lookup(MapFresh(s, root, virt, flags).mem, root, virt).Some?
  {
    MapFreshStep(s, root, virt, flags);
    assert OwnPage(s, root, virt);
    AllocView(s, root, virt);
  }

  /** A step leaves an up-to-date space so, if and only if it opens no kernel slot. */
  lemma StepUpToDate(s: State, op: Op, r: nat)
    requires Inv(s) && Enabled(s, op) && r in s.spaces && op != Delete(r)
    ensures UpToDate(Apply(s, op), r) <==> UpToDate(s, r) && !OpensSlot(s, op)
  {
    forall i | 256 <= i < 512
      ensures TableAt(Apply(s, op).mem, r)[i] == TableAt(s.mem, r)[i]
      ensures KernelSlot(Apply(s, op), i) <==>
              KernelSlot(s, i) || (OpensSlot(s, op) && i == PathOf(op.virt)[0])
    {
      StepTop(s, op, r, i);
    }
    if OpensSlot(s, op) {
      var i := PathOf(op.virt)[0];
      assert SharesSlot(s, r, i);
      assert KernelSlot(Apply(s, op), i) && !TableAt(Apply(s, op).mem, r)[i].present;
    }
  }

  predicate NeverOpens(s: State, ops: seq<Op>)
    decreases |ops|
  {
    ops == [] || (!OpensSlot(s, ops[0]) && NeverOpens(Apply(s, ops[0]), ops[1..]))
  }

  /** Over every run that does not delete it, a space stays up to date with the
      kernel half if and only if no kernel slot is opened after its creation. */
  lemma {:induction false} RunUpToDate(s: State, ops: seq<Op>, r: nat)
    requires Inv(s) && Runnable(s, ops) && r in s.spaces && Delete(r) !in ops
    ensures Inv(Run(s, ops)) && r in Run(s, ops).spaces && Run(s, ops).kernel == s.kernel
    ensures UpToDate(Run(s, ops), r) <==> UpToDate(s, r) && NeverOpens(s, ops)
    decreases |ops|
  {
    if ops != [] {
      StepCorrect(s, ops[0]);
      StepUpToDate(s, ops[0], r);
      StepTop(s, ops[0], r, 256);
      RunUpToDate(Apply(s, ops[0]), ops[1..], r);
    }
  }

  /** A space created in any state translates the kernel half as the kernel does,
      after every later run in which no kernel slot is opened. */
  lemma KernelHalfCoherent(s: State, ops: seq<Op>)
    requires Inv(s) && Runnable(CreateSpace(s), ops) && Delete(Lowest(s.used)) !in ops
    requires NeverOpens(CreateSpace(s), ops)
    ensures var s' := Run(CreateSpace(s), ops);
      forall v | PathOf(v)[0] >= 256 :: Lookup(s'.mem, Lowest(s.used), v) == Lookup(s'.mem, s.kernel, v)
  {
    var g := Lowest(s.used);
    var c := CreateSpace(s);
    CreateKeepsInv(s);
    RootsOwned(s, s.kernel);
    RunUpToDate(c, ops, g);
    CoherentView(Run(c, ops), g);
  }

  /** Opening a kernel slot is what breaks it: the new kernel page is then missing
      from every space that was alive, for every state and every page. */
  lemma OpenedSlotIncoherent(s: State, virt: nat, flags: Flags, r: nat)
    requires Inv(s) && MayMap(s, s.kernel, virt) && r in s.spaces
    ensures var s' := MapFresh(s, s.kernel, virt, flags);
      Lookup(s.mem, s.kernel, virt).None? ==>
        (Lookup(s'.mem, r, virt) == Lookup(s'.mem, s.kernel, virt)
         <==> TableAt(s.mem, r)[PathOf(virt)[0]].present)
  {
    var i := PathOf(virt)[0];
    MapStep(s, s.kernel, virt, flags);
    StepTop(s, Map(s.kernel, virt, flags), r, i);
    UpperView(MapFresh(s, s.kernel, virt, flags), r, virt);
    MappedAfter(s, s.kernel, virt, flags);
  }

  // -------------------------------------------- every other translation

  /** Mapping a page leaves every other page of every space as it was, kernel
      half included, and the page itself in every other user space. */
  lemma MapTranslations(s: State, root: nat, virt: nat, flags: Flags, r: nat, v: nat)
    requires Inv(s) && MayMap(s, root, virt) && Live(s, r)
    requires PathOf(v) != PathOf(virt) || (r != root && PathOf(v)[0] < 256)
    ensures Lookup(MapFresh(s, root, virt, flags).mem, r, v) == Lookup(s.mem, r, v)
  {
    var s' := MapFresh(s, root, virt, flags);
    MapStep(s, root, virt, flags);
    MapFreshStep(s, root, virt, flags);
    if r in s.spaces && PathOf(v)[0] >= 256 { StepTop(s, Map(root, virt, flags), r, PathOf(v)[0]); }
    SameElsewhere(s, s', root, PathOf(virt), r, v);
  }

  /** A step that changes one page of one space, and no upper slot of the PML4 that is asked,
      leaves every other translation. */
  lemma SameElsewhere(s: State, s': State, root: nat, path: Path, r: nat, v: nat)
    requires Inv(s) && Inv(s') && s'.kernel == s.kernel && s'.spaces == s.spaces && ViewsExcept(s, s', root, path)
    requires Live(s, r) && (PathOf(v) != path || (r != root && PathOf(v)[0] < 256))
    requires r in s.spaces && PathOf(v)[0] >= 256 ==> TableAt(s'.mem, r)[PathOf(v)[0]] == TableAt(s.mem, r)[PathOf(v)[0]]
    ensures Lookup(s'.mem, r, v) == Lookup(s.mem, r, v)
  {
    if OwnPage(s, r, v) {
    } else if r == s.kernel {
      KernelLower(s, v);
      KernelLower(s', v);
    } else {
      assert OwnPage(s, s.kernel, v);
      UpperView(s, r, v);
      UpperView(s', r, v);
    }
  }

  lemma KernelLower(s: State, v: nat)
    requires Inv(s) && PathOf(v)[0] < 256
    ensures Lookup(s.mem, s.kernel, v) == None
  {
    AbsentBelow(s.mem, s.kernel, [], s.kernel, PathOf(v)[0], s.kernel, PathOf(v)[..3]);
  }

  /** Unmapping a page does the same. */
  lemma UnmapTranslations(s: State, root: nat, virt: nat, r: nat, v: nat)
    requires Inv(s) && MayMap(s, root, virt) && Live(s, r)
    requires PathOf(v) != PathOf(virt) || (r != root && PathOf(v)[0] < 256)
    ensures Lookup(UnmapPage(s, root, virt).mem, r, v) == Lookup(s.mem, r, v)
  {
    UnmapStep(s, root, virt);
    UnmapCorrect(s, root, virt);
    UnmapTop(s, root, virt);
    SameElsewhere(s, UnmapPage(s, root, virt), root, PathOf(virt), r, v);
  }
}
