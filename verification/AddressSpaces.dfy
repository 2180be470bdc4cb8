/** The operations on address spaces act on finite maps from pages to frames. */
module AddressSpaces {
  import opened Wrappers
  import opened PageTables
  import opened PageTableProofs

  /** The pages an operation on `root` may touch: user pages of a user space,
      kernel heap pages of the kernel space. */
  predicate MayMap(s: State, root: nat, virt: nat) {
    var slot := PathOf(virt)[0];
    (root in s.spaces && slot < 256) || (root == s.kernel && slot >= HEAP_SLOT)
  }

  /** The pages whose tables belong to `root`: those, and all of the kernel's upper half. */
  predicate MayTable(s: State, root: nat, virt: nat) {
    var slot := PathOf(virt)[0];
    (root in s.spaces && slot < 256) || (root == s.kernel && slot >= 256)
  }

  predicate OwnPage(s: State, root: nat, virt: nat) {
    Walkable(s, root, PathOf(virt))
  }

  lemma MayMapOwns(s: State, root: nat, virt: nat, k: nat)
    requires MayMap(s, root, virt) && k <= 4
    ensures Owns(s, root, PathOf(virt)[..k])
  {
  }

  lemma MayTableOwns(s: State, root: nat, virt: nat, k: nat)
    requires MayTable(s, root, virt) && k <= 3
    ensures Owns(s, root, PathOf(virt)[..k])
  {
  }

  // ------------------------------------------------- views and accounting

  /** Every space translates its own pages as before, one page apart. */
  ghost predicate ViewsExcept(s: State, s': State, root: nat, path: Path) {
    forall r, v | OwnPage(s, r, v) && (r != root || PathOf(v) != path) ::
      Lookup(s'.mem, r, v) == Lookup(s.mem, r, v)
  }

  ghost predicate SameViews(s: State, s': State) {
    forall r, v | OwnPage(s, r, v) :: Lookup(s'.mem, r, v) == Lookup(s.mem, r, v)
  }

  /** The frames taken are exactly those that joined the tree of `root`. */
  ghost predicate Grows(s: State, s': State, root: nat) {
    && s'.kernel == s.kernel && s'.spaces == s.spaces
    && s.owner.Keys <= s'.owner.Keys
    && (forall f | f in s.owner :: s'.owner[f] == s.owner[f])
    && (forall f | f in s'.owner && f !in s.owner :: s'.owner[f].root == root && f !in s.used)
    && s'.used == s.used + (s'.owner.Keys - s.owner.Keys)
  }

  /** Tables that were there are still there. */
  ghost predicate KeepsNodes(s: State, s': State) {
    forall r, q | Walkable(s, r, q) && NodeAt(s.mem, r, q).Some? ::
      NodeAt(s'.mem, r, q) == NodeAt(s.mem, r, q)
  }

  // ------------------------------------------------------------ vspace_map

  /** The entry a walk meets at level k stays unless it is the one written. */
  lemma EntryElsewhere(s: State, mem': Memory, r: nat, p: Path, t: nat, i: nat, root: nat, path: Path, k: nat)
    requires Inv(s) && Owns(s, r, p) && NodeAt(s.mem, r, p) == Some(t) && AgreeExcept(s, mem', t, i)
    requires k < |path| == 4 && Walkable(s, root, path) && !Below(root, path[..k + 1], r, p, i)
    ensures EntryAt(mem', root, path, k) == EntryAt(s.mem, root, path, k)
  {
    WalkableOwns(s, root, path, k);
    OwnsWalkable(s, root, path[..k]);
    var further := path[..k + 1];
    assert Below(root, path[..k], r, p, i) ==> Below(root, further, r, p, i);
    WriteElsewhere(s, mem', r, p, t, i, root, path[..k]);
    assert Recorded(s, root, path[..k]);
    assert Recorded(s, r, p);
  }

  /** Linking a table changes no translation. */
  lemma LinkTableView(s: State, r: nat, p: Path, t: nat, i: nat, e: Entry, root: nat, v: nat)
    requires CanLink(s, r, p, t, i, e) && |p| < 3 && OwnPage(s, root, v)
    ensures Lookup(Link(s, t, i, e, Node(r, p + [i])).mem, root, v) == Lookup(s.mem, root, v)
  {
    var m := Link(s, t, i, e, Node(r, p + [i])).mem;
    var path := PathOf(v);
    if Below(root, path, r, p, i) {
      LinkWalks(s, r, p, t, i, e, root, path);
      AbsentBelow(s.mem, r, p, t, i, root, path);
      LookupNode(m, root, v);
      LookupNode(s.mem, root, v);
    } else {
      forall k | 0 <= k < 4
        ensures EntryAt(m, root, path, k) == EntryAt(s.mem, root, path, k)
      {
        assert Below(root, path[..k + 1], r, p, i) ==> Below(root, path, r, p, i);
        EntryElsewhere(s, m, r, p, t, i, root, path, k);
      }
      SameEntries(s.mem, m, root, v);
    }
  }

  /** A missing table can be linked into the slot the walk stops at. */
  lemma CanLinkFresh(s: State, root: nat, p: Path, t: nat, i: nat)
    requires Inv(s) && |p| < 3 && i < 512 && Owns(s, root, p) && Owns(s, root, p + [i])
    requires NodeAt(s.mem, root, p) == Some(t) && Child(s.mem, t, i) == None
    ensures CanLink(Alloc(s), root, p, t, i, TableEntry(TableAt(s.mem, t)[i], Lowest(s.used)))
  {
    AllocKeepsInv(s);
    OwnsWalkable(s, root, p);
    assert Recorded(s, root, p);
    OwnedUsed(s);
    assert Open(s.owner[t].path, i, TableAt(s.mem, t)[i]);
  }

  lemma EnsureLevelViews(s: State, root: nat, p: Path, t: nat, i: nat)
    requires Inv(s) && |p| < 3 && i < 512 && Owns(s, root, p) && Owns(s, root, p + [i])
    requires NodeAt(s.mem, root, p) == Some(t) && Child(s.mem, t, i) == None
    ensures var s' := Link(Alloc(s), t, i, TableEntry(TableAt(s.mem, t)[i], Lowest(s.used)), Node(root, p + [i]));
            SameViews(s, s') && KeepsNodes(s, s')
  {
    var e := TableEntry(TableAt(s.mem, t)[i], Lowest(s.used));
    var a := Alloc(s);
    var s' := Link(a, t, i, e, Node(root, p + [i]));
    CanLinkFresh(s, root, p, t, i);
    forall r, v | OwnPage(s, r, v)
      ensures Lookup(s'.mem, r, v) == Lookup(s.mem, r, v)
    {
      LinkTableView(a, root, p, t, i, e, r, v);
      AllocView(s, r, v);
    }
    forall r, q | Walkable(s, r, q) && NodeAt(s.mem, r, q).Some?
      ensures NodeAt(s'.mem, r, q) == NodeAt(s.mem, r, q)
    {
      AllocKeepsInv(s);
      LinkWalks(a, root, p, t, i, e, r, q);
      if Below(r, q, root, p, i) {
        AbsentBelow(s.mem, root, p, t, i, r, q);
      }
    }
  }

  lemma EnsureLevelInv(s: State, root: nat, p: Path, t: nat, i: nat)
    requires Inv(s) && |p| < 3 && i < 512 && Owns(s, root, p) && Owns(s, root, p + [i])
    requires NodeAt(s.mem, root, p) == Some(t) && Child(s.mem, t, i) == None
    ensures var s' := Link(Alloc(s), t, i, TableEntry(TableAt(s.mem, t)[i], Lowest(s.used)), Node(root, p + [i]));
            Inv(s') && NodeAt(s'.mem, root, p + [i]).Some?
  {
    var e := TableEntry(TableAt(s.mem, t)[i], Lowest(s.used));
    CanLinkFresh(s, root, p, t, i);
    LinkKeepsInv(Alloc(s), root, p, t, i, e);
    OwnsWalkable(s, root, p + [i]);
    LinkWalks(Alloc(s), root, p, t, i, e, root, p + [i]);
  }

  lemma EnsureLevelGrows(s: State, root: nat, p: Path, t: nat, i: nat)
    requires s.owner.Keys <= s.used && i < 512
    ensures var s' := Link(Alloc(s), t, i, TableEntry(TableAt(s.mem, t)[i], Lowest(s.used)), Node(root, p + [i]));
            Grows(s, s', root)
  {
  }

  lemma EnsureLevelCorrect(s: State, root: nat, path: Path)
    requires Inv(s) && 1 <= |path| <= 3 && Owns(s, root, path) && Owns(s, root, path[..|path| - 1])
    requires NodeAt(s.mem, root, path[..|path| - 1]).Some?
    ensures var s' := EnsureLevel(s, root, path);
      && Inv(s') && SameViews(s, s') && Grows(s, s', root) && KeepsNodes(s, s')
      && NodeAt(s'.mem, root, path).Some?
  {
    var p, i := path[..|path| - 1], path[|path| - 1];
    assert path == p + [i];
    if NodeAt(s.mem, root, path).None? {
      var t := NodeAt(s.mem, root, p).value;
      EnsureLevelInv(s, root, p, t, i);
      EnsureLevelViews(s, root, p, t, i);
      OwnedUsed(s);
      EnsureLevelGrows(s, root, p, t, i);
    }
  }

  lemma AllocView(s: State, r: nat, v: nat)
    requires Inv(s) && OwnPage(s, r, v)
    ensures Lookup(Alloc(s).mem, r, v) == Lookup(s.mem, r, v)
  {
    AllocKeepsInv(s);
    OutsideView(s, Alloc(s).mem, r, v);
  }

  /** A page keeps its translation when no owned table changes. */
  lemma OutsideView(s: State, mem': Memory, r: nat, v: nat)
    requires Inv(s) && OwnPage(s, r, v)
    requires forall f | f in s.owner :: TableAt(mem', f) == TableAt(s.mem, f)
    ensures Lookup(mem', r, v) == Lookup(s.mem, r, v)
  {
    var path := PathOf(v);
    forall k | 0 <= k < 4
      ensures EntryAt(mem', r, path, k) == EntryAt(s.mem, r, path, k)
    {
      WalkableOwns(s, r, path, k);
      OwnsWalkable(s, r, path[..k]);
      WriteOutside(s, mem', r, path[..k]);
      assert Recorded(s, r, path[..k]);
    }
    SameEntries(s.mem, mem', r, v);
  }

  /** With the page's table in place there is nothing to ensure. */
  lemma TablesThere(s: State, root: nat, virt: nat)
    requires NodeAt(s.mem, root, PathOf(virt)[..3]).Some?
    ensures EnsureTables(s, root, virt) == s
  {
    var path := PathOf(virt);
    assert path[..3][..2] == path[..2] && path[..3][..1] == path[..1];
    NodePrefix(s.mem, root, path[..3], 2);
    NodePrefix(s.mem, root, path[..3], 1);
  }

  /** After the three levels are ensured the page's table is there and nothing else has changed. */
  lemma EnsureTablesCorrect(s: State, root: nat, virt: nat)
    requires Inv(s) && MayTable(s, root, virt)
    ensures var s' := EnsureTables(s, root, virt);
      && Inv(s') && SameViews(s, s') && Grows(s, s', root)
      && NodeAt(s'.mem, root, PathOf(virt)[..3]).Some?
      && (NodeAt(s.mem, root, PathOf(virt)[..3]).Some? ==> s' == s)
  {
    var path := PathOf(virt);
    MayTableOwns(s, root, virt, 0);
    MayTableOwns(s, root, virt, 1);
    MayTableOwns(s, root, virt, 2);
    MayTableOwns(s, root, virt, 3);
    assert path[..1][..0] == path[..0] && path[..2][..1] == path[..1] && path[..3][..2] == path[..2];
    var s1 := EnsureLevel(s, root, path[..1]);
    EnsureLevelCorrect(s, root, path[..1]);
    var s2 := EnsureLevel(s1, root, path[..2]);
    EnsureLevelCorrect(s1, root, path[..2]);
    EnsureLevelCorrect(s2, root, path[..3]);
    GrowsTransitive(s, s1, s2, root);
    GrowsTransitive(s, s2, EnsureTables(s, root, virt), root);
    if NodeAt(s.mem, root, path[..3]).Some? { TablesThere(s, root, virt); }
  }

  lemma GrowsTransitive(s: State, s1: State, s2: State, root: nat)
    requires Grows(s, s1, root) && SameViews(s, s1)
    requires Grows(s1, s2, root) && SameViews(s1, s2)
    ensures Grows(s, s2, root) && SameViews(s, s2)
  {
    forall r, v | OwnPage(s, r, v)
      ensures Lookup(s2.mem, r, v) == Lookup(s.mem, r, v)
    {
      assert OwnPage(s1, r, v);
    }
  }

  function MappedLeaf(phys: nat, flags: Flags): Leaf {
    Leaf(phys, flags.write, flags.user, flags.noExec)
  }

  /** The entries above a page of an open slot allow everything. */
  lemma OpenWalk(s: State, root: nat, v: nat, k: nat)
    requires Inv(s) && OwnPage(s, root, v) && PathOf(v)[0] != IDENT_SLOT && k < 3
    requires NodeAt(s.mem, root, PathOf(v)[..k + 1]).Some?
    ensures var e := EntryAt(s.mem, root, PathOf(v), k); e.write && e.user && !e.noExec
  {
    var path := PathOf(v);
    assert path[..k + 1] == path[..k] + [path[k]];
    NodeStep(s.mem, root, path[..k], path[k]);
    WalkableOwns(s, root, path, k);
    assert Recorded(s, root, path[..k]);
    var t := NodeAt(s.mem, root, path[..k]).value;
    assert Open(s.owner[t].path, path[k], TableAt(s.mem, t)[path[k]]);
    assert (path[..k] + [path[k]])[0] == path[0];
  }

  /** So the permissions of a page there are those of its own entry. */
  lemma OpenLeaf(s: State, root: nat, v: nat, e: Entry)
    requires Inv(s) && OwnPage(s, root, v) && PathOf(v)[0] != IDENT_SLOT
    requires NodeAt(s.mem, root, PathOf(v)[..3]).Some?
    ensures LeafOf(s.mem, root, PathOf(v), e) == if e.present then Some(Leaf(e.ppn, e.write, e.user, e.noExec)) else None
  {
    var path := PathOf(v);
    forall k | 0 <= k < 3
      ensures var a := EntryAt(s.mem, root, path, k); a.write && a.user && !a.noExec
    {
      assert path[..3][..k + 1] == path[..k + 1];
      NodePrefix(s.mem, root, path[..3], k + 1);
      OpenWalk(s, root, v, k);
    }
    var a, b, c := EntryAt(s.mem, root, path, 0), EntryAt(s.mem, root, path, 1), EntryAt(s.mem, root, path, 2);
  }

  /** Writing a page entry shows at that page of that space and nowhere else. */
  lemma LinkPageView(s: State, r: nat, virt: nat, t: nat, phys: nat, flags: Flags, root: nat, v: nat)
    requires OwnPage(s, root, v) && MayMap(s, r, virt) && Inv(s)
    requires NodeAt(s.mem, r, PathOf(virt)[..3]) == Some(t)
    ensures var e := LeafEntry(TableAt(s.mem, t)[PathOf(virt)[3]], phys, flags);
            Lookup(SetEntry(s.mem, t, PathOf(virt)[3], e), root, v) ==
            if root == r && PathOf(v) == PathOf(virt) then Some(MappedLeaf(phys, flags))
            else Lookup(s.mem, root, v)
  {
    var e := LeafEntry(TableAt(s.mem, t)[PathOf(virt)[3]], phys, flags);
    MayMapOwns(s, r, virt, 3);
    PageEntryView(s, r, virt, t, e, root, v);
    if root == r && PathOf(v) == PathOf(virt) { OpenLeaf(s, root, v, e); }
  }

  lemma PageEntryView(s: State, r: nat, virt: nat, t: nat, e: Entry, root: nat, v: nat)
    requires OwnPage(s, root, v) && Owns(s, r, PathOf(virt)[..3]) && Inv(s)
    requires NodeAt(s.mem, r, PathOf(virt)[..3]) == Some(t)
    ensures Lookup(SetEntry(s.mem, t, PathOf(virt)[3], e), root, v) ==
            if root == r && PathOf(v) == PathOf(virt) then LeafOf(s.mem, root, PathOf(v), e)
            else Lookup(s.mem, root, v)
  {
    var p, i := PathOf(virt)[..3], PathOf(virt)[3];
    var path, m := PathOf(v), SetEntry(s.mem, t, i, e);
    assert PathOf(virt) == p + [i];
    forall k | 0 <= k < 3
      ensures EntryAt(m, root, path, k) == EntryAt(s.mem, root, path, k)
    {
      EntryElsewhere(s, m, r, p, t, i, root, path, k);
    }
    if root == r && path == PathOf(virt) {
      WrittenNode(s, m, r, p, t, i);
      assert EntryAt(m, root, path, 3) == e;
    } else {
      EntryElsewhere(s, m, r, p, t, i, root, path, 3);
      SameEntries(s.mem, m, root, v);
    }
  }

  /** The last step of vspace_map, once the page's table is there. */
  lemma SetPageCorrect(s: State, root: nat, virt: nat, phys: nat, flags: Flags)
    requires Inv(s) && MayMap(s, root, virt) && phys in s.used && phys !in s.owner
    requires NodeAt(s.mem, root, PathOf(virt)[..3]).Some?
    requires Lookup(s.mem, root, virt).None?
    ensures var s' := SetPage(s, root, virt, phys, flags);
            && Inv(s')
            && ViewsExcept(s, s', root, PathOf(virt))
            && Lookup(s'.mem, root, virt) == Some(MappedLeaf(phys, flags))
            && s'.owner == s.owner[phys := Node(root, PathOf(virt))]
            && s'.used == s.used && s'.kernel == s.kernel && s'.spaces == s.spaces
  {
    var path := PathOf(virt);
    var t := NodeAt(s.mem, root, path[..3]).value;
    var e := LeafEntry(TableAt(s.mem, t)[path[3]], phys, flags);
    MayMapOwns(s, root, virt, 3);
    MayMapOwns(s, root, virt, 4);
    assert path[..3] + [path[3]] == path == path[..4];
    LinkKeepsInv(s, root, path[..3], t, path[3], e);
    forall r, v | OwnPage(s, r, v)
      ensures Lookup(SetPage(s, root, virt, phys, flags).mem, r, v) ==
              if r == root && PathOf(v) == path then Some(MappedLeaf(phys, flags)) else Lookup(s.mem, r, v)
    {
      LinkPageView(s, root, virt, t, phys, flags, r, v);
    }
    assert OwnPage(s, root, virt);
  }

  lemma ViewsCompose(s: State, s1: State, s2: State, root: nat, path: Path)
    requires SameViews(s, s1) && ViewsExcept(s1, s2, root, path)
    requires s1.kernel == s.kernel && s1.spaces == s.spaces
    ensures ViewsExcept(s, s2, root, path)
  {
    forall r, v | OwnPage(s, r, v) && (r != root || PathOf(v) != path)
      ensures Lookup(s2.mem, r, v) == Lookup(s.mem, r, v)
    {
      assert OwnPage(s1, r, v);
    }
  }

  lemma MapAbsent(s: State, s3: State, root: nat, virt: nat, phys: nat, flags: Flags)
    requires Inv(s) && MayMap(s, root, virt) && phys in s.used && phys !in s.owner
    requires Inv(s3) && SameViews(s, s3) && Grows(s, s3, root)
    requires NodeAt(s3.mem, root, PathOf(virt)[..3]).Some?
    requires Lookup(s.mem, root, virt).None?
    ensures var s' := SetPage(s3, root, virt, phys, flags);
      && Inv(s') && ViewsExcept(s, s', root, PathOf(virt))
      && Lookup(s'.mem, root, virt) == Some(MappedLeaf(phys, flags))
      && MapAccounts(s, s', root, phys)
  {
    assert OwnPage(s, root, virt);
    SetPageCorrect(s3, root, virt, phys, flags);
    var s' := SetPage(s3, root, virt, phys, flags);
    ViewsCompose(s, s3, s', root, PathOf(virt));
    OwnedUsed(s);
    MapCounted(s, s3, s', root, PathOf(virt), phys);
  }

  lemma MapCounted(s: State, s3: State, s': State, root: nat, path: Path, phys: nat)
    requires s.owner.Keys <= s.used && phys in s.used && phys !in s.owner && Grows(s, s3, root)
    requires s'.used == s3.used && s'.kernel == s3.kernel && s'.spaces == s3.spaces
    requires s'.owner == s3.owner[phys := Node(root, path)]
    ensures MapAccounts(s, s', root, phys)
  {
    assert s'.owner.Keys == s3.owner.Keys + {phys};
  }

  /** vspace_map adds exactly one page when it is absent and does nothing at all
      when it is present. */
  lemma MapPageCorrect(s: State, root: nat, virt: nat, phys: nat, flags: Flags)
    requires Inv(s) && MayMap(s, root, virt) && phys in s.used && phys !in s.owner
    ensures var s' := MapPage(s, root, virt, phys, flags);
      && Inv(s')
      && ViewsExcept(s, s', root, PathOf(virt))
      && match Lookup(s.mem, root, virt)
         case Some(_) => s' == s
         case None =>
           && Lookup(s'.mem, root, virt) == Some(MappedLeaf(phys, flags))
           && MapAccounts(s, s', root, phys)
  {
    EnsureTablesCorrect(s, root, virt);
    if Lookup(s.mem, root, virt).None? {
      MapAbsent(s, EnsureTables(s, root, virt), root, virt, phys, flags);
    }
  }

  /** The frames that joined the tree are the new tables, taken from the
      allocator, and the given page frame. */
  ghost predicate MapAccounts(s: State, s': State, root: nat, phys: nat) {
    && s'.kernel == s.kernel && s'.spaces == s.spaces
    && s.owner.Keys + {phys} <= s'.owner.Keys
    && (forall f | f in s.owner :: s'.owner[f] == s.owner[f])
    && (forall f | f in s'.owner && f !in s.owner :: s'.owner[f].root == root)
    && s'.used - s'.owner.Keys == s.used - s.owner.Keys - {phys}
    && s.used <= s'.used
  }

  // ---------------------------------------------------------- vspace_unmap

  /** Clearing a page entry changes the walk to that page and no other. */
  lemma UnlinkWalks(s: State, r: nat, virt: nat, t: nat, root: nat, q: Path)
    requires Inv(s) && MayMap(s, r, virt) && Walkable(s, root, q)
    requires NodeAt(s.mem, r, PathOf(virt)[..3]) == Some(t)
    ensures NodeAt(SetEntry(s.mem, t, PathOf(virt)[3], ZERO_ENTRY), root, q) ==
            if root == r && q == PathOf(virt) then None else NodeAt(s.mem, root, q)
  {
    var p, i := PathOf(virt)[..3], PathOf(virt)[3];
    var m := SetEntry(s.mem, t, i, ZERO_ENTRY);
    MayMapOwns(s, r, virt, 3);
    assert PathOf(virt) == p + [i];
    if Below(root, q, r, p, i) {
      assert q == q[..3] + [q[3]];
      WrittenNode(s, m, r, p, t, i);
    } else {
      WriteElsewhere(s, m, r, p, t, i, root, q);
    }
  }

  lemma UnmapKeepsInv(s: State, root: nat, virt: nat)
    requires Inv(s) && MayMap(s, root, virt) && Lookup(s.mem, root, virt).Some?
    ensures Inv(UnmapPage(s, root, virt))
  {
    var path := PathOf(virt);
    var t := NodeAt(s.mem, root, path[..3]).value;
    var g := TableAt(s.mem, t)[path[3]].ppn;
    var u := UnmapPage(s, root, virt);
    UnmappedFrame(s, root, virt);
    forall r, q | Owns(u, r, q)
      ensures Recorded(u, r, q)
    {
      assert Owns(s, r, q);
      OwnsWalkable(s, r, q);
      UnlinkWalks(s, root, virt, t, r, q);
      assert Recorded(s, r, q);
    }
    forall f | f in u.owner
      ensures Genuine(u, f)
    {
      assert Genuine(s, f);
      OwnsWalkable(s, s.owner[f].root, s.owner[f].path);
      UnlinkWalks(s, root, virt, t, s.owner[f].root, s.owner[f].path);
    }
    forall f, j | f in u.owner && |u.owner[f].path| < 4 && 0 <= j < 512
      ensures Open(u.owner[f].path, j, TableAt(u.mem, f)[j])
    {
      assert Open(s.owner[f].path, j, TableAt(s.mem, f)[j]);
    }
    UnmapTop(s, root, virt);
    forall j | 0 <= j < 256
      ensures !TableAt(u.mem, u.kernel)[j].present
    {
      assert !TableAt(s.mem, s.kernel)[j].present;
    }
    forall r, j | r in u.spaces && 256 <= j < 512
      ensures SharesSlot(u, r, j)
    {
      assert SharesSlot(s, r, j);
    }
  }

  /** The frame of a present page is allocated and belongs to that page alone. */
  lemma UnmappedFrame(s: State, root: nat, virt: nat)
    requires Inv(s) && MayMap(s, root, virt) && Lookup(s.mem, root, virt).Some?
    ensures var g := Lookup(s.mem, root, virt).value.ppn;
            g in s.used && g in s.owner && s.owner[g] == Node(root, PathOf(virt))
  {
    var path := PathOf(virt);
    NodeStep(s.mem, root, path[..3], path[3]);
    assert path[..3] + [path[3]] == path == path[..4];
    MayMapOwns(s, root, virt, 4);
    assert Recorded(s, root, path);
    OwnedUsed(s);
  }

  /** No PML4 changes when a page is unmapped. */
  lemma UnmapTop(s: State, root: nat, virt: nat)
    requires Inv(s) && MayMap(s, root, virt)
    ensures forall r | r == s.kernel || r in s.spaces ::
      TableAt(UnmapPage(s, root, virt).mem, r) == TableAt(s.mem, r)
  {
    MayMapOwns(s, root, virt, 3);
    assert Recorded(s, root, PathOf(virt)[..3]);
    forall r | r == s.kernel || r in s.spaces
      ensures TableAt(UnmapPage(s, root, virt).mem, r) == TableAt(s.mem, r)
    {
      RootsOwned(s, r);
    }
  }

  /** vspace_unmap removes exactly one page and frees exactly its frame. */
  lemma UnmapCorrect(s: State, root: nat, virt: nat)
    requires Inv(s) && MayMap(s, root, virt)
    ensures var s' := UnmapPage(s, root, virt);
      && Inv(s')
      && ViewsExcept(s, s', root, PathOf(virt))
      && Lookup(s'.mem, root, virt) == None
      && match Lookup(s.mem, root, virt)
         case None => s' == s
         case Some(leaf) =>
           && leaf.ppn in s.used && s'.used == s.used - {leaf.ppn}
           && leaf.ppn in s.owner && s.owner[leaf.ppn].root == root
           && s'.owner == s.owner - {leaf.ppn}
  {
    assert OwnPage(s, root, virt);
    LookupNode(s.mem, root, virt);
    if Lookup(s.mem, root, virt).Some? {
      UnmapKeepsInv(s, root, virt);
      UnmappedFrame(s, root, virt);
      MayMapOwns(s, root, virt, 3);
      var t := NodeAt(s.mem, root, PathOf(virt)[..3]).value;
      forall r, v | OwnPage(s, r, v)
        ensures Lookup(UnmapPage(s, root, virt).mem, r, v) ==
                if r == root && PathOf(v) == PathOf(virt) then None else Lookup(s.mem, r, v)
      {
        PageEntryView(s, root, virt, t, ZERO_ENTRY, r, v);
      }
    }
  }

  // --------------------------------------------------------- vspace_create

  lemma {:induction false} FreshRootEmpty(s: State, q: Path)
    requires Inv(s) && q != [] && ValidPath(q) && Lower(q)
    ensures NodeAt(CreateSpace(s).mem, Lowest(s.used), q) == None
  {
    if |q| == 1 {
      assert q[..0] == [];
    } else {
      FreshRootEmpty(s, q[..|q| - 1]);
    }
  }

  lemma CreateWalks(s: State, root: nat, q: Path)
    requires Inv(s) && Walkable(s, root, q)
    ensures NodeAt(CreateSpace(s).mem, root, q) == NodeAt(s.mem, root, q)
  {
    OwnedUsed(s);
    WriteOutside(s, CreateSpace(s).mem, root, q);
  }

  lemma CreateOpen(s: State)
    requires Inv(s)
    ensures OpenTables(CreateSpace(s))
  {
    var c := CreateSpace(s);
    OwnedUsed(s);
    RootsOwned(s, s.kernel);
    forall f, j | f in c.owner && |c.owner[f].path| < 4 && 0 <= j < 512
      ensures Open(c.owner[f].path, j, TableAt(c.mem, f)[j])
    {
      var from := if f == Lowest(s.used) then s.kernel else f;
      assert Open(s.owner[from].path, j, TableAt(s.mem, from)[j]);
    }
  }

  lemma CreateKeepsInv(s: State)
    requires Inv(s)
    ensures Inv(CreateSpace(s))
  {
    var c := CreateSpace(s);
    var g := Lowest(s.used);
    OwnedUsed(s);
    RootsOwned(s, s.kernel);
    assert g !in s.spaces by {
      if g in s.spaces { RootsOwned(s, g); }
    }
    forall root, path | Owns(c, root, path)
      ensures Recorded(c, root, path)
    {
      if root == g && path != [] {
        FreshRootEmpty(s, path);
      } else if root != g {
        assert Owns(s, root, path);
        OwnsWalkable(s, root, path);
        CreateWalks(s, root, path);
        assert Recorded(s, root, path);
      }
    }
    forall f | f in c.owner
      ensures Genuine(c, f)
    {
      if f != g {
        assert Genuine(s, f);
        OwnsWalkable(s, s.owner[f].root, s.owner[f].path);
        CreateWalks(s, s.owner[f].root, s.owner[f].path);
      }
    }
    CreateOpen(s);
    forall j | 0 <= j < 256
      ensures !TableAt(c.mem, c.kernel)[j].present
    {
      assert !TableAt(s.mem, s.kernel)[j].present;
    }
    forall r, j | r in c.spaces && 256 <= j < 512
      ensures SharesSlot(c, r, j)
    {
      if r != g {
        RootsOwned(s, r);
        assert SharesSlot(s, r, j);
      }
    }
  }

  /** A new space maps no user page, every kernel page, and disturbs no other space. */
  lemma CreateCorrect(s: State)
    requires Inv(s)
    ensures var s' := CreateSpace(s);
      var g := Lowest(s.used);
      && Inv(s') && SameViews(s, s')
      && g !in s.spaces && g != s.kernel && Frames(s', g) == {g}
      && (forall v | PathOf(v)[0] < 256 :: Lookup(s'.mem, g, v) == None)
      && (forall v | PathOf(v)[0] >= 256 :: Lookup(s'.mem, g, v) == Lookup(s'.mem, s.kernel, v))
  {
    var s' := CreateSpace(s);
    var g := Lowest(s.used);
    CreateKeepsInv(s);
    OwnedUsed(s);
    RootsOwned(s, s.kernel);
    assert g !in s.spaces by {
      if g in s.spaces { RootsOwned(s, g); }
    }
    assert forall f | f in s.owner :: s.owner[f].root != g by {
      forall f | f in s.owner ensures s.owner[f].root != g { assert Genuine(s, f); }
    }
    forall v | PathOf(v)[0] < 256
      ensures Lookup(s'.mem, g, v) == None
    {
      FreshRootEmpty(s, PathOf(v)[..3]);
    }
    forall v | PathOf(v)[0] >= 256
      ensures Lookup(s'.mem, g, v) == Lookup(s'.mem, s.kernel, v)
    {
      SharedLookup(s'.mem, g, s.kernel, v);
    }
    CreateViews(s);
  }

  lemma CreateViews(s: State)
    requires Inv(s)
    ensures SameViews(s, CreateSpace(s))
  {
    OwnedUsed(s);
    forall r, v | OwnPage(s, r, v)
      ensures Lookup(CreateSpace(s).mem, r, v) == Lookup(s.mem, r, v)
    {
      OutsideView(s, CreateSpace(s).mem, r, v);
    }
  }

  // --------------------------------------------------------- vspace_delete

  /** Deleting a space frees only frames in use and leaves every other tree whole. */
  lemma DeleteCorrect(s: State, root: nat)
    requires Inv(s) && root in s.spaces
    ensures var s' := DeleteSpace(s, root);
      && Inv(s') && Frames(s, root) <= s.used && root in Frames(s, root)
      && Frames(s, root) !! Frames(s, s.kernel)
      && s'.used - s'.owner.Keys == s.used - s.owner.Keys
  {
    var s' := DeleteSpace(s, root);
    OwnedUsed(s);
    RootsOwned(s, root);
    forall r, q | Owns(s', r, q)
      ensures Recorded(s', r, q)
    {
      assert Recorded(s, r, q);
    }
    forall f | f in s'.owner
      ensures Genuine(s', f)
    {
      assert Genuine(s, f);
    }
    forall r, j | r in s'.spaces && 256 <= j < 512
      ensures SharesSlot(s', r, j)
    {
      assert SharesSlot(s, r, j);
    }
  }
}
