/** How single steps on page tables act on every walk, and that each step keeps
    the ownership invariant. */
module PageTableProofs {
  import opened Wrappers
  import opened PageTables

  // ------------------------------------------------------------- the walk

  lemma NodeStep(mem: Memory, root: nat, path: Path, i: nat)
    ensures NodeAt(mem, root, path + [i]) ==
            match NodeAt(mem, root, path)
            case None => None
            case Some(f) => Child(mem, f, i)
  {
    assert (path + [i])[..|path|] == path;
  }

  /** A present node has present ancestors. */
  lemma {:induction false} NodePrefix(mem: Memory, root: nat, q: Path, k: nat)
    requires k <= |q| && NodeAt(mem, root, q).Some?
    ensures NodeAt(mem, root, q[..k]).Some?
  {
    if k == |q| {
      assert q[..k] == q;
    } else {
      assert q[..|q| - 1][..k] == q[..k];
      NodePrefix(mem, root, q[..|q| - 1], k);
    }
  }

  /** A walk that meets the same entries in two memories ends the same in both. */
  lemma {:induction false} SameWalk(mem: Memory, mem': Memory, root: nat, q: Path)
    requires forall k | 0 <= k < |q| ::
      var f := NodeAt(mem, root, q[..k]);
      f.Some? ==> Child(mem', f.value, q[k]) == Child(mem, f.value, q[k])
    ensures NodeAt(mem', root, q) == NodeAt(mem, root, q)
  {
    if q != [] {
      var q' := q[..|q| - 1];
      forall k | 0 <= k < |q'|
        ensures var f := NodeAt(mem, root, q'[..k]);
                f.Some? ==> Child(mem', f.value, q'[k]) == Child(mem, f.value, q'[k])
      {
        assert q'[..k] == q[..k];
      }
      SameWalk(mem, mem', root, q');
    }
  }

  /** Two roots with the same top-level entry share everything below it. */
  lemma {:induction false} SharedWalk(mem: Memory, a: nat, b: nat, q: Path)
    requires q != [] && Child(mem, a, q[0]) == Child(mem, b, q[0])
    ensures NodeAt(mem, a, q) == NodeAt(mem, b, q)
  {
    if |q| == 1 {
      assert q[..0] == [];
    } else {
      SharedWalk(mem, a, b, q[..|q| - 1]);
    }
  }

  /** So does everything the hardware finds on the way. */
  lemma SharedLookup(mem: Memory, a: nat, b: nat, v: nat)
    requires TableAt(mem, a)[PathOf(v)[0]] == TableAt(mem, b)[PathOf(v)[0]]
    ensures Lookup(mem, a, v) == Lookup(mem, b, v)
  {
    var path := PathOf(v);
    forall k | 0 < k < 4
      ensures EntryAt(mem, a, path, k) == EntryAt(mem, b, path, k)
    {
      SharedWalk(mem, a, b, path[..k]);
    }
    assert path[..0] == [];
    assert EntryAt(mem, a, path, 0) == EntryAt(mem, b, path, 0);
  }

  /** A page is mapped where its walk ends. */
  lemma LookupNode(mem: Memory, root: nat, v: nat)
    ensures match Lookup(mem, root, v)
      case None => NodeAt(mem, root, PathOf(v)) == None
      case Some(leaf) => NodeAt(mem, root, PathOf(v)) == Some(leaf.ppn)
  {
    assert PathOf(v) == PathOf(v)[..3] + [PathOf(v)[3]];
    NodeStep(mem, root, PathOf(v)[..3], PathOf(v)[3]);
  }

  lemma SameEntries(mem: Memory, mem': Memory, root: nat, v: nat)
    requires forall k | 0 <= k < 4 :: EntryAt(mem', root, PathOf(v), k) == EntryAt(mem, root, PathOf(v), k)
    ensures Lookup(mem', root, v) == Lookup(mem, root, v)
  {
  }

  // ------------------------------------------------- one entry is written

  /** The paths whose walk stays inside one space's own tables. */
  predicate Walkable(s: State, root: nat, q: Path) {
    && ValidPath(q)
    && ((root in s.spaces && Lower(q)) || (root == s.kernel && (q == [] || q[0] >= 256)))
  }

  lemma WalkableOwns(s: State, root: nat, q: Path, k: nat)
    requires Walkable(s, root, q) && k < |q|
    ensures Owns(s, root, q[..k])
  {
  }

  predicate Below(root: nat, q: Path, r: nat, p: Path, i: nat) {
    root == r && |q| > |p| && q[..|p|] == p && q[|p|] == i
  }

  /** Memories that agree on every owned table, slot i of table t apart. */
  predicate AgreeExcept(s: State, mem': Memory, t: nat, i: nat) {
    forall f, j | f in s.owner && 0 <= j < 512 && (f != t || j != i) ::
      TableAt(mem', f)[j] == TableAt(s.mem, f)[j]
  }

  /** Writing one entry of an owned table changes only the walks through that entry. */
  lemma WriteElsewhere(s: State, mem': Memory, r: nat, p: Path, t: nat, i: nat, root: nat, q: Path)
    requires Inv(s) && Owns(s, r, p) && NodeAt(s.mem, r, p) == Some(t)
    requires AgreeExcept(s, mem', t, i)
    requires Walkable(s, root, q) && !Below(root, q, r, p, i)
    ensures NodeAt(mem', root, q) == NodeAt(s.mem, root, q)
  {
    forall k | 0 <= k < |q| && NodeAt(s.mem, root, q[..k]).Some?
      ensures Child(mem', NodeAt(s.mem, root, q[..k]).value, q[k])
           == Child(s.mem, NodeAt(s.mem, root, q[..k]).value, q[k])
    {
      WalkableOwns(s, root, q, k);
      assert Recorded(s, root, q[..k]);
      assert Recorded(s, r, p);
    }
    SameWalk(s.mem, mem', root, q);
  }

  /** As above for memories that agree on every owned table. */
  lemma WriteOutside(s: State, mem': Memory, root: nat, q: Path)
    requires Inv(s)
    requires forall f | f in s.owner :: TableAt(mem', f) == TableAt(s.mem, f)
    requires Walkable(s, root, q)
    ensures NodeAt(mem', root, q) == NodeAt(s.mem, root, q)
  {
    forall k | 0 <= k < |q| && NodeAt(s.mem, root, q[..k]).Some?
      ensures Child(mem', NodeAt(s.mem, root, q[..k]).value, q[k])
           == Child(s.mem, NodeAt(s.mem, root, q[..k]).value, q[k])
    {
      WalkableOwns(s, root, q, k);
      assert Recorded(s, root, q[..k]);
    }
    SameWalk(s.mem, mem', root, q);
  }

  // ------------------------------------------------------------ alloc_page

  lemma OwnsWalkable(s: State, root: nat, q: Path)
    requires Owns(s, root, q)
    ensures Walkable(s, root, q)
  {
  }

  lemma OwnedUsed(s: State)
    requires Inv(s)
    ensures s.owner.Keys <= s.used
  {
    forall f | f in s.owner
      ensures f in s.used
    {
      assert Genuine(s, f);
    }
  }

  lemma RootsOwned(s: State, r: nat)
    requires Inv(s) && (r == s.kernel || r in s.spaces)
    ensures r in s.owner && s.owner[r] == Node(r, []) && r in s.used
  {
    assert Owns(s, r, []);
    assert Recorded(s, r, []);
    assert Genuine(s, r);
  }

  /** Taking a frame leaves every walk alone. */
  lemma AllocKeepsInv(s: State)
    requires Inv(s)
    ensures Inv(Alloc(s))
    ensures forall root, q | Walkable(s, root, q) ::
      NodeAt(Alloc(s).mem, root, q) == NodeAt(s.mem, root, q)
    ensures forall f | f in s.owner :: TableAt(Alloc(s).mem, f) == TableAt(s.mem, f)
  {
    var a := Alloc(s);
    forall f | f in s.owner
      ensures TableAt(a.mem, f) == TableAt(s.mem, f)
    {
      assert Genuine(s, f);
    }
    forall root, q | Walkable(s, root, q)
      ensures NodeAt(a.mem, root, q) == NodeAt(s.mem, root, q)
    {
      WriteOutside(s, a.mem, root, q);
    }
    forall root, path | Owns(a, root, path)
      ensures Recorded(a, root, path)
    {
      assert Owns(s, root, path);
      OwnsWalkable(s, root, path);
      assert Recorded(s, root, path);
    }
    forall f | f in a.owner
      ensures Genuine(a, f)
    {
      assert Genuine(s, f);
      OwnsWalkable(s, s.owner[f].root, s.owner[f].path);
    }
    RootsOwned(s, s.kernel);
    forall r, i | r in a.spaces && 256 <= i < 512
      ensures SharesSlot(a, r, i)
    {
      RootsOwned(s, r);
      assert SharesSlot(s, r, i);
    }
  }

  // ------------------------------------------------- a frame joins a tree

  /** What linking frame g below table t needs: the slot is free, the frame is
      allocated but serves nothing yet, and a new table is clear. */
  ghost predicate CanLink(s: State, r: nat, p: Path, t: nat, i: nat, e: Entry) {
    && Inv(s)
    && |p| <= 3 && i < 512 && Owns(s, r, p + [i]) && Owns(s, r, p)
    && NodeAt(s.mem, r, p) == Some(t)
    && Child(s.mem, t, i) == None
    && e.present && e.ppn in s.used && e.ppn !in s.owner && Open(p, i, e)
    && (|p| < 3 ==> TableAt(s.mem, e.ppn) == ZeroTable())
  }

  /** Nothing present lies below an absent entry. */
  lemma AbsentBelow(mem: Memory, r: nat, p: Path, t: nat, i: nat, root: nat, q: Path)
    requires NodeAt(mem, r, p) == Some(t) && Child(mem, t, i) == None
    requires Below(root, q, r, p, i)
    ensures NodeAt(mem, root, q) == None
  {
    if NodeAt(mem, root, q).Some? {
      NodePrefix(mem, root, q, |p| + 1);
      assert q[..|p| + 1] == p + [i];
      NodeStep(mem, r, p, i);
    }
  }

  /** The node an entry of an owned table leads to once that entry is written. */
  lemma WrittenNode(s: State, mem': Memory, r: nat, p: Path, t: nat, i: nat)
    requires Inv(s) && Owns(s, r, p) && NodeAt(s.mem, r, p) == Some(t)
    requires AgreeExcept(s, mem', t, i)
    ensures NodeAt(mem', r, p) == Some(t)
    ensures NodeAt(mem', r, p + [i]) == Child(mem', t, i)
  {
    OwnsWalkable(s, r, p);
    WriteElsewhere(s, mem', r, p, t, i, r, p);
    NodeStep(mem', r, p, i);
  }

  /** Nothing lies below a clear table. */
  lemma BelowNew(m: Memory, r: nat, p: Path, i: nat, g: nat, q: Path)
    requires NodeAt(m, r, p + [i]) == Some(g) && TableAt(m, g) == ZeroTable()
    requires Below(r, q, r, p, i) && |q| > |p| + 1
    ensures NodeAt(m, r, q) == None
  {
    assert p + [i] + [q[|p| + 1]] == q[..|p| + 2];
    NodeStep(m, r, p + [i], q[|p| + 1]);
    if NodeAt(m, r, q).Some? {
      NodePrefix(m, r, q, |p| + 2);
    }
  }

  /** Walks that do not pass the new entry are as before, the new node is the
      linked frame, and below a new table there is nothing. */
  lemma {:induction false} LinkWalks(s: State, r: nat, p: Path, t: nat, i: nat, e: Entry, root: nat, q: Path)
    requires CanLink(s, r, p, t, i, e) && Walkable(s, root, q)
    ensures var m := Link(s, t, i, e, Node(r, p + [i])).mem;
            NodeAt(m, root, q) ==
              if !Below(root, q, r, p, i) then NodeAt(s.mem, root, q)
              else if |q| == |p| + 1 then Some(e.ppn)
              else None
  {
    var m := Link(s, t, i, e, Node(r, p + [i])).mem;
    assert AgreeExcept(s, m, t, i);
    if !Below(root, q, r, p, i) {
      WriteElsewhere(s, m, r, p, t, i, root, q);
    } else {
      WrittenNode(s, m, r, p, t, i);
      if |q| == |p| + 1 {
        assert q == p + [i];
      } else {
        assert TableAt(m, e.ppn) == ZeroTable() by {
          assert Recorded(s, r, p);
        }
        BelowNew(m, r, p, i, e.ppn, q);
      }
    }
  }

  lemma LinkKeepsInv(s: State, r: nat, p: Path, t: nat, i: nat, e: Entry)
    requires CanLink(s, r, p, t, i, e)
    ensures Inv(Link(s, t, i, e, Node(r, p + [i])))
  {
    var l := Link(s, t, i, e, Node(r, p + [i]));
    forall root, path | Owns(l, root, path)
      ensures Recorded(l, root, path)
    {
      assert Owns(s, root, path);
      OwnsWalkable(s, root, path);
      LinkWalks(s, r, p, t, i, e, root, path);
      assert Recorded(s, root, path);
      if Below(root, path, r, p, i) && |path| == |p| + 1 {
        assert path == path[..|p|] + [path[|p|]];
      }
    }
    forall f | f in l.owner
      ensures Genuine(l, f)
    {
      LinkGenuine(s, r, p, t, i, e, f);
    }
    LinkSlots(s, r, p, t, i, e);
    LinkOpen(s, r, p, t, i, e);
  }

  /** Linking keeps the tables open. */
  lemma LinkOpen(s: State, r: nat, p: Path, t: nat, i: nat, e: Entry)
    requires CanLink(s, r, p, t, i, e)
    ensures OpenTables(Link(s, t, i, e, Node(r, p + [i])))
  {
    var l := Link(s, t, i, e, Node(r, p + [i]));
    assert Recorded(s, r, p);
    forall f, j | f in l.owner && |l.owner[f].path| < 4 && 0 <= j < 512
      ensures Open(l.owner[f].path, j, TableAt(l.mem, f)[j])
    {
      if f != e.ppn {
        assert Open(s.owner[f].path, j, TableAt(s.mem, f)[j]);
      } else {
        assert TableAt(s.mem, f) == ZeroTable();
      }
    }
  }

  /** Linking keeps the kernel's lower half empty and the shared slots shared. */
  lemma LinkSlots(s: State, r: nat, p: Path, t: nat, i: nat, e: Entry)
    requires CanLink(s, r, p, t, i, e)
    ensures var l := Link(s, t, i, e, Node(r, p + [i]));
      && (forall j | 0 <= j < 256 :: !TableAt(l.mem, l.kernel)[j].present)
      && (forall r', j | r' in l.spaces && 256 <= j < 512 :: SharesSlot(l, r', j))
  {
    var l := Link(s, t, i, e, Node(r, p + [i]));
    RootsOwned(s, s.kernel);
    assert t == s.kernel ==> i >= 256 by {
      assert Recorded(s, r, p);
      assert (p + [i])[0] == if p == [] then i else p[0];
    }
    forall j | 0 <= j < 256
      ensures !TableAt(l.mem, l.kernel)[j].present
    {
      assert !TableAt(s.mem, s.kernel)[j].present;
    }
    forall r', j | r' in l.spaces && 256 <= j < 512
      ensures SharesSlot(l, r', j)
    {
      LinkShares(s, r, p, t, i, e, r', j);
    }
  }

  lemma LinkShares(s: State, r: nat, p: Path, t: nat, i: nat, e: Entry, r': nat, j: nat)
    requires CanLink(s, r, p, t, i, e) && r' in s.spaces && 256 <= j < 512
    ensures SharesSlot(Link(s, t, i, e, Node(r, p + [i])), r', j)
  {
    RootsOwned(s, s.kernel);
    RootsOwned(s, r');
    assert Recorded(s, r, p);
    assert (p + [i])[0] == if p == [] then i else p[0];
    assert SharesSlot(s, r', j);
  }

  lemma LinkGenuine(s: State, r: nat, p: Path, t: nat, i: nat, e: Entry, f: nat)
    requires CanLink(s, r, p, t, i, e)
    requires f in s.owner || f == e.ppn
    ensures Genuine(Link(s, t, i, e, Node(r, p + [i])), f)
  {
    if f == e.ppn {
      OwnsWalkable(s, r, p + [i]);
      LinkWalks(s, r, p, t, i, e, r, p + [i]);
    } else {
      assert Genuine(s, f);
      var n := s.owner[f];
      OwnsWalkable(s, n.root, n.path);
      LinkWalks(s, r, p, t, i, e, n.root, n.path);
      if Below(n.root, n.path, r, p, i) {
        AbsentBelow(s.mem, r, p, t, i, n.root, n.path);
      }
    }
  }
}
