/** The boot page tables: id_map fills them with four running indices, paging_init
    mirrors them into the kernel half and vspace_setup clears the lower half. */
module IdentityMap {
  import opened Wrappers
  import opened PageTables
  import opened PageTableProofs
  import opened FrameAllocator

  /** An entry as boot code writes it: present and writable. */
  function BootEntry(p: nat): Entry {
    Entry(true, true, false, false, p)
  }

  // -------------------------------------------------- the tree being built

  /** The tables that serve the first GiB.  The second directory appears when the
      directory index reaches 511, one table early. */
  datatype Tree = Tree(root: nat, pdpt: nat, pdir: nat, pdir1: Option<nat>, ptbls: seq<nat>)

  predicate IsTop(tr: Tree, f: nat) {
    f == tr.root || f == tr.pdpt || f == tr.pdir || tr.pdir1 == Some(f)
  }

  predicate Distinct(tr: Tree) {
    && tr.root != tr.pdpt && tr.root != tr.pdir && tr.pdpt != tr.pdir
    && tr.pdir1 != Some(tr.root) && tr.pdir1 != Some(tr.pdpt) && tr.pdir1 != Some(tr.pdir)
    && (forall j | 0 <= j < |tr.ptbls| :: !IsTop(tr, tr.ptbls[j]))
    && (forall i, j | 0 <= i < j < |tr.ptbls| :: tr.ptbls[i] != tr.ptbls[j])
  }

  function RootTable(tr: Tree): Table {
    ZeroTable()[0 := BootEntry(tr.pdpt)]
  }

  function PdptTable(tr: Tree): Table {
    var t := ZeroTable()[0 := BootEntry(tr.pdir)];
    if tr.pdir1.Some? then t[1 := BootEntry(tr.pdir1.value)] else t
  }

  function PdirTable(tr: Tree): Table {
    seq(512, j requires 0 <= j < 512 => if j < |tr.ptbls| then BootEntry(tr.ptbls[j]) else ZERO_ENTRY)
  }

  function Pdir1Table(tr: Tree): Table {
    if |tr.ptbls| > 512 then ZeroTable()[1 := BootEntry(tr.ptbls[512])] else ZeroTable()
  }

  /** Table j once the first m pages are mapped. */
  function PtblTable(j: nat, m: nat): Table {
    seq(512, i requires 0 <= i < 512 => PtblEntry(j, i, m))
  }

  function PtblEntry(j: nat, i: nat, m: nat): Entry {
    if j < 512 && 512 * j + i < m then BootEntry(512 * j + i) else ZERO_ENTRY
  }

  /** Memory holds the tree with the first m pages mapped, root table apart. */
  ghost predicate Trunk(mem: Memory, tr: Tree, m: nat) {
    && Distinct(tr) && m <= 262144 && 1 <= |tr.ptbls| <= 513 && m <= 512 * |tr.ptbls|
    && TableAt(mem, tr.pdpt) == PdptTable(tr)
    && TableAt(mem, tr.pdir) == PdirTable(tr)
    && (tr.pdir1.Some? ==> TableAt(mem, tr.pdir1.value) == Pdir1Table(tr))
    && (|tr.ptbls| > 512 ==> tr.pdir1.Some?)
    && forall j | 0 <= j < |tr.ptbls| :: TableAt(mem, tr.ptbls[j]) == PtblTable(j, m)
  }

  ghost predicate Holds(mem: Memory, tr: Tree, m: nat) {
    Trunk(mem, tr, m) && TableAt(mem, tr.root) == RootTable(tr)
  }

  /** What vspace_setup leaves: the tree hangs from slot 256 alone. */
  ghost predicate Booted(mem: Memory, tr: Tree, m: nat) {
    Trunk(mem, tr, m) && TableAt(mem, tr.root) == ZeroTable()[256 := BootEntry(tr.pdpt)]
  }

  predicate IsNew(tr: Tree, g: nat) {
    !IsTop(tr, g) && g !in tr.ptbls
  }

  lemma AddPage(mem: Memory, tr: Tree, m: nat, j: nat)
    requires Holds(mem, tr, m) && j < |tr.ptbls| && j < 512 && 512 * j <= m < 512 * j + 512
    ensures Holds(SetEntry(mem, tr.ptbls[j], m - 512 * j, BootEntry(m)), tr, m + 1)
  {
    var mem' := SetEntry(mem, tr.ptbls[j], m - 512 * j, BootEntry(m));
    forall k | 0 <= k < |tr.ptbls|
      ensures TableAt(mem', tr.ptbls[k]) == PtblTable(k, m + 1)
    {
      if k == j {
        assert PtblTable(j, m)[m - 512 * j := BootEntry(m)] == PtblTable(j, m + 1);
      } else {
        assert PtblTable(k, m) == PtblTable(k, m + 1);
      }
    }
  }

  lemma AddPtbl(mem: Memory, tr: Tree, m: nat, g: nat)
    requires Holds(mem, tr, m) && IsNew(tr, g) && |tr.ptbls| < 512
    requires m <= 512 * |tr.ptbls|
    ensures Holds(SetEntry(mem[g := ZeroTable()], tr.pdir, |tr.ptbls|, BootEntry(g)), tr.(ptbls := tr.ptbls + [g]), m)
  {
    var n := |tr.ptbls|;
    var tr' := tr.(ptbls := tr.ptbls + [g]);
    assert PdirTable(tr)[n := BootEntry(g)] == PdirTable(tr');
    assert ZeroTable() == PtblTable(n, m);
    var mem' := SetEntry(mem[g := ZeroTable()], tr.pdir, n, BootEntry(g));
    forall k | 0 <= k < |tr'.ptbls|
      ensures TableAt(mem', tr'.ptbls[k]) == PtblTable(k, m)
    {
    }
  }

  lemma AddPdir(mem: Memory, tr: Tree, m: nat, g: nat)
    requires Holds(mem, tr, m) && IsNew(tr, g) && tr.pdir1.None?
    ensures Holds(SetEntry(mem[g := ZeroTable()], tr.pdpt, 1, BootEntry(g)), tr.(pdir1 := Some(g)), m)
  {
    assert PdptTable(tr)[1 := BootEntry(g)] == PdptTable(tr.(pdir1 := Some(g)));
  }

  /** The table after the 512th lands in slot 1 of the second directory. */
  lemma AddLast(mem: Memory, tr: Tree, m: nat, g: nat)
    requires Holds(mem, tr, m) && IsNew(tr, g) && |tr.ptbls| == 512 && tr.pdir1.Some?
    ensures Holds(SetEntry(mem[g := ZeroTable()], tr.pdir1.value, 1, BootEntry(g)), tr.(ptbls := tr.ptbls + [g]), m)
  {
    var tr' := tr.(ptbls := tr.ptbls + [g]);
    assert PdirTable(tr) == PdirTable(tr');
    assert ZeroTable() == PtblTable(512, m);
    var mem' := SetEntry(mem[g := ZeroTable()], tr.pdir1.value, 1, BootEntry(g));
    forall k | 0 <= k < |tr'.ptbls|
      ensures TableAt(mem', tr'.ptbls[k]) == PtblTable(k, m)
    {
    }
  }

  // ------------------------------------------------ walks in the finished map

  lemma BootNode1(mem: Memory, tr: Tree, m: nat, a: nat)
    requires Booted(mem, tr, m) && a < 512
    ensures NodeAt(mem, tr.root, [a]) == if a == 256 then Some(tr.pdpt) else None
  {
    NodeStep(mem, tr.root, [], a);
    assert [] + [a] == [a];
  }

  lemma BootNode2(mem: Memory, tr: Tree, m: nat, a: nat, b: nat)
    requires Booted(mem, tr, m) && a < 512 && b < 512
    ensures NodeAt(mem, tr.root, [a, b]) ==
      if a != 256 then None else if b == 0 then Some(tr.pdir) else if b == 1 then tr.pdir1 else None
  {
    BootNode1(mem, tr, m, a);
    NodeStep(mem, tr.root, [a], b);
    assert [a] + [b] == [a, b];
  }

  lemma BootNode3(mem: Memory, tr: Tree, m: nat, a: nat, b: nat, c: nat)
    requires Booted(mem, tr, m) && a < 512 && b < 512 && c < 512
    ensures NodeAt(mem, tr.root, [a, b, c]) ==
      if a == 256 && b == 0 && c < |tr.ptbls| then Some(tr.ptbls[c])
      else if a == 256 && b == 1 && c == 1 && |tr.ptbls| == 513 then Some(tr.ptbls[512])
      else None
  {
    BootNode2(mem, tr, m, a, b);
    NodeStep(mem, tr.root, [a, b], c);
    assert [a, b] + [c] == [a, b, c];
  }

  /** Every walk in the finished map: page p of the window yields frame p when p is
      below m, and nothing else is mapped. */
  lemma BootLookup(mem: Memory, tr: Tree, m: nat, virt: nat)
    requires Booted(mem, tr, m)
    ensures var p := PathOf(virt);
      Lookup(mem, tr.root, virt) ==
        if p[0] == 256 && p[1] == 0 && 512 * p[2] + p[3] < m
        then Some(Leaf(512 * p[2] + p[3], true, false, false)) else None
  {
    var p := PathOf(virt);
    BootNode1(mem, tr, m, p[0]);
    BootNode2(mem, tr, m, p[0], p[1]);
    BootNode3(mem, tr, m, p[0], p[1], p[2]);
    assert p[..0] == [] && p[..1] == [p[0]] && p[..2] == [p[0], p[1]] && p[..3] == [p[0], p[1], p[2]];
    if p[0] == 256 && p[1] == 0 && p[2] < |tr.ptbls| {
      assert EntryAt(mem, tr.root, p, 0) == BootEntry(tr.pdpt);
      assert EntryAt(mem, tr.root, p, 1) == BootEntry(tr.pdir);
      assert EntryAt(mem, tr.root, p, 2) == BootEntry(tr.ptbls[p[2]]);
      assert EntryAt(mem, tr.root, p, 3) == PtblEntry(p[2], p[3], m);
    }
  }

  // -------------------------------------------- the invariant at the start

  function IndexOf(s: seq<nat>, f: nat): (j: nat)
    requires f in s
    ensures j < |s| && s[j] == f
  {
    if s[0] == f then 0 else 1 + IndexOf(s[1..], f)
  }

  function Place(tr: Tree, f: nat): Path
    requires IsTop(tr, f) || f in tr.ptbls
  {
    if f == tr.root then []
    else if f == tr.pdpt then [256]
    else if f == tr.pdir then [256, 0]
    else if tr.pdir1 == Some(f) then [256, 1]
    else if IndexOf(tr.ptbls, f) < 512 then [256, 0, IndexOf(tr.ptbls, f)]
    else [256, 1, 1]
  }

  function TreeFrames(tr: Tree): set<nat> {
    {tr.root, tr.pdpt, tr.pdir} + (if tr.pdir1.Some? then {tr.pdir1.value} else {}) + set f | f in tr.ptbls
  }

  function Owners(tr: Tree): map<nat, Node> {
    map f | f in TreeFrames(tr) :: Node(tr.root, Place(tr, f))
  }

  function BootState(mem: Memory, used: set<nat>, tr: Tree): State {
    State(mem, used, tr.root, {}, Owners(tr))
  }

  lemma PtblPlace(tr: Tree, j: nat)
    requires Distinct(tr) && j < |tr.ptbls| <= 513
    ensures tr.ptbls[j] in TreeFrames(tr)
    ensures Place(tr, tr.ptbls[j]) == if j < 512 then [256, 0, j] else [256, 1, 1]
  {
    var f := tr.ptbls[j];
    var i := IndexOf(tr.ptbls, f);
    assert i == j;
  }

  /** The boot tables satisfy the invariant of the virtual memory layer. */
  lemma BootInv(mem: Memory, used: set<nat>, tr: Tree, m: nat)
    requires Booted(mem, tr, m) && TreeFrames(tr) <= used
    ensures Inv(BootState(mem, used, tr))
  {
    var s := BootState(mem, used, tr);
    forall root, path | Owns(s, root, path)
      ensures Recorded(s, root, path)
    {
      BootRecorded(mem, used, tr, m, path);
    }
    forall f | f in s.owner
      ensures Genuine(s, f)
    {
      BootGenuine(mem, used, tr, m, f);
    }
    BootOpen(mem, used, tr, m);
  }

  lemma BootOpen(mem: Memory, used: set<nat>, tr: Tree, m: nat)
    requires Booted(mem, tr, m)
    ensures OpenTables(BootState(mem, used, tr))
  {
    forall f, i | f in TreeFrames(tr) && 0 <= i < 512
      ensures Open(Place(tr, f), i, TableAt(mem, f)[i])
    {
      if !IsTop(tr, f) { BootPtblOpen(mem, tr, m, f, i); }
    }
  }

  lemma BootPtblOpen(mem: Memory, tr: Tree, m: nat, f: nat, i: nat)
    requires Booted(mem, tr, m) && f in tr.ptbls && !IsTop(tr, f) && i < 512
    ensures Open(Place(tr, f), i, TableAt(mem, f)[i])
  {
    var j := IndexOf(tr.ptbls, f);
    assert TableAt(mem, f)[i] == PtblEntry(j, i, m);
  }

  lemma BootRecorded(mem: Memory, used: set<nat>, tr: Tree, m: nat, path: Path)
    requires Booted(mem, tr, m) && Owns(BootState(mem, used, tr), tr.root, path)
    ensures Recorded(BootState(mem, used, tr), tr.root, path)
  {
    if |path| == 1 {
      assert path == [path[0]];
      BootNode1(mem, tr, m, path[0]);
    } else if |path| == 2 {
      assert path == [path[0], path[1]];
      BootNode2(mem, tr, m, path[0], path[1]);
    } else if |path| == 3 {
      assert path == [path[0], path[1], path[2]];
      BootNode3(mem, tr, m, path[0], path[1], path[2]);
      if path[0] == 256 && path[1] == 0 && path[2] < |tr.ptbls| {
        PtblPlace(tr, path[2]);
      } else if |tr.ptbls| == 513 {
        PtblPlace(tr, 512);
      }
    } else if |path| == 4 {
      AbsentBelow(mem, tr.root, [], tr.root, path[0], tr.root, path);
    }
  }

  lemma BootGenuine(mem: Memory, used: set<nat>, tr: Tree, m: nat, f: nat)
    requires Booted(mem, tr, m) && TreeFrames(tr) <= used && f in TreeFrames(tr)
    ensures Genuine(BootState(mem, used, tr), f)
  {
    if f == tr.root || f == tr.pdpt {
      BootNode1(mem, tr, m, 256);
    } else if IsTop(tr, f) {
      BootNode2(mem, tr, m, 256, 0);
      BootNode2(mem, tr, m, 256, 1);
    } else {
      var j := IndexOf(tr.ptbls, f);
      PtblPlace(tr, j);
      if j < 512 { BootNode3(mem, tr, m, 256, 0, j); } else { BootNode3(mem, tr, m, 256, 1, 1); }
    }
  }

  // ------------------------------------------------------ past the first GiB

  /** The slot page 262144 needs is skipped: its directory has no first entry. */
  predicate Skipped(mem: Memory, tr: Tree) {
    && tr.pdir1.Some?
    && tr.root != tr.pdpt && tr.pdir1 != Some(tr.root) && tr.pdir1 != Some(tr.pdpt)
    && TableAt(mem, tr.pdpt)[1] == BootEntry(tr.pdir1.value)
    && !TableAt(mem, tr.pdir1.value)[0].present
  }

  predicate StillSkipped(mem: Memory, tr: Tree) {
    Skipped(mem, tr) && TableAt(mem, tr.root)[0] == BootEntry(tr.pdpt)
  }

  /** Where the running pointers stand. */
  datatype Cursor = Cursor(pml4i: nat, pdpti: nat, pdiri: nat, ptbli: nat, pdpt: nat, pdir: nat, ptbl: nat)

  /** Below 1 GiB: t tables are full and the pointers follow the tree. */
  predicate OnTree(tr: Tree, c: Cursor, m: nat, t: nat) {
    && m == 512 * t + c.ptbli && c.ptbli < 512 && t <= 512 && |tr.ptbls| == t + 1
    && c.ptbl == tr.ptbls[t] && c.pdpt == tr.pdpt && c.pml4i == 0
    && (t < 511 ==> tr.pdir1.None? && c.pdir == tr.pdir && c.pdiri == t && c.pdpti == 0)
    && (t >= 511 ==> tr.pdir1 == Some(c.pdir) && c.pdiri == t - 511 && c.pdpti == 1)
  }

  /** Beyond: no later write can reach the skipped slot. */
  predicate PastTree(tr: Tree, c: Cursor) {
    && tr.pdir1.Some?
    && c.ptbl != tr.root && c.ptbl != tr.pdpt && c.ptbl != tr.pdir1.value
    && c.pdir != tr.root && c.pdir != tr.pdpt
    && c.pdpt != tr.root && c.pdpt != tr.pdir1.value && (c.pdpt == tr.pdpt ==> c.pdpti >= 1)
  }

  ghost predicate Progress(mem: Memory, used: set<nat>, tr: Tree, c: Cursor, m: nat, t: nat) {
    && (m <= 262144 ==> Holds(mem, tr, m) && OnTree(tr, c, m, t) && TreeFrames(tr) <= used)
    && (m >= 262144 ==> StillSkipped(mem, tr) && PastTree(tr, c)
                        && tr.root in used && tr.pdpt in used && tr.pdir1.value in used)
  }

  /** How far the indices have counted: t full tables, d full directories. */
  predicate Counts(c: Cursor, m: nat, t: nat, d: nat) {
    && m == 512 * t + c.ptbli && c.ptbli < 512
    && t == 511 * d + c.pdiri && c.pdiri < 511
    && d == 511 * c.pml4i + c.pdpti && c.pdpti < 511
  }

  /** The same with the directory index possibly at its limit. */
  predicate MidCounts(c: Cursor, m: nat, t: nat, d: nat) {
    && m == 512 * t + c.ptbli && c.ptbli < 512
    && t == 511 * d + c.pdiri && c.pdiri <= 511
    && d == 511 * c.pml4i + c.pdpti && c.pdpti < 511
  }

  /** Memory with a new cleared table behind slot i of table `parent`. */
  function WithTable(mem: Memory, used: set<nat>, parent: nat, i: nat): Memory
    requires i < 512
  {
    SetEntry(mem[Lowest(used) := ZeroTable()], parent, i, BootEntry(Lowest(used)))
  }

  // ------------------------------------------------------ frames at boot time

  /** Boot code computes the address of a frame in 32 bits. */
  const LOW: nat := 0x10_0000

  /** Frames enough for n more, with no more in use in the end than have such an address. */
  ghost predicate BootRoom(frames: PageAllocator, n: nat)
    reads frames.freePages.bytes
  {
    frames.Room(n) && |frames.Used()| + n <= LOW
  }

  /** There is a free frame no higher than the number of frames in use. */
  lemma LowestIsLow(used: set<nat>)
    ensures Lowest(used) <= |used|
  {
    SubsetSize(FrameAllocator.Below(Lowest(used)), used);
  }

  lemma {:induction false} SubsetSize(a: set<nat>, b: set<nat>)
    requires a <= b
    ensures |a| <= |b|
    decreases a
  {
    if a != {} {
      var x :| x in a;
      SubsetSize(a - {x}, b - {x});
    }
  }

  /** alloc_page and the shift to an address, which leads to the frame because it is low. */
  method BootFrame(frames: PageAllocator) returns (g: nat)
    requires frames.Valid() && BootRoom(frames, 1)
    modifies frames, frames.freePages.bytes
    ensures frames.Valid() && g == Lowest(old(frames.Used()))
    ensures frames.Used() == old(frames.Used()) + {g} && |frames.Used()| == |old(frames.Used())| + 1
    ensures frames.mem == old(frames.mem)[g := ZeroTable()]
  {
    LowestIsLow(frames.Used());
    LowAddress(Lowest(frames.Used()));
    var ppn := frames.AllocPage();
    g := ppn % LOW;
  }

  lemma LowAddress(ppn: nat)
    requires ppn < LOW
    ensures ppn % LOW == ppn
  {
  }

  /** A new cleared table behind slot i of table `parent`. */
  method NewTable(frames: PageAllocator, parent: nat, i: nat) returns (g: nat)
    requires frames.Valid() && BootRoom(frames, 1) && i < 512
    modifies frames, frames.freePages.bytes
    ensures frames.Valid() && g == Lowest(old(frames.Used()))
    ensures frames.Used() == old(frames.Used()) + {g} && |frames.Used()| == |old(frames.Used())| + 1
    ensures frames.mem == WithTable(old(frames.mem), old(frames.Used()), parent, i)
  {
    g := BootFrame(frames);
    frames.mem := SetEntry(frames.mem, parent, i, BootEntry(g));
  }

  /** The page entry written at the head of the loop body.  Physical addresses are
      computed in 32 bits. */
  lemma WritePage(mem: Memory, used: set<nat>, tr: Tree, c: Cursor, m: nat, t: nat)
    requires Progress(mem, used, tr, c, m, t) && c.ptbli < 512
    ensures var mem' := SetEntry(mem, c.ptbl, c.ptbli, BootEntry(m % 0x100000));
      && (m < 262144 ==> Holds(mem', tr, m + 1))
      && (m >= 262144 ==> StillSkipped(mem', tr))
  {
    if m < 262144 {
      AddPage(mem, tr, m, t);
    }
  }

  /** Between the table carry and the directory carry: the 512th table is in place
      but the second directory is not there yet. */
  ghost predicate Between(mem: Memory, used: set<nat>, tr: Tree, c: Cursor, m: nat, t: nat) {
    if t == 511 && c.pdiri == 511 then
      && Holds(mem, tr, m) && TreeFrames(tr) <= used
      && m == 512 * t + c.ptbli && c.ptbli < 512 && |tr.ptbls| == 512
      && c.ptbl == tr.ptbls[511] && c.pdpt == tr.pdpt && c.pml4i == 0
      && tr.pdir1.None? && c.pdir == tr.pdir && c.pdpti == 0
    else
      Progress(mem, used, tr, c, m, t)
  }

  lemma CarryPtblGood(mem: Memory, used: set<nat>, tr: Tree, c: Cursor, m: nat, t: nat)
    requires m == 512 * (t + 1) <= 262144 && c.ptbli == 511
    requires Holds(mem, tr, m) && OnTree(tr, c, m - 1, t) && TreeFrames(tr) <= used
    ensures var g := Lowest(used);
      var tr' := tr.(ptbls := tr.ptbls + [g]);
      Between(SetEntry(mem[g := ZeroTable()], c.pdir, c.pdiri + 1, BootEntry(g)), used + {g}, tr',
              c.(ptbli := 0, pdiri := c.pdiri + 1, ptbl := g), m, t + 1)
  {
    var g := Lowest(used);
    assert IsNew(tr, g);
    if t < 511 {
      AddPtbl(mem, tr, m, g);
    } else {
      AddLast(mem, tr, m, g);
    }
  }

  lemma CarryPtblPast(mem: Memory, used: set<nat>, tr: Tree, c: Cursor)
    requires StillSkipped(mem, tr) && PastTree(tr, c) && c.pdiri < 511
    requires tr.root in used && tr.pdpt in used && tr.pdir1.value in used
    ensures var g := Lowest(used);
      && StillSkipped(SetEntry(mem[g := ZeroTable()], c.pdir, c.pdiri + 1, BootEntry(g)), tr)
      && PastTree(tr, c.(ptbli := 0, pdiri := c.pdiri + 1, ptbl := g))
  {
  }

  lemma CarryPdirGood(mem: Memory, used: set<nat>, tr: Tree, c: Cursor, m: nat)
    requires Between(mem, used, tr, c, m, 511) && c.pdiri == 511
    ensures var g := Lowest(used);
      Progress(SetEntry(mem[g := ZeroTable()], c.pdpt, c.pdpti + 1, BootEntry(g)), used + {g},
               tr.(pdir1 := Some(g)), c.(pdiri := 0, pdpti := c.pdpti + 1, pdir := g), m, 511)
  {
    var g := Lowest(used);
    assert IsNew(tr, g);
    AddPdir(mem, tr, m, g);
  }

  lemma CarryPdirPast(mem: Memory, used: set<nat>, tr: Tree, c: Cursor)
    requires StillSkipped(mem, tr) && PastTree(tr, c) && c.pdpti < 511
    requires tr.root in used && tr.pdpt in used && tr.pdir1.value in used
    ensures var g := Lowest(used);
      && StillSkipped(SetEntry(mem[g := ZeroTable()], c.pdpt, c.pdpti + 1, BootEntry(g)), tr)
      && PastTree(tr, c.(pdiri := 0, pdpti := c.pdpti + 1, pdir := g))
  {
  }

  lemma CarryPdptPast(mem: Memory, used: set<nat>, tr: Tree, c: Cursor)
    requires StillSkipped(mem, tr) && PastTree(tr, c) && c.pml4i < 511
    requires tr.root in used && tr.pdpt in used && tr.pdir1.value in used
    ensures var g := Lowest(used);
      && StillSkipped(SetEntry(mem[g := ZeroTable()], tr.root, c.pml4i + 1, BootEntry(g)), tr)
      && PastTree(tr, c.(pdpti := 0, pml4i := c.pml4i + 1, pdpt := g))
  {
  }

  /** The page entry for page m is written, the table index not yet moved. */
  ghost predicate Written(mem: Memory, used: set<nat>, tr: Tree, c: Cursor, m: nat, t: nat) {
    && m == 512 * t + c.ptbli && c.ptbli < 512 && c.pdiri < 511
    && (m < 262144 ==> Holds(mem, tr, m + 1) && OnTree(tr, c, m, t) && TreeFrames(tr) <= used)
    && (m >= 262144 ==> StillSkipped(mem, tr) && PastTree(tr, c)
                        && tr.root in used && tr.pdpt in used && tr.pdir1.value in used)
  }

  lemma WritePageStep(mem: Memory, used: set<nat>, tr: Tree, c: Cursor, m: nat, t: nat, d: nat)
    requires Progress(mem, used, tr, c, m, t) && Counts(c, m, t, d)
    ensures Written(SetEntry(mem, c.ptbl, c.ptbli, BootEntry(m % 0x100000)), used, tr, c, m, t)
  {
    WritePage(mem, used, tr, c, m, t);
  }

  lemma NoCarry(mem: Memory, used: set<nat>, tr: Tree, c: Cursor, m: nat, t: nat)
    requires Written(mem, used, tr, c, m, t) && c.ptbli < 511
    ensures Between(mem, used, tr, c.(ptbli := c.ptbli + 1), m + 1, t)
  {
  }

  function Grown(tr: Tree, m: nat, g: nat): Tree {
    if m < 262144 then tr.(ptbls := tr.ptbls + [g]) else tr
  }

  lemma CarryPtbl(mem: Memory, used: set<nat>, tr: Tree, c: Cursor, m: nat, t: nat)
    requires Written(mem, used, tr, c, m, t) && c.ptbli == 511
    ensures var g := Lowest(used);
      Between(SetEntry(mem[g := ZeroTable()], c.pdir, c.pdiri + 1, BootEntry(g)), used + {g}, Grown(tr, m, g),
              c.(ptbli := 0, pdiri := c.pdiri + 1, ptbl := g), m + 1, t + 1)
  {
    if m < 262144 {
      CarryPtblGood(mem, used, tr, c, m + 1, t);
    } else {
      CarryPtblPast(mem, used, tr, c);
    }
  }

  // ------------------------------------------ the loop body as a function

  /** Memory, allocator and running pointers between two turns of the loop. */
  datatype Loop = Loop(mem: Memory, used: set<nat>, c: Cursor)

  predicate InRange(c: Cursor) {
    c.ptbli < 512 && c.pdiri < 511 && c.pdpti < 511 && c.pml4i < 511
  }

  function TableCarry(l: Loop): Loop
    requires InRange(l.c)
  {
    if l.c.ptbli + 1 < 512 then Loop(l.mem, l.used, l.c.(ptbli := l.c.ptbli + 1))
    else Loop(WithTable(l.mem, l.used, l.c.pdir, l.c.pdiri + 1), l.used + {Lowest(l.used)},
              l.c.(ptbli := 0, pdiri := l.c.pdiri + 1, ptbl := Lowest(l.used)))
  }

  function DirCarry(l: Loop): Loop
    requires l.c.pdpti < 511
  {
    if l.c.pdiri < 511 then l
    else Loop(WithTable(l.mem, l.used, l.c.pdpt, l.c.pdpti + 1), l.used + {Lowest(l.used)},
              l.c.(pdiri := 0, pdpti := l.c.pdpti + 1, pdir := Lowest(l.used)))
  }

  function PdptCarry(l: Loop, root: nat): Loop
    requires l.c.pml4i < 511
  {
    if l.c.pdpti < 511 then l
    else Loop(WithTable(l.mem, l.used, root, l.c.pml4i + 1), l.used + {Lowest(l.used)},
              l.c.(pdpti := 0, pml4i := l.c.pml4i + 1, pdpt := Lowest(l.used)))
  }

  /** Page m is written, then the three carries follow. */
  function Turn(l: Loop, root: nat, m: nat): Loop
    requires InRange(l.c)
  {
    var mem := SetEntry(l.mem, l.c.ptbl, l.c.ptbli, BootEntry(m % 0x100000));
    PdptCarry(DirCarry(TableCarry(Loop(mem, l.used, l.c))), root)
  }

  /** How many frames a turn takes. */
  function Taken(c: Cursor): nat {
    if c.ptbli + 1 < 512 then 0
    else if c.pdiri + 1 < 511 then 1
    else if c.pdpti + 1 < 511 then 2
    else 3
  }

  ghost predicate At(l: Loop, tr: Tree, m: nat, t: nat, d: nat) {
    Progress(l.mem, l.used, tr, l.c, m, t) && Counts(l.c, m, t, d)
  }

  lemma TableCarryStep(l: Loop, tr: Tree, m: nat, t: nat, d: nat)
    requires InRange(l.c) && Written(l.mem, l.used, tr, l.c, m, t) && Counts(l.c, m, t, d)
    ensures var l' := TableCarry(l);
      var carried := l.c.ptbli == 511;
      var tr' := if carried then Grown(tr, m, Lowest(l.used)) else tr;
      var t' := if carried then t + 1 else t;
      Between(l'.mem, l'.used, tr', l'.c, m + 1, t') && MidCounts(l'.c, m + 1, t', d)
  {
    if l.c.ptbli == 511 {
      CarryPtbl(l.mem, l.used, tr, l.c, m, t);
    } else {
      NoCarry(l.mem, l.used, tr, l.c, m, t);
    }
  }

  lemma DirCarryStep(l: Loop, tr: Tree, m: nat, t: nat, d: nat)
    requires Between(l.mem, l.used, tr, l.c, m, t) && MidCounts(l.c, m, t, d)
    requires l.c.pdiri == 511
    ensures var l' := DirCarry(l);
      var tr' := if t == 511 then tr.(pdir1 := Some(Lowest(l.used))) else tr;
      Progress(l'.mem, l'.used, tr', l'.c, m, t)
  {
    if t == 511 {
      CarryPdirGood(l.mem, l.used, tr, l.c, m);
    } else {
      CarryPdirPast(l.mem, l.used, tr, l.c);
    }
  }

  lemma PdptCarryStep(l: Loop, tr: Tree, m: nat, t: nat)
    requires Progress(l.mem, l.used, tr, l.c, m, t) && l.c.pdpti == 511 && l.c.pml4i < 511
    ensures var l' := PdptCarry(l, tr.root);
      Progress(l'.mem, l'.used, tr, l'.c, m, t)
  {
    CarryPdptPast(l.mem, l.used, tr, l.c);
  }

  /** A turn of the loop keeps the description of memory, below 1 GiB and beyond. */
  lemma TurnStep(l: Loop, tr: Tree, m: nat, t: nat, d: nat) returns (tr': Tree, t': nat, d': nat)
    requires At(l, tr, m, t, d) && InRange(l.c) && m < 0xffff_ffff
    ensures At(Turn(l, tr.root, m), tr', m + 1, t', d') && tr'.root == tr.root
    ensures t' + d' + Turn(l, tr.root, m).c.pml4i == t + d + l.c.pml4i + Taken(l.c)
  {
    var l0 := Loop(SetEntry(l.mem, l.c.ptbl, l.c.ptbli, BootEntry(m % 0x100000)), l.used, l.c);
    WritePageStep(l.mem, l.used, tr, l.c, m, t, d);
    tr', t', d' := CarriesStep(l0, tr, m, t, d);
  }

  lemma CarriesStep(l: Loop, tr: Tree, m: nat, t: nat, d: nat) returns (tr': Tree, t': nat, d': nat)
    requires Written(l.mem, l.used, tr, l.c, m, t) && Counts(l.c, m, t, d) && InRange(l.c) && m < 0xffff_ffff
    ensures var l' := PdptCarry(DirCarry(TableCarry(l)), tr.root);
      && At(l', tr', m + 1, t', d') && tr'.root == tr.root
      && t' + d' + l'.c.pml4i == t + d + l.c.pml4i + Taken(l.c)
  {
    var tr1;
    tr1, t' := TableStep(l, tr, m, t, d);
    tr', d' := DirsStep(TableCarry(l), tr1, m + 1, t', d);
  }

  lemma TableStep(l: Loop, tr: Tree, m: nat, t: nat, d: nat) returns (tr1: Tree, t1: nat)
    requires Written(l.mem, l.used, tr, l.c, m, t) && Counts(l.c, m, t, d) && InRange(l.c)
    ensures var l1 := TableCarry(l);
      && Between(l1.mem, l1.used, tr1, l1.c, m + 1, t1) && MidCounts(l1.c, m + 1, t1, d)
      && tr1.root == tr.root && l1.c.pml4i == l.c.pml4i && t1 + DirsTaken(l1.c) == t + Taken(l.c)
  {
    TableCarryStep(l, tr, m, t, d);
    TakenCounts(l);
    tr1 := if l.c.ptbli == 511 then Grown(tr, m, Lowest(l.used)) else tr;
    t1 := if l.c.ptbli == 511 then t + 1 else t;
  }

  /** How many frames the directory carries take. */
  function DirsTaken(c: Cursor): nat {
    if c.pdiri < 511 then 0 else if c.pdpti + 1 < 511 then 1 else 2
  }

  lemma TakenCounts(l: Loop)
    requires InRange(l.c)
    ensures Taken(l.c) == (if l.c.ptbli == 511 then 1 else 0) + DirsTaken(TableCarry(l).c)
    ensures TableCarry(l).c.pml4i == l.c.pml4i
  {
  }

  lemma DirsStep(l: Loop, tr: Tree, m: nat, t: nat, d: nat) returns (tr': Tree, d': nat)
    requires Between(l.mem, l.used, tr, l.c, m, t) && MidCounts(l.c, m, t, d) && m <= 0xffff_ffff
    ensures l.c.pml4i < 511
    ensures var l' := PdptCarry(DirCarry(l), tr.root);
      && At(l', tr', m, t, d') && tr'.root == tr.root
      && d' + l'.c.pml4i == d + l.c.pml4i + DirsTaken(l.c)
  {
    tr', d' := tr, d;
    if l.c.pdiri == 511 {
      DirCarryStep(l, tr, m, t, d);
      tr', d' := if t == 511 then tr.(pdir1 := Some(Lowest(l.used))) else tr, d + 1;
      if l.c.pdpti == 510 {
        PdptCarryStep(DirCarry(l), tr', m, t);
      }
    }
  }

  /** One turn of id_map's loop. */
  method MapNext(frames: PageAllocator, pml4: nat, c: Cursor, phys: nat) returns (c': Cursor)
    requires frames.Valid() && BootRoom(frames, 3) && InRange(c)
    modifies frames, frames.freePages.bytes
    ensures frames.Valid()
    ensures Loop(frames.mem, frames.Used(), c') == Turn(Loop(old(frames.mem), old(frames.Used()), c), pml4, phys)
    ensures |frames.Used()| == |old(frames.Used())| + Taken(c)
  {
    frames.mem := SetEntry(frames.mem, c.ptbl, c.ptbli, BootEntry(phys % 0x100000));
    c' := CarryTable(frames, c);
    c' := CarryDir(frames, c');
    c' := CarryPdpt(frames, pml4, c');
  }

  method CarryTable(frames: PageAllocator, c: Cursor) returns (c': Cursor)
    requires frames.Valid() && BootRoom(frames, 1) && InRange(c)
    modifies frames, frames.freePages.bytes
    ensures frames.Valid()
    ensures Loop(frames.mem, frames.Used(), c') == TableCarry(Loop(old(frames.mem), old(frames.Used()), c))
    ensures |frames.Used()| == |old(frames.Used())| + if c.ptbli + 1 < 512 then 0 else 1
  {
    c' := c.(ptbli := c.ptbli + 1);
    if c'.ptbli >= 512 {
      var ptbl := NewTable(frames, c'.pdir, c'.pdiri + 1);
      c' := c'.(ptbli := 0, pdiri := c'.pdiri + 1, ptbl := ptbl);
    }
  }

  method CarryDir(frames: PageAllocator, c: Cursor) returns (c': Cursor)
    requires frames.Valid() && BootRoom(frames, 1) && c.pdpti < 511
    modifies frames, frames.freePages.bytes
    ensures frames.Valid()
    ensures Loop(frames.mem, frames.Used(), c') == DirCarry(Loop(old(frames.mem), old(frames.Used()), c))
    ensures |frames.Used()| == |old(frames.Used())| + if c.pdiri < 511 then 0 else 1
  {
    c' := c;
    if c'.pdiri >= 511 {
      var pdir := NewTable(frames, c'.pdpt, c'.pdpti + 1);
      c' := c'.(pdiri := 0, pdpti := c'.pdpti + 1, pdir := pdir);
    }
  }

  method CarryPdpt(frames: PageAllocator, pml4: nat, c: Cursor) returns (c': Cursor)
    requires frames.Valid() && BootRoom(frames, 1) && c.pml4i < 511
    modifies frames, frames.freePages.bytes
    ensures frames.Valid()
    ensures Loop(frames.mem, frames.Used(), c') == PdptCarry(Loop(old(frames.mem), old(frames.Used()), c), pml4)
    ensures |frames.Used()| == |old(frames.Used())| + if c.pdpti < 511 then 0 else 1
  {
    c' := c;
    if c'.pdpti >= 511 {
      var pdpt := NewTable(frames, pml4, c'.pml4i + 1);
      c' := c'.(pdpti := 0, pml4i := c'.pml4i + 1, pdpt := pdpt);
    }
  }

  /** The same turn with the ghost description carried along. */
  method MapNextAt(frames: PageAllocator, pml4: nat, c: Cursor, phys: nat, ghost tr: Tree, ghost t: nat, ghost d: nat)
    returns (c': Cursor, ghost tr': Tree, ghost t': nat, ghost d': nat)
    requires frames.Valid() && BootRoom(frames, 3) && tr.root == pml4 && phys < 0xffff_ffff
    requires At(Loop(frames.mem, frames.Used(), c), tr, phys, t, d)
    modifies frames, frames.freePages.bytes
    ensures frames.Valid() && tr'.root == pml4
    ensures At(Loop(frames.mem, frames.Used(), c'), tr', phys + 1, t', d')
    ensures |frames.Used()| + t + d + c.pml4i == |old(frames.Used())| + t' + d' + c'.pml4i
  {
    ghost var l := Loop(frames.mem, frames.Used(), c);
    assert InRange(c);
    c' := MapNext(frames, pml4, c, phys);
    tr', t', d' := TurnStep(l, tr, phys, t, d);
  }

  // ----------------------------------------------------- id_map and callers

  /** Frames enough for n pages: full tables, directories and pointer tables. */
  function Tables(n: nat): nat {
    n / 512 + n / 512 / 511 + n / 512 / 511 / 511
  }

  lemma EnoughTables(c: Cursor, m: nat, t: nat, d: nat, n: nat)
    requires Counts(c, m, t, d) && m <= n
    ensures t + d + c.pml4i <= Tables(n)
  {
    assert t <= n / 512;
    assert d <= t / 511 && t / 511 <= n / 512 / 511;
    assert c.pml4i <= d / 511 && d / 511 <= n / 512 / 511 / 511;
  }

  lemma FirstTables(mem: Memory, used: set<nat>, root: nat, pdpt: nat, pdir: nat, ptbl: nat)
    requires root in used && TableAt(mem, root) == ZeroTable()
    requires pdpt !in used && pdir !in used + {pdpt} && ptbl !in used + {pdpt, pdir}
    ensures var m3 := mem[pdpt := ZeroTable()][pdir := ZeroTable()][ptbl := ZeroTable()];
      var m := SetEntry(SetEntry(SetEntry(m3, root, 0, BootEntry(pdpt)), pdpt, 0, BootEntry(pdir)), pdir, 0, BootEntry(ptbl));
      Progress(m, used + {pdpt, pdir, ptbl}, Tree(root, pdpt, pdir, None, [ptbl]),
               Cursor(0, 0, 0, 0, pdpt, pdir, ptbl), 0, 0)
  {
    var tr := Tree(root, pdpt, pdir, None, [ptbl]);
    assert PdirTable(tr) == ZeroTable()[0 := BootEntry(ptbl)];
    assert PtblTable(0, 0) == ZeroTable();
  }

  method AllocThree(frames: PageAllocator) returns (pdpt: nat, pdir: nat, ptbl: nat)
    requires frames.Valid() && BootRoom(frames, 3)
    modifies frames, frames.freePages.bytes
    ensures frames.Valid() && |frames.Used()| == |old(frames.Used())| + 3
    ensures frames.Used() == old(frames.Used()) + {pdpt, pdir, ptbl}
    ensures pdpt !in old(frames.Used()) && pdir !in old(frames.Used()) + {pdpt}
    ensures ptbl !in old(frames.Used()) + {pdpt, pdir}
    ensures frames.mem == old(frames.mem)[pdpt := ZeroTable()][pdir := ZeroTable()][ptbl := ZeroTable()]
  {
    pdpt := BootFrame(frames);
    pdir := BootFrame(frames);
    ptbl := BootFrame(frames);
  }

  /** The head of id_map: one table of each level, empty below. */
  method FirstTree(frames: PageAllocator, pml4: nat) returns (c: Cursor, ghost tr: Tree)
    requires frames.Valid() && BootRoom(frames, 3)
    requires pml4 in frames.Used() && TableAt(frames.mem, pml4) == ZeroTable()
    modifies frames, frames.freePages.bytes
    ensures frames.Valid() && At(Loop(frames.mem, frames.Used(), c), tr, 0, 0, 0)
    ensures tr.root == pml4 && c.pml4i == 0
    ensures |frames.Used()| == |old(frames.Used())| + 3
  {
    ghost var mem, used := frames.mem, frames.Used();
    var pdpt, pdir, ptbl := AllocThree(frames);
    FirstTables(mem, used, pml4, pdpt, pdir, ptbl);
    frames.mem := SetEntry(frames.mem, pml4, 0, BootEntry(pdpt));
    frames.mem := SetEntry(frames.mem, pdpt, 0, BootEntry(pdir));
    frames.mem := SetEntry(frames.mem, pdir, 0, BootEntry(ptbl));
    tr := Tree(pml4, pdpt, pdir, None, [ptbl]);
    c := Cursor(0, 0, 0, 0, pdpt, pdir, ptbl);
  }

  /** id_map. */
  method IdMap(frames: PageAllocator, pml4: nat, pageCount: nat) returns (ghost tr: Tree)
    requires frames.Valid() && BootRoom(frames, 6 + Tables(pageCount)) && pageCount < 0x1_0000_0000
    requires pml4 in frames.Used() && TableAt(frames.mem, pml4) == ZeroTable()
    modifies frames, frames.freePages.bytes
    ensures frames.Valid() && Mapped(frames.mem, frames.Used(), tr, pml4, pageCount)
  {
    var c;
    c, tr := FirstTree(frames, pml4);
    forall c, m: nat, t: nat, d: nat | m <= pageCount && Counts(c, m, t, d)
      ensures t + d + c.pml4i <= Tables(pageCount)
    {
      EnoughTables(c, m, t, d, pageCount);
    }
    tr := FillTables(frames, pml4, c, pageCount, Tables(pageCount), tr);
  }

  /** What id_map has built: the tree for up to 1 GiB, the skipped slot beyond. */
  ghost predicate Mapped(mem: Memory, used: set<nat>, tr: Tree, pml4: nat, n: nat) {
    && tr.root == pml4
    && (n <= 262144 ==> Holds(mem, tr, n) && TreeFrames(tr) <= used)
    && (n > 262144 ==> StillSkipped(mem, tr))
  }

  /** The loop of id_map. */
  method FillTables(frames: PageAllocator, pml4: nat, c0: Cursor, pageCount: nat, ghost need: nat, ghost tr0: Tree)
    returns (ghost tr: Tree)
    requires frames.Valid() && BootRoom(frames, 3 + need) && pageCount < 0x1_0000_0000
    requires forall c, m: nat, t: nat, d: nat | m <= pageCount && Counts(c, m, t, d) :: t + d + c.pml4i <= need
    requires At(Loop(frames.mem, frames.Used(), c0), tr0, 0, 0, 0) && tr0.root == pml4
    modifies frames, frames.freePages.bytes
    ensures frames.Valid() && Mapped(frames.mem, frames.Used(), tr, pml4, pageCount)
  {
    ghost var base := |frames.Used()|;
    tr := tr0;
    var c := c0;
    ghost var t: nat, d: nat := 0, 0;
    var phys := 0;
    while phys < pageCount
      invariant phys <= pageCount && tr.root == pml4 && frames.Valid()
      invariant At(Loop(frames.mem, frames.Used(), c), tr, phys, t, d)
      invariant |frames.Used()| == base + t + d + c.pml4i
    {
      c, tr, t, d := MapNextAt(frames, pml4, c, phys, tr, t, d);
      phys := phys + 1;
    }
    AllMapped(Loop(frames.mem, frames.Used(), c), tr, phys, t, d);
  }

  lemma AllMapped(l: Loop, tr: Tree, n: nat, t: nat, d: nat)
    requires At(l, tr, n, t, d)
    ensures Mapped(l.mem, l.used, tr, tr.root, n)
  {
  }

  /** paging_init's first two frames: one set aside, one for the PML4. */
  method RootFrame(frames: PageAllocator) returns (pml4: nat)
    requires frames.Valid() && BootRoom(frames, 2)
    modifies frames, frames.freePages.bytes
    ensures frames.Valid() && pml4 in frames.Used() && |frames.Used()| == |old(frames.Used())| + 2
    ensures TableAt(frames.mem, pml4) == ZeroTable()
  {
    var _ := BootFrame(frames);
    pml4 := BootFrame(frames);
  }

  /** paging_init: one frame is set aside, the map is built at slot 0 and mirrored at 256. */
  method PagingInit(frames: PageAllocator, pages: nat) returns (pml4: nat, ghost tr: Tree)
    requires frames.Valid() && BootRoom(frames, 8 + Tables(pages)) && pages < 0x1_0000_0000
    modifies frames, frames.freePages.bytes
    ensures frames.Valid() && tr.root == pml4
    ensures TableAt(frames.mem, pml4)[256] == TableAt(frames.mem, pml4)[0] == BootEntry(tr.pdpt)
    ensures pages <= 262144 ==>
      && Trunk(frames.mem, tr, pages) && TreeFrames(tr) <= frames.Used()
      && TableAt(frames.mem, pml4) == RootTable(tr)[256 := BootEntry(tr.pdpt)]
    ensures pages > 262144 ==> Skipped(frames.mem, tr)
  {
    pml4 := RootFrame(frames);
    tr := IdMap(frames, pml4, pages);
    if pages <= 262144 {
      MirrorTrunk(frames.mem, tr, pages);
    }
    frames.mem := SetEntry(frames.mem, pml4, 256, TableAt(frames.mem, pml4)[0]);
  }

  lemma MirrorTrunk(mem: Memory, tr: Tree, m: nat)
    requires Holds(mem, tr, m)
    ensures Trunk(SetEntry(mem, tr.root, 256, TableAt(mem, tr.root)[0]), tr, m)
  {
  }

  /** vspace_setup: no page of the lower half is mapped any more, the upper slots of the PML4
      and every other frame are as they were. */
  method VspaceSetup(frames: PageAllocator, pml4: nat)
    modifies frames`mem
    ensures forall v: nat | PathOf(v)[0] < 256 :: Lookup(frames.mem, pml4, v) == None
    ensures forall i | 0 <= i < 512 ::
      TableAt(frames.mem, pml4)[i] == if i < 256 then ZERO_ENTRY else TableAt(old(frames.mem), pml4)[i]
    ensures forall f | f != pml4 :: TableAt(frames.mem, f) == TableAt(old(frames.mem), f)
  {
    frames.mem := frames.mem[pml4 := ZeroTable()[..256] + TableAt(frames.mem, pml4)[256..]];
    forall v: nat | PathOf(v)[0] < 256
      ensures Lookup(frames.mem, pml4, v) == None
    {
      NothingBelow(frames.mem, pml4, v);
    }
  }

  lemma NothingBelow(mem: Memory, root: nat, v: nat)
    requires !TableAt(mem, root)[PathOf(v)[0]].present
    ensures Lookup(mem, root, v) == None
  {
    AbsentBelow(mem, root, [], root, PathOf(v)[0], root, PathOf(v)[..3]);
  }

  /** ppn_to_virt as a page number. */
  function IdentPage(ppn: nat): nat {
    0xf_fff8_0000_0000 + ppn
  }

  lemma IdentPath(p: nat)
    requires p <= 262144
    ensures PathOf(IdentPage(p)) == [256, p / 262144, p / 512 % 512, p % 512]
  {
  }

  /** After boot the walk of ppn_to_virt(p) yields p. */
  ghost predicate IdentityMapped(mem: Memory, root: nat, n: nat) {
    forall p | 0 <= p < n :: Lookup(mem, root, IdentPage(p)) == Some(Leaf(p, true, false, false))
  }

  ghost predicate NothingElse(mem: Memory, root: nat, n: nat) {
    forall v: nat | Lookup(mem, root, v).Some? ::
      exists p :: 0 <= p < n && PathOf(v) == PathOf(IdentPage(p))
  }

  lemma BootedIdentity(mem: Memory, tr: Tree, n: nat)
    requires Booted(mem, tr, n)
    ensures IdentityMapped(mem, tr.root, n)
  {
    forall p | 0 <= p < n
      ensures Lookup(mem, tr.root, IdentPage(p)) == Some(Leaf(p, true, false, false))
    {
      IdentPath(p);
      BootLookup(mem, tr, n, IdentPage(p));
    }
  }

  lemma BootedPage(mem: Memory, tr: Tree, n: nat, v: nat) returns (p: nat)
    requires Booted(mem, tr, n) && Lookup(mem, tr.root, v).Some?
    ensures p < n && PathOf(v)[0] >= 256 && PathOf(v) == PathOf(IdentPage(p))
  {
    BootLookup(mem, tr, n, v);
    p := 512 * PathOf(v)[2] + PathOf(v)[3];
    IdentPath(p);
    assert PathOf(v) == PathOf(IdentPage(p));
  }

  lemma BootedOnly(mem: Memory, tr: Tree, n: nat)
    requires Booted(mem, tr, n)
    ensures NothingElse(mem, tr.root, n)
    ensures forall v: nat | PathOf(v)[0] < 256 :: Lookup(mem, tr.root, v) == None
  {
    forall v: nat | Lookup(mem, tr.root, v).Some?
      ensures PathOf(v)[0] >= 256 && exists p :: 0 <= p < n && PathOf(v) == PathOf(IdentPage(p))
    {
      var p := BootedPage(mem, tr, n, v);
    }
  }

  lemma SkippedNode(mem: Memory, tr: Tree)
    requires Skipped(mem, tr) && TableAt(mem, tr.root)[256] == BootEntry(tr.pdpt)
    ensures NodeAt(mem, tr.root, [256, 1, 0]) == None
  {
    NodeStep(mem, tr.root, [], 256);
    NodeStep(mem, tr.root, [256], 1);
    NodeStep(mem, tr.root, [256, 1], 0);
    assert [] + [256] == [256] && [256] + [1] == [256, 1] && [256, 1] + [0] == [256, 1, 0];
  }

  lemma LookupBy(mem: Memory, root: nat, v: nat, q: Path)
    requires PathOf(v)[..3] == q && NodeAt(mem, root, q) == None
    ensures Lookup(mem, root, v) == None
  {
  }

  /** Past 1 GiB the first page of the second directory is missing. */
  lemma SkippedMap(mem: Memory, tr: Tree)
    requires Skipped(mem, tr) && TableAt(mem, tr.root)[256] == BootEntry(tr.pdpt)
    ensures Lookup(mem, tr.root, IdentPage(262144)) == None
  {
    SkippedNode(mem, tr);
    IdentPath(262144);
    assert PathOf(IdentPage(262144))[..3] == [256, 1, 0];
    LookupBy(mem, tr.root, IdentPage(262144), [256, 1, 0]);
  }

  /** Boot as a whole: every frame is reachable at its identity address if and only
      if there are at most 262144 of them; then nothing else is mapped, the lower
      half is empty, and the virtual memory layer's invariant holds. */
  method Boot(frames: PageAllocator, pages: nat) returns (pml4: nat, ghost tr: Tree)
    requires frames.Valid() && BootRoom(frames, 8 + Tables(pages)) && pages < 0x1_0000_0000
    modifies frames, frames.freePages.bytes
    ensures frames.Valid()
    ensures IdentityMapped(frames.mem, pml4, pages) <==> pages <= 262144
    ensures pages <= 262144 ==> NothingElse(frames.mem, pml4, pages)
    ensures pages <= 262144 ==> forall v: nat | PathOf(v)[0] < 256 :: Lookup(frames.mem, pml4, v) == None
    ensures pages <= 262144 ==> pml4 == tr.root && Inv(BootState(frames.mem, frames.Used(), tr))
  {
    pml4, tr := PagingInit(frames, pages);
    VspaceSetup(frames, pml4);
    if pages <= 262144 {
      assert TableAt(frames.mem, pml4) == ZeroTable()[256 := BootEntry(tr.pdpt)];
      assert Booted(frames.mem, tr, pages);
      BootedIdentity(frames.mem, tr, pages);
      BootedOnly(frames.mem, tr, pages);
      BootInv(frames.mem, frames.Used(), tr, pages);
    } else {
      SkippedMap(frames.mem, tr);
    }
  }
}
