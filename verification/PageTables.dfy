/** Four-level page tables in physical frames: contents, the walk, the state of
    all address spaces, and the operations of the virtual memory layer as
    functions on that state. */
module PageTables {
  import opened Wrappers

  // ---------------------------------------------------------------- tables

  datatype Entry = Entry(present: bool, write: bool, user: bool, noExec: bool, ppn: nat)

  const ZERO_ENTRY := Entry(false, false, false, false, 0)

  type Table = t: seq<Entry> | |t| == 512 witness seq(512, _ => ZERO_ENTRY)

  function ZeroTable(): Table {
    seq(512, _ => ZERO_ENTRY)
  }

  /** Frame contents, seen as tables.  A frame never written reads as zero. */
  type Memory = map<nat, Table>

  function TableAt(mem: Memory, frame: nat): Table {
    if frame in mem then mem[frame] else ZeroTable()
  }

  function SetEntry(mem: Memory, frame: nat, i: nat, e: Entry): Memory
    requires i < 512
  {
    mem[frame := TableAt(mem, frame)[i := e]]
  }

  // ------------------------------------------------------------------ walk

  /** Indices from the top level down.  The empty path names the PML4 itself,
      three indices name a page table and four name a page. */
  type Path = seq<nat>

  predicate ValidPath(path: Path) {
    |path| <= 4 && forall i | 0 <= i < |path| :: path[i] < 512
  }

  predicate Lower(path: Path) {
    path == [] || path[0] < 256
  }

  function PathOf(virt: nat): Path {
    [virt / 0x8000000 % 512, virt / 0x40000 % 512, virt / 512 % 512, virt % 512]
  }

  function Child(mem: Memory, frame: nat, i: nat): Option<nat> {
    if i < 512 && TableAt(mem, frame)[i].present then Some(TableAt(mem, frame)[i].ppn) else None
  }

  /** The frame a path leads to, if every entry on the way is present. */
  function NodeAt(mem: Memory, root: nat, path: Path): Option<nat> {
    if path == [] then Some(root)
    else
      match NodeAt(mem, root, path[..|path| - 1])
      case None => None
      case Some(f) => Child(mem, f, path[|path| - 1])
  }

  datatype Leaf = Leaf(ppn: nat, write: bool, user: bool, noExec: bool)

  /** Entry k of a walk: slot path[k] of the table that k steps lead to. */
  function EntryAt(mem: Memory, root: nat, path: Path, k: nat): Entry
    requires k < |path| && path[k] < 512
  {
    match NodeAt(mem, root, path[..k])
    case None => ZERO_ENTRY
    case Some(f) => TableAt(mem, f)[path[k]]
  }

  /** What a last entry `e` gives behind the three entries above it: a page can be written or
      reached from user mode if all four entries allow it, and executed if none forbids it. */
  function LeafOf(mem: Memory, root: nat, path: Path, e: Entry): Option<Leaf>
    requires |path| == 4 && path[0] < 512 && path[1] < 512 && path[2] < 512
  {
    var a, b, c := EntryAt(mem, root, path, 0), EntryAt(mem, root, path, 1), EntryAt(mem, root, path, 2);
    if e.present then
      Some(Leaf(e.ppn,
                a.write && b.write && c.write && e.write,
                a.user && b.user && c.user && e.user,
                a.noExec || b.noExec || c.noExec || e.noExec))
    else None
  }

  /** What the hardware finds for a virtual page: its frame and permissions. */
  function Lookup(mem: Memory, root: nat, virt: nat): Option<Leaf> {
    var path := PathOf(virt);
    LeafOf(mem, root, path, EntryAt(mem, root, path, 3))
  }

  // ----------------------------------------------------------------- state

  /** A place in the tree of one address space. */
  datatype Node = Node(root: nat, path: Path)

  /** All address spaces over one frame allocator.  `owner` records, for each
      frame that serves a page table tree, the one place it serves. */
  datatype State = State(
    mem: Memory,
    used: set<nat>,
    kernel: nat,
    spaces: set<nat>,
    owner: map<nat, Node>)

  /** First top-level slot of the kernel heap window (KHEAP_START). */
  const HEAP_SLOT: nat := 448

  /** The top-level slot of the identity window (IDENT_OFFSET). */
  const IDENT_SLOT: nat := 256

  /** Kernel tables are owned; kernel pages only in the heap window, since the
      identity window maps every frame there is. */
  predicate KernelOwned(path: Path) {
    path == [] || (path[0] >= 256 && (|path| < 4 || path[0] >= HEAP_SLOT))
  }

  predicate Owns(s: State, root: nat, path: Path) {
    && ValidPath(path)
    && ((root in s.spaces && Lower(path)) || (root == s.kernel && KernelOwned(path)))
  }

  predicate Recorded(s: State, root: nat, path: Path) {
    var f := NodeAt(s.mem, root, path);
    f.Some? ==> f.value in s.owner && s.owner[f.value] == Node(root, path)
  }

  predicate Genuine(s: State, f: nat)
    requires f in s.owner
  {
    && f in s.used
    && Owns(s, s.owner[f].root, s.owner[f].path)
    && NodeAt(s.mem, s.owner[f].root, s.owner[f].path) == Some(f)
  }

  /** A user PML4 holds in each upper slot either nothing or what the kernel's holds. */
  predicate SharesSlot(s: State, r: nat, i: nat)
    requires i < 512
  {
    TableAt(s.mem, r)[i].present ==> TableAt(s.mem, r)[i] == TableAt(s.mem, s.kernel)[i]
  }

  /** Slot i of the table at `path`.  The page entry alone decides on the permissions of a page:
      the entries above it allow everything, but in the identity window, where boot code has
      left tables that user mode cannot pass.  An entry that is not present forbids nothing yet. */
  predicate Open(path: Path, i: nat, e: Entry) {
    if !e.present then !e.noExec
    else |path| < 3 && (path + [i])[0] != IDENT_SLOT ==> e.write && e.user && !e.noExec
  }

  ghost predicate OpenTables(s: State) {
    forall f, i | f in s.owner && |s.owner[f].path| < 4 && 0 <= i < 512 ::
      Open(s.owner[f].path, i, TableAt(s.mem, f)[i])
  }

  ghost predicate Inv(s: State) {
    && s.kernel !in s.spaces && OpenTables(s)
    && (forall root, path | Owns(s, root, path) :: Recorded(s, root, path))
    && (forall f | f in s.owner :: Genuine(s, f))
    && (forall i | 0 <= i < 256 :: !TableAt(s.mem, s.kernel)[i].present)
    && (forall r, i | r in s.spaces && 256 <= i < 512 :: SharesSlot(s, r, i))
  }

  // ------------------------------------------------------------ allocation

  function AtLeast(used: set<nat>, n: nat): set<nat> {
    set m | m in used && m >= n
  }

  /** The least frame at or above n that is not in use. */
  function LowestFrom(used: set<nat>, n: nat): (g: nat)
    ensures g !in used && g >= n
    ensures forall m | n <= m < g :: m in used
    decreases |AtLeast(used, n)|
  {
    if n !in used then n
    else
      assert |AtLeast(used, n + 1)| < |AtLeast(used, n)| by {
        assert AtLeast(used, n) == AtLeast(used, n + 1) + {n};
      }
      LowestFrom(used, n + 1)
  }

  function Lowest(used: set<nat>): nat {
    LowestFrom(used, 0)
  }

  /** alloc_page: take the lowest free frame and clear it. */
  function Alloc(s: State): State {
    var g := Lowest(s.used);
    State(s.mem[g := ZeroTable()], s.used + {g}, s.kernel, s.spaces, s.owner)
  }

  // ------------------------------------------------------------ operations

  function TableEntry(e: Entry, g: nat): Entry {
    e.(present := true, write := true, user := true, ppn := g)
  }

  datatype Flags = Flags(user: bool, write: bool, noExec: bool)

  function LeafEntry(e: Entry, phys: nat, flags: Flags): Entry {
    e.(present := true, write := flags.write, user := flags.user, noExec := flags.noExec, ppn := phys)
  }

  /** Write entry `e` into slot i of table t, which gives its frame to `node`. */
  function Link(s: State, t: nat, i: nat, e: Entry, node: Node): State
    requires i < 512
  {
    State(SetEntry(s.mem, t, i, e), s.used, s.kernel, s.spaces, s.owner[e.ppn := node])
  }

  /** Make `path` lead to a table, taking a cleared frame for it when it does not. */
  function EnsureLevel(s: State, root: nat, path: Path): State
    requires 0 < |path| && path[|path| - 1] < 512
  {
    var up := NodeAt(s.mem, root, path[..|path| - 1]);
    if up.None? || NodeAt(s.mem, root, path).Some? then s
    else
      var i := path[|path| - 1];
      Link(Alloc(s), up.value, i,
           TableEntry(TableAt(s.mem, up.value)[i], Lowest(s.used)), Node(root, path))
  }

  /** The three table levels vspace_map makes sure of before it touches the page entry. */
  function EnsureTables(s: State, root: nat, virt: nat): State {
    var path := PathOf(virt);
    var s1 := EnsureLevel(s, root, path[..1]);
    var s2 := EnsureLevel(s1, root, path[..2]);
    EnsureLevel(s2, root, path[..3])
  }

  /** vspace_map: a page that is already present is left alone. */
  function MapPage(s: State, root: nat, virt: nat, phys: nat, flags: Flags): State {
    SetPage(EnsureTables(s, root, virt), root, virt, phys, flags)
  }

  function SetPage(s: State, root: nat, virt: nat, phys: nat, flags: Flags): State {
    var path := PathOf(virt);
    match NodeAt(s.mem, root, path[..3])
    case None => s
    case Some(t) =>
      var e := TableAt(s.mem, t)[path[3]];
      if e.present then s
      else Link(s, t, path[3], LeafEntry(e, phys, flags), Node(root, path))
  }

  /** The way every caller maps: vspace_map(space, page, alloc_page(), flags). */
  function MapFresh(s: State, root: nat, virt: nat, flags: Flags): State {
    MapPage(Alloc(s), root, virt, Lowest(s.used), flags)
  }

  /** vspace_unmap: clear the entry and give the frame back. */
  function UnmapPage(s: State, root: nat, virt: nat): State {
    var path := PathOf(virt);
    match NodeAt(s.mem, root, path[..3])
    case None => s
    case Some(t) =>
      var e := TableAt(s.mem, t)[path[3]];
      if !e.present then s
      else State(SetEntry(s.mem, t, path[3], ZERO_ENTRY), s.used - {e.ppn}, s.kernel, s.spaces,
                 s.owner - {e.ppn})
  }

  /** A PML4 with an empty lower half and the kernel's upper half. */
  function FreshRoot(kernel: Table): Table {
    seq(512, i requires 0 <= i < 512 => if i < 256 then ZERO_ENTRY else kernel[i])
  }

  /** vspace_create: the new space is named by its PML4 frame. */
  function CreateSpace(s: State): State {
    var g := Lowest(s.used);
    State(s.mem[g := FreshRoot(TableAt(s.mem, s.kernel))], s.used + {g}, s.kernel,
          s.spaces + {g}, s.owner[g := Node(g, [])])
  }

  /** The frames of one space: its PML4, its tables and its pages. */
  function Frames(s: State, root: nat): set<nat> {
    set f | f in s.owner && s.owner[f].root == root
  }

  /** vspace_delete: every frame of the space goes back to the allocator. */
  function DeleteSpace(s: State, root: nat): State {
    State(s.mem, s.used - Frames(s, root), s.kernel, s.spaces - {root}, s.owner - Frames(s, root))
  }
}
