/** The program loader: pages of the program are read from its file when they are touched. */
module Loaders {
  import opened Wrappers
  import opened Layout
  import opened Bytes
  import opened PageTables
  import opened PageTableProofs
  import opened AddressSpaces
  import opened VSpaces
  import opened UserPages
  import opened Segments
  import opened FileContent
  import opened Ext2
  import Ext2Files

  function PageFlags(g: Segment): Flags {
    Flags(true, g.write, !g.exec)
  }

  // ------------------------------------------------------------- the file

  /** The bytes of the program's file, as far as they can be read. */
  function FileBytes(fs: Fs, inode: Inode): (r: seq<Byte>)
    requires ValidFs(fs) && ValidInode(fs, inode)
    ensures |r| == inode.length
  {
    Content(Got(fs, inode), fs.blockSize, 0, inode.length)
  }

  /** The blocks with the page's bytes come from the disk. */
  predicate Arrives(fs: Fs, inode: Inode, g: Segment, page: nat)
    requires ValidFs(fs) && ValidInode(fs, inode) && Covers(g, page) && ReadOffset(g, page) <= inode.length
  {
    var offset := ReadOffset(g, page);
    HasAll(Got(fs, inode), fs.blockSize, offset, offset + Min(ReadSize(g, page), inode.length - offset))
  }

  /** A stretch of the file's bytes is a slice of them. */
  lemma ContentSlice(f: Blocks, size: nat, length: nat, offset: nat, len: nat)
    requires size > 0 && offset <= length
    ensures var n := Min(len, length - offset);
      Content(f, size, offset, offset + n) == Slice(Content(f, size, 0, length), offset, len)
  {
    var n := Min(len, length - offset);
    ContentAppend(f, size, 0, offset, length);
    ContentAppend(f, size, offset, offset + n, length);
  }

  lemma ClearedBehind(cleared: seq<Byte>, data: seq<Byte>, now: seq<Byte>)
    requires cleared == Zeros(4096) && |data| <= 4096 && now == Written(cleared, 0, data)
    ensures now == data + Zeros(4096 - |data|)
  {
    forall i | 0 <= i < 4096
      ensures now[i] == (data + Zeros(4096 - |data|))[i]
    {
    }
  }

  /** What a read of `data` leaves in a cleared page. */
  lemma PageFilled(fs: Fs, inode: Inode, offset: nat, size: nat, data: seq<Byte>, cleared: seq<Byte>, now: seq<Byte>)
    requires ValidFs(fs) && ValidInode(fs, inode) && offset <= inode.length && size <= 4096 && cleared == Zeros(4096)
    requires data == Content(Got(fs, inode), fs.blockSize, offset, offset + Min(size, inode.length - offset))
    requires now == Written(cleared, 0, data)
    ensures now == PageOf(FileBytes(fs, inode), offset, size)
  {
    ContentSlice(Got(fs, inode), fs.blockSize, inode.length, offset, size);
    ClearedBehind(cleared, data, now);
  }

  /** What a read into a cleared page comes to. */
  function PageRead(fs: Fs, inode: Inode, offset: nat, size: nat): Option<seq<Byte>>
    requires ValidFs(fs) && ValidInode(fs, inode) && offset <= inode.length && size <= 4096
  {
    if HasAll(Got(fs, inode), fs.blockSize, offset, offset + Min(size, inode.length - offset))
    then Some(PageOf(FileBytes(fs, inode), offset, size)) else None
  }

  /** vfs_read into a cleared page. */
  method ReadInto(fs: Fs, inode: Inode, offset: nat, size: nat) returns (r: Option<seq<Byte>>)
    requires ValidFs(fs) && ValidInode(fs, inode) && offset <= inode.length && size <= 4096
    ensures r == PageRead(fs, inode, offset, size)
  {
    LengthFits(fs, inode);
    var page := new Byte[4096](_ => 0);
    ghost var cleared := page[..];
    var n := Read(fs, inode, page, size, offset);
    if n < 0 {
      return None;
    }
    var data := page[..];
    ghost var part := Content(Got(fs, inode), fs.blockSize, offset, offset + Min(size, inode.length - offset));
    PageFilled(fs, inode, offset, size, part, cleared, data);
    r := Some(data);
  }

  // ---------------------------------------------------------------- views

  /** What the user sees at a page: the bytes of its frame and the permissions. */
  datatype View = View(bytes: seq<Byte>, write: bool, user: bool, noExec: bool)

  function ViewOf(s: State, bytes: map<nat, seq<Byte>>, root: nat, page: nat): Option<View> {
    match Lookup(s.mem, root, page)
    case None => None
    case Some(leaf) =>
      if leaf.ppn in bytes then Some(View(bytes[leaf.ppn], leaf.write, leaf.user, leaf.noExec)) else None
  }

  /** What the loader makes of a page it serves. */
  function Served(file: seq<Byte>, segs: seq<Segment>, page: nat): View
    requires Serving(segs, page) < |segs|
  {
    var g := segs[Serving(segs, page)];
    View(Loaded(file, g, page), g.write, true, !g.exec)
  }

  /** The page shows what the loader makes of it. */
  ghost predicate ServedAt(s: State, bytes: map<nat, seq<Byte>>, root: nat, file: seq<Byte>, segs: seq<Segment>, p: nat) {
    && p < USER_PAGES && Serving(segs, p) < |segs|
    && ViewOf(s, bytes, root, p) == Some(Served(file, segs, p))
  }

  /** Every page served so far does. */
  ghost predicate AllServed(s: State, bytes: map<nat, seq<Byte>>, root: nat, file: seq<Byte>, segs: seq<Segment>,
                            touched: set<nat>) {
    forall p | p in touched :: ServedAt(s, bytes, root, file, segs, p)
  }

  /** A frame that was free shows at none of the pages. */
  lemma FreshFrame(s: State, root: nat, page: nat)
    requires Inv(s) && root in s.spaces && page < USER_PAGES && Lookup(s.mem, root, page).Some?
    ensures Lookup(s.mem, root, page).value.ppn != Lowest(s.used)
  {
    UserPageMayMap(s, root, page);
    UnmappedFrame(s, root, page);
  }

  /** A page keeps its view when its translation stays and only a frame that was free is written. */
  lemma ServedKept(s: State, s': State, bytes: map<nat, seq<Byte>>, data: seq<Byte>, root: nat, file: seq<Byte>,
                   segs: seq<Segment>, p: nat)
    requires Inv(s) && root in s.spaces && ServedAt(s, bytes, root, file, segs, p)
    requires Lookup(s'.mem, root, p) == Lookup(s.mem, root, p)
    ensures ServedAt(s', bytes[Lowest(s.used) := data], root, file, segs, p)
  {
    FreshFrame(s, root, p);
  }

  /** The pages served once `page` has been: a page that is mapped is left alone. */
  function TouchedAfter(s: State, root: nat, touched: set<nat>, page: nat): set<nat> {
    if Mapped(s, root, page) then touched else touched + {page}
  }

  /** One page more is served, or one that is mapped already; the others show what they did. */
  lemma ServedNext(s: State, s': State, bytes: map<nat, seq<Byte>>, root: nat, file: seq<Byte>, segs: seq<Segment>,
                   touched: set<nat>, page: nat, g: Segment, bytes': map<nat, seq<Byte>>)
    requires Inv(s) && root in s.spaces && page < USER_PAGES && Serving(segs, page) < |segs|
    requires AllServed(s, bytes, root, file, segs, touched)
    requires g == segs[Serving(segs, page)] && PageServed(s, s', root, page, PageFlags(g))
    requires bytes' == bytes[Lowest(s.used) := Loaded(file, g, page)]
    ensures AllServed(s', bytes', root, file, segs, TouchedAfter(s, root, touched, page))
  {
    var data := Loaded(file, g, page);
    forall p | p in TouchedAfter(s, root, touched, page)
      ensures ServedAt(s', bytes', root, file, segs, p)
    {
      if p == page && !Mapped(s, root, page) {
        NewlyServed(s, s', bytes, root, file, segs, page, data);
      } else {
        assert ServedAt(s, bytes, root, file, segs, p);
        if p != page { OthersSamePage(s, s', root, page, page + 1, p); }
        ServedKept(s, s', bytes, data, root, file, segs, p);
      }
    }
  }

  lemma NewlyServed(s: State, s': State, bytes: map<nat, seq<Byte>>, root: nat, file: seq<Byte>, segs: seq<Segment>,
                    page: nat, data: seq<Byte>)
    requires page < USER_PAGES && Serving(segs, page) < |segs|
    requires data == Loaded(file, segs[Serving(segs, page)], page)
    requires Lookup(s'.mem, root, page) == Some(MappedLeaf(Lowest(s.used), PageFlags(segs[Serving(segs, page)])))
    ensures ServedAt(s', bytes[Lowest(s.used) := data], root, file, segs, page)
  {
  }

  /** A frame taken and given back leaves the tables as they were. */
  function TakenBack(s: State): State {
    State(s.mem[Lowest(s.used) := ZeroTable()], s.used, s.kernel, s.spaces, s.owner)
  }

  lemma TakenBackInv(s: State)
    requires Inv(s)
    ensures Inv(TakenBack(s))
    ensures forall r, v: nat | OwnPage(s, r, v) :: Lookup(TakenBack(s).mem, r, v) == Lookup(s.mem, r, v)
  {
    var a, b := Alloc(s), TakenBack(s);
    AllocKeepsInv(s);
    forall f | f in b.owner
      ensures Genuine(b, f)
    {
      assert Genuine(a, f) && Genuine(s, f);
    }
    forall r, q | Owns(b, r, q)
      ensures Recorded(b, r, q)
    {
      assert Owns(a, r, q) && Recorded(a, r, q);
    }
    forall r, i | r in b.spaces && 256 <= i < 512
      ensures SharesSlot(b, r, i)
    {
      assert SharesSlot(a, r, i);
    }
    forall r, v: nat | OwnPage(s, r, v)
      ensures Lookup(b.mem, r, v) == Lookup(s.mem, r, v)
    {
      AllocView(s, r, v);
    }
  }

  lemma TakenBackServed(s: State, bytes: map<nat, seq<Byte>>, root: nat, file: seq<Byte>, segs: seq<Segment>,
                        touched: set<nat>)
    requires Inv(s) && root in s.spaces && AllServed(s, bytes, root, file, segs, touched)
    ensures AllServed(TakenBack(s), bytes[Lowest(s.used) := Zeros(4096)], root, file, segs, touched)
  {
    forall p | p in touched
      ensures ServedAt(TakenBack(s), bytes[Lowest(s.used) := Zeros(4096)], root, file, segs, p)
    {
      TakenBackPage(s, TakenBack(s), bytes, root, file, segs, p);
    }
  }

  lemma TakenBackPage(s: State, s': State, bytes: map<nat, seq<Byte>>, root: nat, file: seq<Byte>, segs: seq<Segment>,
                      p: nat)
    requires Inv(s) && root in s.spaces && ServedAt(s, bytes, root, file, segs, p) && s' == TakenBack(s)
    ensures ServedAt(s', bytes[Lowest(s.used) := Zeros(4096)], root, file, segs, p)
  {
    TakenBackInv(s);
    UserPageMayMap(s, root, p);
    assert OwnPage(s, root, p);
    ServedKept(s, s', bytes, Zeros(4096), root, file, segs, p);
  }

  class Loader {
    const vm: VirtualMemory
    const root: nat
    const fs: Fs
    const inode: Inode
    const segs: seq<Segment>
    /** Contents of the frames that hold program pages. */
    var bytes: map<nat, seq<Byte>>
    ghost var touched: set<nat>

    /** The program's file. */
    ghost const file: seq<Byte>

    ghost predicate OnDisk() {
      ValidFs(fs) && ValidInode(fs, inode) && file == FileBytes(fs, inode)
    }

    ghost predicate Valid()
      reads this, vm, vm.frames, vm.frames.freePages.bytes
    {
      vm.Valid() && root in vm.spaces && OnDisk() && AllServed(vm.State(), bytes, root, file, segs, touched)
    }

    constructor (vm: VirtualMemory, root: nat, fs: Fs, inode: Inode, segs: seq<Segment>)
      requires vm.Valid() && root in vm.spaces && ValidFs(fs) && ValidInode(fs, inode)
      ensures Valid() && touched == {} && this.vm == vm && this.root == root
      ensures this.fs == fs && this.inode == inode && this.segs == segs
    {
      this.vm, this.root, this.fs, this.inode, this.segs := vm, root, fs, inode, segs;
      file := FileBytes(fs, inode);
      bytes, touched := map[], {};
    }

    /** load_heap_brk: the minimal break, all ones when there is no LOAD segment to lie above. */
    method LoadHeapBrk() returns (brk: nat)
      ensures brk == if MinBreak(segs) == 0 then INVALID else MinBreak(segs)
    {
      brk := 0;
      var i := 0;
      while i < |segs|
        invariant i <= |segs| && brk == MinBreak(segs[..i])
      {
        assert segs[..i + 1][..i] == segs[..i];
        if segs[i].load {
          var end := (segs[i].vaddr + segs[i].memsz) % WORD;
          if end > brk {
            brk := (end / 4096 + 1) * 4096 % WORD;
          }
        }
        i := i + 1;
      }
      assert segs[..i] == segs;
      if brk == 0 {
        brk := INVALID;
      }
    }

    /** The segment that serves a page lies in the user half, and its bytes start within the
        file. */
    predicate Servable(page: nat)
      reads this
    {
      Serving(segs, page) < |segs| ==>
        page < USER_PAGES && ReadOffset(segs[Serving(segs, page)], page) <= inode.length
    }

    /** loader_load. */
    method LoaderLoad(page: nat) returns (status: int)
      requires Valid() && vm.frames.Room(4) && Servable(page)
      modifies this, vm`owner, vm.frames, vm.frames.freePages.bytes
      ensures Valid()
      ensures status == if Serving(segs, page) == |segs| then -ENOENT
                        else if !Arrives(fs, inode, segs[Serving(segs, page)], page) then -EIO else 0
      ensures status == 0 ==>
        && touched == TouchedAfter(old(vm.State()), root, old(touched), page)
        && PageServed(old(vm.State()), vm.State(), root, page, PageFlags(segs[Serving(segs, page)]))
      ensures status == -ENOENT ==> vm.State() == old(vm.State()) && touched == old(touched) && bytes == old(bytes)
      ensures status == -EIO ==> touched == old(touched) && vm.State() == TakenBack(old(vm.State()))
    {
      var i := 0;
      while i < |segs|
        invariant i <= |segs| && forall k | 0 <= k < i :: !Covers(segs[k], page)
      {
        if segs[i].load && page * 4096 >= segs[i].vaddr && page * 4096 < (segs[i].vaddr + segs[i].memsz) % WORD {
          ServingIs(segs, page, i);
          status := MapPage(segs[i], page);
          return;
        }
        i := i + 1;
      }
      ServingIs(segs, page, i);
      status := -ENOENT;
    }

    /** loader_map_page. */
    method MapPage(g: Segment, page: nat) returns (status: int)
      requires Valid() && vm.frames.Room(4) && page < USER_PAGES
      requires Serving(segs, page) < |segs| && g == segs[Serving(segs, page)] && ReadOffset(g, page) <= inode.length
      modifies this, vm`owner, vm.frames, vm.frames.freePages.bytes
      ensures Valid() && status == if Arrives(fs, inode, g, page) then 0 else -EIO
      ensures status == 0 ==>
        && touched == TouchedAfter(old(vm.State()), root, old(touched), page)
        && PageServed(old(vm.State()), vm.State(), root, page, PageFlags(g))
      ensures status != 0 ==> touched == old(touched) && vm.State() == TakenBack(old(vm.State()))
    {
      var ppn := ClearedPage();
      var r := ReadPage(g, page);
      match r
      case Some(data) =>
        Fill(old(vm.State()), ppn, data, old(bytes));
        Finish(old(vm.State()), g, page, ppn, old(bytes));
        status := 0;
      case None =>
        GiveBack(old(vm.State()), ppn, old(bytes));
        status := -EIO;
    }

    /** A frame has been taken in state `s` and holds `data`; `was` are the contents before. */
    ghost predicate InHand(s: State, ppn: nat, was: map<nat, seq<Byte>>, data: seq<Byte>)
      reads this, vm, vm.frames, vm.frames.freePages.bytes
    {
      && vm.Valid() && OnDisk() && Inv(s) && vm.State() == Alloc(s) && ppn == Lowest(s.used)
      && root in s.spaces && AllServed(s, was, root, file, segs, touched) && bytes == was[ppn := data]
    }

    /** alloc_page at the start of loader_map_page. */
    method ClearedPage() returns (ppn: nat)
      requires Valid() && vm.frames.Room(4)
      modifies this`bytes, vm.frames, vm.frames.freePages.bytes
      ensures InHand(old(vm.State()), ppn, old(bytes), Zeros(4096)) && vm.frames.Room(3)
    {
      ppn := TakeFrame(vm);
      bytes := bytes[ppn := Zeros(4096)];
    }

    /** The file could not be read. */
    method GiveBack(ghost s: State, ppn: nat, ghost was: map<nat, seq<Byte>>)
      requires InHand(s, ppn, was, Zeros(4096))
      modifies vm.frames, vm.frames.freePages.bytes
      ensures Valid() && vm.State() == TakenBack(s)
    {
      OwnedUsed(s);
      TakenBackServed(s, was, root, file, segs, touched);
      TakenBackInv(s);
      vm.frames.FreePage(ppn);
      assert vm.State() == TakenBack(s);
    }

    /** The bytes are in the page. */
    method Fill(ghost s: State, ppn: nat, data: seq<Byte>, ghost was: map<nat, seq<Byte>>)
      requires InHand(s, ppn, was, Zeros(4096))
      modifies this`bytes
      ensures InHand(s, ppn, was, data)
    {
      WrittenOver(was, ppn, Zeros(4096), data);
      bytes := bytes[ppn := data];
    }

    /** The mapping at the end of loader_map_page. */
    method Finish(ghost s: State, g: Segment, page: nat, ppn: nat, ghost was: map<nat, seq<Byte>>)
      requires Serving(segs, page) < |segs| && g == segs[Serving(segs, page)]
      requires InHand(s, ppn, was, Loaded(file, g, page)) && vm.frames.Room(3) && page < USER_PAGES
      modifies this, vm`owner, vm.frames, vm.frames.freePages.bytes
      ensures Valid() && touched == TouchedAfter(s, root, old(touched), page)
      ensures PageServed(s, vm.State(), root, page, PageFlags(g))
    {
      MapTaken(vm, s, root, page, ppn, PageFlags(g));
      Note(s, g, page, was);
    }

    /** The page is one that has been served. */
    ghost method Note(s: State, g: Segment, page: nat, was: map<nat, seq<Byte>>)
      requires vm.Valid() && root in vm.spaces && OnDisk() && Inv(s) && root in s.spaces && page < USER_PAGES
      requires Serving(segs, page) < |segs| && g == segs[Serving(segs, page)]
      requires AllServed(s, was, root, file, segs, touched) && PageServed(s, vm.State(), root, page, PageFlags(g))
      requires bytes == was[Lowest(s.used) := Loaded(file, g, page)]
      modifies this`touched
      ensures Valid() && touched == TouchedAfter(s, root, old(touched), page)
    {
      ServedNext(s, vm.State(), was, root, file, segs, touched, page, g, bytes);
      touched := TouchedAfter(s, root, touched, page);
    }

    /** What the read into the cleared page comes to. */
    ghost function Arrival(g: Segment, page: nat): Option<seq<Byte>>
      requires OnDisk() && Covers(g, page) && ReadOffset(g, page) <= inode.length
    {
      if Arrives(fs, inode, g, page) then Some(Loaded(file, g, page)) else None
    }

    /** The read into the cleared page: when the blocks come from the disk, the page holds the
        bytes the file has for it and zeros behind. */
    method ReadPage(g: Segment, page: nat) returns (r: Option<seq<Byte>>)
      requires OnDisk() && Covers(g, page) && ReadOffset(g, page) <= inode.length
      ensures r == Arrival(g, page)
    {
      var readOffset, readSize := Asked(g, page);
      ArrivalIs(g, page, FileBytes(fs, inode));
      r := ReadInto(fs, inode, readOffset, readSize);
    }

    lemma ArrivalIs(g: Segment, page: nat, data: seq<Byte>)
      requires OnDisk() && Covers(g, page) && ReadOffset(g, page) <= inode.length && data == file
      ensures Arrival(g, page) ==
        if Arrives(fs, inode, g, page) then Some(PageOf(data, ReadOffset(g, page), ReadSize(g, page))) else None
    {
    }
  }

  /** Which bytes of the file loader_map_page asks for. */
  method Asked(g: Segment, page: nat) returns (readOffset: nat, readSize: nat)
    requires Covers(g, page)
    ensures readOffset == ReadOffset(g, page) && readSize == ReadSize(g, page)
  {
    var fAddr := page * 4096;
    readSize := 4096;
    if (g.vaddr + g.memsz) % WORD < (fAddr + 4096) % WORD {
      readSize := (g.vaddr + g.memsz) % WORD - fAddr;
    }
    readOffset := (g.offset + fAddr - g.vaddr) % WORD;
  }

  lemma WrittenOver(was: map<nat, seq<Byte>>, ppn: nat, a: seq<Byte>, b: seq<Byte>)
    ensures was[ppn := a][ppn := b] == was[ppn := b]
  {
  }

  lemma ServingIs(segs: seq<Segment>, page: nat, i: nat)
    requires i <= |segs| && (i < |segs| ==> Covers(segs[i], page)) && forall k | 0 <= k < i :: !Covers(segs[k], page)
    ensures Serving(segs, page) == i
  {
    var k := Serving(segs, page);
  }

  // --------------------------------------------------------- the true file

  /** The bytes of the file itself, holes as zeros. */
  ghost function TrueBytes(fs: Fs, inode: Inode): (r: seq<Byte>)
    requires ValidFs(fs) && ValidInode(fs, inode)
    ensures |r| == inode.length
  {
    Content(Ext2Files.File(fs, inode), fs.blockSize, 0, inode.length)
  }

  lemma FineByte(fs: Fs, inode: Inode, i: nat)
    requires ValidFs(fs) && ValidInode(fs, inode) && i < inode.length && Ext2Files.Fine(fs, inode, i)
    ensures FileBytes(fs, inode)[i] == TrueBytes(fs, inode)[i]
  {
    Ext2Files.GetsExactly(fs, inode, i);
    SameByte(Got(fs, inode), Ext2Files.File(fs, inode), fs.blockSize, inode.length, i);
  }

  /** Every byte the loader asks for is delivered as the file holds it. */
  ghost predicate FineRead(fs: Fs, inode: Inode, offset: nat, size: nat)
    requires ValidFs(fs) && ValidInode(fs, inode)
  {
    forall i | offset <= i < offset + size && i < inode.length :: Ext2Files.Fine(fs, inode, i)
  }

  lemma FineSlice(fs: Fs, inode: Inode, offset: nat, size: nat)
    requires ValidFs(fs) && ValidInode(fs, inode) && FineRead(fs, inode, offset, size)
    ensures Slice(FileBytes(fs, inode), offset, size) == Slice(TrueBytes(fs, inode), offset, size)
  {
    var a, b := Slice(FileBytes(fs, inode), offset, size), Slice(TrueBytes(fs, inode), offset, size);
    forall k | 0 <= k < |a|
      ensures a[k] == b[k]
    {
      FineByte(fs, inode, offset + k);
    }
  }

  /** Whatever order the pages are touched in, every one of them whose bytes come as the file
      holds them shows the program's bytes with its segment's permissions, as if all had been
      loaded at the start. */
  lemma LazyIsEager(s: State, bytes: map<nat, seq<Byte>>, root: nat, fs: Fs, inode: Inode, segs: seq<Segment>,
                    touched: set<nat>, page: nat)
    requires ValidFs(fs) && ValidInode(fs, inode)
    requires AllServed(s, bytes, root, FileBytes(fs, inode), segs, touched) && page in touched
    requires WellFormed(segs) && forall i | 0 <= i < |segs| && segs[i].load :: segs[i].filesz == segs[i].memsz
    requires Serving(segs, page) < |segs| ==>
      var g := segs[Serving(segs, page)]; FineRead(fs, inode, ReadOffset(g, page), ReadSize(g, page))
    ensures var v := ViewOf(s, bytes, root, page);
      && v.Some? && v.value.bytes == ProgramPage(TrueBytes(fs, inode), segs, page) && v.value.user
      && exists k :: 0 <= k < |segs| && Covers(segs[k], page)
                     && v.value.write == segs[k].write && v.value.noExec == !segs[k].exec
  {
    assert ServedAt(s, bytes, root, FileBytes(fs, inode), segs, page);
    var g := segs[Serving(segs, page)];
    LengthFits(fs, inode);
    FineSlice(fs, inode, ReadOffset(g, page), ReadSize(g, page));
    LoadedIsProgram(TrueBytes(fs, inode), segs, page);
    assert Covers(g, page);
  }
}
