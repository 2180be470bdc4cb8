/** The kernel heap as it is stored: headers in memory, linked both ways. */
module KernelHeap {
  import opened Layout
  import opened HeapBlocks
  import opened KernelBreak

  const HEAP_MAGIC: nat := 0xabcd_efab

  /** hblock_t; the address 0 stands for NULL. */
  datatype Header = Header(available: bool, magic: nat, prev: nat, next: nat, size: nat)

  /** Header memory; what was never written reads as zero. */
  type Headers = map<nat, Header>

  function At(hdr: Headers, a: nat): Header {
    if a in hdr then hdr[a] else Header(false, 0, 0, 0, 0)
  }

  // ----------------------------------------------- headers describe blocks

  function PrevAddr(blocks: seq<Block>, i: nat): nat
    requires i < |blocks|
  {
    if i == 0 then 0 else blocks[i - 1].addr
  }

  function NextAddr(blocks: seq<Block>, i: nat): nat
    requires i < |blocks|
  {
    if i + 1 == |blocks| then 0 else blocks[i + 1].addr
  }

  function HeaderOf(blocks: seq<Block>, i: nat): Header
    requires i < |blocks|
  {
    Header(blocks[i].free, HEAP_MAGIC, PrevAddr(blocks, i), NextAddr(blocks, i), blocks[i].size)
  }

  predicate LinkedAt(hdr: Headers, blocks: seq<Block>, i: nat)
    requires i < |blocks|
  {
    At(hdr, blocks[i].addr) == HeaderOf(blocks, i)
  }

  /** Every header says what its block is and who its neighbours are. */
  predicate Linked(hdr: Headers, blocks: seq<Block>) {
    forall i | 0 <= i < |blocks| :: LinkedAt(hdr, blocks, i)
  }

  function FirstAddr(blocks: seq<Block>): nat {
    if blocks == [] then 0 else blocks[0].addr
  }

  function LastAddr(blocks: seq<Block>): nat {
    if blocks == [] then 0 else blocks[|blocks| - 1].addr
  }

  // ------------------------------------------------- single header updates

  function MarkHeader(hdr: Headers, a: nat, free: bool): Headers {
    hdr[a := At(hdr, a).(available := free)]
  }

  function Mark(blocks: seq<Block>, i: nat, free: bool): seq<Block>
    requires i < |blocks|
  {
    blocks[i := Block(blocks[i].addr, blocks[i].size, free)]
  }

  lemma LinkedMark(hdr: Headers, blocks: seq<Block>, i: nat, free: bool)
    requires Tiled(blocks) && Linked(hdr, blocks) && i < |blocks|
    ensures Linked(MarkHeader(hdr, blocks[i].addr, free), Mark(blocks, i, free))
  {
    var blocks' := Mark(blocks, i, free);
    Distinct(blocks);
    forall k | 0 <= k < |blocks'|
      ensures LinkedAt(MarkHeader(hdr, blocks[i].addr, free), blocks', k)
    {
      assert LinkedAt(hdr, blocks, k);
    }
  }

  function SetPrev(hdr: Headers, a: nat, prev: nat): Headers {
    if a != 0 then hdr[a := At(hdr, a).(prev := prev)] else hdr
  }

  function SetNext(hdr: Headers, a: nat, next: nat): Headers {
    if a != 0 then hdr[a := At(hdr, a).(next := next)] else hdr
  }

  /** What crop writes when it splits a block. */
  function CropHeaders(hdr: Headers, block: nat, newSize: nat, excess: nat): Headers {
    var h := At(hdr, block);
    var rest := block + newSize;
    SetPrev(hdr[block := h.(size := newSize, next := rest)][rest := Header(true, HEAP_MAGIC, block, h.next, excess)],
            h.next, rest)
  }

  lemma CropReads(hdr: Headers, block: nat, newSize: nat, excess: nat, x: nat)
    requires newSize > 0 && At(hdr, block).next != block + newSize && At(hdr, block).next != block
    ensures var h := At(hdr, block);
      At(CropHeaders(hdr, block, newSize, excess), x) ==
        if x == block + newSize then Header(true, HEAP_MAGIC, block, h.next, excess)
        else if x == block then h.(size := newSize, next := block + newSize)
        else if x == h.next && x != 0 then At(hdr, x).(prev := block + newSize)
        else At(hdr, x)
  {
  }

  lemma LinkedCrop(hdr: Headers, blocks: seq<Block>, i: nat, newSize: nat, excess: nat)
    requires Tiled(blocks) && Linked(hdr, blocks) && i < |blocks|
    requires HEADER <= newSize && excess > HEADER && blocks[i].size == newSize + excess
    ensures Linked(CropHeaders(hdr, blocks[i].addr, newSize, excess), HeapBlocks.Crop(blocks, i, newSize))
  {
    var c := HeapBlocks.Crop(blocks, i, newSize);
    forall k | 0 <= k < |c|
      ensures LinkedAt(CropHeaders(hdr, blocks[i].addr, newSize, excess), c, k)
    {
      LinkedCropAt(hdr, blocks, i, newSize, excess, k);
    }
  }

  lemma LinkedCropAt(hdr: Headers, blocks: seq<Block>, i: nat, newSize: nat, excess: nat, k: nat)
    requires Tiled(blocks) && Linked(hdr, blocks) && i < |blocks|
    requires HEADER <= newSize && excess > HEADER && blocks[i].size == newSize + excess
    requires k < |HeapBlocks.Crop(blocks, i, newSize)|
    ensures LinkedAt(CropHeaders(hdr, blocks[i].addr, newSize, excess), HeapBlocks.Crop(blocks, i, newSize), k)
  {
    CropIndex(blocks, i, newSize);
    assert LinkedAt(hdr, blocks, i);
    AddrsDiffer(blocks, i, i);
    if i + 1 < |blocks| { assert blocks[i + 1].addr == blocks[i].addr + newSize + excess; }
    CropReads(hdr, blocks[i].addr, newSize, excess, HeapBlocks.Crop(blocks, i, newSize)[k].addr);
    if k < i || k > i + 1 {
      var j := if k < i then k else k - 1;
      assert LinkedAt(hdr, blocks, j);
      AddrsDiffer(blocks, i, j);
      if i + 1 < |blocks| { AddrsDiffer(blocks, i + 1, j); }
      if j > i { Ordered(blocks, i, j); }
    }
  }

  /** What merge_blocks writes. */
  function MergeHeaders(hdr: Headers, first: nat, second: nat): Headers {
    var f, s := At(hdr, first), At(hdr, second);
    var hdr1 := SetPrev(hdr[first := f.(size := f.size + s.size, next := s.next)], s.next, first);
    hdr1[second := At(hdr1, second).(magic := 0)]
  }

  lemma MergeReads(hdr: Headers, first: nat, second: nat, x: nat)
    requires first != second && x != second && At(hdr, second).next != first && At(hdr, second).next != second
    ensures var f, s := At(hdr, first), At(hdr, second);
      At(MergeHeaders(hdr, first, second), x) ==
        if x == first then f.(size := f.size + s.size, next := s.next)
        else if x == s.next && x != 0 then At(hdr, x).(prev := first)
        else At(hdr, x)
  {
  }

  lemma LinkedMerge(hdr: Headers, blocks: seq<Block>, i: nat)
    requires Tiled(blocks) && Linked(hdr, blocks) && i + 1 < |blocks|
    ensures Linked(MergeHeaders(hdr, blocks[i].addr, blocks[i + 1].addr), Merge(blocks, i))
  {
    var m := Merge(blocks, i);
    var hdr' := MergeHeaders(hdr, blocks[i].addr, blocks[i + 1].addr);
    forall k | 0 <= k < |m|
      ensures LinkedAt(hdr', m, k)
    {
      LinkedMergeAt(hdr, blocks, i, k);
    }
  }

  lemma LinkedMergeAt(hdr: Headers, blocks: seq<Block>, i: nat, k: nat)
    requires Tiled(blocks) && Linked(hdr, blocks) && i + 1 < |blocks| && k < |Merge(blocks, i)|
    ensures LinkedAt(MergeHeaders(hdr, blocks[i].addr, blocks[i + 1].addr), Merge(blocks, i), k)
  {
    var j := if k <= i then k else k + 1;
    MergeIndex(blocks, i);
    assert LinkedAt(hdr, blocks, i) && LinkedAt(hdr, blocks, i + 1) && LinkedAt(hdr, blocks, j);
    AddrsDiffer(blocks, i, i + 1);
    AddrsDiffer(blocks, i, j);
    AddrsDiffer(blocks, i + 1, j);
    if i + 2 < |blocks| {
      AddrsDiffer(blocks, i, i + 2);
      AddrsDiffer(blocks, i + 1, i + 2);
      AddrsDiffer(blocks, i + 2, j);
    }
    MergeReads(hdr, blocks[i].addr, blocks[i + 1].addr, blocks[j].addr);
  }

  /** What kmalloc writes for a block at the end. */
  function AppendHeaders(hdr: Headers, a: nat, size: nat, last: nat): Headers {
    SetNext(hdr[a := Header(false, HEAP_MAGIC, last, 0, size)], last, a)
  }

  lemma LinkedAppend(hdr: Headers, blocks: seq<Block>, size: nat)
    requires Tiled(blocks) && Linked(hdr, blocks)
    ensures Linked(AppendHeaders(hdr, End(blocks), size, LastAddr(blocks)), blocks + [Block(End(blocks), size, false)])
  {
    Distinct(blocks);
    var n := |blocks|;
    var hdr' := AppendHeaders(hdr, End(blocks), size, LastAddr(blocks));
    var blocks' := blocks + [Block(End(blocks), size, false)];
    if n > 0 { assert LinkedAt(hdr, blocks, n - 1); }
    forall k | 0 <= k < |blocks'|
      ensures LinkedAt(hdr', blocks', k)
    {
      if k < n - 1 {
        assert LinkedAt(hdr, blocks, k);
      }
    }
  }

  /** What the trim loop writes. */
  function PopHeaders(hdr: Headers, last: nat): Headers {
    SetNext(hdr[last := At(hdr, last).(magic := 0)], At(hdr, last).prev, 0)
  }

  lemma LinkedPop(hdr: Headers, blocks: seq<Block>)
    requires Tiled(blocks) && Linked(hdr, blocks) && blocks != []
    ensures At(hdr, LastAddr(blocks)).prev == LastAddr(blocks[..|blocks| - 1])
    ensures At(hdr, LastAddr(blocks)).size == blocks[|blocks| - 1].size
    ensures Linked(PopHeaders(hdr, LastAddr(blocks)), blocks[..|blocks| - 1])
  {
    var n := |blocks| - 1;
    Distinct(blocks);
    assert LinkedAt(hdr, blocks, n);
    if n > 0 { assert LinkedAt(hdr, blocks, n - 1); }
    forall k | 0 <= k < n
      ensures LinkedAt(PopHeaders(hdr, LastAddr(blocks)), blocks[..n], k)
    {
      assert LinkedAt(hdr, blocks, k);
    }
  }

  // --------------------------------------------------------------- the heap

  /** Block i is in use and its payload starts at ptr. */
  predicate IsAt(blocks: seq<Block>, i: int, ptr: nat) {
    0 <= i < |blocks| && !blocks[i].free && blocks[i].addr + HEADER == ptr
  }

  class Heap {
    const kb: Break
    var hdr: Headers
    var heapStart: nat
    var heapLast: nat
    ghost var blocks: seq<Block>

    /** The stored list is the row of blocks. */
    ghost predicate Stored()
      reads this
    {
      && Tiled(blocks) && Linked(hdr, blocks)
      && heapStart == FirstAddr(blocks) && heapLast == LastAddr(blocks)
    }

    ghost predicate Valid()
      reads this, kb, kb.vm, kb.vm.frames, kb.vm.frames.freePages.bytes
    {
      Stored() && WellFormed(blocks) && kb.Valid() && kb.brk == End(blocks)
    }

    constructor (kb: Break)
      requires kb.Valid() && kb.brk == HEAP_START
      ensures Valid() && blocks == [] && this.kb == kb
    {
      this.kb := kb;
      hdr := map[];
      heapStart, heapLast := 0, 0;
      blocks := [];
    }

    method CropBlock(block: nat, newSize: nat, ghost i: nat)
      requires Stored() && i < |blocks| && blocks[i].addr == block
      requires HEADER <= newSize <= blocks[i].size
      modifies this
      ensures Stored() && blocks == HeapBlocks.Crop(old(blocks), i, newSize)
    {
      assert LinkedAt(hdr, blocks, i);
      var excess := At(hdr, block).size - newSize;
      if excess <= HEADER {
        return;
      }
      LinkedCrop(hdr, blocks, i, newSize, excess);
      CropTiled(blocks, i, newSize);
      CropEnds(blocks, i, newSize);
      var originalNext := At(hdr, block).next;
      var rest := block + newSize;
      hdr := hdr[block := At(hdr, block).(size := newSize, next := rest)];
      hdr := hdr[rest := Header(true, HEAP_MAGIC, block, originalNext, excess)];
      if originalNext != 0 {
        hdr := hdr[originalNext := At(hdr, originalNext).(prev := rest)];
      } else {
        heapLast := rest;
      }
      if i + 1 < |blocks| { AddrsDiffer(blocks, i + 1, i); }
      blocks := HeapBlocks.Crop(blocks, i, newSize);
    }

    /** The search loop of kmalloc. */
    method Search(need: nat) returns (entry: nat, ghost i: nat)
      requires Stored()
      ensures i == FirstFit(blocks, need)
      ensures entry == var k := FirstFit(blocks, need); if k < |blocks| then blocks[k].addr else 0
      ensures i < |blocks| ==> entry != 0
    {
      entry := heapStart;
      i := 0;
      while entry != 0
        invariant i <= |blocks| && entry == if i < |blocks| then blocks[i].addr else 0
        invariant forall k | 0 <= k < i :: !Fits(blocks[k], need)
        decreases |blocks| - i
      {
        assert LinkedAt(hdr, blocks, i);
        if At(hdr, entry).available && At(hdr, entry).size >= need {
          FirstFitIs(blocks, need, i);
          return;
        }
        entry, i := At(hdr, entry).next, i + 1;
      }
      if i < |blocks| { AddrsDiffer(blocks, i, i); }
      FirstFitIs(blocks, need, i);
    }

    /** kmalloc, with room for a new block when none fits.  A header that does not carry the
        magic number stops the kernel; no header of the list lacks it. */
    method Kmalloc(size: nat) returns (ptr: nat)
      requires Valid()
      requires FirstFit(blocks, HEADER + size) == |blocks| ==>
        && kb.brk + HEADER + size < HEAP_END
        && kb.vm.frames.Room(4 * PagesToMap(kb.brk, kb.brk + HEADER + size))
      modifies this, kb, kb.vm`owner, kb.vm.frames, kb.vm.frames.freePages.bytes
      ensures Valid() && blocks == Malloc(old(blocks), size)
      ensures ptr == Given(old(blocks), size).addr + HEADER
    {
      MallocKeeps(blocks, size);
      MallocEnd(blocks, size);
      var entry;
      ghost var i;
      entry, i := Search(HEADER + size);
      if entry != 0 {
        TakeFitting(entry, size, i);
        return entry + HEADER;
      }
      ptr := GrowFor(size);
    }

    /** The case of a block that fits. */
    method TakeFitting(entry: nat, size: nat, ghost i: nat)
      requires Valid() && i == FirstFit(blocks, HEADER + size) < |blocks| && entry == blocks[i].addr
      requires WellFormed(Malloc(blocks, size)) && End(Malloc(blocks, size)) == End(blocks)
      modifies this
      ensures Valid() && blocks == Malloc(old(blocks), size) && entry == Given(old(blocks), size).addr
    {
      TakeBlock(entry, HEADER + size, i);
      MallocFits(old(blocks), size, i, blocks);
    }

    /** The case that none does. */
    method GrowFor(size: nat) returns (ptr: nat)
      requires Valid() && FirstFit(blocks, HEADER + size) == |blocks| && kb.brk + HEADER + size < HEAP_END
      requires kb.vm.frames.Room(4 * PagesToMap(kb.brk, kb.brk + HEADER + size))
      requires WellFormed(Malloc(blocks, size)) && End(Malloc(blocks, size)) == End(blocks) + HEADER + size
      modifies this, kb, kb.vm`owner, kb.vm.frames, kb.vm.frames.freePages.bytes
      ensures Valid() && blocks == Malloc(old(blocks), size) && ptr == Given(old(blocks), size).addr + HEADER
    {
      ptr := GrowHeap(HEADER + size);
    }

    /** The end of kmalloc: a new block at the break. */
    method GrowHeap(need: nat) returns (ptr: nat)
      requires Stored() && kb.Valid() && kb.brk == End(blocks) && need >= HEADER && kb.brk + need < HEAP_END
      requires kb.vm.frames.Room(4 * PagesToMap(kb.brk, kb.brk + need))
      modifies this, kb, kb.vm`owner, kb.vm.frames, kb.vm.frames.freePages.bytes
      ensures Stored() && kb.Valid() && kb.brk == End(old(blocks)) + need
      ensures blocks == old(blocks) + [Block(End(old(blocks)), need, false)] && ptr == End(old(blocks)) + HEADER
    {
      var blk := kb.Kbrk(need);
      AppendBlock(blk, need);
      ptr := blk + HEADER;
    }

    method TakeBlock(entry: nat, need: nat, ghost i: nat)
      requires Stored() && i < |blocks| && blocks[i].addr == entry && HEADER <= need <= blocks[i].size
      modifies this
      ensures Stored() && blocks == HeapBlocks.Crop(Use(old(blocks), i), i, need)
    {
      LinkedMark(hdr, blocks, i, false);
      hdr := hdr[entry := At(hdr, entry).(available := false)];
      blocks := Use(blocks, i);
      CropBlock(entry, need, i);
    }

    method AppendBlock(blk: nat, need: nat)
      requires Stored() && blk == End(blocks) && need >= HEADER
      modifies this
      ensures Stored() && blocks == old(blocks) + [Block(blk, need, false)]
    {
      LinkedAppend(hdr, blocks, need);
      if blocks != [] { AddrsDiffer(blocks, |blocks| - 1, 0); }
      hdr := hdr[blk := Header(false, HEAP_MAGIC, heapLast, 0, need)];
      if heapLast != 0 {
        hdr := hdr[heapLast := At(hdr, heapLast).(next := blk)];
      }
      heapLast := blk;
      if heapStart == 0 {
        heapStart := blk;
      }
      blocks := blocks + [Block(blk, need, false)];
    }

    /** kfree of a null pointer or of a block in use; any other pointer stops the
        kernel. */
    method Kfree(ptr: nat)
      requires Valid() && (ptr == 0 || exists b :: b in Live(blocks) && b.addr + HEADER == ptr)
      modifies this, kb, kb.vm`owner, kb.vm.frames, kb.vm.frames.freePages.bytes
      ensures Valid()
      ensures ptr == 0 ==> blocks == old(blocks)
      ensures ptr != 0 ==> exists i :: IsAt(old(blocks), i, ptr) && blocks == HeapBlocks.Kfree(old(blocks), i)
    {
      if ptr == 0 {
        return;
      }
      ghost var b :| b in Live(blocks) && b.addr + HEADER == ptr;
      ghost var i :| 0 <= i < |blocks| && blocks[i] == b;
      var tofree := ptr - HEADER;
      KfreeCorrect(blocks, i);
      MarkAndMerge(tofree, i);
      TrimEnd();
      assert IsAt(old(blocks), i, ptr) && blocks == HeapBlocks.Kfree(old(blocks), i);
    }

    /** Mark the block free and merge it with free neighbours. */
    method MarkAndMerge(tofree: nat, ghost i: nat)
      requires Stored() && i < |blocks| && blocks[i].addr == tofree
      modifies this
      ensures Stored() && blocks == MergePrev(MergeNext(Free(old(blocks), i), i), i)
      ensures End(blocks) == End(old(blocks))
    {
      MarkFree(tofree, i);
      MergeWithNext(tofree, i);
      MergeWithPrev(tofree, i);
    }

    method MarkFree(tofree: nat, ghost i: nat)
      requires Stored() && i < |blocks| && blocks[i].addr == tofree
      modifies this
      ensures Stored() && blocks == Free(old(blocks), i) && End(blocks) == End(old(blocks))
    {
      LinkedMark(hdr, blocks, i, true);
      hdr := hdr[tofree := At(hdr, tofree).(available := true)];
      blocks := Free(blocks, i);
    }

    method MergeWithNext(tofree: nat, ghost i: nat)
      requires Stored() && i < |blocks| && blocks[i].addr == tofree
      modifies this
      ensures Stored() && blocks == MergeNext(old(blocks), i) && End(blocks) == End(old(blocks))
      ensures i < |blocks| && blocks[i].addr == tofree
    {
      assert LinkedAt(hdr, blocks, i);
      if i + 1 < |blocks| {
        assert LinkedAt(hdr, blocks, i + 1);
        AddrsDiffer(blocks, i + 1, i);
        MergeIndex(blocks, i);
        MergeTiled(blocks, i);
      }
      var next := At(hdr, tofree).next;
      if next != 0 && At(hdr, next).available {
        MergeBlocks(tofree, next, i);
      }
    }

    method MergeWithPrev(tofree: nat, ghost i: nat)
      requires Stored() && i < |blocks| && blocks[i].addr == tofree
      modifies this
      ensures Stored() && blocks == MergePrev(old(blocks), i) && End(blocks) == End(old(blocks))
    {
      assert LinkedAt(hdr, blocks, i);
      if i > 0 {
        assert LinkedAt(hdr, blocks, i - 1);
        AddrsDiffer(blocks, i - 1, i);
        MergeTiled(blocks, i - 1);
      }
      var prev := At(hdr, tofree).prev;
      if prev != 0 && At(hdr, prev).available {
        MergeBlocks(prev, tofree, i - 1);
      }
    }

    /** The trim loop of kfree.  It gives the space of free blocks at the end back,
        and without free neighbours it does so at most once. */
    method TrimEnd()
      requires Stored() && kb.Valid() && kb.brk == End(blocks)
      modifies this, kb, kb.vm`owner, kb.vm.frames, kb.vm.frames.freePages.bytes
      ensures Stored() && kb.Valid() && kb.brk == End(blocks)
      ensures blocks == Trim(old(blocks))
    {
      if blocks != [] { assert LinkedAt(hdr, blocks, |blocks| - 1); }
      while heapLast != 0 && At(hdr, heapLast).available
        invariant Stored() && kb.Valid() && kb.brk == End(blocks)
        invariant Trim(blocks) == Trim(old(blocks))
        invariant blocks != [] ==> At(hdr, heapLast).available == blocks[|blocks| - 1].free
        decreases |blocks|
      {
        DropLast();
        if blocks != [] { assert LinkedAt(hdr, blocks, |blocks| - 1); }
      }
      if blocks != [] { AddrsDiffer(blocks, |blocks| - 1, 0); }
    }

    method DropLast()
      requires Stored() && kb.Valid() && kb.brk == End(blocks) && blocks != []
      modifies this, kb, kb.vm`owner, kb.vm.frames, kb.vm.frames.freePages.bytes
      ensures Stored() && kb.Valid() && kb.brk == End(blocks)
      ensures blocks == old(blocks)[..|old(blocks)| - 1]
    {
      PopEnd(blocks);
      var decrement: int := Unlink();
      var _ := kb.Kbrk(-decrement);
    }

    /** Take the last block off the list. */
    method Unlink() returns (decrement: nat)
      requires Stored() && blocks != []
      modifies this
      ensures Stored() && blocks == old(blocks)[..|old(blocks)| - 1]
      ensures decrement == old(blocks)[|old(blocks)| - 1].size
    {
      LinkedPop(hdr, blocks);
      PopEnd(blocks);
      hdr := hdr[heapLast := At(hdr, heapLast).(magic := 0)];
      decrement := At(hdr, heapLast).size;
      var prev := At(hdr, heapLast).prev;
      if prev != 0 {
        hdr := hdr[prev := At(hdr, prev).(next := 0)];
        heapLast := prev;
      } else {
        heapStart, heapLast := 0, 0;
      }
      blocks := blocks[..|blocks| - 1];
    }

    method MergeBlocks(first: nat, second: nat, ghost i: nat)
      requires Stored() && i + 1 < |blocks| && blocks[i].addr == first && blocks[i + 1].addr == second
      modifies this
      ensures Stored() && blocks == Merge(old(blocks), i)
    {
      MergeFacts(hdr, blocks, i);
      ghost var target := MergeHeaders(hdr, first, second);
      var s := At(hdr, second);
      hdr := hdr[first := At(hdr, first).(size := At(hdr, first).size + s.size, next := s.next)];
      if s.next != 0 {
        hdr := hdr[s.next := At(hdr, s.next).(prev := first)];
      } else {
        heapLast := first;
      }
      hdr := hdr[second := At(hdr, second).(magic := 0)];
      assert hdr == target;
      blocks := Merge(blocks, i);
    }
  }

  lemma MallocFits(blocks: seq<Block>, size: nat, i: nat, c: seq<Block>)
    requires i == FirstFit(blocks, HEADER + size) < |blocks| && c == HeapBlocks.Crop(Use(blocks, i), i, HEADER + size)
    ensures c == Malloc(blocks, size) && Given(blocks, size).addr == blocks[i].addr
  {
    var used := UseIndex(blocks, i, HEADER + size);
    assert c[i] == used[0];
  }

  lemma MallocEnd(blocks: seq<Block>, size: nat)
    requires WellFormed(blocks)
    ensures End(Malloc(blocks, size)) ==
      if FirstFit(blocks, HEADER + size) < |blocks| then End(blocks) else End(blocks) + HEADER + size
  {
    var i := FirstFit(blocks, HEADER + size);
    if i < |blocks| {
      CropEnd(Use(blocks, i), i, HEADER + size);
    }
  }

  lemma CropEnd(blocks: seq<Block>, i: nat, newSize: nat)
    requires i < |blocks| && newSize <= blocks[i].size
    ensures End(HeapBlocks.Crop(blocks, i, newSize)) == End(blocks)
  {
    if newSize + HEADER < blocks[i].size {
      CropIndex(blocks, i, newSize);
    }
  }

  lemma PopEnd(blocks: seq<Block>)
    requires Tiled(blocks) && blocks != []
    ensures var rest := blocks[..|blocks| - 1];
      && Tiled(rest) && End(blocks) == End(rest) + blocks[|blocks| - 1].size && End(rest) >= HEAP_START
      && (LastAddr(rest) == 0 <==> rest == [])
  {
    Distinct(blocks);
  }

  lemma FirstFitIs(blocks: seq<Block>, need: nat, i: nat)
    requires i <= |blocks| && (i < |blocks| ==> Fits(blocks[i], need))
    requires forall k | 0 <= k < i :: !Fits(blocks[k], need)
    ensures i == FirstFit(blocks, need)
  {
    var f := FirstFit(blocks, need);
  }

  lemma MergeFacts(hdr: Headers, blocks: seq<Block>, i: nat)
    requires Tiled(blocks) && Linked(hdr, blocks) && i + 1 < |blocks|
    ensures var m := Merge(blocks, i);
      && Tiled(m) && Linked(MergeHeaders(hdr, blocks[i].addr, blocks[i + 1].addr), m)
      && FirstAddr(m) == FirstAddr(blocks)
      && LastAddr(m) == if At(hdr, blocks[i + 1].addr).next == 0 then blocks[i].addr else LastAddr(blocks)
  {
    LinkedMerge(hdr, blocks, i);
    MergeTiled(blocks, i);
    MergeIndex(blocks, i);
    assert LinkedAt(hdr, blocks, i + 1);
    if i + 2 < |blocks| { AddrsDiffer(blocks, i + 2, i); }
  }

  lemma CropTiled(blocks: seq<Block>, i: nat, newSize: nat)
    requires Tiled(blocks) && i < |blocks| && HEADER <= newSize && newSize + HEADER < blocks[i].size
    ensures Tiled(HeapBlocks.Crop(blocks, i, newSize))
  {
    var c := HeapBlocks.Crop(blocks, i, newSize);
    CropIndex(blocks, i, newSize);
    forall k | 0 < k < |c|
      ensures c[k].addr == c[k - 1].addr + c[k - 1].size
    {
      CropTiledAt(blocks, c, i, newSize, k);
    }
    forall k | 0 <= k < |c|
      ensures c[k].size >= HEADER
    {
      if k > i + 1 { assert blocks[k - 1].size >= HEADER; }
    }
  }

  lemma CropTiledAt(blocks: seq<Block>, c: seq<Block>, i: nat, newSize: nat, k: nat)
    requires Tiled(blocks) && i < |blocks| && newSize <= blocks[i].size && 0 < k < |c| == |blocks| + 1
    requires c[i].addr == blocks[i].addr && c[i].size == newSize
    requires c[i + 1].addr == blocks[i].addr + newSize && c[i + 1].size == blocks[i].size - newSize
    requires forall j | 0 <= j < i :: c[j] == blocks[j]
    requires forall j | i + 1 < j < |c| :: c[j] == blocks[j - 1]
    ensures c[k].addr == c[k - 1].addr + c[k - 1].size
  {
    if k <= i {
      assert blocks[k].addr == blocks[k - 1].addr + blocks[k - 1].size;
    } else if k >= i + 2 {
      assert blocks[k - 1].addr == blocks[k - 2].addr + blocks[k - 2].size;
    }
  }

  lemma CropEnds(blocks: seq<Block>, i: nat, newSize: nat)
    requires i < |blocks| && newSize + HEADER < blocks[i].size
    ensures var c := HeapBlocks.Crop(blocks, i, newSize);
      && LastAddr(c) == (if i + 1 == |blocks| then blocks[i].addr + newSize else LastAddr(blocks))
      && FirstAddr(c) == FirstAddr(blocks)
  {
    CropIndex(blocks, i, newSize);
  }
}
