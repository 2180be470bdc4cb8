/** The page frame allocator: a bitmap of used frames over physical memory. */
module FrameAllocator {
  import opened Layout
  import opened Wrappers
  import opened Bitmaps
  import opened PageTables

  function SetBits(bits: seq<bool>, size: nat): set<nat> {
    set i | 0 <= i < size && i < |bits| && bits[i]
  }

  function Below(size: nat): (s: set<nat>)
    ensures |s| == size && forall i :: i in s <==> 0 <= i < size
  {
    if size == 0 then {} else Below(size - 1) + {size - 1}
  }

  /** With a frame to spare, some frame below the size is free. */
  lemma RoomLeft(used: set<nat>, size: nat)
    requires used <= Below(size) && |used| < size
    ensures exists i :: 0 <= i < size && i !in used
  {
    assert used != Below(size);
    var i :| i in Below(size) && i !in used;
  }

  lemma SetBitsBelow(bits: seq<bool>, size: nat)
    ensures SetBits(bits, size) <= Below(size)
  {
  }

  lemma SomeClear(bits: seq<bool>, size: nat)
    requires size <= |bits| && |SetBits(bits, size)| < size
    ensures !AllSet(bits, |bits|)
  {
    SetBitsBelow(bits, size);
    RoomLeft(SetBits(bits, size), size);
  }

  /** With the padding set, the first clear bit is the lowest free frame. */
  lemma FirstClearIsLowest(bits: seq<bool>, size: nat, r: nat)
    requires size <= |bits| && forall i | size <= i < |bits| :: bits[i]
    requires r < |bits| && !bits[r] && AllSet(bits, r)
    ensures r < size && r == Lowest(SetBits(bits, size))
    ensures SetBits(bits[r := true], size) == SetBits(bits, size) + {r}
    ensures |SetBits(bits[r := true], size)| == |SetBits(bits, size)| + 1
  {
    var g := Lowest(SetBits(bits, size));
    assert r !in SetBits(bits, size) && forall k | 0 <= k < r :: k in SetBits(bits, size);
    assert SetBits(bits[r := true], size) == SetBits(bits, size) + {r};
  }

  const DMA_PAGES: nat := 16
  const MAX_PAGE: nat := 1048575

  class PageAllocator {
    const freePages: Bitmap
    /** Contents of the frames, as page tables. */
    var mem: Memory

    ghost predicate Valid()
      reads freePages.bytes
    {
      && freePages.Valid()
      // padding bits of the last byte count as used
      && forall i | freePages.size <= i < |freePages.Bits()| :: freePages.Bits()[i]
    }

    ghost function Used(): set<nat>
      reads freePages.bytes
    {
      SetBits(freePages.Bits(), freePages.size)
    }

    ghost predicate Room(n: nat)
      reads freePages.bytes
    {
      |Used()| + n <= freePages.size
    }

    /** create_pagemap starts from a bitmap of ones: every frame in use. */
    constructor (size: nat)
      ensures Valid() && freePages.size == size && mem == map[]
      ensures fresh(freePages) && fresh(freePages.bytes)
      ensures Used() == Below(size)
    {
      freePages := new Bitmap(size, 0xff);
      mem := map[];
      new;
      assert forall j | 0 <= j < 8 :: IsSet(0xff, j) by { FullByte(0xff); }
    }

    /** alloc_page: the lowest free frame, cleared. */
    method AllocPage() returns (ppn: nat)
      requires Valid() && Room(1)
      modifies this, freePages.bytes
      ensures Valid() && ppn < freePages.size
      ensures ppn == Lowest(old(Used()))
      ensures Used() == old(Used()) + {ppn} && |Used()| == |old(Used())| + 1
      ensures mem == old(mem)[ppn := ZeroTable()]
    {
      ghost var bits := freePages.Bits();
      SomeClear(bits, freePages.size);
      var r := freePages.FindFree();
      FirstClearIsLowest(bits, freePages.size, r);
      ppn := r;
      freePages.Set(ppn);
      mem := mem[ppn := ZeroTable()];
    }

    /** free_page: a frame number out of range is refused, a free frame is a bug. */
    method FreePage(page: nat)
      requires Valid() && (page < freePages.size ==> page in Used())
      modifies freePages.bytes
      ensures Valid() && Used() == old(Used()) - {page}
    {
      if page >= freePages.size {
        return;
      }
      freePages.Clr(page);
    }

    /** alloc_dma_region: the lowest free run of sixteen frames on a 64 KiB
        boundary, or nothing when there is none below 4 GiB. */
    method AllocDmaRegion() returns (r: Option<nat>)
      requires Valid()
      modifies freePages.bytes
      ensures Valid()
      ensures match r
        case None =>
          Used() == old(Used()) && forall p: nat :: !FreeRegion(old(Used()), freePages.size, p)
        case Some(addr) =>
          && addr % PAGE_SIZE == 0 && FreeRegion(old(Used()), freePages.size, addr / PAGE_SIZE)
          && Used() == old(Used()) + Region(addr / PAGE_SIZE)
          && forall p: nat | p < addr / PAGE_SIZE :: !FreeRegion(old(Used()), freePages.size, p)
    {
      ghost var bits := freePages.Bits();
      var start := freePages.FindNFree(DMA_PAGES);
      assert freePages.Bits() == bits;
      if start == -1 || start + DMA_PAGES > MAX_PAGE {
        NoRegion(bits, freePages.size, start);
        return None;
      }
      WindowIsRegion(bits, freePages.size, start);
      NoRegionBelow(bits, freePages.size, start);
      MarkRegion(start);
      assert start * PAGE_SIZE / PAGE_SIZE == start;
      return Some(start * PAGE_SIZE);
    }

    /** The loop that marks the region as used. */
    method MarkRegion(start: nat)
      requires Valid() && start + DMA_PAGES <= freePages.size
      modifies freePages.bytes
      ensures Valid() && Used() == old(Used()) + Region(start)
    {
      ghost var bits := freePages.Bits();
      var page, left := start, DMA_PAGES;
      while left > 0
        invariant 0 <= left <= DMA_PAGES && page == start + DMA_PAGES - left
        invariant freePages.Bits() == Marked(bits, start, page)
      {
        freePages.Set(page);
        page, left := page + 1, left - 1;
      }
      MarkedRegion(bits, freePages.size, start);
    }
  }

  /** Sixteen free frames on a 64 KiB boundary, below 4 GiB. */
  ghost predicate FreeRegion(used: set<nat>, size: nat, p: nat) {
    && p % DMA_PAGES == 0 && p + DMA_PAGES <= size && p + DMA_PAGES <= MAX_PAGE
    && Region(p) !! used
  }

  /** In bytes: 64 KiB on their own boundary that end before 4 GiB, all of whose sixteen frames
      exist and are free. */
  lemma RegionExactly(used: set<nat>, size: nat, p: nat)
    ensures FreeRegion(used, size, p) <==>
      && p * 4096 % 0x1_0000 == 0 && p * 4096 + 0x1_0000 < 0x1_0000_0000 && p + 16 <= size
      && forall f | p <= f < p + 16 :: f !in used
  {
    assert p * 4096 % 0x1_0000 == 0 <==> p % 16 == 0;
    assert forall f: nat :: f in Region(p) <==> p <= f < p + DMA_PAGES;
  }

  /** With the padding set, a clear window is a region of free frames inside the memory. */
  lemma WindowIsRegion(bits: seq<bool>, size: nat, p: nat)
    requires size <= |bits| && forall i | size <= i < |bits| :: bits[i]
    ensures ClearWindow(bits, p, DMA_PAGES) <==>
      p + DMA_PAGES <= size && Region(p) !! SetBits(bits, size)
  {
    if ClearWindow(bits, p, DMA_PAGES) {
      assert !bits[p + DMA_PAGES - 1];
    } else if p + DMA_PAGES <= size {
      var k :| p <= k < p + DMA_PAGES && bits[k];
      assert k in Region(p) && k in SetBits(bits, size);
    }
  }

  lemma NoRegionBelow(bits: seq<bool>, size: nat, start: nat)
    requires size <= |bits| && forall i | size <= i < |bits| :: bits[i]
    requires forall w: nat | w < start && w % DMA_PAGES == 0 :: !ClearWindow(bits, w, DMA_PAGES)
    ensures forall p: nat | p < start :: !FreeRegion(SetBits(bits, size), size, p)
  {
    forall p: nat | p < start
      ensures !FreeRegion(SetBits(bits, size), size, p)
    {
      WindowIsRegion(bits, size, p);
    }
  }

  lemma NoRegion(bits: seq<bool>, size: nat, start: int)
    requires size <= |bits| && forall i | size <= i < |bits| :: bits[i]
    requires start == -1 || start + DMA_PAGES > MAX_PAGE
    requires forall w: nat | (start == -1 || w < start) && w % DMA_PAGES == 0 :: !ClearWindow(bits, w, DMA_PAGES)
    ensures forall p: nat :: !FreeRegion(SetBits(bits, size), size, p)
  {
    forall p: nat
      ensures !FreeRegion(SetBits(bits, size), size, p)
    {
      WindowIsRegion(bits, size, p);
    }
  }

  lemma MarkedRegion(bits: seq<bool>, size: nat, start: nat)
    requires start + DMA_PAGES <= size <= |bits|
    ensures SetBits(Marked(bits, start, start + DMA_PAGES), size) == SetBits(bits, size) + Region(start)
  {
  }

  function Region(p: nat): set<nat> {
    Below(p + DMA_PAGES) - Below(p)
  }

  function Marked(bits: seq<bool>, start: nat, end: nat): seq<bool>
    requires start <= end <= |bits|
  {
    seq(|bits|, i requires 0 <= i < |bits| => bits[i] || start <= i < end)
  }
}
