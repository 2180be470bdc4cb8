/** Program segments: where the heap may start, which pages the loader serves, and what a
    page of the program holds. */
module Segments {
  import opened Layout
  import opened Bytes

  /** A program header: LOAD segments are the ones that count. */
  datatype Segment = Segment(
    load: bool, exec: bool, write: bool,
    offset: Word, vaddr: Word, filesz: Word, memsz: Word)

  /** Where a segment ends, in 64-bit words. */
  function End(g: Segment): Word {
    (g.vaddr + g.memsz) % WORD
  }

  // ------------------------------------------------------ the minimal break

  /** The page boundary after an address, in 64-bit words: zero after the last page. */
  function Round(addr: Word): Word {
    (addr / 4096 + 1) * 4096 % WORD
  }

  const LAST_PAGE: nat := 0xffff_ffff_ffff_f000

  lemma RoundIs(addr: Word)
    ensures Round(addr) == if addr < LAST_PAGE then (addr / 4096 + 1) * 4096 else 0
  {
  }

  /** load_heap_brk's loop over the first segments. */
  function MinBreak(segs: seq<Segment>): Word {
    if segs == [] then 0
    else
      var m := MinBreak(segs[..|segs| - 1]);
      var g := segs[|segs| - 1];
      if g.load && End(g) > m then Round(End(g)) else m
  }

  /** The break is page-aligned, and unless it is zero it is the first page boundary after
      the end of a LOAD segment. */
  lemma {:induction false} MinBreakIs(segs: seq<Segment>)
    ensures MinBreak(segs) % 4096 == 0 && MinBreak(segs) <= LAST_PAGE
    ensures MinBreak(segs) > 0 ==>
      exists i :: 0 <= i < |segs| && segs[i].load && End(segs[i]) < MinBreak(segs) <= End(segs[i]) + 4096
  {
    if segs != [] {
      var n := |segs| - 1;
      MinBreakIs(segs[..n]);
      RoundIs(End(segs[n]));
      if MinBreak(segs) > 0 {
        if segs[n].load && End(segs[n]) > MinBreak(segs[..n]) {
          assert End(segs[n]) < MinBreak(segs) <= End(segs[n]) + 4096;
        } else {
          var i :| 0 <= i < n && segs[..n][i].load
                   && End(segs[..n][i]) < MinBreak(segs) <= End(segs[..n][i]) + 4096;
          assert segs[i] == segs[..n][i];
        }
      }
    }
  }

  /** No LOAD segment ends above an address. */
  predicate AllBelow(segs: seq<Segment>, addr: nat) {
    forall i | 0 <= i < |segs| && segs[i].load :: End(segs[i]) <= addr
  }

  /** With all ends below the last page, nothing wraps. */
  lemma {:induction false} BreakAbove(segs: seq<Segment>)
    requires AllBelow(segs, LAST_PAGE - 1)
    ensures AllBelow(segs, MinBreak(segs))
  {
    if segs != [] {
      var n := |segs| - 1;
      assert forall i | 0 <= i < n :: segs[..n][i] == segs[i];
      BreakAbove(segs[..n]);
      RoundIs(End(segs[n]));
      forall i | 0 <= i < |segs| && segs[i].load
        ensures End(segs[i]) <= MinBreak(segs)
      {
        assert i < n ==> segs[..n][i] == segs[i];
      }
    }
  }

  /** Every LOAD segment ends before the last page of the address space, or the break is
      that page and none ends above it. */
  predicate BreakHolds(segs: seq<Segment>) {
    AllBelow(segs, LAST_PAGE - 1) || (AllBelow(segs, LAST_PAGE) && MinBreak(segs) == LAST_PAGE)
  }

  /** The break is no lower than the end of any LOAD segment if and only if the rounding
      cannot have wrapped. */
  lemma BreakExactly(segs: seq<Segment>)
    ensures AllBelow(segs, MinBreak(segs)) <==> BreakHolds(segs)
  {
    MinBreakIs(segs);
    if BreakHolds(segs) {
      if AllBelow(segs, LAST_PAGE - 1) { BreakAbove(segs); }
    }
  }

  // ------------------------------------------------------- serving a page

  /** The test of loader_load: the page starts inside the segment. */
  predicate Covers(g: Segment, page: nat) {
    g.load && g.vaddr <= page * 4096 < End(g)
  }

  /** The first segment that serves a page, or the number of segments. */
  function Serving(segs: seq<Segment>, page: nat): (k: nat)
    ensures k <= |segs| && (k < |segs| ==> Covers(segs[k], page))
    ensures forall i | 0 <= i < k :: !Covers(segs[i], page)
  {
    if segs == [] || Covers(segs[0], page) then 0 else 1 + Serving(segs[1..], page)
  }

  /** A page is only served by a segment whose end does not wrap. */
  lemma CoversIs(g: Segment, page: nat)
    requires Covers(g, page)
    ensures End(g) == g.vaddr + g.memsz
  {
  }

  /** The heap and the loader never serve the same page, when the break holds. */
  lemma NoPageServedTwice(segs: seq<Segment>, page: nat, addr: nat)
    requires BreakHolds(segs) && Serving(segs, page) < |segs| && MinBreak(segs) <= addr
    ensures addr / 4096 != page
  {
    BreakExactly(segs);
    MinBreakIs(segs);
    var g := segs[Serving(segs, page)];
    assert End(g) <= MinBreak(segs);
  }

  /** A segment that ends in the last page, and a small one behind it. */
  function WrappedBreak(): seq<Segment> {
    [Segment(true, true, true, 0, 0x40_0000, 0, 0xffff_ffff_ffbf_ffff),
     Segment(true, true, true, 0, 0, 0, 0x1000)]
  }

  /** The first rounding wraps to zero, the break comes to lie above the second segment only,
      and the page at 4 MiB is one of the program and, once the break has grown past it, one
      of the heap. */
  lemma ServedTwice()
    ensures var segs := WrappedBreak();
      && !BreakHolds(segs) && MinBreak(segs) == 0x2000
      && Serving(segs, 0x400) == 0 && MinBreak(segs) <= 0x40_0000 && 0x40_0000 / 4096 == 0x400
  {
    var segs := WrappedBreak();
    assert segs[..1] == [segs[0]] && segs[..1][..0] == [];
    RoundIs(End(segs[0]));
    assert MinBreak(segs[..1]) == 0;
    assert Covers(segs[0], 0x400);
    assert End(segs[0]) > LAST_PAGE;
  }

  // -------------------------------------------------------- page contents

  /** What loader_map_page reads for a page that starts inside the segment. */
  function ReadSize(g: Segment, page: nat): (r: nat)
    requires Covers(g, page)
    ensures r <= 4096
  {
    if End(g) < (page * 4096 + 4096) % WORD then End(g) - page * 4096 else 4096
  }

  function ReadOffset(g: Segment, page: nat): nat
    requires Covers(g, page)
  {
    (g.offset + page * 4096 - g.vaddr) % WORD
  }

  /** A cleared page into which some bytes of a file have been read. */
  function PageOf(file: seq<Byte>, offset: nat, size: nat): (r: seq<Byte>)
    requires size <= 4096
    ensures |r| == 4096
  {
    var data := Slice(file, offset, size);
    data + Zeros(4096 - |data|)
  }

  /** The bytes of a page after loader_map_page. */
  function Loaded(file: seq<Byte>, g: Segment, page: nat): (r: seq<Byte>)
    requires Covers(g, page)
    ensures |r| == 4096
  {
    PageOf(file, ReadOffset(g, page), ReadSize(g, page))
  }

  /** Byte `addr` of a segment as the program header describes it: file contents for the
      first filesz bytes, zero beyond. */
  function ImageByte(file: seq<Byte>, g: Segment, addr: nat): Byte {
    if g.vaddr <= addr < g.vaddr + g.filesz && g.offset + (addr - g.vaddr) < |file|
    then file[g.offset + (addr - g.vaddr)] else 0
  }

  function Image(file: seq<Byte>, g: Segment, page: nat): (r: seq<Byte>)
    ensures |r| == 4096
  {
    seq(4096, i requires 0 <= i < 4096 => ImageByte(file, g, page * 4096 + i))
  }

  /** Byte i of a page as it is read, in a page before the last. */
  function ReadByte(file: seq<Byte>, g: Segment, page: nat, i: nat): Byte
    requires Covers(g, page)
  {
    if page * 4096 + i < End(g) && ReadOffset(g, page) + i < |file| then file[ReadOffset(g, page) + i] else 0
  }

  lemma LoadedByte(file: seq<Byte>, g: Segment, page: nat, i: nat)
    requires Covers(g, page) && page * 4096 < LAST_PAGE && i < 4096
    ensures Loaded(file, g, page)[i] == ReadByte(file, g, page, i)
  {
    assert (page * 4096 + 4096) % WORD == page * 4096 + 4096;
  }

  /** The offset of the page's bytes in the file does not fit a word. */
  predicate OffsetWraps(g: Segment, page: nat) {
    g.offset + page * 4096 - g.vaddr >= WORD
  }

  /** Where the page is to be zero although it lies inside the segment, past the segment's
      bytes in the file or past the end of any file, the bytes read are zero. */
  predicate Clean(file: seq<Byte>, g: Segment, page: nat)
    requires Covers(g, page)
  {
    forall i | 0 <= i < 4096 && (g.vaddr + g.filesz <= page * 4096 + i || OffsetWraps(g, page)) ::
      ReadByte(file, g, page, i) == 0
  }

  /** One byte of the page. */
  lemma LoadedAgrees(file: seq<Byte>, g: Segment, page: nat, i: nat)
    requires Covers(g, page) && page * 4096 < LAST_PAGE && g.filesz <= g.memsz && |file| <= WORD && i < 4096
    ensures Loaded(file, g, page)[i] == Image(file, g, page)[i]
       <==> (g.vaddr + g.filesz <= page * 4096 + i || OffsetWraps(g, page) ==> ReadByte(file, g, page, i) == 0)
  {
    LoadedByte(file, g, page, i);
    CoversIs(g, page);
    assert Image(file, g, page)[i] == ImageByte(file, g, page * 4096 + i);
    if !OffsetWraps(g, page) {
      assert ReadOffset(g, page) == g.offset + page * 4096 - g.vaddr;
    }
  }

  /** A page is loaded as the program header describes it if and only if the bytes read where
      it is to be zero are zero. */
  lemma LoadedExactly(file: seq<Byte>, g: Segment, page: nat)
    requires Covers(g, page) && page * 4096 < LAST_PAGE && g.filesz <= g.memsz && |file| <= WORD
    ensures Loaded(file, g, page) == Image(file, g, page) <==> Clean(file, g, page)
  {
    if Loaded(file, g, page) == Image(file, g, page) {
      forall i | 0 <= i < 4096 && (g.vaddr + g.filesz <= page * 4096 + i || OffsetWraps(g, page))
        ensures ReadByte(file, g, page, i) == 0
      {
        LoadedAgrees(file, g, page, i);
      }
    }
    if Clean(file, g, page) {
      forall i | 0 <= i < 4096
        ensures Loaded(file, g, page)[i] == Image(file, g, page)[i]
      {
        LoadedAgrees(file, g, page, i);
      }
    }
  }

  /** With as many bytes in the file as in memory there is nothing to be zero. */
  lemma FullSegment(file: seq<Byte>, g: Segment, page: nat)
    requires Covers(g, page) && page * 4096 < LAST_PAGE && |file| <= WORD
    requires g.filesz == g.memsz && g.offset + g.memsz <= WORD
    ensures Loaded(file, g, page) == Image(file, g, page)
  {
    CoversIs(g, page);
    forall i | 0 <= i < 4096 && g.vaddr + g.filesz <= page * 4096 + i
      ensures ReadByte(file, g, page, i) == 0
    {
    }
    LoadedExactly(file, g, page);
  }

  // ---------------------------------------------------- the whole program

  predicate PageDisjoint(a: Segment, b: Segment) {
    (End(a) + 4095) / 4096 <= b.vaddr / 4096 || (End(b) + 4095) / 4096 <= a.vaddr / 4096
  }

  /** The segment starts on a page boundary and lies in user space, its bytes in a file. */
  predicate Proper(g: Segment) {
    g.vaddr % 4096 == 0 && g.vaddr + g.memsz <= USER_BREAK && g.offset + g.memsz <= WORD
  }

  /** LOAD segments are proper and share no page. */
  predicate WellFormed(segs: seq<Segment>) {
    && (forall i | 0 <= i < |segs| && segs[i].load :: Proper(segs[i]))
    && (forall i, j | 0 <= i < j < |segs| && segs[i].load && segs[j].load :: PageDisjoint(segs[i], segs[j]))
  }

  /** Byte `addr` of the program: that of the LOAD segment it lies in. */
  function ProgramByte(file: seq<Byte>, segs: seq<Segment>, addr: nat): Byte {
    if segs == [] then 0
    else if segs[0].load && segs[0].vaddr <= addr < End(segs[0]) then ImageByte(file, segs[0], addr)
    else ProgramByte(file, segs[1..], addr)
  }

  function ProgramPage(file: seq<Byte>, segs: seq<Segment>, page: nat): (r: seq<Byte>)
    ensures |r| == 4096
  {
    seq(4096, i requires 0 <= i < 4096 => ProgramByte(file, segs, page * 4096 + i))
  }

  /** A byte of a page belongs to no other segment than the one that serves the page. */
  lemma {:induction false} ProgramByteIs(file: seq<Byte>, segs: seq<Segment>, page: nat, addr: nat, k: nat)
    requires WellFormed(segs) && k < |segs| && Covers(segs[k], page) && page * 4096 <= addr < page * 4096 + 4096
    requires segs[k].filesz <= segs[k].memsz
    ensures ProgramByte(file, segs, addr) == ImageByte(file, segs[k], addr)
    decreases |segs|
  {
    if k == 0 {
      if addr >= End(segs[0]) {
        NotElsewhere(file, segs, page, addr, 0, segs[1..]);
      }
    } else {
      assert segs[0].load ==> PageDisjoint(segs[0], segs[k]);
      NotInFirst(segs[0], segs[k], page, addr);
      WellFormedTail(segs);
      ProgramByteIs(file, segs[1..], page, addr, k - 1);
    }
  }

  /** A segment that shares no page with the one that serves the page has none of its bytes. */
  lemma NotInFirst(a: Segment, b: Segment, page: nat, addr: nat)
    requires (a.load ==> PageDisjoint(a, b)) && Covers(b, page) && page * 4096 <= addr < page * 4096 + 4096
    ensures !(a.load && a.vaddr <= addr < End(a))
  {
  }

  lemma WellFormedTail(segs: seq<Segment>)
    requires WellFormed(segs) && segs != []
    ensures WellFormed(segs[1..])
  {
    var r := segs[1..];
    assert forall i | 0 <= i < |r| :: r[i] == segs[i + 1];
  }

  /** Past the end of the segment that serves a page, no later segment has the byte. */
  lemma {:induction false} NotElsewhere(file: seq<Byte>, segs: seq<Segment>, page: nat, addr: nat, k: nat, rest: seq<Segment>)
    requires k < |segs| && Covers(segs[k], page) && page * 4096 <= addr < page * 4096 + 4096
    requires WellFormed(segs) && |rest| < |segs| - k && rest == segs[|segs| - |rest|..]
    ensures ProgramByte(file, rest, addr) == 0
    decreases |rest|
  {
    if rest != [] {
      var j := |segs| - |rest|;
      assert rest[0] == segs[j];
      assert segs[j].load ==> PageDisjoint(segs[k], segs[j]);
      NotElsewhere(file, segs, page, addr, k, rest[1..]);
    }
  }

  /** An address that a LOAD segment occupies. */
  predicate Occupied(segs: seq<Segment>, addr: nat) {
    exists i :: 0 <= i < |segs| && segs[i].load && segs[i].vaddr <= addr < segs[i].vaddr + segs[i].memsz
  }

  /** The pages the loader serves are those with a byte of the program in them, no fewer and
      no more. */
  lemma ServedPages(segs: seq<Segment>, page: nat)
    requires WellFormed(segs)
    ensures Serving(segs, page) < |segs| <==> exists addr :: addr / 4096 == page && Occupied(segs, addr)
  {
    var k := Serving(segs, page);
    if k < |segs| {
      CoversIs(segs[k], page);
      assert page * 4096 / 4096 == page && Occupied(segs, page * 4096);
    }
    if addr :| addr / 4096 == page && Occupied(segs, addr) {
      var i :| 0 <= i < |segs| && segs[i].load && segs[i].vaddr <= addr < segs[i].vaddr + segs[i].memsz;
      assert Proper(segs[i]);
      StartsInside(segs[i], addr, page);
    }
  }

  lemma StartsInside(g: Segment, addr: nat, page: nat)
    requires g.load && Proper(g) && g.vaddr <= addr < g.vaddr + g.memsz && addr / 4096 == page
    ensures Covers(g, page)
  {
    assert addr == page * 4096 + addr % 4096;
    assert g.vaddr == g.vaddr / 4096 * 4096;
  }

  /** What the loader puts into a page is that page of the program, when every LOAD segment
      has as many bytes in the file as in memory. */
  lemma LoadedIsProgram(file: seq<Byte>, segs: seq<Segment>, page: nat)
    requires WellFormed(segs) && forall i | 0 <= i < |segs| && segs[i].load :: segs[i].filesz == segs[i].memsz
    requires Serving(segs, page) < |segs| && |file| <= WORD
    ensures Loaded(file, segs[Serving(segs, page)], page) == ProgramPage(file, segs, page)
  {
    var k := Serving(segs, page);
    assert Proper(segs[k]);
    FullSegment(file, segs[k], page);
    forall i | 0 <= i < 4096
      ensures Image(file, segs[k], page)[i] == ProgramPage(file, segs, page)[i]
    {
      ProgramByteIs(file, segs, page, page * 4096 + i, k);
    }
  }
}
