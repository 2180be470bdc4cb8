/** The kernel heap as a row of blocks: what kmalloc and kfree do to it. */
module HeapBlocks {
  import opened Layout

  /** The fields of hblock_t, packed, without those of a debug build. */
  datatype Field = Available | Magic | Prev | Next | Size

  /** Where a field starts in the header. */
  function Offset(f: Field): nat {
    match f
    case Available => 0
    case Magic => 4
    case Prev => 8
    case Next => 16
    case Size => 24
  }

  function Width(f: Field): nat {
    if f.Available? || f.Magic? then 4 else 8
  }

  /** sizeof(hblock_t). */
  const HEADER: nat := 32

  /** A block with its header: where it starts, how long it is, whether it is free. */
  datatype Block = Block(addr: nat, size: nat, free: bool)

  function End(blocks: seq<Block>): nat {
    if blocks == [] then HEAP_START else blocks[|blocks| - 1].addr + blocks[|blocks| - 1].size
  }

  // ------------------------------------------------------------- structure

  /** The blocks follow each other without gaps from the start of the heap. */
  ghost predicate Tiled(blocks: seq<Block>) {
    && (blocks != [] ==> blocks[0].addr == HEAP_START)
    && (forall i | 0 <= i < |blocks| :: blocks[i].size >= HEADER)
    && (forall i, j | 0 <= i < |blocks| && 0 <= j < |blocks| && j == i + 1 :: blocks[j].addr == blocks[i].addr + blocks[i].size)
  }

  ghost predicate NoTwoFree(blocks: seq<Block>) {
    forall i, j | 0 <= i < |blocks| && 0 <= j < |blocks| && j == i + 1 :: !(blocks[i].free && blocks[j].free)
  }

  predicate LastUsed(blocks: seq<Block>) {
    blocks != [] ==> !blocks[|blocks| - 1].free
  }

  ghost predicate WellFormed(blocks: seq<Block>) {
    Tiled(blocks) && NoTwoFree(blocks) && LastUsed(blocks)
  }

  /** Blocks in use, each with its place and length. */
  function Live(blocks: seq<Block>): set<Block> {
    set b | b in blocks && !b.free
  }

  /** An earlier block ends before a later one starts. */
  lemma {:induction false} Ordered(blocks: seq<Block>, i: nat, j: nat)
    requires Tiled(blocks) && i < j < |blocks|
    ensures blocks[i].addr + blocks[i].size <= blocks[j].addr
  {
    if i + 1 < j {
      Ordered(blocks, i, j - 1);
    }
  }

  lemma Distinct(blocks: seq<Block>)
    requires Tiled(blocks)
    ensures forall i, j | 0 <= i < j < |blocks| :: blocks[i].addr + blocks[i].size <= blocks[j].addr
    ensures forall i | 0 <= i < |blocks| :: HEAP_START <= blocks[i].addr
  {
    forall i, j | 0 <= i < j < |blocks|
      ensures blocks[i].addr + blocks[i].size <= blocks[j].addr
    {
      Ordered(blocks, i, j);
    }
    forall i | 0 <= i < |blocks|
      ensures HEAP_START <= blocks[i].addr
    {
      if i > 0 { Ordered(blocks, 0, i); }
    }
  }

  /** Different blocks have different addresses, none of them null. */
  lemma AddrsDiffer(blocks: seq<Block>, i: nat, j: nat)
    requires Tiled(blocks) && i < |blocks| && j < |blocks|
    ensures i < j ==> blocks[i].addr + HEADER <= blocks[j].addr
    ensures j < i ==> blocks[j].addr + HEADER <= blocks[i].addr
    ensures blocks[i].addr != 0
  {
    if i < j { Ordered(blocks, i, j); }
    if j < i { Ordered(blocks, j, i); }
    if i > 0 { Ordered(blocks, 0, i); }
  }

  /** Byte x is one of a field of the block's header. */
  predicate InField(b: Block, f: Field, x: nat) {
    b.addr + Offset(f) <= x < b.addr + Offset(f) + Width(f)
  }

  /** Byte x is one that the owner of the block may use. */
  predicate InPayload(b: Block, x: nat) {
    b.addr + HEADER <= x < b.addr + b.size
  }

  /** Each byte of a header belongs to one field and no byte of a payload to any, whichever
      blocks of the heap the two are. */
  lemma HeadersApart(blocks: seq<Block>, i: nat, j: nat, x: nat)
    requires Tiled(blocks) && i < |blocks| && j < |blocks|
    ensures InPayload(blocks[j], x) ==> forall f: Field :: !InField(blocks[i], f, x)
    ensures blocks[i].addr <= x < blocks[i].addr + HEADER ==> exists f: Field :: InField(blocks[i], f, x)
    ensures forall f: Field, g: Field | f != g :: !(InField(blocks[i], f, x) && InField(blocks[i], g, x))
  {
    var b := blocks[i];
    Distinct(blocks);
    assert blocks[i].addr <= x < blocks[i].addr + HEADER ==>
      InField(b, Available, x) || InField(b, Magic, x) || InField(b, Prev, x) || InField(b, Next, x) || InField(b, Size, x);
    forall f: Field
      ensures Offset(f) + Width(f) <= HEADER
    {
    }
  }

  /** Payloads of different blocks in use do not overlap. */
  lemma PayloadsDisjoint(blocks: seq<Block>, a: Block, b: Block)
    requires Tiled(blocks) && a in Live(blocks) && b in Live(blocks) && a != b
    ensures a.addr + a.size <= b.addr || b.addr + b.size <= a.addr
  {
    var i :| 0 <= i < |blocks| && blocks[i] == a;
    var j :| 0 <= j < |blocks| && blocks[j] == b;
    Distinct(blocks);
  }

  // --------------------------------------------------------------- kmalloc

  predicate Fits(b: Block, need: nat) {
    b.free && b.size >= need
  }

  /** Index of the first block that fits, or the number of blocks. */
  function FirstFit(blocks: seq<Block>, need: nat): (i: nat)
    ensures i <= |blocks| && (i < |blocks| ==> Fits(blocks[i], need))
    ensures forall k | 0 <= k < i :: !Fits(blocks[k], need)
  {
    if blocks == [] || Fits(blocks[0], need) then 0 else 1 + FirstFit(blocks[1..], need)
  }

  function Use(blocks: seq<Block>, i: nat): seq<Block>
    requires i < |blocks|
  {
    blocks[i := Block(blocks[i].addr, blocks[i].size, false)]
  }

  /** crop: the rest becomes a free block if it can hold more than a header. */
  function Crop(blocks: seq<Block>, i: nat, newSize: nat): seq<Block>
    requires i < |blocks| && newSize <= blocks[i].size
  {
    var b := blocks[i];
    if b.size - newSize <= HEADER then blocks
    else blocks[..i] + [Block(b.addr, newSize, b.free), Block(b.addr + newSize, b.size - newSize, true)] + blocks[i + 1..]
  }

  /** kmalloc on blocks: first fit, or a new block at the end of the heap. */
  function Malloc(blocks: seq<Block>, size: nat): seq<Block> {
    var need := HEADER + size;
    var i := FirstFit(blocks, need);
    if i < |blocks| then Crop(Use(blocks, i), i, need)
    else blocks + [Block(End(blocks), need, false)]
  }

  /** The block kmalloc hands out. */
  function Given(blocks: seq<Block>, size: nat): Block {
    Malloc(blocks, size)[FirstFit(blocks, HEADER + size)]
  }

  lemma CropKeeps(blocks: seq<Block>, i: nat, need: nat, c: seq<Block>)
    requires WellFormed(blocks) && i < |blocks| && Fits(blocks[i], need) && need >= HEADER
    requires c == Crop(Use(blocks, i), i, need)
    ensures WellFormed(c)
  {
    forall k | 0 < k < |c|
      ensures c[k].addr == c[k - 1].addr + c[k - 1].size && !(c[k - 1].free && c[k].free)
    {
      if |c| > |blocks| && k > i + 1 {
        assert c[k] == blocks[k - 1];
      }
    }
  }

  /** kmalloc keeps the heap well formed. */
  lemma MallocKeeps(blocks: seq<Block>, size: nat)
    requires WellFormed(blocks)
    ensures WellFormed(Malloc(blocks, size))
  {
    var i := FirstFit(blocks, HEADER + size);
    if i < |blocks| {
      CropKeeps(blocks, i, HEADER + size, Malloc(blocks, size));
    } else {
      AppendKeeps(blocks, HEADER + size, Malloc(blocks, size));
    }
  }

  lemma AppendKeeps(blocks: seq<Block>, need: nat, c: seq<Block>)
    requires WellFormed(blocks) && need >= HEADER && c == blocks + [Block(End(blocks), need, false)]
    ensures WellFormed(c)
  {
    forall k | 0 < k < |c|
      ensures c[k].addr == c[k - 1].addr + c[k - 1].size && !(c[k - 1].free && c[k].free)
    {
      if k < |blocks| {
        assert c[k] == blocks[k] && c[k - 1] == blocks[k - 1];
      }
    }
  }

  /** Where the blocks are after crop has split one. */
  lemma CropIndex(blocks: seq<Block>, i: nat, newSize: nat)
    requires i < |blocks| && newSize + HEADER < blocks[i].size
    ensures var c := Crop(blocks, i, newSize);
      && |c| == |blocks| + 1
      && c[i] == Block(blocks[i].addr, newSize, blocks[i].free)
      && c[i + 1] == Block(blocks[i].addr + newSize, blocks[i].size - newSize, true)
      && (forall k | 0 <= k < i :: c[k] == blocks[k])
      && (forall k | i + 1 < k < |c| :: c[k] == blocks[k - 1])
  {
    var c := Crop(blocks, i, newSize);
    forall k | i + 1 < k < |c|
      ensures c[k] == blocks[k - 1]
    {
      assert c[k] == blocks[i + 1..][k - (i + 2)];
    }
  }

  /** A block taken into use, split or not: the row before and after it is as it was. */
  lemma UseIndex(blocks: seq<Block>, i: nat, need: nat) returns (used: seq<Block>)
    requires i < |blocks| && Fits(blocks[i], need)
    ensures Crop(Use(blocks, i), i, need) == blocks[..i] + used + blocks[i + 1..]
    ensures used != [] && used[0].addr == blocks[i].addr && !used[0].free
    ensures forall k | 0 < k < |used| :: used[k].free
  {
    var u := Use(blocks, i);
    assert u[..i] == blocks[..i] && u[i + 1..] == blocks[i + 1..];
    if need + HEADER < blocks[i].size {
      used := [Block(u[i].addr, need, false), Block(u[i].addr + need, u[i].size - need, true)];
    } else {
      used := [u[i]];
      assert u == u[..i] + [u[i]] + u[i + 1..];
    }
  }

  lemma CropLive(blocks: seq<Block>, i: nat, need: nat)
    requires Tiled(blocks) && i < |blocks| && Fits(blocks[i], need)
    ensures var c := Crop(Use(blocks, i), i, need);
      Live(c) == Live(blocks) + {c[i]} && c[i] !in Live(blocks)
  {
    var used := UseIndex(blocks, i, need);
    LiveMoved(blocks, i, used, Crop(Use(blocks, i), i, need));
  }

  lemma LiveMoved(blocks: seq<Block>, i: nat, used: seq<Block>, c: seq<Block>)
    requires Tiled(blocks) && i < |blocks| && blocks[i].free && c == blocks[..i] + used + blocks[i + 1..]
    requires used != [] && used[0].addr == blocks[i].addr && !used[0].free
    requires forall k | 0 < k < |used| :: used[k].free
    ensures c[i] == used[0] && Live(c) == Live(blocks) + {c[i]} && c[i] !in Live(blocks)
  {
    assert blocks == blocks[..i] + [blocks[i]] + blocks[i + 1..];
    forall b
      ensures b in Live(c) <==> b in Live(blocks) || b == used[0]
    {
      assert b in used && !b.free <==> b == used[0];
    }
    forall b | b in Live(blocks)
      ensures b.addr != used[0].addr
    {
      var k :| 0 <= k < |blocks| && blocks[k] == b;
      AddrsDiffer(blocks, i, k);
    }
  }

  /** kmalloc adds one block in use, large enough, in the first place that fits, and
      leaves every other block in use where and as it was.  A block with more than a header to
      spare is split, any other is given whole. */
  lemma MallocLive(blocks: seq<Block>, size: nat)
    requires WellFormed(blocks)
    ensures var g := Given(blocks, size);
      && Live(Malloc(blocks, size)) == Live(blocks) + {g} && g !in Live(blocks)
      && !g.free && g.size >= HEADER + size
      && (forall b | b in blocks && Fits(b, HEADER + size) :: g.addr <= b.addr)
      && (g.addr == End(blocks) <==> !exists b :: b in blocks && Fits(b, HEADER + size))
      && (forall b | b in blocks && b.addr == g.addr && b.size > HEADER + size + HEADER :: g.size == HEADER + size)
      && (forall b | b in blocks && b.addr == g.addr && b.size <= HEADER + size + HEADER :: g.size == b.size)
  {
    var need := HEADER + size;
    var i := FirstFit(blocks, need);
    Distinct(blocks);
    if i < |blocks| {
      CropLive(blocks, i, need);
      assert blocks[i] in blocks && Fits(blocks[i], need);
      assert Given(blocks, size).addr == blocks[i].addr < End(blocks);
    } else {
      AppendLive(blocks, Block(End(blocks), need, false));
    }
  }

  lemma AppendLive(blocks: seq<Block>, n: Block)
    requires Tiled(blocks) && n.addr == End(blocks) && !n.free
    ensures Live(blocks + [n]) == Live(blocks) + {n} && n !in Live(blocks)
  {
    Distinct(blocks);
    assert forall b | b in Live(blocks) :: b.addr < n.addr;
    assert forall b | b in blocks + [n] :: b in blocks || b == n;
  }

  // ----------------------------------------------------------------- kfree

  function Free(blocks: seq<Block>, i: nat): seq<Block>
    requires i < |blocks|
  {
    blocks[i := Block(blocks[i].addr, blocks[i].size, true)]
  }

  /** merge_blocks: block i takes in its successor. */
  function Merge(blocks: seq<Block>, i: nat): seq<Block>
    requires i + 1 < |blocks|
  {
    var b := blocks[i];
    blocks[..i] + [Block(b.addr, b.size + blocks[i + 1].size, b.free)] + blocks[i + 2..]
  }

  function MergeNext(blocks: seq<Block>, i: nat): seq<Block>
    requires i < |blocks|
  {
    if i + 1 < |blocks| && blocks[i + 1].free then Merge(blocks, i) else blocks
  }

  function MergePrev(blocks: seq<Block>, i: nat): seq<Block>
    requires i < |blocks|
  {
    if i > 0 && blocks[i - 1].free then Merge(blocks, i - 1) else blocks
  }

  /** Release free blocks at the end. */
  function Trim(blocks: seq<Block>): seq<Block> {
    if blocks != [] && blocks[|blocks| - 1].free then Trim(blocks[..|blocks| - 1]) else blocks
  }

  /** kfree on blocks. */
  function Kfree(blocks: seq<Block>, i: nat): seq<Block>
    requires i < |blocks|
  {
    Trim(MergePrev(MergeNext(Free(blocks, i), i), i))
  }

  /** Two free neighbours only around block i: on its left if `left`, on its right if `right`. */
  predicate FreeAround(blocks: seq<Block>, i: nat, left: bool, right: bool) {
    && i < |blocks| && blocks[i].free
    && forall k | 0 < k < |blocks| && blocks[k - 1].free && blocks[k].free :: (left && k == i) || (right && k == i + 1)
  }

  lemma FreeStep(blocks: seq<Block>, i: nat)
    requires WellFormed(blocks) && i < |blocks|
    ensures Tiled(Free(blocks, i)) && FreeAround(Free(blocks, i), i, true, true)
    ensures !blocks[i].free ==> Live(Free(blocks, i)) == Live(blocks) - {blocks[i]}
  {
    var f := Free(blocks, i);
    Distinct(blocks);
    if !blocks[i].free {
      forall b | b in Live(blocks) - {blocks[i]}
        ensures b in Live(f)
      {
        var k :| 0 <= k < |blocks| && blocks[k] == b;
        assert f[k] == b;
      }
      forall b | b in Live(f)
        ensures b in Live(blocks) - {blocks[i]}
      {
        var k :| 0 <= k < |f| && f[k] == b;
        assert blocks[k] == b;
      }
    }
  }

  lemma MergeIndex(blocks: seq<Block>, i: nat)
    requires i + 1 < |blocks|
    ensures var m := Merge(blocks, i);
      && |m| == |blocks| - 1
      && m[i] == Block(blocks[i].addr, blocks[i].size + blocks[i + 1].size, blocks[i].free)
      && (forall k | 0 <= k < i :: m[k] == blocks[k])
      && (forall k | i < k < |m| :: m[k] == blocks[k + 1])
  {
  }

  lemma MergeTiled(blocks: seq<Block>, i: nat)
    requires Tiled(blocks) && i + 1 < |blocks|
    ensures Tiled(Merge(blocks, i)) && End(Merge(blocks, i)) == End(blocks)
  {
    MergeIndex(blocks, i);
  }

  /** Merging two free neighbours leaves the same blocks in use. */
  lemma MergeLive(blocks: seq<Block>, i: nat)
    requires i + 1 < |blocks| && blocks[i].free && blocks[i + 1].free
    ensures Live(Merge(blocks, i)) == Live(blocks)
  {
    var m := Merge(blocks, i);
    MergeIndex(blocks, i);
    forall b | b in Live(blocks)
      ensures b in Live(m)
    {
      var k :| 0 <= k < |blocks| && blocks[k] == b;
      assert m[if k < i then k else k - 1] == b;
    }
    forall b | b in Live(m)
      ensures b in Live(blocks)
    {
      var k :| 0 <= k < |m| && m[k] == b;
    }
  }

  lemma MergeNextStep(blocks: seq<Block>, i: nat)
    requires Tiled(blocks) && FreeAround(blocks, i, true, true)
    ensures var m := MergeNext(blocks, i);
      Tiled(m) && FreeAround(m, i, true, false) && Live(m) == Live(blocks)
  {
    if i + 1 < |blocks| && blocks[i + 1].free {
      MergeTiled(blocks, i);
      MergeLive(blocks, i);
      MergeIndex(blocks, i);
    }
  }

  lemma MergePrevStep(blocks: seq<Block>, i: nat)
    requires Tiled(blocks) && FreeAround(blocks, i, true, false)
    ensures var m := MergePrev(blocks, i);
      Tiled(m) && NoTwoFree(m) && Live(m) == Live(blocks)
  {
    if i > 0 && blocks[i - 1].free {
      MergeTiled(blocks, i - 1);
      MergeLive(blocks, i - 1);
      MergeIndex(blocks, i - 1);
    }
  }

  /** With no two free neighbours the trim loop runs at most once. */
  lemma TrimOnce(blocks: seq<Block>)
    requires Tiled(blocks) && NoTwoFree(blocks)
    ensures Trim(blocks) == if LastUsed(blocks) then blocks else blocks[..|blocks| - 1]
    ensures WellFormed(Trim(blocks)) && Live(Trim(blocks)) == Live(blocks)
  {
    if !LastUsed(blocks) {
      var n := |blocks| - 1;
      var t := blocks[..n];
      assert Trim(t) == t;
      forall b | b in Live(blocks)
        ensures b in Live(t)
      {
        var k :| 0 <= k < |blocks| && blocks[k] == b;
        assert t[k] == b;
      }
    }
  }

  /** kfree takes exactly one block out of use, moves no other, and keeps the heap
      well formed: neighbours merged, the last block in use. */
  lemma KfreeCorrect(blocks: seq<Block>, i: nat)
    requires WellFormed(blocks) && i < |blocks| && !blocks[i].free
    ensures WellFormed(Kfree(blocks, i)) && Live(Kfree(blocks, i)) == Live(blocks) - {blocks[i]}
  {
    FreeStep(blocks, i);
    MergeNextStep(Free(blocks, i), i);
    MergePrevStep(MergeNext(Free(blocks, i), i), i);
    TrimOnce(MergePrev(MergeNext(Free(blocks, i), i), i));
  }

  // ------------------------------------------------------------ whole runs

  datatype Op = Allocate(size: nat) | Release(addr: nat)

  function IndexOf(blocks: seq<Block>, addr: nat): (i: nat)
    ensures i < |blocks| ==> blocks[i].addr == addr && !blocks[i].free
    ensures i == |blocks| ==> forall b | b in Live(blocks) :: b.addr != addr
    ensures i <= |blocks|
  {
    if blocks == [] then 0
    else if blocks[0].addr == addr && !blocks[0].free then 0
    else
      assert forall b | b in Live(blocks) :: b == blocks[0] || b in Live(blocks[1..]);
      1 + IndexOf(blocks[1..], addr)
  }

  function Step(blocks: seq<Block>, op: Op): seq<Block> {
    match op
    case Allocate(size) => Malloc(blocks, size)
    case Release(addr) =>
      var i := IndexOf(blocks, addr);
      if i < |blocks| then Kfree(blocks, i) else blocks
  }

  function Run(blocks: seq<Block>, ops: seq<Op>): seq<Block> {
    if ops == [] then blocks else Step(Run(blocks, ops[..|ops| - 1]), ops[|ops| - 1])
  }

  lemma StepKeeps(blocks: seq<Block>, op: Op)
    requires WellFormed(blocks)
    ensures WellFormed(Step(blocks, op))
  {
    match op
    case Allocate(size) => MallocKeeps(blocks, size);
    case Release(addr) =>
      if IndexOf(blocks, addr) < |blocks| { KfreeCorrect(blocks, IndexOf(blocks, addr)); }
  }

  /** A heap that is not empty has a block in use. */
  lemma LastIsLive(blocks: seq<Block>)
    requires LastUsed(blocks) && blocks != []
    ensures Live(blocks) != {}
  {
    assert blocks[|blocks| - 1] in Live(blocks);
  }

  /** Every run of kmalloc and kfree keeps the heap well formed, and a heap with
      nothing in use is empty with the break at its start, whatever the order of
      the frees that led there. */
  lemma {:induction false} RunCorrect(ops: seq<Op>)
    ensures WellFormed(Run([], ops))
    ensures Live(Run([], ops)) == {} ==> Run([], ops) == [] && End(Run([], ops)) == HEAP_START
  {
    if ops != [] {
      RunCorrect(ops[..|ops| - 1]);
      StepKeeps(Run([], ops[..|ops| - 1]), ops[|ops| - 1]);
    }
    if Run([], ops) != [] {
      LastIsLive(Run([], ops));
    }
  }

  function Releases(order: seq<Block>): (ops: seq<Op>)
    ensures |ops| == |order|
  {
    if order == [] then [] else Releases(order[..|order| - 1]) + [Release(order[|order| - 1].addr)]
  }

  lemma SameAddr(blocks: seq<Block>, a: Block, b: Block)
    requires Tiled(blocks) && a in Live(blocks) && b in Live(blocks) && a.addr == b.addr
    ensures a == b
  {
    var i :| 0 <= i < |blocks| && blocks[i] == a;
    var j :| 0 <= j < |blocks| && blocks[j] == b;
    Distinct(blocks);
  }

  /** Releasing one block in use, or one that is no longer in use. */
  lemma ReleaseStep(blocks: seq<Block>, live: set<Block>, b: Block)
    requires WellFormed(blocks) && Live(blocks) <= live
    requires forall c | c in live && c.addr == b.addr :: c == b
    ensures WellFormed(Step(blocks, Release(b.addr)))
    ensures Live(Step(blocks, Release(b.addr))) == Live(blocks) - {b}
  {
    var i := IndexOf(blocks, b.addr);
    if i < |blocks| {
      KfreeCorrect(blocks, i);
      assert blocks[i] in Live(blocks);
    }
  }

  lemma ReleasesNext(blocks: seq<Block>, rest: seq<Block>, b: Block)
    ensures Run(blocks, Releases(rest + [b])) == Step(Run(blocks, Releases(rest)), Release(b.addr))
  {
    var order := rest + [b];
    assert order[..|order| - 1] == rest;
    assert Releases(order)[..|rest|] == Releases(rest);
  }

  lemma {:induction false} FreeSome(blocks: seq<Block>, order: seq<Block>)
    requires WellFormed(blocks) && forall b | b in order :: b in Live(blocks)
    ensures var r := Run(blocks, Releases(order));
      WellFormed(r) && Live(r) == Live(blocks) - (set b | b in order)
  {
    if order == [] {
      assert Releases(order) == [];
    } else {
      var rest, b := order[..|order| - 1], order[|order| - 1];
      assert order == rest + [b];
      FreeSome(blocks, rest);
      FreeOneMore(blocks, Run(blocks, Releases(rest)), rest, b);
      ReleasesNext(blocks, rest, b);
    }
  }

  lemma FreeOneMore(blocks: seq<Block>, r: seq<Block>, rest: seq<Block>, b: Block)
    requires WellFormed(blocks) && b in Live(blocks)
    requires WellFormed(r) && Live(r) == Live(blocks) - (set c | c in rest)
    ensures var r' := Step(r, Release(b.addr));
      WellFormed(r') && Live(r') == Live(blocks) - (set c | c in rest + [b])
  {
    forall c | c in Live(blocks) && c.addr == b.addr
      ensures c == b
    {
      SameAddr(blocks, c, b);
    }
    ReleaseStep(r, Live(blocks), b);
  }

  /** Freeing every block in use, in any order, empties the heap and brings the
      break back to its start. */
  lemma FreeAll(blocks: seq<Block>, order: seq<Block>)
    requires WellFormed(blocks) && Live(blocks) == (set b | b in order)
    ensures Run(blocks, Releases(order)) == [] && End(Run(blocks, Releases(order))) == HEAP_START
  {
    FreeSome(blocks, order);
    if Run(blocks, Releases(order)) != [] {
      LastIsLive(Run(blocks, Releases(order)));
    }
  }
}
