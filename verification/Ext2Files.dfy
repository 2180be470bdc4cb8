/** What a file is, holes included, and exactly when ext2_read delivers it. */
module Ext2Files {
  import opened Wrappers
  import opened Layout
  import opened Bytes
  import opened Division
  import opened AtaDisk
  import opened FileContent
  import opened Ext2

  // ------------------------------------------------------- what a file is

  predicate BlockReadable(fs: Fs, b: nat) {
    Readable(fs.disk, BlockLba(fs, b), PerBlock(fs))
  }

  /** The bytes of a block of the file system. */
  function Stored(fs: Fs, b: nat): (r: seq<Byte>)
    requires ValidFs(fs) && BlockReadable(fs, b)
    ensures |r| == fs.blockSize
  {
    assert 512 * PerBlock(fs) == fs.blockSize;
    Sectors(fs.disk, BlockLba(fs, b), PerBlock(fs))
  }

  /** That is what lies there on the disk, counted in bytes from the start of the partition. */
  lemma StoredByte(fs: Fs, b: nat, j: nat)
    requires ValidFs(fs) && BlockReadable(fs, b) && j < fs.blockSize
    ensures 512 * fs.start + b * fs.blockSize + j < |fs.disk.data|
    ensures Stored(fs, b)[j] == fs.disk.data[512 * fs.start + b * fs.blockSize + j]
  {
    WholeSectors(fs);
    BlockByte(fs.disk, fs.start, b, PerBlock(fs), fs.blockSize, j);
  }

  lemma WholeSectors(fs: Fs)
    requires ValidFs(fs)
    ensures fs.blockSize == 512 * PerBlock(fs)
  {
  }

  lemma BlockByte(disk: Disk, start: nat, b: nat, per: nat, size: nat, j: nat)
    requires size == 512 * per && j < size && Readable(disk, start + Times(b, per), per)
    ensures 512 * start + b * size + j < |disk.data|
    ensures Sectors(disk, start + Times(b, per), per)[j] == disk.data[512 * start + b * size + j]
  {
    SectorsAt(disk, start + Times(b, per), per, j);
    BlockStart(start, b, per, size);
    SameByteAt(disk.data, 512 * (start + Times(b, per)) + j, 512 * start + b * size + j);
  }

  lemma SameByteAt(data: seq<Byte>, i: nat, k: nat)
    requires i == k < |data|
    ensures data[i] == data[k]
  {
  }

  lemma BlockStart(start: nat, b: nat, per: nat, size: nat)
    requires size == 512 * per
    ensures 512 * (start + Times(b, per)) == 512 * start + b * size
  {
    TimesIs(b, per);
    assert b * size == 512 * (b * per);
  }

  /** Word k of a block, as it is stored there. */
  ghost function WordIn(fs: Fs, b: nat, k: nat): (w: nat)
    requires ValidFs(fs) && BlockReadable(fs, b) && k < fs.blockSize / 4
    ensures w < 0x1_0000_0000
  {
    WordsOfBlock(fs);
    Row(Stored(fs, b))[k]
  }

  lemma WordsOfBlock(fs: Fs)
    requires ValidFs(fs)
    ensures fs.blockSize % 4 == 0
  {
    FourDivides(fs.blockSize);
  }

  lemma FourDivides(n: nat)
    requires n % 1024 == 0
    ensures n % 4 == 0
  {
    assert n == n / 1024 * 1024;
    QuotientIs(n, 4, n / 1024 * 256, 0);
  }

  /** The pointer for block `index` of the file, 0 for a hole: its own, or a word of the
      indirect block; None when that cannot be read.  A file without indirect block has
      holes where it would point. */
  ghost function Pointer(fs: Fs, inode: Inode, index: nat): (p: Option<nat>)
    requires ValidFs(fs) && ValidInode(fs, inode) && index < 12 + fs.blockSize / 4
    ensures p.Some? ==> p.value < 0x1_0000_0000
  {
    if index < 12 then Some(inode.blocks[index])
    else if inode.blocks[12] == 0 then Some(0)
    else if BlockReadable(fs, inode.blocks[12]) then Some(WordIn(fs, inode.blocks[12], index - 12))
    else None
  }

  ghost predicate Hole(fs: Fs, inode: Inode, index: nat)
    requires ValidFs(fs) && ValidInode(fs, inode) && index < 12 + fs.blockSize / 4
  {
    Pointer(fs, inode, index) == Some(0)
  }

  /** The block, or the indirect block that points to it, cannot be read. */
  ghost predicate Lost(fs: Fs, inode: Inode, index: nat)
    requires ValidFs(fs) && ValidInode(fs, inode) && index < 12 + fs.blockSize / 4
  {
    var p := Pointer(fs, inode, index);
    p.None? || (p.value != 0 && !BlockReadable(fs, p.value))
  }

  ghost function FileBlock(fs: Fs, inode: Inode, index: nat): Option<seq<Byte>>
    requires ValidFs(fs) && ValidInode(fs, inode)
  {
    if index >= 12 + fs.blockSize / 4 || Lost(fs, inode, index) then None
    else if Hole(fs, inode, index) then Some(Zeros(fs.blockSize))
    else Some(Stored(fs, Pointer(fs, inode, index).value))
  }

  /** The file: what its pointers lead to, and zeros in the holes. */
  ghost function File(fs: Fs, inode: Inode): Blocks
    requires ValidFs(fs) && ValidInode(fs, inode)
  {
    (index: nat) => FileBlock(fs, inode, index)
  }

  // ------------------------------------------------- the code and the file

  /** A readable block comes as it is stored. */
  lemma StoredComes(fs: Fs, b: nat)
    requires ValidFs(fs) && b < 0x1_0000_0000 && BlockReadable(fs, b)
    ensures Given(fs.disk, BlockLba(fs, b), PerBlock(fs)) && Delivered(fs, BlockLba(fs, b)) == Stored(fs, b)
    ensures fs.start + LbaOf(fs.blockSize, b) == BlockLba(fs, b)
  {
    LbaOfBlock(fs, b);
    ReadableIsGiven(fs.disk, BlockLba(fs, b), PerBlock(fs));
  }

  /** Word k of a readable indirect block is the pointer ext2_get_file_block gives for block
      12 + k of the file, whatever row of words the block holds. */
  lemma IndirectPointers(fs: Fs, inode: Inode, ws: seq<nat>, k: nat)
    requires ValidFs(fs) && ValidInode(fs, inode) && BlockReadable(fs, inode.blocks[12])
    requires Words(ws) && Stored(fs, inode.blocks[12]) == Laid(ws) && k < |ws|
    ensures 12 + k < 12 + fs.blockSize / 4 && PointerRead(fs, inode, 12 + k) == ws[k]
  {
    StoredComes(fs, inode.blocks[12]);
    WordOfRow(ws, k);
  }

  lemma IndirectWord(fs: Fs, inode: Inode, index: nat)
    requires ValidFs(fs) && ValidInode(fs, inode) && BlockReadable(fs, inode.blocks[12])
    requires 12 <= index < 12 + fs.blockSize / 4
    ensures PointerRead(fs, inode, index) == WordIn(fs, inode.blocks[12], index - 12)
  {
    WordsOfBlock(fs);
    IndirectPointers(fs, inode, Row(Stored(fs, inode.blocks[12])), index - 12);
  }

  /** A block of the file that is no hole and is not lost comes as it is. */
  lemma ProperBlock(fs: Fs, inode: Inode, index: nat)
    requires ValidFs(fs) && ValidInode(fs, inode) && index < 12 + fs.blockSize / 4
    requires !Hole(fs, inode, index) && !Lost(fs, inode, index)
    ensures Fetched(fs, inode, index) == FileBlock(fs, inode, index)
  {
    if index >= 12 {
      IndirectWord(fs, inode, index);
    }
    var p := Pointer(fs, inode, index).value;
    assert PointerRead(fs, inode, index) == p;
    StoredComes(fs, p);
  }

  /** What a hole or a lost block needs for byte i to be right: the block the code goes for
      instead comes and has a zero there, or does not come. */
  ghost predicate Fine(fs: Fs, inode: Inode, i: nat)
    requires ValidFs(fs) && ValidInode(fs, inode)
  {
    var index := Quot(i, fs.blockSize);
    index < 12 + fs.blockSize / 4 ==>
      && (Hole(fs, inode, index) ==>
            && Given(fs.disk, Goes(fs, inode, index), PerBlock(fs))
            && Delivered(fs, Goes(fs, inode, index))[Rem(i, fs.blockSize)] == 0)
      && (Lost(fs, inode, index) ==> !Given(fs.disk, Goes(fs, inode, index), PerBlock(fs)))
  }

  lemma GetsExactly(fs: Fs, inode: Inode, i: nat)
    requires ValidFs(fs) && ValidInode(fs, inode)
    ensures Gets(Got(fs, inode), fs.blockSize, i) == Gets(File(fs, inode), fs.blockSize, i) <==> Fine(fs, inode, i)
  {
    var index := Quot(i, fs.blockSize);
    assert Got(fs, inode)(index) == Fetched(fs, inode, index);
    assert File(fs, inode)(index) == FileBlock(fs, inode, index);
    if index < 12 + fs.blockSize / 4 && !Hole(fs, inode, index) && !Lost(fs, inode, index) {
      ProperBlock(fs, inode, index);
    }
  }

  /** ext2_read comes to what the file holds, success and bytes or failure, if and only if
      both fail or every byte wanted is fine: no hole whose stand-in is missing or holds
      something else, and no lost block in whose place another one comes. */
  lemma ReadExactly(fs: Fs, inode: Inode, begin: nat, end: nat)
    requires ValidFs(fs) && ValidInode(fs, inode) && begin <= end
    ensures var got, file := Got(fs, inode), File(fs, inode);
      Outcome(got, fs.blockSize, begin, end) == Outcome(file, fs.blockSize, begin, end)
      <==> (!HasAll(got, fs.blockSize, begin, end) && !HasAll(file, fs.blockSize, begin, end))
           || forall i | begin <= i < end :: Fine(fs, inode, i)
  {
    var got, file := Got(fs, inode), File(fs, inode);
    OutcomeExactly(got, file, fs.blockSize, begin, end);
    forall i | begin <= i < end
      ensures Gets(got, fs.blockSize, i) == Gets(file, fs.blockSize, i) <==> Fine(fs, inode, i)
    {
      GetsExactly(fs, inode, i);
    }
  }

  // ------------------------------------------------------------------ holes

  /** A hole that has a pointer, direct or in the indirect block. */
  ghost predicate PointedHole(fs: Fs, inode: Inode, index: nat)
    requires ValidFs(fs) && ValidInode(fs, inode) && index < 12 + fs.blockSize / 4
  {
    Hole(fs, inode, index) && (index < 12 || inode.blocks[12] != 0)
  }

  /** For such a hole the code goes for block 0. */
  lemma HoleGoes(fs: Fs, inode: Inode, index: nat)
    requires ValidFs(fs) && ValidInode(fs, inode) && index < 12 + fs.blockSize / 4 && PointedHole(fs, inode, index)
    ensures Goes(fs, inode, index) == BlockLba(fs, 0) == fs.start
  {
    if index >= 12 {
      IndirectPointers(fs, inode, Row(Stored(fs, inode.blocks[12])), index - 12);
    }
    assert PointerRead(fs, inode, index) == 0;
    LbaOfBlock(fs, 0);
  }

  /** So a sparse file reads right there if and only if block 0 can be read and holds zeros
      where the file is read. */
  lemma SparseExactly(fs: Fs, inode: Inode, i: nat)
    requires ValidFs(fs) && ValidInode(fs, inode) && Quot(i, fs.blockSize) < 12 + fs.blockSize / 4
    requires PointedHole(fs, inode, Quot(i, fs.blockSize))
    ensures Gets(Got(fs, inode), fs.blockSize, i) == Gets(File(fs, inode), fs.blockSize, i)
       <==> BlockReadable(fs, 0) && Stored(fs, 0)[Rem(i, fs.blockSize)] == 0
  {
    GetsExactly(fs, inode, i);
    HoleGoes(fs, inode, Quot(i, fs.blockSize));
    WireIsSectors(fs.disk, fs.start, PerBlock(fs));
  }

  // -------------------------------------------- an indirect block that is lost

  /** Sectors of a 64-bit address space. */
  const TOP: nat := 0x80_0000_0000_0000

  lemma LbaOfNone(fs: Fs)
    requires ValidFs(fs)
    ensures LbaOf(fs.blockSize, INVALID) == TOP - PerBlock(fs) && 0 < PerBlock(fs) < 0x80_0000
  {
    var size := fs.blockSize;
    assert INVALID * size == (size - 1) * WORD + (WORD - size);
    QuotientIs(INVALID * size, WORD, size - 1, WORD - size);
    assert size == 512 * PerBlock(fs);
  }

  /** The top of the address is lost on the way to the drive. */
  lemma TopLost(start: nat, per: nat, k: nat)
    requires per <= start < 0x1_0000_0000 && k < per < 0x80_0000
    ensures Seen(start + (TOP - per), k) == start - per + k
  {
    var c := k - k % BLOCKS_PER_PRD;
    assert start + (TOP - per) + c == 128 * ADDRESSES + (start - per + c);
  }

  /** When the drive does not deliver the indirect block, that surfaces as a failure if and
      only if the drive does not deliver what it sees at the all-ones address either: for a
      partition with a block of sectors before it, the sectors right before the partition. */
  lemma LostIndirectExactly(fs: Fs, inode: Inode, index: nat)
    requires ValidFs(fs) && ValidInode(fs, inode) && 12 <= index < 12 + fs.blockSize / 4
    requires !Given(fs.disk, BlockLba(fs, inode.blocks[12]), PerBlock(fs))
    ensures Goes(fs, inode, index) == fs.start + (TOP - PerBlock(fs))
    ensures Fetched(fs, inode, index).None? <==> !Given(fs.disk, fs.start + (TOP - PerBlock(fs)), PerBlock(fs))
    ensures PerBlock(fs) <= fs.start ==>
      (Fetched(fs, inode, index).None? <==> !Readable(fs.disk, fs.start - PerBlock(fs), PerBlock(fs)))
  {
    LbaOfNone(fs);
    if PerBlock(fs) <= fs.start {
      BeforePartition(fs);
    }
  }

  lemma BeforePartition(fs: Fs)
    requires ValidFs(fs) && PerBlock(fs) <= fs.start
    ensures var per := PerBlock(fs);
      Given(fs.disk, fs.start + (TOP - per), per) <==> Readable(fs.disk, fs.start - per, per)
  {
    var per := PerBlock(fs);
    LbaOfNone(fs);
    var at := fs.start + (TOP - per);
    forall k | 0 <= k < per
      ensures Seen(at, k) == fs.start - per + k
    {
      TopLost(fs.start, per, k);
    }
    if Given(fs.disk, at, per) {
      forall i | fs.start - per <= i < fs.start - per + per
        ensures Sound(fs.disk, i)
      {
        assert Sound(fs.disk, Seen(at, i - (fs.start - per)));
      }
    }
  }

  // ------------------------------------------------------------------ inputs

  const NO_REGS: TaskFile :=
    TaskFile(Register(0, 0), Register(0, 0), Register(0, 0), Register(0, 0))

  /** 2 MiB of zeros with two bad sectors, a partition at sector 2048, blocks of 1 KiB, and a
      file of 13 blocks whose indirect block is the bad one. */
  function BadIndirect(): Fs {
    Fs(Disk(Zeros(0x20_0000), {2050, 2051}, NO_REGS, 0), 2048, 1024)
  }

  function LongFile(): Inode {
    Inode(seq(15, i => 1), 13 * 1024)
  }

  lemma BadIndirectValid()
    ensures var fs, inode := BadIndirect(), LongFile();
      && ValidFs(fs) && ValidInode(fs, inode) && PerBlock(fs) == 2
      && !BlockReadable(fs, 1) && !Given(fs.disk, BlockLba(fs, 1), 2) && Readable(fs.disk, 2046, 2)
  {
    var fs := BadIndirect();
    DivIsQuot(13 * 1024 - 1, 1024);
    TimesIs(1, 2);
    assert BlockLba(fs, 1) == 2050 && !Sound(fs.disk, 2050);
    WireIsSectors(fs.disk, 2050, 2);
  }

  /** The first byte behind the direct blocks is lost, and ext2_read returns one all the
      same: a byte from before the partition. */
  lemma ForeignByte()
    ensures var fs, inode := BadIndirect(), LongFile();
      && ValidFs(fs) && ValidInode(fs, inode)
      && Outcome(File(fs, inode), 1024, 12 * 1024, 12 * 1024 + 1) == None
      && Outcome(Got(fs, inode), 1024, 12 * 1024, 12 * 1024 + 1).Some?
  {
    var fs, inode := BadIndirect(), LongFile();
    BadIndirectValid();
    DivIsQuot(12 * 1024, 1024);
    LostIndirectExactly(fs, inode, 12);
    OneByte(fs, inode, 12 * 1024, 12);
  }

  /** A read of one byte fails with its block. */
  lemma OneByte(fs: Fs, inode: Inode, i: nat, index: nat)
    requires ValidFs(fs) && ValidInode(fs, inode) && index == Quot(i, fs.blockSize)
    ensures Outcome(File(fs, inode), fs.blockSize, i, i + 1).Some? <==> FileBlock(fs, inode, index).Some?
    ensures Outcome(Got(fs, inode), fs.blockSize, i, i + 1).Some? <==> Fetched(fs, inode, index).Some?
  {
    assert Got(fs, inode)(index) == Fetched(fs, inode, index);
    assert File(fs, inode)(index) == FileBlock(fs, inode, index);
    assert Has(File(fs, inode), fs.blockSize, i) <==> FileBlock(fs, inode, index).Some?;
    assert Has(Got(fs, inode), fs.blockSize, i) <==> Fetched(fs, inode, index).Some?;
  }

  /** A disk without partitions, and a file that is one hole. */
  function Whole(data: seq<Byte>): Fs {
    Fs(Disk(data, {}, NO_REGS, 0), 0, 1024)
  }

  function SparseFile(): Inode {
    Inode(seq(15, i => 0), 1024)
  }

  /** A hole over a first block that does not start with a zero. */
  lemma SparseFirst(fs: Fs, inode: Inode)
    requires ValidFs(fs) && ValidInode(fs, inode) && Hole(fs, inode, 0)
    requires BlockReadable(fs, 0) && Stored(fs, 0)[0] != 0
    ensures Outcome(File(fs, inode), fs.blockSize, 0, 1).Some?
    ensures Outcome(Got(fs, inode), fs.blockSize, 0, 1) != Outcome(File(fs, inode), fs.blockSize, 0, 1)
  {
    SparseExactly(fs, inode, 0);
    OneByte(fs, inode, 0, 0);
    OutcomeExactly(Got(fs, inode), File(fs, inode), fs.blockSize, 0, 1);
  }

  lemma WholeValid(data: seq<Byte>)
    requires |data| == 4096
    ensures var fs := Whole(data); ValidFs(fs) && BlockReadable(fs, 0) && Stored(fs, 0)[0] == data[0]
  {
    var fs := Whole(data);
    assert Times(0, 2) == 0;
    assert BlockReadable(fs, 0);
    SectorByte(fs.disk, 0, 2, 0, 0);
  }

  /** On a disk that does not start with a zero, the file holds a zero and ext2_read
      delivers something else. */
  lemma SparseByte(data: seq<Byte>)
    requires |data| == 4096 && data[0] != 0
    ensures var fs, inode := Whole(data), SparseFile();
      && ValidFs(fs) && ValidInode(fs, inode)
      && Outcome(File(fs, inode), 1024, 0, 1).Some?
      && Outcome(Got(fs, inode), 1024, 0, 1) != Outcome(File(fs, inode), 1024, 0, 1)
  {
    WholeValid(data);
    assert Quot(1023, 1024) == 0;
    SparseFirst(Whole(data), SparseFile());
  }
}
