/** Reading a file: block pointers, the block buffer and the copy loop of the file
    system, over the disk driver. */
module Ext2 {
  import opened Wrappers
  import opened Layout
  import opened Bytes
  import opened Division
  import opened AtaDisk
  import opened FileContent

  /** A mounted file system: the disk, the first sector of its partition, the block size. */
  datatype Fs = Fs(disk: Disk, start: nat, blockSize: nat)

  /** Block sizes are 1024 shifted left, and partitions start at a sector of 32 bits. */
  predicate ValidFs(fs: Fs) {
    ValidDisk(fs.disk) && 0 < fs.blockSize < 0x1_0000_0000 && fs.blockSize % 1024 == 0 && fs.start < 0x1_0000_0000
  }

  /** The block pointers of an inode and the length of its file. */
  datatype Inode = Inode(blocks: seq<nat>, length: nat)

  /** A file whose blocks are reached directly or through one indirect block. */
  predicate ValidInode(fs: Fs, inode: Inode)
    requires ValidFs(fs)
  {
    && |inode.blocks| == 15 && (forall i | 0 <= i < 15 :: inode.blocks[i] < 0x1_0000_0000)
    && (inode.length > 0 ==> Quot(inode.length - 1, fs.blockSize) < 12 + fs.blockSize / 4)
  }

  /** Such a file is shorter than half the address space. */
  lemma LengthFits(fs: Fs, inode: Inode)
    requires ValidFs(fs) && ValidInode(fs, inode)
    ensures inode.length < 0x8000_0000_0000_0000
  {
    if inode.length > 0 {
      var size, q := fs.blockSize, Quot(inode.length - 1, fs.blockSize);
      DivIsQuot(inode.length - 1, size);
      assert inode.length - 1 == size * q + (inode.length - 1) % size;
      assert size * q + size == size * (q + 1);
      MulMono(size, q + 1, 0x4000_000b);
    }
  }

  // ------------------------------------------------ what the code fetches

  /** Sectors of a block. */
  function PerBlock(fs: Fs): nat {
    fs.blockSize / 512
  }

  /** First sector of a block, from the start of the disk. */
  function BlockLba(fs: Fs, b: nat): nat {
    fs.start + Times(b, PerBlock(fs))
  }

  /** The sector ext2_read computes for a block, in 64-bit words. */
  function LbaOf(blockSize: nat, b: nat): nat {
    b * blockSize % WORD / 512
  }

  /** What the drive delivers for the block at a sector. */
  function Delivered(fs: Fs, lba: nat): (r: seq<Byte>)
    requires ValidFs(fs) && Given(fs.disk, lba, PerBlock(fs))
    ensures |r| == fs.blockSize
  {
    assert 512 * PerBlock(fs) == fs.blockSize;
    Wire(fs.disk, lba, PerBlock(fs))
  }

  /** The pointer for block `index` of a file, out of its indirect block. */
  function Entry(table: seq<Byte>, index: nat): (b: nat)
    requires 12 <= index && 4 * (index - 12) + 4 <= |table|
    ensures b < 0x1_0000_0000
  {
    Word32(table, 4 * (index - 12))
  }

  /** ext2_get_file_block: a direct pointer, one from the indirect block, or all ones when
      the drive fails to deliver that block. */
  function PointerRead(fs: Fs, inode: Inode, index: nat): (b: nat)
    requires ValidFs(fs) && ValidInode(fs, inode) && index < 12 + fs.blockSize / 4
    ensures b < 0x1_0000_0000 || b == INVALID
  {
    if index < 12 then inode.blocks[index]
    else if !Given(fs.disk, BlockLba(fs, inode.blocks[12]), PerBlock(fs)) then INVALID
    else Entry(Delivered(fs, BlockLba(fs, inode.blocks[12])), index)
  }

  /** Where ext2_read goes for block `index` of the file. */
  function Goes(fs: Fs, inode: Inode, index: nat): nat
    requires ValidFs(fs) && ValidInode(fs, inode) && index < 12 + fs.blockSize / 4
  {
    fs.start + LbaOf(fs.blockSize, PointerRead(fs, inode, index))
  }

  function Fetched(fs: Fs, inode: Inode, index: nat): Option<seq<Byte>>
    requires ValidFs(fs) && ValidInode(fs, inode)
  {
    if index < 12 + fs.blockSize / 4 && Given(fs.disk, Goes(fs, inode, index), PerBlock(fs))
    then Some(Delivered(fs, Goes(fs, inode, index))) else None
  }

  /** The row of blocks the code finds. */
  function Got(fs: Fs, inode: Inode): Blocks
    requires ValidFs(fs) && ValidInode(fs, inode)
  {
    (index: nat) => Fetched(fs, inode, index)
  }

  // ----------------------------------------------------------- truncation

  /** How many bytes ext2_read goes for, in 64-bit words. */
  function Truncated(length: nat, len: nat, offset: nat): nat {
    if (offset + len) % WORD > length then (length - offset) % WORD else len
  }

  /** The count is that of the bytes the file has from the offset on, if and only if the
      offset lies within the file; past its end the difference wraps. */
  lemma TruncatedExactly(length: nat, len: nat, offset: nat)
    requires offset + len < WORD && length < WORD && len > 0
    ensures Truncated(length, len, offset) == (if offset <= length then Min(len, length - offset) else 0)
       <==> offset <= length
  {
    assert (offset + len) % WORD == offset + len;
    if offset > length {
      assert (length - offset) % WORD == length - offset + WORD;
    } else {
      assert (length - offset) % WORD == length - offset;
    }
  }

  // -------------------------------------------------------- single blocks

  /** The test of ext2_get_block compares a signed result with an unsigned size. */
  function Unsigned(x: int): nat {
    x % WORD
  }

  /** ext2_get_block. */
  method GetBlock(fs: Fs, buf: array<Byte>, lba: nat, count: nat) returns (ok: bool)
    requires ValidFs(fs) && 512 * count <= buf.Length < WORD
    modifies buf
    ensures ok <==> Given(fs.disk, fs.start + lba, count)
    ensures ok ==> buf[..] == Written(old(buf[..]), 0, Wire(fs.disk, fs.start + lba, count))
  {
    var fpos := 512 * lba;
    var error := DeviceRead(fs.disk, fs.start, buf, 512 * count, fpos);
    assert fpos / 512 == lba && 512 * count / 512 == count;
    assert Unsigned(error) == error;
    ok := !(Unsigned(error) < 512 * count);
  }

  lemma WholeBuffer(was: seq<Byte>, data: seq<Byte>)
    requires |was| == |data|
    ensures Written(was, 0, data) == data
  {
  }

  /** The same for one block into the block buffer. */
  method GetWhole(fs: Fs, buf: array<Byte>, lba: nat) returns (ok: bool)
    requires ValidFs(fs) && buf.Length == fs.blockSize
    modifies buf
    ensures ok <==> Given(fs.disk, fs.start + lba, PerBlock(fs))
    ensures ok ==> buf[..] == Delivered(fs, fs.start + lba)
  {
    ghost var was := buf[..];
    assert 512 * PerBlock(fs) == fs.blockSize;
    ok := GetBlock(fs, buf, lba, PerBlock(fs));
    if ok {
      ghost var data := Wire(fs.disk, fs.start + lba, PerBlock(fs));
      WholeBuffer(was, data);
      assert buf[..] == data;
    }
  }

  /** ext2_get_file_block. */
  method GetFileBlock(fs: Fs, inode: Inode, buf: array<Byte>, index: nat) returns (b: nat)
    requires ValidFs(fs) && ValidInode(fs, inode) && buf.Length == fs.blockSize && index < 12 + fs.blockSize / 4
    modifies buf
    ensures b == PointerRead(fs, inode, index)
  {
    if index < 12 {
      return inode.blocks[index];
    }
    TimesIs(inode.blocks[12], PerBlock(fs));
    var ok := GetWhole(fs, buf, inode.blocks[12] * PerBlock(fs));
    if !ok {
      return INVALID;
    }
    b := Entry(buf[..], index);
  }

  lemma LbaOfBlock(fs: Fs, b: nat)
    requires ValidFs(fs) && b < 0x1_0000_0000
    ensures fs.start + LbaOf(fs.blockSize, b) == BlockLba(fs, b)
  {
    var k := fs.blockSize / 512;
    TimesIs(b, k);
    assert fs.blockSize == 512 * k;
    assert b * fs.blockSize == 512 * (b * k);
    assert b * fs.blockSize < WORD by {
      SmallProduct(b, fs.blockSize);
    }
  }

  lemma SmallProduct(a: nat, b: nat)
    requires a < 0x1_0000_0000 && b < 0x1_0000_0000
    ensures a * b < WORD
  {
    MulMono(a, b, 0xffff_ffff);
  }

  /** The part of ext2_read's loop that fetches block `index` of the file into the buffer. */
  method FetchBlock(fs: Fs, inode: Inode, buf: array<Byte>, index: nat) returns (ok: bool)
    requires ValidFs(fs) && ValidInode(fs, inode) && buf.Length == fs.blockSize && index < 12 + fs.blockSize / 4
    modifies buf
    ensures ok <==> Fetched(fs, inode, index).Some?
    ensures ok ==> buf[..] == Fetched(fs, inode, index).value
  {
    var b := GetFileBlock(fs, inode, buf, index);
    ok := GetWhole(fs, buf, LbaOf(fs.blockSize, b));
  }

  // -------------------------------------------------------------- the loop

  lemma IndexInRange(fs: Fs, inode: Inode, pos: nat)
    requires ValidFs(fs) && ValidInode(fs, inode) && pos < inode.length
    ensures Quot(pos, fs.blockSize) < 12 + fs.blockSize / 4
  {
    QuotMono(pos, inode.length - 1, fs.blockSize);
  }

  /** ext2_read for an offset within the file: the buffer receives the bytes of the blocks
      the code finds from the offset on, as many as asked for and as the file has, or an I/O
      error is reported, exactly when one of the blocks does not come. */
  method Read(fs: Fs, inode: Inode, buf: array<Byte>, len: nat, offset: nat) returns (r: int)
    requires ValidFs(fs) && ValidInode(fs, inode)
    requires offset <= inode.length && offset + len < WORD && Min(len, inode.length - offset) <= buf.Length
    modifies buf
    ensures var n := Min(len, inode.length - offset);
      match Outcome(Got(fs, inode), fs.blockSize, offset, offset + n)
      case Some(data) => r == n && buf[..] == Written(old(buf[..]), 0, data)
      case None => r == -EIO
  {
    LengthFits(fs, inode);
    var n := Truncate(inode.length, len, offset);
    ghost var f, was := Got(fs, inode), buf[..];
    r := ReadBlocks(fs, inode, f, buf, was, n, offset);
    ReadOutcome(f, fs.blockSize, was, buf[..], offset, n, r);
  }

  lemma ReadOutcome(f: Blocks, size: nat, was: seq<Byte>, now: seq<Byte>, offset: nat, n: nat, r: int)
    requires size > 0
    requires HasAll(f, size, offset, offset + n) ==> r == n && Copied(f, size, was, now, offset, n, n)
    requires !HasAll(f, size, offset, offset + n) ==> r == -EIO
    ensures match Outcome(f, size, offset, offset + n)
      case Some(data) => r == n && n <= |was| && now == Written(was, 0, data)
      case None => r == -EIO
  {
  }

  method Truncate(length: nat, len: nat, offset: nat) returns (n: nat)
    requires length < WORD && offset <= length && offset + len < WORD
    ensures n == Min(len, length - offset)
  {
    n := len;
    assert (offset + len) % WORD == offset + len && (length - offset) % WORD == length - offset;
    if (offset + len) % WORD > length {
      n := (length - offset) % WORD;
    }
  }

  /** The loop of ext2_read, on a buffer that holds `was` when it starts. */
  method ReadBlocks(fs: Fs, inode: Inode, ghost f: Blocks, buf: array<Byte>, ghost was: seq<Byte>, len: nat, offset: nat)
    returns (r: int)
    requires ValidFs(fs) && ValidInode(fs, inode) && f == Got(fs, inode)
    requires offset + len <= inode.length && len <= buf.Length && was == buf[..]
    modifies buf
    ensures HasAll(f, fs.blockSize, offset, offset + len) ==>
      r == len && Copied(f, fs.blockSize, was, buf[..], offset, len, len)
    ensures !HasAll(f, fs.blockSize, offset, offset + len) ==> r == -EIO
  {
    CopiedNone(f, fs.blockSize, was, offset, len);
    var blockBuffer := new Byte[fs.blockSize](_ => 0);
    var bytesRead: nat := 0;
    var ok := true;
    while ok && bytesRead < len
      invariant bytesRead <= len && (ok ==> Copied(f, fs.blockSize, was, buf[..], offset, bytesRead, len))
      invariant ok ==> HasAll(f, fs.blockSize, offset, offset + bytesRead)
      invariant !ok ==> !HasAll(f, fs.blockSize, offset, offset + len)
      decreases ok, len - bytesRead
    {
      ok, bytesRead := ReadBlock(fs, inode, f, buf, was, blockBuffer, offset, bytesRead, len);
    }
    r := if ok then bytesRead else -EIO;
  }

  /** One turn of the loop. */
  method ReadBlock(fs: Fs, inode: Inode, ghost f: Blocks, buf: array<Byte>, ghost was: seq<Byte>,
                   blockBuffer: array<Byte>, offset: nat, done: nat, len: nat) returns (ok: bool, done': nat)
    requires ValidFs(fs) && ValidInode(fs, inode) && f == Got(fs, inode)
    requires buf != blockBuffer && blockBuffer.Length == fs.blockSize && done < len && offset + len <= inode.length
    requires Copied(f, fs.blockSize, was, buf[..], offset, done, len) && HasAll(f, fs.blockSize, offset, offset + done)
    modifies buf, blockBuffer
    ensures ok ==> done < done' <= len && Copied(f, fs.blockSize, was, buf[..], offset, done', len)
    ensures ok ==> HasAll(f, fs.blockSize, offset, offset + done')
    ensures !ok ==> done' == done && !HasAll(f, fs.blockSize, offset, offset + len)
  {
    done' := done;
    ok := FetchFor(fs, inode, f, blockBuffer, offset + done);
    if !ok {
      return;
    }
    HasPart(f, fs.blockSize, offset, offset + done);
    done' := CopyBlock(f, fs.blockSize, buf, was, blockBuffer, offset, done, len);
  }

  /** Fetch the block of a position in the file. */
  method FetchFor(fs: Fs, inode: Inode, ghost f: Blocks, blockBuffer: array<Byte>, pos: nat) returns (ok: bool)
    requires ValidFs(fs) && ValidInode(fs, inode) && f == Got(fs, inode)
    requires blockBuffer.Length == fs.blockSize && pos < inode.length
    modifies blockBuffer
    ensures ok <==> Has(f, fs.blockSize, pos)
    ensures ok ==> blockBuffer[..] == f(Quot(pos, fs.blockSize)).value
  {
    DivIsQuot(pos, fs.blockSize);
    IndexInRange(fs, inode, pos);
    ok := FetchBlock(fs, inode, blockBuffer, pos / fs.blockSize);
  }
}
