/** The disk driver: a read in chunks through one DMA buffer, and the partition and block
    device layers above it. */
module AtaDisk {
  import opened Layout
  import opened Bytes
  import opened FrameAllocator

  const SECTOR: nat := 512
  const BLOCKS_PER_PRD: nat := 127

  /** Sector addresses have 48 bits. */
  const ADDRESSES: nat := 0x1_0000_0000_0000

  /** A disk: its contents, the sectors it fails to read, what its registers held last, and
      the channel's DMA region. */
  datatype Disk = Disk(data: seq<Byte>, bad: set<nat>, regs: TaskFile, region: nat)

  /** Every sector can be addressed, and the region is one of alloc_dma_region. */
  predicate ValidDisk(disk: Disk) {
    |disk.data| <= 512 * ADDRESSES && IsRegion(disk.region)
  }

  /** The sector exists and can be read. */
  predicate Sound(disk: Disk, i: nat) {
    512 * (i + 1) <= |disk.data| && i !in disk.bad
  }

  predicate Readable(disk: Disk, lba: nat, count: nat) {
    forall i | lba <= i < lba + count :: Sound(disk, i)
  }

  function Sectors(disk: Disk, lba: nat, count: nat): (r: seq<Byte>)
    requires Readable(disk, lba, count)
    ensures |r| == 512 * count
  {
    if count == 0 then []
    else
      assert Sound(disk, lba + count - 1);
      disk.data[512 * lba..512 * (lba + count)]
  }

  lemma SectorByte(disk: Disk, lba: nat, n: nat, k: nat, j: nat)
    requires Readable(disk, lba, n) && k < n && j < 512
    ensures Sound(disk, lba + k) && Sectors(disk, lba, n)[512 * k + j] == disk.data[512 * (lba + k) + j]
  {
    assert Sound(disk, lba + k) && Sound(disk, lba + n - 1);
  }

  /** The same, counted in bytes. */
  lemma SectorsAt(disk: Disk, lba: nat, n: nat, j: nat)
    requires Readable(disk, lba, n) && j < 512 * n
    ensures 512 * lba + j < |disk.data| && Sectors(disk, lba, n)[j] == disk.data[512 * lba + j]
  {
    assert Sound(disk, lba + n - 1);
  }

  // ------------------------------------------------------------------ DMA

  /** 64 KiB on their own boundary, below 4 GiB. */
  predicate IsRegion(region: nat) {
    region % 0x10000 == 0 && region + 0x10000 <= 0x1_0000_0000
  }

  /** What alloc_dma_region hands out is such a region. */
  lemma RegionIs(used: set<nat>, size: nat, region: nat)
    requires region % PAGE_SIZE == 0 && FreeRegion(used, size, region / PAGE_SIZE)
    ensures IsRegion(region)
  {
    var p := region / PAGE_SIZE;
    assert region == p * 4096 && p == p / 16 * 16;
    assert region == p / 16 * 0x10000;
  }

  /** Where the transfer of a chunk goes: behind the descriptor, in the same region, with a
      length that fits the descriptor's 16 bits. */
  predicate DmaWindow(region: nat, chunk: nat) {
    && IsRegion(region)
    && region + SECTOR + chunk * SECTOR <= region + 0x10000
    && 0 < chunk * SECTOR < 0x10000
  }

  /** The task file: each register holds the last two bytes written to it. */
  datatype Register = Register(previous: Byte, last: Byte)

  function Low(x: nat): Byte {
    (x % 256) as Byte
  }

  function Push(r: Register, b: Byte): Register {
    Register(r.last, b)
  }

  datatype TaskFile = TaskFile(seccount: Register, lba0: Register, lba1: Register, lba2: Register)

  /** The eight writes of ata_read. */
  function Program(t: TaskFile, lba: nat, chunk: nat): TaskFile
    requires chunk < 0x10000
  {
    TaskFile(Push(Push(t.seccount, Low(chunk / 256)), Low(chunk)),
             Push(Push(t.lba0, Low(lba / 0x100_0000)), Low(lba)),
             Push(Push(t.lba1, Low(lba / 0x1_0000_0000)), Low(lba / 256)),
             Push(Push(t.lba2, Low(lba / 0x100_0000_0000)), Low(lba / 0x1_0000)))
  }

  /** What the drive reads out of it for a 48-bit command. */
  function ProgrammedLba(t: TaskFile): nat {
    (t.lba0.last as int) + 0x100 * (t.lba1.last as int) + 0x1_0000 * (t.lba2.last as int)
    + 0x100_0000 * (t.lba0.previous as int) + 0x1_0000_0000 * (t.lba1.previous as int) + 0x100_0000_0000 * (t.lba2.previous as int)
  }

  function ProgrammedCount(t: TaskFile): nat {
    (t.seccount.last as int) + 256 * (t.seccount.previous as int)
  }

  /** The drive sees the count that was meant and the low 48 bits of the address, for any
      earlier contents of the registers. */
  lemma ProgramRoundTrip(t: TaskFile, lba: nat, chunk: nat)
    requires chunk < 0x10000
    ensures ProgrammedCount(Program(t, lba, chunk)) == chunk
    ensures ProgrammedLba(Program(t, lba, chunk)) == lba % ADDRESSES
  {
    Decoded(t, lba, chunk);
    ThreeBytes(lba);
    ThreeBytes(lba / 0x100_0000);
    SixBytes(lba);
  }

  /** Three bytes of a number put together again. */
  function Joined(a: nat, b: nat, c: nat): nat {
    a % 256 + 256 * (b % 256) + 0x1_0000 * (c % 256)
  }

  lemma Decoded(t: TaskFile, lba: nat, chunk: nat)
    requires chunk < 0x10000
    ensures ProgrammedCount(Program(t, lba, chunk)) == chunk
    ensures ProgrammedLba(Program(t, lba, chunk)) ==
      Joined(lba, lba / 256, lba / 0x1_0000)
      + 0x100_0000 * Joined(lba / 0x100_0000, lba / 0x1_0000_0000, lba / 0x100_0000_0000)
  {
  }

  lemma TwoBytes(x: nat)
    ensures x / 256 / 256 == x / 0x1_0000 && x % 0x1_0000 == x % 256 + 256 * (x / 256 % 256)
  {
  }

  lemma ThirdByte(x: nat)
    ensures x / 0x1_0000 / 256 == x / 0x100_0000
    ensures x % 0x100_0000 == x % 0x1_0000 + 0x1_0000 * (x / 0x1_0000 % 256)
  {
  }

  lemma ThreeBytes(x: nat)
    ensures Joined(x, x / 256, x / 0x1_0000) == x % 0x100_0000
  {
    TwoBytes(x);
    ThirdByte(x);
  }

  lemma SixBytes(x: nat)
    ensures x / 0x100_0000 / 256 == x / 0x1_0000_0000 && x / 0x100_0000 / 0x1_0000 == x / 0x100_0000_0000
    ensures x % ADDRESSES == x % 0x100_0000 + 0x100_0000 * (x / 0x100_0000 % 0x100_0000)
  {
  }

  // ------------------------------------------- what a read of many sectors sees

  /** Where the drive looks for sector k of a read: its chunk is addressed with 48 bits. */
  function Seen(lba: nat, k: nat): nat {
    (lba + (k - k % BLOCKS_PER_PRD)) % ADDRESSES + k % BLOCKS_PER_PRD
  }

  /** The last chunk still has an address of 48 bits. */
  predicate Reached(lba: nat, count: nat) {
    count > 0 ==> lba + (count - 1) / BLOCKS_PER_PRD * BLOCKS_PER_PRD < ADDRESSES
  }

  /** The drive looks where it should for every sector, if and only if every chunk has an
      address of 48 bits. */
  lemma SeenExactly(lba: nat, count: nat)
    ensures (forall k | 0 <= k < count :: Seen(lba, k) == lba + k) <==> Reached(lba, count)
  {
    if count > 0 {
      var last := (count - 1) / BLOCKS_PER_PRD * BLOCKS_PER_PRD;
      assert last % BLOCKS_PER_PRD == 0;
      assert Seen(lba, last) == (lba + last) % ADDRESSES;
      if Reached(lba, count) {
        forall k | 0 <= k < count
          ensures Seen(lba, k) == lba + k
        {
          assert k - k % BLOCKS_PER_PRD <= last;
        }
      }
    }
  }

  /** Every sector the drive looks at can be read. */
  predicate Given(disk: Disk, lba: nat, n: nat) {
    forall k | 0 <= k < n :: Sound(disk, Seen(lba, k))
  }

  /** The bytes the drive delivers. */
  function Wire(disk: Disk, lba: nat, n: nat): (r: seq<Byte>)
    requires Given(disk, lba, n)
    ensures |r| == 512 * n
  {
    seq(512 * n, i requires 0 <= i < 512 * n => WireByte(disk, lba, n, i))
  }

  function WireByte(disk: Disk, lba: nat, n: nat, i: nat): Byte
    requires Given(disk, lba, n) && i < 512 * n
  {
    assert Sound(disk, Seen(lba, i / 512));
    disk.data[512 * Seen(lba, i / 512) + i % 512]
  }

  /** With addresses of 48 bits, a read sees the sectors it asks for. */
  lemma WireIsSectors(disk: Disk, lba: nat, n: nat)
    requires Reached(lba, n)
    ensures Given(disk, lba, n) <==> Readable(disk, lba, n)
    ensures Given(disk, lba, n) ==> Wire(disk, lba, n) == Sectors(disk, lba, n)
  {
    SeenExactly(lba, n);
    if Given(disk, lba, n) {
      forall i | lba <= i < lba + n
        ensures Sound(disk, i)
      {
        assert Sound(disk, Seen(lba, i - lba));
      }
      forall i | 0 <= i < 512 * n
        ensures Wire(disk, lba, n)[i] == Sectors(disk, lba, n)[i]
      {
        assert Seen(lba, i / 512) == lba + i / 512;
        SectorByte(disk, lba, n, i / 512, i % 512);
      }
    }
  }

  /** A disk that can read the sectors asked for sees them, since it has no more than can
      be addressed. */
  lemma ReadableIsGiven(disk: Disk, lba: nat, n: nat)
    requires ValidDisk(disk) && Readable(disk, lba, n)
    ensures Given(disk, lba, n) && Wire(disk, lba, n) == Sectors(disk, lba, n)
  {
    if n > 0 {
      assert Sound(disk, lba + n - 1);
    }
    WireIsSectors(disk, lba, n);
  }

  // ------------------------------------------------------------- ata_read

  /** The buffer held `was` and now has the first n sectors of the read at its start. */
  ghost predicate Filled(disk: Disk, lba: nat, n: nat, was: seq<Byte>, now: seq<Byte>) {
    && Given(disk, lba, n) && 512 * n <= |was| == |now|
    && forall i | 0 <= i < |now| :: now[i] == if i < 512 * n then WireByte(disk, lba, n, i) else was[i]
  }

  lemma FilledIs(disk: Disk, lba: nat, n: nat, was: seq<Byte>, now: seq<Byte>)
    requires Filled(disk, lba, n, was, now)
    ensures now == Written(was, 0, Wire(disk, lba, n))
  {
  }

  lemma FilledNone(disk: Disk, lba: nat, was: seq<Byte>)
    ensures Filled(disk, lba, 0, was, was)
  {
  }

  /** A chunk starts where the last one ended, after a multiple of full chunks. */
  lemma ChunkSeen(lba: nat, done: nat, k: nat)
    requires done % BLOCKS_PER_PRD == 0 && done <= k < done + BLOCKS_PER_PRD
    ensures Seen(lba, k) == (lba + done) % ADDRESSES + (k - done)
  {
    assert k % BLOCKS_PER_PRD == k - done;
  }

  lemma ChunkGiven(disk: Disk, lba: nat, done: nat, chunk: nat)
    requires done % BLOCKS_PER_PRD == 0 && chunk <= BLOCKS_PER_PRD && Given(disk, lba, done)
    ensures Given(disk, lba, done + chunk) <==> Readable(disk, (lba + done) % ADDRESSES, chunk)
  {
    var at := (lba + done) % ADDRESSES;
    if Given(disk, lba, done + chunk) {
      forall i | at <= i < at + chunk
        ensures Sound(disk, i)
      {
        ChunkSeen(lba, done, i - at + done);
        assert Sound(disk, Seen(lba, i - at + done));
      }
    }
    if Readable(disk, at, chunk) {
      forall k | 0 <= k < done + chunk
        ensures Sound(disk, Seen(lba, k))
      {
        if k >= done { ChunkSeen(lba, done, k); }
      }
    }
  }

  lemma NotAll(disk: Disk, lba: nat, done: nat, chunk: nat, count: nat)
    requires done + chunk <= count && !Given(disk, lba, done + chunk)
    ensures !Given(disk, lba, count)
  {
  }

  lemma FilledNext(disk: Disk, lba: nat, done: nat, chunk: nat, was: seq<Byte>, now: seq<Byte>)
    requires done % BLOCKS_PER_PRD == 0 && chunk <= BLOCKS_PER_PRD
    requires Filled(disk, lba, done, was, now) && Readable(disk, (lba + done) % ADDRESSES, chunk)
    requires 512 * (done + chunk) <= |was|
    ensures |now| == |was|
    ensures Filled(disk, lba, done + chunk, was,
                   Written(now, 512 * done, Sectors(disk, (lba + done) % ADDRESSES, chunk)))
  {
    ChunkGiven(disk, lba, done, chunk);
    var dma := Sectors(disk, (lba + done) % ADDRESSES, chunk);
    var next := Written(now, 512 * done, dma);
    forall i | 0 <= i < |next|
      ensures next[i] == if i < 512 * (done + chunk) then WireByte(disk, lba, done + chunk, i) else was[i]
    {
      if 512 * done <= i < 512 * (done + chunk) {
        ChunkByte(disk, lba, done, chunk, i);
        assert next[i] == dma[i - 512 * done];
      } else if i < 512 * done {
        assert next[i] == now[i] == WireByte(disk, lba, done, i);
      }
    }
  }

  lemma ChunkByte(disk: Disk, lba: nat, done: nat, chunk: nat, i: nat)
    requires done % BLOCKS_PER_PRD == 0 && chunk <= BLOCKS_PER_PRD && Given(disk, lba, done + chunk)
    requires Readable(disk, (lba + done) % ADDRESSES, chunk) && 512 * done <= i < 512 * (done + chunk)
    ensures WireByte(disk, lba, done + chunk, i) == Sectors(disk, (lba + done) % ADDRESSES, chunk)[i - 512 * done]
  {
    ChunkSeen(lba, done, i / 512);
    SectorByte(disk, (lba + done) % ADDRESSES, chunk, i / 512 - done, i % 512);
  }

  /** ata_read, from the choice of the drive on: chunks of at most 127 sectors, until all
      are read or a chunk fails. */
  method AtaRead(disk: Disk, buf: array<Byte>, count: nat, lba: nat) returns (blocksRead: nat)
    requires ValidDisk(disk) && 512 * count <= buf.Length
    modifies buf
    ensures blocksRead <= count && Given(disk, lba, blocksRead)
    ensures blocksRead == count <==> Given(disk, lba, count)
    ensures buf[..] == Written(old(buf[..]), 0, Wire(disk, lba, blocksRead))
  {
    ghost var was := buf[..];
    blocksRead := ReadChunks(disk, buf, was, count, lba);
    FilledIs(disk, lba, blocksRead, was, buf[..]);
  }

  /** The transfer loop. */
  method ReadChunks(disk: Disk, buf: array<Byte>, ghost was: seq<Byte>, count: nat, lba: nat) returns (blocksRead: nat)
    requires ValidDisk(disk) && 512 * count <= buf.Length && was == buf[..]
    modifies buf
    ensures blocksRead <= count && Filled(disk, lba, blocksRead, was, buf[..])
    ensures blocksRead == count <==> Given(disk, lba, count)
  {
    FilledNone(disk, lba, was);
    blocksRead := 0;
    var blocksRemaining := count;
    var currentLba := lba;
    var regs := disk.regs;
    while blocksRemaining > 0
      invariant 0 <= blocksRemaining == count - blocksRead && currentLba == lba + blocksRead
      invariant blocksRemaining > 0 ==> blocksRead % BLOCKS_PER_PRD == 0
      invariant Filled(disk, lba, blocksRead, was, buf[..])
    {
      var chunk := blocksRemaining;
      if chunk > BLOCKS_PER_PRD {
        chunk := BLOCKS_PER_PRD;
      }
      var ok;
      ok, regs := Transfer(disk, regs, buf, was, blocksRead, chunk, lba, currentLba);
      if !ok {
        NotAll(disk, lba, blocksRead, chunk, count);
        return;
      }
      blocksRemaining := blocksRemaining - chunk;
      blocksRead := blocksRead + chunk;
      currentLba := currentLba + chunk;
    }
  }

  /** One chunk through the DMA buffer, inside its region. */
  method Transfer(disk: Disk, regs: TaskFile, buf: array<Byte>, ghost was: seq<Byte>, done: nat, chunk: nat,
                  ghost lba: nat, currentLba: nat) returns (ok: bool, regs': TaskFile)
    requires ValidDisk(disk) && currentLba == lba + done && done % BLOCKS_PER_PRD == 0 && 0 < chunk <= BLOCKS_PER_PRD
    requires 512 * (done + chunk) <= buf.Length == |was| && Filled(disk, lba, done, was, buf[..])
    modifies buf
    ensures DmaWindow(disk.region, chunk) && ProgrammedLba(regs') == currentLba % ADDRESSES
    ensures ok <==> Given(disk, lba, done + chunk)
    ensures Filled(disk, lba, if ok then done + chunk else done, was, buf[..])
  {
    regs' := Program(regs, currentLba, chunk);
    ProgramRoundTrip(regs, currentLba, chunk);
    ChunkGiven(disk, lba, done, chunk);
    ok := Readable(disk, ProgrammedLba(regs'), ProgrammedCount(regs'));
    if ok {
      var dma := Sectors(disk, ProgrammedLba(regs'), ProgrammedCount(regs'));
      FilledNext(disk, lba, done, chunk, was, buf[..]);
      Copy(buf, 512 * done, dma);
    }
  }

  // --------------------------------------------- partition and block device

  /** ps_read: the partition's first sector is added. */
  method PartitionRead(disk: Disk, start: nat, buf: array<Byte>, count: nat, lba: nat) returns (blocks: nat)
    requires ValidDisk(disk) && 512 * count <= buf.Length
    modifies buf
    ensures blocks <= count && Given(disk, start + lba, blocks)
    ensures blocks == count <==> Given(disk, start + lba, count)
    ensures buf[..] == Written(old(buf[..]), 0, Wire(disk, start + lba, blocks))
  {
    blocks := AtaRead(disk, buf, count, lba + start);
  }

  /** bd_read: byte offset and size become sectors. */
  method DeviceRead(disk: Disk, start: nat, buf: array<Byte>, size: nat, off: nat) returns (bytes: nat)
    requires ValidDisk(disk) && size <= buf.Length
    modifies buf
    ensures bytes % 512 == 0 && bytes <= size && Given(disk, start + off / 512, bytes / 512)
    ensures bytes == size / 512 * 512 <==> Given(disk, start + off / 512, size / 512)
    ensures buf[..] == Written(old(buf[..]), 0, Wire(disk, start + off / 512, bytes / 512))
  {
    var blocks := PartitionRead(disk, start, buf, size / 512, off / 512);
    bytes := blocks * 512;
  }
}
