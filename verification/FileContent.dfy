/** A file as a row of equal blocks, some of which may be out of reach, and the loop that
    copies a stretch of its bytes block by block. */
module FileContent {
  import opened Wrappers
  import opened Bytes
  import opened Division

  /** Block number to contents; None for a block that cannot be read. */
  type Blocks = nat -> Option<seq<Byte>>

  predicate Has(f: Blocks, size: nat, i: nat)
    requires size > 0
  {
    f(Quot(i, size)).Some? && |f(Quot(i, size)).value| == size
  }

  /** Byte i of the file, zero where it cannot be read. */
  function At(f: Blocks, size: nat, i: nat): Byte
    requires size > 0
  {
    if Has(f, size, i) then f(Quot(i, size)).value[Rem(i, size)] else 0
  }

  predicate HasAll(f: Blocks, size: nat, begin: nat, end: nat)
    requires size > 0
  {
    forall i | begin <= i < end :: Has(f, size, i)
  }

  /** The bytes from `begin` up to `end`. */
  function Content(f: Blocks, size: nat, begin: nat, end: nat): (r: seq<Byte>)
    requires size > 0 && begin <= end
    ensures |r| == end - begin
    decreases end - begin
  {
    if begin == end then [] else Content(f, size, begin, end - 1) + [At(f, size, end - 1)]
  }

  /** What the content is, byte by byte. */
  lemma {:induction false} ContentAt(f: Blocks, size: nat, begin: nat, end: nat, k: nat)
    requires size > 0 && begin <= end && k < end - begin
    ensures Content(f, size, begin, end)[k] == At(f, size, begin + k)
    decreases end - begin
  {
    if k < end - 1 - begin {
      ContentAt(f, size, begin, end - 1, k);
    }
  }

  lemma {:induction false} ContentAppend(f: Blocks, size: nat, a: nat, b: nat, c: nat)
    requires size > 0 && a <= b <= c
    ensures Content(f, size, a, c) == Content(f, size, a, b) + Content(f, size, b, c)
    decreases c
  {
    if b < c {
      ContentAppend(f, size, a, b, c - 1);
    }
  }

  /** What a read of the bytes from `begin` up to `end` comes to: the bytes, or nothing when
      one of them cannot be read. */
  function Outcome(f: Blocks, size: nat, begin: nat, end: nat): Option<seq<Byte>>
    requires size > 0 && begin <= end
  {
    if HasAll(f, size, begin, end) then Some(Content(f, size, begin, end)) else None
  }

  /** Byte i, if it can be read. */
  function Gets(f: Blocks, size: nat, i: nat): Option<Byte>
    requires size > 0
  {
    if Has(f, size, i) then Some(At(f, size, i)) else None
  }

  /** A byte that two files have in common is the same in their contents. */
  lemma SameByte(f: Blocks, g: Blocks, size: nat, n: nat, i: nat)
    requires size > 0 && i < n && Gets(f, size, i) == Gets(g, size, i)
    ensures Content(f, size, 0, n)[i] == Content(g, size, 0, n)[i]
  {
    ContentAt(f, size, 0, n, i);
    ContentAt(g, size, 0, n, i);
    assert At(f, size, i) == At(g, size, i);
  }

  /** Two reads come to the same if and only if both fail or every byte is the same. */
  lemma OutcomeExactly(f: Blocks, g: Blocks, size: nat, begin: nat, end: nat)
    requires size > 0 && begin <= end
    ensures Outcome(f, size, begin, end) == Outcome(g, size, begin, end)
       <==> (!HasAll(f, size, begin, end) && !HasAll(g, size, begin, end))
            || forall i | begin <= i < end :: Gets(f, size, i) == Gets(g, size, i)
  {
    if Outcome(f, size, begin, end) == Outcome(g, size, begin, end) && HasAll(f, size, begin, end) {
      forall i | begin <= i < end
        ensures Gets(f, size, i) == Gets(g, size, i)
      {
        ContentAt(f, size, begin, end, i - begin);
        ContentAt(g, size, begin, end, i - begin);
        assert Has(f, size, i) && Has(g, size, i);
      }
    }
    if forall i | begin <= i < end :: Gets(f, size, i) == Gets(g, size, i) {
      SameOutcome(f, g, size, begin, end);
    }
  }

  lemma {:induction false} SameContent(f: Blocks, g: Blocks, size: nat, begin: nat, end: nat)
    requires size > 0 && begin <= end && HasAll(f, size, begin, end)
    requires forall i | begin <= i < end :: Gets(f, size, i) == Gets(g, size, i)
    ensures Content(f, size, begin, end) == Content(g, size, begin, end)
    decreases end - begin
  {
    if begin < end {
      SameContent(f, g, size, begin, end - 1);
      assert Has(f, size, end - 1) && Gets(f, size, end - 1) == Gets(g, size, end - 1);
    }
  }

  lemma SameOutcome(f: Blocks, g: Blocks, size: nat, begin: nat, end: nat)
    requires size > 0 && begin <= end && forall i | begin <= i < end :: Gets(f, size, i) == Gets(g, size, i)
    ensures Outcome(f, size, begin, end) == Outcome(g, size, begin, end)
  {
    forall i | begin <= i < end
      ensures Has(f, size, i) <==> Has(g, size, i)
    {
      assert Gets(f, size, i) == Gets(g, size, i);
    }
    assert HasAll(f, size, begin, end) <==> HasAll(g, size, begin, end);
    if HasAll(f, size, begin, end) {
      SameContent(f, g, size, begin, end);
    }
  }

  lemma PartGrows(b: seq<Byte>, r: nat, n: nat)
    requires r + n < |b|
    ensures b[r..r + n] + [b[r + n]] == b[r..r + n + 1]
  {
  }

  /** n bytes of the block of `pos`, from there on. */
  function Part(f: Blocks, size: nat, pos: nat, n: nat): (r: seq<Byte>)
    requires size > 0 && Has(f, size, pos) && Rem(pos, size) + n <= size
    ensures |r| == n
  {
    f(Quot(pos, size)).value[Rem(pos, size)..Rem(pos, size) + n]
  }

  /** Bytes of one block, from its byte `pos` on. */
  lemma {:induction false} ContentOfBlock(f: Blocks, size: nat, pos: nat, n: nat)
    requires size > 0 && Rem(pos, size) + n <= size && Has(f, size, pos)
    ensures Content(f, size, pos, pos + n) == Part(f, size, pos, n)
    decreases n
  {
    if n > 0 {
      ContentOfBlock(f, size, pos, n - 1);
      QuotWithin(pos, n - 1, size);
      assert At(f, size, pos + (n - 1)) == f(Quot(pos, size)).value[Rem(pos, size) + (n - 1)];
      PartGrows(f(Quot(pos, size)).value, Rem(pos, size), n - 1);
    }
  }

  lemma HasPart(f: Blocks, size: nat, offset: nat, pos: nat)
    requires size > 0 && offset <= pos && Has(f, size, pos) && HasAll(f, size, offset, pos)
    ensures forall end: nat | pos <= end && Rem(pos, size) + (end - pos) <= size :: HasAll(f, size, offset, end)
  {
    forall end: nat | pos <= end && Rem(pos, size) + (end - pos) <= size
      ensures HasAll(f, size, offset, end)
    {
      forall i | offset <= i < end
        ensures Has(f, size, i)
      {
        if i >= pos { QuotWithin(pos, i - pos, size); }
      }
    }
  }

  /** Between two blocks: the first `done` bytes are in the buffer, and the position is at
      the start of a block unless nothing or everything has been read. */
  ghost predicate Copied(f: Blocks, size: nat, was: seq<Byte>, now: seq<Byte>, offset: nat, done: nat, len: nat)
    requires size > 0
  {
    && done <= len <= |was|
    && now == Written(was, 0, Content(f, size, offset, offset + done))
    && (0 < done < len ==> Rem(offset + done, size) == 0)
  }

  lemma CopiedNone(f: Blocks, size: nat, was: seq<Byte>, offset: nat, len: nat)
    requires size > 0 && len <= |was|
    ensures Copied(f, size, was, was, offset, 0, len)
  {
    assert Written(was, 0, []) == was;
  }

  lemma CopiedAppend(f: Blocks, size: nat, was: seq<Byte>, now: seq<Byte>, offset: nat, done: nat, len: nat, n: nat,
                     part: seq<Byte>)
    requires size > 0 && Copied(f, size, was, now, offset, done, len) && done + n <= len
    requires part == Content(f, size, offset + done, offset + done + n)
    requires done + n < len ==> Rem(offset + done + n, size) == 0
    ensures |now| == |was| && |part| == n
    ensures Copied(f, size, was, Written(now, done, part), offset, done + n, len)
  {
    ContentAppend(f, size, offset, offset + done, offset + done + n);
    WrittenNext(was, now, Content(f, size, offset, offset + done), part);
  }

  lemma WrittenNext(was: seq<Byte>, now: seq<Byte>, a: seq<Byte>, b: seq<Byte>)
    requires |a| + |b| <= |was| && now == Written(was, 0, a)
    ensures |now| == |was| && Written(now, |a|, b) == Written(was, 0, a + b)
  {
    WrittenTwice(was, 0, a, b);
  }

  /** How much one turn copies, and where it ends. */
  lemma TurnEnd(pos: nat, size: nat, left: nat, n: nat)
    requires size > 0 && left > 0 && n == Min(size - Rem(pos, size), left)
    ensures 0 < n <= left && Rem(pos, size) + n <= size
    ensures n < left ==> Rem(pos + n, size) == 0
  {
    if n < left {
      RemNext(pos, n, size);
    }
  }

  /** One turn of the copy: the part of the block that is wanted goes into the buffer. */
  lemma CopiedTurn(f: Blocks, size: nat, was: seq<Byte>, now: seq<Byte>, offset: nat, done: nat, len: nat, n: nat)
    requires size > 0 && Copied(f, size, was, now, offset, done, len) && done < len && Has(f, size, offset + done)
    requires n == Min(size - Rem(offset + done, size), len - done)
    ensures 0 < n <= len - done && |now| == |was| && Rem(offset + done, size) + n <= size
    ensures Copied(f, size, was, Written(now, done, Part(f, size, offset + done, n)), offset, done + n, len)
  {
    TurnEnd(offset + done, size, len - done, n);
    ContentOfBlock(f, size, offset + done, n);
    CopiedAppend(f, size, was, now, offset, done, len, n, Part(f, size, offset + done, n));
  }

  /** The end of a turn of ext2_read: the block stands in its buffer and the wanted part is
      copied behind what is there already. */
  method CopyBlock(ghost f: Blocks, size: nat, buf: array<Byte>, ghost was: seq<Byte>, blockBuffer: array<Byte>,
                   offset: nat, done: nat, len: nat) returns (done': nat)
    requires size > 0 && buf != blockBuffer && done < len
    requires Copied(f, size, was, buf[..], offset, done, len)
    requires Has(f, size, offset + done) && blockBuffer[..] == f(Quot(offset + done, size)).value
    modifies buf
    ensures done < done' <= len && Copied(f, size, was, buf[..], offset, done', len)
    ensures Rem(offset + done, size) + (done' - done) <= size
  {
    var bbOffset, cpySize := Wanted(size, offset, done, len);
    CopiedTurn(f, size, was, buf[..], offset, done, len, cpySize);
    var block := blockBuffer[..];
    var part := block[bbOffset..bbOffset + cpySize];
    assert part == Part(f, size, offset + done, cpySize);
    Copy(buf, done, part);
    done' := done + cpySize;
  }

  /** Where the wanted part starts in the block and how long it is. */
  method Wanted(size: nat, offset: nat, done: nat, len: nat) returns (bbOffset: nat, cpySize: nat)
    requires size > 0 && done < len && (0 < done ==> Rem(offset + done, size) == 0)
    ensures bbOffset == Rem(offset + done, size) && cpySize == Min(size - bbOffset, len - done)
  {
    DivIsQuot(offset, size);
    bbOffset := 0;
    if done == 0 {
      bbOffset := offset % size;
    }
    cpySize := size - bbOffset;
    if done + cpySize > len {
      cpySize := cpySize - (done + cpySize - len);
    }
  }
}
