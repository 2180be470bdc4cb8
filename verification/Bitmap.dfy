/** The bitmap of libutil: bits packed in bytes, with the two searches the page
    allocator relies on. */
module Bitmaps {
  import opened Division

  // ----------------------------------------------------------- single bytes

  function Bit(j: nat): bv8
    requires j < 8
  {
    if j == 0 then 1 else if j == 1 then 2 else if j == 2 then 4 else if j == 3 then 8
    else if j == 4 then 16 else if j == 5 then 32 else if j == 6 then 64 else 128
  }

  predicate IsSet(b: bv8, j: nat)
    requires j < 8
  {
    b & Bit(j) != 0
  }

  lemma SetInByte(b: bv8, j: nat, k: nat)
    requires j < 8 && k < 8
    ensures IsSet(b | Bit(j), k) <==> k == j || IsSet(b, k)
  {
  }

  lemma ClrInByte(b: bv8, j: nat, k: nat)
    requires j < 8 && k < 8
    ensures IsSet(b & !Bit(j), k) <==> k != j && IsSet(b, k)
  {
  }

  lemma FullByte(b: bv8)
    ensures b == 0xff <==> forall j | 0 <= j < 8 :: IsSet(b, j)
  {
    assert b == 0xff ==> forall j | 0 <= j < 8 :: IsSet(b, j);
    if forall j | 0 <= j < 8 :: IsSet(b, j) {
      assert IsSet(b, 0) && IsSet(b, 1) && IsSet(b, 2) && IsSet(b, 3);
      assert IsSet(b, 4) && IsSet(b, 5) && IsSet(b, 6) && IsSet(b, 7);
    }
  }

  // --------------------------------------------------------------- windows

  function BitsOf(bytes: seq<bv8>): (bits: seq<bool>)
    ensures |bits| == 8 * |bytes|
  {
    seq(8 * |bytes|, i requires 0 <= i < 8 * |bytes| => IsSet(bytes[i / 8], i % 8))
  }

  lemma BitInByte(bytes: seq<bv8>, i: nat, j: nat)
    requires i < |bytes| && j < 8
    ensures BitsOf(bytes)[8 * i + j] == IsSet(bytes[i], j)
  {
    assert (8 * i + j) / 8 == i && (8 * i + j) % 8 == j;
  }

  /** A byte is full exactly when its eight bits are set. */
  lemma ByteBits(bytes: seq<bv8>, i: nat)
    requires i < |bytes|
    ensures bytes[i] == 0xff <==> forall k | 8 * i <= k < 8 * i + 8 :: BitsOf(bytes)[k]
  {
    FullByte(bytes[i]);
    forall j | 0 <= j < 8
      ensures BitsOf(bytes)[8 * i + j] == IsSet(bytes[i], j)
    {
      BitInByte(bytes, i, j);
    }
    if bytes[i] == 0xff {
      forall k | 8 * i <= k < 8 * i + 8
        ensures BitsOf(bytes)[k]
      {
        assert BitsOf(bytes)[8 * i + (k - 8 * i)] == IsSet(bytes[i], k - 8 * i);
      }
    } else {
      var j :| 0 <= j < 8 && !IsSet(bytes[i], j);
      assert !BitsOf(bytes)[8 * i + j];
    }
  }

  lemma FullBits(bytes: seq<bv8>, i: nat)
    requires i < |bytes|
    ensures bytes[i] == 0xff <==> forall k | 8 * i <= k < 8 * i + 8 :: BitsOf(bytes)[k]
    ensures bytes[i] == 0xff && AllSet(BitsOf(bytes), 8 * i) ==> AllSet(BitsOf(bytes), 8 * i + 8)
  {
    ByteBits(bytes, i);
  }

  predicate AllSet(bits: seq<bool>, n: nat)
    requires n <= |bits|
  {
    forall k | 0 <= k < n :: bits[k]
  }

  /** n clear bits starting at w. */
  predicate ClearWindow(bits: seq<bool>, w: nat, n: nat) {
    w + n <= |bits| && forall k | w <= k < w + n :: !bits[k]
  }

  /** A set bit below `pos` lies in the window of n bits at w. */
  predicate Blocked(bits: seq<bool>, w: nat, n: nat, pos: nat) {
    exists k :: w <= k < w + n && k < pos && k < |bits| && bits[k]
  }

  /** The lowest window of n clear bits at a multiple of n. */
  predicate Found(bits: seq<bool>, n: nat, r: int)
    requires n > 0
  {
    && r >= 0 && r % n == 0 && ClearWindow(bits, r, n)
    && forall w: nat | w < r && w % n == 0 :: !ClearWindow(bits, w, n)
  }

  lemma AlignedApart(a: nat, b: nat, n: nat)
    requires n > 0 && a % n == 0 && b % n == 0 && a < b
    ensures a + n <= b
  {
    var x, y := a / n, b / n;
    assert a == x * n && b == y * n;
    assert y > x by {
      if y <= x { MulMono(n, y, x); }
    }
    MulMono(n, x + 1, y);
  }

  class Bitmap {
    const size: nat
    const bytes: array<bv8>

    ghost predicate Valid()
      ensures Valid() ==> size <= 8 * bytes.Length < size + 8
    {
      bytes.Length == if size % 8 == 0 then size / 8 else size / 8 + 1
    }

    ghost function Bits(): (bits: seq<bool>)
      reads bytes
      ensures |bits| == 8 * bytes.Length
    {
      BitsOf(bytes[..])
    }

    /** bitmap_init: every byte gets the same value. */
    constructor (size: nat, value: bv8)
      ensures Valid() && this.size == size && fresh(bytes)
      ensures forall i | 0 <= i < |Bits()| :: Bits()[i] == IsSet(value, i % 8)
    {
      this.size := size;
      bytes := new bv8[if size % 8 == 0 then size / 8 else size / 8 + 1](_ => value);
    }

    method Set(index: nat)
      requires Valid() && index < size
      modifies bytes
      ensures Bits() == old(Bits())[index := true]
    {
      ghost var before := bytes[..];
      bytes[index / 8] := bytes[index / 8] | Bit(index % 8);
      forall i | 0 <= i < |Bits()|
        ensures Bits()[i] == old(Bits())[index := true][i]
      {
        SetInByte(before[i / 8], index % 8, i % 8);
      }
    }

    method Clr(index: nat)
      requires Valid() && index < size
      modifies bytes
      ensures Bits() == old(Bits())[index := false]
    {
      ghost var before := bytes[..];
      bytes[index / 8] := bytes[index / 8] & !Bit(index % 8);
      forall i | 0 <= i < |Bits()|
        ensures Bits()[i] == old(Bits())[index := false][i]
      {
        ClrInByte(before[i / 8], index % 8, i % 8);
      }
    }

    /** The lowest clear bit, or -1 when every bit is set. */
    method FindFree() returns (r: int)
      requires Valid()
      ensures r == -1 ==> AllSet(Bits(), |Bits()|)
      ensures r != -1 ==> 0 <= r < |Bits()| && !Bits()[r] && AllSet(Bits(), r)
    {
      ghost var bits := Bits();
      var i := 0;
      while i < bytes.Length
        invariant i <= bytes.Length
        invariant AllSet(bits, 8 * i)
      {
        FullBits(bytes[..], i);
        if bytes[i] != 0xff {
          var j := FindInByte(i);
          return i * 8 + j;
        }
        i := i + 1;
      }
      return -1;
    }

    /** The inner loop: the first clear bit of a byte that is not full. */
    method FindInByte(i: nat) returns (j: nat)
      requires i < bytes.Length && bytes[i] != 0xff && AllSet(Bits(), 8 * i)
      ensures j < 8 && !Bits()[8 * i + j] && AllSet(Bits(), 8 * i + j)
    {
      ghost var bits := Bits();
      FullBits(bytes[..], i);
      j := 0;
      BitInByte(bytes[..], i, 0);
      while bytes[i] & Bit(j) != 0
        invariant j < 8 && bits[8 * i + j] == IsSet(bytes[i], j)
        invariant AllSet(bits, 8 * i + j)
        decreases 8 - j
      {
        j := j + 1;
        BitInByte(bytes[..], i, j);
      }
    }

    /** The lowest window of n clear bits that starts at a multiple of n, or -1
        exactly when there is none. */
    method FindNFree(n: nat) returns (r: int)
      requires Valid() && n > 0
      ensures r != -1 ==> Found(Bits(), n, r)
      ensures r == -1 ==> forall w: nat | w % n == 0 :: !ClearWindow(Bits(), w, n)
    {
      ghost var bits := Bits();
      var freeBits: nat, bit: int := 0, -1;
      var i := 0;
      while i < bytes.Length
        invariant i <= bytes.Length
        invariant Searching(bits, n, 8 * i, freeBits, bit)
      {
        freeBits, bit := SearchByte(n, i, freeBits, bit);
        if freeBits >= n {
          return bit;
        }
        i := i + 1;
      }
      NoWindow(bits, n, freeBits, bit);
      return -1;
    }

    /** The inner loop over the bits of one byte; it stops when a window is complete. */
    method SearchByte(n: nat, i: nat, freeIn: nat, bitIn: int) returns (freeBits: nat, bit: int)
      requires Valid() && n > 0 && i < bytes.Length && Searching(Bits(), n, 8 * i, freeIn, bitIn)
      ensures freeBits >= n ==> Found(Bits(), n, bit)
      ensures freeBits < n ==> Searching(Bits(), n, 8 * i + 8, freeBits, bit)
    {
      ghost var bits := Bits();
      freeBits, bit := freeIn, bitIn;
      var j := 0;
      while j < 8
        invariant j <= 8
        invariant Searching(bits, n, 8 * i + j, freeBits, bit)
      {
        BitInByte(bytes[..], i, j);
        if bytes[i] & Bit(j) == 0 {
          SearchClear(bits, n, 8 * i + j, freeBits, bit);
          freeBits := freeBits + 1;
          if freeBits == 1 {
            if (i * 8 + j) % n != 0 {
              freeBits := 0;
            } else {
              bit := i * 8 + j;
            }
          }
          if freeBits >= n {
            CompleteWindow(bits, n, 8 * i + j + 1, bit);
            return;
          }
        } else {
          SearchSet(bits, n, 8 * i + j, freeBits, bit);
          freeBits, bit := 0, -1;
        }
        j := j + 1;
      }
    }
  }

  /** Between two bits of the search: a window is growing at `bit`, and every
      other aligned window that starts below `pos` has met a set bit. */
  predicate Searching(bits: seq<bool>, n: nat, pos: nat, freeBits: nat, bit: int)
    requires n > 0
  {
    && freeBits < n && pos <= |bits|
    && (freeBits > 0 ==> bit >= 0 && bit == pos - freeBits && bit % n == 0
                         && forall k | bit <= k < pos :: !bits[k])
    && (forall w: nat | w < pos && w % n == 0 && (freeBits == 0 || w != bit) :: Blocked(bits, w, n, pos))
  }

  lemma BlockedGrows(bits: seq<bool>, w: nat, n: nat, pos: nat)
    requires Blocked(bits, w, n, pos)
    ensures Blocked(bits, w, n, pos + 1)
  {
  }

  lemma SearchSet(bits: seq<bool>, n: nat, pos: nat, freeBits: nat, bit: int)
    requires n > 0 && Searching(bits, n, pos, freeBits, bit) && pos < |bits| && bits[pos]
    ensures Searching(bits, n, pos + 1, 0, -1)
  {
    forall w: nat | w < pos + 1 && w % n == 0
      ensures Blocked(bits, w, n, pos + 1)
    {
      if w < pos && (freeBits == 0 || w != bit) {
        BlockedGrows(bits, w, n, pos);
      } else {
        assert w <= pos < w + n;
      }
    }
  }

  /** A clear bit starts an aligned window, extends one, or is passed over. */
  lemma SearchClear(bits: seq<bool>, n: nat, pos: nat, freeBits: nat, bit: int)
    requires n > 0 && Searching(bits, n, pos, freeBits, bit) && pos < |bits| && !bits[pos]
    ensures freeBits == 0 && pos % n != 0 ==> Searching(bits, n, pos + 1, 0, bit)
    ensures freeBits == 0 && pos % n == 0 ==> Grown(bits, n, pos + 1, 1, pos)
    ensures freeBits > 0 ==> Grown(bits, n, pos + 1, freeBits + 1, bit)
  {
    forall w: nat | w < pos && w % n == 0 && (freeBits == 0 || w != bit)
      ensures Blocked(bits, w, n, pos + 1)
    {
      BlockedGrows(bits, w, n, pos);
    }
    if freeBits > 0 && pos % n == 0 {
      AlignedApart(bit, pos, n);
    }
  }

  /** A growing window, possibly complete. */
  predicate Grown(bits: seq<bool>, n: nat, pos: nat, freeBits: nat, bit: int)
    requires n > 0
  {
    && 0 < freeBits <= n && pos <= |bits|
    && bit >= 0 && bit == pos - freeBits && bit % n == 0
    && (forall k | bit <= k < pos :: !bits[k])
    && (forall w: nat | w < pos && w % n == 0 && w != bit :: Blocked(bits, w, n, pos))
  }

  lemma CompleteWindow(bits: seq<bool>, n: nat, pos: nat, bit: int)
    requires n > 0 && Grown(bits, n, pos, n, bit)
    ensures Found(bits, n, bit)
  {
    forall w: nat | w < bit && w % n == 0
      ensures !ClearWindow(bits, w, n)
    {
      assert Blocked(bits, w, n, pos);
    }
  }

  lemma NoWindow(bits: seq<bool>, n: nat, freeBits: nat, bit: int)
    requires n > 0 && Searching(bits, n, |bits|, freeBits, bit)
    ensures forall w: nat | w % n == 0 :: !ClearWindow(bits, w, n)
  {
    forall w: nat | w % n == 0
      ensures !ClearWindow(bits, w, n)
    {
      if w < |bits| && (freeBits == 0 || w != bit) {
        assert Blocked(bits, w, n, |bits|);
      }
    }
  }
}
