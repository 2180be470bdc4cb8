/** Bytes, slices and copying. */
module Bytes {
  import opened Division

  newtype Byte = b: int | 0 <= b < 256

  function Min(a: nat, b: nat): nat {
    if a <= b then a else b
  }

  /** The bytes from `offset` on, at most `len` of them and none past the end. */
  function Slice(data: seq<Byte>, offset: nat, len: nat): seq<Byte> {
    data[Min(offset, |data|)..Min(offset + len, |data|)]
  }

  function Zeros(n: nat): (r: seq<Byte>)
    ensures |r| == n
  {
    seq(n, _ => 0)
  }

  /** A little-endian 32-bit word. */
  function Word32(data: seq<Byte>, at: nat): nat
    requires at + 4 <= |data|
  {
    (data[at] as int) + 256 * (data[at + 1] as int) + 65536 * (data[at + 2] as int) + 16777216 * (data[at + 3] as int)
  }

  /** A 32-bit word as it is stored, lowest byte first. */
  function LittleEndian(w: nat): (r: seq<Byte>)
    requires w < 0x1_0000_0000
    ensures |r| == 4
  {
    [(w % 256) as Byte, (w / 256 % 256) as Byte, (w / 65536 % 256) as Byte, (w / 16777216) as Byte]
  }

  predicate Words(ws: seq<nat>) {
    forall k | 0 <= k < |ws| :: ws[k] < 0x1_0000_0000
  }

  /** A row of such words, one behind the other. */
  function Laid(ws: seq<nat>): (r: seq<Byte>)
    requires Words(ws)
    ensures |r| == 4 * |ws|
  {
    if ws == [] then [] else Laid(ws[..|ws| - 1]) + LittleEndian(ws[|ws| - 1])
  }

  lemma {:induction false} LaidAt(ws: seq<nat>, k: nat)
    requires Words(ws) && k < |ws|
    ensures Laid(ws)[4 * k..4 * k + 4] == LittleEndian(ws[k])
  {
    if k < |ws| - 1 {
      LaidAt(ws[..|ws| - 1], k);
      assert Laid(ws)[4 * k..4 * k + 4] == Laid(ws[..|ws| - 1])[4 * k..4 * k + 4];
    }
  }

  /** The four bytes of a sum of bytes, and the sum of the four bytes of a word. */
  lemma FourBytes(a: nat, b: nat, c: nat, d: nat)
    requires a < 256 && b < 256 && c < 256 && d < 256
    ensures var w := a + 256 * b + 65536 * c + 16777216 * d;
      w < 0x1_0000_0000 && w % 256 == a && w / 256 % 256 == b && w / 65536 % 256 == c && w / 16777216 == d
  {
    var w := a + 256 * b + 65536 * c + 16777216 * d;
    QuotientIs(w, 256, b + 256 * c + 65536 * d, a);
    QuotientIs(w / 256, 256, c + 256 * d, b);
    QuotientIs(w, 65536, c + 256 * d, a + 256 * b);
    QuotientIs(w / 65536, 256, d, c);
    QuotientIs(w, 16777216, d, a + 256 * b + 65536 * c);
  }

  lemma FourOfWord(w: nat)
    requires w < 0x1_0000_0000
    ensures w == w % 256 + 256 * (w / 256 % 256) + 65536 * (w / 65536 % 256) + 16777216 * (w / 16777216)
  {
    var q := w / 256;
    QuotientIs(w, 65536, q / 256, q % 256 * 256 + w % 256);
    var r := w / 65536;
    QuotientIs(w, 16777216, r / 256, r % 256 * 65536 + w % 65536);
  }

  /** A word comes back as it was stored, wherever it stands. */
  lemma WordRoundTrip(data: seq<Byte>, at: nat, w: nat)
    requires w < 0x1_0000_0000 && at + 4 <= |data|
    ensures Word32(data, at) == w <==> data[at..at + 4] == LittleEndian(w)
  {
    var four := data[at..at + 4];
    assert four[0] == data[at] && four[1] == data[at + 1] && four[2] == data[at + 2] && four[3] == data[at + 3];
    FourBytes(data[at] as nat, data[at + 1] as nat, data[at + 2] as nat, data[at + 3] as nat);
    FourOfWord(w);
    if Word32(data, at) == w {
      assert four == LittleEndian(w);
    }
  }

  /** Every table of bytes is a row of words. */
  lemma {:induction false} RowExists(table: seq<Byte>) returns (ws: seq<nat>)
    requires |table| % 4 == 0
    ensures Words(ws) && Laid(ws) == table
  {
    if table == [] {
      ws := [];
    } else {
      var n := |table| - 4;
      var front := RowExists(table[..n]);
      var w := Word32(table, n);
      WordRoundTrip(table, n, w);
      ws := front + [w];
      assert ws[..|ws| - 1] == front;
    }
  }

  /** The words in a table of bytes. */
  ghost function Row(table: seq<Byte>): (ws: seq<nat>)
    requires |table| % 4 == 0
    ensures Words(ws) && Laid(ws) == table && 4 * |ws| == |table|
  {
    assert exists ws :: Words(ws) && Laid(ws) == table by {
      var ws := RowExists(table);
    }
    var ws :| Words(ws) && Laid(ws) == table;
    ws
  }

  /** Reading word k of a row. */
  lemma WordOfRow(ws: seq<nat>, k: nat)
    requires Words(ws) && k < |ws|
    ensures Word32(Laid(ws), 4 * k) == ws[k]
  {
    LaidAt(ws, k);
    WordRoundTrip(Laid(ws), 4 * k, ws[k]);
  }

  function Written(buf: seq<Byte>, at: nat, src: seq<Byte>): seq<Byte>
    requires at + |src| <= |buf|
  {
    buf[..at] + src + buf[at + |src|..]
  }

  /** memcpy into a buffer. */
  method Copy(buf: array<Byte>, at: nat, src: seq<Byte>)
    requires at + |src| <= buf.Length
    modifies buf
    ensures buf[..] == Written(old(buf[..]), at, src)
  {
    var i := 0;
    while i < |src|
      invariant i <= |src|
      invariant buf[..] == Written(old(buf[..]), at, src[..i])
    {
      buf[at + i] := src[i];
      i := i + 1;
    }
    assert src[..i] == src;
  }

  /** Two writes side by side. */
  lemma WrittenTwice(buf: seq<Byte>, at: nat, a: seq<Byte>, b: seq<Byte>)
    requires at + |a| + |b| <= |buf|
    ensures Written(Written(buf, at, a), at + |a|, b) == Written(buf, at, a + b)
  {
  }
}
