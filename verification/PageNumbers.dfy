/** Virtual page numbers and their four indices. */
module PageNumbers {
  import opened PageTables

  lemma Recompose(v: nat)
    ensures var p := PathOf(v);
      v % 0x10_0000_0000 == p[0] * 0x800_0000 + p[1] * 0x4_0000 + p[2] * 512 + p[3]
  {
    assert v == v / 512 * 512 + v % 512;
    assert v / 512 == v / 512 / 512 * 512 + v / 512 % 512;
    assert v / 512 / 512 == v / 0x4_0000;
    assert v / 0x4_0000 == v / 0x4_0000 / 512 * 512 + v / 0x4_0000 % 512;
    assert v / 0x4_0000 / 512 == v / 0x800_0000;
    assert v / 0x800_0000 == v / 0x800_0000 / 512 * 512 + v / 0x800_0000 % 512;
    assert v / 0x800_0000 / 512 == v / 0x10_0000_0000;
  }

  /** A page number counts in its low 36 bits. */
  lemma SamePath(v: nat, w: nat)
    requires PathOf(v) == PathOf(w)
    ensures v % 0x10_0000_0000 == w % 0x10_0000_0000
  {
    Recompose(v);
    Recompose(w);
  }
}
