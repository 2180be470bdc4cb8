/** The order in which vspace_delete visits a space's tree, and what has been
    freed at each point of it. */
module Teardown {
  import opened Wrappers
  import opened PageTables
  import opened PageTableProofs

  /** The visit stands at `cursor` and is done with `q`. */
  predicate Before(q: Path, cursor: Path) {
    && q != [] && cursor != []
    && (q[0] < cursor[0] || (q[0] == cursor[0] && Before(q[1..], cursor[1..])))
  }

  predicate Extends(q: Path, p: Path) {
    |p| <= |q| && q[..|p|] == p
  }

  lemma ExtendsTail(q: Path, p: Path)
    requires q != [] && p != []
    ensures Extends(q, p) <==> q[0] == p[0] && Extends(q[1..], p[1..])
  {
    if |p| <= |q| {
      assert q[..|p|] == [q[0]] + q[1..][..|p| - 1];
      assert p == [p[0]] + p[1..];
    }
  }

  lemma {:induction false} BeforeEnter(q: Path, c: Path)
    ensures Before(q, c + [0]) <==> Before(q, c)
  {
    if c != [] && q != [] {
      assert (c + [0])[1..] == c[1..] + [0];
      BeforeEnter(q[1..], c[1..]);
    }
  }

  lemma {:induction false} BeforeNext(q: Path, p: Path, d: nat)
    ensures Before(q, p + [d + 1]) <==> Before(q, p + [d]) || Extends(q, p + [d])
  {
    if q != [] {
      ExtendsTail(q, p + [d]);
      if p == [] {
        assert (p + [d])[1..] == [] == (p + [d + 1])[1..];
      } else {
        assert (p + [d + 1])[1..] == p[1..] + [d + 1] && (p + [d])[1..] == p[1..] + [d];
        BeforeNext(q[1..], p[1..], d);
      }
    }
  }

  lemma {:induction false} BeforeLeave(q: Path, c: Path)
    requires forall i | 0 <= i < |q| :: q[i] < 512
    ensures Before(q, c + [512]) || q == c <==> Before(q, c) || Extends(q, c)
  {
    if c == [] {
      if q != [] { assert q[0] < 512; }
    } else if q != [] {
      assert (c + [512])[1..] == c[1..] + [512];
      ExtendsTail(q, c);
      BeforeLeave(q[1..], c[1..]);
      assert q == c <==> q[0] == c[0] && q[1..] == c[1..] by {
        assert q == [q[0]] + q[1..] && c == [c[0]] + c[1..];
      }
    }
  }

  lemma {:induction false} NotBeforeSelf(q: Path, p: Path)
    requires Extends(p, q)
    ensures !Before(q, p)
  {
    if q != [] {
      ExtendsTail(p, q);
      NotBeforeSelf(q[1..], p[1..]);
    }
  }

  /** Frames of the space freed by the time the visit stands at `cursor`. */
  function Freed(s: State, root: nat, cursor: Path): set<nat> {
    set f | f in s.owner && s.owner[f].root == root && Before(s.owner[f].path, cursor)
  }

  /** The frames still in use by then. */
  function Left(s: State, root: nat, cursor: Path): set<nat> {
    s.used - Freed(s, root, cursor)
  }


  lemma FreedEnter(s: State, root: nat, c: Path)
    ensures Freed(s, root, c + [0]) == Freed(s, root, c)
  {
    forall f | f in s.owner
      ensures Before(s.owner[f].path, c + [0]) <==> Before(s.owner[f].path, c)
    {
      BeforeEnter(s.owner[f].path, c);
    }
  }

  /** An absent entry has nothing to free. */
  lemma FreedSkip(s: State, root: nat, p: Path, d: nat)
    requires Inv(s) && NodeAt(s.mem, root, p + [d]) == None
    ensures Freed(s, root, p + [d + 1]) == Freed(s, root, p + [d])
  {
    forall f | f in s.owner && s.owner[f].root == root
      ensures Before(s.owner[f].path, p + [d + 1]) <==> Before(s.owner[f].path, p + [d])
    {
      var q := s.owner[f].path;
      BeforeNext(q, p, d);
      assert Genuine(s, f);
      if Extends(q, p + [d]) {
        NodePrefix(s.mem, root, q, |p| + 1);
      }
    }
  }

  /** After the last entry of a table only the table itself is left to free. */
  lemma FreedLeave(s: State, root: nat, p: Path, d: nat, g: nat)
    requires Inv(s) && Owns(s, root, p + [d]) && NodeAt(s.mem, root, p + [d]) == Some(g)
    ensures g in s.used && g !in Freed(s, root, p + [d] + [512])
    ensures Freed(s, root, p + [d + 1]) == Freed(s, root, p + [d] + [512]) + {g}
    ensures g in Left(s, root, p + [d] + [512]) && Left(s, root, p + [d + 1]) == Left(s, root, p + [d] + [512]) - {g}
  {
    var c := p + [d];
    assert Recorded(s, root, c);
    assert Genuine(s, g);
    forall f | f in s.owner && s.owner[f].root == root
      ensures Before(s.owner[f].path, p + [d + 1]) <==> Before(s.owner[f].path, c + [512]) || f == g
    {
      var q := s.owner[f].path;
      assert Genuine(s, f);
      BeforeNext(q, p, d);
      BeforeLeave(q, c);
    }
    assert Extends(c + [512], c) by { assert (c + [512])[..|c|] == c; }
    NotBeforeSelf(c, c + [512]);
  }

  /** A page has nothing below it. */
  lemma FreedLeaf(s: State, root: nat, p: Path, d: nat, g: nat)
    requires Inv(s) && |p| == 3 && Owns(s, root, p + [d]) && NodeAt(s.mem, root, p + [d]) == Some(g)
    ensures g in s.used && g !in Freed(s, root, p + [d])
    ensures Freed(s, root, p + [d + 1]) == Freed(s, root, p + [d]) + {g}
    ensures g in Left(s, root, p + [d]) && Left(s, root, p + [d + 1]) == Left(s, root, p + [d]) - {g}
  {
    var c := p + [d];
    assert Recorded(s, root, c);
    assert Genuine(s, g);
    forall f | f in s.owner && s.owner[f].root == root
      ensures Before(s.owner[f].path, p + [d + 1]) <==> Before(s.owner[f].path, c) || f == g
    {
      var q := s.owner[f].path;
      assert Genuine(s, f);
      BeforeNext(q, p, d);
      if Extends(q, c) { assert q == q[..4] == c; }
    }
    assert Extends(c, c);
    NotBeforeSelf(c, c);
  }

  /** Past slot 255 only the PML4 is left, and with it every frame of the space is covered. */
  lemma FreedAll(s: State, root: nat)
    requires Inv(s) && root in s.spaces
    ensures root in s.used && root !in Freed(s, root, [256])
    ensures Frames(s, root) == Freed(s, root, [256]) + {root}
  {
    RootsOwned(s, root);
    forall f | f in s.owner && s.owner[f].root == root
      ensures Before(s.owner[f].path, [256]) <==> f != root
    {
      assert Genuine(s, f);
      if s.owner[f].path == [] {
        assert f == root;
      }
    }
  }
}
