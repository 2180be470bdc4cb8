/** Quotient, remainder and product by repeated subtraction and addition, for reasoning
    about blocks of any size. */
module Division {
  function Quot(i: nat, n: nat): nat
    requires n > 0
  {
    if i < n then 0 else 1 + Quot(i - n, n)
  }

  function Rem(i: nat, n: nat): (r: nat)
    requires n > 0
    ensures r < n && r <= i
  {
    if i < n then i else Rem(i - n, n)
  }

  function Times(a: nat, b: nat): nat {
    if a == 0 then 0 else b + Times(a - 1, b)
  }

  lemma SubtractOnce(i: nat, n: nat)
    requires n > 0 && i >= n
    ensures i / n == (i - n) / n + 1 && i % n == (i - n) % n
  {
    var q, r := (i - n) / n, (i - n) % n;
    assert i == (q + 1) * n + r;
    QuotientIs(i, n, q + 1, r);
  }

  lemma MultipleApart(d: int, n: nat)
    ensures d >= 1 ==> d * n >= n
    ensures d <= -1 ==> d * n <= 0 - n
  {
    if d >= 1 {
      assert d * n == n + (d - 1) * n;
    } else if d <= -1 {
      assert d * n == 0 - n + (d + 1) * n;
    }
  }

  lemma QuotientIs(i: nat, n: nat, q: nat, r: nat)
    requires n > 0 && i == q * n + r && r < n
    ensures i / n == q && i % n == r
  {
    var d := i / n - q;
    assert i == i / n * n + i % n;
    assert d * n == r - i % n;
    MultipleApart(d, n);
  }

  lemma {:induction false} DivIsQuot(i: nat, n: nat)
    requires n > 0
    ensures i / n == Quot(i, n) && i % n == Rem(i, n)
  {
    if i < n {
      QuotientIs(i, n, 0, i);
    } else {
      SubtractOnce(i, n);
      DivIsQuot(i - n, n);
    }
  }

  lemma {:induction false} TimesIs(a: nat, b: nat)
    ensures a * b == Times(a, b)
  {
    if a > 0 {
      TimesIs(a - 1, b);
      assert a * b == b + (a - 1) * b;
    }
  }

  /** A little further on in the same block. */
  lemma {:induction false} QuotWithin(i: nat, d: nat, n: nat)
    requires n > 0 && Rem(i, n) + d < n
    ensures Quot(i + d, n) == Quot(i, n) && Rem(i + d, n) == Rem(i, n) + d
  {
    if i >= n {
      QuotWithin(i - n, d, n);
    }
  }

  /** At the start of the next block. */
  lemma {:induction false} RemNext(i: nat, d: nat, n: nat)
    requires n > 0 && Rem(i, n) + d == n
    ensures Rem(i + d, n) == 0
  {
    if i >= n {
      RemNext(i - n, d, n);
    }
  }

  lemma {:induction false} QuotMono(i: nat, j: nat, n: nat)
    requires n > 0 && i <= j
    ensures Quot(i, n) <= Quot(j, n)
  {
    if i >= n {
      QuotMono(i - n, j - n, n);
    }
  }

  lemma MulMono(a: nat, b: nat, c: nat)
    requires b <= c
    ensures a * b <= a * c
  {
    assert a * c == a * b + a * (c - b);
  }
}
