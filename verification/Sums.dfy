/** Finite sums of reals, by name and by pairs of indexes. */
module Sums {

  function Sum(f: nat -> real, n: nat): real {
    if n == 0 then 0.0 else Sum(f, n - 1) + f(n - 1)
  }

  /** Row sums of the first `m` columns. */
  function Across(f: (nat, nat) -> real, m: nat): nat -> real {
    (i: nat) => Sum((j: nat) => f(i, j), m)
  }

  function Flipped(f: (nat, nat) -> real): (nat, nat) -> real {
    (i: nat, j: nat) => f(j, i)
  }

  function Total(f: (nat, nat) -> real, n: nat, m: nat): real { Sum(Across(f, m), n) }

  lemma SumStart(f: nat -> real)
    ensures Sum(f, 0) == 0.0
  {}

  lemma SumStep(f: nat -> real, n: nat)
    ensures Sum(f, n + 1) == Sum(f, n) + f(n)
  {}

  lemma {:induction false} SumSame(f: nat -> real, g: nat -> real, n: nat)
    requires forall k: nat :: k < n ==> f(k) == g(k)
    ensures Sum(f, n) == Sum(g, n)
  {
    if n > 0 { SumSame(f, g, n - 1); }
  }

  lemma {:induction false} SumScale(f: nat -> real, g: nat -> real, c: real, n: nat)
    requires forall k: nat :: k < n ==> g(k) == c * f(k)
    ensures Sum(g, n) == c * Sum(f, n)
  {
    if n > 0 { SumScale(f, g, c, n - 1); }
  }

  lemma {:induction false} SumPlus(f: nat -> real, g: nat -> real, h: nat -> real, n: nat)
    requires forall k: nat :: k < n ==> h(k) == f(k) + g(k)
    ensures Sum(h, n) == Sum(f, n) + Sum(g, n)
  {
    if n > 0 { SumPlus(f, g, h, n - 1); }
  }

  lemma {:induction false} SumZero(f: nat -> real, n: nat)
    requires forall k: nat :: k < n ==> f(k) == 0.0
    ensures Sum(f, n) == 0.0
  {
    if n > 0 { SumZero(f, n - 1); }
  }

  /** The order of summation does not matter. */
  lemma {:induction false} TotalSwap(f: (nat, nat) -> real, n: nat, m: nat)
    ensures Total(f, n, m) == Total(Flipped(f), m, n)
    decreases n
  {
    var g := Flipped(f);
    if n == 0 {
      forall j: nat | j < m ensures Across(g, 0)(j) == 0.0 {}
      SumZero(Across(g, 0), m);
    } else {
      TotalSwap(f, n - 1, m);
      var last := (j: nat) => f(n - 1, j);
      forall j: nat | j < m ensures Across(g, n)(j) == Across(g, n - 1)(j) + last(j) {
        LastOf(f, n, j);
      }
      SumPlus(Across(g, n - 1), last, Across(g, n), m);
    }
  }

  lemma LastOf(f: (nat, nat) -> real, n: nat, j: nat)
    requires n > 0
    ensures Across(Flipped(f), n)(j) == Across(Flipped(f), n - 1)(j) + f(n - 1, j)
  {
    var c := (i: nat) => Flipped(f)(j, i);
    assert Sum(c, n) == Sum(c, n - 1) + c(n - 1);
  }

  /** A row sum by any function with the row's values. */
  lemma AcrossAt(f: (nat, nat) -> real, m: nat, i: nat, row: nat -> real)
    requires forall j: nat :: j < m ==> row(j) == f(i, j)
    ensures Across(f, m)(i) == Sum(row, m)
  {
    SumSame(row, (j: nat) => f(i, j), m);
  }

  lemma AcrossScale(f: (nat, nat) -> real, m: nat, i: nat, g: nat -> real, c: real)
    requires forall j: nat :: j < m ==> f(i, j) == c * g(j)
    ensures Across(f, m)(i) == c * Sum(g, m)
  {
    SumScale(g, (j: nat) => f(i, j), c, m);
  }

  /** A sum with one term other than zero. */
  lemma {:induction false} SumOne(f: nat -> real, n: nat, k: nat)
    requires k < n && forall i: nat :: i < n && i != k ==> f(i) == 0.0
    ensures Sum(f, n) == f(k)
  {
    if k == n - 1 { SumZero(f, n - 1); } else { SumOne(f, n - 1, k); }
  }

  lemma TotalOne(f: (nat, nat) -> real, n: nat, m: nat, p: nat, q: nat)
    requires p < n && q < m
    requires forall i: nat, j: nat :: i < n && j < m && !(i == p && j == q) ==> f(i, j) == 0.0
    ensures Total(f, n, m) == f(p, q)
  {
    forall i: nat | i < n && i != p ensures Across(f, m)(i) == 0.0 { SumZero((j: nat) => f(i, j), m); }
    SumOne((j: nat) => f(p, j), m, q);
    SumOne(Across(f, m), n, p);
  }
}
