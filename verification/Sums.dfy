/**
 Finite sums over the field. Every lemma relates sums of functions that agree pointwise in
 the stated way, so callers name the functions they mean and prove only the pointwise fact.
 */
module Sums {
  import opened Field
  import opened Arith

  function Sum(n: nat, f: nat -> F): F {
    if n == 0 then Zero else Add(Sum(n - 1, f), f(n - 1))
  }

  // Entry i of a table, zero past its end.
  function At(s: seq<F>, i: nat): F {
    if i < |s| then s[i] else Zero
  }

  lemma AtEntry(x: seq<F>, j: nat)
    requires j < |x|
    ensures At(x, j) == x[j]
  {}

  lemma SumStep(n: nat, f: nat -> F)
    ensures Sum(0, f) == Zero && Sum(n + 1, f) == Add(Sum(n, f), f(n))
  {}

  // f moved up by one place.
  function Delayed(f: nat -> F): nat -> F {
    (i: nat) => if i == 0 then Zero else f(i - 1)
  }

  lemma {:induction false} Congruent(n: nat, f: nat -> F, g: nat -> F)
    requires forall i: nat :: i < n ==> f(i) == g(i)
    ensures Sum(n, f) == Sum(n, g)
  {
    if n > 0 { Congruent(n - 1, f, g); }
  }

  lemma {:induction false} AllZero(n: nat, f: nat -> F)
    requires forall i: nat :: i < n ==> f(i) == Zero
    ensures Sum(n, f) == Zero
  {
    if n > 0 { AllZero(n - 1, f); AddZero(Zero); }
  }

  // A sum with at most one nonzero term.
  lemma {:induction false} Single(n: nat, f: nat -> F, k: nat)
    requires k < n
    requires forall i: nat :: i < n && i != k ==> f(i) == Zero
    ensures Sum(n, f) == f(k)
  {
    if k == n - 1 {
      AllZero(n - 1, f);
      AddComm(Zero, f(k));
      AddZero(f(k));
    } else {
      Single(n - 1, f, k);
      AddZero(f(k));
    }
  }

  lemma {:induction false} Plus(n: nat, f: nat -> F, g: nat -> F, h: nat -> F)
    requires forall i: nat :: i < n ==> h(i) == Add(f(i), g(i))
    ensures Sum(n, h) == Add(Sum(n, f), Sum(n, g))
  {
    if n == 0 {
      AddZero(Zero);
    } else {
      Plus(n - 1, f, g, h);
      AddInterchange(Sum(n - 1, f), Sum(n - 1, g), f(n - 1), g(n - 1));
    }
  }

  lemma {:induction false} Scale(n: nat, c: F, f: nat -> F, h: nat -> F)
    requires forall i: nat :: i < n ==> h(i) == Mul(c, f(i))
    ensures Sum(n, h) == Mul(c, Sum(n, f))
  {
    if n == 0 {
      MulZero(c);
    } else {
      Scale(n - 1, c, f, h);
      Distributes(c, Sum(n - 1, f), f(n - 1));
    }
  }

  lemma {:induction false} Split(n: nat, m: nat, f: nat -> F, g: nat -> F)
    requires forall i: nat :: i < m ==> g(i) == f(n + i)
    ensures Sum(n + m, f) == Add(Sum(n, f), Sum(m, g))
  {
    if m == 0 {
      AddZero(Sum(n, f));
    } else {
      Split(n, m - 1, f, g);
      AddAssoc(Sum(n, f), Sum(m - 1, g), f(n + m - 1));
    }
  }

  lemma SumDelayed(n: nat, f: nat -> F)
    requires n > 0
    ensures Sum(n, Delayed(f)) == Sum(n - 1, f)
  {
    hide Add, Sum;
    Split(1, n - 1, Delayed(f), f);
    SumStep(0, Delayed(f));
    AddZero(Zero);
    AddComm(Zero, Sum(n - 1, f));
    AddZero(Sum(n - 1, f));
  }

  lemma {:induction false} Pairs(n: nat, f: nat -> F, g: nat -> F)
    requires forall i: nat :: i < n ==> g(i) == Add(f(2 * i), f(2 * i + 1))
    ensures Sum(2 * n, f) == Sum(n, g)
  {
    hide Add, Sum;
    if n == 0 {
      SumStep(0, f);
      SumStep(0, g);
    } else {
      var m: nat := n - 1;
      Pairs(m, f, g);
      SumStep(m, g);
      SumStep(2 * m, f);
      SumStep(2 * m + 1, f);
      assert g(m) == Add(f(2 * m), f(2 * m + 1));
      AddAssoc(Sum(2 * m, f), f(2 * m), f(2 * m + 1));
    }
  }

  // n consecutive blocks of length m.
  lemma {:induction false} Blocks(n: nat, m: nat, f: nat -> F, g: nat -> F)
    requires forall i: nat :: i < n ==> g(i) == Sum(m, (j: nat) => f(i * m + j))
    ensures n * m >= 0 && Sum(n * m, f) == Sum(n, g)
  {
    hide Add;
    DistributeOver(n - 1, 1, m);
    if n > 0 {
      MulMonotone(0, n - 1, m);
      Blocks(n - 1, m, f, g);
      LastBlock((n - 1) * m, m, f, n - 1, n * m);
    }
  }

  lemma LastBlock(start: nat, m: nat, f: nat -> F, i: nat, end: nat)
    requires start == i * m && end == start + m
    ensures Sum(end, f) == Add(Sum(start, f), Sum(m, (j: nat) => f(i * m + j)))
  {
    Split(start, m, f, (j: nat) => f(i * m + j));
  }

  lemma {:induction false} Swap(n: nat, m: nat, rows: nat -> F, cols: nat -> F, f: (nat, nat) -> F)
    requires forall i: nat :: i < n ==> rows(i) == Sum(m, (j: nat) => f(i, j))
    requires forall j: nat :: j < m ==> cols(j) == Sum(n, (i: nat) => f(i, j))
    ensures Sum(n, rows) == Sum(m, cols)
  {
    if n == 0 {
      AllZero(m, cols);
    } else {
      var cols' := (j: nat) => Sum(n - 1, (i: nat) => f(i, j));
      Swap(n - 1, m, rows, cols', f);
      var last := (j: nat) => f(n - 1, j);
      forall j: nat | j < m
        ensures cols(j) == Add(cols'(j), last(j))
      {
        assert cols(j) == Sum(n, (i: nat) => f(i, j));
      }
      Plus(m, cols', last, cols);
    }
  }
}
