/** Newton forward-difference interpolation at 0, 1, ..., n - 1, and uniqueness of interpolation. */
module Interpolation {
  import opened Field
  import opened Sums
  import opened UniPoly

  // ---- A polynomial with as many roots as coefficients is zero

  // The quotient of the division of c by (X - a).
  function Quotient(c: seq<F>, a: F): (q: seq<F>)
    requires |c| > 0
    ensures |q| == |c| - 1
  {
    seq(|c| - 1, (i: nat) requires i < |c| - 1 => Value(c[i + 1..], a))
  }

  lemma {:induction false} FactorTheorem(c: seq<F>, a: F, x: F)
    requires |c| > 0
    ensures Sub(Value(c, x), Value(c, a)) == Mul(Sub(x, a), Value(Quotient(c, a), x))
  {
    hide Add, Mul, Neg;
    if |c| == 1 {
      assert c[1..] == [];
      ConstantDifference(c[0], x, a);
    } else {
      var t := c[1..];
      FactorTheorem(t, a, x);
      forall i: nat | i < |t| - 1
        ensures Quotient(c, a)[1..][i] == Quotient(t, a)[i]
      {
        assert t[i + 1..] == c[i + 2..];
      }
      assert Quotient(c, a)[1..] == Quotient(t, a);
      assert Quotient(c, a)[0] == Value(t, a);
      FactorStep(c[0], x, a, Value(t, x), Value(t, a), Value(Quotient(t, a), x));
    }
  }

  lemma ConstantDifference(c: F, x: F, a: F)
    ensures Sub(Add(c, Mul(x, Zero)), Add(c, Mul(a, Zero))) == Mul(Sub(x, a), Zero)
  { Ring(); }

  lemma FactorStep(c: F, x: F, a: F, tx: F, ta: F, q: F)
    requires Sub(tx, ta) == Mul(Sub(x, a), q)
    ensures Sub(Add(c, Mul(x, tx)), Add(c, Mul(a, ta))) == Mul(Sub(x, a), Add(ta, Mul(x, q)))
  {
    FactorStep1(c, x, a, tx, ta);
    FactorStep2(x, Sub(x, a), q, ta);
  }

  lemma FactorStep1(c: F, x: F, a: F, tx: F, ta: F)
    ensures Sub(Add(c, Mul(x, tx)), Add(c, Mul(a, ta))) == Add(Mul(Sub(x, a), ta), Mul(x, Sub(tx, ta)))
  { Ring(); }

  lemma FactorStep2(x: F, d: F, q: F, ta: F)
    ensures Add(Mul(d, ta), Mul(x, Mul(d, q))) == Mul(d, Add(ta, Mul(x, q)))
  { Ring(); }

  ghost predicate Distinct(points: seq<F>) {
    forall i: nat, j: nat :: i < j < |points| ==> points[i] != points[j]
  }

  /** At least as many distinct roots as coefficients: every coefficient is zero. */
  lemma {:induction false} TooManyRoots(c: seq<F>, points: seq<F>)
    requires |c| <= |points| && Distinct(points)
    requires forall i: nat :: i < |points| ==> Value(c, points[i]) == Zero
    ensures forall i: nat :: i < |c| ==> c[i] == Zero
    decreases |points|
  {
    hide Add, Mul, Neg;
    if |c| > 0 {
      var m := |points| - 1;
      var a, q := points[m], Quotient(c, points[m]);
      forall i: nat | i < m
        ensures Value(q, points[i]) == Zero
      {
        FactorTheorem(c, a, points[i]);
        RootOfQuotient(points[i], a, Value(q, points[i]));
      }
      TooManyRoots(q, points[..m]);
      forall i: nat | i < |c|
        ensures c[i] == Zero
      {
        var tail := c[i..];
        assert tail[1..] == c[i + 1..] && tail[0] == c[i];
        assert Value(tail, a) == Zero by {
          if i == 0 { assert tail == c; } else { assert q[i - 1] == Value(tail, a); }
        }
        assert Value(tail[1..], a) == Zero by {
          if i + 1 < |c| { assert q[i] == Value(c[i + 1..], a); }
        }
        assert Value(tail, a) == Add(c[i], Mul(a, Value(tail[1..], a)));
        MulZero(a);
        AddZero(c[i]);
      }
    }
  }

  lemma RootOfQuotient(x: F, a: F, q: F)
    requires x != a && Mul(Sub(x, a), q) == Sub(Zero, Zero)
    ensures q == Zero
  {
    AddNeg(Zero);
    NoZeroDivisors(Sub(x, a), q);
    if q != Zero { SubZeroIsEqual(x, a); }
  }

  // The coefficients of c - d.
  function Difference(c: seq<F>, d: seq<F>, n: nat): seq<F> {
    seq(n, (i: nat) => Sub(At(c, i), At(d, i)))
  }

  lemma DifferenceValue(c: seq<F>, d: seq<F>, n: nat, x: F)
    requires |c| <= n && |d| <= n
    ensures Value(Difference(c, d, n), x) == Sub(Value(c, x), Value(d, x))
  {
    hide Add, Mul, Neg, Pow, Value, Sum;
    var e := Difference(c, d, n);
    ValueIsSum(c, n, x);
    ValueIsSum(d, n, x);
    ValueIsSum(e, n, x);
    var minus := (i: nat) => Mul(Neg(One), Monomials(d, x)(i));
    forall i: nat | i < n
      ensures Monomials(e, x)(i) == Add(Monomials(c, x)(i), minus(i))
    {
      assert At(e, i) == Sub(At(c, i), At(d, i));
      DifferenceTerm(At(c, i), At(d, i), Pow(x, i));
    }
    Plus(n, Monomials(c, x), minus, Monomials(e, x));
    Scale(n, Neg(One), Monomials(d, x), minus);
    MinusOne(Sum(n, Monomials(d, x)));
  }

  lemma DifferenceTerm(a: F, b: F, p: F)
    ensures Mul(Sub(a, b), p) == Add(Mul(a, p), Mul(Neg(One), Mul(b, p)))
  { Ring(); }

  lemma MinusOne(x: F)
    ensures Mul(Neg(One), x) == Neg(x)
  { Ring(); }

  /** Interpolation is unique: polynomials of length at most n that agree at n distinct points
      have the same coefficients. */
  lemma UniqueInterpolant(c: seq<F>, d: seq<F>, points: seq<F>)
    requires |c| <= |points| && |d| <= |points| && Distinct(points)
    requires forall i: nat :: i < |points| ==> Value(c, points[i]) == Value(d, points[i])
    ensures forall i: nat :: At(c, i) == At(d, i)
  {
    hide Add, Mul, Neg, Value;
    var n := |points|;
    var e := Difference(c, d, n);
    forall i: nat | i < n
      ensures Value(e, points[i]) == Zero
    {
      DifferenceValue(c, d, n, points[i]);
      AddNeg(Value(d, points[i]));
    }
    TooManyRoots(e, points);
    forall i: nat
      ensures At(c, i) == At(d, i)
    {
      if i < n {
        assert e[i] == Sub(At(c, i), At(d, i));
        SubZeroIsEqual(At(c, i), At(d, i));
      }
    }
  }

  // ---- Forward differences

  function Delta(e: seq<F>): (d: seq<F>)
    requires |e| > 0
    ensures |d| == |e| - 1
  {
    seq(|e| - 1, (i: nat) requires i < |e| - 1 => Sub(e[i + 1], e[i]))
  }

  // The k-th forward difference at 0.
  function DeltaAt(e: seq<F>, k: nat): F
    decreases k
  {
    if |e| == 0 then Zero else if k == 0 then e[0] else DeltaAt(Delta(e), k - 1)
  }

  // The k-fold difference table.
  function Differences(e: seq<F>, k: nat): (d: seq<F>)
    requires k <= |e|
    ensures |d| == |e| - k
    decreases k
  {
    if k == 0 then e else Differences(Delta(e), k - 1)
  }

  lemma {:induction false} DifferencesHead(e: seq<F>, k: nat)
    requires k < |e|
    ensures Differences(e, k)[0] == DeltaAt(e, k)
    ensures Differences(e, k + 1) == Delta(Differences(e, k))
    decreases k
  {
    if k > 0 { DifferencesHead(Delta(e), k - 1); }
  }

  // x (x - 1) ... (x - k + 1)
  function Falling(x: F, k: nat): F {
    if k == 0 then One else Mul(Falling(x, k - 1), Sub(x, FromNat(k - 1)))
  }

  function Factorial(k: nat): F {
    if k == 0 then One else Mul(Factorial(k - 1), FromNat(k))
  }

  ghost predicate SmallNumbersInvertible(n: nat) {
    forall k: nat :: 1 <= k < n ==> FromNat(k) != Zero
  }

  lemma {:induction false} FactorialInvertible(n: nat, k: nat)
    requires SmallNumbersInvertible(n) && (k < n || k == 0)
    ensures Factorial(k) != Zero
  {
    if k == 0 {
    } else {
      FactorialInvertible(n, k - 1);
      if Factorial(k) == Zero { NoZeroDivisors(Factorial(k - 1), FromNat(k)); }
    }
  }

  // The binomial coefficient "x choose k" in the field.
  function Choose(x: F, k: nat): F {
    Mul(Falling(x, k), Inv(Factorial(k)))
  }

  lemma {:induction false} FallingShift(x: F, k: nat)
    ensures Falling(x, k + 1) == Mul(x, Falling(Sub(x, One), k))
  {
    hide Add, Mul, Neg;
    if k == 0 {
      assert Falling(x, 1) == Mul(Falling(x, 0), Sub(x, FromNat(0)));
      FallingBase(x);
    } else {
      FallingShift(x, k - 1);
      assert FromNat(k) == Add(FromNat(k - 1), One);
      FallingShiftStep(x, Falling(Sub(x, One), k - 1), FromNat(k - 1));
    }
  }

  lemma FallingBase(x: F)
    ensures Mul(One, Sub(x, Zero)) == Mul(x, One)
  { Ring(); }

  lemma FallingShiftStep(x: F, g: F, m: F)
    ensures Mul(Mul(x, g), Sub(x, Add(m, One))) == Mul(x, Mul(g, Sub(Sub(x, One), m)))
  { Ring(); }

  /** Pascal's rule in the field. */
  lemma Pascal(x: F, k: nat)
    requires k > 0 && Factorial(k) != Zero
    ensures Choose(x, k) == Add(Choose(Sub(x, One), k), Choose(Sub(x, One), k - 1))
  {
    hide Add, Mul, Neg, Inv;
    var y, g := Sub(x, One), Falling(Sub(x, One), k - 1);
    FallingShift(x, k - 1);
    assert FromNat(k) == Add(FromNat(k - 1), One);
    FallingDifference(x, g, FromNat(k - 1));
    assert Factorial(k) == Mul(Factorial(k - 1), FromNat(k));
    ScaledInverse(Factorial(k - 1), FromNat(k));
    PascalStep(Falling(y, k), FromNat(k), g, Inv(Factorial(k)), Inv(Factorial(k - 1)));
  }

  lemma FallingDifference(x: F, g: F, m: F)
    ensures Mul(x, g) == Add(Mul(g, Sub(Sub(x, One), m)), Mul(Add(m, One), g))
  { Ring(); }

  lemma ScaledInverse(f: F, k: F)
    requires Mul(f, k) != Zero
    ensures Mul(k, Inv(Mul(f, k))) == Inv(f)
  {
    if f == Zero { MulComm(Zero, k); MulZero(k); }
    if k == Zero { MulZero(f); }
    MulInv(f);
    MulInv(Mul(f, k));
    assert Mul(Mul(k, Inv(Mul(f, k))), f) == One by { Products(); }
    MulComm(f, Inv(f));
    MulCancel(Mul(k, Inv(Mul(f, k))), Inv(f), f);
  }

  lemma PascalStep(b: F, k: F, g: F, inv: F, inv': F)
    requires Mul(k, inv) == inv'
    ensures Mul(Add(b, Mul(k, g)), inv) == Add(Mul(b, inv), Mul(g, inv'))
  { Ring(); }

  ghost function NewtonTerms(e: seq<F>, x: F): nat -> F {
    (k: nat) => Mul(DeltaAt(e, k), Choose(x, k))
  }

  // p_e(x) - p_e(x - 1) = p_{Delta e}(x - 1), for the Newton sum p.
  lemma NewtonDifference(e: seq<F>, x: F)
    requires |e| > 0 && SmallNumbersInvertible(|e|)
    ensures Sum(|e|, NewtonTerms(e, x)) ==
      Add(Sum(|e|, NewtonTerms(e, Sub(x, One))), Sum(|e| - 1, NewtonTerms(Delta(e), Sub(x, One))))
  {
    hide Add, Mul, Neg, Inv, Choose, Sum, Sub, NewtonTerms, DeltaAt;
    var n, y := |e|, Sub(x, One);
    var here, there, lower := NewtonTerms(e, x), NewtonTerms(e, y), NewtonTerms(Delta(e), y);
    var shifted := Delayed(lower);
    forall k: nat | k < n
      ensures here(k) == Add(there(k), shifted(k))
    {
      NewtonTermStep(e, x, k);
    }
    Plus(n, there, shifted, here);
    SumDelayed(n, lower);
  }

  lemma NewtonTermStep(e: seq<F>, x: F, k: nat)
    requires k < |e| && SmallNumbersInvertible(|e|)
    ensures NewtonTerms(e, x)(k) ==
      Add(NewtonTerms(e, Sub(x, One))(k), if k == 0 then Zero else NewtonTerms(Delta(e), Sub(x, One))(k - 1))
  {
    hide Add, Mul, Neg, Inv, Choose, Sub;
    var y := Sub(x, One);
    if k == 0 {
      ChooseZero(x);
      ChooseZero(y);
      AddZero(NewtonTerms(e, y)(0));
    } else {
      FactorialInvertible(|e|, k);
      Pascal(x, k);
      Distributes(DeltaAt(e, k), Choose(y, k), Choose(y, k - 1));
    }
  }

  lemma ChooseZero(x: F)
    ensures Choose(x, 0) == Mul(One, Inv(One))
  {}

  /** Newton's forward formula reproduces the table. */
  lemma {:induction false} NewtonInterpolates(e: seq<F>, i: nat)
    requires i < |e| && SmallNumbersInvertible(|e|)
    ensures Sum(|e|, NewtonTerms(e, FromNat(i))) == e[i]
    decreases i
  {
    hide Add, Mul, Neg, Inv, Choose, Sum;
    if i == 0 {
      NewtonAtZero(e);
    } else {
      NewtonInterpolates(e, i - 1);
      NewtonInterpolates(Delta(e), i - 1);
      NewtonDifference(e, FromNat(i));
      PredecessorOf(FromNat(i - 1));
      Telescope(e[i], e[i - 1]);
    }
  }

  lemma PredecessorOf(x: F)
    ensures Sub(Add(x, One), One) == x
  { Ring(); }

  lemma Telescope(a: F, b: F)
    ensures Add(b, Sub(a, b)) == a
  { Ring(); }

  lemma NewtonAtZero(e: seq<F>)
    requires |e| > 0
    ensures Sum(|e|, NewtonTerms(e, Zero)) == e[0]
  {
    hide Add, Mul, Neg, Inv, Sum, Falling;
    var f := NewtonTerms(e, Zero);
    forall k: nat | 0 < k < |e|
      ensures f(k) == Zero
    {
      FallingAtZero(k);
      MulComm(Zero, Inv(Factorial(k)));
      MulZero(Inv(Factorial(k)));
      MulZero(DeltaAt(e, k));
    }
    Sums.Single(|e|, f, 0);
    FallingOfNone();
    MulInv(One);
    MulOne(e[0]);
  }

  lemma FallingOfNone()
    ensures Falling(Zero, 0) == One && Factorial(0) == One
  {}

  lemma {:induction false} FallingAtZero(k: nat)
    requires k > 0
    ensures Falling(Zero, k) == Zero
  {
    FallingShift(Zero, k - 1);
    MulComm(Zero, Falling(Sub(Zero, One), k - 1));
    MulZero(Falling(Sub(Zero, One), k - 1));
  }

  // ---- The nested Newton form

  // d[k] + (x - k) (d[k + 1] + (x - k - 1) (...))
  function Nested(d: seq<F>, k: nat, x: F): F
    requires k < |d|
    decreases |d| - k
  {
    if k == |d| - 1 then d[k] else Add(d[k], Mul(Sub(x, FromNat(k)), Nested(d, k + 1, x)))
  }

  ghost function FallingTerms(d: seq<F>, x: F): nat -> F {
    (k: nat) => Mul(At(d, k), Falling(x, k))
  }

  lemma {:induction false} NestedIsSum(d: seq<F>, k: nat, x: F)
    requires k < |d|
    ensures Add(Sum(k, FallingTerms(d, x)), Mul(Falling(x, k), Nested(d, k, x))) == Sum(|d|, FallingTerms(d, x))
    decreases |d| - k
  {
    hide Add, Mul, Neg;
    MulComm(d[k], Falling(x, k));
    assert Sum(k + 1, FallingTerms(d, x)) == Add(Sum(k, FallingTerms(d, x)), Mul(Falling(x, k), d[k]));
    if k < |d| - 1 {
      NestedIsSum(d, k + 1, x);
      NestedStep(Sum(k, FallingTerms(d, x)), Falling(x, k), d[k], Sub(x, FromNat(k)), Nested(d, k + 1, x));
    }
  }

  lemma NestedStep(s: F, f: F, d: F, u: F, rest: F)
    ensures Add(s, Mul(f, Add(d, Mul(u, rest)))) == Add(Add(s, Mul(f, d)), Mul(Mul(f, u), rest))
  { Ring(); }

  ghost predicate IsDivided(d: seq<F>, e: seq<F>) {
    |d| == |e| && forall k: nat :: k < |d| ==> d[k] == Mul(DeltaAt(e, k), Inv(Factorial(k)))
  }

  lemma DividedInterpolates(d: seq<F>, e: seq<F>, i: nat)
    requires i < |e| && SmallNumbersInvertible(|e|) && IsDivided(d, e)
    ensures Nested(d, 0, FromNat(i)) == e[i]
  {
    hide Add, Mul, Neg, Inv, Sum, Nested, Falling;
    var x := FromNat(i);
    NewtonInterpolates(e, i);
    forall k: nat | k < |e|
      ensures FallingTerms(d, x)(k) == NewtonTerms(e, x)(k)
    {
      Regroup(DeltaAt(e, k), Inv(Factorial(k)), Falling(x, k));
    }
    Congruent(|e|, FallingTerms(d, x), NewtonTerms(e, x));
    NestedIsSum(d, 0, x);
    FallingStart(x);
    EmptySum(FallingTerms(d, x));
    UnitPlus(Nested(d, 0, x));
  }

  lemma Regroup(a: F, b: F, c: F)
    ensures Mul(Mul(a, b), c) == Mul(a, Mul(c, b))
  { Products(); }

  lemma FallingStart(x: F)
    ensures Falling(x, 0) == One
  {}

  lemma EmptySum(f: nat -> F)
    ensures Sum(0, f) == Zero
  {}

  lemma UnitPlus(x: F)
    ensures Add(Zero, Mul(One, x)) == x
  { Ring(); }

  // ---- The code

  // Coefficient i of d + (X - shift) * c.
  function RaisedCoefficient(c: seq<F>, d: F, shift: F, i: nat): F {
    Sub(if i == 0 then d else At(c, i - 1), Mul(shift, At(c, i)))
  }

  function Raise(c: seq<F>, d: F, shift: F): (r: seq<F>)
    ensures |r| == |c| + 1
  {
    hide RaisedCoefficient;
    seq(|c| + 1, (i: nat) => RaisedCoefficient(c, d, shift, i))
  }

  lemma {:induction false} RaiseValue(c: seq<F>, d: F, shift: F, x: F)
    ensures Value(Raise(c, d, shift), x) == Add(d, Mul(Sub(x, shift), Value(c, x)))
  {
    hide Add, Mul, Neg;
    if |c| == 0 {
      assert Raise(c, d, shift) == [Sub(d, Mul(shift, Zero))];
      assert [Sub(d, Mul(shift, Zero))][1..] == [];
      RaiseBase(d, shift, x);
    } else {
      var r, t := Raise(c, d, shift), Raise(c[1..], c[0], shift);
      forall i: nat | i < |t|
        ensures r[1..][i] == t[i]
      {
        assert At(c, i + 1) == At(c[1..], i);
        assert i > 0 ==> At(c, i) == At(c[1..], i - 1);
      }
      assert r[1..] == t && r[0] == Sub(d, Mul(shift, c[0]));
      RaiseValue(c[1..], c[0], shift, x);
      RaiseStep(d, shift, x, c[0], Value(c[1..], x));
    }
  }

  lemma RaiseBase(d: F, shift: F, x: F)
    ensures Add(Sub(d, Mul(shift, Zero)), Mul(x, Zero)) == Add(d, Mul(Sub(x, shift), Zero))
  {
    MulZero(shift);
    MulZero(x);
    MulZero(Sub(x, shift));
    Ring();
  }

  lemma RaiseStep(d: F, shift: F, x: F, c: F, v: F)
    ensures Add(Sub(d, Mul(shift, c)), Mul(x, Add(c, Mul(Sub(x, shift), v)))) ==
      Add(d, Mul(Sub(x, shift), Add(c, Mul(x, v))))
  {
    RaiseStepRight(d, shift, x, c, Mul(x, v));
    RaiseStepLeft(d, shift, x, c, Mul(Sub(x, shift), v));
    MulExchange(x, Sub(x, shift), v);
  }

  lemma RaiseStepRight(d: F, shift: F, x: F, c: F, u: F)
    ensures Add(d, Mul(Sub(x, shift), Add(c, u))) == Add(Add(d, Sub(Mul(x, c), Mul(shift, c))), Mul(Sub(x, shift), u))
  { Ring(); }

  lemma RaiseStepLeft(d: F, shift: F, x: F, c: F, u: F)
    ensures Add(Sub(d, Mul(shift, c)), Mul(x, Add(c, u))) == Add(Add(d, Sub(Mul(x, c), Mul(shift, c))), Mul(x, u))
  { Ring(); }

  function Trim(c: seq<F>): (t: seq<F>)
    ensures |t| <= |c| && (|c| > 0 ==> |t| > 0)
  {
    if |c| > 1 && c[|c| - 1] == Zero then Trim(c[..|c| - 1]) else c
  }

  lemma {:induction false} TrimKeepsCoefficients(c: seq<F>)
    ensures forall i: nat :: At(Trim(c), i) == At(c, i)
  {
    if |c| > 1 && c[|c| - 1] == Zero { TrimKeepsCoefficients(c[..|c| - 1]); }
  }

  lemma SameCoefficientsSameValue(c: seq<F>, d: seq<F>, x: F)
    requires forall i: nat :: At(c, i) == At(d, i)
    ensures Value(c, x) == Value(d, x)
  {
    hide Add, Mul, Pow, Sum;
    var n := if |c| > |d| then |c| else |d|;
    ValueIsSum(c, n, x);
    ValueIsSum(d, n, x);
    Congruent(n, Monomials(c, x), Monomials(d, x));
  }

  /** Nonempty lists with the same coefficients have the same trimmed form. */
  lemma {:induction false} TrimIsCanonical(c: seq<F>, d: seq<F>)
    requires |c| > 0 && |d| > 0
    requires forall i: nat :: At(c, i) == At(d, i)
    ensures Trim(c) == Trim(d)
    decreases |c| + |d|
  {
    if |c| < |d| {
      assert At(c, |d| - 1) == At(d, |d| - 1) == d[|d| - 1];
      TrimIsCanonical(c, d[..|d| - 1]);
    } else if |d| < |c| {
      assert At(c, |c| - 1) == At(d, |c| - 1) == c[|c| - 1];
      TrimIsCanonical(c[..|c| - 1], d);
    } else {
      forall i: nat | i < |c| ensures c[i] == d[i] { assert At(c, i) == At(d, i); }
      assert c == d;
    }
  }

  // ---- Interpolation from evaluations

  /** The difference table, one round per difference, keeping the first entry of each round. */
  method ForwardDifferences(evals: seq<F>) returns (deltas: seq<F>)
    requires |evals| > 0
    ensures |deltas| == |evals| && forall k: nat :: k < |deltas| ==> deltas[k] == DeltaAt(evals, k)
  {
    hide Add, Neg, DeltaAt;
    var n := |evals|;
    var table := evals;
    DifferencesHead(evals, 0);
    deltas := [table[0]];
    for k := 1 to n
      invariant |deltas| == k && table == Differences(evals, k - 1)
      invariant forall i: nat :: i < k ==> deltas[i] == DeltaAt(evals, i)
    {
      DifferencesHead(evals, k - 1);
      DifferencesHead(evals, k);
      table := DifferenceRound(table);
      deltas := deltas + [table[0]];
    }
  }

  method DifferenceRound(before: seq<F>) returns (table: seq<F>)
    requires |before| > 0
    ensures table == Delta(before)
  {
    hide Add, Neg;
    table := before;
    for j := 0 to |table| - 1
      invariant |table| == |before|
      invariant forall i: nat :: i < j ==> table[i] == Delta(before)[i]
      invariant forall i: nat :: j <= i < |table| ==> table[i] == before[i]
    {
      table := table[j := Sub(table[j + 1], table[j])];
    }
    table := table[..|table| - 1];
  }

  method DividedDifferences(evals: seq<F>) returns (divided: seq<F>)
    requires |evals| > 0 && SmallNumbersInvertible(|evals|)
    ensures IsDivided(divided, evals)
  {
    hide Add, Mul, Neg, Inv, DeltaAt, FromNat;
    var deltas := ForwardDifferences(evals);
    var factorial := One;
    divided := [deltas[0]];
    UnitFactorial(deltas[0]);
    for k := 1 to |deltas|
      invariant |divided| == k && factorial == Factorial(k - 1)
      invariant forall i: nat :: i < k ==> divided[i] == Mul(DeltaAt(evals, i), Inv(Factorial(i)))
    {
      factorial := Mul(factorial, FromNat(k));
      FactorialInvertible(|evals|, k);
      var inverse := Inverse(factorial);
      divided := divided + [Mul(deltas[k], inverse.value)];
    }
  }

  lemma UnitFactorial(x: F)
    ensures Mul(x, Inv(Factorial(0))) == x
  {
    MulInv(One);
    MulComm(One, Inv(One));
    MulOne(Inv(One));
    MulOne(x);
  }

  method RaiseDegree(coeffs: seq<F>, d: F, shift: F) returns (raised: seq<F>)
    ensures raised == Raise(coeffs, d, shift)
  {
    hide Add, Mul, Neg, RaisedCoefficient;
    raised := [d] + seq(|coeffs|, _ => Zero);
    for i := 0 to |coeffs|
      invariant |raised| == |coeffs| + 1
      invariant forall j: nat :: j < i ==> raised[j] == RaisedCoefficient(coeffs, d, shift, j)
      invariant raised[i] == if i == 0 then d else At(coeffs, i - 1)
      invariant forall j: nat :: i < j < |raised| ==> raised[j] == Zero
    {
      RaisedParts(coeffs, d, shift, i);
      raised := raised[i + 1 := Add(raised[i + 1], coeffs[i])];
      raised := raised[i := Sub(raised[i], Mul(shift, coeffs[i]))];
    }
    RaisedLast(coeffs, d, shift);
  }

  lemma RaisedParts(c: seq<F>, d: F, shift: F, i: nat)
    requires i < |c|
    ensures RaisedCoefficient(c, d, shift, i) == Sub(if i == 0 then d else At(c, i - 1), Mul(shift, c[i]))
    ensures Add(Zero, c[i]) == c[i]
  {
    AddComm(Zero, c[i]);
    AddZero(c[i]);
  }

  lemma RaisedLast(c: seq<F>, d: F, shift: F)
    ensures RaisedCoefficient(c, d, shift, |c|) == if |c| == 0 then d else At(c, |c| - 1)
  {
    DropZero(if |c| == 0 then d else At(c, |c| - 1), shift);
  }

  lemma DropZero(x: F, y: F)
    ensures Sub(x, Mul(y, Zero)) == x
  { Ring(); }

  /** The interpolation routine: the result takes every given value, is no longer than the
      input, and carries no trailing zero. */
  method FromEvals(evals: seq<F>) returns (coeffs: seq<F>)
    requires SmallNumbersInvertible(|evals|)
    ensures |coeffs| <= |evals| && (|evals| > 0 ==> |coeffs| > 0) && coeffs == Trim(coeffs)
    ensures forall i: nat :: i < |evals| ==> Value(coeffs, FromNat(i)) == evals[i]
  {
    hide Add, Mul, Neg, FromNat, Value;
    var n := |evals|;
    if n == 0 {
      return [];
    }
    if n == 1 {
      ConstantValue(evals[0], FromNat(0));
      assert evals == [evals[0]];
      return [evals[0]];
    }
    var divided := DividedDifferences(evals);
    coeffs := [divided[n - 1]];
    forall x: F
      ensures Value(coeffs, x) == Nested(divided, n - 1, x)
    {
      ConstantValue(divided[n - 1], x);
    }
    var k := n - 1;
    while k > 0
      invariant 0 <= k <= n - 1 && |coeffs| == n - k
      invariant forall x: F :: Value(coeffs, x) == Nested(divided, k, x)
    {
      k := k - 1;
      ghost var before := coeffs;
      coeffs := RaiseDegree(coeffs, divided[k], FromNat(k));
      forall x: F
        ensures Value(coeffs, x) == Nested(divided, k, x)
      {
        RaiseValue(before, divided[k], FromNat(k), x);
      }
    }
    ghost var full := coeffs;
    while |coeffs| > 1 && coeffs[|coeffs| - 1] == Zero
      invariant 0 < |coeffs| <= n && Trim(coeffs) == Trim(full)
      decreases |coeffs|
    {
      coeffs := coeffs[..|coeffs| - 1];
    }
    TrimKeepsCoefficients(full);
    forall i: nat | i < n
      ensures Value(coeffs, FromNat(i)) == evals[i]
    {
      SameCoefficientsSameValue(coeffs, full, FromNat(i));
      DividedInterpolates(divided, evals, i);
    }
  }

  lemma ConstantValue(c: F, x: F)
    ensures Value([c], x) == c
  {
    assert [c][1..] == [];
    MulZero(x);
    AddZero(c);
  }

  ghost function SmallPoints(n: nat): (p: seq<F>)
    ensures |p| == n
  {
    seq(n, (i: nat) => FromNat(i))
  }

  lemma SmallPointsDistinct(n: nat)
    requires SmallNumbersInvertible(n)
    ensures Distinct(SmallPoints(n))
  {
    hide FromNat, Add;
    forall i: nat, j: nat | i < j < n
      ensures FromNat(i) != FromNat(j)
    {
      FromNatAdd(i, j - i);
      if FromNat(i) == FromNat(j) {
        AddZero(FromNat(i));
        AddComm(FromNat(i), Zero);
        AddComm(FromNat(i), FromNat(j - i));
        AddCancel(FromNat(j - i), Zero, FromNat(i));
      }
    }
  }

  /** Interpolating the values of a polynomial shorter than the number of points returns that
      polynomial, trimmed. */
  lemma InterpolantIsPolynomial(p: seq<F>, coeffs: seq<F>, n: nat)
    requires 0 < |p| <= n && 0 < |coeffs| <= n && coeffs == Trim(coeffs) && SmallNumbersInvertible(n)
    requires forall i: nat :: i < n ==> Value(coeffs, FromNat(i)) == Value(p, FromNat(i))
    ensures coeffs == Trim(p)
  {
    hide FromNat, Value, Trim;
    SmallPointsDistinct(n);
    forall i: nat | i < n
      ensures Value(coeffs, SmallPoints(n)[i]) == Value(p, SmallPoints(n)[i])
    {}
    UniqueInterpolant(coeffs, p, SmallPoints(n));
    TrimIsCanonical(coeffs, p);
  }

  method InterpolateValues(p: seq<F>, n: nat) returns (coeffs: seq<F>)
    requires 0 < |p| <= n && SmallNumbersInvertible(n)
    ensures coeffs == Trim(p)
  {
    hide FromNat, Value, Trim;
    coeffs := FromEvals(seq(n, (i: nat) => Value(p, FromNat(i))));
    InterpolantIsPolynomial(p, coeffs, n);
  }
}
