/** The range-check product over the balanced digits -b/2 .. b/2 - 1. */
module RangeCheck {
  import opened Field
  import opened Sums
  import opened UniPoly
  import opened Interpolation

  // The monic polynomial with the n roots low, low + 1, ..., low + n - 1.
  ghost function DigitPolynomial(low: int, n: nat): (c: seq<F>)
    ensures |c| == n + 1
  {
    if n == 0 then [One] else Raise(DigitPolynomial(low, n - 1), Zero, FromInt(low + n - 1))
  }

  /** It is monic of degree n, and its roots are exactly the images of its n digits. */
  lemma {:induction false} DigitPolynomialRoots(low: int, n: nat, x: F)
    ensures DigitPolynomial(low, n)[n] == One
    ensures Value(DigitPolynomial(low, n), x) == Zero <==> exists k: int :: low <= k < low + n && x == FromInt(k)
  {
    hide Add, Mul, Neg, Value, FromInt, Raise;
    if n == 0 {
      ConstantValue(One, x);
      OneIsNotZero();
    } else {
      var c, d := DigitPolynomial(low, n - 1), FromInt(low + n - 1);
      DigitPolynomialRoots(low, n - 1, x);
      RaisedTop(c, d);
      NextDigit(c, d, x);
      VanishingFactor(Value(c, x), x, d);
    }
  }

  lemma OneIsNotZero()
    ensures One != Zero
  {}

  lemma RaisedTop(c: seq<F>, d: F)
    requires |c| > 0
    ensures Raise(c, Zero, d)[|c|] == c[|c| - 1]
  {
    hide Add, Mul, Neg;
    assert Raise(c, Zero, d)[|c|] == RaisedCoefficient(c, Zero, d, |c|);
    DropZero(c[|c| - 1], d);
  }

  lemma NextDigit(c: seq<F>, d: F, x: F)
    ensures Value(Raise(c, Zero, d), x) == Mul(Value(c, x), Sub(x, d))
  {
    hide Add, Mul, Neg, Value, Raise;
    RaiseValue(c, Zero, d, x);
    AddComm(Zero, Mul(Sub(x, d), Value(c, x)));
    AddZero(Mul(Sub(x, d), Value(c, x)));
    MulComm(Sub(x, d), Value(c, x));
  }

  lemma VanishingFactor(acc: F, w: F, d: F)
    ensures Mul(acc, Sub(w, d)) == Zero <==> acc == Zero || w == d
  {
    if w == d { AddNeg(d); MulZero(acc); }
    if acc == Zero { MulZero(Sub(w, d)); MulComm(Zero, Sub(w, d)); }
    if Mul(acc, Sub(w, d)) == Zero {
      NoZeroDivisors(acc, Sub(w, d));
      if acc != Zero { SubZeroIsEqual(w, d); }
    }
  }

  // The points low, low + 1, ..., low + n - 1.
  ghost function Digits(low: int, n: nat): (points: seq<F>)
    ensures |points| == n
  {
    seq(n, (i: nat) => DigitAt(low, i))
  }

  ghost function DigitAt(low: int, i: nat): F {
    FromInt(low + i)
  }

  /** No other monic polynomial of degree n vanishes on n distinct digits. */
  lemma DigitPolynomialUnique(low: int, n: nat, c: seq<F>)
    requires |c| == n + 1 && c[n] == One && Distinct(Digits(low, n))
    requires forall i: nat :: i < n ==> Value(c, Digits(low, n)[i]) == Zero
    ensures c == DigitPolynomial(low, n)
  {
    hide Add, Mul, Neg, Value, FromInt, DigitPolynomial, Difference, DigitAt;
    var d := DigitPolynomial(low, n);
    DigitPolynomialRoots(low, n, Zero);
    var e := Difference(c, d, n + 1);
    DropTop(c, d, n);
    forall i: nat | i < n ensures Value(e[..n], Digits(low, n)[i]) == Zero {
      var x := Digits(low, n)[i];
      DigitIsRoot(low, n, i);
      DifferenceValue(c, d, n + 1, x);
      AddNeg(Zero);
      TopIsNothing(e, n, x);
    }
    TooManyRoots(e[..n], Digits(low, n));
    forall i: nat | i <= n ensures c[i] == d[i] {
      if i < n {
        assert e[..n][i] == e[i];
        DifferenceAt(c, d, n + 1, i);
        SubZeroIsEqual(c[i], d[i]);
      }
    }
  }

  lemma DigitIsRoot(low: int, n: nat, i: nat)
    requires i < n
    ensures Value(DigitPolynomial(low, n), Digits(low, n)[i]) == Zero
  {
    hide Value, FromInt, DigitPolynomial;
    var k := low + i;
    assert Digits(low, n)[i] == FromInt(k);
    DigitPolynomialRoots(low, n, FromInt(k));
  }

  lemma DifferenceAt(c: seq<F>, d: seq<F>, n: nat, i: nat)
    requires |c| == |d| == n && i < n
    ensures Difference(c, d, n)[i] == Sub(c[i], d[i])
  {}

  lemma DropTop(c: seq<F>, d: seq<F>, n: nat)
    requires |c| == |d| == n + 1 && c[n] == d[n]
    ensures |Difference(c, d, n + 1)| == n + 1 && Difference(c, d, n + 1)[n] == Zero
  {
    AddNeg(c[n]);
  }

  lemma TopIsNothing(e: seq<F>, n: nat, x: F)
    requires |e| == n + 1 && e[n] == Zero
    ensures Value(e[..n], x) == Value(e, x)
  {
    forall i: nat ensures At(e[..n], i) == At(e, i) {}
    SameCoefficientsSameValue(e[..n], e, x);
  }

  /** The product is the value at w of that polynomial for the balanced digits, so it vanishes
      exactly on them. */
  method RangeCheckEval(w: F, b: nat) returns (acc: F)
    ensures acc == Value(DigitPolynomial(-(b / 2), 2 * (b / 2)), w)
    ensures acc == Zero <==> exists k: int :: -(b / 2) <= k < b / 2 && w == FromInt(k)
  {
    hide Add, Mul, Neg, Value, FromInt, Raise;
    var half: int := b / 2;
    acc := One;
    var k := -half;
    ConstantValue(One, w);
    while k < half
      invariant -half <= k <= half
      invariant acc == Value(DigitPolynomial(-half, k + half), w)
    {
      NextDigit(DigitPolynomial(-half, k + half), FromInt(k), w);
      acc := Mul(acc, Sub(w, FromInt(k)));
      k := k + 1;
    }
    DigitPolynomialRoots(-half, 2 * half, w);
  }
}
