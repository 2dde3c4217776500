/**
 The bit-aligned specialization: with no low factor and a power-of-two outer stride the
 address separates at the stride, and a base residue gives at most two carry classes.
 */
module AffineAligned {
  import opened Field
  import opened Arith
  import opened Sums
  import opened EqPolynomial
  import opened EqTables
  import opened OffsetWindow
  import opened Weights
  import opened AffineSpec
  import opened AffineHighRows

  ghost predicate Aligned(p: Problem) {
    && |p.low| == 0 && IsPow2(p.outerStride) && Log2(p.outerStride) <= |p.challenges|
    && |p.digits| > 0 && p.DigitSpan() < p.outerStride
    && (|p.scales| == 0 || |p.scales| == |p.bases|)
  }

  function StrideBits(p: Problem): nat { Log2(p.outerStride) }

  // The low address of digit d of base b.
  function DigitAddress(p: Problem, b: nat, d: nat): nat
    requires b < |p.bases|
  {
    Low(p.bases[b], StrideBits(p)) + d * p.digitStride
  }

  /** The digit span is shorter than the stride, so a digit carries at most once. */
  lemma CarryAtMostOne(p: Problem, b: nat, d: nat)
    requires Aligned(p) && b < |p.bases| && d < |p.digits|
    ensures Shr(DigitAddress(p, b, d), StrideBits(p)) <= 1
    ensures DigitAddress(p, b, d) / p.outerStride == Shr(DigitAddress(p, b, d), StrideBits(p))
  {
    hide Low, Shr, Shl;
    var bits, shifted := StrideBits(p), DigitAddress(p, b, d);
    ShrLow(p.bases[b], bits);
    ShrLow(shifted, bits);
    ShlIsMul(Shr(shifted, bits), bits);
    DivModUnique(shifted, p.outerStride, Shr(shifted, bits), Low(shifted, bits));
    MulMonotone(d, |p.digits| - 1, p.digitStride);
    if Shr(shifted, bits) >= 2 { MulMonotone(2, Shr(shifted, bits), p.outerStride); }
  }

  // Digit d's part of carry class c, on the low point.
  ghost function ClassTerms(p: Problem, b: nat, c: nat): nat -> F
    requires Aligned(p) && b < |p.bases|
  {
    var bits := StrideBits(p);
    (d: nat) =>
      if Shr(DigitAddress(p, b, d), bits) == c
      then Mul(Sums.At(p.digits, d), Eq(p.challenges[..bits], Low(DigitAddress(p, b, d), bits))) else Zero
  }

  // Outer index i's part of carry class c, on the high point.
  ghost function ClassOuter(p: Problem, b: nat, c: nat): nat -> A
    requires Aligned(p) && b < |p.bases|
  {
    var bits := StrideBits(p);
    (i: nat) => AScale(p.high.At(p.outerStart + i), Eq(p.challenges[bits..], Shr(p.bases[b], bits) + c + i))
  }

  ghost function ClassDigits(p: Problem, b: nat, c: nat, i: nat): nat -> A
    requires Aligned(p) && b < |p.bases|
  {
    (d: nat) => AScale(ClassOuter(p, b, c)(i), Mul(ClassTerms(p, b, c)(d), p.BaseScale(b)))
  }

  lemma AlignedAddress(p: Problem, b: nat, i: nat, d: nat)
    requires Aligned(p) && b < |p.bases|
    ensures var bits := StrideBits(p);
      && Low(p.Address(b, i, d), bits) == Low(DigitAddress(p, b, d), bits)
      && Shr(p.Address(b, i, d), bits) == Shr(p.bases[b], bits) + Shr(DigitAddress(p, b, d), bits) + i
  {
    hide Low, Shr, Shl;
    var bits, base, shifted := StrideBits(p), p.bases[b], DigitAddress(p, b, d);
    ShrLow(base, bits);
    ShrLow(shifted, bits);
    ShlIsMul(i, bits);
    assert Shl(i, bits) == p.outerStride * i && d * p.digitStride == p.digitStride * d;
    ShlAdd(Shr(base, bits), Shr(shifted, bits), bits);
    ShlAdd(Shr(base, bits) + Shr(shifted, bits), i, bits);
    ShrLowUnique(p.Address(b, i, d), bits, Shr(base, bits) + Shr(shifted, bits) + i, Low(shifted, bits));
  }

  /** Every reference term falls in one of the two carry classes. */
  lemma TermInClasses(p: Problem, b: nat, i: nat, d: nat)
    requires Aligned(p) && b < |p.bases| && d < |p.digits|
    ensures p.Term(b, i, d) == AAdd(ClassDigits(p, b, 0, i)(d), ClassDigits(p, b, 1, i)(d))
  {
    hide AAdd, AScale, AMul, Mul, Eq, Low, Shr;
    var bits := StrideBits(p);
    var carry := Shr(DigitAddress(p, b, d), bits);
    var h, scale, digit := p.high.At(p.outerStart + i), p.BaseScale(b), p.digits[d];
    var eqLow, eqHigh := Eq(p.challenges[..bits], Low(DigitAddress(p, b, d), bits)), Eq(p.challenges[bits..], Shr(p.bases[b], bits) + carry + i);
    CarryAtMostOne(p, b, d);
    AlignedAddress(p, b, i, d);
    Cut(p.challenges, bits, p.Address(b, i, d));
    assert p.Weight(p.outerStart + i) == h;
    ClassValue(h, scale, digit, eqLow, eqHigh);
    VanishingTerm(ClassOuter(p, b, 1 - carry)(i), scale);
    AAddZero(AScale(AScale(h, eqHigh), Mul(Mul(digit, eqLow), scale)));
    assert ClassTerms(p, b, carry)(d) == Mul(digit, eqLow) && ClassTerms(p, b, 1 - carry)(d) == Zero;
    assert ClassOuter(p, b, carry)(i) == AScale(h, eqHigh);
    assert ClassDigits(p, b, carry, i)(d) == p.Term(b, i, d);
    assert ClassDigits(p, b, 1 - carry, i)(d) == AZero;
    if carry == 1 { assert 1 - carry == 0; }
  }

  lemma ClassValue(h: A, scale: F, digit: F, eqLow: F, eqHigh: F)
    ensures AScale(h, Mul(Mul(scale, digit), Mul(eqLow, eqHigh))) == AScale(AScale(h, eqHigh), Mul(Mul(digit, eqLow), scale))
  {
    AScaleSplits(h, eqHigh, Mul(Mul(digit, eqLow), scale));
    ClassScalar(scale, digit, eqLow, eqHigh);
  }

  lemma ClassScalar(scale: F, digit: F, eqLow: F, eqHigh: F)
    ensures Mul(Mul(scale, digit), Mul(eqLow, eqHigh)) == Mul(eqHigh, Mul(Mul(digit, eqLow), scale))
  { Products(); }

  // The digit evaluation of class c, scaled.
  ghost function ClassScale(p: Problem, b: nat, c: nat): F
    requires Aligned(p) && b < |p.bases|
  {
    Mul(Sum(|p.digits|, ClassTerms(p, b, c)), p.BaseScale(b))
  }

  lemma ClassDigitSum(p: Problem, b: nat, c: nat, i: nat)
    requires Aligned(p) && b < |p.bases|
    ensures ASum(|p.digits|, ClassDigits(p, b, c, i)) == AScale(ClassOuter(p, b, c)(i), ClassScale(p, b, c))
  {
    hide AAdd, AScale, ASum, Sum, Mul, Eq, Low, Shr;
    var e, scale := ClassTerms(p, b, c), p.BaseScale(b);
    var scaled := (d: nat) => Mul(e(d), scale);
    forall d: nat | d < |p.digits| ensures scaled(d) == Mul(scale, e(d)) { MulComm(e(d), scale); }
    Sums.Scale(|p.digits|, scale, e, scaled);
    MulComm(scale, Sum(|p.digits|, e));
    AScaleOfSum(|p.digits|, ClassOuter(p, b, c)(i), scaled, ClassDigits(p, b, c, i));
  }

  // What base b adds, class by class.
  ghost function ClassSum(p: Problem, b: nat, c: nat, live: nat): A
    requires Aligned(p) && b < |p.bases|
  {
    AScale(ASum(live, ClassOuter(p, b, c)), ClassScale(p, b, c))
  }

  lemma BaseIsClasses(p: Problem, b: nat, live: nat)
    requires Aligned(p) && b < |p.bases|
    ensures p.BaseTerms(0, live)(b) == AAdd(ClassSum(p, b, 0, live), ClassSum(p, b, 1, live))
  {
    hide AAdd, AScale, ASum, ClassOuter, ClassScale, ClassDigits;
    var f := p.OuterTerms(b, 0);
    var g0 := (i: nat) => AScale(ClassOuter(p, b, 0)(i), ClassScale(p, b, 0));
    var g1 := (i: nat) => AScale(ClassOuter(p, b, 1)(i), ClassScale(p, b, 1));
    forall i: nat | i < live
      ensures f(i) == AAdd(g0(i), g1(i))
    {
      forall d: nat | d < |p.digits|
        ensures p.DigitTerms(b, i)(d) == AAdd(ClassDigits(p, b, 0, i)(d), ClassDigits(p, b, 1, i)(d))
      {
        TermInClasses(p, b, i, d);
      }
      APlus(|p.digits|, ClassDigits(p, b, 0, i), ClassDigits(p, b, 1, i), p.DigitTerms(b, i));
      ClassDigitSum(p, b, 0, i);
      ClassDigitSum(p, b, 1, i);
      assert f(i) == ASum(|p.digits|, p.DigitTerms(b, 0 + i));
    }
    APlus(live, g0, g1, f);
    AScaled(live, ClassScale(p, b, 0), ClassOuter(p, b, 0), g0);
    AScaled(live, ClassScale(p, b, 1), ClassOuter(p, b, 1), g1);
  }

  // ---- The code

  method DigitEvaluations(p: Problem, b: nat) returns (e0: F, e1: F)
    requires Aligned(p) && b < |p.bases|
    ensures e0 == Sum(|p.digits|, ClassTerms(p, b, 0)) && e1 == Sum(|p.digits|, ClassTerms(p, b, 1))
  {
    hide Add, Mul, Eq, Low, Shr, Sum;
    var bits := StrideBits(p);
    e0, e1 := Zero, Zero;
    SumStep(0, ClassTerms(p, b, 0));
    SumStep(0, ClassTerms(p, b, 1));
    for d := 0 to |p.digits|
      invariant e0 == Sum(d, ClassTerms(p, b, 0)) && e1 == Sum(d, ClassTerms(p, b, 1))
    {
      SumStep(d, ClassTerms(p, b, 0));
      SumStep(d, ClassTerms(p, b, 1));
      AddZero(e0);
      AddZero(e1);
      CarryAtMostOne(p, b, d);
      var shifted := DigitAddress(p, b, d);
      var carry := shifted / p.outerStride;
      var eqLow := EqEvalAtIndex(p.challenges[..bits], Low(shifted, bits));
      if carry == 0 {
        e0 := Add(e0, Mul(p.digits[d], eqLow));
      } else {
        e1 := Add(e1, Mul(p.digits[d], eqLow));
      }
    }
  }

  method OuterEvaluation(p: Problem, b: nat, c: nat, live: nat, window: Window) returns (outer: A)
    requires Aligned(p) && b < |p.bases| && p.outerStart + live <= p.high.Len()
    requires WindowOf(window, p.challenges[StrideBits(p)..])
    ensures outer == ASum(live, ClassOuter(p, b, c))
  {
    hide AAdd, AScale, ASum, Eq, Shr, EqTable;
    var bits := StrideBits(p);
    outer := AZero;
    ASumStep(0, ClassOuter(p, b, c));
    for i := 0 to live
      invariant outer == ASum(i, ClassOuter(p, b, c))
    {
      ASumStep(i, ClassOuter(p, b, c));
      SourceTotal(p.high, p.outerStart + i);
      var eqHigh := EvalWindow(window, p.challenges[bits..], Shr(p.bases[b], bits) + c + i);
      assert ClassOuter(p, b, c)(i) == AScale(p.high.At(p.outerStart + i), eqHigh);
      if eqHigh != Zero {
        outer := AAdd(outer, AScale(p.high.Get(p.outerStart + i).value, eqHigh));
      } else {
        AScaleTrivial(p.high.At(p.outerStart + i), eqHigh);
        AAddZero(outer);
      }
    }
  }

  method AddClass(p: Problem, b: nat, c: nat, live: nat, window: Window, evaluation: F, out0: A) returns (out: A)
    requires Aligned(p) && b < |p.bases| && p.outerStart + live <= p.high.Len()
    requires WindowOf(window, p.challenges[StrideBits(p)..])
    requires evaluation == Sum(|p.digits|, ClassTerms(p, b, c))
    ensures out == AAdd(out0, ClassSum(p, b, c, live))
  {
    hide AAdd, AScale, ASum, Mul, Sum, ClassOuter, WindowOf;
    var scaled := Mul(evaluation, p.BaseScale(b));
    if scaled == Zero {
      AScaleTrivial(ASum(live, ClassOuter(p, b, c)), Zero);
      AAddZero(out0);
      return out0;
    }
    var outer := OuterEvaluation(p, b, c, live, window);
    out := AAdd(out0, AScale(outer, scaled));
  }

  // The charged work of the aligned kernel.
  function AlignedWork(p: Problem, live: nat): nat {
    |p.bases| * (live * 2 + |p.digits|)
  }

  /** The aligned kernel: refuses too much work, and otherwise returns the window sum. */
  method EvalAligned(p: Problem, live: nat) returns (out: Option<A>)
    requires Aligned(p) && p.outerStart + live <= p.high.Len()
    ensures out.Some? <==> AlignedWork(p, live) <= MAX_COMPACT_STRIDE_TERMS
    ensures out.Some? ==> out.value == p.WindowSum(0, live)
  {
    hide AAdd, ASum, ClassSum, ClassTerms, EqTable, WindowOf, Sum, AlignedWork;
    if AlignedWork(p, live) > MAX_COMPACT_STRIDE_TERMS {
      return None;
    }
    var window := NewWindow(p.challenges[StrideBits(p)..], LOW_BITS_CAP);
    var acc := AZero;
    ASumStep(0, p.BaseTerms(0, live));
    for b := 0 to |p.bases|
      invariant acc == ASum(b, p.BaseTerms(0, live))
    {
      ASumStep(b, p.BaseTerms(0, live));
      BaseIsClasses(p, b, live);
      ghost var before := acc;
      var e0, e1 := DigitEvaluations(p, b);
      acc := AddClass(p, b, 0, live, window, e0, acc);
      acc := AddClass(p, b, 1, live, window, e1, acc);
      AAddAssoc(before, ClassSum(p, b, 0, live), ClassSum(p, b, 1, live));
    }
    return Some(acc);
  }
}
