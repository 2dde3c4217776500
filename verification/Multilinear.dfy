/** Multilinear evaluation, folding and the balanced-digit range check. */
module Multilinear {
  import opened Field
  import opened Arith
  import opened Sums
  import opened EqPolynomial
  import opened EqTables

  /** Evaluation by recursion on the last variable. */
  function EvalRef(evals: seq<F>, point: seq<F>): F
    requires |evals| == Pow2(|point|)
    decreases |point|
  {
    if |point| == 0 then evals[0]
    else
      var rest, r := point[..|point| - 1], point[|point| - 1];
      var half := |evals| / 2;
      var lo := EvalRef(evals[..half], rest);
      var hi := EvalRef(evals[half..], rest);
      Add(lo, Mul(r, Sub(hi, lo)))
  }

  function Blend(left: F, right: F, r: F): F {
    Add(left, Mul(r, Sub(right, left)))
  }

  /** Binding the first variable; a missing last odd entry counts as zero. */
  function Fold(evals: seq<F>, r: F): (folded: seq<F>)
    ensures |folded| == (|evals| + 1) / 2
  {
    seq((|evals| + 1) / 2, (i: nat) => Blend(At(evals, 2 * i), At(evals, 2 * i + 1), r))
  }

  function FoldAll(evals: seq<F>, point: seq<F>): (folded: seq<F>)
    ensures |evals| > 0 ==> |folded| > 0
    decreases |point|
  {
    if |point| == 0 then evals else FoldAll(Fold(evals, point[0]), point[1..])
  }

  // The multilinear extension: the inner product of a table with the equality table.
  ghost function Terms(evals: seq<F>, point: seq<F>): nat -> F {
    (i: nat) => Mul(At(evals, i), Eq(point, i))
  }

  ghost function Extension(evals: seq<F>, point: seq<F>): F {
    Sum(Pow2(|point|), Terms(evals, point))
  }

  lemma BlendForm(left: F, right: F, r: F)
    ensures Blend(left, right, r) == Add(Mul(Sub(One, r), left), Mul(r, right))
  { Ring(); }

  /** Recursion from the last variable computes the extension. */
  lemma {:induction false} RefIsExtension(evals: seq<F>, point: seq<F>)
    requires |evals| == Pow2(|point|)
    ensures EvalRef(evals, point) == Extension(evals, point)
    decreases |point|
  {
    hide Add, Mul, Neg, Eq;
    if |point| == 0 {
      Empty(0);
      MulOne(evals[0]);
      assert point == [];
      assert Sum(1, Terms(evals, point)) == Add(Zero, Terms(evals, point)(0));
      AddComm(Zero, evals[0]);
      AddZero(evals[0]);
    } else {
      var rest := point[..|point| - 1];
      var half := Pow2(|point| - 1);
      RefIsExtension(evals[..half], rest);
      RefIsExtension(evals[half..], rest);
      ExtensionOfHalves(evals, point);
      BlendForm(Extension(evals[..half], rest), Extension(evals[half..], rest), point[|point| - 1]);
    }
  }

  lemma ExtensionOfHalves(evals: seq<F>, point: seq<F>)
    requires |point| > 0 && |evals| == Pow2(|point|)
    ensures var rest, half, r := point[..|point| - 1], Pow2(|point| - 1), point[|point| - 1];
      Extension(evals, point) == Add(Mul(Sub(One, r), Extension(evals[..half], rest)), Mul(r, Extension(evals[half..], rest)))
  {
    hide Add, Mul, Neg, Eq, Sum, Shl, Pow2;
    var k, r := |point| - 1, point[|point| - 1];
    Pow2Step(k);
    var rest, half := point[..k], Pow2(k);
    var lo, hi := Terms(evals[..half], rest), Terms(evals[half..], rest);
    var whole := Terms(evals, point);
    var low := (i: nat) => Mul(Sub(One, r), lo(i));
    var high := (i: nat) => Mul(r, hi(i));
    forall i: nat | i < half
      ensures whole(i) == low(i) && whole(half + i) == high(i)
    {
      ShlPlusOne(0, k);
      LastBit(point, i, 0);
      LastBit(point, i, 1);
      MulExchange(evals[i], Sub(One, r), Eq(rest, i));
      MulExchange(evals[half + i], r, Eq(rest, i));
    }
    Split(half, half, whole, high);
    Congruent(half, whole, low);
    Scale(half, Sub(One, r), lo, low);
    Scale(half, r, hi, high);
  }

  /** Folding the first variable leaves the extension at the remaining point, also for a live
      prefix of any length. */
  lemma FoldKeepsExtension(evals: seq<F>, point: seq<F>)
    requires |point| > 0
    ensures Extension(Fold(evals, point[0]), point[1..]) == Extension(evals, point)
  {
    hide Add, Mul, Neg, Eq, Sum, Blend;
    var r, rest := point[0], point[1..];
    var folded, whole := Terms(Fold(evals, r), rest), Terms(evals, point);
    assert point == [r] + rest;
    forall i: nat
      ensures folded(i) == Add(whole(2 * i), whole(2 * i + 1))
    {
      FoldEntry(evals, r, i);
      Cons(r, rest, 2 * i);
      Cons(r, rest, 2 * i + 1);
      FoldedTerm(At(evals, 2 * i), At(evals, 2 * i + 1), r, Eq(rest, i));
    }
    Pairs(Pow2(|rest|), whole, folded);
  }

  // Folding commutes with zero-padding: entry i of the fold is the blend of entries 2i and
  // 2i + 1 of the padded table, at every i.
  lemma FoldEntry(evals: seq<F>, r: F, i: nat)
    ensures At(Fold(evals, r), i) == Blend(At(evals, 2 * i), At(evals, 2 * i + 1), r)
  {
    if 2 * i >= |evals| { BlendOfZeros(r); }
  }

  lemma BlendOfZeros(r: F)
    ensures Blend(Zero, Zero, r) == Zero
  { Ring(); }

  lemma FoldedTerm(a: F, b: F, r: F, e: F)
    ensures Mul(Blend(a, b, r), e) == Add(Mul(a, Mul(Factor(r, 0), e)), Mul(b, Mul(Factor(r, 1), e)))
  {
    BlendForm(a, b, r);
    Ring();
  }

  /** Folding by every coordinate in turn leaves one entry, the extension at the point, for
      every nonempty live prefix of the table. */
  lemma {:induction false} FoldAllIsExtension(evals: seq<F>, point: seq<F>)
    requires 0 < |evals| <= Pow2(|point|)
    ensures FoldAll(evals, point) == [Extension(evals, point)]
    decreases |point|
  {
    hide Add, Mul, Neg, Eq, Fold, Extension;
    if |point| == 0 {
      ExtensionOfScalar(evals, point);
    } else {
      FoldAllIsExtension(Fold(evals, point[0]), point[1..]);
      FoldKeepsExtension(evals, point);
    }
  }

  lemma ExtensionOfScalar(evals: seq<F>, point: seq<F>)
    requires |point| == 0 && |evals| == 1
    ensures Extension(evals, point) == evals[0]
  {
    hide Add, Mul, Neg, Eq;
    Empty(0);
    MulOne(evals[0]);
    assert point == [];
    assert Sum(1, Terms(evals, point)) == Add(Zero, Terms(evals, point)(0));
    AddComm(Zero, evals[0]);
    AddZero(evals[0]);
  }

  // Zero padding to length m.
  ghost function Pad(evals: seq<F>, m: nat): seq<F>
    requires |evals| <= m
  {
    evals + seq(m - |evals|, _ => Zero)
  }

  lemma FoldOfPadding(evals: seq<F>, m: nat, r: F)
    requires |evals| <= 2 * m
    ensures Fold(Pad(evals, 2 * m), r) == Pad(Fold(evals, r), m)
  {
    hide Blend;
    forall i: nat | i < m
      ensures Fold(Pad(evals, 2 * m), r)[i] == Pad(Fold(evals, r), m)[i]
    {
      FoldEntry(evals, r, i);
    }
  }

  /** The fold in place on the live prefix; the vector is then truncated to `nextLen`. */
  method FoldInPlace(evals: array<F>, len: nat, r: F) returns (nextLen: nat)
    requires 0 < len <= evals.Length
    modifies evals
    ensures nextLen == (len + 1) / 2
    ensures evals[..nextLen] == Fold(old(evals[..len]), r)
  {
    hide Blend;
    ghost var before := evals[..len];
    nextLen := (len + 1) / 2;
    var target := 0;
    while target < nextLen
      invariant 0 <= target <= nextLen
      invariant forall i: nat :: i < target ==> evals[i] == Fold(before, r)[i]
      invariant forall i: nat :: target <= i < len ==> evals[i] == before[i]
    {
      var source := 2 * target;
      var left := evals[source];
      var right := if source + 1 < len then evals[source + 1] else Zero;
      evals[target] := Blend(left, right, r);
      target := target + 1;
    }
  }

  lemma ExtensionIsSum(evals: seq<F>, point: seq<F>)
    requires |evals| == Pow2(|point|)
    ensures Extension(evals, point) == Sum(|evals|, Terms(evals, point))
  {}

  method DotWithTable(evals: seq<F>, point: seq<F>, eqTable: seq<F>) returns (acc: F)
    requires |evals| == Pow2(|point|) && IsTable(eqTable, point, One, (x: F) => x)
    ensures acc == Extension(evals, point)
  {
    hide Add, Mul, Neg, Eq, Sum, Extension, Pow2;
    acc := Zero;
    SumStep(0, Terms(evals, point));
    for i := 0 to |evals|
      invariant acc == Sum(i, Terms(evals, point))
    {
      SumStep(i, Terms(evals, point));
      MulComm(One, Eq(point, i));
      MulOne(Eq(point, i));
      acc := Add(acc, Mul(evals[i], eqTable[i]));
    }
    ExtensionIsSum(evals, point);
  }

  /** The public evaluator: large tables use the equality table, the rest the recursion. */
  method MultilinearEval(evals: seq<F>, point: seq<F>, maxSequenceLen: nat) returns (value: Option<F>)
    ensures value.Some? <==> |point| < 64 && |evals| == Pow2(|point|)
    ensures value.Some? ==> value.value == Extension(evals, point)
  {
    hide Pow2;
    if |point| >= 64 || |evals| != Pow2(|point|) {
      return None;
    }
    if |point| > 14 && |evals| <= maxSequenceLen {
      var eqTable := EvalsParallel(point, One);
      var acc := DotWithTable(evals, point, eqTable[..]);
      return Some(acc);
    }
    RefIsExtension(evals, point);
    return Some(EvalRef(evals, point));
  }
}
