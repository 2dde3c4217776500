/**
 The weight algebra of the affine contraction. The source is generic over a coefficient
 algebra that is linear over the field; here that parameter is the constant `W`, any algebra
 with the bilinear laws below, with or without a unit. The field itself is one
 (`FieldAsAlgebra`).
 */
module Weights {
  import opened Field
  import Sums

  datatype Algebra = Algebra(
    has: int -> bool,
    zero: int,
    add: (int, int) -> int,
    scale: (int, F) -> int,
    mul: (int, int) -> int,
    unit: Option<int>)

  ghost predicate On2(a: int, b: int) { true }
  ghost predicate On3(a: int, b: int, c: int) { true }
  ghost predicate OnScale(a: int, s: F) { true }
  ghost predicate OnScales(a: int, s: F, t: F) { true }
  ghost predicate OnMixed(a: int, b: int, s: F) { true }

  ghost predicate ClosedAlgebra(w: Algebra) {
    && w.has(w.zero)
    && (w.unit.Some? ==> w.has(w.unit.value))
    && (forall a, b {:trigger On2(a, b)} :: On2(a, b) && w.has(a) && w.has(b) ==> w.has(w.add(a, b)) && w.has(w.mul(a, b)))
    && (forall a, s: F {:trigger OnScale(a, s)} :: OnScale(a, s) && w.has(a) ==> w.has(w.scale(a, s)))
  }

  ghost predicate PairLaws(w: Algebra) {
    forall a, b {:trigger On2(a, b)} :: On2(a, b) && w.has(a) && w.has(b) ==>
      && w.add(a, b) == w.add(b, a) && w.add(a, w.zero) == a
      && w.mul(a, w.zero) == w.zero && w.mul(w.zero, a) == w.zero
      && (w.unit.Some? ==> w.mul(a, w.unit.value) == a)
  }

  ghost predicate TripleLaws(w: Algebra) {
    forall a, b, c {:trigger On3(a, b, c)} :: On3(a, b, c) && w.has(a) && w.has(b) && w.has(c) ==>
      && w.add(w.add(a, b), c) == w.add(a, w.add(b, c))
      && w.mul(w.add(a, b), c) == w.add(w.mul(a, c), w.mul(b, c))
      && w.mul(a, w.add(b, c)) == w.add(w.mul(a, b), w.mul(a, c))
  }

  ghost predicate ScaleLaws(w: Algebra) {
    && (forall a, s: F {:trigger OnScale(a, s)} :: OnScale(a, s) && w.has(a) ==>
          w.scale(a, Zero) == w.zero && w.scale(a, One) == a && w.scale(w.zero, s) == w.zero)
    && (forall a, s: F, t: F {:trigger OnScales(a, s, t)} :: OnScales(a, s, t) && w.has(a) ==>
          && w.scale(a, Add(s, t)) == w.add(w.scale(a, s), w.scale(a, t))
          && w.scale(a, Mul(s, t)) == w.scale(w.scale(a, s), t))
  }

  ghost predicate MixedLaws(w: Algebra) {
    forall a, b, s: F {:trigger OnMixed(a, b, s)} :: OnMixed(a, b, s) && w.has(a) && w.has(b) ==>
      && w.scale(w.add(a, b), s) == w.add(w.scale(a, s), w.scale(b, s))
      && w.mul(w.scale(a, s), b) == w.scale(w.mul(a, b), s)
      && w.mul(a, w.scale(b, s)) == w.scale(w.mul(a, b), s)
  }

  ghost predicate AlgebraLaws(w: Algebra) {
    PairLaws(w) && TripleLaws(w) && ScaleLaws(w) && MixedLaws(w)
  }

  // The field as an algebra over itself; values outside the field are sent to zero.
  function InField(x: int): F { if K.has(x) then x else Zero }

  const FIELD_ALGEBRA: Algebra := Algebra(
    x => K.has(x),
    Zero,
    (x, y) => Add(InField(x), InField(y)),
    (x, s: F) => Mul(InField(x), s),
    (x, y) => Mul(InField(x), InField(y)),
    Some(One))

  lemma FieldAsAlgebra()
    ensures ClosedAlgebra(FIELD_ALGEBRA) && AlgebraLaws(FIELD_ALGEBRA)
  {
    hide PairLaws, TripleLaws, ScaleLaws, MixedLaws;
    FieldPairs();
    FieldTriples();
    FieldScales();
    FieldMixed();
  }

  lemma FieldPairs()
    ensures PairLaws(FIELD_ALGEBRA)
  {
    hide Add, Mul;
    forall a: F, b: F
      ensures Add(a, b) == Add(b, a) && Add(a, Zero) == a && Mul(a, Zero) == Zero && Mul(Zero, a) == Zero && Mul(a, One) == a
    {
      AddComm(a, b);
      AddZero(a);
      MulZero(a);
      MulComm(Zero, a);
      MulOne(a);
    }
  }

  lemma FieldTriples()
    ensures TripleLaws(FIELD_ALGEBRA)
  {
    hide Add, Mul;
    var w := FIELD_ALGEBRA;
    forall a, b, c | On3(a, b, c) && w.has(a) && w.has(b) && w.has(c)
      ensures w.add(w.add(a, b), c) == w.add(a, w.add(b, c))
      ensures w.mul(w.add(a, b), c) == w.add(w.mul(a, c), w.mul(b, c))
      ensures w.mul(a, w.add(b, c)) == w.add(w.mul(a, b), w.mul(a, c))
    {
      AddAssoc(a, b, c);
      FieldDistributes(a, b, c);
      Distributes(a, b, c);
    }
  }

  lemma FieldScales()
    ensures ScaleLaws(FIELD_ALGEBRA)
  {
    hide Add, Mul;
    var w := FIELD_ALGEBRA;
    forall a, s: F | OnScale(a, s) && w.has(a)
      ensures w.scale(a, Zero) == w.zero && w.scale(a, One) == a && w.scale(w.zero, s) == w.zero
    {
      MulZero(a);
      MulOne(a);
      MulZero(s);
      MulComm(Zero, s);
    }
    forall a, s: F, t: F | OnScales(a, s, t) && w.has(a)
      ensures w.scale(a, Add(s, t)) == w.add(w.scale(a, s), w.scale(a, t))
      ensures w.scale(a, Mul(s, t)) == w.scale(w.scale(a, s), t)
    {
      Distributes(a, s, t);
      MulAssoc(a, s, t);
    }
  }

  lemma FieldMixed()
    ensures MixedLaws(FIELD_ALGEBRA)
  {
    hide Add, Mul;
    var w := FIELD_ALGEBRA;
    forall a, b, s: F | OnMixed(a, b, s) && w.has(a) && w.has(b)
      ensures w.scale(w.add(a, b), s) == w.add(w.scale(a, s), w.scale(b, s))
      ensures w.mul(w.scale(a, s), b) == w.scale(w.mul(a, b), s)
      ensures w.mul(a, w.scale(b, s)) == w.scale(w.mul(a, b), s)
    {
      FieldDistributes(a, b, s);
      FieldMixes(a, b, s);
    }
  }

  lemma FieldDistributes(a: F, b: F, c: F)
    ensures Mul(Add(a, b), c) == Add(Mul(a, c), Mul(b, c))
  { Ring(); }

  lemma FieldMixes(a: F, b: F, s: F)
    ensures Mul(Mul(a, s), b) == Mul(Mul(a, b), s) && Mul(a, Mul(b, s)) == Mul(Mul(a, b), s)
  { Products(); }

  type WeightAlgebra = w: Algebra | ClosedAlgebra(w) && AlgebraLaws(w) witness (FieldAsAlgebra(); FIELD_ALGEBRA)

  const W: WeightAlgebra

  type A = a: int | W.has(a) witness W.zero

  const AZero: A := W.zero

  function AAdd(a: A, b: A): A { assert On2(a, b); W.add(a, b) }
  function AScale(a: A, s: F): A { assert OnScale(a, s); W.scale(a, s) }
  function AMul(a: A, b: A): A { assert On2(a, b); W.mul(a, b) }

  predicate HasUnit() { W.unit.Some? }
  function AUnit(): A
    requires HasUnit()
  {
    W.unit.value
  }

  // ---- The laws

  lemma AAddComm(a: A, b: A)
    ensures AAdd(a, b) == AAdd(b, a)
  { assert On2(a, b); }

  lemma AAddAssoc(a: A, b: A, c: A)
    ensures AAdd(AAdd(a, b), c) == AAdd(a, AAdd(b, c))
  { assert On3(a, b, c); }

  lemma AAddZero(a: A)
    ensures AAdd(a, AZero) == a && AAdd(AZero, a) == a
  { assert On2(a, AZero); }

  lemma AMulZero(a: A)
    ensures AMul(a, AZero) == AZero && AMul(AZero, a) == AZero
  { assert On2(a, a); }

  lemma AMulUnit(a: A)
    requires HasUnit()
    ensures AMul(a, AUnit()) == a
  { assert On2(a, a); }

  lemma AMulDistributes(a: A, b: A, c: A)
    ensures AMul(AAdd(a, b), c) == AAdd(AMul(a, c), AMul(b, c))
    ensures AMul(a, AAdd(b, c)) == AAdd(AMul(a, b), AMul(a, c))
  { assert On3(a, b, c); }

  lemma AScaleTrivial(a: A, s: F)
    ensures AScale(a, Zero) == AZero && AScale(a, One) == a && AScale(AZero, s) == AZero
  { assert OnScale(a, s); }

  lemma AScaleSplits(a: A, s: F, t: F)
    ensures AScale(a, Add(s, t)) == AAdd(AScale(a, s), AScale(a, t))
    ensures AScale(a, Mul(s, t)) == AScale(AScale(a, s), t)
  { assert OnScales(a, s, t); }

  lemma AScaleMixes(a: A, b: A, s: F)
    ensures AScale(AAdd(a, b), s) == AAdd(AScale(a, s), AScale(b, s))
    ensures AMul(AScale(a, s), b) == AScale(AMul(a, b), s)
    ensures AMul(a, AScale(b, s)) == AScale(AMul(a, b), s)
  { assert OnMixed(a, b, s); }

  lemma AAddInterchange(a: A, b: A, c: A, d: A)
    ensures AAdd(AAdd(a, b), AAdd(c, d)) == AAdd(AAdd(a, c), AAdd(b, d))
  {
    AAddAssoc(a, b, AAdd(c, d));
    AAddAssoc(b, c, d);
    AAddComm(b, c);
    AAddAssoc(c, b, d);
    AAddAssoc(a, c, AAdd(b, d));
  }

  // ---- Sums of weights

  function ASum(n: nat, f: nat -> A): A {
    if n == 0 then AZero else AAdd(ASum(n - 1, f), f(n - 1))
  }

  lemma ASumStep(n: nat, f: nat -> A)
    ensures ASum(0, f) == AZero && ASum(n + 1, f) == AAdd(ASum(n, f), f(n))
  {}

  lemma {:induction false} ACongruent(n: nat, f: nat -> A, g: nat -> A)
    requires forall i: nat :: i < n ==> f(i) == g(i)
    ensures ASum(n, f) == ASum(n, g)
  {
    hide AAdd;
    if n > 0 { ACongruent(n - 1, f, g); }
  }

  lemma {:induction false} AAllZero(n: nat, f: nat -> A)
    requires forall i: nat :: i < n ==> f(i) == AZero
    ensures ASum(n, f) == AZero
  {
    hide AAdd;
    if n > 0 { AAllZero(n - 1, f); AAddZero(AZero); }
  }

  lemma {:induction false} ASingle(n: nat, f: nat -> A, k: nat)
    requires k < n
    requires forall i: nat :: i < n && i != k ==> f(i) == AZero
    ensures ASum(n, f) == f(k)
  {
    hide AAdd;
    AAddZero(f(k));
    if k == n - 1 { AAllZero(n - 1, f); } else { ASingle(n - 1, f, k); }
  }

  lemma {:induction false} APlus(n: nat, f: nat -> A, g: nat -> A, h: nat -> A)
    requires forall i: nat :: i < n ==> h(i) == AAdd(f(i), g(i))
    ensures ASum(n, h) == AAdd(ASum(n, f), ASum(n, g))
  {
    hide AAdd;
    if n == 0 {
      AAddZero(AZero);
    } else {
      APlus(n - 1, f, g, h);
      AAddInterchange(ASum(n - 1, f), ASum(n - 1, g), f(n - 1), g(n - 1));
    }
  }

  lemma {:induction false} AScaled(n: nat, s: F, f: nat -> A, h: nat -> A)
    requires forall i: nat :: i < n ==> h(i) == AScale(f(i), s)
    ensures ASum(n, h) == AScale(ASum(n, f), s)
  {
    hide AAdd, AScale;
    if n == 0 {
      AScaleTrivial(AZero, s);
    } else {
      AScaled(n - 1, s, f, h);
      AScaleMixes(ASum(n - 1, f), f(n - 1), s);
    }
  }

  lemma {:induction false} AMulLeft(n: nat, a: A, f: nat -> A, h: nat -> A)
    requires forall i: nat :: i < n ==> h(i) == AMul(a, f(i))
    ensures ASum(n, h) == AMul(a, ASum(n, f))
  {
    hide AAdd, AMul;
    if n == 0 {
      AMulZero(a);
    } else {
      AMulLeft(n - 1, a, f, h);
      AMulDistributes(a, ASum(n - 1, f), f(n - 1));
    }
  }

  lemma {:induction false} AMulRight(n: nat, f: nat -> A, a: A, h: nat -> A)
    requires forall i: nat :: i < n ==> h(i) == AMul(f(i), a)
    ensures ASum(n, h) == AMul(ASum(n, f), a)
  {
    hide AAdd, AMul;
    if n == 0 {
      AMulZero(a);
    } else {
      AMulRight(n - 1, f, a, h);
      AMulDistributes(ASum(n - 1, f), f(n - 1), a);
    }
  }

  lemma {:induction false} ASplit(n: nat, m: nat, f: nat -> A, g: nat -> A)
    requires forall i: nat :: i < m ==> g(i) == f(n + i)
    ensures ASum(n + m, f) == AAdd(ASum(n, f), ASum(m, g))
  {
    hide AAdd;
    if m == 0 {
      AAddZero(ASum(n, f));
    } else {
      ASplit(n, m - 1, f, g);
      ASumStep(n + m - 1, f);
      AAddAssoc(ASum(n, f), ASum(m - 1, g), f(n + m - 1));
    }
  }

  // n consecutive blocks of length m.
  lemma {:induction false} ABlocks(n: nat, m: nat, f: nat -> A, g: nat -> A)
    requires forall i: nat :: i < n ==> g(i) == ASum(m, (j: nat) => f(i * m + j))
    ensures n * m >= 0 && ASum(n * m, f) == ASum(n, g)
  {
    hide AAdd;
    if n > 0 {
      ABlocks(n - 1, m, f, g);
      ALastBlock((n - 1) * m, m, f, n - 1, n * m);
    }
  }

  lemma ALastBlock(start: nat, m: nat, f: nat -> A, i: nat, end: nat)
    requires start == i * m && end == start + m
    ensures ASum(end, f) == AAdd(ASum(start, f), ASum(m, (j: nat) => f(i * m + j)))
  {
    hide AAdd;
    ASplit(start, m, f, (j: nat) => f(i * m + j));
  }

  lemma {:induction false} ASwap(n: nat, m: nat, rows: nat -> A, cols: nat -> A, f: (nat, nat) -> A)
    requires forall i: nat :: i < n ==> rows(i) == ASum(m, (j: nat) => f(i, j))
    requires forall j: nat :: j < m ==> cols(j) == ASum(n, (i: nat) => f(i, j))
    ensures ASum(n, rows) == ASum(m, cols)
  {
    hide AAdd;
    if n == 0 {
      AAllZero(m, cols);
    } else {
      var cols' := (j: nat) => ASum(n - 1, (i: nat) => f(i, j));
      ASwap(n - 1, m, rows, cols', f);
      var last := (j: nat) => f(n - 1, j);
      forall j: nat | j < m
        ensures cols(j) == AAdd(cols'(j), last(j))
      {
        assert cols(j) == ASum(n, (i: nat) => f(i, j));
      }
      APlus(m, cols', last, cols);
    }
  }

  // The weighted sum of scalars times one weight.
  lemma {:induction false} AScaleOfSum(n: nat, a: A, s: nat -> F, h: nat -> A)
    requires forall i: nat :: i < n ==> h(i) == AScale(a, s(i))
    ensures ASum(n, h) == AScale(a, Sums.Sum(n, s))
  {
    hide AAdd, AScale, Add;
    if n == 0 {
      AScaleTrivial(a, Zero);
    } else {
      AScaleOfSum(n - 1, a, s, h);
      AScaleSplits(a, Sums.Sum(n - 1, s), s(n - 1));
    }
  }
}
