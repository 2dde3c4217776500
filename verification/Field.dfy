/**
 The coefficient field.

 Every algorithm in the repository is generic over a `Field`. Here that parameter is the
 constant `K`: an arbitrary field whose elements are coded by integers, constrained only by
 the field laws. No value is given to `K`, so everything proved about it holds for every
 field that can be coded this way: all prime fields and all their finite extensions.
 `PrimeFields.IsField` exhibits the prime fields.
 */
module Field {

  datatype Structure = Structure(
    has: int -> bool,
    zero: int,
    one: int,
    add: (int, int) -> int,
    neg: int -> int,
    mul: (int, int) -> int,
    inv: int -> int)

  // The laws are instantiated only where one of these markers is asserted, so that they
  // never feed the solver on their own.
  ghost predicate At1(x: int) { true }
  ghost predicate At2(x: int, y: int) { true }
  ghost predicate At3(x: int, y: int, z: int) { true }

  ghost predicate Closed(k: Structure) {
    && k.has(k.zero) && k.has(k.one) && k.zero != k.one
    && (forall x {:trigger At1(x)} :: At1(x) && k.has(x) ==> k.has(k.neg(x)) && k.has(k.inv(x)))
    && (forall x, y {:trigger At2(x, y)} :: At2(x, y) && k.has(x) && k.has(y) ==>
          k.has(k.add(x, y)) && k.has(k.mul(x, y)))
  }

  ghost predicate Laws(k: Structure) {
    && (forall x {:trigger At1(x)} :: At1(x) && k.has(x) ==>
          && k.add(x, k.zero) == x
          && k.add(x, k.neg(x)) == k.zero
          && k.mul(x, k.one) == x
          && (x != k.zero ==> k.mul(x, k.inv(x)) == k.one))
    && (forall x, y {:trigger At2(x, y)} :: At2(x, y) && k.has(x) && k.has(y) ==>
          k.add(x, y) == k.add(y, x) && k.mul(x, y) == k.mul(y, x))
    && (forall x, y, z {:trigger At3(x, y, z)} :: At3(x, y, z) && k.has(x) && k.has(y) && k.has(z) ==>
          && k.add(k.add(x, y), z) == k.add(x, k.add(y, z))
          && k.mul(k.mul(x, y), z) == k.mul(x, k.mul(y, z))
          && k.mul(x, k.add(y, z)) == k.add(k.mul(x, y), k.mul(x, z)))
  }

  // The two-element field.
  const BINARY: Structure := Structure(
    x => x == 0 || x == 1,
    0,
    1,
    (x, y) => if x == y then 0 else 1,
    x => x,
    (x, y) => if x == 1 && y == 1 then 1 else 0,
    x => x)

  type FieldStructure = k: Structure | Closed(k) && Laws(k) witness BINARY

  const K: FieldStructure

  type F = x: int | K.has(x) witness K.zero

  datatype Option<+T> = None | Some(value: T)

  const Zero: F := K.zero
  const One: F := K.one

  function Add(x: F, y: F): F { assert At2(x, y); K.add(x, y) }
  function Mul(x: F, y: F): F { assert At2(x, y); K.mul(x, y) }
  function Neg(x: F): F { assert At1(x); K.neg(x) }
  function Inv(x: F): F { assert At1(x); K.inv(x) }
  function Sub(x: F, y: F): F { Add(x, Neg(y)) }

  // The fallible inverse: only zero has none.
  function Inverse(x: F): Option<F> { if x == Zero then None else Some(Inv(x)) }

  function Pow(x: F, e: nat): F {
    if e == 0 then One else Mul(x, Pow(x, e - 1))
  }

  function FromNat(k: nat): F {
    if k == 0 then Zero else Add(FromNat(k - 1), One)
  }

  function FromInt(k: int): F {
    if k >= 0 then FromNat(k) else Neg(FromNat(-k))
  }

  // ---- The laws, one instance at a time

  lemma AddComm(x: F, y: F)
    ensures Add(x, y) == Add(y, x)
  { assert At2(x, y); }

  lemma AddAssoc(x: F, y: F, z: F)
    ensures Add(Add(x, y), z) == Add(x, Add(y, z))
  { assert At3(x, y, z); }

  lemma AddZero(x: F)
    ensures Add(x, Zero) == x
  { assert At1(x); }

  lemma AddNeg(x: F)
    ensures Add(x, Neg(x)) == Zero
  { assert At1(x); }

  lemma MulComm(x: F, y: F)
    ensures Mul(x, y) == Mul(y, x)
  { assert At2(x, y); }

  lemma MulAssoc(x: F, y: F, z: F)
    ensures Mul(Mul(x, y), z) == Mul(x, Mul(y, z))
  { assert At3(x, y, z); }

  lemma MulOne(x: F)
    ensures Mul(x, One) == x
  { assert At1(x); }

  lemma Distributes(x: F, y: F, z: F)
    ensures Mul(x, Add(y, z)) == Add(Mul(x, y), Mul(x, z))
  { assert At3(x, y, z); }

  lemma MulInv(x: F)
    requires x != Zero
    ensures Mul(x, Inv(x)) == One
  { assert At1(x); }

  // ---- Consequences

  lemma AddCancel(x: F, y: F, z: F)
    requires Add(x, z) == Add(y, z)
    ensures x == y
  {
    AddAssoc(x, z, Neg(z));
    AddAssoc(y, z, Neg(z));
    AddNeg(z);
    AddZero(x);
    AddZero(y);
  }

  lemma MulZero(x: F)
    ensures Mul(x, Zero) == Zero
  {
    Distributes(x, Zero, Zero);
    AddZero(Zero);
    AddZero(Mul(x, Zero));
    AddComm(Mul(x, Zero), Zero);
    AddCancel(Mul(x, Zero), Zero, Mul(x, Zero));
  }

  lemma NegUnique(x: F, y: F)
    requires Add(x, y) == Zero
    ensures y == Neg(x)
  {
    AddNeg(x);
    AddComm(x, y);
    AddComm(x, Neg(x));
    AddCancel(y, Neg(x), x);
  }

  lemma MulNeg(x: F, y: F)
    ensures Mul(x, Neg(y)) == Neg(Mul(x, y))
  {
    Distributes(x, y, Neg(y));
    AddNeg(y);
    MulZero(x);
    NegUnique(Mul(x, y), Mul(x, Neg(y)));
  }

  lemma NegNeg(x: F)
    ensures Neg(Neg(x)) == x
  {
    AddNeg(x);
    AddComm(x, Neg(x));
    NegUnique(Neg(x), x);
  }

  lemma NegAdd(x: F, y: F)
    ensures Neg(Add(x, y)) == Add(Neg(x), Neg(y))
  {
    AddAssoc(x, y, Add(Neg(x), Neg(y)));
    AddComm(Neg(x), Neg(y));
    AddAssoc(y, Neg(y), Neg(x));
    AddNeg(y);
    AddComm(Zero, Neg(x));
    AddZero(Neg(x));
    AddNeg(x);
    NegUnique(Add(x, y), Add(Neg(x), Neg(y)));
  }

  /** Commutativity and associativity of the product, for every instance the solver meets. */
  lemma Products()
    ensures forall x: F, y: F {:trigger Mul(x, y)} :: Mul(x, y) == Mul(y, x)
    ensures forall x: F, y: F, z: F {:trigger Mul(Mul(x, y), z)} :: Mul(Mul(x, y), z) == Mul(x, Mul(y, z))
  {
    forall x: F, y: F { MulComm(x, y); }
    forall x: F, y: F, z: F { MulAssoc(x, y, z); }
  }

  /** Commutativity and associativity of the sum. */
  lemma Additions()
    ensures forall x: F, y: F {:trigger Add(x, y)} :: Add(x, y) == Add(y, x)
    ensures forall x: F, y: F, z: F {:trigger Add(Add(x, y), z)} :: Add(Add(x, y), z) == Add(x, Add(y, z))
    ensures forall x: F {:trigger Add(x, Zero)} :: Add(x, Zero) == x
  {
    forall x: F, y: F { AddComm(x, y); }
    forall x: F, y: F, z: F { AddAssoc(x, y, z); }
    forall x: F { AddZero(x); }
  }

  /** The commutative-ring laws, oriented so that a small ring identity follows in one call. */
  lemma Ring()
    ensures forall x: F, y: F {:trigger Mul(x, y)} :: Mul(x, y) == Mul(y, x)
    ensures forall x: F, y: F, z: F {:trigger Mul(Mul(x, y), z)} :: Mul(Mul(x, y), z) == Mul(x, Mul(y, z))
    ensures forall x: F, y: F {:trigger Add(x, y)} :: Add(x, y) == Add(y, x)
    ensures forall x: F, y: F, z: F {:trigger Add(Add(x, y), z)} :: Add(Add(x, y), z) == Add(x, Add(y, z))
    ensures forall x: F, y: F, z: F {:trigger Mul(x, Add(y, z))} :: Mul(x, Add(y, z)) == Add(Mul(x, y), Mul(x, z))
    ensures forall x: F {:trigger Neg(x)} :: Add(x, Neg(x)) == Zero
    ensures forall x: F {:trigger Add(x, Zero)} :: Add(x, Zero) == x
    ensures forall x: F {:trigger Mul(x, Zero)} :: Mul(x, Zero) == Zero
    ensures forall x: F {:trigger Mul(x, One)} :: Mul(x, One) == x
    ensures forall x: F, y: F {:trigger Mul(x, Neg(y))} :: Mul(x, Neg(y)) == Neg(Mul(x, y))
    ensures forall x: F, y: F {:trigger Neg(Add(x, y))} :: Neg(Add(x, y)) == Add(Neg(x), Neg(y))
    ensures forall x: F {:trigger Neg(Neg(x))} :: Neg(Neg(x)) == x
  {
    Products();
    Additions();
    forall x: F, y: F, z: F { Distributes(x, y, z); }
    forall x: F { AddNeg(x); }
    forall x: F { MulZero(x); }
    forall x: F { MulOne(x); }
    forall x: F { NegNeg(x); }
    forall x: F, y: F { MulNeg(x, y); }
    forall x: F, y: F { NegAdd(x, y); }
  }

  lemma AddInterchange(a: F, b: F, c: F, d: F)
    ensures Add(Add(a, b), Add(c, d)) == Add(Add(a, c), Add(b, d))
  { Additions(); }

  lemma MulInterchange(a: F, b: F, c: F, d: F)
    ensures Mul(Mul(a, b), Mul(c, d)) == Mul(Mul(a, c), Mul(b, d))
  { Products(); }

  lemma MulExchange(a: F, b: F, c: F)
    ensures Mul(a, Mul(b, c)) == Mul(b, Mul(a, c))
  { Products(); }

  lemma SubCancel(a: F, b: F)
    ensures Sub(Add(a, b), a) == b
  { Ring(); }

  lemma NoZeroDivisors(x: F, y: F)
    requires Mul(x, y) == Zero
    ensures x == Zero || y == Zero
  {
    if x != Zero {
      MulInv(x);
      assert Mul(Mul(x, y), Inv(x)) == y by { Products(); MulOne(y); }
      MulZero(Inv(x));
      MulComm(Zero, Inv(x));
    }
  }

  lemma MulCancel(x: F, y: F, z: F)
    requires z != Zero && Mul(x, z) == Mul(y, z)
    ensures x == y
  {
    assert Mul(Sub(x, y), z) == Zero by { Ring(); }
    NoZeroDivisors(Sub(x, y), z);
    assert Add(Sub(x, y), y) == x by { Ring(); }
    assert Add(Zero, y) == y by { Ring(); }
  }

  lemma SubZeroIsEqual(x: F, y: F)
    requires Sub(x, y) == Zero
    ensures x == y
  {
    assert Add(Sub(x, y), y) == x by { Ring(); }
    assert Add(Zero, y) == y by { Ring(); }
  }

  // ---- Powers

  lemma {:induction false} PowAdd(x: F, a: nat, b: nat)
    ensures Pow(x, a + b) == Mul(Pow(x, a), Pow(x, b))
  {
    if a == 0 {
      MulOne(Pow(x, b));
      MulComm(One, Pow(x, b));
    } else {
      PowAdd(x, a - 1, b);
      MulAssoc(x, Pow(x, a - 1), Pow(x, b));
    }
  }

  lemma {:induction false} PowMul(x: F, a: nat, b: nat)
    ensures a * b >= 0 && Pow(Pow(x, a), b) == Pow(x, a * b)
  {
    if b > 0 {
      PowMul(x, a, b - 1);
      assert a * b == a + a * (b - 1);
      PowAdd(x, a, a * (b - 1));
    }
  }

  lemma {:induction false} PowOne(e: nat)
    ensures Pow(One, e) == One
  {
    if e > 0 { PowOne(e - 1); MulOne(One); }
  }

  lemma {:induction false} PowProduct(x: F, y: F, e: nat)
    ensures Pow(Mul(x, y), e) == Mul(Pow(x, e), Pow(y, e))
  {
    if e == 0 { MulOne(One); } else { PowProduct(x, y, e - 1); Products(); }
  }

  // ---- Images of the integers

  lemma {:induction false} FromNatAdd(a: nat, b: nat)
    ensures FromNat(a + b) == Add(FromNat(a), FromNat(b))
  {
    if b == 0 {
      AddZero(FromNat(a));
    } else {
      FromNatAdd(a, b - 1);
      AddAssoc(FromNat(a), FromNat(b - 1), One);
    }
  }

  lemma {:induction false} FromNatMul(a: nat, b: nat)
    ensures a * b >= 0 && FromNat(a * b) == Mul(FromNat(a), FromNat(b))
  {
    if b == 0 {
      MulZero(FromNat(a));
    } else {
      FromNatMul(a, b - 1);
      assert a * b == a * (b - 1) + a;
      FromNatAdd(a * (b - 1), a);
      Distributes(FromNat(a), FromNat(b - 1), One);
      MulOne(FromNat(a));
    }
  }

  lemma NegZero()
    ensures Neg(Zero) == Zero
  {
    AddZero(Zero);
    NegUnique(Zero, Zero);
  }

  // The image of a difference of naturals is the difference of the images.
  lemma FromIntSub(a: nat, b: nat)
    ensures FromInt(a - b) == Sub(FromNat(a), FromNat(b))
  {
    hide Add, Neg, FromNat, Sub, FromInt;
    var k: int := a - b;
    FromIntParts(k);
    if a >= b {
      ImageOfGap(k, b, a);
    } else {
      var gap: nat := b - a;
      assert -k == gap;
      ImageOfGap(gap, a, b);
    }
  }

  lemma FromIntParts(k: int)
    ensures k >= 0 ==> FromInt(k) == FromNat(k)
    ensures k < 0 ==> FromInt(k) == Neg(FromNat(-k))
  {}

  lemma ImageOfGap(gap: nat, low: nat, high: nat)
    requires gap + low == high
    ensures Sub(FromNat(high), FromNat(low)) == FromNat(gap) && Sub(FromNat(low), FromNat(high)) == Neg(FromNat(gap))
  {
    hide Add, Neg, FromNat, Sub;
    FromNatAdd(gap, low);
    DifferenceOfSum(FromNat(gap), FromNat(low));
  }

  lemma DifferenceOfSum(x: F, y: F)
    ensures Sub(Add(x, y), y) == x && Sub(y, Add(x, y)) == Neg(x)
  { Ring(); }

  lemma FromIntNeg(k: int)
    ensures FromInt(-k) == Neg(FromInt(k))
  {
    NegZero();
    NegNeg(FromNat(if k >= 0 then k else -k));
  }

  /** The image of the integers is a ring homomorphism: sums, products and one are kept. */
  lemma FromIntAdd(j: int, k: int)
    ensures FromInt(j + k) == Add(FromInt(j), FromInt(k))
  {
    hide Add, Neg, FromNat;
    if j >= 0 && k >= 0 {
      FromNatAdd(j, k);
    } else if j >= 0 {
      FromIntSub(j, -k);
    } else if k >= 0 {
      FromIntSub(k, -j);
      AddComm(FromInt(j), FromInt(k));
    } else {
      FromNatAdd(-j, -k);
      NegAdd(FromNat(-j), FromNat(-k));
    }
  }

  lemma FromIntMul(j: int, k: int)
    ensures FromInt(j * k) == Mul(FromInt(j), FromInt(k))
    ensures FromInt(1) == One
  {
    assert FromNat(1) == Add(FromNat(0), One) && FromNat(0) == Zero;
    AddComm(Zero, One);
    AddZero(One);
    hide Add, Neg, Mul, FromNat;
    var a: nat := if j >= 0 then j else -j;
    var b: nat := if k >= 0 then k else -k;
    FromNatMul(a, b);
    MulNeg(FromNat(a), FromNat(b));
    MulComm(Neg(FromNat(a)), FromNat(b));
    MulNeg(FromNat(b), FromNat(a));
    MulComm(FromNat(a), FromNat(b));
    MulNeg(Neg(FromNat(a)), FromNat(b));
    NegNeg(Mul(FromNat(a), FromNat(b)));
    SignedProduct(j, k, a, b);
    FromIntNeg(a * b);
  }

  lemma SignedProduct(j: int, k: int, a: int, b: int)
    requires (j == a || j == -a) && (k == b || k == -b)
    ensures j == a && k == b ==> j * k == a * b
    ensures j == -a && k == b ==> j * k == -(a * b)
    ensures j == a && k == -b ==> j * k == -(a * b)
    ensures j == -a && k == -b ==> j * k == a * b
  {
    assert -a * -b == a * b && -a * b == -(a * b) && a * -b == -(a * b);
  }
}
