/**
 The equality polynomial at a point and at a little-endian hypercube index.
 `Eq(r, b)` is the reference every table, window and contraction is compared with.
 */
module EqPolynomial {
  import opened Field
  import opened Arith
  import opened Sums

  // The factor of one coordinate: r where the bit is set, 1 - r where it is clear.
  function Factor(r: F, bit: nat): F {
    if bit % 2 == 1 then r else Sub(One, r)
  }

  /** eq(r, b), coordinate k against bit k of b; zero once b has a bit past the last coordinate. */
  function Eq(r: seq<F>, b: nat): F {
    if |r| == 0 then (if b == 0 then One else Zero)
    else Mul(Factor(r[0], b), Eq(r[1..], b / 2))
  }

  function EqTerms(r: seq<F>): nat -> F {
    (b: nat) => Eq(r, b)
  }

  // One factor of eq(x, y) for two field points.
  function Agree(x: F, y: F): F {
    Add(Mul(x, y), Mul(Sub(One, x), Sub(One, y)))
  }

  /** eq(x, y) for two field points, folded from the first coordinate to the last. */
  function EqPoint(x: seq<F>, y: seq<F>): F
    requires |x| == |y|
  {
    if |x| == 0 then One
    else Mul(EqPoint(x[..|x| - 1], y[..|y| - 1]), Agree(x[|x| - 1], y[|y| - 1]))
  }

  // eq(x, b) * eq(y, b) at a hypercube index.
  ghost function MleTerms(x: seq<F>, y: seq<F>): nat -> F {
    (b: nat) => Mul(Eq(x, b), Eq(y, b))
  }

  /** eq at two field points: defined exactly for points of the same length, where it is the one
      bilinear form that is the indicator of equality on the hypercube. */
  function Mle(x: seq<F>, y: seq<F>): (value: Option<F>)
    ensures value.Some? <==> |x| == |y|
    ensures value.Some? ==> value.value == Sum(Pow2(|x|), MleTerms(x, y))
  {
    if |x| != |y| then None
    else
      MleIsSum(x, y);
      Some(EqPoint(x, y))
  }

  lemma {:induction false} MleIsSum(x: seq<F>, y: seq<F>)
    requires |x| == |y|
    ensures EqPoint(x, y) == Sum(Pow2(|x|), MleTerms(x, y))
  {
    hide Add, Mul, Neg, Sum, Eq, Agree, EqPoint;
    if |x| == 0 {
      MleOfNone(x, y);
    } else {
      var rest := MleTerms(x[1..], y[1..]);
      var g := (b: nat) => Mul(Agree(x[0], y[0]), rest(b));
      MleIsSum(x[1..], y[1..]);
      assert x == [x[0]] + x[1..] && y == [y[0]] + y[1..];
      PointConcat([x[0]], [y[0]], x[1..], y[1..]);
      OneCoordinate(x[0], y[0]);
      forall b: nat ensures g(b) == Add(MleTerms(x, y)(2 * b), MleTerms(x, y)(2 * b + 1)) {
        MlePair(x, y, b);
      }
      Pairs(Pow2(|x| - 1), MleTerms(x, y), g);
      Scale(Pow2(|x| - 1), Agree(x[0], y[0]), rest, g);
    }
  }

  lemma MleOfNone(x: seq<F>, y: seq<F>)
    requires |x| == 0 && |y| == 0
    ensures EqPoint(x, y) == Sum(Pow2(0), MleTerms(x, y))
  {
    hide Add, Mul;
    assert Sum(1, MleTerms(x, y)) == Add(Zero, Mul(One, One));
    MulOne(One);
    AddComm(Zero, One);
    AddZero(One);
  }

  lemma MlePair(x: seq<F>, y: seq<F>, b: nat)
    requires |x| == |y| > 0
    ensures Mul(Agree(x[0], y[0]), MleTerms(x[1..], y[1..])(b)) == Add(MleTerms(x, y)(2 * b), MleTerms(x, y)(2 * b + 1))
  {
    hide Add, Mul, Neg;
    var u, v := Eq(x[1..], b), Eq(y[1..], b);
    assert Eq(x, 2 * b) == Mul(Sub(One, x[0]), u) && Eq(x, 2 * b + 1) == Mul(x[0], u);
    assert Eq(y, 2 * b) == Mul(Sub(One, y[0]), v) && Eq(y, 2 * b + 1) == Mul(y[0], v);
    MulInterchange(Sub(One, x[0]), u, Sub(One, y[0]), v);
    MulInterchange(x[0], u, y[0], v);
    Distributes(Mul(u, v), Mul(x[0], y[0]), Mul(Sub(One, x[0]), Sub(One, y[0])));
    MulComm(Mul(u, v), Agree(x[0], y[0]));
    MulComm(Mul(u, v), Mul(x[0], y[0]));
    MulComm(Mul(u, v), Mul(Sub(One, x[0]), Sub(One, y[0])));
    AddComm(Mul(Mul(x[0], y[0]), Mul(u, v)), Mul(Mul(Sub(One, x[0]), Sub(One, y[0])), Mul(u, v)));
  }

  lemma MleSymmetric(x: seq<F>, y: seq<F>)
    ensures Mle(x, y) == Mle(y, x)
  {
    hide Sum, Mul, Eq, EqPoint;
    if |x| == |y| {
      forall b: nat ensures MleTerms(x, y)(b) == MleTerms(y, x)(b) { MulComm(Eq(x, b), Eq(y, b)); }
      Congruent(Pow2(|x|), MleTerms(x, y), MleTerms(y, x));
    }
  }

  // The hypercube point of an index.
  function Bits(n: nat, b: nat): (p: seq<F>)
    ensures |p| == n
  {
    if n == 0 then [] else [if b % 2 == 1 then One else Zero] + Bits(n - 1, b / 2)
  }

  lemma {:induction false} Empty(b: nat)
    ensures Eq([], b) == if b == 0 then One else Zero
  {}

  lemma Single(t: F, b: nat)
    requires b < 2
    ensures Eq([t], b) == Factor(t, b)
  {
    assert [t][1..] == [];
    MulOne(Factor(t, b));
  }

  lemma {:induction false} Cons(t: F, r: seq<F>, b: nat)
    ensures Eq([t] + r, b) == Mul(Factor(t, b), Eq(r, b / 2))
  {
    assert ([t] + r)[1..] == r;
  }

  lemma {:induction false} OutOfDomain(r: seq<F>, b: nat)
    requires b >= Pow2(|r|)
    ensures Eq(r, b) == Zero
  {
    if |r| > 0 {
      OutOfDomain(r[1..], b / 2);
      MulZero(Factor(r[0], b));
    }
  }

  /** The product structure: low coordinates see the low bits, high coordinates the rest. */
  lemma {:induction false} Concat(lo: seq<F>, hi: seq<F>, b: nat)
    ensures Eq(lo + hi, b) == Mul(Eq(lo, Low(b, |lo|)), Eq(hi, Shr(b, |lo|)))
  {
    if |lo| == 0 {
      assert lo + hi == hi;
      MulComm(One, Eq(hi, b));
      MulOne(Eq(hi, b));
    } else {
      Concat(lo[1..], hi, b / 2);
      assert (lo + hi)[1..] == lo[1..] + hi;
      var low, high := Eq(lo[1..], Low(b / 2, |lo| - 1)), Eq(hi, Shr(b, |lo|));
      assert Low(b, |lo|) / 2 == Low(b / 2, |lo| - 1);
      assert Eq(lo, Low(b, |lo|)) == Mul(Factor(lo[0], b), low);
      MulAssoc(Factor(lo[0], b), low, high);
    }
  }

  lemma Cut(r: seq<F>, k: nat, b: nat)
    requires k <= |r|
    ensures Eq(r, b) == Mul(Eq(r[..k], Low(b, k)), Eq(r[k..], Shr(b, k)))
  {
    assert r == r[..k] + r[k..];
    Concat(r[..k], r[k..], b);
  }

  /** The table of eq(r, .) sums to one. */
  lemma {:induction false} SumsToOne(r: seq<F>)
    ensures Sum(Pow2(|r|), EqTerms(r)) == One
  {
    hide Add, Mul, Neg, Eq;
    if |r| == 0 {
      Empty(0);
      assert Sum(1, EqTerms(r)) == Add(Sum(0, EqTerms(r)), Eq([], 0));
      AddComm(Zero, One);
      AddZero(One);
    } else {
      var k, t := |r| - 1, r[|r| - 1];
      var lo := r[..k];
      SumsToOne(lo);
      var zeros := (b: nat) => Mul(Sub(One, t), Eq(lo, b));
      var ones := (b: nat) => Mul(t, Eq(lo, b));
      forall b: nat | b < Pow2(k)
        ensures Eq(r, b) == zeros(b) && Eq(r, Pow2(k) + b) == ones(b)
      {
        LastBit(r, b, 0);
        LastBit(r, b, 1);
        ShlPlusOne(0, k);
      }
      SumOfHalves(Pow2(k), t, EqTerms(lo), EqTerms(r), zeros, ones);
    }
  }

  lemma SumOfHalves(m: nat, t: F, lower: nat -> F, whole: nat -> F, zeros: nat -> F, ones: nat -> F)
    requires forall b: nat :: b < m ==> zeros(b) == Mul(Sub(One, t), lower(b)) && ones(b) == Mul(t, lower(b))
    requires forall b: nat :: b < m ==> whole(b) == zeros(b) && whole(m + b) == ones(b)
    ensures Sum(m + m, whole) == Sum(m, lower)
  {
    Split(m, m, whole, ones);
    Congruent(m, whole, zeros);
    Scale(m, Sub(One, t), lower, zeros);
    Scale(m, t, lower, ones);
    Rejoin(t, Sum(m, lower));
  }

  lemma Rejoin(t: F, s: F)
    ensures Add(Mul(Sub(One, t), s), Mul(t, s)) == s
  { Ring(); }

  // The last coordinate is the top bit.
  lemma LastBit(r: seq<F>, b: nat, bit: nat)
    requires |r| > 0 && b < Pow2(|r| - 1) && bit < 2
    ensures Eq(r, Shl(bit, |r| - 1) + b) == Mul(Factor(r[|r| - 1], bit), Eq(r[..|r| - 1], b))
  {
    var k := |r| - 1;
    var i := Shl(bit, k) + b;
    ShrLowUnique(i, k, bit, b);
    Cut(r, k, i);
    assert r[k..] == [r[k]];
    Single(r[k], bit);
    MulComm(Eq(r[..k], b), Factor(r[k], bit));
  }

  lemma {:induction false} PointConcat(x: seq<F>, y: seq<F>, u: seq<F>, v: seq<F>)
    requires |x| == |y| && |u| == |v|
    ensures EqPoint(x + u, y + v) == Mul(EqPoint(x, y), EqPoint(u, v))
  {
    if |u| == 0 {
      assert x + u == x && y + v == y;
      MulOne(EqPoint(x, y));
    } else {
      var m := |u| - 1;
      PointConcat(x, y, u[..m], v[..m]);
      assert (x + u)[..|x + u| - 1] == x + u[..m] && (x + u)[|x + u| - 1] == u[m];
      assert (y + v)[..|y + v| - 1] == y + v[..m] && (y + v)[|y + v| - 1] == v[m];
      assert EqPoint(x + u, y + v) == Mul(EqPoint(x + u[..m], y + v[..m]), Agree(u[m], v[m]));
      MulAssoc(EqPoint(x, y), EqPoint(u[..m], v[..m]), Agree(u[m], v[m]));
    }
  }

  /** At a hypercube point, eq over field points is eq at that point's index. */
  lemma {:induction false} AtBits(r: seq<F>, b: nat)
    requires b < Pow2(|r|)
    ensures EqPoint(r, Bits(|r|, b)) == Eq(r, b)
    ensures Mle(r, Bits(|r|, b)) == Some(Eq(r, b))
  {
    if |r| > 0 {
      var bits := Bits(|r|, b);
      AtBits(r[1..], b / 2);
      assert r == [r[0]] + r[1..] && bits == [bits[0]] + Bits(|r| - 1, b / 2);
      PointConcat([r[0]], [bits[0]], r[1..], Bits(|r| - 1, b / 2));
      OneCoordinate(r[0], bits[0]);
      AgreeOnBits(r[0]);
    }
  }

  lemma OneCoordinate(x: F, y: F)
    ensures EqPoint([x], [y]) == Agree(x, y)
  {
    assert [x][..0] == [] && [y][..0] == [];
    assert EqPoint([x], [y]) == Mul(EqPoint([], []), Agree(x, y));
    MulComm(One, Agree(x, y));
    MulOne(Agree(x, y));
  }

  lemma AgreeOnBits(x: F)
    ensures Agree(x, One) == x && Agree(x, Zero) == Sub(One, x)
  { Ring(); }

  /** Two hypercube points: eq is one when they are the same and zero otherwise. */
  lemma {:induction false} Indicator(n: nat, a: nat, b: nat)
    requires a < Pow2(n) && b < Pow2(n)
    ensures Eq(Bits(n, a), b) == if a == b then One else Zero
  {
    if n > 0 {
      Indicator(n - 1, a / 2, b / 2);
      assert Bits(n, a)[1..] == Bits(n - 1, a / 2);
      FactorOfBit(a, b);
      MulZero(One);
      MulZero(Zero);
      MulOne(One);
      MulOne(Zero);
    }
  }

  lemma FactorOfBit(a: nat, b: nat)
    ensures Factor(if a % 2 == 1 then One else Zero, b) == if a % 2 == b % 2 then One else Zero
  { Ring(); }

  /** The sum of the first len entries of the table, by one scan over the bits of len. */
  method PrefixSum(r: seq<F>, len: nat) returns (total: Option<F>)
    ensures total.Some? <==> |r| < 64 && len <= Pow2(|r|)
    ensures total.Some? ==> total.value == Sum(len, EqTerms(r))
  {
    if |r| >= 64 || len > Pow2(|r|) {
      return None;
    }
    if len == Pow2(|r|) {
      SumsToOne(r);
      return Some(One);
    }
    var below, equalPrefix := Zero, One;
    var bit := |r|;
    LowSmall(len, bit);
    ShlPlusOne(0, bit);
    assert r[bit..] == [];
    while bit > 0
      invariant bit <= |r|
      invariant below == Sum(Shl(Shr(len, bit), bit), EqTerms(r))
      invariant equalPrefix == Eq(r[bit..], Shr(len, bit))
    {
      bit := bit - 1;
      var (left, right) := SplitParent(equalPrefix, r[bit]);
      PrefixStep(r, len, bit, equalPrefix, below);
      if Shr(len, bit) % 2 == 1 {
        below := Add(below, left);
        equalPrefix := right;
      } else {
        equalPrefix := left;
      }
    }
    return Some(below);
  }

  // A parent table value split along one coordinate.
  function SplitParent(value: F, coordinate: F): (F, F) {
    var right := Mul(value, coordinate);
    (Sub(value, right), right)
  }

  lemma Children(value: F, t: F)
    ensures SplitParent(value, t).0 == Mul(value, Factor(t, 0))
    ensures SplitParent(value, t).1 == Mul(value, Factor(t, 1))
  {
    Ring();
  }

  // One step of the scan: the upper bits of len gain bit `bit`.
  lemma PrefixStep(r: seq<F>, len: nat, bit: nat, equalPrefix: F, below: F)
    requires bit < |r|
    requires equalPrefix == Eq(r[bit + 1..], Shr(len, bit + 1))
    requires below == Sum(Shl(Shr(len, bit + 1), bit + 1), EqTerms(r))
    ensures var (left, right) := SplitParent(equalPrefix, r[bit]);
      && Eq(r[bit..], Shr(len, bit)) == (if Shr(len, bit) % 2 == 1 then right else left)
      && Sum(Shl(Shr(len, bit), bit), EqTerms(r)) == (if Shr(len, bit) % 2 == 1 then Add(below, left) else below)
  {
    hide Add, Mul, Neg, Sum, Eq;
    var top, next := Shr(len, bit + 1), Shr(len, bit);
    ShrOnce(len, bit);
    Children(equalPrefix, r[bit]);
    HeadOfSuffix(r, bit, next);
    HeadOfSuffix(r, bit, 2 * top);
    BlockSum(r, bit, 2 * top);
    ShlPlusOne(top, bit);
    ShlPlusOne(2 * top, bit);
  }

  lemma HeadOfSuffix(r: seq<F>, k: nat, b: nat)
    requires k < |r|
    ensures Eq(r[k..], b) == Mul(Eq(r[k + 1..], b / 2), Factor(r[k], b))
  {
    assert r[k..] == [r[k]] + r[k + 1..];
    Cons(r[k], r[k + 1..], b);
    MulComm(Factor(r[k], b), Eq(r[k + 1..], b / 2));
  }

  // A full block of low indices contributes the factor of its high bits.
  lemma BlockSum(r: seq<F>, k: nat, high: nat)
    requires k <= |r|
    ensures Sum(Shl(high, k) + Pow2(k), EqTerms(r)) == Add(Sum(Shl(high, k), EqTerms(r)), Eq(r[k..], high))
  {
    hide Add, Mul, Neg, Sum, Eq;
    var start, c := Shl(high, k), Eq(r[k..], high);
    var block := (i: nat) => Mul(c, Eq(r[..k], i));
    forall i: nat | i < Pow2(k)
      ensures Eq(r, start + i) == block(i)
    {
      ShrLowUnique(start + i, k, high, i);
      Cut(r, k, start + i);
      MulComm(c, Eq(r[..k], i));
    }
    Split(start, Pow2(k), EqTerms(r), block);
    Scale(Pow2(k), c, EqTerms(r[..k]), block);
    SumsToOne(r[..k]);
    MulOne(c);
  }
}
