/** The discrete Fourier transform, its inverse, and the Cooley-Tukey decomposition. */
module Dft {
  import opened Field
  import opened Arith
  import opened Sums
  import opened UniPoly

  ghost function DftTerms(x: seq<F>, w: F, k: nat): nat -> F {
    (j: nat) => Mul(At(x, j), Pow(w, j * k))
  }

  /** Entry k of the transform: the sum of x[j] * w^(j k). */
  ghost function DftAt(x: seq<F>, w: F, k: nat): F {
    Sum(|x|, DftTerms(x, w, k))
  }

  ghost function DftSeq(x: seq<F>, w: F): (y: seq<F>)
    ensures |y| == |x|
  {
    seq(|x|, (k: nat) => DftAt(x, w, k))
  }

  /** The transform is evaluation at the powers of w. */
  lemma DftIsEvaluation(x: seq<F>, w: F, k: nat)
    ensures DftAt(x, w, k) == Value(x, Pow(w, k))
  {
    hide Mul, Pow, Sum, Value, At;
    ValueIsSum(x, |x|, Pow(w, k));
    forall j: nat | j < |x|
      ensures DftTerms(x, w, k)(j) == Monomials(x, Pow(w, k))(j)
    {
      PowMul(w, k, j);
      assert k * j == j * k;
    }
    Congruent(|x|, DftTerms(x, w, k), Monomials(x, Pow(w, k)));
  }

  /** w has multiplicative order n. */
  ghost predicate PrimitiveRoot(w: F, n: nat) {
    n > 0 && Pow(w, n) == One && forall d: nat :: 0 < d < n ==> Pow(w, d) != One
  }

  ghost function PowerTerms(z: F): nat -> F {
    (k: nat) => Pow(z, k)
  }

  lemma {:induction false} GeometricSum(z: F, n: nat)
    ensures Mul(Sub(z, One), Sum(n, PowerTerms(z))) == Sub(Pow(z, n), One)
  {
    hide Add, Mul, Neg;
    if n == 0 {
      MulZero(Sub(z, One));
      AddNeg(One);
    } else {
      GeometricSum(z, n - 1);
      GeometricStep(z, Sum(n - 1, PowerTerms(z)), Pow(z, n - 1));
    }
  }

  lemma GeometricStep(z: F, s: F, p: F)
    requires Mul(Sub(z, One), s) == Sub(p, One)
    ensures Mul(Sub(z, One), Add(s, p)) == Sub(Mul(z, p), One)
  {
    Distributes(Sub(z, One), s, p);
    GeometricRest(z, p);
  }

  lemma GeometricRest(z: F, p: F)
    ensures Add(Sub(p, One), Mul(Sub(z, One), p)) == Sub(Mul(z, p), One)
  { Ring(); }

  // The powers of an n-th root of unity other than one cancel.
  lemma RootsCancel(z: F, n: nat)
    requires Pow(z, n) == One && z != One
    ensures Sum(n, PowerTerms(z)) == Zero
  {
    hide Add, Mul, Neg, Pow, Sum;
    GeometricSum(z, n);
    AddNeg(One);
    NoZeroDivisors(Sub(z, One), Sum(n, PowerTerms(z)));
    if Sub(z, One) == Zero { SubZeroIsEqual(z, One); }
  }

  lemma {:induction false} SumOfOnes(n: nat, f: nat -> F)
    requires forall i: nat :: i < n ==> f(i) == One
    ensures Sum(n, f) == FromNat(n)
  {
    hide Add;
    if n > 0 { SumOfOnes(n - 1, f); }
  }

  lemma PowInverse(w: F, v: F, e: nat)
    requires Mul(w, v) == One
    ensures Mul(Pow(w, e), Pow(v, e)) == One
  {
    PowProduct(w, v, e);
    PowOne(e);
  }

  // w^i / w^j is one only on the diagonal.
  lemma RatioIsOne(w: F, v: F, n: nat, i: nat, j: nat)
    requires PrimitiveRoot(w, n) && Mul(w, v) == One && i < n && j < n
    ensures Mul(Pow(w, i), Pow(v, j)) == One <==> i == j
    ensures Pow(Mul(Pow(w, i), Pow(v, j)), n) == One
  {
    hide Mul, Pow;
    PowInverse(w, v, j);
    if Mul(Pow(w, i), Pow(v, j)) == One {
      assert Mul(Pow(w, i), Pow(v, j)) == Mul(Pow(w, j), Pow(v, j));
      if Pow(v, j) == Zero { MulZero(Pow(w, j)); }
      MulCancel(Pow(w, i), Pow(w, j), Pow(v, j));
      SamePower(w, n, i, j);
    }
    PowProduct(Pow(w, i), Pow(v, j), n);
    PowCommutes(w, i, n);
    PowCommutes(v, j, n);
    PowOne(i);
    PowOne(j);
    PowInverse(w, v, n);
    MulComm(One, Pow(v, n));
    MulOne(Pow(v, n));
    MulOne(One);
  }

  lemma PowCommutes(w: F, a: nat, b: nat)
    ensures Pow(Pow(w, a), b) == Pow(Pow(w, b), a)
  {
    PowMul(w, a, b);
    PowMul(w, b, a);
    assert a * b == b * a;
  }

  lemma SamePower(w: F, n: nat, i: nat, j: nat)
    requires PrimitiveRoot(w, n) && i < n && j < n && Pow(w, i) == Pow(w, j)
    ensures i == j
  {
    hide Mul, Pow;
    if i < j {
      PowersDiffer(w, n, i, j);
    } else if j < i {
      PowersDiffer(w, n, j, i);
    }
  }

  lemma PowersDiffer(w: F, n: nat, i: nat, j: nat)
    requires PrimitiveRoot(w, n) && i < j < n
    ensures Pow(w, i) != Pow(w, j)
  {
    hide Mul, Pow;
    if Pow(w, i) == Pow(w, j) {
      PowAdd(w, i, j - i);
      RootNonzero(w, n, i);
      MulComm(Pow(w, i), Pow(w, j - i));
      MulComm(Pow(w, i), One);
      MulOne(Pow(w, i));
      MulCancel(Pow(w, j - i), One, Pow(w, i));
    }
  }

  lemma RootNonzero(w: F, n: nat, i: nat)
    requires Pow(w, n) == One && i <= n
    ensures Pow(w, i) != Zero
  {
    PowAdd(w, i, n - i);
    if Pow(w, i) == Zero {
      MulComm(Zero, Pow(w, n - i));
      MulZero(Pow(w, n - i));
    }
  }

  /** Orthogonality: the inverse transform of the transform is n times the input. */
  lemma InverseOfDft(x: seq<F>, w: F, v: F, j: nat)
    requires PrimitiveRoot(w, |x|) && Mul(w, v) == One && j < |x|
    ensures DftAt(DftSeq(x, w), v, j) == Mul(FromNat(|x|), x[j])
  {
    hide Add, Mul, Neg, Pow, Sum, FromNat, At, DftTerms, Crossed;
    var n := |x|;
    var f := (k: nat, i: nat) => Crossed(x, w, v, j, k, i);
    var cols := (i: nat) => Diagonal(x, j, i);
    forall k: nat | k < n
      ensures DftTerms(DftSeq(x, w), v, j)(k) == Sum(n, (i: nat) => f(k, i))
    {
      ExpandEntry(x, w, v, j, k);
      Congruent(n, (i: nat) => Crossed(x, w, v, j, k, i), (i: nat) => f(k, i));
    }
    forall i: nat | i < n
      ensures cols(i) == Sum(n, (k: nat) => f(k, i))
    {
      ColumnSum(x, w, v, i, j);
      Congruent(n, (k: nat) => Crossed(x, w, v, j, k, i), (k: nat) => f(k, i));
    }
    Swap(n, n, DftTerms(DftSeq(x, w), v, j), cols, f);
    Sums.Single(n, cols, j);
    AtEntry(x, j);
  }

  ghost function Diagonal(x: seq<F>, j: nat, i: nat): F {
    if i == j then Mul(FromNat(|x|), At(x, j)) else Zero
  }

  // x[i] * (w^i / w^j)^k
  ghost function Crossed(x: seq<F>, w: F, v: F, j: nat, k: nat, i: nat): F {
    Mul(At(x, i), Pow(Mul(Pow(w, i), Pow(v, j)), k))
  }

  lemma ExpandEntry(x: seq<F>, w: F, v: F, j: nat, k: nat)
    requires k < |x|
    ensures DftTerms(DftSeq(x, w), v, j)(k) == Sum(|x|, (i: nat) => Crossed(x, w, v, j, k, i))
  {
    hide Add, Mul, Neg, Pow, Sum;
    var g := (i: nat) => Crossed(x, w, v, j, k, i);
    forall i: nat | i < |x|
      ensures g(i) == Mul(Pow(v, k * j), DftTerms(x, w, k)(i))
    {
      PowProduct(Pow(w, i), Pow(v, j), k);
      PowMul(w, i, k);
      PowMul(v, j, k);
      assert j * k == k * j;
      Regroup(At(x, i), Pow(w, i * k), Pow(v, k * j));
    }
    Scale(|x|, Pow(v, k * j), DftTerms(x, w, k), g);
    MulComm(Pow(v, k * j), DftAt(x, w, k));
  }

  lemma Regroup(a: F, b: F, c: F)
    ensures Mul(a, Mul(b, c)) == Mul(c, Mul(a, b))
  { Products(); }

  lemma ColumnSum(x: seq<F>, w: F, v: F, i: nat, j: nat)
    requires PrimitiveRoot(w, |x|) && Mul(w, v) == One && i < |x| && j < |x|
    ensures Sum(|x|, (k: nat) => Crossed(x, w, v, j, k, i)) == Diagonal(x, j, i)
  {
    hide Add, Mul, Neg, Pow, Sum, FromNat, At;
    var n, z, c := |x|, Mul(Pow(w, i), Pow(v, j)), At(x, i);
    var g := (k: nat) => Crossed(x, w, v, j, k, i);
    RatioIsOne(w, v, n, i, j);
    Scale(n, c, PowerTerms(z), g);
    if i == j {
      forall k: nat | k < n ensures PowerTerms(z)(k) == One { PowOne(k); }
      SumOfOnes(n, PowerTerms(z));
      MulComm(c, FromNat(n));
    } else {
      RootsCancel(z, n);
      MulZero(c);
    }
  }

  // ---- Decimation in time

  // Every r-th entry, from entry k.
  ghost function Lane(y: seq<F>, k: nat, r: nat, b: nat): (lane: seq<F>)
    ensures |lane| == b
  {
    seq(b, (m: nat) => At(y, k + r * m))
  }

  ghost function LaneTerms(y: seq<F>, w: F, r: nat, b: nat, i: nat, j: nat): nat -> F {
    (k: nat) => Mul(DftAt(Lane(y, k, r, b), Pow(w, r), j), Pow(w, k * i))
  }

  // The term of entry i at input m r + k.
  ghost function GridTerm(y: seq<F>, w: F, r: nat, i: nat, m: nat, k: nat): F {
    Mul(At(y, m * r + k), Pow(w, (m * r + k) * i))
  }

  /** Cooley-Tukey: entry i = q b + j of the transform of b r points from entry j of the r
      transforms of the lanes. */
  lemma CooleyTukey(y: seq<F>, w: F, r: nat, b: nat, q: nat, j: nat, i: nat)
    requires |y| == b * r && Pow(w, b * r) == One && i == q * b + j
    ensures DftAt(y, w, i) == Sum(r, LaneTerms(y, w, r, b, i, j))
  {
    hide Add, Mul, Neg, Pow, Sum, At, LaneTerms, GridTerm;
    var f := (m: nat, k: nat) => GridTerm(y, w, r, i, m, k);
    var rows := (m: nat) => Sum(r, (k: nat) => GridTerm(y, w, r, i, m, k));
    RowsOfInput(y, w, r, b, i);
    forall m: nat | m < b
      ensures rows(m) == Sum(r, (k: nat) => f(m, k))
    {
      Congruent(r, (k: nat) => GridTerm(y, w, r, i, m, k), (k: nat) => f(m, k));
    }
    forall k: nat | k < r
      ensures LaneTerms(y, w, r, b, i, j)(k) == Sum(b, (m: nat) => f(m, k))
    {
      LaneColumn(y, w, r, b, q, j, k, i);
      Congruent(b, (m: nat) => GridTerm(y, w, r, i, m, k), (m: nat) => f(m, k));
    }
    Swap(b, r, rows, LaneTerms(y, w, r, b, i, j), f);
  }

  lemma RowsOfInput(y: seq<F>, w: F, r: nat, b: nat, i: nat)
    requires |y| == b * r
    ensures DftAt(y, w, i) == Sum(b, (m: nat) => Sum(r, (k: nat) => GridTerm(y, w, r, i, m, k)))
  {
    hide Add, Mul, Neg, Pow, Sum, At;
    var f := DftTerms(y, w, i);
    var rows := (m: nat) => Sum(r, (k: nat) => GridTerm(y, w, r, i, m, k));
    forall m: nat | m < b
      ensures rows(m) == Sum(r, (k: nat) => f(m * r + k))
    {
      Congruent(r, (k: nat) => GridTerm(y, w, r, i, m, k), (k: nat) => f(m * r + k));
    }
    Blocks(b, r, f, rows);
  }

  lemma LaneColumn(y: seq<F>, w: F, r: nat, b: nat, q: nat, j: nat, k: nat, i: nat)
    requires Pow(w, b * r) == One && i == q * b + j
    ensures LaneTerms(y, w, r, b, i, j)(k) == Sum(b, (m: nat) => GridTerm(y, w, r, i, m, k))
  {
    hide Add, Mul, Neg, Pow, Sum, At, Lane;
    var lane := Lane(y, k, r, b);
    var e: nat := k * i;
    var g := (m: nat) => GridTerm(y, w, r, i, m, k);
    forall m: nat | m < b
      ensures g(m) == Mul(Pow(w, e), DftTerms(lane, Pow(w, r), j)(m))
    {
      LaneEntry(y, k, r, b, m);
      LaneExponent(w, r, b, q, j, k, m, i);
      Regroup(At(y, m * r + k), Pow(Pow(w, r), m * j), Pow(w, e));
    }
    Scale(b, Pow(w, e), DftTerms(lane, Pow(w, r), j), g);
    MulComm(Pow(w, e), DftAt(lane, Pow(w, r), j));
  }

  lemma LaneEntry(y: seq<F>, k: nat, r: nat, b: nat, m: nat)
    requires m < b
    ensures At(Lane(y, k, r, b), m) == At(y, m * r + k)
  {
    assert k + r * m == m * r + k;
  }

  // (m r + k) i = r m j + k i modulo b r, for i = q b + j.
  lemma LaneExponent(w: F, r: nat, b: nat, q: nat, j: nat, k: nat, m: nat, i: nat)
    requires Pow(w, b * r) == One && i == q * b + j
    ensures Pow(w, (m * r + k) * i) == Mul(Pow(Pow(w, r), m * j), Pow(w, k * i))
  {
    hide Mul, Pow;
    var turns, low, high: nat := m * q, r * (m * j), k * i;
    ExponentSplits(m, r, k, q, b, j, i);
    PowMul(w, b * r, turns);
    PowOne(turns);
    PowAdd(w, b * r * turns, low + high);
    PowAdd(w, low, high);
    PowMul(w, r, m * j);
    MulComm(One, Pow(w, low + high));
    MulOne(Pow(w, low + high));
  }

  lemma ExponentSplits(m: nat, r: nat, k: nat, q: nat, b: nat, j: nat, i: nat)
    requires i == q * b + j
    ensures (m * r + k) * i == b * r * (m * q) + (r * (m * j) + k * i)
  {
    assert (m * r + k) * i == m * r * i + k * i;
    assert m * r * i == m * r * (q * b) + m * r * j;
    assert m * r * (q * b) == b * r * (m * q);
    assert m * r * j == r * (m * j);
  }
}
