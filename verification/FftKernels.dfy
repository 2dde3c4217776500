/** The size-r transforms inside one butterfly: twiddle phase and hand-tuned kernels. */
module FftKernels {
  import opened Field
  import opened Arith
  import opened Sums
  import opened Dft

  // ---- The twiddle phase scales lane k by tw^k

  ghost function Twisted(x: seq<F>, tw: F): (z: seq<F>)
    ensures |z| == |x|
  {
    seq(|x|, (k: nat) => Mul(At(x, k), Pow(tw, k)))
  }

  method Twiddle(r: nat, tw: F, lanes: seq<F>) returns (x: seq<F>)
    requires |lanes| == r >= 1
    ensures x == Twisted(lanes, tw)
  {
    hide Add, Mul, Pow, Twisted;
    x := lanes;
    var tw2 := Mul(tw, tw);
    SmallPowers(tw);
    if r == 2 {
      x := x[1 := Mul(x[1], tw)];
      TwistedIs(lanes, tw, x);
    } else if r == 3 {
      x := x[1 := Mul(x[1], tw)];
      x := x[2 := Mul(x[2], tw2)];
      TwistedIs(lanes, tw, x);
    } else if r == 5 {
      var tw3 := Mul(tw2, tw);
      var tw4 := Mul(tw2, tw2);
      x := x[1 := Mul(x[1], tw)];
      x := x[2 := Mul(x[2], tw2)];
      x := x[3 := Mul(x[3], tw3)];
      x := x[4 := Mul(x[4], tw4)];
      TwistedIs(lanes, tw, x);
    } else if r == 7 {
      var tw3 := Mul(tw2, tw);
      var tw4 := Mul(tw2, tw2);
      var tw5 := Mul(tw4, tw);
      var tw6 := Mul(tw3, tw3);
      x := x[1 := Mul(x[1], tw)];
      x := x[2 := Mul(x[2], tw2)];
      x := x[3 := Mul(x[3], tw3)];
      x := x[4 := Mul(x[4], tw4)];
      x := x[5 := Mul(x[5], tw5)];
      x := x[6 := Mul(x[6], tw6)];
      TwistedIs(lanes, tw, x);
    } else {
      var power := tw;
      for k := 1 to r
        invariant |x| == r && power == Pow(tw, k)
        invariant forall i :: 0 < i < k ==> x[i] == Mul(lanes[i], Pow(tw, i))
        invariant forall i :: k <= i < r ==> x[i] == lanes[i]
        invariant x[0] == lanes[0]
      {
        x := x[k := Mul(x[k], power)];
        NextPower(tw, k);
        power := Mul(power, tw);
      }
      TwistedIs(lanes, tw, x);
    }
  }

  lemma TwistedIs(lanes: seq<F>, tw: F, x: seq<F>)
    requires |x| == |lanes| >= 1 && x[0] == lanes[0]
    requires forall i :: 0 < i < |x| ==> x[i] == Mul(lanes[i], Pow(tw, i))
    ensures x == Twisted(lanes, tw)
  {
    hide Add, Mul;
    MulOne(lanes[0]);
    assert Pow(tw, 0) == One;
    forall i: nat | i < |x| ensures x[i] == Twisted(lanes, tw)[i] {
      assert At(lanes, i) == lanes[i];
    }
  }

  lemma NextPower(w: F, k: nat)
    ensures Pow(w, k + 1) == Mul(Pow(w, k), w)
  {
    MulComm(w, Pow(w, k));
  }

  lemma SmallPowers(w: F)
    ensures Pow(w, 0) == One && Pow(w, 1) == w && Pow(w, 2) == Mul(w, w)
    ensures Pow(w, 3) == Mul(Mul(w, w), w)
    ensures Pow(w, 4) == Mul(Mul(w, w), Mul(w, w))
    ensures Pow(w, 5) == Mul(Mul(Mul(w, w), Mul(w, w)), w)
    ensures Pow(w, 6) == Mul(Mul(Mul(w, w), w), Mul(Mul(w, w), w))
  {
    hide Mul;
    assert Pow(w, 0) == One && Pow(w, 1) == Mul(w, One);
    MulOne(w);
    PowAdd(w, 1, 1);
    PowAdd(w, 2, 1);
    PowAdd(w, 2, 2);
    PowAdd(w, 4, 1);
    PowAdd(w, 3, 3);
  }

  // Twisting by the first power changes nothing.
  lemma TwistedByOne(x: seq<F>)
    ensures Twisted(x, One) == x
  {
    hide Mul, Pow;
    forall k: nat | k < |x| ensures Twisted(x, One)[k] == x[k] {
      PowOne(k);
      MulOne(x[k]);
    }
  }

  // ---- The transform of a few points, with exponents reduced

  lemma PowReduced(w: F, r: nat, e: nat)
    requires r > 0 && Pow(w, r) == One
    ensures Pow(w, e) == Pow(w, e % r)
  {
    hide Mul, Pow;
    DivMod(e, r);
    var q, m := e / r, e % r;
    assert e == r * q + m;
    PowAdd(w, r * q, m);
    PowMul(w, r, q);
    PowOne(q);
    MulComm(One, Pow(w, m));
    MulOne(Pow(w, m));
  }

  // The powers w^0, w^1, ..., w^(r-1).
  ghost predicate IsPowerTable(p: seq<F>, w: F, r: nat) {
    |p| >= r && forall q: nat :: q < r ==> p[q] == Pow(w, q)
  }

  ghost function TableTerms(z: seq<F>, p: seq<F>, r: nat, q: nat): nat -> F
    requires |p| >= r > 0
  {
    (k: nat) => Mul(At(z, k), p[k * q % r])
  }

  lemma ByTable(z: seq<F>, p: seq<F>, w: F, r: nat, q: nat)
    requires |z| == r > 0 && Pow(w, r) == One && IsPowerTable(p, w, r)
    ensures DftAt(z, w, q) == Sum(r, TableTerms(z, p, r, q))
  {
    hide Add, Mul, Pow, Sum, At;
    forall k: nat | k < r
      ensures DftTerms(z, w, q)(k) == TableTerms(z, p, r, q)(k)
    {
      TableEntry(p, w, r, k * q);
    }
    Congruent(r, DftTerms(z, w, q), TableTerms(z, p, r, q));
  }

  lemma TableEntry(p: seq<F>, w: F, r: nat, e: nat)
    requires r > 0 && Pow(w, r) == One && IsPowerTable(p, w, r)
    ensures Pow(w, e) == p[e % r]
  {
    hide Pow;
    PowReduced(w, r, e);
  }

  lemma Two(z: seq<F>, p: seq<F>, w: F, q: nat)
    requires |z| == 2 && Pow(w, 2) == One && IsPowerTable(p, w, 2) && q < 2
    ensures DftAt(z, w, q) == Add(z[0], Mul(z[1], p[q]))
  {
    hide Add, Mul, Pow, Sum, DftAt;
    ByTable(z, p, w, 2, q);
    var t := TableTerms(z, p, 2, q);
    SumStep(0, t); SumStep(1, t);
    LeadingTerm(z, p, w, 2, q);
    assert 1 * q % 2 == q;
  }

  lemma Three(z: seq<F>, p: seq<F>, w: F, q: nat)
    requires |z| == 3 && Pow(w, 3) == One && IsPowerTable(p, w, 3)
    ensures DftAt(z, w, q) == Add(Add(z[0], Mul(z[1], p[q % 3])), Mul(z[2], p[2 * q % 3]))
  {
    hide Add, Mul, Pow, Sum, DftAt;
    ByTable(z, p, w, 3, q);
    var t := TableTerms(z, p, 3, q);
    SumStep(0, t); SumStep(1, t); SumStep(2, t);
    LeadingTerm(z, p, w, 3, q);
  }

  lemma Five(z: seq<F>, p: seq<F>, w: F, q: nat)
    requires |z| == 5 && Pow(w, 5) == One && IsPowerTable(p, w, 5)
    ensures DftAt(z, w, q) ==
      Add(Add(Add(Add(z[0], Mul(z[1], p[q % 5])), Mul(z[2], p[2 * q % 5])),
        Mul(z[3], p[3 * q % 5])), Mul(z[4], p[4 * q % 5]))
  {
    hide Add, Mul, Pow, Sum, DftAt;
    ByTable(z, p, w, 5, q);
    var t := TableTerms(z, p, 5, q);
    SumStep(0, t); SumStep(1, t); SumStep(2, t); SumStep(3, t); SumStep(4, t);
    LeadingTerm(z, p, w, 5, q);
  }

  lemma Seven(z: seq<F>, p: seq<F>, w: F, q: nat)
    requires |z| == 7 && Pow(w, 7) == One && IsPowerTable(p, w, 7)
    ensures DftAt(z, w, q) ==
      Add(Add(Add(Add(Add(Add(z[0], Mul(z[1], p[q % 7])), Mul(z[2], p[2 * q % 7])),
        Mul(z[3], p[3 * q % 7])), Mul(z[4], p[4 * q % 7])), Mul(z[5], p[5 * q % 7])), Mul(z[6], p[6 * q % 7]))
  {
    hide Add, Mul, Pow, Sum, DftAt;
    ByTable(z, p, w, 7, q);
    var t := TableTerms(z, p, 7, q);
    SumStep(0, t); SumStep(1, t); SumStep(2, t); SumStep(3, t);
    SumStep(4, t); SumStep(5, t); SumStep(6, t);
    LeadingTerm(z, p, w, 7, q);
  }

  lemma LeadingTerm(z: seq<F>, p: seq<F>, w: F, r: nat, q: nat)
    requires |z| == r > 0 && IsPowerTable(p, w, r)
    ensures Add(Zero, TableTerms(z, p, r, q)(0)) == z[0]
  {
    hide Add, Mul;
    assert 0 * q == 0;
    assert Pow(w, 0) == One;
    MulOne(z[0]);
    AddComm(Zero, z[0]);
    AddZero(z[0]);
  }

  // ---- Roots of unity

  // A nontrivial square root of one is minus one.
  lemma MinusOneRoot(w: F)
    requires Pow(w, 2) == One && w != One
    ensures w == Neg(One)
  {
    hide Add, Mul, Neg, Sum, Pow;
    RootsCancel(w, 2);
    SumStep(0, PowerTerms(w)); SumStep(1, PowerTerms(w));
    SmallPowers(w);
    AddComm(Zero, One);
    AddZero(One);
    NegUnique(One, w);
  }

  lemma ThreeRootsCancel(w: F)
    requires Pow(w, 3) == One && w != One
    ensures Add(Add(One, Pow(w, 1)), Pow(w, 2)) == Zero
  {
    hide Add, Mul, Neg, Sum, Pow;
    RootsCancel(w, 3);
    SumStep(0, PowerTerms(w)); SumStep(1, PowerTerms(w)); SumStep(2, PowerTerms(w));
    SmallPowers(w);
    AddComm(Zero, One);
    AddZero(One);
  }

  // ---- Conjugate pairs: (x + y)(u + v)/2 + (x - y)(u - v)/2 = x u + y v

  function Cosine(u: F, v: F, half: F): F { Mul(Add(u, v), half) }
  function Sine(u: F, v: F, half: F): F { Mul(Sub(u, v), half) }

  ghost predicate IsHalf(half: F) {
    Add(half, half) == One
  }

  lemma PairExpanded(x: F, y: F, u: F, v: F)
    ensures Add(Mul(Add(x, y), Add(u, v)), Mul(Sub(x, y), Sub(u, v))) ==
            Add(Add(Mul(x, u), Mul(y, v)), Add(Mul(x, u), Mul(y, v)))
  {
    CrossProducts(x, y, u, v);
    PairSum(Mul(x, u), Mul(x, v), Mul(y, u), Mul(y, v));
  }

  lemma CrossProducts(x: F, y: F, u: F, v: F)
    ensures Mul(Add(x, y), Add(u, v)) == Add(Add(Mul(x, u), Mul(y, v)), Add(Mul(x, v), Mul(y, u)))
    ensures Mul(Sub(x, y), Sub(u, v)) == Sub(Add(Mul(x, u), Mul(y, v)), Add(Mul(x, v), Mul(y, u)))
  {
    hide Add, Mul, Neg;
    ProductOfSums(x, y, u, v);
    ProductOfSums(x, Neg(y), u, Neg(v));
    SignedProducts(x, y, u, v);
    NegAdd(Mul(x, v), Mul(y, u));
  }

  lemma ProductOfSums(x: F, y: F, u: F, v: F)
    ensures Mul(Add(x, y), Add(u, v)) == Add(Add(Mul(x, u), Mul(y, v)), Add(Mul(x, v), Mul(y, u)))
  {
    hide Add, Mul;
    Distributes(Add(x, y), u, v);
    MulComm(Add(x, y), u);
    MulComm(Add(x, y), v);
    Distributes(u, x, y);
    Distributes(v, x, y);
    MulComm(u, x); MulComm(u, y); MulComm(v, x); MulComm(v, y);
    AddComm(Mul(x, v), Mul(y, v));
    AddInterchange(Mul(x, u), Mul(y, u), Mul(y, v), Mul(x, v));
    AddComm(Mul(y, u), Mul(x, v));
  }

  lemma SignedProducts(x: F, y: F, u: F, v: F)
    ensures Mul(Neg(y), Neg(v)) == Mul(y, v) && Mul(x, Neg(v)) == Neg(Mul(x, v)) && Mul(Neg(y), u) == Neg(Mul(y, u))
  {
    MulNeg(x, v);
    MulComm(Neg(y), u);
    MulNeg(u, y);
    MulComm(u, y);
    MulNeg(Neg(y), v);
    MulComm(Neg(y), v);
    MulNeg(v, y);
    MulComm(v, y);
    NegNeg(Mul(y, v));
  }

  lemma PairSum(a: F, b: F, c: F, d: F)
    ensures Add(Add(Add(a, d), Add(b, c)), Sub(Add(a, d), Add(b, c))) == Add(Add(a, d), Add(a, d))
  {
    SumAndDifference(Add(a, d), Add(b, c));
  }

  lemma SumAndDifference(s: F, t: F)
    ensures Add(Add(s, t), Sub(s, t)) == Add(s, s)
  { Ring(); }

  lemma Halved(s: F, half: F)
    requires IsHalf(half)
    ensures Mul(Add(s, s), half) == s
  {
    DoubleSwap(s, half);
    MulOne(s);
  }

  lemma DoubleSwap(s: F, half: F)
    ensures Mul(Add(s, s), half) == Mul(s, Add(half, half))
  { Ring(); }

  lemma Pair(x: F, y: F, u: F, v: F, half: F)
    requires IsHalf(half)
    ensures Add(Mul(Add(x, y), Cosine(u, v, half)), Mul(Sub(x, y), Sine(u, v, half))) == Add(Mul(x, u), Mul(y, v))
    ensures Sub(Mul(Add(x, y), Cosine(u, v, half)), Mul(Sub(x, y), Sine(u, v, half))) == Add(Mul(x, v), Mul(y, u))
  {
    hide Add, Mul, Neg;
    PairExpanded(x, y, u, v);
    HalfOut(Add(x, y), Add(u, v), Sub(x, y), Sub(u, v), half);
    Halved(Add(Mul(x, u), Mul(y, v)), half);
    PairExpanded(x, y, v, u);
    AddComm(u, v);
    SubFlips(u, v);
    NegatedPair(Mul(Add(x, y), Cosine(u, v, half)), Sub(x, y), Sub(u, v), half);
    HalfOut(Add(x, y), Add(v, u), Sub(x, y), Sub(v, u), half);
    Halved(Add(Mul(x, v), Mul(y, u)), half);
  }

  lemma HalfOut(a: F, b: F, c: F, d: F, half: F)
    ensures Add(Mul(a, Mul(b, half)), Mul(c, Mul(d, half))) == Mul(Add(Mul(a, b), Mul(c, d)), half)
  { Ring(); }

  lemma SubFlips(u: F, v: F)
    ensures Sub(v, u) == Neg(Sub(u, v))
  { Ring(); }

  lemma NegatedPair(s: F, c: F, d: F, half: F)
    ensures Sub(s, Mul(c, Mul(d, half))) == Add(s, Mul(c, Mul(Neg(d), half)))
  { Ring(); }

  // ---- The kernels. Each returns the transform of its lanes at w, the r-th root in use.

  method Radix2(x: seq<F>, ghost w: F) returns (y: seq<F>)
    requires |x| == 2 && Pow(w, 2) == One && w != One
    ensures y == DftSeq(x, w)
  {
    hide Add, Mul, Neg, Pow, DftAt;
    ghost var p := [One, w];
    SmallPowers(w);
    MinusOneRoot(w);
    Two(x, p, w, 0);
    Two(x, p, w, 1);
    MulOne(x[1]);
    MulNeg(x[1], One);
    y := [Add(x[0], x[1]), Sub(x[0], x[1])];
  }

  method Radix3(x: seq<F>, p: seq<F>, ghost w: F) returns (y: seq<F>)
    requires |x| == 3 && Pow(w, 3) == One && w != One && IsPowerTable(p, w, 3)
    ensures y == DftSeq(x, w)
  {
    hide Add, Mul, Neg, Pow, DftAt;
    var s := Add(x[1], x[2]);
    var t := Add(Mul(x[1], p[1]), Mul(x[2], p[2]));
    y := [Add(x[0], s), Add(x[0], t), Sub(Sub(x[0], s), t)];
    SmallPowers(w);
    ThreeRootsCancel(w);
    Three(x, p, w, 0);
    Three(x, p, w, 1);
    Three(x, p, w, 2);
    Radix3Identity(x[0], x[1], x[2], p[1], p[2]);
  }

  lemma Radix3Identity(x0: F, x1: F, x2: F, u: F, v: F)
    requires Add(Add(One, u), v) == Zero
    ensures Add(x0, Add(x1, x2)) == Add(Add(x0, Mul(x1, One)), Mul(x2, One))
    ensures Add(x0, Add(Mul(x1, u), Mul(x2, v))) == Add(Add(x0, Mul(x1, u)), Mul(x2, v))
    ensures Sub(Sub(x0, Add(x1, x2)), Add(Mul(x1, u), Mul(x2, v))) == Add(Add(x0, Mul(x1, v)), Mul(x2, u))
  {
    hide Add, Mul, Neg;
    MulOne(x1);
    MulOne(x2);
    AddAssoc(x0, x1, x2);
    AddAssoc(x0, Mul(x1, u), Mul(x2, v));
    LastRoot(u, v);
    LastRootNeg(x1, u, v);
    LastRootNeg(x2, v, u);
    AddComm(u, v);
    Assemble3(x0, x1, x2, Mul(x1, u), Mul(x2, v));
  }

  lemma LastRoot(u: F, v: F)
    requires Add(Add(One, u), v) == Zero
    ensures v == Neg(Add(One, u)) && u == Neg(Add(One, v))
  {
    NegUnique(Add(One, u), v);
    assert Add(Add(One, v), u) == Add(Add(One, u), v) by { Additions(); }
    NegUnique(Add(One, v), u);
  }

  lemma LastRootNeg(x: F, u: F, v: F)
    requires v == Neg(Add(One, u))
    ensures Mul(x, v) == Neg(Add(x, Mul(x, u)))
  { Ring(); }

  lemma Assemble3(x0: F, x1: F, x2: F, s: F, t: F)
    ensures Sub(Sub(x0, Add(x1, x2)), Add(s, t)) == Add(Add(x0, Neg(Add(x1, s))), Neg(Add(x2, t)))
  { Ring(); }

  // The constants of the radix-5 kernel, layout as the kernel reads it.
  function Winograd5(p: seq<F>, half: F): seq<F>
    requires |p| >= 5
  {
    [Cosine(p[1], p[4], half), Cosine(p[2], p[3], half), Sine(p[1], p[4], half), Sine(p[2], p[3], half),
     Add(Cosine(p[1], p[4], half), Cosine(p[2], p[3], half)),
     Add(Sine(p[1], p[4], half), Sine(p[2], p[3], half))]
  }

  method Radix5(x: seq<F>, cc: seq<F>, ghost p: seq<F>, ghost half: F, ghost w: F) returns (y: seq<F>)
    requires |x| == 5 && Pow(w, 5) == One && IsPowerTable(p, w, 5) && IsHalf(half)
    requires cc == Winograd5(p, half)
    ensures y == DftSeq(x, w)
  {
    hide Add, Mul, Neg, Pow, DftAt, Cosine, Sine;
    var a := Add(x[1], x[4]);
    var b := Add(x[2], x[3]);
    var c := Sub(x[1], x[4]);
    var d := Sub(x[2], x[3]);
    var k1 := Mul(a, cc[0]);
    var k2 := Mul(b, cc[1]);
    var k3 := Mul(Add(a, b), cc[4]);
    var p1 := Add(k1, k2);
    var p2 := Sub(Sub(k3, k1), k2);
    var m1 := Mul(c, cc[2]);
    var m2 := Mul(d, cc[3]);
    var m3 := Mul(Sub(c, d), cc[5]);
    var q1 := Add(m1, m2);
    var q2 := Add(Sub(m3, m1), m2);
    y := [Add(Add(x[0], a), b), Add(Add(x[0], p1), q1), Add(Add(x[0], p2), q2),
          Sub(Add(x[0], p2), q2), Sub(Add(x[0], p1), q1)];
    CosineKaratsuba(a, b, cc[0], cc[1]);
    SineKaratsuba(c, d, cc[2], cc[3]);
    FivePoints(x, p, w, half);
  }

  lemma CosineKaratsuba(a: F, b: F, u: F, v: F)
    ensures Sub(Sub(Mul(Add(a, b), Add(u, v)), Mul(a, u)), Mul(b, v)) == Add(Mul(a, v), Mul(b, u))
  {
    CrossProducts(a, b, u, v);
    DropTwo(Mul(a, u), Mul(b, v), Add(Mul(a, v), Mul(b, u)));
  }

  lemma DropTwo(a: F, b: F, c: F)
    ensures Sub(Sub(Add(Add(a, b), c), a), b) == c
  { Ring(); }

  lemma SineKaratsuba(c: F, d: F, u: F, v: F)
    ensures Add(Sub(Mul(Sub(c, d), Add(u, v)), Mul(c, u)), Mul(d, v)) == Sub(Mul(c, v), Mul(d, u))
  {
    assert Mul(Sub(c, d), Add(u, v)) == Add(Sub(Mul(c, u), Mul(d, v)), Sub(Mul(c, v), Mul(d, u))) by {
      SineProducts(c, d, u, v);
    }
    DropTwo(Mul(c, u), Neg(Mul(d, v)), Sub(Mul(c, v), Mul(d, u)));
    NegNeg(Mul(d, v));
  }

  lemma SineProducts(c: F, d: F, u: F, v: F)
    ensures Mul(Sub(c, d), Add(u, v)) == Add(Sub(Mul(c, u), Mul(d, v)), Sub(Mul(c, v), Mul(d, u)))
  { Ring(); }

  // The five outputs, from the four conjugate pairs.
  lemma FivePoints(x: seq<F>, p: seq<F>, w: F, half: F)
    requires |x| == 5 && Pow(w, 5) == One && IsPowerTable(p, w, 5) && IsHalf(half)
    ensures
      var a, b, c, d := Add(x[1], x[4]), Add(x[2], x[3]), Sub(x[1], x[4]), Sub(x[2], x[3]);
      var ah, bh := Cosine(p[1], p[4], half), Cosine(p[2], p[3], half);
      var gh, dh := Sine(p[1], p[4], half), Sine(p[2], p[3], half);
      && Add(Add(x[0], a), b) == DftAt(x, w, 0)
      && Add(Add(x[0], Add(Mul(a, ah), Mul(b, bh))), Add(Mul(c, gh), Mul(d, dh))) == DftAt(x, w, 1)
      && Add(Add(x[0], Add(Mul(a, bh), Mul(b, ah))), Sub(Mul(c, dh), Mul(d, gh))) == DftAt(x, w, 2)
      && Sub(Add(x[0], Add(Mul(a, bh), Mul(b, ah))), Sub(Mul(c, dh), Mul(d, gh))) == DftAt(x, w, 3)
      && Sub(Add(x[0], Add(Mul(a, ah), Mul(b, bh))), Add(Mul(c, gh), Mul(d, dh))) == DftAt(x, w, 4)
  {
    hide Add, Mul, Neg, Pow, DftAt, Cosine, Sine;
    var a, b, c, d := Add(x[1], x[4]), Add(x[2], x[3]), Sub(x[1], x[4]), Sub(x[2], x[3]);
    var ah, bh := Cosine(p[1], p[4], half), Cosine(p[2], p[3], half);
    var gh, dh := Sine(p[1], p[4], half), Sine(p[2], p[3], half);
    Pair(x[1], x[4], p[1], p[4], half);
    Pair(x[1], x[4], p[2], p[3], half);
    Pair(x[2], x[3], p[1], p[4], half);
    Pair(x[2], x[3], p[2], p[3], half);
    SmallPowers(w);
    Five(x, p, w, 0); Five(x, p, w, 1); Five(x, p, w, 2); Five(x, p, w, 3); Five(x, p, w, 4);
    MulOne(x[1]); MulOne(x[2]); MulOne(x[3]); MulOne(x[4]);
    Order5(x[0], x[1], x[4], x[2], x[3]);
    Order5(x[0], Mul(x[1], p[1]), Mul(x[4], p[4]), Mul(x[2], p[2]), Mul(x[3], p[3]));
    Order5(x[0], Mul(x[1], p[2]), Mul(x[4], p[3]), Mul(x[2], p[4]), Mul(x[3], p[1]));
    Order5(x[0], Mul(x[1], p[3]), Mul(x[4], p[2]), Mul(x[2], p[1]), Mul(x[3], p[4]));
    Order5(x[0], Mul(x[1], p[4]), Mul(x[4], p[1]), Mul(x[2], p[3]), Mul(x[3], p[2]));
    Spread(x[0], Mul(a, ah), Mul(b, bh), Mul(c, gh), Mul(d, dh));
    Spread(x[0], Mul(a, bh), Mul(b, ah), Mul(c, dh), Neg(Mul(d, gh)));
    NegNeg(Mul(d, gh));
  }

  lemma Order5(x: F, a: F, b: F, c: F, d: F)
    ensures Add(Add(x, Add(a, b)), Add(c, d)) == Add(Add(Add(Add(x, a), c), d), b)
  { Additions(); }

  lemma Spread(x: F, a: F, b: F, c: F, d: F)
    ensures Add(Add(x, Add(a, b)), Add(c, d)) == Add(Add(x, Add(a, c)), Add(b, d))
    ensures Sub(Add(x, Add(a, b)), Add(c, d)) == Add(Add(x, Sub(a, c)), Sub(b, d))
  {
    assert Add(Add(x, Add(a, b)), Add(c, d)) == Add(Add(x, Add(a, c)), Add(b, d)) by { Additions(); }
    NegAdd(c, d);
    assert Add(Add(x, Add(a, b)), Add(Neg(c), Neg(d))) == Add(Add(x, Add(a, Neg(c))), Add(b, Neg(d))) by { Additions(); }
  }

  // ---- Radix 7

  // w^e for any integer e, from the table of the first seven powers.
  function Root7(p: seq<F>, e: int): F
    requires |p| >= 7
  {
    p[e % 7]
  }

  function Cosine7(p: seq<F>, half: F, jk: int): F
    requires |p| >= 7
  {
    Cosine(Root7(p, jk), Root7(p, -jk), half)
  }

  function Sine7(p: seq<F>, half: F, jk: int): F
    requires |p| >= 7
  {
    Sine(Root7(p, jk), Root7(p, -jk), half)
  }

  // Constant i: nine cosines, then nine sines, row-major over (j, k) in {1, 2, 3} x {1, 2, 3}.
  function Winograd7At(p: seq<F>, half: F, i: nat): F
    requires |p| >= 7 && i < 18
  {
    var jk := (i % 9 / 3 + 1) * (i % 3 + 1);
    if i < 9 then Cosine7(p, half, jk) else Sine7(p, half, jk)
  }

  method Winograd7(p: seq<F>, half: F) returns (cc: seq<F>)
    requires |p| >= 7
    ensures |cc| == 18 && forall i: nat :: i < 18 ==> cc[i] == Winograd7At(p, half, i)
  {
    hide Cosine7, Sine7;
    cc := [];
    for j := 1 to 4
      invariant |cc| == 3 * (j - 1) && forall i: nat :: i < |cc| ==> cc[i] == Winograd7At(p, half, i)
    {
      for k := 1 to 4
        invariant |cc| == 3 * (j - 1) + (k - 1) && forall i: nat :: i < |cc| ==> cc[i] == Winograd7At(p, half, i)
      {
        var jk := j * k;
        cc := cc + [Cosine7(p, half, jk)];
      }
    }
    for j := 1 to 4
      invariant |cc| == 9 + 3 * (j - 1) && forall i: nat :: i < |cc| ==> cc[i] == Winograd7At(p, half, i)
    {
      for k := 1 to 4
        invariant |cc| == 9 + 3 * (j - 1) + (k - 1) && forall i: nat :: i < |cc| ==> cc[i] == Winograd7At(p, half, i)
      {
        var jk := j * k;
        cc := cc + [Sine7(p, half, jk)];
      }
    }
  }

  ghost predicate IsWinograd7(cc: seq<F>, p: seq<F>, half: F)
    requires |p| >= 7
  {
    |cc| == 18 && forall i: nat :: i < 18 ==> cc[i] == Winograd7At(p, half, i)
  }

  method Radix7(x: seq<F>, cc: seq<F>, ghost p: seq<F>, ghost half: F, ghost w: F) returns (y: seq<F>)
    requires |x| == 7 && Pow(w, 7) == One && IsPowerTable(p, w, 7) && IsHalf(half)
    requires IsWinograd7(cc, p, half)
    ensures y == DftSeq(x, w)
  {
    hide Add, Mul, Neg, Pow, DftAt, Winograd7At, IsPowerTable;
    var a1 := Add(x[1], x[6]);
    var a2 := Add(x[2], x[5]);
    var a3 := Add(x[3], x[4]);
    var b1 := Sub(x[1], x[6]);
    var b2 := Sub(x[2], x[5]);
    var b3 := Sub(x[3], x[4]);
    var s1 := Add(Add(Mul(a1, cc[0]), Mul(a2, cc[3])), Mul(a3, cc[6]));
    var s2 := Add(Add(Mul(a1, cc[1]), Mul(a2, cc[4])), Mul(a3, cc[7]));
    var s3 := Add(Add(Mul(a1, cc[2]), Mul(a2, cc[5])), Mul(a3, cc[8]));
    var t1 := Add(Add(Mul(b1, cc[9]), Mul(b2, cc[12])), Mul(b3, cc[15]));
    var t2 := Add(Add(Mul(b1, cc[10]), Mul(b2, cc[13])), Mul(b3, cc[16]));
    var t3 := Add(Add(Mul(b1, cc[11]), Mul(b2, cc[14])), Mul(b3, cc[17]));
    y := [Add(Add(Add(x[0], a1), a2), a3),
          Add(Add(x[0], s1), t1), Add(Add(x[0], s2), t2), Add(Add(x[0], s3), t3),
          Sub(Add(x[0], s3), t3), Sub(Add(x[0], s2), t2), Sub(Add(x[0], s1), t1)];
    SevenSum(x, p, w);
    SevenOutputs(x, cc, p, half, w, 1);
    SevenOutputs(x, cc, p, half, w, 2);
    SevenOutputs(x, cc, p, half, w, 3);
  }

  lemma SevenSum(x: seq<F>, p: seq<F>, w: F)
    requires |x| == 7 && Pow(w, 7) == One && IsPowerTable(p, w, 7)
    ensures Add(Add(Add(x[0], Add(x[1], x[6])), Add(x[2], x[5])), Add(x[3], x[4])) == DftAt(x, w, 0)
  {
    hide Add, Mul, Neg, Pow, DftAt;
    SmallPowers(w);
    Seven(x, p, w, 0);
    MulOne(x[1]); MulOne(x[2]); MulOne(x[3]); MulOne(x[4]); MulOne(x[5]); MulOne(x[6]);
    Order7(x[0], x[1], x[2], x[3], x[4], x[5], x[6]);
  }

  lemma Order7(x: F, a: F, b: F, c: F, d: F, e: F, f: F)
    ensures Add(Add(Add(x, Add(a, f)), Add(b, e)), Add(c, d)) == Add(Add(Add(Add(Add(Add(x, a), b), c), d), e), f)
  {
    hide Add;
    AddAssoc(x, a, f);
    Order5(Add(x, a), f, b, e, Zero);
    assert Add(Add(Add(x, a), f), Add(b, e)) == Add(Add(Add(Add(x, a), b), e), f) by { Additions(); }
    assert Add(Add(Add(Add(Add(x, a), b), e), f), Add(c, d)) == Add(Add(Add(Add(Add(Add(x, a), b), c), d), e), f) by {
      TailOrder(Add(Add(x, a), b), c, d, e, f);
    }
  }

  lemma TailOrder(x: F, c: F, d: F, e: F, f: F)
    ensures Add(Add(Add(x, e), f), Add(c, d)) == Add(Add(Add(Add(x, c), d), e), f)
  { Additions(); }

  // Outputs k and 7 - k, from the three conjugate pairs.
  lemma SevenOutputs(x: seq<F>, cc: seq<F>, p: seq<F>, half: F, w: F, k: int)
    requires |x| == 7 && Pow(w, 7) == One && IsPowerTable(p, w, 7) && IsHalf(half)
    requires IsWinograd7(cc, p, half) && 1 <= k <= 3
    ensures
      var s := Add(Add(Mul(Add(x[1], x[6]), cc[k - 1]), Mul(Add(x[2], x[5]), cc[k + 2])), Mul(Add(x[3], x[4]), cc[k + 5]));
      var t := Add(Add(Mul(Sub(x[1], x[6]), cc[k + 8]), Mul(Sub(x[2], x[5]), cc[k + 11])), Mul(Sub(x[3], x[4]), cc[k + 14]));
      Add(Add(x[0], s), t) == DftAt(x, w, k) && Sub(Add(x[0], s), t) == DftAt(x, w, 7 - k)
  {
    hide Add, Mul, Neg, Pow, DftAt, Cosine, Sine, IsPowerTable, Root7, Winograd7At;
    assert |p| >= 7 by { TableLength(p, w, 7); }
    Constants(cc, p, half, 1, k);
    Constants(cc, p, half, 2, k);
    Constants(cc, p, half, 3, k);
    var u1, v1 := Root7(p, k), Root7(p, -1 * k);
    var u2, v2 := Root7(p, 2 * k), Root7(p, -2 * k);
    var u3, v3 := Root7(p, 3 * k), Root7(p, -3 * k);
    Pair(x[1], x[6], u1, v1, half);
    Pair(x[2], x[5], u2, v2, half);
    Pair(x[3], x[4], u3, v3, half);
    SevenPaired(x, p, w, k);
    Order7(x[0], Mul(x[1], u1), Mul(x[2], u2), Mul(x[3], u3), Mul(x[4], v3), Mul(x[5], v2), Mul(x[6], v1));
    Order7(x[0], Mul(x[1], v1), Mul(x[2], v2), Mul(x[3], v3), Mul(x[4], u3), Mul(x[5], u2), Mul(x[6], u1));
    Spread3(x[0], Mul(Add(x[1], x[6]), cc[k - 1]), Mul(Add(x[2], x[5]), cc[k + 2]), Mul(Add(x[3], x[4]), cc[k + 5]),
      Mul(Sub(x[1], x[6]), cc[k + 8]), Mul(Sub(x[2], x[5]), cc[k + 11]), Mul(Sub(x[3], x[4]), cc[k + 14]));
  }

  // Lanes j and 7 - j meet conjugate roots.
  lemma SevenPaired(x: seq<F>, p: seq<F>, w: F, k: int)
    requires |x| == 7 && Pow(w, 7) == One && IsPowerTable(p, w, 7) && 1 <= k <= 3
    ensures
      var u1, u2, u3 := Root7(p, k), Root7(p, 2 * k), Root7(p, 3 * k);
      var v1, v2, v3 := Root7(p, -1 * k), Root7(p, -2 * k), Root7(p, -3 * k);
      && DftAt(x, w, k) ==
         Add(Add(Add(Add(Add(Add(x[0], Mul(x[1], u1)), Mul(x[2], u2)), Mul(x[3], u3)),
           Mul(x[4], v3)), Mul(x[5], v2)), Mul(x[6], v1))
      && DftAt(x, w, 7 - k) ==
         Add(Add(Add(Add(Add(Add(x[0], Mul(x[1], v1)), Mul(x[2], v2)), Mul(x[3], v3)),
           Mul(x[4], u3)), Mul(x[5], u2)), Mul(x[6], u1))
  {
    hide Add, Mul, Neg, Pow, DftAt;
    Seven(x, p, w, k);
    Seven(x, p, w, 7 - k);
    Residues7(k);
  }

  lemma Residues7(k: int)
    requires 1 <= k <= 3
    ensures 4 * k % 7 == (-3 * k) % 7 && 5 * k % 7 == (-2 * k) % 7 && 6 * k % 7 == (-1 * k) % 7
    ensures (7 - k) % 7 == (-1 * k) % 7 && 2 * (7 - k) % 7 == (-2 * k) % 7 && 3 * (7 - k) % 7 == (-3 * k) % 7
    ensures 4 * (7 - k) % 7 == 3 * k % 7 && 5 * (7 - k) % 7 == 2 * k % 7 && 6 * (7 - k) % 7 == k % 7
  {}

  lemma TableLength(p: seq<F>, w: F, r: nat)
    requires IsPowerTable(p, w, r)
    ensures |p| >= r
  {}

  lemma Constants(cc: seq<F>, p: seq<F>, half: F, j: int, k: int)
    requires |p| >= 7 && IsWinograd7(cc, p, half) && 1 <= j <= 3 && 1 <= k <= 3
    ensures cc[3 * (j - 1) + (k - 1)] == Cosine(Root7(p, j * k), Root7(p, -j * k), half)
    ensures cc[9 + 3 * (j - 1) + (k - 1)] == Sine(Root7(p, j * k), Root7(p, -j * k), half)
  {
    hide Cosine, Sine, Root7;
    var i := 3 * (j - 1) + (k - 1);
    assert i % 9 / 3 + 1 == j && i % 3 + 1 == k && (9 + i) % 9 == i && (9 + i) % 3 + 1 == k;
    assert cc[i] == Winograd7At(p, half, i) && cc[9 + i] == Winograd7At(p, half, 9 + i);
    assert -(j * k) == -j * k;
  }

  lemma Spread3(x: F, a: F, b: F, c: F, d: F, e: F, f: F)
    ensures Add(Add(x, Add(Add(a, b), c)), Add(Add(d, e), f)) == Add(Add(Add(x, Add(a, d)), Add(b, e)), Add(c, f))
    ensures Sub(Add(x, Add(Add(a, b), c)), Add(Add(d, e), f)) == Add(Add(Add(x, Sub(a, d)), Sub(b, e)), Sub(c, f))
  {
    hide Add, Neg;
    SpreadSums(x, a, b, c, d, e, f);
    NegAdd(Add(d, e), f);
    NegAdd(d, e);
    SpreadSums(x, a, b, c, Neg(d), Neg(e), Neg(f));
  }

  lemma SpreadSums(x: F, a: F, b: F, c: F, d: F, e: F, f: F)
    ensures Add(Add(x, Add(Add(a, b), c)), Add(Add(d, e), f)) == Add(Add(Add(x, Add(a, d)), Add(b, e)), Add(c, f))
  {
    hide Add;
    AddInterchange(Add(a, b), c, Add(d, e), f);
    AddInterchange(a, b, d, e);
    AddAssoc(x, Add(Add(a, b), c), Add(Add(d, e), f));
    AddAssoc(x, Add(Add(a, d), Add(b, e)), Add(c, f));
    AddAssoc(x, Add(a, d), Add(b, e));
  }

  /** The quadratic fallback for radices without a tuned kernel. */
  method NaiveKernel(x: seq<F>, p: seq<F>, ghost w: F) returns (y: seq<F>)
    requires |x| >= 1 && IsPowerTable(p, w, |x|)
    ensures y == DftSeq(x, w)
  {
    hide Add, Mul, Neg, Pow, DftAt;
    var r := |x|;
    y := [];
    for q := 0 to r
      invariant |y| == q && forall i: nat :: i < q ==> y[i] == DftAt(x, w, i)
    {
      var wq := p[q];
      var val := x[0];
      var power := wq;
      FirstTerm(x, w, q);
      SmallPowers(wq);
      for k := 1 to r
        invariant val == Sum(k, DftTerms(x, w, q)) && power == Pow(wq, k)
      {
        hide Sum;
        SumStep(k, DftTerms(x, w, q));
        TermByPower(x, w, q, k);
        val := Add(val, Mul(x[k], power));
        NextPower(wq, k);
        power := Mul(power, wq);
      }
      DftAtIs(x, w, q);
      y := y + [val];
    }
  }

  lemma DftAtIs(x: seq<F>, w: F, q: nat)
    ensures DftAt(x, w, q) == Sum(|x|, DftTerms(x, w, q))
  {}

  lemma FirstTerm(x: seq<F>, w: F, q: nat)
    requires |x| >= 1
    ensures Sum(1, DftTerms(x, w, q)) == x[0]
  {
    hide Add, Mul;
    SumStep(0, DftTerms(x, w, q));
    assert 0 * q == 0 && Pow(w, 0) == One;
    MulOne(x[0]);
    AddComm(Zero, x[0]);
    AddZero(x[0]);
  }

  lemma TermByPower(x: seq<F>, w: F, q: nat, k: nat)
    requires k < |x|
    ensures DftTerms(x, w, q)(k) == Mul(x[k], Pow(Pow(w, q), k))
  {
    hide Mul, Pow;
    PowMul(w, q, k);
    assert q * k == k * q;
  }
}
