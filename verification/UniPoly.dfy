/** Univariate polynomials: Horner evaluation, compression and evaluation from a hint. */
module UniPoly {
  import opened Field
  import opened Sums

  // The value at x of the polynomial with coefficients from low degree to high.
  function Value(coeffs: seq<F>, x: F): F {
    if |coeffs| == 0 then Zero else Add(coeffs[0], Mul(x, Value(coeffs[1..], x)))
  }

  ghost function Monomials(coeffs: seq<F>, x: F): nat -> F {
    (i: nat) => Mul(At(coeffs, i), Pow(x, i))
  }

  /** The nested form is the sum of the monomials. */
  lemma {:induction false} ValueIsSum(coeffs: seq<F>, n: nat, x: F)
    requires |coeffs| <= n
    ensures Value(coeffs, x) == Sum(n, Monomials(coeffs, x))
  {
    hide Add, Mul, Neg, Pow;
    if |coeffs| == 0 {
      forall i: nat | i < n ensures Monomials(coeffs, x)(i) == Zero {
        MulComm(Zero, Pow(x, i));
        MulZero(Pow(x, i));
      }
      AllZero(n, Monomials(coeffs, x));
    } else {
      ValueIsSum(coeffs[1..], n - 1, x);
      ShiftedMonomials(coeffs, n, x);
    }
  }

  lemma ShiftedMonomials(coeffs: seq<F>, n: nat, x: F)
    requires 0 < |coeffs| <= n
    ensures Sum(n, Monomials(coeffs, x)) == Add(coeffs[0], Mul(x, Sum(n - 1, Monomials(coeffs[1..], x))))
  {
    hide Add, Mul, Neg, At, Pow, Sum;
    var all, rest := Monomials(coeffs, x), Monomials(coeffs[1..], x);
    var shifted := (i: nat) => Mul(x, rest(i));
    forall i: nat
      ensures shifted(i) == all(1 + i)
    {
      TailMonomial(coeffs, x, i);
    }
    Split(1, n - 1, all, shifted);
    Scale(n - 1, x, rest, shifted);
    FirstMonomial(coeffs, x);
    SumStep(0, all);
    AddComm(Zero, coeffs[0]);
    AddZero(coeffs[0]);
  }

  lemma FirstMonomial(coeffs: seq<F>, x: F)
    requires |coeffs| > 0
    ensures Monomials(coeffs, x)(0) == coeffs[0]
  { MulOne(coeffs[0]); }

  lemma TailMonomial(coeffs: seq<F>, x: F, i: nat)
    requires |coeffs| > 0
    ensures Mul(x, Monomials(coeffs[1..], x)(i)) == Monomials(coeffs, x)(1 + i)
  { Products(); }

  /** Horner's loop, from the leading coefficient down. */
  method Evaluate(coeffs: seq<F>, x: F) returns (acc: F)
    ensures acc == Value(coeffs, x)
  {
    hide Add, Mul;
    acc := Zero;
    var i := |coeffs|;
    while i > 0
      invariant 0 <= i <= |coeffs| && acc == Value(coeffs[i..], x)
    {
      i := i - 1;
      assert coeffs[i..][1..] == coeffs[i + 1..];
      AddComm(Mul(acc, x), coeffs[i]);
      MulComm(acc, x);
      acc := Add(Mul(acc, x), coeffs[i]);
    }
    assert coeffs[0..] == coeffs;
  }

  // ---- Compression: the linear coefficient is dropped and recovered from g(0) + g(1)

  function Compress(coeffs: seq<F>): (kept: seq<F>)
    ensures |kept| == if |coeffs| <= 1 then |coeffs| else |coeffs| - 1
    ensures forall i: nat :: i < |kept| ==> kept[i] == coeffs[if i == 0 then 0 else i + 1]
  {
    if |coeffs| == 0 then [] else if |coeffs| == 1 then [coeffs[0]] else [coeffs[0]] + coeffs[2..]
  }

  // The sumcheck hint of a polynomial.
  function Hint(coeffs: seq<F>): F {
    Add(Value(coeffs, Zero), Value(coeffs, One))
  }

  method RecoverLinearTerm(kept: seq<F>, hint: F) returns (linear: F)
    ensures linear == Linear(kept, hint)
  {
    hide Add, Neg, Mul, Total;
    if |kept| == 0 {
      return Zero;
    }
    linear := Sub(Sub(hint, kept[0]), kept[0]);
    var i := 1;
    ghost var start := linear;
    TotalOfNone(start);
    assert kept[1..1] == [];
    while i < |kept|
      invariant 1 <= i <= |kept| && linear == Sub(start, Total(kept[1..i]))
    {
      assert kept[1..i + 1] == kept[1..i] + [kept[i]];
      TotalSnoc(kept[1..i], kept[i]);
      SubSub(start, Total(kept[1..i]), kept[i]);
      linear := Sub(linear, kept[i]);
      i := i + 1;
    }
    assert kept[1..|kept|] == kept[1..];
  }

  // The sum of all coefficients.
  function Total(coeffs: seq<F>): F {
    if |coeffs| == 0 then Zero else Add(coeffs[0], Total(coeffs[1..]))
  }

  function Linear(kept: seq<F>, hint: F): F {
    if |kept| == 0 then Zero else Sub(Sub(Sub(hint, kept[0]), kept[0]), Total(kept[1..]))
  }

  function Decompress(kept: seq<F>, hint: F): seq<F> {
    if |kept| == 0 then [] else [kept[0], Linear(kept, hint)] + kept[1..]
  }

  lemma TotalOfNone(x: F)
    ensures Sub(x, Total([])) == x
  { Ring(); }

  lemma SubSub(x: F, y: F, z: F)
    ensures Sub(Sub(x, y), z) == Sub(x, Add(y, z))
  { Ring(); }

  lemma {:induction false} TotalSnoc(s: seq<F>, c: F)
    ensures Total(s + [c]) == Add(Total(s), c)
  {
    hide Add;
    if |s| == 0 {
      assert s + [c] == [c] && [c][1..] == [];
      AddComm(Zero, c);
    } else {
      assert (s + [c])[1..] == s[1..] + [c];
      TotalSnoc(s[1..], c);
      AddAssoc(s[0], Total(s[1..]), c);
    }
  }

  lemma {:induction false} ValueAtOne(coeffs: seq<F>)
    ensures Value(coeffs, One) == Total(coeffs)
  {
    hide Add, Mul;
    if |coeffs| > 0 {
      ValueAtOne(coeffs[1..]);
      MulComm(One, Value(coeffs[1..], One));
      MulOne(Value(coeffs[1..], One));
    }
  }

  lemma ValueAtZero(coeffs: seq<F>)
    ensures Value(coeffs, Zero) == At(coeffs, 0)
  {
    hide Add, Mul;
    if |coeffs| > 0 {
      MulComm(Zero, Value(coeffs[1..], Zero));
      MulZero(Value(coeffs[1..], Zero));
      AddZero(coeffs[0]);
    }
  }

  /** Compressing and decompressing with the polynomial's own hint gives a polynomial with the
      same value everywhere. (A constant comes back with an explicit zero linear term.) */
  lemma CompressRoundTrip(coeffs: seq<F>, x: F)
    ensures Value(Decompress(Compress(coeffs), Hint(coeffs)), x) == Value(coeffs, x)
    ensures |coeffs| != 1 ==> Decompress(Compress(coeffs), Hint(coeffs)) == coeffs
  {
    hide Add, Mul, Neg, Total, Value;
    ValueAtZero(coeffs);
    ValueAtOne(coeffs);
    if |coeffs| == 0 {
    } else if |coeffs| == 1 {
      assert Compress(coeffs)[1..] == [] && coeffs == [coeffs[0]];
      ConstantHint(coeffs[0]);
      assert Decompress(Compress(coeffs), Hint(coeffs)) == [coeffs[0], Zero];
      PaddedConstant(coeffs[0], x);
    } else {
      var kept := Compress(coeffs);
      assert kept[1..] == coeffs[2..];
      LinearFromHint(coeffs);
      assert Decompress(kept, Hint(coeffs)) == [coeffs[0], coeffs[1]] + coeffs[2..] == coeffs;
    }
  }

  lemma ConstantHint(c: F)
    ensures Linear([c], Add(c, Total([c]))) == Zero
  {
    assert [c][1..] == [];
    assert Total([c]) == Add(c, Zero) && Total([]) == Zero;
    Ring();
  }

  lemma PaddedConstant(c: F, x: F)
    ensures Value([c, Zero], x) == Value([c], x)
  {
    assert [c, Zero][1..] == [Zero] && [Zero][1..] == [] && [c][1..] == [];
    Ring();
  }

  lemma LinearFromHint(coeffs: seq<F>)
    requires |coeffs| >= 2
    ensures Linear([coeffs[0]] + coeffs[2..], Add(coeffs[0], Total(coeffs))) == coeffs[1]
  {
    var rest := Total(coeffs[2..]);
    assert ([coeffs[0]] + coeffs[2..])[1..] == coeffs[2..];
    assert coeffs[1..][1..] == coeffs[2..];
    assert Total(coeffs) == Add(coeffs[0], Add(coeffs[1], rest));
    CancelTwice(coeffs[0], coeffs[1], rest);
  }

  lemma CancelTwice(a: F, b: F, r: F)
    ensures Sub(Sub(Sub(Add(a, Add(a, Add(b, r))), a), a), r) == b
  { Ring(); }

  /** Decompression is right for every hint: the result has that hint, and compresses back.
      With nothing kept the only polynomial is zero, so then the hint must be zero. */
  lemma DecompressHasHint(kept: seq<F>, hint: F)
    ensures Compress(Decompress(kept, hint)) == kept
    ensures Hint(Decompress(kept, hint)) == hint <==> (|kept| > 0 || hint == Zero)
  {
    hide Add, Mul, Neg, Value;
    var g := Decompress(kept, hint);
    ValueAtZero(g);
    ValueAtOne(g);
    if |kept| == 0 {
      AddZero(Zero);
    } else {
      assert g[1..] == [g[1]] + kept[1..] && g[1..][1..] == kept[1..] && g[2..] == kept[1..];
      assert Total(g) == Add(kept[0], Add(Linear(kept, hint), Total(kept[1..])));
      HintIsKept(kept[0], hint, Total(kept[1..]));
      assert Compress(g) == [kept[0]] + kept[1..];
    }
  }

  lemma HintIsKept(c: F, hint: F, rest: F)
    ensures Add(c, Add(c, Add(Sub(Sub(Sub(hint, c), c), rest), rest))) == hint
  { Ring(); }

  /** Evaluation straight from the compressed form. */
  method EvalFromHint(kept: seq<F>, hint: F, x: F) returns (acc: F)
    ensures acc == Value(Decompress(kept, hint), x)
  {
    hide Add, Mul, Neg, Value, Linear, Pow;
    if |kept| == 0 {
      EmptyValue(x);
      return Zero;
    }
    var linear := RecoverLinearTerm(kept, hint);
    ghost var g := Decompress(kept, hint);
    acc := Add(kept[0], Mul(x, linear));
    var pow := Mul(x, x);
    FirstTwo(g, x);
    var i := 1;
    while i < |kept|
      invariant 1 <= i <= |kept| && |g| == |kept| + 1
      invariant acc == Sum(i + 1, Monomials(g, x)) && pow == Pow(x, i + 1)
    {
      hide Sum;
      NextMonomial(g, x, i + 1);
      acc := Add(acc, Mul(kept[i], pow));
      pow := Mul(pow, x);
      i := i + 1;
    }
    ValueIsSum(g, |g|, x);
  }

  lemma EmptyValue(x: F)
    ensures Value([], x) == Zero
  {}

  lemma FirstTwo(g: seq<F>, x: F)
    requires |g| >= 2
    ensures Sum(2, Monomials(g, x)) == Add(g[0], Mul(x, g[1]))
    ensures Pow(x, 2) == Mul(x, x)
  {
    var m := Monomials(g, x);
    assert Sum(2, m) == Add(Add(Zero, m(0)), m(1));
    assert Pow(x, 1) == Mul(x, One) && Pow(x, 2) == Mul(x, Pow(x, 1));
    Ring();
  }

  lemma NextMonomial(g: seq<F>, x: F, k: nat)
    requires k < |g|
    ensures Sum(k + 1, Monomials(g, x)) == Add(Sum(k, Monomials(g, x)), Mul(g[k], Pow(x, k)))
    ensures Pow(x, k + 1) == Mul(Pow(x, k), x)
  {
    MulComm(x, Pow(x, k));
  }
}
