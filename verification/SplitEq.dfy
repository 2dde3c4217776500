/**
 The Gruen / Dao-Thaler split equality polynomial (eprint 2024/1210). The object keeps a
 running scalar and two stacks of cached tables; `FoldedTable` and `RemainingEqTables` say
 that at every round this is the full 2^n table folded by the same challenges.
 */
module SplitEq {
  import opened Field
  import opened Arith
  import opened Sums
  import opened EqPolynomial
  import opened EqTables
  import opened Multilinear
  import opened UniPoly
  import opened Interpolation

  // ---- The full table, folded

  lemma FoldOfTable(t: seq<F>, c: F, r: F)
    requires |t| > 0
    ensures Fold(EqTable(t, c), r) == EqTable(t[1..], Mul(c, Agree(t[0], r)))
  {
    hide Add, Mul, Neg, Eq, Blend;
    var full, rest := EqTable(t, c), t[1..];
    assert t == [t[0]] + rest;
    forall j: nat | j < Pow2(|rest|)
      ensures Fold(full, r)[j] == EqTable(rest, Mul(c, Agree(t[0], r)))[j]
    {
      Cons(t[0], rest, 2 * j);
      Cons(t[0], rest, 2 * j + 1);
      FoldOfPair(c, t[0], r, Eq(rest, j));
    }
  }

  lemma FoldOfPair(c: F, t: F, r: F, e: F)
    ensures Blend(Mul(c, Mul(Factor(t, 0), e)), Mul(c, Mul(Factor(t, 1), e)), r) == Mul(Mul(c, Agree(t, r)), e)
  {
    var ce := Mul(c, e);
    assert Mul(c, Mul(Factor(t, 0), e)) == Mul(Factor(t, 0), ce) && Mul(c, Mul(Factor(t, 1), e)) == Mul(t, ce)
      && Mul(Mul(c, Agree(t, r)), e) == Mul(Agree(t, r), ce) by { Products(); }
    BlendForm(Mul(Factor(t, 0), ce), Mul(t, ce), r);
    AgreeSplits(t, r, ce);
  }

  lemma AgreeSplits(t: F, r: F, e: F)
    ensures Add(Mul(Sub(One, r), Mul(Sub(One, t), e)), Mul(r, Mul(t, e))) == Mul(Agree(t, r), e)
  { Ring(); }

  lemma {:induction false} FoldAllSnoc(evals: seq<F>, rs: seq<F>, r: F)
    ensures FoldAll(evals, rs + [r]) == Fold(FoldAll(evals, rs), r)
    decreases |rs|
  {
    hide Fold;
    if |rs| == 0 {
      assert (rs + [r])[1..] == [];
    } else {
      assert (rs + [r])[1..] == rs[1..] + [r];
      FoldAllSnoc(Fold(evals, rs[0]), rs[1..], r);
    }
  }

  /** Folding the full table of tau by k challenges leaves the table of the remaining
      coordinates, scaled by eq of the bound ones. */
  lemma {:induction false} FoldedTable(tau: seq<F>, c: F, rs: seq<F>)
    requires |rs| <= |tau|
    ensures FoldAll(EqTable(tau, c), rs) == EqTable(tau[|rs|..], Mul(c, EqPoint(tau[..|rs|], rs)))
  {
    hide Add, Mul, Neg, Agree, EqTable, Fold;
    if |rs| == 0 {
      assert tau[0..] == tau;
      MulOne(c);
    } else {
      var k := |rs| - 1;
      var init := rs[..k];
      FoldedTable(tau, c, init);
      assert rs == init + [rs[k]];
      FoldAllSnoc(EqTable(tau, c), init, rs[k]);
      FoldOfTable(tau[k..], Mul(c, EqPoint(tau[..k], init)), rs[k]);
      assert tau[k..][1..] == tau[|rs|..] && tau[..|rs|][..k] == tau[..k];
      MulAssoc(c, EqPoint(tau[..k], init), Agree(tau[k], rs[k]));
    }
  }

  // ---- The split form of the remaining factor

  // The number of coordinates of the first half among tau[1..].
  function Middle(n: nat): nat
    requires n > 0
  {
    (n - 1) / 2
  }

  // The unbound, non-current coordinates of each half at round k.
  ghost function FirstHalf(tau: seq<F>, k: nat): seq<F>
    requires k < |tau|
  {
    var split := 1 + Middle(|tau|);
    if k + 1 <= split then tau[k + 1..split] else []
  }

  ghost function SecondHalf(tau: seq<F>, k: nat): seq<F>
    requires k < |tau|
  {
    var split := 1 + Middle(|tau|);
    if k + 1 <= split then tau[split..] else tau[k + 1..]
  }

  lemma FirstHalfLength(tau: seq<F>, k: nat)
    requires k < |tau|
    ensures |FirstHalf(tau, k)| == if k <= (|tau| - 1) / 2 then (|tau| - 1) / 2 - k else 0
  {}

  lemma HalvesJoin(tau: seq<F>, k: nat)
    requires k < |tau|
    ensures FirstHalf(tau, k) + SecondHalf(tau, k) == tau[k + 1..]
  {}

  /** Entry 2j + b of the folded table is scalar * eq(tau_k, b) times the product of one entry
      of each remaining table, at the low and the high part of j. */
  lemma RemainingEntry(tau: seq<F>, k: nat, scalar: F, first: seq<F>, second: seq<F>, j: nat, b: nat)
    requires k < |tau| && b < 2 && j < Pow2(|tau| - k - 1)
    requires first == EqTable(FirstHalf(tau, k), One) && second == EqTable(SecondHalf(tau, k), One)
    ensures var m := |FirstHalf(tau, k)|;
      && |first| == Pow2(m) && Low(j, m) < |first| && Shr(j, m) < |second|
      && 2 * j + b < Pow2(|tau| - k)
      && Mul(first[Low(j, m)], second[Shr(j, m)]) == Eq(tau[k + 1..], j)
      && EqTable(tau[k..], scalar)[2 * j + b] == Mul(Mul(scalar, Factor(tau[k], b)), Mul(first[Low(j, m)], second[Shr(j, m)]))
  {
    hide Add, Mul, Neg, Eq, Factor;
    var a, z := FirstHalf(tau, k), SecondHalf(tau, k);
    var m := |a|;
    HalvesJoin(tau, k);
    ShrBound(j, m, |z|);
    Concat(a, z, j);
    UnitTable(a, Low(j, m));
    UnitTable(z, Shr(j, m));
    assert tau[k..] == [tau[k]] + tau[k + 1..];
    Cons(tau[k], tau[k + 1..], 2 * j + b);
    FactorBit(tau[k], j, b);
    MulAssoc(scalar, Factor(tau[k], b), Eq(tau[k + 1..], j));
  }

  // The two tables multiply to eq(rest, .): low bits index the first, high bits the second.
  ghost predicate SplitsRest(first: seq<F>, second: seq<F>, m: nat, rest: seq<F>) {
    && |first| == Pow2(m) && m <= |rest| && |second| == Pow2(|rest| - m)
    && forall j: nat {:trigger Eq(rest, j)} :: j < Pow2(|rest|) ==>
      Low(j, m) < |first| && Shr(j, m) < |second| && Mul(first[Low(j, m)], second[Shr(j, m)]) == Eq(rest, j)
  }

  // Entry i of a folded table from the scalar, the current coordinate and the two tables.
  ghost predicate MatchesFolded(folded: seq<F>, scalar: F, t: F, first: seq<F>, second: seq<F>, m: nat) {
    forall i: nat :: i < |folded| ==>
      && Low(i / 2, m) < |first| && Shr(i / 2, m) < |second|
      && folded[i] == Mul(Mul(scalar, Factor(t, i)), Mul(first[Low(i / 2, m)], second[Shr(i / 2, m)]))
  }

  lemma TablesMatch(tau: seq<F>, leading: F, bound: seq<F>, first: seq<F>, second: seq<F>)
    requires |bound| < |tau|
    requires first == EqTable(FirstHalf(tau, |bound|), One) && second == EqTable(SecondHalf(tau, |bound|), One)
    ensures var k, m := |bound|, |FirstHalf(tau, |bound|)|;
      && SplitsRest(first, second, m, tau[k + 1..])
      && |FoldAll(EqTable(tau, leading), bound)| == Pow2(|tau| - k)
      && MatchesFolded(FoldAll(EqTable(tau, leading), bound), Mul(leading, EqPoint(tau[..k], bound)), tau[k], first, second, m)
  {
    hide Add, Mul, Neg, EqTable, FoldAll, EqPoint, FirstHalf, SecondHalf, SplitsRest, MatchesFolded, Pow2;
    var k := |bound|;
    FoldedTable(tau, leading, bound);
    RestSplits(tau, k, first, second);
    EntriesMatch(tau, k, Mul(leading, EqPoint(tau[..k], bound)), first, second);
  }

  lemma RestSplits(tau: seq<F>, k: nat, first: seq<F>, second: seq<F>)
    requires k < |tau|
    requires first == EqTable(FirstHalf(tau, k), One) && second == EqTable(SecondHalf(tau, k), One)
    ensures SplitsRest(first, second, |FirstHalf(tau, k)|, tau[k + 1..])
  {
    hide Add, Mul, Neg, EqTable, Eq, Factor, Low, Shr, Pow2, FirstHalf, SecondHalf;
    var m := |FirstHalf(tau, k)|;
    HalvesJoin(tau, k);
    TableLength(FirstHalf(tau, k), One);
    TableLength(SecondHalf(tau, k), One);
    forall j: nat | j < Pow2(|tau| - k - 1)
      ensures Low(j, m) < |first| && Shr(j, m) < |second| && Mul(first[Low(j, m)], second[Shr(j, m)]) == Eq(tau[k + 1..], j)
    {
      RemainingEntry(tau, k, One, first, second, j, 0);
    }
  }

  lemma EntriesMatch(tau: seq<F>, k: nat, scalar: F, first: seq<F>, second: seq<F>)
    requires k < |tau|
    requires first == EqTable(FirstHalf(tau, k), One) && second == EqTable(SecondHalf(tau, k), One)
    ensures |EqTable(tau[k..], scalar)| == Pow2(|tau| - k)
    ensures MatchesFolded(EqTable(tau[k..], scalar), scalar, tau[k], first, second, |FirstHalf(tau, k)|)
  {
    hide Add, Mul, Neg, EqTable, Eq, Factor, Low, Shr, Pow2, FirstHalf, SecondHalf;
    var m, table := |FirstHalf(tau, k)|, EqTable(tau[k..], scalar);
    TableLength(tau[k..], scalar);
    Pow2Step(|tau| - k - 1);
    forall i: nat | i < |table|
      ensures Low(i / 2, m) < |first| && Shr(i / 2, m) < |second|
      ensures table[i] == Mul(Mul(scalar, Factor(tau[k], i)), Mul(first[Low(i / 2, m)], second[Shr(i / 2, m)]))
    {
      RemainingEntry(tau, k, scalar, first, second, i / 2, i % 2);
      FactorBit(tau[k], i / 2, i % 2);
      assert 2 * (i / 2) + i % 2 == i;
    }
  }

  lemma ShrBound(j: nat, m: nat, n: nat)
    requires j < Pow2(m + n)
    ensures Low(j, m) < Pow2(m) && Shr(j, m) < Pow2(n)
  {
    ShrLow(j, m);
    ShlIsMul(Shr(j, m), m);
    Pow2Add(n, m);
    if Shr(j, m) >= Pow2(n) { MulMonotone(Pow2(n), Shr(j, m), Pow2(m)); }
  }

  lemma FactorBit(t: F, j: nat, b: nat)
    requires b < 2
    ensures Factor(t, 2 * j + b) == Factor(t, b)
  {}

  // Both stacks hold suffix tables: level i is the table of the last i coordinates of its half.
  ghost predicate SuffixTables(tau: seq<F>, k: nat, first: seq<seq<F>>, second: seq<seq<F>>)
    requires k <= |tau| && 0 < |tau|
  {
    var n, m := |tau|, Middle(|tau|);
    && |first| == (if k <= m then m + 1 - k else 1)
    && |second| == (if k <= m then n - m else if k < n then n - k else 1)
    && (forall i: nat :: i < |first| ==> first[i] == EqTable(tau[1 + m - i..1 + m], One))
    && (forall i: nat :: i < |second| ==> second[i] == EqTable(tau[n - i..], One))
  }

  // One pop per round, from the first stack while it has more than its base level.
  lemma PopKeepsTables(tau: seq<F>, k: nat, first: seq<seq<F>>, second: seq<seq<F>>)
    requires k < |tau| && SuffixTables(tau, k, first, second)
    ensures if |first| > 1 then SuffixTables(tau, k + 1, first[..|first| - 1], second)
      else if |second| > 1 then SuffixTables(tau, k + 1, first, second[..|second| - 1])
      else SuffixTables(tau, k + 1, first, second)
  {
    hide EqTable;
  }

  lemma TopTables(tau: seq<F>, k: nat, first: seq<seq<F>>, second: seq<seq<F>>)
    requires k < |tau| && SuffixTables(tau, k, first, second)
    ensures first[|first| - 1] == EqTable(FirstHalf(tau, k), One)
    ensures second[|second| - 1] == EqTable(SecondHalf(tau, k), One)
  {
    hide EqTable, Middle;
    MiddleBound(|tau|);
    var n, m, i, j := |tau|, Middle(|tau|), |first| - 1, |second| - 1;
    assert first[i] == EqTable(tau[1 + m - i..1 + m], One);
    assert second[j] == EqTable(tau[n - j..], One);
    if k <= m {
      assert 1 + m - i == k + 1 && n - j == 1 + m;
    } else {
      assert tau[1 + m - i..1 + m] == [] && n - j == k + 1;
    }
  }

  lemma MiddleBound(n: nat)
    requires n > 0
    ensures Middle(n) < n
  {}

  // ---- The object

  class GruenSplitEq {
    var tau: seq<F>
    var currentRound: nat
    var currentScalar: F
    var eFirst: seq<seq<F>>
    var eSecond: seq<seq<F>>
    // The constructor's leading scalar and the challenges bound so far.
    ghost var leading: F
    ghost var bound: seq<F>

    ghost predicate Valid()
      reads this
    {
      && 0 < |tau| && currentRound == |bound| <= |tau|
      && currentScalar == Mul(leading, EqPoint(tau[..currentRound], bound))
      && SuffixTables(tau, currentRound, eFirst, eSecond)
    }

    constructor (tau: seq<F>, initialScalar: F)
      requires |tau| > 0
      ensures Valid() && this.tau == tau && currentRound == 0
      ensures leading == initialScalar && bound == [] && currentScalar == initialScalar
    {
      hide Add, Mul, Neg, EqTable;
      var n := |tau|;
      var split := 1 + Middle(n);
      var first := EvalsCached(tau[1..split], One);
      var second := EvalsCached(tau[split..n], One);
      this.tau := tau;
      currentRound := 0;
      currentScalar := initialScalar;
      eFirst := first;
      eSecond := second;
      leading := initialScalar;
      bound := [];
      MulOne(initialScalar);
      forall i: nat | i < |first|
        ensures first[i] == EqTable(tau[split - i..split], One)
      {
        assert tau[1..split][split - 1 - i..] == tau[split - i..split];
      }
      forall i: nat | i < |second|
        ensures second[i] == EqTable(tau[n - i..], One)
      {
        assert tau[split..n][n - split - i..] == tau[n - i..];
      }
    }

    /** An empty point is an error. */
    static method WithInitialScalar(tau: seq<F>, initialScalar: F) returns (split: Option<GruenSplitEq>)
      ensures split.Some? <==> |tau| > 0
      ensures split.Some? ==> fresh(split.value) && split.value.Valid() && split.value.tau == tau
      ensures split.Some? ==> split.value.leading == initialScalar && split.value.bound == []
    {
      if |tau| == 0 {
        return None;
      }
      var s := new GruenSplitEq(tau, initialScalar);
      return Some(s);
    }

    function CurrentTau(): F
      requires currentRound < |tau|
      reads this
    {
      tau[currentRound]
    }

    /** The top tables. At every round they give, with the scalar and the current coordinate,
        every entry of the full table folded by the challenges bound so far. */
    method RemainingEqTables() returns (first: seq<F>, second: seq<F>)
      requires Valid() && currentRound < |tau|
      ensures |first| == Pow2(if currentRound <= (|tau| - 1) / 2 then (|tau| - 1) / 2 - currentRound else 0)
      ensures var m := |FirstHalf(tau, currentRound)|;
        && SplitsRest(first, second, m, tau[currentRound + 1..])
        && |FoldAll(EqTable(tau, leading), bound)| == Pow2(|tau| - currentRound)
        && MatchesFolded(FoldAll(EqTable(tau, leading), bound), currentScalar, CurrentTau(), first, second, m)
    {
      hide Add, Mul, Neg, EqTable, FoldAll, SplitsRest, MatchesFolded, EqPoint, Pow2, FirstHalf, SecondHalf;
      first, second := eFirst[|eFirst| - 1], eSecond[|eSecond| - 1];
      TopTables(tau, currentRound, eFirst, eSecond);
      FirstHalfLength(tau, currentRound);
      TableLength(FirstHalf(tau, currentRound), One);
      TablesMatch(tau, leading, bound, first, second);
    }

    /** Binding the current variable. After the last round the scalar is leading * eq(tau, r). */
    method Bind(r: F)
      requires Valid() && currentRound < |tau|
      modifies this
      ensures Valid() && tau == old(tau) && leading == old(leading)
      ensures bound == old(bound) + [r] && currentRound == old(currentRound) + 1
      ensures currentScalar == Mul(leading, EqPoint(tau[..currentRound], bound))
    {
      hide Add, Mul, Neg, SuffixTables, EqPoint;
      var tauK := tau[currentRound];
      BoundFactor(tau, leading, bound, r);
      PopKeepsTables(tau, currentRound, eFirst, eSecond);
      currentScalar := Mul(currentScalar, Add(Mul(tauK, r), Mul(Sub(One, tauK), Sub(One, r))));
      currentRound := currentRound + 1;
      bound := bound + [r];
      if |eFirst| > 1 {
        eFirst := eFirst[..|eFirst| - 1];
      } else if |eSecond| > 1 {
        eSecond := eSecond[..|eSecond| - 1];
      }
    }

    /** l(0) and l(1) of the current linear factor. */
    function LinearFactorEvals(): (l: (F, F))
      requires currentRound < |tau|
      reads this
      ensures l.0 == LinearFactor(Zero) && l.1 == LinearFactor(One)
    {
      LinearFactorEnds(currentScalar, CurrentTau());
      var lAtOne := Mul(currentScalar, CurrentTau());
      (Sub(currentScalar, lAtOne), lAtOne)
    }

    // l(x) = scalar * eq(tau_k, x)
    ghost function LinearFactor(x: F): F
      requires currentRound < |tau|
      reads this
    {
      Mul(currentScalar, Agree(CurrentTau(), x))
    }

    /** s = l * q, coefficient by coefficient. */
    method GruenMul(q: seq<F>) returns (coeffs: seq<F>)
      requires currentRound < |tau|
      ensures coeffs == Product(q, LinearFactorEvals().0, Sub(LinearFactorEvals().1, LinearFactorEvals().0))
      ensures forall x: F :: Value(coeffs, x) == Mul(LinearFactor(x), Value(q, x))
    {
      hide Add, Mul, Neg, Value, Agree;
      var (lAtZero, lAtOne) := LinearFactorEvals();
      var slope := Sub(lAtOne, lAtZero);
      coeffs := seq(|q| + 1, _ => Zero);
      for i := 0 to |q|
        invariant |coeffs| == |q| + 1
        invariant forall j: nat :: j < i ==> coeffs[j] == TimesLinear(q, lAtZero, slope, j)
        invariant coeffs[i] == if i == 0 then Zero else Mul(q[i - 1], slope)
        invariant forall j: nat :: i < j < |coeffs| ==> coeffs[j] == Zero
      {
        ZeroPlus(Mul(q[i], slope));
        AddComm(coeffs[i], Mul(q[i], lAtZero));
        coeffs := coeffs[i := Add(coeffs[i], Mul(q[i], lAtZero))];
        coeffs := coeffs[i + 1 := Add(coeffs[i + 1], Mul(q[i], slope))];
      }
      LastCoefficient(q, lAtZero, slope);
      assert coeffs == Product(q, lAtZero, slope);
      forall x: F
        ensures Value(coeffs, x) == Mul(LinearFactor(x), Value(q, x))
      {
        ProductValue(q, lAtZero, slope, x);
        LinearFactorForm(currentScalar, CurrentTau(), x);
      }
    }

    /** Recovery of the round polynomial from the inner coefficients without the linear one and
        the claim s(0) + s(1). It fails exactly when l(1) = 0 and l(0) is not, and otherwise
        agrees everywhere with s = l * q for every q the data came from. */
    method TryGruenPolyFromCoeffsExceptLinear(kept: seq<F>, claim: F) returns (s: Option<seq<F>>)
      requires currentRound < |tau|
      ensures s.None? <==> |kept| > 0 && LinearFactorEvals().1 == Zero && LinearFactorEvals().0 != Zero
      ensures s.Some? ==>
        if |kept| > 0 && LinearFactorEvals().1 != Zero then |s.value| == |kept| + 2 else s.value == [Zero]
      ensures s.Some? ==> forall q: seq<F>, x: F {:trigger Compress(q), Value(s.value, x)} ::
        Compress(q) == kept && claim == ClaimOf(LinearFactorEvals(), q) ==> Value(s.value, x) == Mul(LinearFactor(x), Value(q, x))
    {
      hide Add, Mul, Neg, Value, Agree, Total;
      if |kept| == 0 {
        s := Some([Zero]);
        forall q: seq<F>, x: F | Compress(q) == kept
          ensures Value(s.value, x) == Mul(LinearFactor(x), Value(q, x))
        {
          assert q == [];
          EmptyValue(x);
          ConstantValue(Zero, x);
          MulZero(LinearFactor(x));
        }
        return;
      }
      var (lAtZero, lAtOne) := LinearFactorEvals();
      if lAtZero == Zero && lAtOne == Zero {
        s := Some([Zero]);
        forall q: seq<F>, x: F | Compress(q) == kept
          ensures Value(s.value, x) == Mul(LinearFactor(x), Value(q, x))
        {
          LinearFactorForm(currentScalar, CurrentTau(), x);
          ZeroLine(x, Value(q, x));
          ConstantValue(Zero, x);
        }
        return;
      }
      var inverse := Inverse(lAtOne);
      if inverse.None? {
        return None;
      }
      var qAtOne := Mul(Sub(claim, Mul(lAtZero, kept[0])), inverse.value);
      var total := SumOf(kept);
      var q' := [kept[0], Sub(qAtOne, total)] + kept[1..];
      var product := GruenMul(q');
      s := Some(product);
      forall q: seq<F>, x: F | Compress(q) == kept && claim == ClaimOf((lAtZero, lAtOne), q)
        ensures Value(s.value, x) == Mul(LinearFactor(x), Value(q, x))
      {
        RecoveredInner(q, kept, lAtZero, lAtOne, claim, x);
      }
    }

    /** The quadratic case through interpolation at 0, 1, 2, 3: it fails exactly when l(1) = 0
        and l(0) is not, and otherwise returns the trimmed coefficients of a polynomial equal
        to l * q everywhere, whatever the linear coefficient of q was. */
    method TryGruenPolyDeg3(qConstant: F, qQuadratic: F, claim: F) returns (s: Option<seq<F>>)
      requires currentRound < |tau| && (LinearFactorEvals().1 != Zero ==> SmallNumbersInvertible(4))
      ensures s.None? <==> LinearFactorEvals().1 == Zero && LinearFactorEvals().0 != Zero
      ensures s.Some? ==> 0 < |s.value| <= 4 && s.value == Trim(s.value)
      ensures s.Some? ==> forall linear: F, x: F {:trigger Value([qConstant, linear, qQuadratic], x)} ::
        claim == ClaimOf(LinearFactorEvals(), [qConstant, linear, qQuadratic]) ==>
          Value(s.value, x) == Mul(LinearFactor(x), Value([qConstant, linear, qQuadratic], x))
    {
      hide Add, Mul, Neg, Value, Agree, FromNat;
      var (lAtZero, lAtOne) := LinearFactorEvals();
      if lAtZero == Zero && lAtOne == Zero {
        s := Some([Zero]);
        forall linear: F, x: F
          ensures Value(s.value, x) == Mul(LinearFactor(x), Value([qConstant, linear, qQuadratic], x))
        {
          LinearFactorForm(currentScalar, CurrentTau(), x);
          ZeroLine(x, Value([qConstant, linear, qQuadratic], x));
          ConstantValue(Zero, x);
        }
        return;
      }
      var inverse := Inverse(lAtOne);
      if inverse.None? {
        return None;
      }
      var slope := Sub(lAtOne, lAtZero);
      var lAtTwo := Add(lAtOne, slope);
      var lAtThree := Add(lAtTwo, slope);
      var sAtZero := Mul(lAtZero, qConstant);
      var sAtOne := Sub(claim, sAtZero);
      var qAtOne := Mul(sAtOne, inverse.value);
      var twice := Add(qQuadratic, qQuadratic);
      var qAtTwo := Add(Sub(Add(qAtOne, qAtOne), qConstant), twice);
      var qAtThree := Add(Add(Sub(Add(qAtTwo, qAtOne), qConstant), twice), twice);
      var evals := [sAtZero, sAtOne, Mul(lAtTwo, qAtTwo), Mul(lAtThree, qAtThree)];
      var coeffs := FromEvals(evals);
      s := Some(coeffs);
      forall linear: F, x: F | claim == ClaimOf((lAtZero, lAtOne), [qConstant, linear, qQuadratic])
        ensures Value(coeffs, x) == Mul(LinearFactor(x), Value([qConstant, linear, qQuadratic], x))
      {
        Deg3Values(qConstant, linear, qQuadratic, lAtZero, lAtOne, claim, evals);
        Deg3Agrees(qConstant, linear, qQuadratic, lAtZero, slope, evals, coeffs, x);
        LinearFactorForm(currentScalar, CurrentTau(), x);
      }
    }
  }

  lemma LinearFactorEnds(scalar: F, t: F)
    ensures Mul(scalar, Agree(t, Zero)) == Sub(scalar, Mul(scalar, t))
    ensures Mul(scalar, Agree(t, One)) == Mul(scalar, t)
  {
    hide Add, Mul, Neg, Agree;
    AgreeOnBits(t);
    Distributes(scalar, One, Neg(t));
    MulOne(scalar);
    MulNeg(scalar, t);
  }

  lemma BoundFactor(tau: seq<F>, leading: F, bound: seq<F>, r: F)
    requires |bound| < |tau|
    ensures var k := |bound|;
      Mul(Mul(leading, EqPoint(tau[..k], bound)), Agree(tau[k], r)) == Mul(leading, EqPoint(tau[..k + 1], bound + [r]))
  {
    hide Add, Mul, Neg, Agree;
    var k := |bound|;
    assert tau[..k + 1][..k] == tau[..k] && (bound + [r])[..k] == bound;
    MulAssoc(leading, EqPoint(tau[..k], bound), Agree(tau[k], r));
  }

  // The claim s(0) + s(1) of s = l * q.
  ghost function ClaimOf(l: (F, F), q: seq<F>): F {
    Add(Mul(l.0, Value(q, Zero)), Mul(l.1, Value(q, One)))
  }

  // ---- Products with a linear factor

  function TimesLinear(q: seq<F>, constant: F, slope: F, i: nat): F {
    Add(Mul(At(q, i), constant), if i == 0 then Zero else Mul(At(q, i - 1), slope))
  }

  function Product(q: seq<F>, constant: F, slope: F): (p: seq<F>)
    ensures |p| == |q| + 1
  {
    hide TimesLinear;
    seq(|q| + 1, (i: nat) => TimesLinear(q, constant, slope, i))
  }

  lemma ZeroPlus(x: F)
    ensures Add(Zero, x) == x
  { Ring(); }

  lemma LastCoefficient(q: seq<F>, constant: F, slope: F)
    ensures TimesLinear(q, constant, slope, |q|) == if |q| == 0 then Zero else Mul(q[|q| - 1], slope)
  {
    MulComm(Zero, constant);
    MulZero(constant);
    AddZero(Zero);
    if |q| > 0 { ZeroPlus(Mul(q[|q| - 1], slope)); }
  }

  lemma {:induction false} ProductValue(q: seq<F>, constant: F, slope: F, x: F)
    ensures Value(Product(q, constant, slope), x) == Mul(Add(constant, Mul(slope, x)), Value(q, x))
  {
    hide Add, Mul, Neg, Sum, Pow, Value, TimesLinear, At;
    var p := Product(q, constant, slope);
    var n := |q| + 1;
    ValueIsSum(p, n, x);
    ValueIsSum(q, n, x);
    ValueIsSum(q, |q|, x);
    var low := (i: nat) => Mul(constant, Monomials(q, x)(i));
    var shifted := (i: nat) => Mul(Mul(slope, x), Monomials(q, x)(i));
    var high := Delayed(shifted);
    forall i: nat | i < n
      ensures Monomials(p, x)(i) == Add(low(i), high(i))
    {
      ProductMonomial(q, constant, slope, x, i);
    }
    Plus(n, low, high, Monomials(p, x));
    Scale(n, constant, Monomials(q, x), low);
    SumDelayed(n, shifted);
    Scale(|q|, Mul(slope, x), Monomials(q, x), shifted);
    DistributesRight(constant, Mul(slope, x), Value(q, x));
  }

  lemma DistributesRight(a: F, b: F, c: F)
    ensures Add(Mul(a, c), Mul(b, c)) == Mul(Add(a, b), c)
  { Ring(); }

  lemma ProductMonomial(q: seq<F>, constant: F, slope: F, x: F, i: nat)
    requires i <= |q|
    ensures Monomials(Product(q, constant, slope), x)(i) == Add(Mul(constant, Monomials(q, x)(i)),
      if i == 0 then Zero else Mul(Mul(slope, x), Monomials(q, x)(i - 1)))
  {
    hide Add, Mul, Neg, At;
    assert Product(q, constant, slope)[i] == TimesLinear(q, constant, slope, i);
    AtEntry(Product(q, constant, slope), i);
    if i == 0 {
      ProductMonomialZero(At(q, 0), constant, Pow(x, 0));
    } else {
      ProductMonomialStep(At(q, i), At(q, i - 1), constant, slope, x, Pow(x, i - 1));
    }
  }

  lemma ProductMonomialZero(a: F, c: F, p: F)
    ensures Mul(Add(Mul(a, c), Zero), p) == Add(Mul(c, Mul(a, p)), Zero)
  { Ring(); }

  lemma ProductMonomialStep(a: F, b: F, c: F, s: F, x: F, p: F)
    ensures Mul(Add(Mul(a, c), Mul(b, s)), Mul(x, p)) == Add(Mul(c, Mul(a, Mul(x, p))), Mul(Mul(s, x), Mul(b, p)))
  { Ring(); }

  /** The linear factor through its two values. */
  lemma LinearFactorForm(scalar: F, t: F, x: F)
    ensures var lOne := Mul(scalar, t);
      var lZero := Sub(scalar, lOne);
      Mul(scalar, Agree(t, x)) == Add(lZero, Mul(Sub(lOne, lZero), x))
  {
    AgreeLine(t, x);
    var lOne := Mul(scalar, t);
    LineScaled(scalar, t, x);
  }

  lemma AgreeLine(t: F, x: F)
    ensures Agree(t, x) == Add(Sub(One, t), Mul(Sub(t, Sub(One, t)), x))
  { Ring(); }

  lemma LineScaled(s: F, t: F, x: F)
    ensures Mul(s, Add(Sub(One, t), Mul(Sub(t, Sub(One, t)), x))) ==
      Add(Sub(s, Mul(s, t)), Mul(Sub(Mul(s, t), Sub(s, Mul(s, t))), x))
  {
    assert Mul(s, Sub(One, t)) == Sub(s, Mul(s, t)) by { Ring(); }
    LineScaledStep(s, Sub(One, t), t, x);
  }

  lemma LineScaledStep(s: F, u: F, t: F, x: F)
    ensures Mul(s, Add(u, Mul(Sub(t, u), x))) == Add(Mul(s, u), Mul(Sub(Mul(s, t), Mul(s, u)), x))
  { Ring(); }

  lemma ZeroLine(x: F, v: F)
    ensures Mul(Add(Zero, Mul(Sub(Zero, Zero), x)), v) == Zero
  { Ring(); }

  method SumOf(s: seq<F>) returns (total: F)
    ensures total == Total(s)
  {
    hide Add;
    total := Zero;
    assert s[..0] == [];
    for i := 0 to |s|
      invariant total == Total(s[..i])
    {
      assert s[..i + 1] == s[..i] + [s[i]];
      TotalSnoc(s[..i], s[i]);
      total := Add(total, s[i]);
    }
    assert s[..|s|] == s;
  }

  /** The recovered inner polynomial has the values of every inner polynomial it could be. */
  lemma RecoveredInner(q: seq<F>, kept: seq<F>, lZero: F, lOne: F, claim: F, x: F)
    requires lOne != Zero && |kept| > 0 && Compress(q) == kept && claim == ClaimOf((lZero, lOne), q)
    ensures var qAtOne := Mul(Sub(claim, Mul(lZero, kept[0])), Inv(lOne));
      Value([kept[0], Sub(qAtOne, Total(kept))] + kept[1..], x) == Value(q, x)
  {
    hide Add, Mul, Neg, Value, Inv, Total;
    ValueAtZero(q);
    ValueAtOne(q);
    SolveForQ(lZero, lOne, q[0], Total(q));
    if |q| == 1 {
      assert q == [q[0]] && kept == [q[0]] && kept[1..] == [];
      AddNeg(Total(q));
      assert [q[0], Zero] + kept[1..] == [q[0], Zero];
      PaddedConstant(q[0], x);
    } else {
      assert kept[1..] == q[2..];
      DropLinear(q);
      assert [kept[0], q[1]] + kept[1..] == q;
    }
  }

  lemma SolveForQ(lZero: F, lOne: F, a: F, b: F)
    requires lOne != Zero
    ensures Mul(Sub(Add(Mul(lZero, a), Mul(lOne, b)), Mul(lZero, a)), Inv(lOne)) == b
  {
    assert Sub(Add(Mul(lZero, a), Mul(lOne, b)), Mul(lZero, a)) == Mul(lOne, b) by { SubCancel(Mul(lZero, a), Mul(lOne, b)); }
    MulInv(lOne);
    Undo(lOne, b, Inv(lOne));
  }

  lemma Undo(l: F, b: F, i: F)
    requires Mul(l, i) == One
    ensures Mul(Mul(l, b), i) == b
  {
    assert Mul(Mul(l, b), i) == Mul(b, Mul(l, i)) by { Products(); }
    MulOne(b);
  }

  lemma DropLinear(q: seq<F>)
    requires |q| >= 2
    ensures Sub(Total(q), Total([q[0]] + q[2..])) == q[1]
  {
    assert q[1..][1..] == q[2..] && ([q[0]] + q[2..])[1..] == q[2..];
    DropMiddle(q[0], q[1], Total(q[2..]));
  }

  lemma DropMiddle(a: F, b: F, r: F)
    ensures Sub(Add(a, Add(b, r)), Add(a, r)) == b
  { Ring(); }

  // ---- The quadratic case

  lemma SmallNumbers()
    ensures FromNat(0) == Zero && FromNat(1) == One
    ensures FromNat(2) == Add(One, One) && FromNat(3) == Add(Add(One, One), One)
  {
    assert FromNat(1) == Add(Zero, One) && FromNat(2) == Add(FromNat(1), One) && FromNat(3) == Add(FromNat(2), One);
    ZeroPlus(One);
  }

  lemma QuadraticValue(c: F, d: F, e: F, x: F)
    ensures Value([c, d, e], x) == Add(c, Mul(x, Add(d, Mul(x, e))))
  {
    assert [c, d, e][1..] == [d, e] && [d, e][1..] == [e];
    ConstantValue(e, x);
    assert Value([c, d, e], x) == Add(c, Mul(x, Add(d, Mul(x, Value([e], x)))));
  }

  lemma QuadraticAtTwo(c: F, d: F, e: F, q: F)
    requires q == Add(c, Add(d, e))
    ensures Add(Sub(Add(q, q), c), Add(e, e)) == Add(c, Mul(Add(One, One), Add(d, Mul(Add(One, One), e))))
  {
    Twice(e);
    Twice(Add(d, Add(e, e)));
    TwoStep(c, d, e);
  }

  lemma Twice(x: F)
    ensures Mul(Add(One, One), x) == Add(x, x)
  { Ring(); }

  lemma Thrice(x: F)
    ensures Mul(Add(Add(One, One), One), x) == Add(Add(x, x), x)
  { Ring(); }

  lemma TwoStep(c: F, d: F, e: F)
    ensures var q := Add(c, Add(d, e));
      Add(Sub(Add(q, q), c), Add(e, e)) == Add(c, Add(Add(d, Add(e, e)), Add(d, Add(e, e))))
  {
    var u := Add(d, e);
    assert Sub(Add(Add(c, u), Add(c, u)), c) == Add(c, Add(u, u)) by { CancelOne(c, u); }
    Additions();
  }

  lemma CancelOne(c: F, u: F)
    ensures Sub(Add(Add(c, u), Add(c, u)), c) == Add(c, Add(u, u))
  { Ring(); }

  lemma QuadraticAtThree(c: F, d: F, e: F, q: F, q': F)
    requires q == Add(c, Add(d, e)) && q' == Add(c, Add(Add(d, Add(e, e)), Add(d, Add(e, e))))
    ensures Add(Add(Sub(Add(q', q), c), Add(e, e)), Add(e, e)) ==
      Add(c, Mul(Add(Add(One, One), One), Add(d, Mul(Add(Add(One, One), One), e))))
  {
    var e2 := Add(e, e);
    Thrice(e);
    Thrice(Add(d, Add(e2, e)));
    CancelTwo(c, Add(Add(d, e2), Add(d, e2)), Add(d, e));
    ThreeStep(c, d, e, e2);
  }

  lemma CancelTwo(c: F, u: F, v: F)
    ensures Sub(Add(Add(c, u), Add(c, v)), c) == Add(c, Add(u, v))
  { Ring(); }

  lemma ThreeStep(c: F, d: F, e: F, e2: F)
    requires e2 == Add(e, e)
    ensures Add(Add(Add(c, Add(Add(Add(d, e2), Add(d, e2)), Add(d, e))), e2), e2) ==
      Add(c, Add(Add(Add(d, Add(e2, e)), Add(d, Add(e2, e))), Add(d, Add(e2, e))))
  {
    var w := Add(Add(Add(d, e2), Add(d, e2)), Add(d, e));
    ThreeStepInner(d, e, e2);
    AddAssoc(c, w, e2);
    AddAssoc(c, Add(w, e2), e2);
  }

  lemma ThreeStepInner(d: F, e: F, e2: F)
    requires e2 == Add(e, e)
    ensures Add(Add(Add(Add(Add(d, e2), Add(d, e2)), Add(d, e)), e2), e2) ==
      Add(Add(Add(d, Add(e2, e)), Add(d, Add(e2, e))), Add(d, Add(e2, e)))
  { Additions(); }

  /** The four values the code interpolates are those of l * q at 0, 1, 2, 3. */
  lemma Deg3Values(c: F, d: F, e: F, lZero: F, lOne: F, claim: F, evals: seq<F>)
    requires lOne != Zero && claim == ClaimOf((lZero, lOne), [c, d, e])
    requires var slope, twice := Sub(lOne, lZero), Add(e, e);
      var sAtOne := Sub(claim, Mul(lZero, c));
      var qAtOne := Mul(sAtOne, Inv(lOne));
      var qAtTwo := Add(Sub(Add(qAtOne, qAtOne), c), twice);
      var qAtThree := Add(Add(Sub(Add(qAtTwo, qAtOne), c), twice), twice);
      evals == [Mul(lZero, c), sAtOne, Mul(Add(lOne, slope), qAtTwo), Mul(Add(Add(lOne, slope), slope), qAtThree)]
    ensures forall i: nat :: i < 4 ==>
      evals[i] == Mul(Add(lZero, Mul(Sub(lOne, lZero), FromNat(i))), Value([c, d, e], FromNat(i)))
  {
    hide Add, Mul, Neg, Value, Inv, FromNat;
    var q := [c, d, e];
    var v := Value(q, One);
    ValueAtZero(q);
    QuadraticValue(c, d, e, One);
    UnitLine(c, d, e);
    assert v == Add(c, Add(d, e));
    SolveForQ(lZero, lOne, c, v);
    SubCancel(Mul(lZero, c), Mul(lOne, v));
    SmallNumbers();
    LineAt(lZero, lOne);
    QuadraticValue(c, d, e, Add(One, One));
    QuadraticValue(c, d, e, Add(Add(One, One), One));
    QuadraticAtTwo(c, d, e, v);
    TwoStep(c, d, e);
    QuadraticAtThree(c, d, e, v, Add(Sub(Add(v, v), c), Add(e, e)));
  }

  lemma UnitLine(c: F, d: F, e: F)
    ensures Add(c, Mul(One, Add(d, Mul(One, e)))) == Add(c, Add(d, e))
  { Ring(); }

  lemma LineAt(lZero: F, lOne: F)
    ensures var slope := Sub(lOne, lZero);
      && Add(lZero, Mul(slope, Zero)) == lZero && Add(lZero, Mul(slope, One)) == lOne
      && Add(lZero, Mul(slope, Add(One, One))) == Add(lOne, slope)
      && Add(lZero, Mul(slope, Add(Add(One, One), One))) == Add(Add(lOne, slope), slope)
  {
    var slope := Sub(lOne, lZero);
    Telescope(lOne, lZero);
    LineSteps(lZero, slope);
  }

  lemma LineSteps(z: F, s: F)
    ensures Add(z, Mul(s, Zero)) == z && Add(z, Mul(s, One)) == Add(z, s)
    ensures Add(z, Mul(s, Add(One, One))) == Add(Add(z, s), s)
    ensures Add(z, Mul(s, Add(Add(One, One), One))) == Add(Add(Add(z, s), s), s)
  {
    MulZero(s);
    AddZero(z);
    MulOne(s);
    Distributes(s, One, One);
    Distributes(s, Add(One, One), One);
    Additions();
  }

  lemma Deg3Agrees(c: F, d: F, e: F, lZero: F, slope: F, evals: seq<F>, coeffs: seq<F>, x: F)
    requires |evals| == 4 && 0 < |coeffs| <= 4 && coeffs == Trim(coeffs) && SmallNumbersInvertible(4)
    requires forall i: nat :: i < 4 ==> Value(coeffs, FromNat(i)) == evals[i]
    requires forall i: nat :: i < 4 ==> evals[i] == Mul(Add(lZero, Mul(slope, FromNat(i))), Value([c, d, e], FromNat(i)))
    ensures Value(coeffs, x) == Mul(Add(lZero, Mul(slope, x)), Value([c, d, e], x))
  {
    hide Add, Mul, Neg, Value, FromNat, Product, Trim;
    var s := Product([c, d, e], lZero, slope);
    forall i: nat | i < 4
      ensures Value(coeffs, FromNat(i)) == Value(s, FromNat(i))
    {
      ProductValue([c, d, e], lZero, slope, FromNat(i));
    }
    InterpolantIsPolynomial(s, coeffs, 4);
    TrimKeepsCoefficients(s);
    SameCoefficientsSameValue(coeffs, s, x);
    ProductValue([c, d, e], lZero, slope, x);
  }
}
