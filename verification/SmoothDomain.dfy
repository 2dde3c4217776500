/** Smooth transform domains: forward, inverse, coset evaluation and Reed-Solomon extension. */
module SmoothDomain {
  import opened Field
  import opened Arith
  import opened Sums
  import opened UniPoly
  import opened Interpolation
  import opened Dft
  import opened FftKernels
  import opened FftPlan
  import opened Roots
  import opened FftStages
  import opened Fft

  // ---- Consequences of a primitive root

  lemma InverseRoot(w: F, v: F, n: nat)
    requires PrimitiveRoot(w, n) && Mul(w, v) == One
    ensures PrimitiveRoot(v, n)
  {
    hide Mul, Pow;
    forall d: nat | 0 < d <= n ensures Pow(v, d) == One <==> Pow(w, d) == One {
      PowInverse(w, v, d);
      MulComm(Pow(w, d), Pow(v, d));
      MulOne(Pow(w, d));
      MulOne(Pow(v, d));
    }
  }

  lemma RootHasInverse(w: F, n: nat)
    requires PrimitiveRoot(w, n)
    ensures w != Zero && Mul(w, Inv(w)) == One
  {
    hide Mul, Pow, Inv;
    PowZero(w);
    RootNonzero(w, n, 1);
    MulInv(w);
  }

  // The points 1, w, ..., w^(n-1).
  ghost function Powers(w: F, n: nat): (points: seq<F>)
    ensures |points| == n
  {
    seq(n, (i: nat) => Pow(w, i))
  }

  lemma PowersDistinct(w: F, n: nat)
    requires PrimitiveRoot(w, n)
    ensures Distinct(Powers(w, n))
  {
    hide Pow, PrimitiveRoot;
    forall i: nat, j: nat | i < j < n ensures Pow(w, i) != Pow(w, j) { PowersDiffer(w, n, i, j); }
  }

  // Only zero has the zero transform.
  lemma ZeroTransform(x: seq<F>, w: F)
    requires PrimitiveRoot(w, |x|)
    requires forall k: nat :: k < |x| ==> DftAt(x, w, k) == Zero
    ensures forall i: nat :: i < |x| ==> x[i] == Zero
  {
    hide Pow, PrimitiveRoot, DftAt, Value;
    PowersDistinct(w, |x|);
    forall k: nat | k < |x| ensures Value(x, Powers(w, |x|)[k]) == Zero { DftIsEvaluation(x, w, k); }
    TooManyRoots(x, Powers(w, |x|));
  }

  /** A field with a root of order n has n != 0, so normalising the inverse never fails. */
  lemma OrderInvertible(w: F, n: nat)
    requires PrimitiveRoot(w, n)
    ensures FromNat(n) != Zero
  {
    hide Mul, Pow, PrimitiveRoot, DftAt, FromNat;
    if FromNat(n) == Zero {
      assert n > 0 by { PositiveOrder(w, n); }
      var x: seq<F> := seq(n, _ => One);
      var v := Inv(w);
      RootHasInverse(w, n);
      InverseRoot(w, v, n);
      var y := DftSeq(x, w);
      forall j: nat | j < n ensures DftAt(y, v, j) == Zero {
        InverseOfDft(x, w, v, j);
        MulComm(Zero, x[j]);
        MulZero(x[j]);
      }
      ZeroTransform(y, v);
      forall k: nat | k < n ensures DftAt(x, w, k) == Zero { DftSeqEntry(x, w, k); }
      assert x[0] == One;
      OneIsNotZero();
      ZeroTransform(x, w);
    }
  }

  lemma PositiveOrder(w: F, n: nat)
    requires PrimitiveRoot(w, n)
    ensures n > 0
  {}

  lemma OneIsNotZero()
    ensures One != Zero
  {}

  lemma DftScaled(y: seq<F>, c: F, x: seq<F>, w: F, k: nat)
    requires |x| == |y| && forall j: nat :: j < |y| ==> x[j] == Mul(c, y[j])
    ensures DftAt(x, w, k) == Mul(c, DftAt(y, w, k))
  {
    hide Mul, Pow, Sum;
    forall j: nat | j < |x|
      ensures DftTerms(x, w, k)(j) == Mul(c, DftTerms(y, w, k)(j))
    {
      MulAssoc(c, y[j], Pow(w, j * k));
    }
    Scale(|x|, c, DftTerms(y, w, k), DftTerms(x, w, k));
  }

  /** The scaled transform at the inverse root undoes the transform. */
  lemma InverseUndoes(e: seq<F>, w: F, v: F, c: F, x: seq<F>)
    requires PrimitiveRoot(w, |e|) && Mul(w, v) == One && Mul(FromNat(|e|), c) == One
    requires |x| == |e| && forall j: nat :: j < |x| ==> x[j] == Mul(c, DftAt(e, v, j))
    ensures DftSeq(x, w) == e
  {
    hide Mul, Pow, PrimitiveRoot, DftAt, FromNat;
    var y := DftSeq(e, v);
    InverseRoot(w, v, |e|);
    MulComm(w, v);
    forall k: nat | k < |e| ensures DftAt(x, w, k) == e[k] {
      forall j: nat | j < |y| ensures x[j] == Mul(c, y[j]) { DftSeqEntry(e, v, j); }
      DftScaled(y, c, x, w, k);
      InverseOfDft(e, v, w, k);
      Normalised(c, FromNat(|e|), e[k]);
    }
  }

  lemma Normalised(c: F, n: F, e: F)
    requires Mul(n, c) == One
    ensures Mul(c, Mul(n, e)) == e
  {
    assert Mul(c, Mul(n, e)) == Mul(Mul(n, c), e) by { Products(); }
    MulComm(One, e);
    MulOne(e);
  }

  /** The transform loses nothing. */
  lemma DftInjective(x: seq<F>, z: seq<F>, w: F)
    requires PrimitiveRoot(w, |x|) && |x| == |z| && DftSeq(x, w) == DftSeq(z, w)
    ensures x == z
  {
    hide Pow, PrimitiveRoot, DftAt, Value, At;
    PowersDistinct(w, |x|);
    forall k: nat | k < |x|
      ensures Value(x, Powers(w, |x|)[k]) == Value(z, Powers(w, |x|)[k])
    {
      DftIsEvaluation(x, w, k);
      DftIsEvaluation(z, w, k);
      DftSeqEntry(x, w, k);
      DftSeqEntry(z, w, k);
    }
    UniqueInterpolant(x, z, Powers(w, |x|));
    forall i: nat | i < |x| ensures x[i] == z[i] {
      AtEntry(x, i);
      AtEntry(z, i);
    }
  }

  // ---- Domains

  datatype SmoothDomain = SmoothDomain(
    n: nat,
    omega: F,
    nInv: F,
    digitRev: seq<nat>,
    fwdStages: seq<StageData>,
    invStages: seq<StageData>)

  ghost predicate Planned(d: SmoothDomain, factors: seq<nat>) {
    && Radices(factors) && d.n == Prod(factors) && PrimitiveRoot(d.omega, d.n)
    && d.omega != Zero && Mul(FromNat(d.n), d.nInv) == One
    && IsReversal(d.digitRev, factors)
    && AreStages(d.fwdStages, d.omega, factors)
    && AreStages(d.invStages, Inv(d.omega), factors)
  }

  ghost predicate IsDomain(d: SmoothDomain) {
    exists factors: seq<nat> :: Planned(d, factors)
  }

  // Every radix has a kernel slot, and two is invertible where the kernel halves.
  ghost predicate Smooth(n: nat) {
    forall q: nat :: Prime(q) && Divides(q, n) ==> q <= 7 && Halvable(q)
  }

  method NewDomain(omega: F, n: nat) returns (d: SmoothDomain)
    requires PrimitiveRoot(omega, n) && Smooth(n)
    ensures IsDomain(d) && d.n == n && d.omega == omega
  {
    hide Mul, Pow, PrimitiveRoot, FromNat, Prod, AreStages, Inv, Halvable;
    PositiveOrder(omega, n);
    RootHasInverse(omega, n);
    var omegaInv := Inv(omega);
    InverseRoot(omega, omegaInv, n);
    OrderInvertible(omega, n);
    var nInv := Inv(FromNat(n));
    MulInv(FromNat(n));
    var factors := Factorize(n);
    forall i | 0 <= i < |factors| ensures factors[i] <= 8 && Halvable(factors[i]) {
      PrimeDivisors(factors, factors[i]);
    }
    var digitRev := DigitReversal(n, factors);
    var fwdStages := PrecomputeStages(omega, n, factors);
    var invStages := PrecomputeStages(omegaInv, n, factors);
    d := SmoothDomain(n, omega, nInv, digitRev, fwdStages, invStages);
    assert Planned(d, factors);
  }

  /** The domain of any size that divides the supported subgroup. */
  method SupportedDomain(root: F, n: nat) returns (d: Option<SmoothDomain>)
    requires PrimitiveRoot(root, SmoothSubgroupOrder)
    ensures d.Some? <==> Divides(n, SmoothSubgroupOrder)
    ensures d.Some? ==> IsDomain(d.value) && d.value.n == n
    ensures d.Some? ==> forall m: nat :: n * m == SmoothSubgroupOrder ==> d.value.omega == Pow(root, m)
  {
    hide Mul, Pow, PrimitiveRoot, IsDomain;
    var omega := PrimitiveNthRoot(root, SmoothSubgroupOrder, n);
    if omega.None? {
      return None;
    }
    forall q: nat | Prime(q) && Divides(q, n) ensures q <= 7 && Halvable(q) {
      SupportedRadices(n, q);
    }
    var domain := NewDomain(omega.value, n);
    return Some(domain);
  }

  method Forward(d: SmoothDomain, input: seq<F>) returns (output: seq<F>)
    requires IsDomain(d) && |input| == d.n
    ensures output == DftSeq(input, d.omega)
  {
    hide Mul, Pow, PrimitiveRoot, AreStages, DftSeq, IsReversal;
    ghost var factors :| Planned(d, factors);
    var ws := new FftWorkspace(d.n);
    ws.Execute(input, d.fwdStages, d.digitRev, d.omega, factors);
    output := ws.bufA[..];
  }

  /** The inverse transform is a two-sided inverse of the forward one. */
  method Inverse(d: SmoothDomain, input: seq<F>) returns (result: seq<F>)
    requires IsDomain(d) && |input| == d.n
    ensures |result| == d.n && DftSeq(result, d.omega) == input
    ensures forall x: seq<F> :: |x| == d.n && DftSeq(x, d.omega) == input ==> result == x
  {
    hide Mul, Pow, PrimitiveRoot, AreStages, DftAt, DftSeq, IsReversal, FromNat;
    ghost var factors :| Planned(d, factors);
    var ws := new FftWorkspace(d.n);
    ws.Execute(input, d.invStages, d.digitRev, Inv(d.omega), factors);
    result := Normalise(d, input, ws.bufA[..]);
    forall x: seq<F> | |x| == d.n && DftSeq(x, d.omega) == input ensures result == x {
      DftInjective(result, x, d.omega);
    }
  }

  method Normalise(d: SmoothDomain, ghost input: seq<F>, raw: seq<F>) returns (result: seq<F>)
    requires IsDomain(d) && |input| == d.n && raw == DftSeq(input, Inv(d.omega))
    ensures |result| == d.n && DftSeq(result, d.omega) == input
  {
    hide Mul, Pow, PrimitiveRoot, AreStages, DftAt, FromNat, IsReversal;
    ghost var factors :| Planned(d, factors);
    result := raw;
    for i := 0 to |raw|
      invariant |result| == |raw|
      invariant forall j :: 0 <= j < i ==> result[j] == Mul(d.nInv, raw[j])
      invariant forall j :: i <= j < |raw| ==> result[j] == raw[j]
    {
      MulComm(d.nInv, raw[i]);
      result := result[i := Mul(result[i], d.nInv)];
    }
    RootHasInverse(d.omega, d.n);
    InverseUndoes(input, d.omega, Inv(d.omega), d.nInv, result);
  }

  // ---- Cosets

  // Coefficients twisted by the powers of the shift, padded with zeros to n.
  ghost function Shifted(coeffs: seq<F>, shift: F, n: nat): (b: seq<F>)
    ensures |b| == n
  {
    seq(n, (j: nat) => Mul(At(coeffs, j), Pow(shift, j)))
  }

  /** The transform of the twisted coefficients is evaluation on the coset. */
  lemma ShiftedDft(coeffs: seq<F>, shift: F, n: nat, w: F, i: nat)
    requires |coeffs| <= n
    ensures DftAt(Shifted(coeffs, shift, n), w, i) == Value(coeffs, Mul(shift, Pow(w, i)))
  {
    hide Mul, Pow, Sum, At, Value;
    var x := Mul(shift, Pow(w, i));
    var b := Shifted(coeffs, shift, n);
    ValueIsSum(coeffs, n, x);
    forall j: nat | j < n
      ensures DftTerms(b, w, i)(j) == Monomials(coeffs, x)(j)
    {
      AtEntry(b, j);
      PowProduct(shift, Pow(w, i), j);
      PowMul(w, i, j);
      assert i * j == j * i;
      MulAssoc(At(coeffs, j), Pow(shift, j), Pow(w, j * i));
    }
    Congruent(n, DftTerms(b, w, i), Monomials(coeffs, x));
  }

  // Twists the coefficients into the second buffer.
  method FillShifted(ws: FftWorkspace, coeffs: seq<F>, shift: F)
    requires ws.Valid() && |coeffs| <= ws.n
    modifies ws.bufB
    ensures forall j: nat :: j < |coeffs| ==> ws.bufB[j] == Mul(coeffs[j], Pow(shift, j))
  {
    hide Mul, Pow;
    var tw := One;
    PowZero(shift);
    for i := 0 to |coeffs|
      invariant tw == Pow(shift, i)
      invariant forall j: nat :: j < i ==> ws.bufB[j] == Mul(coeffs[j], Pow(shift, j))
    {
      ws.bufB[i] := Mul(coeffs[i], tw);
      NextPower(shift, i);
      tw := Mul(tw, shift);
    }
  }

  lemma FilledIsShifted(b: seq<F>, coeffs: seq<F>, shift: F)
    requires |coeffs| <= |b|
    requires forall j: nat :: j < |coeffs| ==> b[j] == Mul(coeffs[j], Pow(shift, j))
    requires forall j: nat :: |coeffs| <= j < |b| ==> b[j] == Zero
    ensures b == Shifted(coeffs, shift, |b|)
  {
    hide Mul, Pow;
    forall j: nat | j < |b| ensures b[j] == Mul(At(coeffs, j), Pow(shift, j)) {
      MulComm(Zero, Pow(shift, j));
      MulZero(Pow(shift, j));
    }
  }

  /** Values of a polynomial on the coset { shift * omega^i }. */
  method CosetForward(d: SmoothDomain, coeffs: seq<F>, shift: F) returns (values: seq<F>)
    requires IsDomain(d) && |coeffs| <= d.n
    ensures |values| == d.n
    ensures forall i: nat :: i < d.n ==> values[i] == Value(coeffs, Mul(shift, Pow(d.omega, i)))
  {
    hide Mul, Pow, PrimitiveRoot, AreStages, DftAt, IsReversal, Value, Shifted;
    ghost var factors :| Planned(d, factors);
    var ws := new FftWorkspace(d.n);
    FillShifted(ws, coeffs, shift);
    for i := |coeffs| to d.n
      invariant forall j: nat :: j < |coeffs| ==> ws.bufB[j] == Mul(coeffs[j], Pow(shift, j))
      invariant forall j: nat :: |coeffs| <= j < i ==> ws.bufB[j] == Zero
      invariant fresh(ws.bufA) && fresh(ws.bufB)
    {
      ws.bufB[i] := Zero;
    }
    FilledIsShifted(ws.bufB[..], coeffs, shift);
    ws.ExecuteFromB(d.fwdStages, d.digitRev, d.omega, factors);
    values := ws.bufA[..];
    forall i: nat | i < d.n ensures values[i] == Value(coeffs, Mul(shift, Pow(d.omega, i))) {
      ShiftedDft(coeffs, shift, d.n, d.omega, i);
      DftSeqEntry(ws.bufB[..], d.omega, i);
    }
  }

  // ---- Reed-Solomon extension

  // p is a polynomial of degree below k with the given values on the subgroup.
  ghost predicate Interpolates(p: seq<F>, omega: F, evals: seq<F>) {
    |p| == |evals| && forall i: nat :: i < |evals| ==> Value(p, Pow(omega, i)) == evals[i]
  }

  // The value of p at index i of nontrivial coset j.
  ghost function CosetValue(p: seq<F>, omega: F, omegaN: F, j: nat, i: nat): F {
    Value(p, Mul(Pow(omegaN, j + 1), Pow(omega, i)))
  }

  // Coset-major values of p on the first `cosets` nontrivial cosets.
  ghost predicate Extends(extension: seq<F>, p: seq<F>, omega: F, k: nat, omegaN: F, cosets: nat) {
    && |extension| == cosets * k
    && forall j: nat, i: nat :: j < cosets && i < k ==>
         CosetValue(p, omega, omegaN, j, i) == At(extension, j * k + i)
  }

  lemma InterpolatesIsDft(p: seq<F>, omega: F, evals: seq<F>)
    ensures Interpolates(p, omega, evals) <==> |p| == |evals| && DftSeq(p, omega) == evals
  {
    hide Pow, DftAt, Value;
    if |p| == |evals| {
      forall i: nat | i < |evals| ensures DftSeq(p, omega)[i] == Value(p, Pow(omega, i)) {
        DftIsEvaluation(p, omega, i);
        DftSeqEntry(p, omega, i);
      }
    }
  }

  /** The values, on every nontrivial coset, of the one polynomial through the evaluations. */
  method RsExtendBatch(d: SmoothDomain, evals: seq<F>, omegaN: F, blowup: nat) returns (extension: seq<F>)
    requires IsDomain(d) && |evals| == d.n && blowup >= 1
    ensures exists p: seq<F> :: Interpolates(p, d.omega, evals)
    ensures forall p: seq<F> :: Interpolates(p, d.omega, evals) ==>
      Extends(extension, p, d.omega, d.n, omegaN, blowup - 1)
  {
    hide Mul, Pow, PrimitiveRoot, AreStages, DftAt, DftSeq, IsReversal, Value, FromNat, Shifted, Interpolates, Extends;
    ghost var factors :| Planned(d, factors);
    var ws := new FftWorkspace(d.n);
    ws.Execute(evals, d.invStages, d.digitRev, Inv(d.omega), factors);
    var coeffs := Normalise(d, evals, ws.bufA[..]);
    InterpolatesIsDft(coeffs, d.omega, evals);
    extension := [];
    ExtendsNothing(coeffs, d.omega, d.n, omegaN);
    for j := 1 to blowup
      invariant Extends(extension, coeffs, d.omega, d.n, omegaN, j - 1)
      invariant fresh(ws.bufA) && fresh(ws.bufB)
    {
      var shift := FieldPow(omegaN, j);
      FillShifted(ws, coeffs, shift);
      FilledIsShifted(ws.bufB[..], coeffs, shift);
      ws.ExecuteFromB(d.fwdStages, d.digitRev, d.omega, factors);
      ExtendsNext(extension, coeffs, d.omega, d.n, omegaN, j - 1, ws.bufA[..]);
      extension := extension + ws.bufA[..];
    }
    forall p: seq<F> | Interpolates(p, d.omega, evals)
      ensures p == coeffs
    {
      InterpolatesIsDft(p, d.omega, evals);
      DftInjective(p, coeffs, d.omega);
    }
  }

  lemma ExtendsNothing(p: seq<F>, omega: F, k: nat, omegaN: F)
    ensures Extends([], p, omega, k, omegaN, 0)
  {}

  lemma ExtendsNext(before: seq<F>, p: seq<F>, omega: F, k: nat, omegaN: F, cosets: nat, result: seq<F>)
    requires Extends(before, p, omega, k, omegaN, cosets) && |p| <= k
    requires result == DftSeq(Shifted(p, Pow(omegaN, cosets + 1), k), omega)
    ensures Extends(before + result, p, omega, k, omegaN, cosets + 1)
  {
    hide Mul, Pow, DftAt, Value, Shifted;
    assert (cosets + 1) * k == cosets * k + k;
    forall j: nat, i: nat | j < cosets + 1 && i < k
      ensures CosetValue(p, omega, omegaN, j, i) == At(before + result, j * k + i)
    {
      if j < cosets {
        SpotBound(k, cosets, j, i);
        assert CosetValue(p, omega, omegaN, j, i) == At(before, j * k + i);
      } else {
        ShiftedDft(p, Pow(omegaN, cosets + 1), k, omega, i);
        DftSeqEntry(Shifted(p, Pow(omegaN, cosets + 1), k), omega, i);
      }
    }
  }

  /** When omega = omegaN^blowup, the extension and the evaluations together are the transform
      of the padded p over the larger subgroup: coset j, index i is entry j + blowup * i. */
  lemma ExtensionIsCodeword(extension: seq<F>, p: seq<F>, omega: F, k: nat, omegaN: F, blowup: nat, j: nat, i: nat, extra: nat)
    requires omega == Pow(omegaN, blowup) && j < blowup && i < k && |p| == k
    requires Extends(extension, p, omega, k, omegaN, blowup - 1)
    ensures DftAt(p + seq(extra, _ => Zero), omegaN, j + blowup * i) ==
            if j == 0 then Value(p, Pow(omega, i)) else At(extension, (j - 1) * k + i)
  {
    hide Mul, Pow, DftAt, Value, At;
    DftIsEvaluation(p + seq(extra, _ => Zero), omegaN, j + blowup * i);
    Padding(p, extra, Pow(omegaN, j + blowup * i));
    CosetPoint(omegaN, blowup, omega, j, i);
    if j > 0 {
      var c: nat := j - 1;
      assert CosetValue(p, omega, omegaN, c, i) == At(extension, c * k + i);
    }
  }

  /** Over the supported subgroup nothing is left to assume: the base domain of size k and the
      root of size k * blowup come from the same stored root, so the extension of any evaluations
      is the transform of their polynomial over the larger subgroup. */
  lemma SupportedCodeword(root: F, d: SmoothDomain, omegaN: F, blowup: nat, m: nat, extension: seq<F>, p: seq<F>,
    j: nat, i: nat, extra: nat)
    requires blowup >= 1 && d.n * blowup * m == SmoothSubgroupOrder
    requires forall e: nat :: d.n * e == SmoothSubgroupOrder ==> d.omega == Pow(root, e)
    requires forall e: nat :: d.n * blowup * e == SmoothSubgroupOrder ==> omegaN == Pow(root, e)
    requires |p| == d.n && Extends(extension, p, d.omega, d.n, omegaN, blowup - 1) && j < blowup && i < d.n
    ensures DftAt(p + seq(extra, _ => Zero), omegaN, j + blowup * i) ==
            if j == 0 then Value(p, Pow(d.omega, i)) else At(extension, (j - 1) * d.n + i)
  {
    hide Mul, Pow, DftAt, Value, At, Extends;
    var e: nat := blowup * m;
    assert d.n * e == d.n * blowup * m;
    PowMul(root, m, blowup);
    assert m * blowup == e;
    ExtensionIsCodeword(extension, p, d.omega, d.n, omegaN, blowup, j, i, extra);
  }

  // Coset j, index i is the power j + blowup * i of the larger root.
  lemma CosetPoint(omegaN: F, blowup: nat, omega: F, j: nat, i: nat)
    requires omega == Pow(omegaN, blowup)
    ensures Mul(Pow(omegaN, j), Pow(omega, i)) == Pow(omegaN, j + blowup * i)
    ensures j == 0 ==> Pow(omega, i) == Pow(omegaN, j + blowup * i)
  {
    hide Mul, Pow;
    PowMul(omegaN, blowup, i);
    PowAdd(omegaN, j, blowup * i);
  }

  lemma Padding(p: seq<F>, extra: nat, x: F)
    ensures Value(p + seq(extra, _ => Zero), x) == Value(p, x)
  {
    hide Mul, Pow, Value;
    var padded := p + seq(extra, _ => Zero);
    ValueIsSum(padded, |padded|, x);
    ValueIsSum(p, |padded|, x);
    Congruent(|padded|, Monomials(padded, x), Monomials(p, x));
  }
}
