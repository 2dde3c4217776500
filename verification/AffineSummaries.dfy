/**
 Low carry summaries. For the addresses of one low residue, summary c collects the low
 positions and digits whose shifted low address carries c blocks up. The identity, the dense
 and the geometric prefix-scan builders all produce `Summary`.
 */
module AffineSummaries {
  import opened Field
  import opened Arith
  import opened Sums
  import opened EqPolynomial
  import opened EqTables
  import opened OffsetWindow
  import opened Weights
  import opened AffineSpec

  // The low address of a cell, relative to the block of its row's first address.
  function Shifted(p: Problem, addressLow: nat, l: nat, d: nat): nat {
    addressLow + p.outerStride * l + p.digitStride * d
  }

  ghost function SummaryTerm(p: Problem, piece: Piece, addressLow: nat, c: nat, l: nat, d: nat): A
    requires p.Geometry() && UsableLow(p)
  {
    var shifted := Shifted(p, addressLow, l, d);
    if Shr(shifted, p.LowBits()) == c then
      AScale(LowWeight(p, piece.lowStart + l), Mul(Sums.At(p.digits, d), Eq(p.LowChallenges(), Low(shifted, p.LowBits()))))
    else AZero
  }

  ghost function SummaryDigits(p: Problem, piece: Piece, addressLow: nat, c: nat, l: nat): nat -> A
    requires p.Geometry() && UsableLow(p)
  {
    (d: nat) => SummaryTerm(p, piece, addressLow, c, l, d)
  }

  ghost function SummaryLows(p: Problem, piece: Piece, addressLow: nat, c: nat): nat -> A
    requires p.Geometry() && UsableLow(p)
  {
    (l: nat) => ASum(|p.digits|, SummaryDigits(p, piece, addressLow, c, l))
  }

  /** Summary c over the piece's low positions. */
  ghost function Summary(p: Problem, piece: Piece, addressLow: nat, c: nat): A
    requires p.Geometry() && UsableLow(p) && piece.lowStart <= piece.lowEnd
  {
    ASum(piece.Span(), SummaryLows(p, piece, addressLow, c))
  }

  ghost predicate AreSummaries(summaries: seq<A>, p: Problem, piece: Piece, addressLow: nat)
    requires p.Geometry() && UsableLow(p) && piece.lowStart <= piece.lowEnd
  {
    forall c: nat :: c < |summaries| ==> summaries[c] == Summary(p, piece, addressLow, c)
  }

  // The number of carry slots the addresses of one residue can reach.
  function CarryCount(p: Problem, piece: Piece, addressLow: nat): nat
    requires |p.digits| > 0 && piece.lowStart < piece.lowEnd
  {
    Shifted(p, addressLow, piece.Span() - 1, |p.digits| - 1) / p.LowLen() + 1
  }

  /** Every reachable carry has a slot, and no carry exceeds the outer stride. */
  lemma CarryInRange(p: Problem, piece: Piece, addressLow: nat, l: nat, d: nat)
    requires p.Geometry() && Fits(p, piece) && addressLow < p.LowLen()
    requires l < piece.Span() && d < |p.digits|
    ensures Shr(Shifted(p, addressLow, l, d), p.LowBits()) < CarryCount(p, piece, addressLow) <= p.outerStride + 1
  {
    hide Shr, Pow2, Log2, Shifted;
    var q, bits := p.LowLen(), p.LowBits();
    var shifted := Shifted(p, addressLow, l, d);
    var top := Shifted(p, addressLow, piece.Span() - 1, |p.digits| - 1);
    ShiftedMonotone(p, addressLow, l, piece.Span() - 1, d, |p.digits| - 1);
    assert q == Pow2(bits);
    ShrIsDiv(top, bits);
    ShrMonotone(shifted, top, bits);
    TopShifted(p, addressLow, piece.Span() - 1);
    CarryBound(p.outerStride, q, addressLow, piece.Span() - 1, p.digitStride * (|p.digits| - 1));
  }

  lemma ShiftedMonotone(p: Problem, addressLow: nat, l: nat, l': nat, d: nat, d': nat)
    requires l <= l' && d <= d'
    ensures Shifted(p, addressLow, l, d) <= Shifted(p, addressLow, l', d')
  {
    MulMonotone(l, l', p.outerStride);
    MulMonotone(d, d', p.digitStride);
  }

  lemma TopShifted(p: Problem, addressLow: nat, l: nat)
    requires |p.digits| > 0
    ensures Shifted(p, addressLow, l, |p.digits| - 1) == addressLow + p.outerStride * l + p.digitStride * (|p.digits| - 1)
  {}

  lemma CarryBound(stride: nat, q: nat, addressLow: nat, steps: nat, span: nat)
    requires addressLow < q && steps < q && span < stride
    ensures (addressLow + stride * steps + span) / q <= stride
  {
    var top := addressLow + stride * steps + span;
    MulMonotone(steps, q - 1, stride);
    assert stride * (q - 1) == stride * q - stride;
    assert top < q * (stride + 1);
    DivBound(top, q, stride + 1);
  }

  lemma ShrIsDiv(b: nat, k: nat)
    ensures Shr(b, k) == b / Pow2(k) && Low(b, k) == b % Pow2(k)
  {
    ShrLow(b, k);
    ShlIsMul(Shr(b, k), k);
    DivModUnique(b, Pow2(k), Shr(b, k), Low(b, k));
  }

  lemma {:induction false} ShrMonotone(a: nat, b: nat, k: nat)
    requires a <= b
    ensures Shr(a, k) <= Shr(b, k)
  {
    if k > 0 { ShrMonotone(a / 2, b / 2, k - 1); }
  }

  // ---- The dense and the identity builder

  // Slot c when all of lows 0..l and digits 0..d of low l are in.
  ghost function Partial(p: Problem, piece: Piece, addressLow: nat, c: nat, l: nat, d: nat): A
    requires p.Geometry() && UsableLow(p)
  {
    AAdd(ASum(l, SummaryLows(p, piece, addressLow, c)), ASum(d, SummaryDigits(p, piece, addressLow, c, l)))
  }

  lemma PartialBounds(p: Problem, piece: Piece, addressLow: nat, c: nat, l: nat)
    requires p.Geometry() && UsableLow(p)
    ensures Partial(p, piece, addressLow, c, l, 0) == ASum(l, SummaryLows(p, piece, addressLow, c))
    ensures Partial(p, piece, addressLow, c, l, |p.digits|) == Partial(p, piece, addressLow, c, l + 1, 0)
  {
    hide AAdd, SummaryTerm;
    ASumStep(0, SummaryDigits(p, piece, addressLow, c, l));
    ASumStep(0, SummaryDigits(p, piece, addressLow, c, l + 1));
    ASumStep(l, SummaryLows(p, piece, addressLow, c));
    AAddZero(ASum(l, SummaryLows(p, piece, addressLow, c)));
    AAddZero(ASum(l + 1, SummaryLows(p, piece, addressLow, c)));
  }

  lemma PartialStep(p: Problem, piece: Piece, addressLow: nat, c: nat, l: nat, d: nat)
    requires p.Geometry() && UsableLow(p)
    ensures Partial(p, piece, addressLow, c, l, d + 1) ==
      AAdd(Partial(p, piece, addressLow, c, l, d), SummaryTerm(p, piece, addressLow, c, l, d))
  {
    hide AAdd, SummaryTerm;
    var lows, digits := SummaryLows(p, piece, addressLow, c), SummaryDigits(p, piece, addressLow, c, l);
    ASumStep(d, digits);
    AAddAssoc(ASum(l, lows), ASum(d, digits), digits(d));
  }

  // The value of eq on the low challenges, from the shared table or the scalar primitive.
  method EqLow(lowChallenges: seq<F>, table: Option<seq<F>>, index: nat) returns (value: F)
    requires table.Some? ==> table.value == EqTable(lowChallenges, One)
    requires index < Pow2(|lowChallenges|)
    ensures value == Eq(lowChallenges, index)
  {
    if table.Some? {
      UnitTable(lowChallenges, index);
      value := table.value[index];
    } else {
      value := EqEvalAtIndex(lowChallenges, index);
    }
  }

  /** The dense loop over low positions and digits. The identity low factor is the case of one
      low position, where each digit adds a multiple of the unit. */
  method BuildDense(p: Problem, piece: Piece, addressLow: nat, table: Option<seq<F>>) returns (summaries: seq<A>)
    requires p.Geometry() && UsableLow(p) && Fits(p, piece) && addressLow < p.LowLen()
    requires table.Some? ==> table.value == EqTable(p.LowChallenges(), One)
    ensures |summaries| == CarryCount(p, piece, addressLow)
    ensures AreSummaries(summaries, p, piece, addressLow)
  {
    hide AAdd, AScale, SummaryTerm, EqTable, Eq, Mul, ASum, Partial;
    var carryCount := CarryCount(p, piece, addressLow);
    summaries := seq(carryCount, _ => AZero);
    var bits := p.LowBits();
    forall c: nat ensures Partial(p, piece, addressLow, c, 0, 0) == AZero { PartialStart(p, piece, addressLow, c); }
    for l := 0 to piece.Span()
      invariant |summaries| == carryCount
      invariant forall c: nat :: c < carryCount ==> summaries[c] == Partial(p, piece, addressLow, c, l, 0)
    {
      for d := 0 to |p.digits|
        invariant |summaries| == carryCount
        invariant forall c: nat :: c < carryCount ==> summaries[c] == Partial(p, piece, addressLow, c, l, d)
      {
        var shifted := Shifted(p, addressLow, l, d);
        var carry, lowIndex := Shr(shifted, bits), Low(shifted, bits);
        CarryInRange(p, piece, addressLow, l, d);
        ShrLow(shifted, bits);
        var eqLow := EqLow(p.LowChallenges(), table, lowIndex);
        var term := AScale(LowWeight(p, piece.lowStart + l), Mul(p.digits[d], eqLow));
        DenseStep(p, piece, addressLow, l, d, term, summaries);
        summaries := summaries[carry := AAdd(summaries[carry], term)];
      }
      forall c: nat | c < carryCount
        ensures summaries[c] == Partial(p, piece, addressLow, c, l + 1, 0)
      {
        PartialBounds(p, piece, addressLow, c, l);
      }
    }
    forall c: nat | c < carryCount
      ensures summaries[c] == Summary(p, piece, addressLow, c)
    {
      PartialBounds(p, piece, addressLow, c, piece.Span());
    }
  }

  lemma PartialStart(p: Problem, piece: Piece, addressLow: nat, c: nat)
    requires p.Geometry() && UsableLow(p)
    ensures Partial(p, piece, addressLow, c, 0, 0) == AZero
  {
    hide SummaryTerm;
    PartialBounds(p, piece, addressLow, c, 0);
  }

  lemma DenseStep(p: Problem, piece: Piece, addressLow: nat, l: nat, d: nat, term: A, summaries: seq<A>)
    requires p.Geometry() && UsableLow(p) && d < |p.digits|
    requires var shifted := Shifted(p, addressLow, l, d);
      term == AScale(LowWeight(p, piece.lowStart + l), Mul(p.digits[d], Eq(p.LowChallenges(), Low(shifted, p.LowBits()))))
    requires forall c: nat :: c < |summaries| ==> summaries[c] == Partial(p, piece, addressLow, c, l, d)
    ensures var carry := Shr(Shifted(p, addressLow, l, d), p.LowBits());
      forall c: nat :: c < |summaries| ==>
        Partial(p, piece, addressLow, c, l, d + 1) == if c == carry then AAdd(summaries[c], term) else summaries[c]
  {
    hide AAdd, AScale, Eq, Mul, Partial;
    forall c: nat | c < |summaries|
      ensures Partial(p, piece, addressLow, c, l, d + 1) ==
        AAdd(summaries[c], if c == Shr(Shifted(p, addressLow, l, d), p.LowBits()) then term else AZero)
    {
      PartialStep(p, piece, addressLow, c, l, d);
    }
    forall c: nat | c < |summaries| ensures AAdd(summaries[c], AZero) == summaries[c] { AAddZero(summaries[c]); }
  }

  /** The identity low factor: digit d lands whole in slot digitStride * d. */
  method BuildIdentity(p: Problem, piece: Piece) returns (summaries: seq<A>)
    requires p.Geometry() && UsableLow(p) && Fits(p, piece) && |p.low| == 0
    ensures |summaries| == CarryCount(p, piece, 0)
    ensures AreSummaries(summaries, p, piece, 0)
  {
    hide AAdd, AScale, SummaryTerm, Eq, Mul, ASum, Partial;
    var carryCount := CarryCount(p, piece, 0);
    summaries := seq(carryCount, _ => AZero);
    forall c: nat ensures Partial(p, piece, 0, c, 0, 0) == AZero { PartialStart(p, piece, 0, c); }
    for d := 0 to |p.digits|
      invariant |summaries| == carryCount
      invariant forall c: nat :: c < carryCount ==> summaries[c] == Partial(p, piece, 0, c, 0, d)
    {
      var carry := p.digitStride * d;
      CarryInRange(p, piece, 0, 0, d);
      IdentityAddress(p, d);
      Empty(0);
      MulOne(p.digits[d]);
      var term := AScale(AUnit(), p.digits[d]);
      DenseStep(p, piece, 0, 0, d, term, summaries);
      summaries := summaries[carry := AAdd(summaries[carry], term)];
    }
    forall c: nat | c < carryCount
      ensures summaries[c] == Summary(p, piece, 0, c)
    {
      PartialBounds(p, piece, 0, c, 0);
      PartialBounds(p, piece, 0, c, 1);
    }
  }

  lemma IdentityAddress(p: Problem, d: nat)
    requires p.Geometry() && |p.low| == 0
    ensures p.LowBits() == 0 && p.LowChallenges() == []
    ensures Shr(Shifted(p, 0, 0, d), 0) == p.digitStride * d && Low(Shifted(p, 0, 0, d), 0) == 0
  {}

  // ---- The geometric prefix scan

  ghost function PrefixTerms(r: F, eq: seq<F>): nat -> F {
    (u: nat) => Mul(Pow(r, u), Sums.At(eq, u))
  }

  // Digit weights against a contiguous run of the table.
  ghost function RunTerms(digits: seq<F>, from: nat, eq: seq<F>, at: nat): nat -> F {
    (d: nat) => Mul(Sums.At(digits, from + d), Sums.At(eq, at + d))
  }

  ghost predicate Geometric(digits: seq<F>, d0: F, r: F) {
    forall k: nat :: k < |digits| ==> digits[k] == Mul(d0, Pow(r, k))
  }

  /** A run that starts at table position s, read off the prefix sums. */
  lemma RunFromPrefix(digits: seq<F>, d0: F, r: F, rInv: F, eq: seq<F>, s: nat, n: nat)
    requires Geometric(digits, d0, r) && n <= |digits| && Mul(r, rInv) == One
    ensures Sum(n, RunTerms(digits, 0, eq, s)) ==
      Mul(Mul(d0, Pow(rInv, s)), Sub(Sum(s + n, PrefixTerms(r, eq)), Sum(s, PrefixTerms(r, eq))))
  {
    hide Add, Mul, Neg, Pow, Sum, Sums.At;
    var tail := (d: nat) => Mul(Pow(r, s + d), Sums.At(eq, s + d));
    Split(s, n, PrefixTerms(r, eq), tail);
    SubCancel(Sum(s, PrefixTerms(r, eq)), Sum(n, tail));
    forall d: nat | d < n
      ensures RunTerms(digits, 0, eq, s)(d) == Mul(Mul(d0, Pow(rInv, s)), tail(d))
    {
      DigitAt(digits, d0, r, d);
      ShiftPower(d0, r, rInv, s, d, Sums.At(eq, s + d));
    }
    Scale(n, Mul(d0, Pow(rInv, s)), tail, RunTerms(digits, 0, eq, s));
  }

  lemma DigitAt(digits: seq<F>, d0: F, r: F, d: nat)
    requires Geometric(digits, d0, r) && d < |digits|
    ensures Sums.At(digits, d) == Mul(d0, Pow(r, d))
  {}

  lemma ShiftPower(d0: F, r: F, rInv: F, s: nat, d: nat, e: F)
    requires Mul(r, rInv) == One
    ensures Mul(Mul(d0, Pow(r, d)), e) == Mul(Mul(d0, Pow(rInv, s)), Mul(Pow(r, s + d), e))
  {
    hide Pow;
    PowAdd(r, s, d);
    PowProduct(r, rInv, s);
    PowOne(s);
    ShiftFactors(d0, Pow(r, d), Pow(r, s), Pow(rInv, s), e);
  }

  lemma ShiftFactors(d0: F, a: F, b: F, c: F, e: F)
    requires Mul(b, c) == One
    ensures Mul(Mul(d0, a), e) == Mul(Mul(d0, c), Mul(Mul(b, a), e))
  {
    var x := Mul(Mul(d0, a), e);
    assert Mul(Mul(d0, c), Mul(Mul(b, a), e)) == Mul(x, Mul(b, c)) by { Products(); }
    MulOne(x);
  }

  /** The digits from `from` on, against the start of the table. */
  lemma WrapFromPrefix(digits: seq<F>, d0: F, r: F, eq: seq<F>, from: nat)
    requires Geometric(digits, d0, r) && from <= |digits|
    ensures Sum(|digits| - from, RunTerms(digits, from, eq, 0)) ==
      Mul(Mul(d0, Pow(r, from)), Sum(|digits| - from, PrefixTerms(r, eq)))
  {
    hide Add, Mul, Neg, Pow, Sum, Sums.At;
    forall d: nat | d < |digits| - from
      ensures RunTerms(digits, from, eq, 0)(d) == Mul(Mul(d0, Pow(r, from)), PrefixTerms(r, eq)(d))
    {
      DigitAt(digits, d0, r, from + d);
      PowAdd(r, from, d);
      GroupWrap(d0, Pow(r, from), Pow(r, d), Sums.At(eq, d));
    }
    Scale(|digits| - from, Mul(d0, Pow(r, from)), PrefixTerms(r, eq), RunTerms(digits, from, eq, 0));
  }

  lemma GroupWrap(d0: F, a: F, b: F, e: F)
    ensures Mul(Mul(d0, Mul(a, b)), e) == Mul(Mul(d0, a), Mul(b, e))
  { Products(); }

  // With unit digit stride, the digits of one low position start at block carry, offset s, and
  // wrap into the next block at most once.
  lemma DigitPlace(p: Problem, addressLow: nat, l: nat, d: nat)
    requires p.Geometry() && p.digitStride == 1 && |p.digits| <= p.LowLen() && d < |p.digits|
    ensures var q, bits, start := p.LowLen(), p.LowBits(), Shifted(p, addressLow, l, 0);
      var carry, s := Shr(start, bits), Low(start, bits);
      && s < q
      && Shr(Shifted(p, addressLow, l, d), bits) == (if s + d < q then carry else carry + 1)
      && Low(Shifted(p, addressLow, l, d), bits) == (if s + d < q then s + d else s + d - q)
  {
    hide Shr, Low;
    var q, bits, start := p.LowLen(), p.LowBits(), Shifted(p, addressLow, l, 0);
    var carry, s := Shr(start, bits), Low(start, bits);
    ShrLow(start, bits);
    ShlPlusOne(carry, bits);
    if s + d < q {
      ShrLowUnique(start + d, bits, carry, s + d);
    } else {
      ShrLowUnique(start + d, bits, carry + 1, s + d - q);
    }
  }

  /** The digit sum of one low position in slot c: the run in block `carry`, the wrapped run in
      the next block, nothing elsewhere. */
  lemma GeometricSlot(p: Problem, piece: Piece, addressLow: nat, c: nat, l: nat, count1: nat, eq: seq<F>)
    requires p.Geometry() && UsableLow(p) && p.digitStride == 1 && |p.digits| <= p.LowLen()
    requires eq == EqTable(p.LowChallenges(), One)
    requires var s := Low(Shifted(p, addressLow, l, 0), p.LowBits());
      s < p.LowLen() && count1 == Min(|p.digits|, p.LowLen() - s)
    ensures var start := Shifted(p, addressLow, l, 0);
      var carry, s := Shr(start, p.LowBits()), Low(start, p.LowBits());
      ASum(|p.digits|, SummaryDigits(p, piece, addressLow, c, l)) ==
        (if c == carry then AScale(LowWeight(p, piece.lowStart + l), Sum(count1, RunTerms(p.digits, 0, eq, s)))
        else if c == carry + 1 then
          AScale(LowWeight(p, piece.lowStart + l), Sum(|p.digits| - count1, RunTerms(p.digits, count1, eq, 0)))
        else AZero)
  {
    hide AAdd, AScale, Eq, Mul, ASum, Sum, SummaryTerm, EqTable, Shr, Low, Shifted, Log2, Pow2, RunTerms, LowWeight,
      SummaryDigits, SlotDigit;
    var n, w, start := |p.digits|, LowWeight(p, piece.lowStart + l), Shifted(p, addressLow, l, 0);
    var carry, s := Shr(start, p.LowBits()), Low(start, p.LowBits());
    forall d: nat | d < n
      ensures SummaryDigits(p, piece, addressLow, c, l)(d) == SlotDigit(p, w, c, carry, s, count1, d, eq)
    {
      SlotDigitIs(p, piece, addressLow, c, l, count1, d, eq);
    }
    SlotSum(p, SummaryDigits(p, piece, addressLow, c, l), w, c, carry, s, count1, eq);
  }

  lemma SlotSum(p: Problem, f: nat -> A, w: A, c: nat, carry: nat, s: nat, count1: nat, eq: seq<F>)
    requires count1 <= |p.digits|
    requires forall d: nat :: d < |p.digits| ==> f(d) == SlotDigit(p, w, c, carry, s, count1, d, eq)
    ensures ASum(|p.digits|, f) ==
      (if c == carry then AScale(w, Sum(count1, RunTerms(p.digits, 0, eq, s)))
      else if c == carry + 1 then AScale(w, Sum(|p.digits| - count1, RunTerms(p.digits, count1, eq, 0)))
      else AZero)
  {
    hide AAdd, AScale, ASum, Sum, RunTerms;
    var n := |p.digits|;
    var second := (d: nat) => f(count1 + d);
    ASplit(count1, n - count1, f, second);
    if c == carry {
      AScaleOfSum(count1, w, RunTerms(p.digits, 0, eq, s), f);
      AAllZero(n - count1, second);
      AAddZero(ASum(count1, f));
    } else if c == carry + 1 {
      AAllZero(count1, f);
      AScaleOfSum(n - count1, w, RunTerms(p.digits, count1, eq, 0), second);
      AAddZero(ASum(n - count1, second));
    } else {
      AAllZero(count1, f);
      AAllZero(n - count1, second);
      AAddZero(AZero);
    }
  }

  ghost function SlotDigit(p: Problem, w: A, c: nat, carry: nat, s: nat, count1: nat, d: nat, eq: seq<F>): A {
    if d < count1 then (if c == carry then AScale(w, RunTerms(p.digits, 0, eq, s)(d)) else AZero)
    else if c == carry + 1 then AScale(w, RunTerms(p.digits, count1, eq, 0)(d - count1))
    else AZero
  }

  lemma SlotDigitIs(p: Problem, piece: Piece, addressLow: nat, c: nat, l: nat, count1: nat, d: nat, eq: seq<F>)
    requires p.Geometry() && UsableLow(p) && p.digitStride == 1 && |p.digits| <= p.LowLen() && d < |p.digits|
    requires eq == EqTable(p.LowChallenges(), One)
    requires var s := Low(Shifted(p, addressLow, l, 0), p.LowBits());
      s < p.LowLen() && count1 == Min(|p.digits|, p.LowLen() - s)
    ensures var start := Shifted(p, addressLow, l, 0);
      SummaryDigits(p, piece, addressLow, c, l)(d) ==
        SlotDigit(p, LowWeight(p, piece.lowStart + l), c, Shr(start, p.LowBits()), Low(start, p.LowBits()), count1, d, eq)
  {
    hide AScale, Eq, Mul, EqTable, Shr, Low;
    DigitPlace(p, addressLow, l, d);
    UnitTable(p.LowChallenges(), Low(Shifted(p, addressLow, l, d), p.LowBits()));
  }

  method Powers(r: F, n: nat) returns (powers: seq<F>)
    ensures |powers| == n && forall k: nat :: k < n ==> powers[k] == Pow(r, k)
  {
    hide Mul;
    powers := [];
    for k := 0 to n
      invariant |powers| == k && forall i: nat :: i < k ==> powers[i] == Pow(r, i)
    {
      if k == 0 {
        powers := [One];
      } else {
        MulComm(powers[k - 1], r);
        powers := powers + [Mul(powers[k - 1], r)];
      }
    }
  }

  method PrefixScan(powers: seq<F>, eq: seq<F>, ghost r: F) returns (prefix: seq<F>)
    requires |powers| == |eq| + 1 && forall k: nat :: k < |powers| ==> powers[k] == Pow(r, k)
    ensures |prefix| == |eq| + 1 && forall t: nat :: t <= |eq| ==> prefix[t] == Sum(t, PrefixTerms(r, eq))
  {
    hide Add, Mul, Pow, Sum;
    prefix := [Zero];
    SumStep(0, PrefixTerms(r, eq));
    for u := 0 to |eq|
      invariant |prefix| == u + 1 && forall t: nat :: t <= u ==> prefix[t] == Sum(t, PrefixTerms(r, eq))
    {
      SumStep(u, PrefixTerms(r, eq));
      prefix := prefix + [Add(prefix[u], Mul(powers[u], eq[u]))];
    }
  }

  method AllGeometric(digits: seq<F>, d0: F, powers: seq<F>, ghost r: F) returns (all: bool)
    requires |digits| <= |powers| && forall k: nat :: k < |powers| ==> powers[k] == Pow(r, k)
    ensures all <==> Geometric(digits, d0, r)
  {
    hide Mul, Pow;
    for k := 0 to |digits|
      invariant forall i: nat :: i < k ==> digits[i] == Mul(d0, Pow(r, i))
    {
      if digits[k] != Mul(d0, powers[k]) {
        return false;
      }
    }
    return true;
  }

  // The ratio of the first two digit weights.
  function Ratio(digits: seq<F>): F
    requires |digits| > 0
  {
    if |digits| >= 2 then Mul(digits[1], Inv(digits[0])) else One
  }

  // When the scan applies: one block holds the digits, the span pays for the prefix, and the
  // weights are geometric with nonzero leading weight and ratio.
  ghost predicate ScanApplies(p: Problem, piece: Piece) {
    && 0 < |p.digits| <= p.LowLen() && piece.Span() * |p.digits| >= p.LowLen()
    && p.digits[0] != Zero && Ratio(p.digits) != Zero
    && Geometric(p.digits, p.digits[0], Ratio(p.digits))
  }

  /** The geometric builder answers exactly when the scan applies, and then with the summaries. */
  method BuildGeometric(p: Problem, piece: Piece, addressLow: nat, eq: seq<F>) returns (result: Option<seq<A>>)
    requires p.Geometry() && UsableLow(p) && Fits(p, piece) && addressLow < p.LowLen() && p.digitStride == 1
    requires eq == EqTable(p.LowChallenges(), One)
    ensures result.Some? <==> ScanApplies(p, piece)
    ensures result.Some? ==> |result.value| == CarryCount(p, piece, addressLow)
    ensures result.Some? ==> AreSummaries(result.value, p, piece, addressLow)
  {
    hide Mul, Pow, EqTable, AreSummaries, Geometric, CarryCount, Inv;
    var delta, q := |p.digits|, p.LowLen();
    if delta > q || piece.Span() * delta < q {
      return None;
    }
    var d0 := p.digits[0];
    if d0 == Zero {
      return None;
    }
    var r := One;
    if delta >= 2 {
      var inverse := Inverse(d0);
      r := Mul(p.digits[1], inverse.value);
    }
    if r == Zero {
      return None;
    }
    var powers := Powers(r, q + 1);
    var geometric := AllGeometric(p.digits, d0, powers, r);
    if !geometric {
      return None;
    }
    var rInv := Inverse(r).value;
    MulInv(r);
    var inversePowers := Powers(rInv, q);
    var prefix := PrefixScan(powers, eq, r);
    var summaries := ScanLows(p, piece, addressLow, eq, d0, r, rInv, powers, inversePowers, prefix);
    return Some(summaries);
  }

  method ScanLows(p: Problem, piece: Piece, addressLow: nat, ghost eq: seq<F>, d0: F, ghost r: F, ghost rInv: F,
    powers: seq<F>, inversePowers: seq<F>, prefix: seq<F>) returns (summaries: seq<A>)
    requires p.Geometry() && UsableLow(p) && Fits(p, piece) && addressLow < p.LowLen()
    requires p.digitStride == 1 && |p.digits| <= p.LowLen() && eq == EqTable(p.LowChallenges(), One)
    requires Geometric(p.digits, d0, r) && Mul(r, rInv) == One
    requires |powers| == p.LowLen() + 1 && forall k: nat :: k < |powers| ==> powers[k] == Pow(r, k)
    requires |inversePowers| == p.LowLen() && forall k: nat :: k < |inversePowers| ==> inversePowers[k] == Pow(rInv, k)
    requires |prefix| == p.LowLen() + 1 && forall t: nat :: t < |prefix| ==> prefix[t] == Sum(t, PrefixTerms(r, eq))
    ensures |summaries| == CarryCount(p, piece, addressLow)
    ensures AreSummaries(summaries, p, piece, addressLow)
  {
    hide AAdd, AScale, Mul, Add, Neg, Pow, EqTable, ASum, Sum, Geometric, SummaryTerm, Shifted, CarryCount, PrefixTerms, RunTerms, LowWeight, Shr, Low, Pow2, Log2;
    var delta, q, bits := |p.digits|, p.LowLen(), p.LowBits();
    var carryCount := CarryCount(p, piece, addressLow);
    summaries := seq(carryCount, _ => AZero);
    forall c: nat ensures ASum(0, SummaryLows(p, piece, addressLow, c)) == AZero { ASumStep(0, SummaryLows(p, piece, addressLow, c)); }
    for l := 0 to piece.Span()
      invariant |summaries| == carryCount
      invariant forall c: nat :: c < carryCount ==> summaries[c] == ASum(l, SummaryLows(p, piece, addressLow, c))
    {
      var start := Shifted(p, addressLow, l, 0);
      var carry, s := Shr(start, bits), Low(start, bits);
      ShrLow(start, bits);
      var count1 := Min(delta, q - s);
      var lowFactor := LowWeight(p, piece.lowStart + l);
      var value := Mul(Mul(d0, inversePowers[s]), Sub(prefix[s + count1], prefix[s]));
      var wrapped := Mul(Mul(d0, powers[count1]), prefix[delta - count1]);
      RunFromPrefix(p.digits, d0, r, rInv, eq, s, count1);
      WrapFromPrefix(p.digits, d0, r, eq, count1);
      ScanCarries(p, piece, addressLow, l);
      forall c: nat | c < carryCount
        ensures ASum(l + 1, SummaryLows(p, piece, addressLow, c)) == AAdd(summaries[c],
          if c == carry then AScale(lowFactor, value)
          else if c == carry + 1 && count1 < delta then AScale(lowFactor, wrapped) else AZero)
      {
        ScanStep(p, piece, addressLow, c, l, count1, eq, summaries[c]);
      }
      forall c: nat | c < carryCount ensures AAdd(summaries[c], AZero) == summaries[c] { AAddZero(summaries[c]); }
      summaries := summaries[carry := AAdd(summaries[carry], AScale(lowFactor, value))];
      if count1 < delta {
        summaries := summaries[carry + 1 := AAdd(summaries[carry + 1], AScale(lowFactor, wrapped))];
      }
    }
  }

  // Both slots a digit window can reach exist.
  lemma ScanCarries(p: Problem, piece: Piece, addressLow: nat, l: nat)
    requires p.Geometry() && Fits(p, piece) && addressLow < p.LowLen() && l < piece.Span()
    requires p.digitStride == 1 && |p.digits| <= p.LowLen()
    ensures var start := Shifted(p, addressLow, l, 0);
      var carry, s := Shr(start, p.LowBits()), Low(start, p.LowBits());
      && s < p.LowLen() && carry < CarryCount(p, piece, addressLow)
      && (p.LowLen() - s < |p.digits| ==> carry + 1 < CarryCount(p, piece, addressLow))
  {
    hide Shr, Low, CarryCount, Shifted, Pow2, Log2;
    CarryInRange(p, piece, addressLow, l, 0);
    CarryInRange(p, piece, addressLow, l, |p.digits| - 1);
    DigitPlace(p, addressLow, l, |p.digits| - 1);
  }

  lemma ScanStep(p: Problem, piece: Piece, addressLow: nat, c: nat, l: nat, count1: nat, eq: seq<F>, before: A)
    requires p.Geometry() && UsableLow(p) && p.digitStride == 1 && |p.digits| <= p.LowLen()
    requires eq == EqTable(p.LowChallenges(), One) && before == ASum(l, SummaryLows(p, piece, addressLow, c))
    requires var s := Low(Shifted(p, addressLow, l, 0), p.LowBits());
      s < p.LowLen() && count1 == Min(|p.digits|, p.LowLen() - s)
    ensures var start := Shifted(p, addressLow, l, 0);
      var carry, s, w := Shr(start, p.LowBits()), Low(start, p.LowBits()), LowWeight(p, piece.lowStart + l);
      ASum(l + 1, SummaryLows(p, piece, addressLow, c)) == AAdd(before,
        if c == carry then AScale(w, Sum(count1, RunTerms(p.digits, 0, eq, s)))
        else if c == carry + 1 && count1 < |p.digits| then
          AScale(w, Sum(|p.digits| - count1, RunTerms(p.digits, count1, eq, 0)))
        else AZero)
  {
    hide AAdd, AScale, Mul, Add, Neg, Pow, EqTable, ASum, Sum, SummaryTerm, Shifted, RunTerms, LowWeight;
    ASumStep(l, SummaryLows(p, piece, addressLow, c));
    GeometricSlot(p, piece, addressLow, c, l, count1, eq);
    if count1 == |p.digits| {
      SumStep(0, RunTerms(p.digits, count1, eq, 0));
      AScaleTrivial(LowWeight(p, piece.lowStart + l), Zero);
    }
  }

  /** The summary builder: identity, prefix scan or dense loop, by the shape of the factors. */
  method BuildSummaries(p: Problem, piece: Piece, addressLow: nat, table: Option<seq<F>>) returns (summaries: seq<A>)
    requires p.Geometry() && UsableLow(p) && Fits(p, piece) && addressLow < p.LowLen()
    requires table.Some? ==> table.value == EqTable(p.LowChallenges(), One)
    ensures |summaries| == CarryCount(p, piece, addressLow)
    ensures AreSummaries(summaries, p, piece, addressLow)
  {
    hide EqTable, AreSummaries, CarryCount;
    if |p.low| == 0 {
      summaries := BuildIdentity(p, piece);
      return;
    }
    if p.digitStride == 1 && table.Some? {
      var scanned := BuildGeometric(p, piece, addressLow, table.value);
      if scanned.Some? {
        return scanned.value;
      }
    }
    summaries := BuildDense(p, piece, addressLow, table);
  }
}
