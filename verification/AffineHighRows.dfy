/**
 The high contraction of one low-residue group: the direct address x row x carry loop, and
 the carry-bucketed kernel that replaces it when that is cheaper. Both add `GroupSum`.
 */
module AffineHighRows {
  import opened Field
  import opened Arith
  import opened Sums
  import opened EqPolynomial
  import opened EqTables
  import opened OffsetWindow
  import opened Weights
  import opened AffineSpec
  import opened AffineSummaries

  const MAX_COMPACT_STRIDE_TERMS: nat := 0x1000_0000
  const FAST_HIGH_ROWS_MIN: nat := 8
  const PARALLEL_HIGH_ROWS_MIN: nat := 0x1000

  // The high part of a row's first address.
  function AddressHigh(p: Problem, adr: BaseAddress, row: nat): nat {
    Shr(adr.first, p.LowBits()) + p.outerStride * row
  }

  // What the direct loop adds for one address, row and carry.
  ghost function DirectTerm(p: Problem, piece: Piece, summaries: seq<A>, adr: BaseAddress, row: nat, c: nat): A
    requires p.Geometry()
  {
    if c < |summaries| then
      AScale(AMul(p.high.At(piece.firstHigh + row), summaries[c]),
        Mul(Eq(p.HighChallenges(), AddressHigh(p, adr, row) + c), adr.scale))
    else AZero
  }

  ghost function CarryTerms(p: Problem, piece: Piece, summaries: seq<A>, adr: BaseAddress, row: nat): nat -> A
    requires p.Geometry()
  {
    (c: nat) => DirectTerm(p, piece, summaries, adr, row, c)
  }

  ghost function RowTerms(p: Problem, piece: Piece, summaries: seq<A>, adr: BaseAddress): nat -> A
    requires p.Geometry()
  {
    (row: nat) => ASum(|summaries|, CarryTerms(p, piece, summaries, adr, row))
  }

  ghost function HighTerms(p: Problem, piece: Piece, summaries: seq<A>, addresses: seq<BaseAddress>): nat -> A
    requires p.Geometry()
  {
    (k: nat) => if k < |addresses| then ASum(piece.rows, RowTerms(p, piece, summaries, addresses[k])) else AZero
  }

  ghost function GroupSum(p: Problem, piece: Piece, summaries: seq<A>, addresses: seq<BaseAddress>): A
    requires p.Geometry()
  {
    ASum(|addresses|, HighTerms(p, piece, summaries, addresses))
  }

  // ---- The summaries carry all the low work

  lemma CellAddressSplits(p: Problem, adr: BaseAddress, row: nat, l: nat, d: nat)
    requires p.Geometry()
    ensures var addressLow, bits := Low(adr.first, p.LowBits()), p.LowBits();
      var shifted := Shifted(p, addressLow, l, d);
      var address := adr.first + p.outerStride * p.LowLen() * row + p.outerStride * l + p.digitStride * d;
      && address >= 0
      && Low(address, bits) == Low(shifted, bits)
      && Shr(address, bits) == AddressHigh(p, adr, row) + Shr(shifted, bits)
  {
    hide Low, Shr, Shl;
    var addressLow, bits := Low(adr.first, p.LowBits()), p.LowBits();
    var shifted := Shifted(p, addressLow, l, d);
    var high := Shr(adr.first, bits);
    var step: nat := p.outerStride * row;
    ShrLow(adr.first, bits);
    ShrLow(shifted, bits);
    ShlIsMul(step, bits);
    RowStride(p.outerStride, p.LowLen(), row);
    ShlAdd(high, step, bits);
    ShlAdd(high + step, Shr(shifted, bits), bits);
    var address := adr.first + p.outerStride * p.LowLen() * row + p.outerStride * l + p.digitStride * d;
    assert address == Shl(high + step, bits) + shifted;
    ShrLowUnique(address, bits, high + step + Shr(shifted, bits), Low(shifted, bits));
  }

  lemma RowStride(stride: nat, q: nat, row: nat)
    ensures stride * q * row == stride * row * q
  {}

  ghost function Spread(p: Problem, piece: Piece, adr: BaseAddress, row: nat, c: nat, l: nat, d: nat): A
    requires p.Geometry() && UsableLow(p)
  {
    AScale(AMul(p.high.At(piece.firstHigh + row), SummaryTerm(p, piece, Low(adr.first, p.LowBits()), c, l, d)),
      Mul(Eq(p.HighChallenges(), AddressHigh(p, adr, row) + c), adr.scale))
  }

  /** One cell is met by exactly one carry. */
  lemma CellFromCarries(p: Problem, piece: Piece, adr: BaseAddress, row: nat, l: nat, d: nat, count: nat)
    requires p.Geometry() && UsableLow(p)
    requires Shr(Shifted(p, Low(adr.first, p.LowBits()), l, d), p.LowBits()) < count
    ensures ASum(count, (c: nat) => Spread(p, piece, adr, row, c, l, d)) == CellTerm(p, piece, adr, row, l, d)
  {
    hide AAdd, AScale, AMul, ASum, Mul, Add, Neg, Eq, Low, Shr;
    var f := (c: nat) => Spread(p, piece, adr, row, c, l, d);
    var bits := p.LowBits();
    var shifted := Shifted(p, Low(adr.first, bits), l, d);
    var carry := Shr(shifted, bits);
    var h, w := p.high.At(piece.firstHigh + row), LowWeight(p, piece.lowStart + l);
    forall c: nat | c < count && c != carry
      ensures f(c) == AZero
    {
      AMulZero(h);
      AScaleTrivial(h, Mul(Eq(p.HighChallenges(), AddressHigh(p, adr, row) + c), adr.scale));
    }
    ASingle(count, f, carry);
    CellAddressSplits(p, adr, row, l, d);
    Cut(p.challenges, bits, adr.first + p.outerStride * p.LowLen() * row + p.outerStride * l + p.digitStride * d);
    SpreadValue(h, w, Sums.At(p.digits, d), Eq(p.LowChallenges(), Low(shifted, bits)),
      Eq(p.HighChallenges(), AddressHigh(p, adr, row) + carry), adr.scale);
  }

  lemma SpreadValue(h: A, w: A, digit: F, eqLow: F, eqHigh: F, scale: F)
    ensures AScale(AMul(h, AScale(w, Mul(digit, eqLow))), Mul(eqHigh, scale)) ==
      AScale(AMul(h, w), Mul(Mul(scale, digit), Mul(eqLow, eqHigh)))
  {
    hide AScale, AMul, Mul;
    AScaleMixes(h, w, Mul(digit, eqLow));
    AScaleSplits(AMul(h, w), Mul(digit, eqLow), Mul(eqHigh, scale));
    SpreadScalar(digit, eqLow, eqHigh, scale);
  }

  lemma SpreadScalar(digit: F, eqLow: F, eqHigh: F, scale: F)
    ensures Mul(Mul(digit, eqLow), Mul(eqHigh, scale)) == Mul(Mul(scale, digit), Mul(eqLow, eqHigh))
  { Products(); }

  // A carry term, spread back over the low positions and digits of its summary.
  lemma CarryTermSpreads(p: Problem, piece: Piece, summaries: seq<A>, adr: BaseAddress, row: nat, c: nat)
    requires p.Geometry() && UsableLow(p) && piece.lowStart <= piece.lowEnd && c < |summaries|
    requires AreSummaries(summaries, p, piece, Low(adr.first, p.LowBits()))
    ensures CarryTerms(p, piece, summaries, adr, row)(c) ==
      ASum(piece.Span(), (l: nat) => ASum(|p.digits|, (d: nat) => Spread(p, piece, adr, row, c, l, d)))
  {
    hide AAdd, AScale, AMul, ASum, Mul, Eq, Low, Shr, SummaryTerm;
    var addressLow := Low(adr.first, p.LowBits());
    var h, s := p.high.At(piece.firstHigh + row), Mul(Eq(p.HighChallenges(), AddressHigh(p, adr, row) + c), adr.scale);
    var lows := SummaryLows(p, piece, addressLow, c);
    var spreadLows := (l: nat) => ASum(|p.digits|, (d: nat) => Spread(p, piece, adr, row, c, l, d));
    forall l: nat | l < piece.Span()
      ensures spreadLows(l) == AScale(AMul(h, lows(l)), s)
    {
      Linear(|p.digits|, h, s, SummaryDigits(p, piece, addressLow, c, l), (d: nat) => Spread(p, piece, adr, row, c, l, d));
    }
    Linear(piece.Span(), h, s, lows, spreadLows);
  }

  lemma Linear(n: nat, h: A, s: F, f: nat -> A, g: nat -> A)
    requires forall i: nat :: i < n ==> g(i) == AScale(AMul(h, f(i)), s)
    ensures ASum(n, g) == AScale(AMul(h, ASum(n, f)), s)
  {
    hide AAdd, AScale, AMul, ASum;
    var m := (i: nat) => AMul(h, f(i));
    AMulLeft(n, h, f, m);
    AScaled(n, s, m, g);
  }

  /** The direct terms of one row are the cells of that row. */
  lemma RowIsCells(p: Problem, piece: Piece, summaries: seq<A>, adr: BaseAddress, row: nat)
    requires p.Geometry() && UsableLow(p) && Fits(p, piece) && row < piece.rows
    requires |summaries| == CarryCount(p, piece, Low(adr.first, p.LowBits()))
    requires AreSummaries(summaries, p, piece, Low(adr.first, p.LowBits()))
    ensures RowTerms(p, piece, summaries, adr)(row) == CellRows(p, piece, adr)(row)
  {
    hide AAdd, AScale, AMul, ASum, Mul, Eq, Low, Shr, SummaryTerm, Spread, CarryCount, AreSummaries, Summary;
    var addressLow, count := Low(adr.first, p.LowBits()), |summaries|;
    LowBelow(p, adr.first);
    var x := (c: nat, l: nat) => ASum(|p.digits|, (d: nat) => Spread(p, piece, adr, row, c, l, d));
    forall c: nat | c < count
      ensures CarryTerms(p, piece, summaries, adr, row)(c) == ASum(piece.Span(), (l: nat) => x(c, l))
    {
      CarryTermSpreads(p, piece, summaries, adr, row, c);
      ACongruent(piece.Span(), (l: nat) => ASum(|p.digits|, (d: nat) => Spread(p, piece, adr, row, c, l, d)), (l: nat) => x(c, l));
    }
    forall l: nat | l < piece.Span()
      ensures CellLows(p, piece, adr, row)(l) == ASum(count, (c: nat) => x(c, l))
    {
      LowCellsFromCarries(p, piece, adr, row, l, count);
      ACongruent(count, (c: nat) => ASum(|p.digits|, (d: nat) => Spread(p, piece, adr, row, c, l, d)), (c: nat) => x(c, l));
    }
    ASwap(count, piece.Span(), CarryTerms(p, piece, summaries, adr, row), CellLows(p, piece, adr, row), x);
  }

  lemma LowBelow(p: Problem, first: nat)
    requires p.Geometry()
    ensures Low(first, p.LowBits()) < p.LowLen()
  {
    ShrLow(first, p.LowBits());
  }

  lemma LowCellsFromCarries(p: Problem, piece: Piece, adr: BaseAddress, row: nat, l: nat, count: nat)
    requires p.Geometry() && UsableLow(p) && Fits(p, piece) && l < piece.Span()
    requires count == CarryCount(p, piece, Low(adr.first, p.LowBits()))
    ensures CellLows(p, piece, adr, row)(l) ==
      ASum(count, (c: nat) => ASum(|p.digits|, (d: nat) => Spread(p, piece, adr, row, c, l, d)))
  {
    hide AAdd, AScale, AMul, ASum, Mul, Eq, Low, Shr, SummaryTerm, Spread, CarryCount, CellTerm;
    var y := (c: nat, d: nat) => Spread(p, piece, adr, row, c, l, d);
    var carries := (c: nat) => ASum(|p.digits|, (d: nat) => Spread(p, piece, adr, row, c, l, d));
    LowBelow(p, adr.first);
    forall c: nat | c < count
      ensures carries(c) == ASum(|p.digits|, (d: nat) => y(c, d))
    {
      ACongruent(|p.digits|, (d: nat) => Spread(p, piece, adr, row, c, l, d), (d: nat) => y(c, d));
    }
    forall d: nat | d < |p.digits|
      ensures CellDigits(p, piece, adr, row, l)(d) == ASum(count, (c: nat) => y(c, d))
    {
      CarryInRange(p, piece, Low(adr.first, p.LowBits()), l, d);
      CellFromCarries(p, piece, adr, row, l, d, count);
      ACongruent(count, (c: nat) => Spread(p, piece, adr, row, c, l, d), (c: nat) => y(c, d));
    }
    ASwap(count, |p.digits|, carries, CellDigits(p, piece, adr, row, l), y);
  }

  /** A group of addresses with one low residue: the high contraction of its summaries is the
      sum of its address contributions. */
  lemma GroupIsAddresses(p: Problem, piece: Piece, summaries: seq<A>, addressLow: nat, addresses: seq<BaseAddress>)
    requires p.Geometry() && UsableLow(p) && Fits(p, piece)
    requires forall k: nat :: k < |addresses| ==> Low(addresses[k].first, p.LowBits()) == addressLow
    requires |summaries| == CarryCount(p, piece, addressLow) && AreSummaries(summaries, p, piece, addressLow)
    ensures GroupSum(p, piece, summaries, addresses) == AddressesSum(p, piece, addresses)
  {
    hide AAdd, ASum, CarryCount, AreSummaries, Low, CarryTerms;
    forall k: nat | k < |addresses|
      ensures HighTerms(p, piece, summaries, addresses)(k) == AddressTerms(p, piece, addresses)(k)
    {
      var adr := addresses[k];
      forall row: nat | row < piece.rows
        ensures RowTerms(p, piece, summaries, adr)(row) == CellRows(p, piece, adr)(row)
      {
        RowIsCells(p, piece, summaries, adr, row);
      }
      ACongruent(piece.rows, RowTerms(p, piece, summaries, adr), CellRows(p, piece, adr));
    }
    ACongruent(|addresses|, HighTerms(p, piece, summaries, addresses), AddressTerms(p, piece, addresses));
  }

  // ---- The direct loop

  lemma RowHigh(p: Problem, adr: BaseAddress, row: nat)
    requires p.Geometry()
    ensures p.outerStride * p.LowLen() * row >= 0
    ensures Shr(adr.first + p.outerStride * p.LowLen() * row, p.LowBits()) == AddressHigh(p, adr, row)
  {
    hide Low, Shr, Shl;
    var bits, step := p.LowBits(), p.outerStride * row;
    ShrLow(adr.first, bits);
    ShlIsMul(step, bits);
    RowStride(p.outerStride, p.LowLen(), row);
    ShlAdd(Shr(adr.first, bits), step, bits);
    ShrLowUnique(adr.first + p.outerStride * p.LowLen() * row, bits, Shr(adr.first, bits) + step, Low(adr.first, bits));
  }

  method DirectRow(p: Problem, piece: Piece, summaries: seq<A>, adr: BaseAddress, row: nat, eq: AmortizedOffsetEq, out0: A)
    returns (out: A)
    requires p.Geometry() && Fits(p, piece) && row < piece.rows
    requires eq.Valid() && eq.challenges == p.HighChallenges()
    ensures out == AAdd(out0, ASum(|summaries|, CarryTerms(p, piece, summaries, adr, row)))
  {
    hide AAdd, AScale, AMul, ASum, Mul, Eq, Shr, WindowOf;
    var f := CarryTerms(p, piece, summaries, adr, row);
    SourceTotal(p.high, piece.firstHigh + row);
    var highFactor := p.high.Get(piece.firstHigh + row).value;
    RowHigh(p, adr, row);
    var addressHigh := Shr(adr.first + p.outerStride * p.LowLen() * row, p.LowBits());
    out := out0;
    ASumStep(0, f);
    AAddZero(out0);
    for c := 0 to |summaries|
      invariant out == AAdd(out0, ASum(c, f))
    {
      ASumStep(c, f);
      AAddAssoc(out0, ASum(c, f), f(c));
      var eqHigh := eq.Eval(addressHigh + c);
      if eqHigh != Zero {
        out := AAdd(out, AScale(AMul(highFactor, summaries[c]), Mul(eqHigh, adr.scale)));
      } else {
        VanishingTerm(AMul(highFactor, summaries[c]), adr.scale);
        AAddZero(out);
      }
    }
  }

  lemma VanishingTerm(a: A, s: F)
    ensures AScale(a, Mul(Zero, s)) == AZero
  {
    MulComm(Zero, s);
    MulZero(s);
    AScaleTrivial(a, s);
  }

  /** The direct address x row x carry loop. */
  method DirectRows(p: Problem, piece: Piece, summaries: seq<A>, addresses: seq<BaseAddress>, eq: AmortizedOffsetEq, out0: A)
    returns (out: A)
    requires p.Geometry() && Fits(p, piece)
    requires eq.Valid() && eq.challenges == p.HighChallenges()
    modifies eq`window
    ensures eq.Valid()
    ensures out == AAdd(out0, GroupSum(p, piece, summaries, addresses))
  {
    hide AAdd, AScale, AMul, ASum, CarryTerms, WindowOf;
    eq.PrepareForProduct(|addresses|, piece.rows, |summaries|);
    var g := HighTerms(p, piece, summaries, addresses);
    out := out0;
    ASumStep(0, g);
    AAddZero(out0);
    for k := 0 to |addresses|
      invariant eq.Valid() && eq.challenges == p.HighChallenges()
      invariant out == AAdd(out0, ASum(k, g))
    {
      var f := RowTerms(p, piece, summaries, addresses[k]);
      ghost var before := out;
      ASumStep(0, f);
      AAddZero(before);
      for row := 0 to piece.rows
        invariant eq.Valid() && eq.challenges == p.HighChallenges()
        invariant out == AAdd(before, ASum(row, f))
      {
        ASumStep(row, f);
        AAddAssoc(before, ASum(row, f), f(row));
        out := DirectRow(p, piece, summaries, addresses[k], row, eq, out);
      }
      ASumStep(k, g);
      AAddAssoc(out0, ASum(k, g), g(k));
    }
  }

  // ---- The plan

  datatype Plan = Ineligible | Bucketed(window: nat) | TooMuchWork

  /** Whether bucketing pays, and with which window. */
  function BucketedPlan(totalRows: nat, carryCount: nat, highCount: nat): (plan: Plan)
    ensures plan.Bucketed? ==> carryCount > 0 && plan.window == NextPow2(carryCount)
    ensures plan.Bucketed? ==> Log2(plan.window) <= LOW_BITS_CAP && Log2(plan.window) <= highCount
    ensures plan.Bucketed? ==> totalRows >= FAST_HIGH_ROWS_MIN
    ensures totalRows * carryCount <= MAX_COMPACT_STRIDE_TERMS ==> plan != TooMuchWork
  {
    if totalRows < FAST_HIGH_ROWS_MIN || carryCount == 0 then Ineligible
    else
      var window := NextPow2(carryCount);
      var windowBits := Log2(window);
      if windowBits > LOW_BITS_CAP || windowBits > highCount then Ineligible
      else
        var splitBits := highCount - windowBits;
        if splitBits > 2 * HIGH_BITS_CAP then Ineligible
        else
          var splitEntries := Pow2(splitBits / 2) + Pow2(splitBits - splitBits / 2);
          var bucketWork := totalRows * 2 + carryCount * window + window * 3 + splitEntries;
          if bucketWork >= totalRows * carryCount then Ineligible
          else if bucketWork > MAX_COMPACT_STRIDE_TERMS then TooMuchWork
          else Bucketed(window)
  }

  // Buckets of 2^bits positions, the least power of two that holds the carries, within the
  // table caps and cheaper than the direct loop.
  ghost predicate BucketsPay(totalRows: nat, carryCount: nat, highCount: nat, bits: nat) {
    && totalRows >= 8 && 0 < carryCount <= Pow2(bits) && (bits > 0 ==> Pow2(bits - 1) < carryCount)
    && bits <= 16 && bits <= highCount <= bits + 32
    && var work := 2 * totalRows + (carryCount + 3) * Pow2(bits) +
         Pow2((highCount - bits) / 2) + Pow2((highCount - bits + 1) / 2);
       work < totalRows * carryCount && work <= MAX_COMPACT_STRIDE_TERMS
  }

  /** The plan buckets exactly when bucketing pays, with the least window that holds the carries. */
  lemma PlanPays(totalRows: nat, carryCount: nat, highCount: nat, bits: nat)
    ensures BucketedPlan(totalRows, carryCount, highCount) == Bucketed(Pow2(bits)) <==>
            BucketsPay(totalRows, carryCount, highCount, bits)
  {
    hide Pow2, Log2, CeilLog2, BucketedPlan, BucketsPay, NextPow2;
    PlanParts(totalRows, carryCount, highCount);
    NeedsCarries(totalRows, carryCount, highCount, bits);
    if carryCount > 0 {
      var least := CeilLog2(carryCount);
      LeastWindow(carryCount, bits);
      Log2OfPow2(bits);
      Log2OfPow2(least);
      if bits == least { PlanAtLeast(totalRows, carryCount, highCount, bits); }
    }
  }

  lemma PlanParts(totalRows: nat, carryCount: nat, highCount: nat)
    ensures var plan := BucketedPlan(totalRows, carryCount, highCount);
      plan.Bucketed? ==> carryCount > 0 && plan.window == NextPow2(carryCount)
  {}

  lemma NeedsCarries(totalRows: nat, carryCount: nat, highCount: nat, bits: nat)
    ensures BucketsPay(totalRows, carryCount, highCount, bits) ==>
      0 < carryCount <= Pow2(bits) && (bits > 0 ==> Pow2(bits - 1) < carryCount)
  {}

  lemma PlanAtLeast(totalRows: nat, carryCount: nat, highCount: nat, bits: nat)
    requires carryCount > 0 && NextPow2(carryCount) == Pow2(bits) && Log2(Pow2(bits)) == bits
    requires carryCount <= Pow2(bits) && (bits > 0 ==> Pow2(bits - 1) < carryCount)
    ensures BucketedPlan(totalRows, carryCount, highCount) == Bucketed(Pow2(bits)) <==>
            BucketsPay(totalRows, carryCount, highCount, bits)
  {
    hide Pow2, Log2, NextPow2;
    DistributeOver(carryCount, 3, Pow2(bits));
    if bits <= highCount {
      var split: nat := highCount - bits;
      assert split - split / 2 == (split + 1) / 2;
    }
  }

  lemma LeastWindow(n: nat, bits: nat)
    requires n > 0
    ensures NextPow2(n) == Pow2(CeilLog2(n))
    ensures bits == CeilLog2(n) <==> n <= Pow2(bits) && (bits > 0 ==> Pow2(bits - 1) < n)
  {
    var least := CeilLog2(n);
    Pow2Exceeds(n);
    if least > 0 { Pow2Step(least - 1); }
    if bits < least { Pow2Monotone(bits, least - 1); }
    if bits > least { Pow2Monotone(least, bits - 1); }
  }

  // ---- Buckets

  function BucketAt(bucket: seq<A>, i: nat): A {
    if i < |bucket| then bucket[i] else AZero
  }

  // The weight position p of the window gives to carry c.
  ghost function PhiTerms(b0: seq<A>, b1: seq<A>, eqLow: seq<F>, c: nat): nat -> A {
    var window := |eqLow|;
    (pos: nat) =>
      if pos + c < window then AScale(BucketAt(b0, pos), eqLow[pos + c])
      else AScale(BucketAt(b1, pos), Sums.At(eqLow, pos + c - window))
  }

  ghost function Phi(b0: seq<A>, b1: seq<A>, eqLow: seq<F>, c: nat): A {
    ASum(|eqLow|, PhiTerms(b0, b1, eqLow, c))
  }

  // What one address and row put on carry c.
  ghost function PhiShare(p: Problem, piece: Piece, adr: BaseAddress, row: nat, c: nat): A
    requires p.Geometry()
  {
    AScale(p.high.At(piece.firstHigh + row), Mul(Eq(p.HighChallenges(), AddressHigh(p, adr, row) + c), adr.scale))
  }

  lemma PhiOfZeros(b0: seq<A>, b1: seq<A>, eqLow: seq<F>, c: nat)
    requires forall i: nat :: i < |b0| ==> b0[i] == AZero
    requires forall i: nat :: i < |b1| ==> b1[i] == AZero
    ensures Phi(b0, b1, eqLow, c) == AZero
  {
    hide AScale, AAdd, ASum;
    forall pos: nat | pos < |eqLow|
      ensures PhiTerms(b0, b1, eqLow, c)(pos) == AZero
    {
      AScaleTrivial(AZero, Sums.At(eqLow, if pos + c < |eqLow| then pos + c else pos + c - |eqLow|));
    }
    AAllZero(|eqLow|, PhiTerms(b0, b1, eqLow, c));
  }

  /** Adding to one bucket position changes each carry's weight by that position's share. */
  lemma BucketStep(b0: seq<A>, b1: seq<A>, eqLow: seq<F>, c: nat, pos: nat, x0: A, x1: A)
    requires |b0| == |b1| == |eqLow| && pos < |eqLow|
    ensures Phi(b0[pos := AAdd(b0[pos], x0)], b1[pos := AAdd(b1[pos], x1)], eqLow, c) ==
      AAdd(Phi(b0, b1, eqLow, c),
        if pos + c < |eqLow| then AScale(x0, eqLow[pos + c]) else AScale(x1, Sums.At(eqLow, pos + c - |eqLow|)))
  {
    hide AScale, AAdd, ASum, Sums.At;
    var window := |eqLow|;
    var share := if pos + c < window then AScale(x0, eqLow[pos + c]) else AScale(x1, Sums.At(eqLow, pos + c - window));
    var before := PhiTerms(b0, b1, eqLow, c);
    var after := PhiTerms(b0[pos := AAdd(b0[pos], x0)], b1[pos := AAdd(b1[pos], x1)], eqLow, c);
    var delta := (i: nat) => if i == pos then share else AZero;
    forall i: nat | i < window
      ensures after(i) == AAdd(before(i), delta(i))
    {
      if i == pos {
        AScaleMixes(b0[pos], x0, Sums.At(eqLow, pos + c));
        AScaleMixes(b1[pos], x1, Sums.At(eqLow, if pos + c < window then 0 else pos + c - window));
        AtInside(eqLow, pos + c);
      } else {
        AAddZero(before(i));
      }
    }
    APlus(window, before, delta, after);
    ASingle(window, delta, pos);
  }

  lemma AtInside(s: seq<F>, i: nat)
    ensures i < |s| ==> Sums.At(s, i) == s[i]
  {}

  /** Buckets add position by position, and so do the weights: tasks may be split at will. */
  lemma PhiAdds(a0: seq<A>, a1: seq<A>, b0: seq<A>, b1: seq<A>, c0: seq<A>, c1: seq<A>, eqLow: seq<F>, c: nat)
    requires |a0| == |a1| == |b0| == |b1| == |c0| == |c1| == |eqLow|
    requires forall i: nat :: i < |eqLow| ==> c0[i] == AAdd(a0[i], b0[i]) && c1[i] == AAdd(a1[i], b1[i])
    ensures Phi(c0, c1, eqLow, c) == AAdd(Phi(a0, a1, eqLow, c), Phi(b0, b1, eqLow, c))
  {
    hide AScale, AAdd, ASum, Sums.At;
    forall i: nat | i < |eqLow|
      ensures PhiTerms(c0, c1, eqLow, c)(i) == AAdd(PhiTerms(a0, a1, eqLow, c)(i), PhiTerms(b0, b1, eqLow, c)(i))
    {
      if i + c < |eqLow| {
        AScaleMixes(a0[i], b0[i], eqLow[i + c]);
      } else {
        AScaleMixes(a1[i], b1[i], Sums.At(eqLow, i + c - |eqLow|));
      }
    }
    APlus(|eqLow|, PhiTerms(a0, a1, eqLow, c), PhiTerms(b0, b1, eqLow, c), PhiTerms(c0, c1, eqLow, c));
  }

  /** A row's carry window touches at most two blocks of the split point: the block of its first
      address while the position stays inside the window, the next block after that. */
  lemma CarryInTwoBlocks(highChallenges: seq<F>, windowBits: nat, addressHigh: nat, c: nat)
    requires windowBits <= |highChallenges| && c < Pow2(windowBits)
    ensures var pos, block, window := Low(addressHigh, windowBits), Shr(addressHigh, windowBits), Pow2(windowBits);
      && pos < window
      && Eq(highChallenges, addressHigh + c) ==
        (if pos + c < window
         then Mul(Eq(highChallenges[..windowBits], pos + c), Eq(highChallenges[windowBits..], block))
         else Mul(Eq(highChallenges[..windowBits], pos + c - window), Eq(highChallenges[windowBits..], block + 1)))
  {
    hide Low, Shr, Shl, Eq, Mul;
    var pos, block, window := Low(addressHigh, windowBits), Shr(addressHigh, windowBits), Pow2(windowBits);
    ShrLow(addressHigh, windowBits);
    ShlPlusOne(block, windowBits);
    Cut(highChallenges, windowBits, addressHigh + c);
    if pos + c < window {
      ShrLowUnique(addressHigh + c, windowBits, block, pos + c);
    } else {
      ShrLowUnique(addressHigh + c, windowBits, block + 1, pos + c - window);
    }
  }

  // The tables of the bucketed kernel: the window table and the split table of the rest.
  datatype Tables = Tables(windowBits: nat, eqLow: seq<F>, split: SplitEqEvals)

  ghost predicate TablesFor(t: Tables, highChallenges: seq<F>) {
    && t.windowBits <= |highChallenges|
    && t.eqLow == EqTable(highChallenges[..t.windowBits], One)
    && SplitOf(t.split, highChallenges[t.windowBits..])
  }

  // A block past the high domain contributes zero.
  method EvalHigh(t: Tables, ghost highChallenges: seq<F>, highDomain: nat, block: nat) returns (value: F)
    requires TablesFor(t, highChallenges) && highDomain == Pow2(|highChallenges| - t.windowBits)
    ensures value == Eq(highChallenges[t.windowBits..], block)
  {
    hide EqTable, Eq;
    if block < highDomain {
      var v := EvalAt(t.split, highChallenges[t.windowBits..], block);
      value := v.value;
    } else {
      OutOfDomain(highChallenges[t.windowBits..], block);
      value := Zero;
    }
  }

  /** One row into the buckets: each carry's weight grows by the row's share. */
  method AddRow(p: Problem, piece: Piece, adr: BaseAddress, row: nat, t: Tables, b0: seq<A>, b1: seq<A>)
    returns (r0: seq<A>, r1: seq<A>)
    requires p.Geometry() && Fits(p, piece) && row < piece.rows && TablesFor(t, p.HighChallenges())
    requires |b0| == |b1| == |t.eqLow|
    ensures |r0| == |r1| == |t.eqLow|
    ensures forall c: nat :: c < |t.eqLow| ==>
      Phi(r0, r1, t.eqLow, c) == AAdd(Phi(b0, b1, t.eqLow, c), PhiShare(p, piece, adr, row, c))
  {
    hide AScale, AAdd, ASum, Mul, Eq, EqTable, Shr, Low, SplitOf, Phi;
    var highDomain := Pow2(|p.HighChallenges()| - t.windowBits);
    var addressHigh := AddressHigh(p, adr, row);
    var pos, block := Low(addressHigh, t.windowBits), Shr(addressHigh, t.windowBits);
    var eqBlock0 := EvalHigh(t, p.HighChallenges(), highDomain, block);
    var eqBlock1 := EvalHigh(t, p.HighChallenges(), highDomain, block + 1);
    SourceTotal(p.high, piece.firstHigh + row);
    var highFactor := p.high.Get(piece.firstHigh + row).value;
    var x0, x1 := AScale(highFactor, Mul(eqBlock0, adr.scale)), AScale(highFactor, Mul(eqBlock1, adr.scale));
    ShrLow(addressHigh, t.windowBits);
    r0, r1 := b0[pos := AAdd(b0[pos], x0)], b1[pos := AAdd(b1[pos], x1)];
    forall c: nat | c < |t.eqLow|
      ensures Phi(r0, r1, t.eqLow, c) == AAdd(Phi(b0, b1, t.eqLow, c), PhiShare(p, piece, adr, row, c))
    {
      BucketStep(b0, b1, t.eqLow, c, pos, x0, x1);
      RowShare(p, piece, adr, row, t, c, eqBlock0, eqBlock1);
    }
  }

  lemma RowShare(p: Problem, piece: Piece, adr: BaseAddress, row: nat, t: Tables, c: nat, eqBlock0: F, eqBlock1: F)
    requires p.Geometry() && TablesFor(t, p.HighChallenges()) && c < |t.eqLow|
    requires var rest, block := p.HighChallenges()[t.windowBits..], Shr(AddressHigh(p, adr, row), t.windowBits);
      eqBlock0 == Eq(rest, block) && eqBlock1 == Eq(rest, block + 1)
    ensures var pos, h := Low(AddressHigh(p, adr, row), t.windowBits), p.high.At(piece.firstHigh + row);
      && pos < |t.eqLow|
      && PhiShare(p, piece, adr, row, c) ==
        (if pos + c < |t.eqLow| then AScale(AScale(h, Mul(eqBlock0, adr.scale)), t.eqLow[pos + c])
         else AScale(AScale(h, Mul(eqBlock1, adr.scale)), Sums.At(t.eqLow, pos + c - |t.eqLow|)))
  {
    hide AScale, Mul, Eq, EqTable, Shr, Low, SplitOf;
    var pos, h := Low(AddressHigh(p, adr, row), t.windowBits), p.high.At(piece.firstHigh + row);
    CarryInTwoBlocks(p.HighChallenges(), t.windowBits, AddressHigh(p, adr, row), c);
    var index := if pos + c < |t.eqLow| then pos + c else pos + c - |t.eqLow|;
    UnitTable(p.HighChallenges()[..t.windowBits], index);
    var eqBlock := if pos + c < |t.eqLow| then eqBlock0 else eqBlock1;
    ShareValue(h, eqBlock, adr.scale, t.eqLow[index]);
  }

  lemma ShareValue(h: A, eqBlock: F, scale: F, eqLow: F)
    ensures AScale(h, Mul(Mul(eqLow, eqBlock), scale)) == AScale(AScale(h, Mul(eqBlock, scale)), eqLow)
  {
    AScaleSplits(h, Mul(eqBlock, scale), eqLow);
    ShareScalar(eqBlock, scale, eqLow);
  }

  lemma ShareScalar(eqBlock: F, scale: F, eqLow: F)
    ensures Mul(Mul(eqLow, eqBlock), scale) == Mul(Mul(eqBlock, scale), eqLow)
  { Products(); }

  ghost function ShareRows(p: Problem, piece: Piece, adr: BaseAddress, c: nat): nat -> A
    requires p.Geometry()
  {
    (row: nat) => PhiShare(p, piece, adr, row, c)
  }

  ghost function ShareTerms(p: Problem, piece: Piece, addresses: seq<BaseAddress>, c: nat): nat -> A
    requires p.Geometry()
  {
    (k: nat) => if k < |addresses| then ASum(piece.rows, ShareRows(p, piece, addresses[k], c)) else AZero
  }

  /** One task: fresh buckets over a range of addresses. */
  method BucketTask(p: Problem, piece: Piece, addresses: seq<BaseAddress>, t: Tables) returns (b0: seq<A>, b1: seq<A>)
    requires p.Geometry() && Fits(p, piece) && TablesFor(t, p.HighChallenges())
    ensures |b0| == |b1| == |t.eqLow|
    ensures forall c: nat :: c < |t.eqLow| ==>
      Phi(b0, b1, t.eqLow, c) == ASum(|addresses|, ShareTerms(p, piece, addresses, c))
  {
    hide AScale, AAdd, ASum, Phi, PhiShare, TablesFor;
    var window := |t.eqLow|;
    b0, b1 := seq(window, _ => AZero), seq(window, _ => AZero);
    forall c: nat | c < window
      ensures Phi(b0, b1, t.eqLow, c) == ASum(0, ShareTerms(p, piece, addresses, c))
    {
      PhiOfZeros(b0, b1, t.eqLow, c);
      ASumStep(0, ShareTerms(p, piece, addresses, c));
    }
    for k := 0 to |addresses|
      invariant |b0| == |b1| == window
      invariant forall c: nat :: c < window ==> Phi(b0, b1, t.eqLow, c) == ASum(k, ShareTerms(p, piece, addresses, c))
    {
      b0, b1 := AddAddress(p, piece, addresses[k], t, b0, b1);
      forall c: nat | c < window
        ensures Phi(b0, b1, t.eqLow, c) == ASum(k + 1, ShareTerms(p, piece, addresses, c))
      {
        ASumStep(k, ShareTerms(p, piece, addresses, c));
      }
    }
  }

  method AddAddress(p: Problem, piece: Piece, adr: BaseAddress, t: Tables, c0: seq<A>, c1: seq<A>) returns (b0: seq<A>, b1: seq<A>)
    requires p.Geometry() && Fits(p, piece) && TablesFor(t, p.HighChallenges()) && |c0| == |c1| == |t.eqLow|
    ensures |b0| == |b1| == |t.eqLow|
    ensures forall c: nat :: c < |t.eqLow| ==>
      Phi(b0, b1, t.eqLow, c) == AAdd(Phi(c0, c1, t.eqLow, c), ASum(piece.rows, ShareRows(p, piece, adr, c)))
  {
    hide AScale, AAdd, ASum, Phi, PhiShare, TablesFor;
    var window := |t.eqLow|;
    b0, b1 := c0, c1;
    forall c: nat | c < window
      ensures Phi(b0, b1, t.eqLow, c) == AAdd(Phi(c0, c1, t.eqLow, c), ASum(0, ShareRows(p, piece, adr, c)))
    {
      ASumStep(0, ShareRows(p, piece, adr, c));
      AAddZero(Phi(c0, c1, t.eqLow, c));
    }
    for row := 0 to piece.rows
      invariant |b0| == |b1| == window
      invariant forall c: nat :: c < window ==>
        Phi(b0, b1, t.eqLow, c) == AAdd(Phi(c0, c1, t.eqLow, c), ASum(row, ShareRows(p, piece, adr, c)))
    {
      b0, b1 := AddRow(p, piece, adr, row, t, b0, b1);
      forall c: nat | c < window
        ensures Phi(b0, b1, t.eqLow, c) == AAdd(Phi(c0, c1, t.eqLow, c), ASum(row + 1, ShareRows(p, piece, adr, c)))
      {
        ASumStep(row, ShareRows(p, piece, adr, c));
        AAddAssoc(Phi(c0, c1, t.eqLow, c), ASum(row, ShareRows(p, piece, adr, c)), PhiShare(p, piece, adr, row, c));
      }
    }
  }

  method AddBuckets(a: seq<A>, b: seq<A>) returns (r: seq<A>)
    requires |a| == |b|
    ensures |r| == |a| && forall i: nat :: i < |a| ==> r[i] == AAdd(a[i], b[i])
  {
    hide AAdd;
    r := [];
    for i := 0 to |a|
      invariant |r| == i && forall k: nat :: k < i ==> r[k] == AAdd(a[k], b[k])
    {
      r := r + [AAdd(a[i], b[i])];
    }
  }

  /** All tasks, reduced by adding their buckets. The number of tasks does not show. */
  method FillBuckets(p: Problem, piece: Piece, addresses: seq<BaseAddress>, t: Tables, taskCount: nat)
    returns (b0: seq<A>, b1: seq<A>)
    requires p.Geometry() && Fits(p, piece) && TablesFor(t, p.HighChallenges())
    requires taskCount == 1 || taskCount == |addresses| > 0
    ensures |b0| == |b1| == |t.eqLow|
    ensures forall c: nat :: c < |t.eqLow| ==>
      Phi(b0, b1, t.eqLow, c) == ASum(|addresses|, ShareTerms(p, piece, addresses, c))
  {
    hide AScale, AAdd, ASum, Phi, PhiShare, TablesFor;
    var window := |t.eqLow|;
    b0, b1 := seq(window, _ => AZero), seq(window, _ => AZero);
    forall c: nat | c < window
      ensures Phi(b0, b1, t.eqLow, c) == ASum(0, ShareTerms(p, piece, addresses, c))
    {
      PhiOfZeros(b0, b1, t.eqLow, c);
      ASumStep(0, ShareTerms(p, piece, addresses, c));
    }
    var perTask := if taskCount == 1 then |addresses| else 1;
    var done := 0;
    for task := 0 to taskCount
      invariant done == (if taskCount == 1 then (if task == 0 then 0 else |addresses|) else task)
      invariant done <= |addresses| && |b0| == |b1| == window
      invariant forall c: nat :: c < window ==> Phi(b0, b1, t.eqLow, c) == ASum(done, ShareTerms(p, piece, addresses, c))
    {
      var end := Min(done + perTask, |addresses|);
      var t0, t1 := BucketTask(p, piece, addresses[done..end], t);
      var s0 := AddBuckets(b0, t0);
      var s1 := AddBuckets(b1, t1);
      forall c: nat | c < window
        ensures Phi(s0, s1, t.eqLow, c) == ASum(end, ShareTerms(p, piece, addresses, c))
      {
        PhiAdds(b0, b1, t0, t1, s0, s1, t.eqLow, c);
        ASplit(done, end - done, ShareTerms(p, piece, addresses, c), ShareTerms(p, piece, addresses[done..end], c));
      }
      b0, b1, done := s0, s1, end;
    }
  }

  // ---- The combine

  method CombineCarry(b0: seq<A>, b1: seq<A>, eqLow: seq<F>, c: nat) returns (phi: A)
    requires |b0| == |b1| == |eqLow| && c <= |eqLow|
    ensures phi == Phi(b0, b1, eqLow, c)
  {
    hide AScale, AAdd, ASum;
    phi := AZero;
    ghost var f := PhiTerms(b0, b1, eqLow, c);
    ASumStep(0, f);
    for pos := 0 to |eqLow|
      invariant phi == ASum(pos, f)
    {
      ASumStep(pos, f);
      var shifted := pos + c;
      if shifted < |eqLow| {
        phi := AAdd(phi, AScale(b0[pos], eqLow[shifted]));
      } else {
        phi := AAdd(phi, AScale(b1[pos], eqLow[shifted - |eqLow|]));
      }
    }
  }

  ghost function CombinedTerms(p: Problem, piece: Piece, summaries: seq<A>, addresses: seq<BaseAddress>): nat -> A
    requires p.Geometry()
  {
    (c: nat) => if c < |summaries| then AMul(ASum(|addresses|, ShareTerms(p, piece, addresses, c)), summaries[c]) else AZero
  }

  /** Multiplying each carry's weight by its summary gives the direct sum. */
  lemma CombinedIsDirect(p: Problem, piece: Piece, summaries: seq<A>, addresses: seq<BaseAddress>)
    requires p.Geometry()
    ensures ASum(|summaries|, CombinedTerms(p, piece, summaries, addresses)) == GroupSum(p, piece, summaries, addresses)
  {
    hide AScale, AAdd, ASum, AMul, PhiShare, DirectTerm;
    var x := (c: nat, k: nat) => ColumnEntry(p, piece, summaries, addresses, c, k);
    forall c: nat | c < |summaries|
      ensures CombinedTerms(p, piece, summaries, addresses)(c) == ASum(|addresses|, (k: nat) => x(c, k))
    {
      CombinedCarry(p, piece, summaries, addresses, c);
      ACongruent(|addresses|, CarryColumn(p, piece, summaries, addresses, c), (k: nat) => x(c, k));
    }
    forall k: nat | k < |addresses|
      ensures HighTerms(p, piece, summaries, addresses)(k) == ASum(|summaries|, (c: nat) => x(c, k))
    {
      AddressByCarry(p, piece, summaries, addresses[k]);
      ACongruent(|summaries|, (c: nat) => ASum(piece.rows, (row: nat) => DirectTerm(p, piece, summaries, addresses[k], row, c)),
        (c: nat) => x(c, k));
    }
    ASwap(|summaries|, |addresses|, CombinedTerms(p, piece, summaries, addresses), HighTerms(p, piece, summaries, addresses), x);
  }

  ghost function ColumnEntry(p: Problem, piece: Piece, summaries: seq<A>, addresses: seq<BaseAddress>, c: nat, k: nat): A
    requires p.Geometry()
  {
    if k < |addresses|
    then ASum(piece.rows, (row: nat) => DirectTerm(p, piece, summaries, addresses[k], row, c)) else AZero
  }

  ghost function CarryColumn(p: Problem, piece: Piece, summaries: seq<A>, addresses: seq<BaseAddress>, c: nat): nat -> A
    requires p.Geometry()
  {
    (k: nat) => ColumnEntry(p, piece, summaries, addresses, c, k)
  }

  lemma CombinedCarry(p: Problem, piece: Piece, summaries: seq<A>, addresses: seq<BaseAddress>, c: nat)
    requires p.Geometry() && c < |summaries|
    ensures AMul(ASum(|addresses|, ShareTerms(p, piece, addresses, c)), summaries[c]) ==
      ASum(|addresses|, CarryColumn(p, piece, summaries, addresses, c))
  {
    hide AScale, AAdd, ASum, AMul, Mul, Eq;
    forall k: nat | k < |addresses|
      ensures CarryColumn(p, piece, summaries, addresses, c)(k) == AMul(ShareTerms(p, piece, addresses, c)(k), summaries[c])
    {
      var f := (row: nat) => DirectTerm(p, piece, summaries, addresses[k], row, c);
      forall row: nat | row < piece.rows
        ensures f(row) == AMul(ShareRows(p, piece, addresses[k], c)(row), summaries[c])
      {
        AScaleMixes(p.high.At(piece.firstHigh + row), summaries[c],
          Mul(Eq(p.HighChallenges(), AddressHigh(p, addresses[k], row) + c), addresses[k].scale));
      }
      AMulRight(piece.rows, ShareRows(p, piece, addresses[k], c), summaries[c], f);
    }
    AMulRight(|addresses|, ShareTerms(p, piece, addresses, c), summaries[c], CarryColumn(p, piece, summaries, addresses, c));
  }

  lemma AddressByCarry(p: Problem, piece: Piece, summaries: seq<A>, adr: BaseAddress)
    requires p.Geometry()
    ensures ASum(piece.rows, RowTerms(p, piece, summaries, adr)) ==
      ASum(|summaries|, (c: nat) => ASum(piece.rows, (row: nat) => DirectTerm(p, piece, summaries, adr, row, c)))
  {
    hide AScale, AAdd, ASum, AMul, DirectTerm;
    var y := (row: nat, c: nat) => DirectTerm(p, piece, summaries, adr, row, c);
    var byCarry := (c: nat) => ASum(piece.rows, (row: nat) => DirectTerm(p, piece, summaries, adr, row, c));
    forall row: nat | row < piece.rows
      ensures RowTerms(p, piece, summaries, adr)(row) == ASum(|summaries|, (c: nat) => y(row, c))
    {
      ACongruent(|summaries|, CarryTerms(p, piece, summaries, adr, row), (c: nat) => y(row, c));
    }
    forall c: nat | c < |summaries|
      ensures byCarry(c) == ASum(piece.rows, (row: nat) => y(row, c))
    {
      ACongruent(piece.rows, (row: nat) => DirectTerm(p, piece, summaries, adr, row, c), (row: nat) => y(row, c));
    }
    ASwap(piece.rows, |summaries|, RowTerms(p, piece, summaries, adr), byCarry, y);
  }

  /** The carry-bucketed kernel adds exactly what the direct loop would add. */
  method BucketedRows(p: Problem, piece: Piece, summaries: seq<A>, addresses: seq<BaseAddress>, window: nat, out0: A)
    returns (out: A)
    requires p.Geometry() && Fits(p, piece) && |summaries| > 0 && |addresses| > 0
    requires window == NextPow2(|summaries|) && Log2(window) <= |p.HighChallenges()|
    ensures out == AAdd(out0, GroupSum(p, piece, summaries, addresses))
  {
    hide AScale, AAdd, ASum, AMul, EqTable, SplitOf, Phi, GroupSum;
    var windowBits := Log2(window);
    var eqLow := Evals(p.HighChallenges()[..windowBits], One);
    var split := NewSplit(p.HighChallenges()[windowBits..]);
    var t := Tables(windowBits, eqLow, split);
    var taskCount := if piece.rows * |addresses| >= PARALLEL_HIGH_ROWS_MIN then |addresses| else 1;
    var b0, b1 := FillBuckets(p, piece, addresses, t, taskCount);
    out := out0;
    ghost var f := CombinedTerms(p, piece, summaries, addresses);
    ASumStep(0, f);
    AAddZero(out0);
    for c := 0 to |summaries|
      invariant out == AAdd(out0, ASum(c, f))
    {
      ASumStep(c, f);
      AAddAssoc(out0, ASum(c, f), f(c));
      var phi := CombineCarry(b0, b1, eqLow, c);
      out := AAdd(out, AMul(phi, summaries[c]));
    }
    CombinedIsDirect(p, piece, summaries, addresses);
  }
}
