/**
 The affine digit-interval contraction: the reference triple sum, and its decomposition into
 rows of low blocks.
 */
module AffineSpec {
  import opened Field
  import opened Arith
  import opened EqPolynomial
  import opened Weights
  import Sums

  /** Random-access outer weights: a dense slice, or an outer-major Cartesian product. */
  datatype Source = Dense(weights: seq<A>) | Product(outer: seq<A>, inner: seq<A>) {
    function Len(): nat {
      match this
      case Dense(weights) => |weights|
      case Product(outer, inner) => |outer| * |inner|
    }

    function Get(i: nat): Option<A> {
      match this
      case Dense(weights) => if i < |weights| then Some(weights[i]) else None
      case Product(outer, inner) =>
        if |inner| == 0 || i / |inner| >= |outer| then None
        else Some(AMul(outer[i / |inner|], inner[i % |inner|]))
    }

    function At(i: nat): A {
      if Get(i).Some? then Get(i).value else AZero
    }
  }

  /** A source answers exactly below its length. */
  lemma SourceTotal(h: Source, i: nat)
    ensures h.Get(i).Some? <==> i < h.Len()
  {
    match h
    case Dense(_) =>
    case Product(outer, inner) =>
      if |inner| > 0 {
        DivMod(i, |inner|);
        if i < |outer| * |inner| { DivBound(i, |inner|, |outer|); }
        if i / |inner| < |outer| {
          MulMonotone(i / |inner| + 1, |outer|, |inner|);
          assert (i / |inner| + 1) * |inner| == i / |inner| * |inner| + |inner|;
        }
      }
  }

  /** A dense source is its slice. */
  lemma DenseEntries(weights: seq<A>, i: nat)
    ensures Dense(weights).Len() == |weights|
    ensures i < |weights| ==> Dense(weights).At(i) == weights[i]
  {}

  /** A product source is outer-major: the entry of (j, k) stands at j * |inner| + k, and there
      are no others. */
  lemma ProductEntries(outer: seq<A>, inner: seq<A>, j: nat, k: nat)
    requires j < |outer| && k < |inner|
    ensures Product(outer, inner).Len() == |outer| * |inner|
    ensures j * |inner| + k < |outer| * |inner|
    ensures Product(outer, inner).At(j * |inner| + k) == AMul(outer[j], inner[k])
  {
    DivModUnique(j * |inner| + k, |inner|, j, k);
    MulMonotone(j + 1, |outer|, |inner|);
    assert (j + 1) * |inner| == j * |inner| + |inner|;
  }

  datatype Problem = Problem(
    challenges: seq<F>,
    bases: seq<nat>,
    outerStart: nat,
    outerStride: nat,
    digitStride: nat,
    digits: seq<F>,
    high: Source,
    low: seq<A>,
    scales: seq<F>)
  {
    // An empty low factor is the identity on a low domain of one point.
    function LowLen(): (q: nat)
      ensures q > 0
    {
      if |low| == 0 then 1 else |low|
    }

    function LowBits(): nat { Log2(LowLen()) }

    function DigitSpan(): nat
      requires |digits| > 0
    {
      (|digits| - 1) * digitStride
    }

    function LowChallenges(): seq<F>
      requires LowBits() <= |challenges|
    {
      challenges[..LowBits()]
    }

    function HighChallenges(): seq<F>
      requires LowBits() <= |challenges|
    {
      challenges[LowBits()..]
    }

    // No scales means a unit scale for every base.
    function BaseScale(b: nat): F
      requires b < |bases| && (|scales| == 0 || |scales| == |bases|)
    {
      if |scales| == 0 then One else scales[b]
    }

    ghost predicate Geometry() {
      && (|scales| == 0 || |scales| == |bases|)
      && IsPow2(LowLen()) && LowBits() <= |challenges|
      && |digits| > 0 && digitStride > 0 && DigitSpan() < outerStride
    }

    // high[i / Q] * low[i % Q]
    ghost function Weight(i: nat): A {
      if |low| == 0 then high.At(i) else AMul(high.At(i / |low|), low[i % |low|])
    }

    ghost function Address(b: nat, i: nat, d: nat): nat
      requires b < |bases|
    {
      bases[b] + outerStride * i + digitStride * d
    }

    // One term of the reference sum, at outer index outerStart + i.
    ghost function Term(b: nat, i: nat, d: nat): A {
      if b < |bases| && d < |digits| && (|scales| == 0 || |scales| == |bases|) then
        AScale(Weight(outerStart + i), Mul(Mul(BaseScale(b), digits[d]), Eq(challenges, Address(b, i, d))))
      else AZero
    }

    ghost function DigitTerms(b: nat, i: nat): nat -> A {
      (d: nat) => Term(b, i, d)
    }

    ghost function OuterTerms(b: nat, from: nat): nat -> A {
      (i: nat) => ASum(|digits|, DigitTerms(b, from + i))
    }

    ghost function BaseTerms(from: nat, len: nat): nat -> A {
      (b: nat) => ASum(len, OuterTerms(b, from))
    }

    /** The reference: the sum over bases, over outer indices from..from + len, over digits. */
    ghost function WindowSum(from: nat, len: nat): A {
      ASum(|bases|, BaseTerms(from, len))
    }
  }

  lemma WindowSplit(p: Problem, from: nat, a: nat, b: nat)
    ensures p.WindowSum(from, a + b) == AAdd(p.WindowSum(from, a), p.WindowSum(from + a, b))
  {
    hide AAdd, ASum;
    forall base: nat | base < |p.bases|
      ensures p.BaseTerms(from, a + b)(base) == AAdd(p.BaseTerms(from, a)(base), p.BaseTerms(from + a, b)(base))
    {
      ASplit(a, b, p.OuterTerms(base, from), p.OuterTerms(base, from + a));
    }
    APlus(|p.bases|, p.BaseTerms(from, a), p.BaseTerms(from + a, b), p.BaseTerms(from, a + b));
  }

  lemma WindowEmpty(p: Problem, from: nat)
    ensures p.WindowSum(from, 0) == AZero
  {
    hide AAdd;
    forall b: nat ensures p.BaseTerms(from, 0)(b) == AZero { ASumStep(0, p.OuterTerms(b, from)); }
    AAllZero(|p.bases|, p.BaseTerms(from, 0));
  }

  // ---- Product sources and scales, read off the reference

  // The term of a product source at outer entry j, inner entry k.
  ghost function PairTerm(p: Problem, b: nat, j: nat, k: nat, d: nat): A
    requires p.high.Product?
  {
    if b < |p.bases| && j < |p.high.outer| && k < |p.high.inner| && d < |p.digits| && (|p.scales| == 0 || |p.scales| == |p.bases|) then
      AScale(AMul(p.high.outer[j], p.high.inner[k]),
        Mul(Mul(p.BaseScale(b), p.digits[d]),
          Eq(p.challenges, p.bases[b] + p.outerStride * (j * |p.high.inner| + k) + p.digitStride * d)))
    else AZero
  }

  ghost function PairDigits(p: Problem, b: nat, j: nat, k: nat): nat -> A
    requires p.high.Product?
  {
    (d: nat) => PairTerm(p, b, j, k, d)
  }

  ghost function PairInner(p: Problem, b: nat, j: nat): nat -> A
    requires p.high.Product?
  {
    (k: nat) => ASum(|p.digits|, PairDigits(p, b, j, k))
  }

  ghost function PairOuter(p: Problem, b: nat): nat -> A
    requires p.high.Product?
  {
    (j: nat) => ASum(|p.high.inner|, PairInner(p, b, j))
  }

  ghost function PairBases(p: Problem, rows: nat): nat -> A
    requires p.high.Product?
  {
    (b: nat) => ASum(rows, PairOuter(p, b))
  }

  /** With a product source the window over its first rows is the double sum over outer and
      inner entries, outer-major, for every base and digit. */
  lemma ProductWindow(p: Problem, rows: nat)
    requires p.high.Product? && |p.low| == 0 && p.outerStart == 0 && (|p.scales| == 0 || |p.scales| == |p.bases|)
    requires rows <= |p.high.outer|
    ensures rows * |p.high.inner| >= 0
    ensures p.WindowSum(0, rows * |p.high.inner|) == ASum(|p.bases|, PairBases(p, rows))
  {
    hide AAdd, AScale, ASum, PairTerm;
    var m := |p.high.inner|;
    MulMonotone(0, rows, m);
    forall b: nat | b < |p.bases|
      ensures p.BaseTerms(0, rows * m)(b) == PairBases(p, rows)(b)
    {
      forall j: nat | j < rows
        ensures PairOuter(p, b)(j) == ASum(m, (k: nat) => p.OuterTerms(b, 0)(j * m + k))
      {
        PairRow(p, b, j);
      }
      ABlocks(rows, m, p.OuterTerms(b, 0), PairOuter(p, b));
    }
    ACongruent(|p.bases|, p.BaseTerms(0, rows * m), PairBases(p, rows));
  }

  lemma PairRow(p: Problem, b: nat, j: nat)
    requires p.high.Product? && |p.low| == 0 && p.outerStart == 0 && (|p.scales| == 0 || |p.scales| == |p.bases|)
    requires b < |p.bases| && j < |p.high.outer|
    ensures PairOuter(p, b)(j) == ASum(|p.high.inner|, (k: nat) => p.OuterTerms(b, 0)(j * |p.high.inner| + k))
  {
    hide AAdd, AScale, ASum, PairTerm;
    var m := |p.high.inner|;
    forall k: nat | k < m
      ensures PairInner(p, b, j)(k) == p.OuterTerms(b, 0)(j * m + k)
    {
      forall d: nat | d < |p.digits|
        ensures PairDigits(p, b, j, k)(d) == p.DigitTerms(b, 0 + (j * m + k))(d)
      {
        PairIsTerm(p, b, j, k, d);
      }
      ACongruent(|p.digits|, PairDigits(p, b, j, k), p.DigitTerms(b, 0 + (j * m + k)));
    }
    ACongruent(m, PairInner(p, b, j), (k: nat) => p.OuterTerms(b, 0)(j * m + k));
  }

  lemma PairIsTerm(p: Problem, b: nat, j: nat, k: nat, d: nat)
    requires p.high.Product? && |p.low| == 0 && p.outerStart == 0 && (|p.scales| == 0 || |p.scales| == |p.bases|)
    requires b < |p.bases| && j < |p.high.outer| && k < |p.high.inner| && d < |p.digits|
    ensures j * |p.high.inner| + k >= 0
    ensures PairTerm(p, b, j, k, d) == p.Term(b, j * |p.high.inner| + k, d)
  {
    hide AScale, AMul, Eq, Mul;
    ProductEntries(p.high.outer, p.high.inner, j, k);
  }

  /** Scale b multiplies the part of base b in the unscaled problem, and nothing else. */
  lemma ScaledBase(p: Problem, from: nat, len: nat, b: nat)
    requires |p.scales| == |p.bases| && b < |p.bases|
    ensures p.BaseTerms(from, len)(b) == AScale(p.(scales := []).BaseTerms(from, len)(b), p.scales[b])
  {
    hide AAdd, AScale, ASum;
    var f, g := p.(scales := []).OuterTerms(b, from), p.OuterTerms(b, from);
    forall i: nat | i < len
      ensures g(i) == AScale(f(i), p.scales[b])
    {
      ScaledOuter(p, from, i, b);
    }
    AScaled(len, p.scales[b], f, g);
  }

  lemma ScaledOuter(p: Problem, from: nat, i: nat, b: nat)
    requires |p.scales| == |p.bases| && b < |p.bases|
    ensures p.OuterTerms(b, from)(i) == AScale(p.(scales := []).OuterTerms(b, from)(i), p.scales[b])
  {
    hide AAdd, AScale, ASum;
    var f, g := p.(scales := []).DigitTerms(b, from + i), p.DigitTerms(b, from + i);
    forall d: nat | d < |p.digits|
      ensures g(d) == AScale(f(d), p.scales[b])
    {
      ScaledTerm(p, b, from + i, d);
    }
    AScaled(|p.digits|, p.scales[b], f, g);
  }

  lemma ScaledTerm(p: Problem, b: nat, i: nat, d: nat)
    requires |p.scales| == |p.bases| && b < |p.bases| && d < |p.digits|
    ensures p.Term(b, i, d) == AScale(p.(scales := []).Term(b, i, d), p.scales[b])
  {
    hide AScale, AMul, Eq, Mul;
    var u := p.(scales := []);
    var e := Eq(p.challenges, p.Address(b, i, d));
    assert u.Weight(p.outerStart + i) == p.Weight(p.outerStart + i);
    ScaleLast(p.scales[b], p.digits[d], e);
    AScaleSplits(p.Weight(p.outerStart + i), Mul(Mul(One, p.digits[d]), e), p.scales[b]);
  }

  lemma ScaleLast(s: F, d: F, e: F)
    ensures Mul(Mul(s, d), e) == Mul(Mul(Mul(One, d), e), s)
  {
    assert Mul(One, d) == d by { MulComm(One, d); MulOne(d); }
    Products();
  }

  // ---- Rows of low blocks

  /** `rows` rows of the high factor from `firstHigh`, each over low positions lowStart..lowEnd.
      More than one row is always made of whole low blocks. */
  datatype Piece = Piece(firstHigh: nat, lowStart: nat, lowEnd: nat, rows: nat) {
    function Span(): int { lowEnd - lowStart }
  }

  ghost predicate Fits(p: Problem, piece: Piece) {
    && piece.lowStart < piece.lowEnd <= p.LowLen()
    && piece.rows > 0 && (piece.rows > 1 ==> piece.Span() == p.LowLen())
    && piece.firstHigh + piece.rows <= p.high.Len()
    && p.outerStart <= piece.firstHigh * p.LowLen() + piece.lowStart
  }

  // The position of the piece inside the window.
  function LocalOuter(p: Problem, piece: Piece): int {
    piece.firstHigh * p.LowLen() + piece.lowStart - p.outerStart
  }

  // A base offset moved to the start of the piece, with its scale.
  datatype BaseAddress = BaseAddress(first: nat, scale: F)

  ghost predicate UsableLow(p: Problem) {
    |p.low| == 0 ==> HasUnit()
  }

  function LowWeight(p: Problem, l: nat): A
    requires |p.low| == 0 ==> HasUnit()
  {
    if |p.low| == 0 then AUnit() else if l < |p.low| then p.low[l] else AZero
  }

  // The term of one address, row, low position and digit.
  ghost function CellTerm(p: Problem, piece: Piece, adr: BaseAddress, row: nat, l: nat, d: nat): A
    requires UsableLow(p)
  {
    AScale(AMul(p.high.At(piece.firstHigh + row), LowWeight(p, piece.lowStart + l)),
      Mul(Mul(adr.scale, Sums.At(p.digits, d)),
        Eq(p.challenges, adr.first + p.outerStride * p.LowLen() * row + p.outerStride * l + p.digitStride * d)))
  }

  ghost function CellDigits(p: Problem, piece: Piece, adr: BaseAddress, row: nat, l: nat): nat -> A
    requires UsableLow(p)
  {
    (d: nat) => CellTerm(p, piece, adr, row, l, d)
  }

  ghost function CellLows(p: Problem, piece: Piece, adr: BaseAddress, row: nat): nat -> A
    requires UsableLow(p)
  {
    (l: nat) => ASum(|p.digits|, CellDigits(p, piece, adr, row, l))
  }

  ghost function CellRows(p: Problem, piece: Piece, adr: BaseAddress): nat -> A
    requires UsableLow(p) && piece.lowStart <= piece.lowEnd
  {
    (row: nat) => ASum(piece.Span(), CellLows(p, piece, adr, row))
  }

  // The whole contribution of one address to the piece.
  ghost function AddressSum(p: Problem, piece: Piece, adr: BaseAddress): A
    requires UsableLow(p) && piece.lowStart <= piece.lowEnd
  {
    ASum(piece.rows, CellRows(p, piece, adr))
  }

  ghost predicate AddressOf(p: Problem, piece: Piece, b: nat, adr: BaseAddress) {
    && b < |p.bases| && LocalOuter(p, piece) >= 0 && (|p.scales| == 0 || |p.scales| == |p.bases|)
    && adr.first == p.bases[b] + p.outerStride * LocalOuter(p, piece)
    && adr.scale == p.BaseScale(b)
  }

  lemma CellIsTerm(p: Problem, piece: Piece, b: nat, adr: BaseAddress, row: nat, l: nat, d: nat)
    requires Fits(p, piece) && UsableLow(p) && AddressOf(p, piece, b, adr) && |p.digits| > d
    requires row < piece.rows && l < piece.Span()
    ensures piece.Span() * row >= 0
    ensures CellTerm(p, piece, adr, row, l, d) == p.Term(b, LocalOuter(p, piece) + piece.Span() * row + l, d)
  {
    hide Add, Mul, Neg, Eq, AScale, AMul;
    var q, span, from := p.LowLen(), piece.Span(), LocalOuter(p, piece);
    assert span * row == q * row by { if piece.rows == 1 { assert row == 0; } }
    assert q * row >= 0;
    var i := from + span * row + l;
    CellAddress(p.outerStride, q, row, from, l);
    assert p.outerStart + i == (piece.firstHigh + row) * q + (piece.lowStart + l) by {
      DistributeRow(piece.firstHigh, row, q);
    }
    assert piece.lowStart + l < q;
    DivModUnique(p.outerStart + i, q, piece.firstHigh + row, piece.lowStart + l);
    if |p.low| == 0 { AMulUnit(p.high.At(piece.firstHigh + row)); }
  }

  lemma CellAddress(stride: nat, q: nat, row: nat, from: nat, l: nat)
    ensures q * row >= 0
    ensures stride * (from + q * row + l) == stride * from + stride * q * row + stride * l
  {}

  lemma DistributeRow(h: nat, row: nat, q: nat)
    ensures (h + row) * q == h * q + q * row
  {}

  /** The piece covers its window indices once each: the address sums are the window sum. */
  lemma PieceIsWindow(p: Problem, piece: Piece, addresses: seq<BaseAddress>)
    requires Fits(p, piece) && UsableLow(p) && |addresses| == |p.bases|
    requires forall b: nat :: b < |p.bases| ==> AddressOf(p, piece, b, addresses[b])
    ensures LocalOuter(p, piece) >= 0 && piece.rows * piece.Span() >= 0
    ensures AddressesSum(p, piece, addresses) == p.WindowSum(LocalOuter(p, piece), piece.rows * piece.Span())
  {
    hide AAdd, ASum;
    var from, len := LocalOuter(p, piece), piece.rows * piece.Span();
    forall b: nat | b < |p.bases|
      ensures AddressTerms(p, piece, addresses)(b) == p.BaseTerms(from, len)(b)
    {
      AddressIsBase(p, piece, b, addresses[b]);
    }
    ACongruent(|p.bases|, AddressTerms(p, piece, addresses), p.BaseTerms(from, len));
  }

  ghost function AddressTerms(p: Problem, piece: Piece, addresses: seq<BaseAddress>): nat -> A
    requires UsableLow(p) && piece.lowStart <= piece.lowEnd
  {
    (k: nat) => if k < |addresses| then AddressSum(p, piece, addresses[k]) else AZero
  }

  ghost function AddressesSum(p: Problem, piece: Piece, addresses: seq<BaseAddress>): A
    requires UsableLow(p) && piece.lowStart <= piece.lowEnd
  {
    ASum(|addresses|, AddressTerms(p, piece, addresses))
  }

  lemma AddressIsBase(p: Problem, piece: Piece, b: nat, adr: BaseAddress)
    requires Fits(p, piece) && UsableLow(p) && AddressOf(p, piece, b, adr)
    ensures piece.rows * piece.Span() >= 0
    ensures AddressSum(p, piece, adr) == ASum(piece.rows * piece.Span(), p.OuterTerms(b, LocalOuter(p, piece)))
  {
    hide AAdd, ASum;
    var from, span := LocalOuter(p, piece), piece.Span();
    var f := p.OuterTerms(b, from);
    forall row: nat | row < piece.rows
      ensures CellRows(p, piece, adr)(row) == ASum(span, (j: nat) => f(row * span + j))
    {
      forall l: nat | l < span
        ensures CellLows(p, piece, adr, row)(l) == f(row * span + l)
      {
        CellLowIsOuter(p, piece, b, adr, row, l);
      }
      ACongruent(span, CellLows(p, piece, adr, row), (j: nat) => f(row * span + j));
    }
    ABlocks(piece.rows, span, f, CellRows(p, piece, adr));
  }

  lemma CellLowIsOuter(p: Problem, piece: Piece, b: nat, adr: BaseAddress, row: nat, l: nat)
    requires Fits(p, piece) && UsableLow(p) && AddressOf(p, piece, b, adr) && row < piece.rows && l < piece.Span()
    ensures row * piece.Span() >= 0
    ensures CellLows(p, piece, adr, row)(l) == p.OuterTerms(b, LocalOuter(p, piece))(row * piece.Span() + l)
  {
    hide AAdd, ASum;
    var from, span := LocalOuter(p, piece), piece.Span();
    var i := from + (row * span + l);
    forall d: nat | d < |p.digits|
      ensures CellDigits(p, piece, adr, row, l)(d) == p.DigitTerms(b, i)(d)
    {
      CellIsTerm(p, piece, b, adr, row, l, d);
      assert from + span * row + l == i;
    }
    ACongruent(|p.digits|, CellDigits(p, piece, adr, row, l), p.DigitTerms(b, i));
  }
}
