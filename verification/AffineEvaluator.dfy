/** The checked entry point of the affine digit-interval contraction. */
module AffineEvaluator {
  import opened Field
  import opened Arith
  import opened OffsetWindow
  import opened Weights
  import opened AffineSpec
  import opened AffineHighRows
  import opened AffineIntervals
  import opened AffineAligned

  // ---- The cover of the window by an unaligned head, whole low blocks and a tail

  datatype Cover = Cover(prefixEnd: nat, fullRows: nat, cursor: nat)

  // The next block boundary, or the end of the window if that comes first.
  function PrefixEnd(start: nat, end: nat, q: nat): (e: nat)
    requires q > 0 && start < end
    ensures start <= e <= end && start % q + (e - start) <= q
  {
    var m: nat := start % q;
    if m == 0 then start else Min(end, start + (q - m))
  }

  // The last block boundary not after x.
  function AlignDown(x: nat, q: nat): (s: nat)
    requires q > 0
    ensures s <= x < s + q && s == x / q * q
  {
    DivMod(x, q);
    x - x % q
  }

  function WholeRows(from: nat, end: nat, q: nat): nat
    requires q > 0
  {
    if end > from then Quotient(end - from, q) else 0
  }

  function Quotient(a: nat, q: nat): nat
    requires q > 0
  {
    DivMod(a, q);
    a / q
  }

  function CoverOf(start: nat, end: nat, q: nat): Cover
    requires q > 0 && start < end
  {
    var prefixEnd := PrefixEnd(start, end, q);
    var fullEnd := Min(Max(AlignDown(end, q), prefixEnd), end);
    var fullRows := WholeRows(prefixEnd, fullEnd, q);
    Cover(prefixEnd, fullRows, prefixEnd + fullRows * q)
  }

  /** Head, blocks and tail cover the window exactly once; each lies in the low blocks it is
      charged to. */
  lemma CoverExact(start: nat, end: nat, q: nat)
    requires q > 0 && start < end
    ensures var c := CoverOf(start, end, q);
      && start <= c.prefixEnd <= c.cursor <= end && c.cursor == c.prefixEnd + c.fullRows * q
      && start % q + (c.prefixEnd - start) <= q
      && (c.fullRows > 0 ==> c.prefixEnd % q == 0)
      && (c.cursor < end ==> c.cursor % q == 0 && end - c.cursor < q)
  {
    var prefixEnd, b := PrefixEnd(start, end, q), end / q;
    if prefixEnd < end {
      var k := PrefixIsBoundary(start, end, q);
      BoundaryBefore(k, end, q);
      BlocksBetween(k, b, q);
      MultipleRemainder(k, q);
      MultipleRemainder(b, q);
    }
  }

  lemma PrefixIsBoundary(start: nat, end: nat, q: nat) returns (k: nat)
    requires q > 0 && start < end && PrefixEnd(start, end, q) < end
    ensures PrefixEnd(start, end, q) == k * q
  {
    DivMod(start, q);
    if start % q == 0 {
      k := start / q;
    } else {
      k := start / q + 1;
      assert (start / q + 1) * q == start / q * q + q;
    }
  }

  lemma BoundaryBefore(k: nat, end: nat, q: nat)
    requires q > 0 && k * q <= end
    ensures k <= end / q
  {
    DivMod(end, q);
    assert (end / q + 1) * q == end / q * q + q;
    if end / q < k { MulMonotone(end / q + 1, k, q); }
  }

  lemma MultipleRemainder(k: nat, q: nat)
    requires q > 0
    ensures k * q % q == 0
  {
    DivModUnique(k * q, q, k, 0);
  }

  lemma BlocksBetween(k: nat, b: nat, q: nat)
    requires k <= b && q > 0
    ensures k * q <= b * q && (b * q - k * q) / q == b - k && k * q + (b - k) * q == b * q
  {
    MulMonotone(k, b, q);
    assert b * q - k * q == (b - k) * q;
    DivModUnique((b - k) * q, q, b - k, 0);
  }

  // ---- What the entry point accepts

  // Factors of the right shape: one scale per base or none, a low domain of 2^k points within
  // the equality arity, and every strided digit inside one outer step.
  ghost predicate WellShaped(p: Problem) {
    && (|p.scales| == 0 || |p.scales| == |p.bases|)
    && |p.digits| > 0 && p.digitStride > 0
    && (forall d: nat :: d < |p.digits| ==> p.digitStride * d < p.outerStride)
    && exists k: nat :: k <= |p.challenges| && p.LowLen() == Pow2(k)
  }

  // Every address of the window is a point of the equality domain.
  ghost predicate EveryAddressInDomain(p: Problem, live: nat) {
    forall b: nat, i: nat, d: nat :: b < |p.bases| && i < live && d < |p.digits| ==>
      p.Address(b, i, d) < Pow2(|p.challenges|)
  }

  // No low factor, and outer steps of 2^k points within the equality arity.
  ghost predicate BitAligned(p: Problem) {
    |p.low| == 0 && exists k: nat :: k <= |p.challenges| && p.outerStride == Pow2(k)
  }

  // The low blocks that the outer window [start, end) meets.
  function BlocksMet(start: nat, end: nat, q: nat): nat
    requires q > 0 && start < end
  {
    DivMod(start, q);
    DivMod(end - 1, q);
    BlocksOrdered(start, end - 1, q);
    (end - 1) / q - start / q + 1
  }

  // Low positions summarised: the partial blocks at either end, and one block for all whole ones.
  function LowPositions(start: nat, end: nat, q: nat): nat
    requires q > 0 && start < end
  {
    if BlocksMet(start, end, q) == 1 then end - start
    else
      var head: nat := if start % q == 0 then 0 else q - start % q;
      var tail: nat := end % q;
      var partial := (if head > 0 then 1 else 0) + (if tail > 0 then 1 else 0);
      head + tail + if BlocksMet(start, end, q) > partial then q else 0
  }

  // The work bound, counted from the window itself.
  ghost predicate Affordable(p: Problem, live: nat)
    requires live > 0
  {
    var start, end, q := p.outerStart, p.outerStart + live, p.LowLen();
    if BitAligned(p) then |p.bases| * (2 * live + |p.digits|) <= MAX_COMPACT_STRIDE_TERMS
    else
      && (|p.low| == 0 ==> HasUnit())
      && (|p.digits| * LowPositions(start, end, q) + BlocksMet(start, end, q) * (p.outerStride + 1)) * |p.bases|
           <= MAX_COMPACT_STRIDE_TERMS
  }

  /** Exactly the inputs the evaluator answers. */
  ghost predicate Accepts(p: Problem, live: nat) {
    && (p.high.Len() > 0 || |p.low| > 0)
    && (live > 0 && |p.bases| > 0 ==>
      && WellShaped(p)
      && p.outerStart + live <= p.high.Len() * p.LowLen()
      && EveryAddressInDomain(p, live)
      && Affordable(p, live))
  }

  lemma BlocksOrdered(x: nat, y: nat, q: nat)
    requires q > 0 && x <= y
    ensures x / q <= y / q
  {
    DivMod(x, q);
    DivMod(y, q);
    DistributeOver(y / q, 1, q);
    if x / q > y / q { MulMonotone(y / q + 1, x / q, q); }
  }

  /** The count is the number of blocks that hold a position of the window: they are the
      consecutive blocks from the first position's to the last one's. */
  lemma BlocksMetCount(start: nat, end: nat, q: nat, r: nat)
    requires q > 0 && start < end
    ensures (exists i: nat :: start <= i < end && i / q == r) <==>
            start / q <= r < start / q + BlocksMet(start, end, q)
  {
    var first, last := start / q, (end - 1) / q;
    DivMod(start, q);
    DivMod(end - 1, q);
    if i: nat :| start <= i < end && i / q == r {
      BlocksOrdered(start, i, q);
      BlocksOrdered(i, end - 1, q);
    }
    if first <= r <= last {
      if r == first {
        assert start / q == r;
      } else {
        var i := BoundaryInside(start, end, q, r);
        assert start <= i < end && i / q == r;
      }
    }
  }

  // A later block that is met starts inside the window.
  lemma BoundaryInside(start: nat, end: nat, q: nat, r: nat) returns (i: nat)
    requires q > 0 && start < end && start / q < r <= (end - 1) / q
    ensures start <= i < end && i / q == r
  {
    DivMod(start, q);
    DivMod(end - 1, q);
    MulMonotone(start / q + 1, r, q);
    MulMonotone(r, (end - 1) / q, q);
    DistributeOver(start / q, 1, q);
    i := r * q;
    DivModUnique(i, q, r, 0);
  }

  /** The digit span is the offset of the last digit, so it stays below the outer stride exactly
      when every digit's offset does. */
  lemma SpanCoversDigits(p: Problem)
    requires |p.digits| > 0
    ensures p.DigitSpan() < p.outerStride <==> forall d: nat :: d < |p.digits| ==> p.digitStride * d < p.outerStride
  {
    var last: nat := |p.digits| - 1;
    assert p.DigitSpan() == p.digitStride * last;
    forall d: nat | d < |p.digits| ensures p.digitStride * d <= p.DigitSpan() {
      MulMonotone(d, last, p.digitStride);
    }
  }

  lemma ShapeIsGeometry(p: Problem)
    requires |p.digits| > 0
    ensures WellShaped(p) <==> p.Geometry()
  {
    hide Pow2, Log2;
    SpanCoversDigits(p);
    IsPow2Exactly(p.LowLen());
    assert p.LowBits() == Log2(p.LowLen());
    Log2Bound(p.LowLen());
  }

  lemma Log2Bound(n: nat)
    ensures IsPow2(n) ==> n == Pow2(Log2(n))
  {}

  /** The checked bound of each base is its largest address. */
  lemma DomainIsAddresses(p: Problem, live: nat)
    requires |p.digits| > 0 && live > 0
    ensures InDomain(p, live) <==> EveryAddressInDomain(p, live)
  {
    hide Pow2;
    var last, end: nat := |p.digits| - 1, live - 1;
    assert p.DigitSpan() == p.digitStride * last;
    forall b: nat | b < |p.bases|
      ensures p.Address(b, end, last) == p.bases[b] + (p.outerStride * end + p.DigitSpan())
    {}
    forall b: nat, i: nat, d: nat | b < |p.bases| && i < live && d < |p.digits|
      ensures p.Address(b, i, d) <= p.Address(b, end, last)
    {
      MulMonotone(i, end, p.outerStride);
      MulMonotone(d, last, p.digitStride);
    }
  }

  lemma AlignedIsBits(p: Problem)
    ensures TakesAlignedPath(p) <==> BitAligned(p)
  {
    hide Pow2, Log2;
    IsPow2Exactly(p.outerStride);
    Log2Bound(p.outerStride);
  }

  /** The work the code charges, from the pieces of its cover, is the count over the window. */
  lemma ChargeIsCount(p: Problem, live: nat)
    requires live > 0
    ensures var start, end, q := p.outerStart, p.outerStart + live, p.LowLen();
      GeneralWork(p, live) ==
        (|p.digits| * LowPositions(start, end, q) + BlocksMet(start, end, q) * (p.outerStride + 1)) * |p.bases|
  {
    hide CoverOf, LowPositions, BlocksMet;
    CoverIsCount(p.outerStart, p.outerStart + live, p.LowLen());
  }

  lemma CoverIsCount(start: nat, end: nat, q: nat)
    requires q > 0 && start < end
    ensures var c := CoverOf(start, end, q);
      && start <= c.prefixEnd <= c.cursor <= end
      && (c.prefixEnd - start) + (end - c.cursor) + (if c.fullRows == 0 then 0 else q) == LowPositions(start, end, q)
      && (if c.prefixEnd > start then 1 else 0) + c.fullRows + (if end > c.cursor then 1 else 0) == BlocksMet(start, end, q)
  {
    var k, e := start / q, end / q;
    DivMod(start, q);
    DivMod(end, q);
    BlocksOrdered(start, end, q);
    LastBlock(end, q);
    DistributeOver(k, 1, q);
    var first := if start % q == 0 then k else k + 1;
    if first <= e {
      CoverWithBlocks(start, end, q, first, e);
    } else {
      assert e == k;
    }
  }

  lemma LastBlock(end: nat, q: nat)
    requires q > 0 && end > 0
    ensures (end - 1) / q == if end % q == 0 then end / q - 1 else end / q
  {
    DivMod(end, q);
    DistributeOver(end / q - 1, 1, q);
    if end % q == 0 {
      DivModUnique(end - 1, q, end / q - 1, q - 1);
    } else {
      DivModUnique(end - 1, q, end / q, end % q - 1);
    }
  }

  // From the first boundary on, the cover is the whole blocks up to the last boundary.
  lemma CoverWithBlocks(start: nat, end: nat, q: nat, first: nat, e: nat)
    requires q > 0 && start < end && e == end / q && first <= e
    requires first == if start % q == 0 then start / q else start / q + 1
    ensures CoverOf(start, end, q) == Cover(first * q, e - first, e * q)
  {
    DivMod(start, q);
    DivMod(end, q);
    DistributeOver(start / q, 1, q);
    MulMonotone(first, e, q);
    DistributeOver(e - first, first, q);
    DivModUnique(e * q - first * q, q, e - first, 0);
  }

  // The charged work of the general kernel.
  function GeneralWork(p: Problem, live: nat): nat
    requires live > 0
  {
    hide CoverOf;
    var end, q := p.outerStart + live, p.LowLen();
    CoverExact(p.outerStart, end, q);
    var c := CoverOf(p.outerStart, end, q);
    var prefixSpan, suffixSpan := c.prefixEnd - p.outerStart, end - c.cursor;
    var summarizedLow := prefixSpan + suffixSpan + if c.fullRows == 0 then 0 else q;
    var rowCount := (if prefixSpan != 0 then 1 else 0) + c.fullRows + (if suffixSpan != 0 then 1 else 0);
    Charge(|p.digits|, summarizedLow, rowCount, p.outerStride + 1, |p.bases|)
  }

  function Charge(digits: nat, summarizedLow: nat, rowCount: nat, carries: nat, bases: nat): nat {
    (digits * summarizedLow + rowCount * carries) * bases
  }

  predicate TakesAlignedPath(p: Problem) {
    |p.low| == 0 && IsPow2(p.outerStride) && Log2(p.outerStride) <= |p.challenges|
  }

  ghost predicate InDomain(p: Problem, live: nat)
    requires |p.digits| > 0 && live > 0
  {
    forall b: nat :: b < |p.bases| ==> p.bases[b] + (p.outerStride * (live - 1) + p.DigitSpan()) < Pow2(|p.challenges|)
  }

  method CheckDomain(p: Problem, live: nat) returns (ok: bool)
    requires |p.digits| > 0 && live > 0
    ensures ok <==> EveryAddressInDomain(p, live)
  {
    hide Pow2, EveryAddressInDomain;
    DomainIsAddresses(p, live);
    var span: nat := p.outerStride * (live - 1) + p.DigitSpan();
    for b := 0 to |p.bases|
      invariant forall k: nat :: k < b ==> p.bases[k] + span < Pow2(|p.challenges|)
    {
      if p.bases[b] + span >= Pow2(|p.challenges|) {
        return false;
      }
    }
    return true;
  }

  /** The contraction. It answers exactly the accepted inputs, and every answer, on whichever
      path, is the reference triple sum over the window. */
  method EvalAffineDigitIntervals(p: Problem, live: nat) returns (result: Option<A>)
    ensures result.Some? <==> Accepts(p, live)
    ensures result.Some? ==> result.value == p.WindowSum(0, live)
  {
    hide AAdd, ASum, GeneralWork, Pow2, Log2, WellShaped, EveryAddressInDomain, BitAligned,
      LowPositions, BlocksMet;
    SourceTotal(p.high, 0);
    if p.high.Get(0).None? && |p.low| == 0 {
      return None;
    }
    if live == 0 || |p.bases| == 0 {
      EmptyWindow(p, live);
      return Some(AZero);
    }
    ShapeNeeds(p);
    if |p.scales| != 0 && |p.scales| != |p.bases| {
      return None;
    }
    if |p.digits| == 0 {
      return None;
    }
    ShapeIsGeometry(p);
    AlignedIsBits(p);
    ChargeIsCount(p, live);
    if !IsPow2(p.LowLen()) || p.digitStride == 0 || p.outerStride <= p.DigitSpan() {
      return None;
    }
    if p.LowBits() > |p.challenges| {
      return None;
    }
    if p.outerStart + live > p.high.Len() * p.LowLen() {
      return None;
    }
    var inDomain := CheckDomain(p, live);
    if !inDomain {
      return None;
    }
    if TakesAlignedPath(p) {
      result := EvalAligned(p, live);
      return;
    }
    if GeneralWork(p, live) > MAX_COMPACT_STRIDE_TERMS {
      return None;
    }
    if |p.low| == 0 && !HasUnit() {
      return None;
    }
    result := EvalPieces(p, live);
  }

  lemma ShapeNeeds(p: Problem)
    ensures WellShaped(p) ==> |p.digits| > 0 && (|p.scales| == 0 || |p.scales| == |p.bases|)
  {}

  lemma EmptyWindow(p: Problem, live: nat)
    requires live == 0 || |p.bases| == 0
    ensures p.WindowSum(0, live) == AZero
  {
    if live == 0 { WindowEmpty(p, 0); }
  }

  // The pieces of the cover.
  function PrefixPiece(p: Problem, c: Cover): Piece
    requires c.prefixEnd >= p.outerStart
  {
    var q := p.LowLen();
    Piece(p.outerStart / q, p.outerStart % q, p.outerStart % q + (c.prefixEnd - p.outerStart), 1)
  }

  function FullPiece(p: Problem, c: Cover): Piece {
    Piece(c.prefixEnd / p.LowLen(), 0, p.LowLen(), c.fullRows)
  }

  function SuffixPiece(p: Problem, c: Cover, end: nat): Piece
    requires c.cursor <= end
  {
    Piece(c.cursor / p.LowLen(), 0, end - c.cursor, 1)
  }

  lemma PiecesFit(p: Problem, live: nat)
    requires live > 0 && p.outerStart + live <= p.high.Len() * p.LowLen()
    ensures var end := p.outerStart + live;
      var c := CoverOf(p.outerStart, end, p.LowLen());
      && p.outerStart <= c.prefixEnd <= c.cursor <= end
      && (c.prefixEnd > p.outerStart ==>
        var piece := PrefixPiece(p, c);
        Fits(p, piece) && LocalOuter(p, piece) == 0 && piece.rows * piece.Span() == c.prefixEnd - p.outerStart)
      && (c.fullRows > 0 ==>
        var piece := FullPiece(p, c);
        Fits(p, piece) && LocalOuter(p, piece) == c.prefixEnd - p.outerStart && piece.rows * piece.Span() == c.cursor - c.prefixEnd)
      && (end > c.cursor ==>
        var piece := SuffixPiece(p, c, end);
        Fits(p, piece) && LocalOuter(p, piece) == c.cursor - p.outerStart && piece.rows * piece.Span() == end - c.cursor)
      && (c.fullRows == 0 ==> c.cursor == c.prefixEnd)
  {
    hide CoverOf, Fits, LocalOuter, PrefixPiece, FullPiece, SuffixPiece;
    var end, q := p.outerStart + live, p.LowLen();
    var c := CoverOf(p.outerStart, end, q);
    CoverExact(p.outerStart, end, q);
    if c.prefixEnd > p.outerStart { PrefixFits(p, c, end); }
    if c.fullRows > 0 { FullFits(p, c, end); }
    if end > c.cursor { SuffixFits(p, c, end); }
  }

  lemma PrefixFits(p: Problem, c: Cover, end: nat)
    requires p.outerStart < c.prefixEnd <= end <= p.high.Len() * p.LowLen()
    requires p.outerStart % p.LowLen() + (c.prefixEnd - p.outerStart) <= p.LowLen()
    ensures var piece := PrefixPiece(p, c);
      Fits(p, piece) && LocalOuter(p, piece) == 0 && piece.rows * piece.Span() == c.prefixEnd - p.outerStart
  {
    DivMod(p.outerStart, p.LowLen());
    DivBound(p.outerStart, p.LowLen(), p.high.Len());
  }

  lemma FullFits(p: Problem, c: Cover, end: nat)
    requires p.outerStart <= c.prefixEnd <= c.cursor <= end <= p.high.Len() * p.LowLen()
    requires c.fullRows > 0 && c.cursor == c.prefixEnd + c.fullRows * p.LowLen() && c.prefixEnd % p.LowLen() == 0
    ensures var piece := FullPiece(p, c);
      Fits(p, piece) && LocalOuter(p, piece) == c.prefixEnd - p.outerStart && piece.rows * piece.Span() == c.cursor - c.prefixEnd
  {
    DivMod(c.prefixEnd, p.LowLen());
    RowsBound(c.prefixEnd / p.LowLen(), c.fullRows, p.LowLen(), p.high.Len());
  }

  lemma SuffixFits(p: Problem, c: Cover, end: nat)
    requires p.outerStart <= c.cursor < end <= p.high.Len() * p.LowLen()
    requires c.cursor % p.LowLen() == 0 && end - c.cursor < p.LowLen()
    ensures var piece := SuffixPiece(p, c, end);
      Fits(p, piece) && LocalOuter(p, piece) == c.cursor - p.outerStart && piece.rows * piece.Span() == end - c.cursor
  {
    DivMod(c.cursor, p.LowLen());
    DivBound(c.cursor, p.LowLen(), p.high.Len());
  }

  lemma RowsBound(first: nat, rows: nat, q: nat, len: nat)
    requires q > 0 && first * q + rows * q <= len * q
    ensures first + rows <= len
  {
    assert (len + 1) * q == len * q + q && (first + rows) * q == first * q + rows * q;
    if first + rows > len { MulMonotone(len + 1, first + rows, q); }
  }

  // Every piece stays under the work bound the whole cover was charged.
  lemma PieceWork(p: Problem, live: nat, rows: nat)
    requires live > 0
    requires var end := p.outerStart + live;
      var c := CoverOf(p.outerStart, end, p.LowLen());
      rows == c.fullRows || (rows == 1 && (c.prefixEnd > p.outerStart || c.cursor < end))
    ensures rows * |p.bases| * (p.outerStride + 1) <= GeneralWork(p, live)
  {
    hide CoverOf;
    var end, q := p.outerStart + live, p.LowLen();
    CoverExact(p.outerStart, end, q);
    var c := CoverOf(p.outerStart, end, q);
    var prefixSpan, suffixSpan := c.prefixEnd - p.outerStart, end - c.cursor;
    var summarizedLow := prefixSpan + suffixSpan + if c.fullRows == 0 then 0 else q;
    var rowCount := (if prefixSpan != 0 then 1 else 0) + c.fullRows + (if suffixSpan != 0 then 1 else 0);
    WorkMonotone(rows, rowCount, p.outerStride + 1, |p.digits| * summarizedLow, |p.bases|);
  }

  lemma WorkMonotone(rows: nat, rowCount: nat, carries: nat, lowWork: nat, bases: nat)
    requires rows <= rowCount
    ensures rows * bases * carries <= (lowWork + rowCount * carries) * bases
  {
    MulMonotone(rows, rowCount, carries);
    MulMonotone(rows * carries, lowWork + rowCount * carries, bases);
    assert rows * bases * carries == rows * carries * bases;
  }

  /** The general path: head, whole blocks, tail. */
  method EvalPieces(p: Problem, live: nat) returns (result: Option<A>)
    requires p.Geometry() && UsableLow(p) && live > 0 && |p.bases| > 0
    requires p.outerStart + live <= p.high.Len() * p.LowLen()
    requires GeneralWork(p, live) <= MAX_COMPACT_STRIDE_TERMS
    ensures result.Some? && result.value == p.WindowSum(0, live)
  {
    hide AAdd, ASum, GeneralWork, CoverOf, Fits, LocalOuter;
    var end := p.outerStart + live;
    var c := CoverOf(p.outerStart, end, p.LowLen());
    PiecesFit(p, live);
    var out := AZero;
    WindowEmpty(p, 0);
    if c.prefixEnd > p.outerStart {
      PieceWork(p, live, 1);
      var next := AccumulateAffineRows(p, PrefixPiece(p, c), out);
      AAddZero(p.WindowSum(0, c.prefixEnd - p.outerStart));
      out := next.value;
    }
    assert out == p.WindowSum(0, c.prefixEnd - p.outerStart);
    if c.fullRows > 0 {
      PieceWork(p, live, c.fullRows);
      var next := AccumulateAffineRows(p, FullPiece(p, c), out);
      WindowSplit(p, 0, c.prefixEnd - p.outerStart, c.cursor - c.prefixEnd);
      out := next.value;
    }
    assert out == p.WindowSum(0, c.cursor - p.outerStart);
    if end > c.cursor {
      PieceWork(p, live, 1);
      var next := AccumulateAffineRows(p, SuffixPiece(p, c, end), out);
      WindowSplit(p, 0, c.cursor - p.outerStart, end - c.cursor);
      out := next.value;
    }
    return Some(out);
  }
}
