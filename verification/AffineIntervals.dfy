/**
 The affine digit-interval evaluator: grouping of the bases by low residue, the bit-aligned
 specialization, the cover of the window by pieces, and the checked entry point.
 */
module AffineIntervals {
  import opened Field
  import opened Arith
  import opened Sums
  import opened EqPolynomial
  import opened EqTables
  import opened OffsetWindow
  import opened Weights
  import opened AffineSpec
  import opened AffineSummaries
  import opened AffineHighRows

  // ---- Sums over address lists

  lemma AddressesConcat(p: Problem, piece: Piece, a: seq<BaseAddress>, b: seq<BaseAddress>)
    requires UsableLow(p) && piece.lowStart <= piece.lowEnd
    ensures AddressesSum(p, piece, a + b) == AAdd(AddressesSum(p, piece, a), AddressesSum(p, piece, b))
  {
    hide AAdd, ASum, AddressSum;
    ASplit(|a|, |b|, AddressTerms(p, piece, a + b), AddressTerms(p, piece, b));
    ACongruent(|a|, AddressTerms(p, piece, a + b), AddressTerms(p, piece, a));
  }

  lemma AddressesOne(p: Problem, piece: Piece, adr: BaseAddress)
    requires UsableLow(p) && piece.lowStart <= piece.lowEnd
    ensures AddressesSum(p, piece, [adr]) == AddressSum(p, piece, adr)
    ensures AddressesSum(p, piece, []) == AZero
  {
    hide AAdd, AddressSum;
    ASumStep(0, AddressTerms(p, piece, [adr]));
    ASumStep(0, AddressTerms(p, piece, []));
    AAddZero(AddressSum(p, piece, adr));
  }

  /** The order of the addresses does not matter. */
  lemma {:induction false} AddressesPermuted(p: Problem, piece: Piece, s: seq<BaseAddress>, t: seq<BaseAddress>)
    requires UsableLow(p) && piece.lowStart <= piece.lowEnd && multiset(s) == multiset(t)
    ensures AddressesSum(p, piece, s) == AddressesSum(p, piece, t)
    decreases |s|
  {
    hide AAdd, AddressSum, AddressesSum;
    assert |s| == |multiset(s)| == |multiset(t)| == |t|;
    if |s| == 0 {
      assert s == t;
    } else {
      var n := |s| - 1;
      var x, rest := s[n], s[..n];
      assert s == rest + [x];
      assert x in multiset(t);
      var j :| 0 <= j < |t| && t[j] == x;
      var before, after := t[..j], t[j + 1..];
      assert t == before + [x] + after;
      RemoveOne(rest, x, before, after);
      AddressesPermuted(p, piece, rest, before + after);
      AddressesConcat(p, piece, rest, [x]);
      AddressesConcat(p, piece, before, after);
      AddressesConcat(p, piece, before + [x], after);
      AddressesConcat(p, piece, before, [x]);
      MoveLast(AddressesSum(p, piece, before), AddressesSum(p, piece, [x]), AddressesSum(p, piece, after));
    }
  }

  lemma RemoveOne<T>(rest: seq<T>, x: T, before: seq<T>, after: seq<T>)
    requires multiset(rest + [x]) == multiset(before + [x] + after)
    ensures multiset(rest) == multiset(before + after)
  {
    var all := multiset(rest + [x]);
    assert all == multiset(rest) + multiset{x};
    assert all == multiset(before) + multiset{x} + multiset(after);
    assert multiset(before + after) == multiset(before) + multiset(after);
    assert multiset(rest) == all - multiset{x};
    assert multiset(before) + multiset(after) == all - multiset{x};
  }

  lemma MoveLast(a: A, b: A, c: A)
    ensures AAdd(AAdd(a, b), c) == AAdd(AAdd(a, c), b)
  {
    AAddAssoc(a, b, c);
    AAddComm(b, c);
    AAddAssoc(a, c, b);
  }

  // ---- Sorting and grouping by residue

  ghost predicate SortedByResidue(s: seq<BaseAddress>, bits: nat) {
    forall i: nat, j: nat :: i < j < |s| ==> Low(s[i].first, bits) <= Low(s[j].first, bits)
  }

  method SortByResidue(addresses: seq<BaseAddress>, bits: nat) returns (sorted: seq<BaseAddress>)
    ensures multiset(sorted) == multiset(addresses) && SortedByResidue(sorted, bits)
  {
    hide Low;
    sorted := [];
    assert addresses[..0] == [];
    for k := 0 to |addresses|
      invariant multiset(sorted) == multiset(addresses[..k]) && SortedByResidue(sorted, bits)
    {
      assert addresses[..k + 1] == addresses[..k] + [addresses[k]];
      sorted := InsertByResidue(sorted, addresses[k], bits);
    }
    assert addresses[..|addresses|] == addresses;
  }

  method InsertByResidue(sorted: seq<BaseAddress>, adr: BaseAddress, bits: nat) returns (result: seq<BaseAddress>)
    requires SortedByResidue(sorted, bits)
    ensures multiset(result) == multiset(sorted) + multiset{adr} && SortedByResidue(result, bits)
  {
    hide Low, SortedByResidue;
    var i := |sorted|;
    while i > 0 && Low(sorted[i - 1].first, bits) > Low(adr.first, bits)
      invariant 0 <= i <= |sorted|
      invariant forall j: nat :: i <= j < |sorted| ==> Low(adr.first, bits) < Low(sorted[j].first, bits)
    {
      i := i - 1;
    }
    var before, after := sorted[..i], sorted[i..];
    result := before + [adr] + after;
    InsertedSorted(before, adr, after, bits, sorted);
    InsertedMultiset(before, adr, after, sorted);
  }

  lemma InsertedSorted(before: seq<BaseAddress>, adr: BaseAddress, after: seq<BaseAddress>, bits: nat, whole: seq<BaseAddress>)
    requires whole == before + after && SortedByResidue(whole, bits)
    requires |before| > 0 ==> Low(before[|before| - 1].first, bits) <= Low(adr.first, bits)
    requires forall j: nat :: j < |after| ==> Low(adr.first, bits) < Low(after[j].first, bits)
    ensures SortedByResidue(before + [adr] + after, bits)
  {
    hide Low;
    var result, n := before + [adr] + after, |before|;
    forall i: nat, j: nat | i < j < |result|
      ensures Low(result[i].first, bits) <= Low(result[j].first, bits)
    {
      var u := if i < n then i else i - 1;
      var v := if j < n then j else j - 1;
      assert i != n ==> result[i] == whole[u];
      assert j != n ==> result[j] == whole[v];
      if j == n {
        assert before[n - 1] == whole[n - 1];
      }
      if i == n {
        assert result[j] == after[j - n - 1];
      }
    }
  }

  lemma InsertedMultiset<T>(before: seq<T>, x: T, after: seq<T>, whole: seq<T>)
    requires whole == before + after
    ensures multiset(before + [x] + after) == multiset(whole) + multiset{x}
  {
    assert multiset(before + [x] + after) == multiset(before) + multiset{x} + multiset(after);
  }

  // The length of the leading run of one residue.
  method ResidueRun(sorted: seq<BaseAddress>, start: nat, bits: nat) returns (end: nat)
    requires start < |sorted|
    ensures start < end <= |sorted|
    ensures forall k: nat :: start <= k < end ==> Low(sorted[k].first, bits) == Low(sorted[start].first, bits)
    ensures end < |sorted| ==> Low(sorted[end].first, bits) != Low(sorted[start].first, bits)
  {
    hide Low;
    end := start + 1;
    while end < |sorted| && Low(sorted[end].first, bits) == Low(sorted[start].first, bits)
      invariant start < end <= |sorted|
      invariant forall k: nat :: start <= k < end ==> Low(sorted[k].first, bits) == Low(sorted[start].first, bits)
    {
      end := end + 1;
    }
  }

  /** One residue group: shared summaries, then the bucketed or the direct high contraction. */
  method AccumulateGroup(p: Problem, piece: Piece, addressLow: nat, group: seq<BaseAddress>, table: Option<seq<F>>,
    eq: AmortizedOffsetEq, out0: A) returns (out: Option<A>)
    requires p.Geometry() && UsableLow(p) && Fits(p, piece) && addressLow < p.LowLen() && |group| > 0
    requires forall k: nat :: k < |group| ==> Low(group[k].first, p.LowBits()) == addressLow
    requires table.Some? ==> table.value == EqTable(p.LowChallenges(), One)
    requires eq.Valid() && eq.challenges == p.HighChallenges()
    modifies eq`window
    ensures eq.Valid()
    ensures piece.rows * |group| * (p.outerStride + 1) <= MAX_COMPACT_STRIDE_TERMS ==> out.Some?
    ensures out.Some? ==> out.value == AAdd(out0, AddressesSum(p, piece, group))
  {
    hide AAdd, ASum, EqTable, AreSummaries, CarryCount, GroupSum, AddressesSum, Low, WindowOf, BucketedPlan;
    var summaries := BuildSummaries(p, piece, addressLow, table);
    CarryInRange(p, piece, addressLow, 0, 0);
    GroupIsAddresses(p, piece, summaries, addressLow, group);
    var plan := BucketedPlan(piece.rows * |group|, |summaries|, |p.HighChallenges()|);
    match plan
    case TooMuchWork =>
      PlanWithinWork(piece.rows * |group|, |summaries|, |p.HighChallenges()|, p.outerStride + 1);
      out := None;
    case Bucketed(window) =>
      var value := BucketedRows(p, piece, summaries, group, window, out0);
      out := Some(value);
    case Ineligible =>
      var value := DirectRows(p, piece, summaries, group, eq, out0);
      out := Some(value);
  }

  /** Under the work bound the plan never fails. */
  lemma PlanWithinWork(totalRows: nat, carryCount: nat, highCount: nat, carryLimit: nat)
    requires carryCount <= carryLimit
    ensures totalRows * carryLimit <= MAX_COMPACT_STRIDE_TERMS ==> BucketedPlan(totalRows, carryCount, highCount) != TooMuchWork
  {
    MulMonotone(carryCount, carryLimit, totalRows);
  }

  method PieceAddresses(p: Problem, piece: Piece) returns (addresses: seq<BaseAddress>)
    requires p.Geometry() && Fits(p, piece)
    ensures |addresses| == |p.bases| && forall b: nat :: b < |p.bases| ==> AddressOf(p, piece, b, addresses[b])
  {
    var delta: nat := p.outerStride * LocalOuter(p, piece);
    addresses := [];
    for b := 0 to |p.bases|
      invariant |addresses| == b && forall k: nat :: k < b ==> AddressOf(p, piece, k, addresses[k])
    {
      addresses := addresses + [BaseAddress(p.bases[b] + delta, p.BaseScale(b))];
    }
  }

  /** One piece for every base: the addresses are grouped by low residue, and the groups add the
      piece's part of the window. The work bound rules out the only failure. */
  method AccumulateAffineRows(p: Problem, piece: Piece, out0: A) returns (out: Option<A>)
    requires p.Geometry() && UsableLow(p) && Fits(p, piece) && |p.bases| > 0
    ensures piece.rows * |p.bases| * (p.outerStride + 1) <= MAX_COMPACT_STRIDE_TERMS ==> out.Some?
    ensures out.Some? ==> LocalOuter(p, piece) >= 0 && piece.rows * piece.Span() >= 0
    ensures out.Some? ==> out.value == AAdd(out0, p.WindowSum(LocalOuter(p, piece), piece.rows * piece.Span()))
  {
    hide AAdd, ASum, EqTable, AddressesSum, Low, WindowOf;
    var table: Option<seq<F>> := None;
    if |p.low| > 0 && p.LowBits() <= LOW_BITS_CAP {
      var evals := Evals(p.LowChallenges(), One);
      table := Some(evals);
    }
    var eq := new AmortizedOffsetEq(p.HighChallenges());
    var addresses := PieceAddresses(p, piece);
    PieceIsWindow(p, piece, addresses);
    if |p.bases| == 1 {
      LowBelow(p, addresses[0].first);
      out := AccumulateGroup(p, piece, Low(addresses[0].first, p.LowBits()), addresses, table, eq, out0);
      return;
    }
    var sorted := SortByResidue(addresses, p.LowBits());
    AddressesPermuted(p, piece, sorted, addresses);
    SameLength(sorted, addresses);
    out := AccumulateGroups(p, piece, sorted, table, eq, out0);
  }

  lemma SameLength(s: seq<BaseAddress>, t: seq<BaseAddress>)
    requires multiset(s) == multiset(t)
    ensures |s| == |t|
  {
    assert |s| == |multiset(s)| == |multiset(t)| == |t|;
  }

  method AccumulateGroups(p: Problem, piece: Piece, sorted: seq<BaseAddress>, table: Option<seq<F>>,
    eq: AmortizedOffsetEq, out0: A) returns (out: Option<A>)
    requires p.Geometry() && UsableLow(p) && Fits(p, piece)
    requires table.Some? ==> table.value == EqTable(p.LowChallenges(), One)
    requires eq.Valid() && eq.challenges == p.HighChallenges()
    modifies eq`window
    ensures piece.rows * |sorted| * (p.outerStride + 1) <= MAX_COMPACT_STRIDE_TERMS ==> out.Some?
    ensures out.Some? ==> out.value == AAdd(out0, AddressesSum(p, piece, sorted))
  {
    hide AAdd, ASum, EqTable, AddressesSum, Low, WindowOf;
    var start, acc := 0, out0;
    assert sorted[..0] == [];
    AddressesOne(p, piece, BaseAddress(0, Zero));
    AAddZero(out0);
    while start < |sorted|
      invariant 0 <= start <= |sorted| && eq.Valid() && eq.challenges == p.HighChallenges()
      invariant acc == AAdd(out0, AddressesSum(p, piece, sorted[..start]))
    {
      var end := ResidueRun(sorted, start, p.LowBits());
      var group := sorted[start..end];
      LowBelow(p, sorted[start].first);
      var next := AccumulateGroup(p, piece, Low(sorted[start].first, p.LowBits()), group, table, eq, acc);
      GroupWork(piece.rows, |group|, |sorted|, p.outerStride + 1);
      if next.None? {
        return None;
      }
      AddressesConcat(p, piece, sorted[..start], group);
      assert sorted[..start] + group == sorted[..end];
      AAddAssoc(out0, AddressesSum(p, piece, sorted[..start]), AddressesSum(p, piece, group));
      start, acc := end, next.value;
    }
    assert sorted[..|sorted|] == sorted;
    return Some(acc);
  }

  lemma GroupWork(rows: nat, group: nat, all: nat, carries: nat)
    requires group <= all
    ensures rows * group * carries <= rows * all * carries
  {
    MulMonotone(group, all, rows);
    MulMonotone(rows * group, rows * all, carries);
  }
}
