/**
 The materialized equality tables: the serial in-place recurrence, the forward doubling
 recurrence, the slab expansion, the cached layers and the split pair of half tables.
 Each is compared with `Eq` entry by entry.
 */
module EqTables {
  import opened Field
  import opened Arith
  import opened Sums
  import opened EqPolynomial

  // Entry i of the table over [t] + r is child i % 2 of entry i / 2 of the table over r.
  function Child(parent: F, t: F, i: nat): F {
    if i % 2 == 1 then SplitParent(parent, t).1 else SplitParent(parent, t).0
  }

  lemma ChildParts(parent: F, t: F, p: nat)
    ensures SplitParent(parent, t) == (Child(parent, t, 2 * p), Child(parent, t, 2 * p + 1))
  {}

  lemma ChildOfTable(scale: F, t: F, r: seq<F>, i: nat)
    ensures Child(Mul(scale, Eq(r, i / 2)), t, i) == Mul(scale, Eq([t] + r, i))
  {
    hide Add, Mul, Neg, Eq;
    Children(Mul(scale, Eq(r, i / 2)), t);
    Cons(t, r, i);
    MulAssoc(scale, Eq(r, i / 2), Factor(t, i));
    MulComm(Eq(r, i / 2), Factor(t, i));
  }

  // The layer below a layer of parents.
  ghost predicate IsLayer(children: seq<F>, parents: seq<F>, t: F, final: F -> F) {
    && |children| == 2 * |parents|
    && forall i: nat :: i < |children| ==> children[i] == final(Child(parents[i / 2], t, i))
  }

  // Nothing outside [lo, hi) differs.
  twostate predicate Outside(evals: array<F>, lo: nat, hi: nat)
    reads evals
  {
    forall i: nat :: i < evals.Length && !(lo <= i < hi) ==> evals[i] == old(evals[i])
  }

  /** One layer of the serial recurrence, in place: the parents are read from the last down,
      so a parent is still intact when its two children are written. */
  method ExpandLayer(evals: array<F>, off: nat, len: nat, coordinate: F, final: F -> F) returns (splits: nat)
    requires off + 2 * len <= evals.Length
    modifies evals
    ensures IsLayer(evals[off..off + 2 * len], old(evals[off..off + len]), coordinate, final)
    ensures Outside(evals, off, off + 2 * len)
    ensures splits == len
  {
    hide SplitParent, Child, Add, Mul, Neg, ChildAt;
    splits := 0;
    var parent := len;
    ghost var parents := evals[off..off + len];
    while parent > 0
      invariant 0 <= parent <= len && splits == len - parent
      invariant forall k: nat :: k < parent ==> evals[off + k] == parents[k]
      invariant forall k: nat :: 2 * parent <= k < 2 * len ==> evals[off + k] == ChildAt(parents, coordinate, final, k)
      invariant Outside(evals, off, off + 2 * len)
    {
      parent := parent - 1;
      var (left, right) := SplitParent(evals[off + parent], coordinate);
      BothChildren(parents, coordinate, final, parent);
      evals[off + 2 * parent] := final(left);
      evals[off + 2 * parent + 1] := final(right);
      splits := splits + 1;
    }
    LayerFromEntries(evals[off..off + 2 * len], parents, coordinate, final);
  }

  ghost function ChildAt(parents: seq<F>, t: F, final: F -> F, i: nat): F {
    final(Child(At(parents, i / 2), t, i))
  }

  lemma BothChildren(parents: seq<F>, t: F, final: F -> F, k: nat)
    requires k < |parents|
    ensures var (left, right) := SplitParent(parents[k], t);
      ChildAt(parents, t, final, 2 * k) == final(left) && ChildAt(parents, t, final, 2 * k + 1) == final(right)
  {
    hide SplitParent, Child;
    ChildParts(parents[k], t, k);
  }

  lemma LayerFromEntries(children: seq<F>, parents: seq<F>, t: F, final: F -> F)
    requires |children| == 2 * |parents|
    requires forall i: nat :: i < |children| ==> children[i] == ChildAt(parents, t, final, i)
    ensures IsLayer(children, parents, t, final)
  {
    hide Child;
  }

  // All layers but the last, without the map.
  method FillLayers(evals: array<F>, off: nat, r: seq<F>, initial: F) returns (len: nat, splits: nat)
    requires |r| > 0 && off + Pow2(|r|) <= evals.Length
    modifies evals
    ensures 2 * len == Pow2(|r|) && IsTable(evals[off..off + len], r[1..], initial, (x: F) => x)
    ensures Outside(evals, off, off + Pow2(|r|))
    ensures splits == len - 1
  {
    hide Eq, Mul, Add, Neg, IsLayer, IsTable, Pow2;
    var plain := (x: F) => x;
    UnitLayer(initial, plain);
    Pow2Step(0);
    evals[off] := initial;
    var k := |r|;
    len, splits := 1, 0;
    Pow2Monotone(1, |r|);
    assert r[k..] == [];
    assert evals[off..off + 1] == [initial];
    while k > 1
      invariant 1 <= k <= |r| && len == Pow2(|r| - k) && 2 * len <= Pow2(|r|)
      invariant IsTable(evals[off..off + len], r[k..], initial, plain)
      invariant Outside(evals, off, off + Pow2(|r|))
      invariant splits == len - 1
    {
      k := k - 1;
      ghost var parents := evals[off..off + len];
      var more := ExpandLayer(evals, off, len, r[k], plain);
      LayerIsTable(initial, r, k, parents, evals[off..off + 2 * len], plain);
      Pow2Step(|r| - k - 1);
      len, splits := 2 * len, splits + more;
      Pow2Step(|r| - k);
      Pow2Monotone(|r| - k + 1, |r|);
    }
    Pow2Step(|r| - 1);
  }

  /** The serial table over one slab of a larger buffer. The map is applied only in the last
      layer, and exactly 2^n - 1 parents are split. */
  method FillSerial(evals: array<F>, off: nat, r: seq<F>, initial: F, final: F -> F) returns (splits: nat)
    requires off + Pow2(|r|) <= evals.Length
    modifies evals
    ensures IsTable(evals[off..off + Pow2(|r|)], r, initial, final)
    ensures Outside(evals, off, off + Pow2(|r|))
    ensures splits == Pow2(|r|) - 1
  {
    hide Eq, Mul, Add, Neg, IsLayer, IsTable, Pow2;
    if |r| == 0 {
      UnitLayer(initial, final);
      Pow2Step(0);
      assert r == [];
      evals[off] := final(initial);
      assert evals[off..off + 1] == [final(initial)];
      return 0;
    }
    var len;
    len, splits := FillLayers(evals, off, r, initial);
    ghost var parents := evals[off..off + len];
    var more := ExpandLayer(evals, off, len, r[0], final);
    LayerIsTable(initial, r, 0, parents, evals[off..off + 2 * len], final);
    assert r[0..] == r;
    splits := splits + more;
  }

  // The table of scale * eq(r, .), with `final` applied to every entry.
  ghost predicate IsTable(t: seq<F>, r: seq<F>, scale: F, final: F -> F) {
    && |t| == Pow2(|r|)
    && forall b: nat :: b < |t| ==> t[b] == final(Mul(scale, Eq(r, b)))
  }

  lemma UnitLayer(scale: F, final: F -> F)
    ensures IsTable([final(scale)], [], scale, final)
  {
    MulOne(scale);
  }

  lemma LayerIsTable(scale: F, r: seq<F>, k: nat, parents: seq<F>, children: seq<F>, final: F -> F)
    requires k < |r|
    requires IsTable(parents, r[k + 1..], scale, (x: F) => x)
    requires IsLayer(children, parents, r[k], final)
    ensures IsTable(children, r[k..], scale, final)
  {
    hide Child, Eq, Mul;
    assert r[k..] == [r[k]] + r[k + 1..];
    forall i: nat | i < |children|
      ensures children[i] == final(Mul(scale, Eq(r[k..], i)))
    {
      ChildOfTable(scale, r[k], r[k + 1..], i);
    }
  }

  /** The forward doubling table: coordinate k splits entry x into x and x + 2^k. */
  method EvalsParallel(r: seq<F>, scale: F) returns (evals: array<F>)
    ensures IsTable(evals[..], r, scale, (x: F) => x)
  {
    hide Eq, Mul, Add, Neg, IsTable, SplitParent;
    evals := new F[Pow2(|r|)](_ => Zero);
    evals[0] := scale;
    var size, k := 1, 0;
    UnitLayer(scale, (x: F) => x);
    assert r[..0] == [] && evals[..1] == [scale];
    while k < |r|
      invariant 0 <= k <= |r| && size == Pow2(k) && size <= Pow2(|r|)
      invariant evals.Length == Pow2(|r|)
      invariant IsTable(evals[..size], r[..k], scale, (x: F) => x)
    {
      Pow2Monotone(k + 1, |r|);
      ghost var before := evals[..size];
      DoubleInPlace(evals, size, r[k]);
      DoublingIsTable(scale, r, k, before, evals[..2 * size]);
      size, k := 2 * size, k + 1;
    }
    assert r[..|r|] == r && evals[..size] == evals[..];
  }

  method DoubleInPlace(evals: array<F>, size: nat, t: F)
    requires 2 * size <= evals.Length
    modifies evals
    ensures IsDoubled(evals[..2 * size], old(evals[..size]), t)
  {
    hide SplitParent;
    ghost var before := evals[..size];
    var x := 0;
    while x < size
      invariant 0 <= x <= size
      invariant forall b: nat :: x <= b < size ==> evals[b] == before[b]
      invariant forall b: nat :: b < x ==> evals[b] == SplitParent(before[b], t).0
      invariant forall b: nat :: size <= b < size + x ==> evals[b] == SplitParent(before[b - size], t).1
    {
      var (left, right) := SplitParent(evals[x], t);
      evals[x], evals[size + x] := left, right;
      x := x + 1;
    }
  }

  ghost predicate IsDoubled(after: seq<F>, before: seq<F>, t: F) {
    && |after| == 2 * |before|
    && (forall b: nat :: b < |before| ==> after[b] == SplitParent(before[b], t).0)
    && (forall b: nat :: |before| <= b < |after| ==> after[b] == SplitParent(before[b - |before|], t).1)
  }

  lemma DoublingIsTable(scale: F, r: seq<F>, k: nat, before: seq<F>, after: seq<F>)
    requires k < |r| && IsTable(before, r[..k], scale, (x: F) => x)
    requires IsDoubled(after, before, r[k])
    ensures IsTable(after, r[..k + 1], scale, (x: F) => x)
  {
    hide SplitParent, Eq, Mul, Shl;
    var s := r[..k + 1];
    assert s[..k] == r[..k] && s[k] == r[k];
    forall i: nat | i < 2 * Pow2(k)
      ensures after[i] == Mul(scale, Eq(s, i))
    {
      var bit := if i < Pow2(k) then 0 else 1;
      var b := if i < Pow2(k) then i else i - Pow2(k);
      ShlPlusOne(0, k);
      Children(before[b], r[k]);
      LastBit(s, b, bit);
      MulAssoc(scale, Eq(r[..k], b), Factor(r[k], bit));
      MulComm(Eq(r[..k], b), Factor(r[k], bit));
    }
  }

  /** The full table; past 16 variables the parallel builder is used. */
  method Evals(r: seq<F>, scale: F) returns (table: seq<F>)
    ensures table == EqTable(r, scale)
  {
    hide Eq, Mul, Add, Neg;
    if |r| > 16 {
      var evals := EvalsParallel(r, scale);
      return evals[..];
    }
    var evals := new F[Pow2(|r|)](_ => Zero);
    var _ := FillSerial(evals, 0, r, scale, x => x);
    return evals[..];
  }

  // scale * eq(r, b) for every b.
  ghost function EqTable(r: seq<F>, scale: F): (t: seq<F>)
    ensures |t| == Pow2(|r|)
  {
    seq(Pow2(|r|), (b: nat) => Mul(scale, Eq(r, b)))
  }

  lemma UnitTable(r: seq<F>, b: nat)
    requires b < Pow2(|r|)
    ensures EqTable(r, One)[b] == Eq(r, b)
  {
    MulComm(One, Eq(r, b));
    MulOne(Eq(r, b));
  }

  /** Slab expansion: the table of the high variables seeds one serial slab per entry. The
      number of high variables is a scheduling choice and does not show in the result. */
  method EvalsMappedSlabs(r: seq<F>, outerVars: nat, final: F -> F) returns (out: array<F>)
    requires outerVars <= |r|
    ensures out.Length == Pow2(|r|)
    ensures forall b: nat :: b < Pow2(|r|) ==> out[b] == final(Eq(r, b))
  {
    hide Eq, Mul, Add, Neg, EqTable, IsTable, Shl, Pow2, FilledTo;
    var lowVars := |r| - outerVars;
    var outer := Evals(r[lowVars..], One);
    TableLength(r[lowVars..], One);
    out := new F[Pow2(|r|)](_ => Zero);
    var slab, start := 0, 0;
    ShlPlusOne(0, lowVars);
    NothingFilled(out[..], r, final);
    while slab < |outer|
      invariant 0 <= slab <= |outer| && start == Shl(slab, lowVars) && start <= Pow2(|r|)
      invariant slab == |outer| ==> start == Pow2(|r|)
      invariant out.Length == Pow2(|r|) && FilledTo(out[..], r, start, final)
    {
      SlabFits(slab, outerVars, lowVars);
      ghost var before := out[..];
      var _ := FillSerial(out, start, r[..lowVars], outer[slab], final);
      assert out[..][..start] == before[..start];
      assert out[..][start..start + Pow2(lowVars)] == out[start..start + Pow2(lowVars)];
      NextSlab(before, out[..], r, lowVars, slab, start, outer[slab], final);
      slab, start := slab + 1, start + Pow2(lowVars);
    }
    AllFilled(out[..], r, start, final);
  }

  // The first `end` entries are the table's.
  ghost predicate FilledTo(s: seq<F>, r: seq<F>, end: nat, final: F -> F) {
    end <= |s| && forall b: nat :: b < end ==> s[b] == final(Eq(r, b))
  }

  lemma NothingFilled(s: seq<F>, r: seq<F>, final: F -> F)
    ensures FilledTo(s, r, 0, final)
  {}

  lemma AllFilled(s: seq<F>, r: seq<F>, end: nat, final: F -> F)
    requires FilledTo(s, r, end, final)
    ensures forall b: nat :: b < end ==> s[b] == final(Eq(r, b))
  {}

  lemma NextSlab(before: seq<F>, after: seq<F>, r: seq<F>, lowVars: nat, slab: nat, start: nat, seed: F, final: F -> F)
    requires lowVars <= |r| && slab < Pow2(|r| - lowVars) && seed == EqTable(r[lowVars..], One)[slab]
    requires start == Shl(slab, lowVars) && |before| == |after| && start + Pow2(lowVars) <= |after|
    requires FilledTo(before, r, start, final) && after[..start] == before[..start]
    requires IsTable(after[start..start + Pow2(lowVars)], r[..lowVars], seed, final)
    ensures FilledTo(after, r, start + Pow2(lowVars), final)
  {
    hide Eq, Mul, Add, Neg, Shl, EqTable, Pow2;
    var t := after[start..start + Pow2(lowVars)];
    SlabIsTable(r, lowVars, slab, seed, t, final);
    forall b: nat | b < start + Pow2(lowVars) ensures after[b] == final(Eq(r, b)) {
      if b < start {
        assert after[b] == after[..start][b] == before[..start][b];
      } else {
        assert after[b] == t[b - start];
      }
    }
  }

  lemma SlabIsTable(r: seq<F>, lowVars: nat, slab: nat, seed: F, t: seq<F>, final: F -> F)
    requires lowVars <= |r| && slab < Pow2(|r| - lowVars) && seed == EqTable(r[lowVars..], One)[slab]
    requires IsTable(t, r[..lowVars], seed, final)
    ensures forall low: nat :: low < |t| ==> t[low] == final(Eq(r, Shl(slab, lowVars) + low))
  {
    hide Eq, Mul, Add, Neg, Shl, EqTable;
    UnitTable(r[lowVars..], slab);
    forall low: nat | low < |t|
      ensures t[low] == final(Eq(r, Shl(slab, lowVars) + low))
    {
      SlabEntry(r, lowVars, slab, low);
    }
  }

  lemma SlabFits(slab: nat, outerVars: nat, lowVars: nat)
    requires slab < Pow2(outerVars)
    ensures Shl(slab, lowVars) + Pow2(lowVars) <= Pow2(outerVars + lowVars)
    ensures Shl(slab + 1, lowVars) == Shl(slab, lowVars) + Pow2(lowVars)
    ensures slab + 1 == Pow2(outerVars) ==> Shl(slab + 1, lowVars) == Pow2(outerVars + lowVars)
  {
    ShlPlusOne(slab, lowVars);
    ShlIsMul(slab + 1, lowVars);
    Pow2Add(outerVars, lowVars);
    MulMonotone(slab + 1, Pow2(outerVars), Pow2(lowVars));
  }

  lemma SlabEntry(r: seq<F>, lowVars: nat, slab: nat, low: nat)
    requires lowVars <= |r| && low < Pow2(lowVars)
    ensures Eq(r, Shl(slab, lowVars) + low) == Mul(Eq(r[lowVars..], slab), Eq(r[..lowVars], low))
  {
    ShrLowUnique(Shl(slab, lowVars) + low, lowVars, slab, low);
    Cut(r, lowVars, Shl(slab, lowVars) + low);
    MulComm(Eq(r[..lowVars], low), Eq(r[lowVars..], slab));
  }

  /** The cached layers. Layer j is the table of the last j coordinates. */
  method EvalsCached(r: seq<F>, scale: F) returns (layers: seq<seq<F>>)
    ensures |layers| == |r| + 1
    ensures forall j: nat :: j <= |r| ==> layers[j] == EqTable(r[|r| - j..], scale)
  {
    hide Eq, Mul, Add, Neg, SplitParent;
    layers := [[scale]];
    UnitLayer(scale, (x: F) => x);
    assert r[|r|..] == [];
    assert layers[0] == EqTable(r[|r|..], scale);
    for j := 0 to |r|
      invariant |layers| == j + 1
      invariant forall i: nat :: i <= j ==> layers[i] == EqTable(r[|r| - i..], scale)
    {
      var idx := |r| - 1 - j;
      var next := NextLayer(layers[j], r[idx]);
      assert r[|r| - j..] == r[idx + 1..];
      LayerIsTable(scale, r, idx, layers[j], next, (x: F) => x);
      assert next == EqTable(r[idx..], scale);
      layers := layers + [next];
    }
  }

  method NextLayer(layer: seq<F>, t: F) returns (next: seq<F>)
    ensures IsLayer(next, layer, t, (x: F) => x)
  {
    hide SplitParent, Child;
    next := seq(2 * |layer|, _ => Zero);
    var i := |layer|;
    while i > 0
      invariant 0 <= i <= |layer| && |next| == 2 * |layer|
      invariant forall k: nat :: 2 * i <= k < 2 * |layer| ==> next[k] == Child(layer[k / 2], t, k)
    {
      i := i - 1;
      var (left, right) := SplitParent(layer[i], t);
      ChildParts(layer[i], t, i);
      next := next[2 * i := left][2 * i + 1 := right];
    }
  }

  /** The Dao-Thaler split: half tables over the low and the high variables. */
  datatype SplitEqEvals = SplitEqEvals(eOut: seq<F>, eIn: seq<F>)

  ghost predicate SplitOf(split: SplitEqEvals, point: seq<F>) {
    && split.eIn == EqTable(point[..|point| / 2], One)
    && split.eOut == EqTable(point[|point| / 2..], One)
  }

  method NewSplit(point: seq<F>) returns (split: SplitEqEvals)
    ensures SplitOf(split, point)
  {
    var m := |point| / 2;
    var eIn := Evals(point[..m], One);
    var eOut := Evals(point[m..], One);
    split := SplitEqEvals(eOut, eIn);
  }

  lemma TableLength(r: seq<F>, scale: F)
    ensures |EqTable(r, scale)| == Pow2(|r|)
  {}

  lemma SplitIndex(index: nat, m: nat, k: nat)
    requires index < Pow2(m) * k
    ensures index / Pow2(m) == Shr(index, m) < k && index % Pow2(m) == Low(index, m) < Pow2(m)
  {
    ShrLow(index, m);
    ShlIsMul(Shr(index, m), m);
    DivModUnique(index, Pow2(m), Shr(index, m), Low(index, m));
    DivBound(index, Pow2(m), k);
  }

  method EvalAt(split: SplitEqEvals, ghost point: seq<F>, index: nat) returns (value: Option<F>)
    requires SplitOf(split, point)
    ensures value.Some? <==> index < Pow2(|point|)
    ensures value.Some? ==> value.value == Eq(point, index)
  {
    hide Eq, Mul, Add, Neg, EqTable, Pow2, Shr, Low;
    ghost var m := |point| / 2;
    TableLength(point[..m], One);
    TableLength(point[m..], One);
    assert |split.eIn| * |split.eOut| == Pow2(|point|) by { Pow2Add(m, |point| - m); }
    if index >= |split.eIn| * |split.eOut| {
      return None;
    }
    SplitIndex(index, m, |split.eOut|);
    Cut(point, m, index);
    UnitTable(point[..m], Low(index, m));
    UnitTable(point[m..], Shr(index, m));
    MulComm(Eq(point[..m], Low(index, m)), Eq(point[m..], Shr(index, m)));
    return Some(Mul(split.eOut[index / |split.eIn|], split.eIn[index % |split.eIn|]));
  }
}
