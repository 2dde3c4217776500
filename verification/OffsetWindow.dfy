/**
 Point evaluation of the equality polynomial at a physical index: the scalar primitive, the
 bounded two-table window, its interval fill, and the lazily amortized evaluator. Machine
 words are unbounded here, so the word-size guards of the source are always on.
 */
module OffsetWindow {
  import opened Field
  import opened Arith
  import opened EqPolynomial
  import opened EqTables

  const LOW_BITS_CAP := 16
  const HIGH_BITS_CAP := 16

  /** The scalar primitive: a guard, then one factor per coordinate from the first on. */
  method EqEvalAtIndex(r: seq<F>, index: nat) returns (acc: F)
    ensures acc == Eq(r, index)
  {
    hide Add, Mul, Neg, Eq, Factor;
    if index >= Pow2(|r|) {
      OutOfDomain(r, index);
      return Zero;
    }
    acc := One;
    assert r[..0] == [];
    Empty(0);
    var k := 0;
    while k < |r|
      invariant 0 <= k <= |r| && acc == Eq(r[..k], Low(index, k))
    {
      NextFactor(r, k, index);
      acc := Mul(acc, Factor(r[k], Shr(index, k)));
      k := k + 1;
    }
    LowSmall(index, |r|);
    assert r[..|r|] == r;
  }

  lemma NextFactor(r: seq<F>, k: nat, index: nat)
    requires k < |r|
    ensures Eq(r[..k + 1], Low(index, k + 1)) == Mul(Eq(r[..k], Low(index, k)), Factor(r[k], Shr(index, k)))
  {
    hide Add, Mul, Neg, Eq;
    var s, low, bit := r[..k + 1], Low(index, k), Shr(index, k) % 2;
    assert s[..k] == r[..k] && s[k] == r[k];
    LowOnce(index, k);
    ShrLow(index, k);
    LastBit(s, low, bit);
    MulComm(Factor(r[k], bit), Eq(r[..k], low));
  }

  lemma {:induction false} LowOnce(b: nat, k: nat)
    ensures Low(b, k + 1) == Shl(Shr(b, k) % 2, k) + Low(b, k)
  {
    if k > 0 { LowOnce(b / 2, k - 1); }
  }

  // ---- The bounded window

  datatype Window = Window(
    lowBits: nat,
    eqLow: seq<F>,
    eqHigh: Option<seq<F>>,
    highChallenges: seq<F>)

  ghost predicate WindowOf(w: Window, challenges: seq<F>) {
    && w.lowBits <= |challenges|
    && w.eqLow == EqTable(challenges[..w.lowBits], One)
    && w.highChallenges == challenges[w.lowBits..]
    && (w.eqHigh.Some? ==> w.eqHigh.value == EqTable(w.highChallenges, One))
  }

  function Min(a: nat, b: nat): nat { if a < b then a else b }
  function Max(a: nat, b: nat): nat { if a < b then b else a }

  // The balanced split when both tables fit their caps, else as many low bits as allowed.
  function SplitLowBits(count: nat, cap: nat): (bits: nat)
    ensures bits <= count && bits <= Min(cap, LOW_BITS_CAP)
    ensures count > Min(cap, LOW_BITS_CAP) + HIGH_BITS_CAP ==> bits == Min(cap, LOW_BITS_CAP)
    ensures cap >= LOW_BITS_CAP && count <= LOW_BITS_CAP + HIGH_BITS_CAP ==> count - bits <= HIGH_BITS_CAP
  {
    var lowCap := Min(cap, LOW_BITS_CAP);
    if count <= lowCap + HIGH_BITS_CAP then
      Min(Max((count + 1) / 2, if count > HIGH_BITS_CAP then count - HIGH_BITS_CAP else 0), lowCap)
    else
      Min(count, lowCap)
  }

  lemma {:induction false} PowSpread(low: nat, high: nat, d: nat)
    requires d <= low <= high
    ensures Pow2(low) + Pow2(high) <= Pow2(low - d) + Pow2(high + d)
  {
    if d > 0 {
      PowSpread(low, high, d - 1);
      Pow2Step(low - d);
      Pow2Step(high + d - 1);
      Pow2Monotone(low - d, high + d - 1);
    }
  }

  /** When both tables can be kept within their caps, no other allowed split needs fewer entries. */
  lemma SplitIsOptimal(count: nat, cap: nat, other: nat)
    requires count <= Min(cap, LOW_BITS_CAP) + HIGH_BITS_CAP
    requires other <= count && other <= Min(cap, LOW_BITS_CAP) && count - other <= HIGH_BITS_CAP
    ensures var bits := SplitLowBits(count, cap);
      count - bits <= HIGH_BITS_CAP && Pow2(bits) + Pow2(count - bits) <= Pow2(other) + Pow2(count - other)
  {
    hide Pow2;
    var bits := SplitLowBits(count, cap);
    var low, high := Min(bits, count - bits), Max(bits, count - bits);
    var d: nat := low - Min(other, count - other);
    PowSpread(low, high, d);
  }

  // The number of table entries a default window materializes.
  function MaterializedEntries(count: nat): nat {
    var lowBits := SplitLowBits(count, LOW_BITS_CAP);
    var highBits := count - lowBits;
    Pow2(lowBits) + if highBits <= HIGH_BITS_CAP then Pow2(highBits) else 0
  }

  method NewWindow(challenges: seq<F>, cap: nat) returns (w: Window)
    ensures WindowOf(w, challenges) && w.lowBits == SplitLowBits(|challenges|, cap)
    ensures w.eqHigh.Some? <==> |challenges| - w.lowBits <= HIGH_BITS_CAP
    ensures cap == LOW_BITS_CAP ==>
      MaterializedEntries(|challenges|) == |w.eqLow| + if w.eqHigh.Some? then |w.eqHigh.value| else 0
  {
    hide EqTable, Pow2;
    var lowBits := SplitLowBits(|challenges|, cap);
    TableLength(challenges[..lowBits], One);
    TableLength(challenges[lowBits..], One);
    var eqLow := Evals(challenges[..lowBits], One);
    var high := challenges[lowBits..];
    var eqHigh: Option<seq<F>> := None;
    if |high| <= HIGH_BITS_CAP {
      var table := Evals(high, One);
      eqHigh := Some(table);
    }
    w := Window(lowBits, eqLow, eqHigh, high);
  }

  /** Two lookups, or one lookup and the scalar primitive, equal the scalar primitive, at every
      index inside and outside the domain. */
  method EvalWindow(w: Window, ghost challenges: seq<F>, index: nat) returns (value: F)
    requires WindowOf(w, challenges)
    ensures value == Eq(challenges, index)
  {
    hide Add, Mul, Neg, Eq, EqTable;
    var low := Low(index, w.lowBits);
    ShrLow(index, w.lowBits);
    Cut(challenges, w.lowBits, index);
    UnitTable(challenges[..w.lowBits], low);
    var eqLow := if low < |w.eqLow| then w.eqLow[low] else Zero;
    var high := Shr(index, w.lowBits);
    if eqLow == Zero {
      MulComm(Zero, Eq(w.highChallenges, high));
      MulZero(Eq(w.highChallenges, high));
      return Zero;
    }
    var eqHigh;
    if w.eqHigh.Some? {
      TableOrZero(w.highChallenges, high);
      eqHigh := if high < |w.eqHigh.value| then w.eqHigh.value[high] else Zero;
    } else {
      eqHigh := EqEvalAtIndex(w.highChallenges, high);
    }
    return Mul(eqLow, eqHigh);
  }

  lemma TableOrZero(r: seq<F>, b: nat)
    ensures (if b < Pow2(|r|) then EqTable(r, One)[b] else Zero) == Eq(r, b)
  {
    if b < Pow2(|r|) { UnitTable(r, b); } else { OutOfDomain(r, b); }
  }

  // ---- Interval fill

  /** Fill output[from..end) with eq(challenges, start + k), one low block at a time. */
  method FillBounded(w: Window, ghost challenges: seq<F>, eqHigh: seq<F>, start0: nat, output: array<F>, from: nat, end: nat)
    requires WindowOf(w, challenges) && w.eqHigh == Some(eqHigh)
    requires from <= end <= output.Length
    modifies output
    ensures forall k: nat :: from <= k < end ==> output[k] == Eq(challenges, start0 + (k - from))
    ensures forall k: nat :: k < output.Length && !(from <= k < end) ==> output[k] == old(output[k])
  {
    hide Add, Mul, Neg, Eq, EqTable;
    var start, pos := start0, from;
    while pos < end
      invariant from <= pos <= end && start == start0 + (pos - from)
      invariant forall k: nat :: from <= k < pos ==> output[k] == Eq(challenges, start0 + (k - from))
      invariant forall k: nat :: k < output.Length && !(from <= k < end) ==> output[k] == old(output[k])
      decreases end - pos
    {
      var low := Low(start, w.lowBits);
      ShrLow(start, w.lowBits);
      var take := Min(|w.eqLow| - low, end - pos);
      var high := Shr(start, w.lowBits);
      if high >= |eqHigh| {
        FillZero(output, pos, end);
        forall k: nat | pos <= k < end
          ensures output[k] == Eq(challenges, start0 + (k - from))
        {
          PastTheDomain(challenges, w.lowBits, start, start + (k - pos));
        }
        return;
      }
      CopyScaled(w.eqLow, low, take, eqHigh[high], output, pos);
      forall k: nat | pos <= k < pos + take
        ensures output[k] == Eq(challenges, start0 + (k - from))
      {
        BlockEntry(w, challenges, eqHigh, start, k - pos);
      }
      start, pos := start + take, pos + take;
    }
  }

  method FillZero(output: array<F>, from: nat, end: nat)
    requires from <= end <= output.Length
    modifies output
    ensures forall k: nat :: from <= k < end ==> output[k] == Zero
    ensures forall k: nat :: k < output.Length && !(from <= k < end) ==> output[k] == old(output[k])
  {
    for i := from to end
      invariant forall k: nat :: from <= k < i ==> output[k] == Zero
      invariant forall k: nat :: k < output.Length && !(from <= k < i) ==> output[k] == old(output[k])
    {
      output[i] := Zero;
    }
  }

  /** One block: zeros, a plain copy or a scaled copy, by the value of the scale. */
  method CopyScaled(table: seq<F>, low: nat, take: nat, scale: F, output: array<F>, pos: nat)
    requires low + take <= |table| && pos + take <= output.Length
    modifies output
    ensures forall k: nat :: pos <= k < pos + take ==> output[k] == Mul(table[low + (k - pos)], scale)
    ensures forall k: nat :: k < output.Length && !(pos <= k < pos + take) ==> output[k] == old(output[k])
  {
    hide Mul;
    if scale == Zero {
      FillZero(output, pos, pos + take);
      forall k: nat | pos <= k < pos + take
        ensures output[k] == Mul(table[low + (k - pos)], scale)
      {
        MulZero(table[low + (k - pos)]);
      }
      return;
    }
    for i := 0 to take
      invariant forall k: nat :: pos <= k < pos + i ==> output[k] == Mul(table[low + (k - pos)], scale)
      invariant forall k: nat :: k < output.Length && !(pos <= k < pos + i) ==> output[k] == old(output[k])
    {
      MulOne(table[low + i]);
      output[pos + i] := if scale == One then table[low + i] else Mul(table[low + i], scale);
    }
  }

  lemma PastTheDomain(challenges: seq<F>, lowBits: nat, start: nat, index: nat)
    requires lowBits <= |challenges| && start <= index && Shr(start, lowBits) >= Pow2(|challenges| - lowBits)
    ensures Eq(challenges, index) == Zero
  {
    ShrLow(start, lowBits);
    ShlIsMul(Shr(start, lowBits), lowBits);
    Pow2Add(|challenges| - lowBits, lowBits);
    MulMonotone(Pow2(|challenges| - lowBits), Shr(start, lowBits), Pow2(lowBits));
    OutOfDomain(challenges, index);
  }

  lemma BlockEntry(w: Window, challenges: seq<F>, eqHigh: seq<F>, start: nat, i: nat)
    requires WindowOf(w, challenges) && w.eqHigh == Some(eqHigh)
    requires Low(start, w.lowBits) + i < Pow2(w.lowBits) && Shr(start, w.lowBits) < |eqHigh|
    ensures Mul(w.eqLow[Low(start, w.lowBits) + i], eqHigh[Shr(start, w.lowBits)]) == Eq(challenges, start + i)
  {
    hide Add, Mul, Neg, Eq, EqTable, Shr, Low, Shl;
    var low, high := Low(start, w.lowBits), Shr(start, w.lowBits);
    ShrLow(start, w.lowBits);
    ShrLowUnique(start + i, w.lowBits, high, low + i);
    Cut(challenges, w.lowBits, start + i);
    UnitTable(challenges[..w.lowBits], low + i);
    UnitTable(w.highChallenges, high);
  }

  /** The interval fill. With a materialized high table long outputs are cut into chunks of
      2^14, each filled on its own; without one every entry is evaluated. */
  method FillInterval(w: Window, ghost challenges: seq<F>, start: nat, output: array<F>)
    requires WindowOf(w, challenges)
    modifies output
    ensures forall k: nat :: k < output.Length ==> output[k] == Eq(challenges, start + k)
  {
    hide Add, Mul, Neg, Eq, EqTable, WindowOf;
    var chunk := 0x4000;
    if w.eqHigh.Some? {
      if output.Length >= chunk {
        var pos := 0;
        while pos < output.Length
          invariant 0 <= pos <= output.Length
          invariant forall k: nat :: k < pos ==> output[k] == Eq(challenges, start + k)
        {
          var end := Min(pos + chunk, output.Length);
          FillBounded(w, challenges, w.eqHigh.value, start + pos, output, pos, end);
          forall k: nat | pos <= k < end
            ensures output[k] == Eq(challenges, start + k)
          {
            assert output[k] == Eq(challenges, start + pos + (k - pos));
          }
          pos := end;
        }
      } else {
        FillBounded(w, challenges, w.eqHigh.value, start, output, 0, output.Length);
      }
      return;
    }
    for offset := 0 to output.Length
      invariant forall k: nat :: k < offset ==> output[k] == Eq(challenges, start + k)
    {
      var value := EvalWindow(w, challenges, start + offset);
      output[offset] := value;
    }
  }

  // ---- The amortized evaluator

  /** A window is built only once the evaluations pay for its tables; either way the answer is
      the scalar primitive's. */
  class AmortizedOffsetEq {
    var challenges: seq<F>
    var window: Option<Window>

    ghost predicate Valid()
      reads this
    {
      window.Some? ==> WindowOf(window.value, challenges)
    }

    constructor (challenges: seq<F>)
      ensures Valid() && this.challenges == challenges && window.None?
    {
      this.challenges := challenges;
      window := None;
    }

    method PrepareForProduct(families: nat, rows: nat, carries: nat)
      requires Valid()
      modifies this`window
      ensures Valid()
      ensures old(window.Some?) ==> window == old(window)
      ensures old(window.None?) ==>
        (window.Some? <==> |challenges| > 0 && families * rows * carries >= MaterializedEntries(|challenges|))
    {
      hide WindowOf, EqTable;
      if window.None? && |challenges| > 0 {
        if families * rows * carries >= MaterializedEntries(|challenges|) {
          var w := NewWindow(challenges, LOW_BITS_CAP);
          window := Some(w);
        }
      }
    }

    method Eval(index: nat) returns (value: F)
      requires Valid()
      ensures value == Eq(challenges, index)
    {
      if window.Some? {
        value := EvalWindow(window.value, challenges, index);
      } else {
        value := EqEvalAtIndex(challenges, index);
      }
    }
  }
}
