/** The in-place mixed-radix transform. */
module Fft {
  import opened Field
  import opened Arith
  import opened Sums
  import opened Dft
  import opened FftKernels
  import opened FftPlan
  import opened FftStages

  // A group of r blocks of length b holds lane k of column j at k * b + j.
  function Row(i: nat, b: nat): nat requires b > 0 { i / b }
  function Col(i: nat, b: nat): nat requires b > 0 { i % b }

  lemma RowCol(b: nat, q: nat, j: nat)
    requires j < b
    ensures Row(q * b + j, b) == q && Col(q * b + j, b) == j
  {
    DivModUnique(q * b + j, b, q, j);
  }

  lemma FromRowCol(b: nat, i: nat)
    requires b > 0
    ensures i == Row(i, b) * b + Col(i, b) && Col(i, b) < b
  {
    DivMod(i, b);
  }

  lemma RowBound(b: nat, r: nat, i: nat)
    requires b > 0 && i < b * r
    ensures Row(i, b) < r
  {
    DivBound(i, b, r);
  }

  lemma SpotBound(b: nat, r: nat, q: nat, j: nat)
    requires q < r && j < b
    ensures q * b + j < b * r
  {
    MulMonotone(q + 1, r, b);
  }

  // The lanes of column j.
  ghost function Lanes(group: seq<F>, r: nat, b: nat, j: nat): (lanes: seq<F>)
    ensures |lanes| == r
  {
    seq(r, (k: nat) => At(group, k * b + j))
  }

  // Entry i of a group after its butterflies.
  ghost function JoinedAt(group: seq<F>, r: nat, b: nat, w: F, i: nat): F
    requires b > 0
  {
    DftAt(Twisted(Lanes(group, r, b, Col(i, b)), Pow(w, Col(i, b))), Pow(w, b), Row(i, b))
  }

  ghost function Joined(group: seq<F>, r: nat, b: nat, w: F): (s: seq<F>)
    requires b > 0
    ensures |s| == b * r
  {
    seq(b * r, (i: nat) => JoinedAt(group, r, b, w, i))
  }

  /** When the r blocks of a group hold the transforms of the r lanes of y, the butterflies
      leave the transform of y. */
  lemma JoinedIsDft(group: seq<F>, y: seq<F>, r: nat, b: nat, w: F)
    requires b > 0 && |y| == b * r && Pow(w, b * r) == One
    requires forall k: nat, j: nat :: k < r && j < b ==>
      At(group, k * b + j) == DftAt(Lane(y, k, r, b), Pow(w, r), j)
    ensures Joined(group, r, b, w) == DftSeq(y, w)
  {
    hide Add, Mul, Neg, Pow, Sum, At, DftAt, Row, Col;
    forall i: nat | i < b * r
      ensures JoinedAt(group, r, b, w, i) == DftAt(y, w, i)
    {
      JoinedEntry(group, y, r, b, w, i);
    }
  }

  lemma JoinedEntry(group: seq<F>, y: seq<F>, r: nat, b: nat, w: F, i: nat)
    requires b > 0 && |y| == b * r && Pow(w, b * r) == One && i < b * r
    requires forall k: nat, j: nat :: k < r && j < b ==>
      At(group, k * b + j) == DftAt(Lane(y, k, r, b), Pow(w, r), j)
    ensures JoinedAt(group, r, b, w, i) == DftAt(y, w, i)
  {
    hide Add, Mul, Neg, Pow, Sum, Row, Col, Lane;
    var q, j := Row(i, b), Col(i, b);
    FromRowCol(b, i);
    CooleyTukey(y, w, r, b, q, j, i);
    var z := Twisted(Lanes(group, r, b, j), Pow(w, j));
    forall k: nat | k < r
      ensures DftTerms(z, Pow(w, b), q)(k) == LaneTerms(y, w, r, b, i, j)(k)
    {
      TwistedLane(group, r, b, j, Pow(w, j), k);
      TwistExponent(At(group, k * b + j), w, b, q, j, k, i);
    }
    Congruent(r, DftTerms(z, Pow(w, b), q), LaneTerms(y, w, r, b, i, j));
  }

  lemma TwistedLane(group: seq<F>, r: nat, b: nat, j: nat, tw: F, k: nat)
    requires k < r
    ensures At(Twisted(Lanes(group, r, b, j), tw), k) == Mul(At(group, k * b + j), Pow(tw, k))
  {
    hide Mul, Pow;
  }

  lemma TwistExponent(v: F, w: F, b: nat, q: nat, j: nat, k: nat, i: nat)
    requires i == q * b + j
    ensures Mul(Mul(v, Pow(Pow(w, j), k)), Pow(Pow(w, b), k * q)) == Mul(v, Pow(w, k * i))
  {
    hide Mul, Pow;
    PowMul(w, j, k);
    PowMul(w, b, k * q);
    var low, high: nat := j * k, b * (k * q);
    PowAdd(w, low, high);
    assert k * i == low + high by { LaneIndex(k, q, b, j); }
    MulAssoc(v, Pow(w, low), Pow(w, high));
  }

  lemma LaneIndex(k: nat, q: nat, b: nat, j: nat)
    ensures k * (q * b + j) == j * k + b * (k * q)
  {}

  // Group g of a buffer cut into groups of the given size.
  ghost function Group(s: seq<F>, g: nat, size: nat): (group: seq<F>)
    ensures |group| == size
  {
    seq(size, (i: nat) => GroupAt(s, g, size, i))
  }

  ghost function GroupAt(s: seq<F>, g: nat, size: nat, i: nat): F {
    At(s, g * size + i)
  }

  /** What the buffer holds between stages: at the place Rev(pre, a), the transform of every
      Prod(pre)-th input from input a. */
  ghost predicate Holds(s: seq<F>, x: seq<F>, omega: F, pre: seq<nat>, b: nat)
    requires Radices(pre)
  {
    && |s| == |x| == Prod(pre) * b
    && forall a: nat :: a < Prod(pre) ==>
         Group(s, Rev(pre, a), b) == DftSeq(Lane(x, a, Prod(pre), b), Pow(omega, Prod(pre)))
  }

  ghost predicate EveryGroupJoined(before: seq<F>, after: seq<F>, groups: nat, r: nat, b: nat, w: F)
    requires b > 0
  {
    forall g: nat :: g < groups ==> Group(after, g, b * r) == Joined(Group(before, g, b * r), r, b, w)
  }

  /** One stage moves the last radix of the plan into the blocks. */
  lemma StageStep(before: seq<F>, after: seq<F>, x: seq<F>, omega: F, init: seq<nat>, r: nat, b: nat)
    requires Radices(init) && r >= 2 && b >= 1 && |after| == |before|
    requires Radices(init + [r]) && Holds(before, x, omega, init + [r], b)
    requires EveryGroupJoined(before, after, Prod(init), r, b, Pow(omega, Prod(init)))
    requires Pow(Pow(omega, Prod(init)), b * r) == One
    ensures Holds(after, x, omega, init, b * r)
  {
    hide Mul, Pow, DftAt, DftSeq, Group, Joined, Lane, Rev, Prod;
    var m := Prod(init);
    var w := Pow(omega, m);
    assert m * (b * r) == |x| by {
      SnocProduct(init, r);
      assert m * r * b == m * (b * r);
    }
    forall a: nat | a < m
      ensures Group(after, Rev(init, a), b * r) == DftSeq(Lane(x, a, m, b * r), w)
    {
      var g := Rev(init, a);
      RevBound(init, a);
      forall k: nat, j: nat | k < r && j < b
        ensures At(Group(before, g, b * r), k * b + j) == DftAt(Lane(Lane(x, a, m, b * r), k, r, b), Pow(w, r), j)
      {
        BlockEntry(before, x, omega, init, r, b, a, k, j);
      }
      JoinedIsDft(Group(before, g, b * r), Lane(x, a, m, b * r), r, b, w);
    }
  }

  lemma SnocProduct(init: seq<nat>, r: nat)
    ensures Prod(init + [r]) == Prod(init) * r
  {
    assert (init + [r])[..|init|] == init;
  }

  // Block k of group Rev(init, a) is the block of input a + k * Prod(init).
  lemma BlockEntry(s: seq<F>, x: seq<F>, omega: F, init: seq<nat>, r: nat, b: nat, a: nat, k: nat, j: nat)
    requires Radices(init) && r >= 2 && b >= 1 && a < Prod(init) && k < r && j < b
    requires Radices(init + [r]) && Holds(s, x, omega, init + [r], b)
    ensures At(Group(s, Rev(init, a), b * r), k * b + j) ==
            DftAt(Lane(Lane(x, a, Prod(init), b * r), k, r, b), Pow(Pow(omega, Prod(init)), r), j)
  {
    hide Mul, Pow, DftAt, Lane, Rev, Prod;
    var m, g := Prod(init), Rev(init, a);
    var a' := a + k * m;
    RevSnoc(init, r, a, k);
    SpotBound(m, r, k, a);
    assert a' < m * r;
    assert Group(s, g * r + k, b) == DftSeq(Lane(x, a', m * r, b), Pow(omega, m * r));
    BlockOfGroup(s, g, r, b, k, j);
    PowMul(omega, m, r);
    LaneOfLane(x, a, m, k, r, b);
    DftSeqEntry(Lane(x, a', m * r, b), Pow(omega, m * r), j);
  }

  lemma DftSeqEntry(x: seq<F>, w: F, j: nat)
    requires j < |x|
    ensures DftSeq(x, w)[j] == DftAt(x, w, j)
  {}

  lemma BlockOfGroup(s: seq<F>, g: nat, r: nat, b: nat, k: nat, j: nat)
    requires k < r && j < b
    ensures At(Group(s, g, b * r), k * b + j) == Group(s, g * r + k, b)[j]
  {
    hide At;
    SpotBound(b, r, k, j);
    assert g * (b * r) + (k * b + j) == (g * r + k) * b + j;
    var i := k * b + j;
    assert Group(s, g, b * r)[i] == At(s, g * (b * r) + i);
    GroupEntry(s, g, b * r, i);
  }

  lemma GroupEntry(s: seq<F>, g: nat, size: nat, i: nat)
    requires i < size
    ensures At(Group(s, g, size), i) == At(s, g * size + i)
  {}

  lemma LaneSpot(a: nat, m: nat, k: nat, r: nat, i: nat, b: nat)
    requires i * r + k < r * b
    ensures k + r * i < b * r && a + m * (k + r * i) == a + k * m + m * r * i
  {
    DistributeOver(k, i * r, m);
    MulReorder(i, r, m);
  }

  lemma LaneOfLane(x: seq<F>, a: nat, m: nat, k: nat, r: nat, b: nat)
    requires k < r
    ensures Lane(Lane(x, a, m, b * r), k, r, b) == Lane(x, a + k * m, m * r, b)
  {
    hide At;
    forall i: nat | i < b
      ensures At(Lane(x, a, m, b * r), k + r * i) == At(x, a + k * m + m * r * i)
    {
      LaneOfLaneAt(x, a, m, k, r, b, i);
    }
  }

  lemma LaneOfLaneAt(x: seq<F>, a: nat, m: nat, k: nat, r: nat, b: nat, i: nat)
    requires k < r && i < b
    ensures At(Lane(x, a, m, b * r), k + r * i) == At(x, a + k * m + m * r * i)
  {
    SpotBound(r, b, i, k);
    LaneSpot(a, m, k, r, i, b);
  }

  class FftWorkspace {
    const n: nat
    const bufA: array<F>
    const bufB: array<F>

    ghost predicate Valid() {
      bufA.Length == n && bufB.Length == n && bufA != bufB
    }

    constructor (n: nat)
      ensures Valid() && this.n == n && fresh(bufA) && fresh(bufB)
    {
      this.n := n;
      bufA := new F[n](_ => Zero);
      bufB := new F[n](_ => Zero);
    }

    method Gather(start: nat, r: nat, block: nat, j: nat) returns (lanes: seq<F>)
      requires Valid() && start + block * r <= n && j < block
      ensures lanes == Lanes(bufA[start..start + block * r], r, block, j)
    {
      ghost var group := bufA[start..start + block * r];
      lanes := [];
      for k := 0 to r
        invariant |lanes| == k && forall m: nat :: m < k ==> lanes[m] == Lanes(group, r, block, j)[m]
      {
        SpotBound(block, r, k, j);
        assert group[k * block + j] == bufA[start + j + k * block];
        lanes := lanes + [bufA[start + j + k * block]];
      }
    }

    method Scatter(start: nat, r: nat, block: nat, j: nat, y: seq<F>)
      requires Valid() && start + block * r <= n && j < block && |y| == r
      modifies bufA
      ensures forall i: nat :: i < block * r ==>
        bufA[start + i] ==
          if Col(i, block) == j && Row(i, block) < r then y[Row(i, block)] else old(bufA[start + i])
      ensures forall p: nat :: p < n && !(start <= p < start + block * r) ==> bufA[p] == old(bufA[p])
    {
      hide Row, Col;
      ghost var size := block * r;
      for q := 0 to r
        invariant forall i: nat :: i < size ==>
          bufA[start + i] == if Col(i, block) == j && Row(i, block) < q then y[Row(i, block)] else old(bufA[start + i])
        invariant forall p: nat :: p < n && !(start <= p < start + size) ==> bufA[p] == old(bufA[p])
      {
        SpotBound(block, r, q, j);
        RowCol(block, q, j);
        var spot := start + j + q * block;
        forall i: nat | i < size && start + i != spot
          ensures !(Col(i, block) == j && Row(i, block) == q)
        {
          FromRowCol(block, i);
        }
        bufA[spot] := y[q];
      }
    }

    /** The butterflies of one group, column by column. */
    method JoinGroup(s: StageData, start: nat, ghost w: F)
      requires Valid() && IsStage(s, w) && start + s.block * s.r <= n
      modifies bufA
      ensures bufA[start..start + s.block * s.r] == Joined(old(bufA[start..start + s.block * s.r]), s.r, s.block, w)
      ensures forall p: nat :: p < n && !(start <= p < start + s.block * s.r) ==> bufA[p] == old(bufA[p])
    {
      hide Mul, Pow, Row, Col, Twisted, DftAt, IsStage, Lanes, JoinedAt;
      ghost var size := s.block * s.r;
      ghost var group := bufA[start..start + size];
      StageShape(s, w);
      for j := 0 to s.block
        invariant forall i: nat :: i < size ==>
          bufA[start + i] == if Col(i, s.block) < j then JoinedAt(group, s.r, s.block, w, i) else group[i]
        invariant forall p: nat :: p < n && !(start <= p < start + size) ==> bufA[p] == old(bufA[p])
      {
        ghost var now := bufA[start..start + size];
        var lanes := Gather(start, s.r, s.block, j);
        SameLanes(now, group, s.r, s.block, j);
        var y := Butterfly(s, lanes, j, w);
        Scatter(start, s.r, s.block, j, y);
        forall i: nat | i < size && Col(i, s.block) == j
          ensures bufA[start + i] == JoinedAt(group, s.r, s.block, w, i)
        {
          RowBound(s.block, s.r, i);
          JoinedFrom(group, s.r, s.block, w, i, y);
        }
      }
      forall i: nat | i < size
        ensures Col(i, s.block) < s.block
      {
        FromRowCol(s.block, i);
      }
    }

    /** One stage: every group of block * r consecutive entries, in turn. */
    method RunStage(s: StageData, ghost groups: nat, ghost w: F)
      requires Valid() && IsStage(s, w) && groups * (s.block * s.r) == n
      modifies bufA
      ensures EveryGroupJoined(old(bufA[..]), bufA[..], groups, s.r, s.block, w)
    {
      hide Mul, Pow, IsStage, Joined, Group;
      var newBlock := s.block * s.r;
      StageShape(s, w);
      MulMonotone(1, s.r, s.block);
      ghost var before := bufA[..];
      ghost var g := 0;
      var start := 0;
      while start < n
        invariant start == g * newBlock <= n && g <= groups
        invariant forall i: nat :: i < g ==> Group(bufA[..], i, newBlock) == Joined(Group(before, i, newBlock), s.r, s.block, w)
        invariant forall p: nat :: start <= p < n ==> bufA[p] == before[p]
        decreases n - start
      {
        NextGroup(g, groups, newBlock, n);
        ghost var now := bufA[..];
        JoinGroup(s, start, w);
        ghost var next := bufA[..];
        GroupIsSlice(next, g, newBlock);
        GroupIsSlice(before, g, newBlock);
        assert now[start..start + newBlock] == before[start..start + newBlock];
        forall i: nat | i < g
          ensures Group(next, i, newBlock) == Group(now, i, newBlock)
        {
          EarlierGroup(now, next, i, g, newBlock);
        }
        g := g + 1;
        start := start + newBlock;
      }
      assert g == groups by { if g < groups { NextGroup(g, groups, newBlock, n); } }
    }

    /** The bottom-up sweep over all stages. */
    method ButterflyStages(stages: seq<StageData>, ghost x: seq<F>, ghost omega: F, ghost factors: seq<nat>)
      requires Valid() && Radices(factors) && n == Prod(factors) && AreStages(stages, omega, factors)
      requires Holds(bufA[..], x, omega, factors, 1)
      modifies bufA
      ensures bufA[..] == DftSeq(x, omega)
    {
      hide Mul, Pow, Prod, IsStage, EveryGroupJoined, Holds, DftSeq;
      ghost var b := 1;
      assert factors[..|factors|] == factors;
      for i := 0 to |stages|
        invariant b >= 1 && Prod(factors[..|factors| - i]) * b == n
        invariant Holds(bufA[..], x, omega, factors[..|factors| - i], b)
      {
        ghost var m := |factors| - 1 - i;
        ghost var groups, w := Prod(factors[..m]), Pow(omega, Prod(factors[..m]));
        assert |factors| - i == m + 1;
        assert IsStageAt(stages[i], omega, factors, i);
        SameBlock(factors[..m + 1], b, stages[i].block, n);
        StageGeometry(factors, m, b, n);
        ghost var before := bufA[..];
        RunStage(stages[i], groups, w);
        StageShape(stages[i], w);
        assert factors[..m + 1] == factors[..m] + [factors[m]];
        StageStep(before, bufA[..], x, omega, factors[..m], factors[m], b);
        b := b * factors[m];
      }
      assert factors[..0] == [];
      AllJoined(bufA[..], x, omega, b);
    }

    /** Digit-reverse the input into the first buffer, then sweep. */
    method Execute(input: seq<F>, stages: seq<StageData>, digitRev: seq<nat>, ghost omega: F, ghost factors: seq<nat>)
      requires Valid() && |input| == n && Radices(factors) && n == Prod(factors)
      requires IsReversal(digitRev, factors) && AreStages(stages, omega, factors)
      modifies bufA
      ensures bufA[..] == DftSeq(input, omega)
    {
      hide Mul, Pow, Prod, Rev, AreStages, Holds, DftSeq;
      for i := 0 to n
        invariant forall a: nat :: a < i ==> digitRev[a] < n && bufA[digitRev[a]] == input[a]
      {
        forall a: nat | a < i ensures digitRev[a] != digitRev[i] {
          ReversalIsPermutation(digitRev, factors, a, i);
        }
        ReversalIsPermutation(digitRev, factors, i, i);
        bufA[digitRev[i]] := input[i];
      }
      NothingJoined(bufA[..], input, digitRev, omega, factors);
      ButterflyStages(stages, input, omega, factors);
    }

    /** The same, from an input the caller has put in the second buffer. */
    method ExecuteFromB(stages: seq<StageData>, digitRev: seq<nat>, ghost omega: F, ghost factors: seq<nat>)
      requires Valid() && Radices(factors) && n == Prod(factors)
      requires IsReversal(digitRev, factors) && AreStages(stages, omega, factors)
      modifies bufA
      ensures bufA[..] == DftSeq(bufB[..], omega)
    {
      hide Mul, Pow, Prod, Rev, AreStages, Holds, DftSeq;
      for i := 0 to n
        invariant forall a: nat :: a < i ==> digitRev[a] < n && bufA[digitRev[a]] == bufB[a]
      {
        forall a: nat | a < i ensures digitRev[a] != digitRev[i] {
          ReversalIsPermutation(digitRev, factors, a, i);
        }
        ReversalIsPermutation(digitRev, factors, i, i);
        bufA[digitRev[i]] := bufB[i];
      }
      NothingJoined(bufA[..], bufB[..], digitRev, omega, factors);
      ButterflyStages(stages, bufB[..], omega, factors);
    }
  }

  lemma SameBlock(pre: seq<nat>, b: nat, c: nat, n: nat)
    requires Radices(pre) && Prod(pre) * b == n && Prod(pre) * c == n
    ensures b == c
  {
    ProdPositive(pre);
    DivModUnique(n, Prod(pre), b, 0);
    DivModUnique(n, Prod(pre), c, 0);
  }

  // The reversed input is the family of transforms of single points.
  lemma NothingJoined(s: seq<F>, x: seq<F>, perm: seq<nat>, omega: F, factors: seq<nat>)
    requires Radices(factors) && IsReversal(perm, factors) && |s| == |x| == |perm|
    requires forall a: nat :: a < |perm| ==> perm[a] < |s| && s[perm[a]] == x[a]
    ensures Holds(s, x, omega, factors, 1)
  {
    hide Mul, Pow, Prod, Rev, DftAt;
    var m := Prod(factors);
    forall a: nat | a < m
      ensures Group(s, Rev(factors, a), 1) == DftSeq(Lane(x, a, m, 1), Pow(omega, m))
    {
      assert perm[a] == Rev(factors, a);
      var lane := Lane(x, a, m, 1);
      assert a + m * 0 == a;
      assert lane == [x[a]];
      FirstTerm(lane, Pow(omega, m), 0);
      DftAtIs(lane, Pow(omega, m), 0);
      DftSeqEntry(lane, Pow(omega, m), 0);
      assert Rev(factors, a) * 1 + 0 == perm[a];
      GroupEntry(s, Rev(factors, a), 1, 0);
    }
  }

  // With every radix joined, the one block is the transform of the whole input.
  lemma AllJoined(s: seq<F>, x: seq<F>, omega: F, b: nat)
    requires Holds(s, x, omega, [], b)
    ensures s == DftSeq(x, omega)
  {
    hide Mul, DftAt;
    EmptyPlan();
    assert Pow(omega, 0) == One && Pow(omega, 1) == Mul(omega, Pow(omega, 0));
    MulOne(omega);
    assert |x| == b;
    forall i: nat | i < b ensures Lane(x, 0, 1, b)[i] == x[i] {
      assert 0 + 1 * i == i;
    }
    assert Lane(x, 0, 1, b) == x;
    assert 0 * b + b <= |s|;
    GroupIsSlice(s, 0, b);
    assert s[0 * b..0 * b + b] == s;
  }

  lemma NextGroup(g: nat, groups: nat, size: nat, n: nat)
    requires size >= 1 && groups * size == n && g <= groups
    ensures g < groups <==> g * size < n
    ensures g < groups ==> g * size + size <= n
    ensures g * size + size == (g + 1) * size
  {
    if g < groups { MulMonotone(g + 1, groups, size); }
  }

  lemma GroupIsSlice(s: seq<F>, g: nat, size: nat)
    requires g * size + size <= |s|
    ensures Group(s, g, size) == s[g * size..g * size + size]
  {
    forall i: nat | i < size ensures Group(s, g, size)[i] == s[g * size..g * size + size][i] {
      assert s[g * size..g * size + size][i] == s[g * size + i];
    }
  }

  lemma EarlierGroup(now: seq<F>, next: seq<F>, i: nat, g: nat, size: nat)
    requires i < g && |now| == |next| && g * size <= |now|
    requires forall p: nat :: p < g * size ==> now[p] == next[p]
    ensures Group(next, i, size) == Group(now, i, size)
  {
    MulMonotone(i + 1, g, size);
    assert (i + 1) * size == i * size + size;
    GroupIsSlice(now, i, size);
    GroupIsSlice(next, i, size);
  }

  // The lanes of a column depend on that column only.
  lemma SameLanes(now: seq<F>, group: seq<F>, r: nat, b: nat, j: nat)
    requires |now| == |group| == b * r && j < b
    requires forall i: nat :: i < b * r && Col(i, b) == j ==> now[i] == group[i]
    ensures Lanes(now, r, b, j) == Lanes(group, r, b, j)
  {
    hide Row, Col;
    forall k: nat | k < r
      ensures At(now, k * b + j) == At(group, k * b + j)
    {
      SpotBound(b, r, k, j);
      RowCol(b, k, j);
    }
  }

  lemma JoinedFrom(group: seq<F>, r: nat, b: nat, w: F, i: nat, y: seq<F>)
    requires b > 0 && Row(i, b) < r
    requires y == DftSeq(Twisted(Lanes(group, r, b, Col(i, b)), Pow(w, Col(i, b))), Pow(w, b))
    ensures |y| == r && y[Row(i, b)] == JoinedAt(group, r, b, w, i)
  {
    hide Mul, Pow, DftAt;
  }

  lemma StageShape(s: StageData, w: F)
    requires IsStage(s, w)
    ensures 2 <= s.r <= 8 && s.block >= 1 && |s.twiddle| == s.block
    ensures Pow(w, s.block * s.r) == One
  {}
}
