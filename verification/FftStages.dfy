/** The per-stage tables of a transform and the butterfly that reads them. */
module FftStages {
  import opened Field
  import opened Arith
  import opened Sums
  import opened Dft
  import opened FftKernels
  import opened FftPlan
  import opened Roots

  datatype StageData = StageData(
    r: nat,
    block: nat,
    omegaRPow: seq<F>,
    twiddle: seq<F>,
    winograd: seq<F>)

  function Half(): F { Inv(FromNat(2)) }

  // The radix-5 and radix-7 kernels divide by two.
  predicate Halvable(r: nat) {
    r == 5 || r == 7 ==> FromNat(2) != Zero
  }

  /** The tables of a stage that joins r blocks, for w a root of order block * r. */
  ghost predicate IsStage(s: StageData, w: F) {
    && 2 <= s.r <= 8 && s.block >= 1 && Halvable(s.r)
    && Pow(w, s.block * s.r) == One && Pow(w, s.block) != One
    && |s.omegaRPow| == 8 && IsPowerTable(s.omegaRPow, Pow(w, s.block), s.r)
    && |s.twiddle| == s.block && IsPowerTable(s.twiddle, w, s.block)
    && (s.r == 5 ==> s.winograd == Winograd5(s.omegaRPow, Half()))
    && (s.r == 7 ==> IsWinograd7(s.winograd, s.omegaRPow, Half()))
  }

  lemma HalfIsHalf()
    requires FromNat(2) != Zero
    ensures IsHalf(Half())
  {
    hide Add, Mul, Neg, Inv;
    MulInv(FromNat(2));
    assert FromNat(2) == Add(FromNat(1), One) && FromNat(1) == Add(FromNat(0), One) && FromNat(0) == Zero;
    TwoTimes(Half());
  }

  lemma TwoTimes(h: F)
    ensures Mul(Add(Add(Zero, One), One), h) == Add(h, h)
  { Ring(); }

  method WinogradConsts(r: nat, p: seq<F>) returns (cc: seq<F>)
    requires |p| == 8 && Halvable(r)
    ensures r == 5 ==> cc == Winograd5(p, Half())
    ensures r == 7 ==> IsWinograd7(cc, p, Half())
    ensures r != 5 && r != 7 ==> cc == []
  {
    if r == 5 {
      var half := Half();
      var alpha := Cosine(p[1], p[4], half);
      var beta := Cosine(p[2], p[3], half);
      var gamma := Sine(p[1], p[4], half);
      var delta := Sine(p[2], p[3], half);
      cc := [alpha, beta, gamma, delta, Add(alpha, beta), Add(gamma, delta)];
    } else if r == 7 {
      cc := Winograd7(p, Half());
    } else {
      cc := [];
    }
  }

  method PowerTable(w: F, r: nat) returns (p: seq<F>)
    requires 1 <= r <= 8
    ensures |p| == 8 && IsPowerTable(p, w, r)
  {
    hide Mul, Pow;
    p := seq(8, _ => One);
    SmallPowers(w);
    for q := 1 to r
      invariant |p| == 8 && forall i: nat :: i < q ==> p[i] == Pow(w, i)
    {
      NextPower(w, q - 1);
      p := p[q := Mul(p[q - 1], w)];
    }
  }

  method TwiddleTable(w: F, block: nat) returns (table: seq<F>)
    ensures |table| == block && IsPowerTable(table, w, block)
  {
    hide Mul, Pow;
    table := [];
    var tw := One;
    SmallPowers(w);
    for j := 0 to block
      invariant |table| == j && tw == Pow(w, j) && forall i: nat :: i < j ==> table[i] == Pow(w, i)
    {
      table := table + [tw];
      NextPower(w, j);
      tw := Mul(tw, w);
    }
  }

  // Stage i of a plan reads the i-th radix from the end; its root is omega^(product of the rest).
  ghost predicate IsStageAt(s: StageData, omega: F, factors: seq<nat>, i: nat)
    requires i < |factors|
  {
    var m := |factors| - 1 - i;
    && s.r == factors[m]
    && Prod(factors[..m + 1]) * s.block == Prod(factors)
    && IsStage(s, Pow(omega, Prod(factors[..m])))
  }

  ghost predicate AreStages(stages: seq<StageData>, omega: F, factors: seq<nat>) {
    |stages| == |factors| && forall i: nat :: i < |stages| ==> IsStageAt(stages[i], omega, factors, i)
  }

  method PrecomputeStages(omega: F, n: nat, factors: seq<nat>) returns (stages: seq<StageData>)
    requires Radices(factors) && n == Prod(factors) && PrimitiveRoot(omega, n)
    requires forall i :: 0 <= i < |factors| ==> factors[i] <= 8 && Halvable(factors[i])
    ensures AreStages(stages, omega, factors)
  {
    hide Mul, Pow, Prod, PrimitiveRoot, IsStage, Halvable, IsPowerTable;
    stages := [];
    var block := 1;
    var i := 0;
    assert factors[..|factors|] == factors;
    while i < |factors|
      invariant 0 <= i <= |factors| && |stages| == i && block >= 1
      invariant Prod(factors[..|factors| - i]) * block == n
      invariant forall j: nat :: j < i ==> IsStageAt(stages[j], omega, factors, j)
    {
      var m := |factors| - 1 - i;
      var r := factors[m];
      var newBlock := block * r;
      StageGeometry(factors, m, block, n);
      var omegaNewBlock := FieldPow(omega, n / newBlock);
      var omegaR := FieldPow(omegaNewBlock, block);
      var omegaRPow := PowerTable(omegaR, r);
      var twiddle := TwiddleTable(omegaNewBlock, block);
      var winograd := WinogradConsts(r, omegaRPow);
      var stage := StageData(r, block, omegaRPow, twiddle, winograd);
      StageRoot(omega, n, Prod(factors[..m]), block, r);
      StageIsStage(stage, omegaNewBlock);
      assert |factors| - i == m + 1;
      stages := stages + [stage];
      block := newBlock;
      i := i + 1;
    }
  }

  lemma StageGeometry(factors: seq<nat>, m: nat, block: nat, n: nat)
    requires Radices(factors) && m < |factors| && block >= 1 && Prod(factors[..m + 1]) * block == n
    ensures block * factors[m] >= 1 && Prod(factors[..m]) >= 1
    ensures Prod(factors[..m]) * (block * factors[m]) == n && n / (block * factors[m]) == Prod(factors[..m])
  {
    var g, r := Prod(factors[..m]), factors[m];
    ProdPrefix(factors, m);
    ProdPositive(factors[..m]);
    MulMonotone(1, block, r);
    assert g * r * block == g * (block * r);
    DivModUnique(n, block * r, g, 0);
  }

  // omega^g has order block * r when g * block * r = n.
  lemma StageRoot(omega: F, n: nat, g: nat, block: nat, r: nat)
    requires PrimitiveRoot(omega, n) && g >= 1 && block >= 1 && r >= 2 && g * (block * r) == n
    ensures Pow(Pow(omega, g), block * r) == One && Pow(Pow(omega, g), block) != One
  {
    hide Mul, Pow;
    PowMul(omega, g, block * r);
    PowMul(omega, g, block);
    MulMonotone(1, g, block);
    assert g * (block * r) == g * block * r;
    MulMonotone(2, r, g * block);
  }

  lemma StageIsStage(s: StageData, w: F)
    requires 2 <= s.r <= 8 && s.block >= 1 && Halvable(s.r)
    requires Pow(w, s.block * s.r) == One && Pow(w, s.block) != One
    requires |s.omegaRPow| == 8 && IsPowerTable(s.omegaRPow, Pow(w, s.block), s.r)
    requires |s.twiddle| == s.block && IsPowerTable(s.twiddle, w, s.block)
    requires s.r == 5 ==> s.winograd == Winograd5(s.omegaRPow, Half())
    requires s.r == 7 ==> IsWinograd7(s.winograd, s.omegaRPow, Half())
    ensures IsStage(s, w)
  {
    hide Mul, Pow;
  }

  // ---- One butterfly

  /** The size-r transform of a stage, by the kernel of its radix. */
  method Kernel(s: StageData, x: seq<F>, ghost w: F) returns (y: seq<F>)
    requires IsStage(s, w) && |x| == s.r
    ensures y == DftSeq(x, Pow(w, s.block))
  {
    hide Mul, Pow, DftSeq, Winograd5, IsWinograd7, IsPowerTable;
    ghost var root := Pow(w, s.block);
    PowMul(w, s.block, s.r);
    if s.r == 2 {
      y := Radix2(x, root);
    } else if s.r == 3 {
      y := Radix3(x, s.omegaRPow, root);
    } else if s.r == 5 {
      HalfIsHalf();
      y := Radix5(x, s.winograd, s.omegaRPow, Half(), root);
    } else if s.r == 7 {
      HalfIsHalf();
      y := Radix7(x, s.winograd, s.omegaRPow, Half(), root);
    } else {
      y := NaiveKernel(x, s.omegaRPow, root);
    }
  }

  /** Gathered lanes of column j, twisted by the j-th twiddle and transformed. */
  method Butterfly(s: StageData, lanes: seq<F>, j: nat, ghost w: F) returns (y: seq<F>)
    requires IsStage(s, w) && |lanes| == s.r && j < s.block
    ensures y == DftSeq(Twisted(lanes, Pow(w, j)), Pow(w, s.block))
  {
    hide Mul, Pow, DftSeq, Twisted;
    var x := lanes;
    if j > 0 {
      x := Twiddle(s.r, s.twiddle[j], lanes);
    } else {
      PowZero(w);
      TwistedByOne(lanes);
    }
    y := Kernel(s, x, w);
  }
}
