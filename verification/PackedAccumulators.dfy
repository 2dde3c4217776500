/**
 Lane accumulators for sums of products modulo the Mersenne prime 2^31 - 1. The word types
 are newtypes, so every addition and product below carries a proof that it does not overflow.
 */
module PackedAccumulators {
  import opened Arith

  newtype U64 = x: int | 0 <= x < 0x1_0000_0000_0000_0000
  newtype U128 = x: int | 0 <= x < 0x1_0000_0000_0000_0000_0000_0000_0000_0000

  const P: U64 := 0x7FFF_FFFF
  const Lanes: nat := 4

  // One folding of the high bits: x & P plus x >> 31.
  function FoldHigh(x: U64): (r: U64)
    ensures r as int % 0x7FFF_FFFF == x as int % 0x7FFF_FFFF
    ensures r as int <= 0x7FFF_FFFF + x as int / 0x8000_0000
  {
    FoldKeepsResidue(x as int);
    x % 0x8000_0000 + x / 0x8000_0000
  }

  // 2^31 is one modulo 2^31 - 1.
  lemma FoldKeepsResidue(x: nat)
    ensures (x % 0x8000_0000 + x / 0x8000_0000) % 0x7FFF_FFFF == x % 0x7FFF_FFFF
  {
    var h, l := x / 0x8000_0000, x % 0x8000_0000;
    assert x == h * 0x7FFF_FFFF + (l + h);
    ShiftedDivMod(h, 0x7FFF_FFFF, l + h);
  }

  /** Reduction of any word to its residue. */
  function Red(x: U64): (r: U64)
    ensures r as int == x as int % 0x7FFF_FFFF
  {
    var x1 := FoldHigh(x);
    var x2 := FoldHigh(x1);
    var x3 := FoldHigh(x2);
    assert x3 as int <= 0x7FFF_FFFF + 1;
    if x3 >= P then x3 - P else x3
  }

  // ---- The sums they compute

  // Sum of the first n products.
  function Dot(a: seq<U64>, b: seq<U64>, n: nat): nat
    requires n <= |a| && n <= |b|
  {
    if n == 0 then 0 else Dot(a, b, n - 1) + Product(a[n - 1], b[n - 1])
  }

  function Product(x: U64, y: U64): nat {
    x as int * y as int
  }

  // Sum of the first j products of lane l.
  function LaneDot(a: seq<U64>, b: seq<U64>, l: nat, j: nat): nat
    requires l < Lanes && Lanes * j <= |a| && Lanes * j <= |b|
  {
    if j == 0 then 0 else
      LaneDot(a, b, l, j - 1) + Product(a[Lanes * (j - 1) + l], b[Lanes * (j - 1) + l])
  }

  lemma {:induction false} LanesCoverDot(a: seq<U64>, b: seq<U64>, t: nat)
    requires Lanes * t <= |a| && Lanes * t <= |b|
    ensures Dot(a, b, Lanes * t) ==
            LaneDot(a, b, 0, t) + LaneDot(a, b, 1, t) + LaneDot(a, b, 2, t) + LaneDot(a, b, 3, t)
  {
    hide Product;
    if t > 0 {
      LanesCoverDot(a, b, t - 1);
      var n := Lanes * (t - 1);
      assert Dot(a, b, n + 1) == Dot(a, b, n) + Product(a[n], b[n]);
      assert Dot(a, b, n + 2) == Dot(a, b, n + 1) + Product(a[n + 1], b[n + 1]);
      assert Dot(a, b, n + 3) == Dot(a, b, n + 2) + Product(a[n + 2], b[n + 2]);
      assert Dot(a, b, n + 4) == Dot(a, b, n + 3) + Product(a[n + 3], b[n + 3]);
    }
  }

  // Operands below the modulus, t products in each lane.
  ghost predicate Operands(a: seq<U64>, b: seq<U64>, t: nat) {
    |a| == |b| == Lanes * t && (forall i :: 0 <= i < |a| ==> a[i] < P) && forall i :: 0 <= i < |b| ==> b[i] < P
  }

  // (2^31 - 2)^2
  const MaxProduct: nat := 0x3FFF_FFFE_0000_0004

  lemma ProductBound(x: U64, y: U64)
    requires x < P && y < P
    ensures Product(x, y) <= MaxProduct
  {
    MulMonotone(x as int, 0x7FFF_FFFE, y as int);
    MulMonotone(y as int, 0x7FFF_FFFE, 0x7FFF_FFFE);
  }

  lemma {:induction false} LaneBound(a: seq<U64>, b: seq<U64>, t: nat, l: nat, j: nat)
    requires Operands(a, b, t) && l < Lanes && j <= t
    ensures LaneDot(a, b, l, j) <= j * MaxProduct
  {
    hide Product;
    if j > 0 {
      LaneBound(a, b, t, l, j - 1);
      ProductBound(a[Lanes * (j - 1) + l], b[Lanes * (j - 1) + l]);
    }
  }

  function Residue(x: nat): nat { x % 0x7FFF_FFFF }

  lemma ResidueAdd(x: nat, y: nat)
    ensures Residue(Residue(x) + Residue(y)) == Residue(x + y)
    ensures Residue(x + Residue(y)) == Residue(x + y)
    ensures Residue(Residue(x)) == Residue(x)
    ensures Residue(x) < 0x7FFF_FFFF
  {
    ResidueShift(x, y);
    ResidueShift(y, Residue(x));
    ResidueShift(y, x);
    ResidueShift(x, 0);
  }

  lemma ResidueShift(x: nat, y: nat)
    ensures Residue(Residue(x) + y) == Residue(x + y)
  {
    ShiftedDivMod(x / 0x7FFF_FFFF, 0x7FFF_FFFF, Residue(x) + y);
  }

  lemma RedIsResidue(x: U64)
    ensures Red(x) as int == Residue(x as int)
  {}

  // ---- The four strategies

  method Eager(a: seq<U64>, b: seq<U64>, t: nat) returns (tot: U64)
    requires Operands(a, b, t)
    ensures tot as int == Residue(Dot(a, b, Lanes * t))
  {
    hide Dot, Red, Residue, Product, LaneDot;
    var acc := [0, 0, 0, 0];
    ResidueAdd(0, 0);
    ResidueZero();
    NoProducts(a, b);
    for j := 0 to t
      invariant |acc| == Lanes && forall l :: 0 <= l < Lanes ==> acc[l] as int == Residue(LaneDot(a, b, l, j))
    {
      for l := 0 to Lanes
        invariant |acc| == Lanes
        invariant forall m :: 0 <= m < l ==> acc[m] as int == Residue(LaneDot(a, b, m, j + 1))
        invariant forall m :: l <= m < Lanes ==> acc[m] as int == Residue(LaneDot(a, b, m, j))
      {
        var x, y := a[Lanes * j + l], b[Lanes * j + l];
        NextProduct(a, b, l, j);
        ResidueAdd(LaneDot(a, b, l, j), Product(x, y));
        ResidueAdd(Product(x, y), 0);
        var product := Multiply(x, y);
        RedIsResidue(product);
        var sum := acc[l] + Red(product);
        RedIsResidue(sum);
        acc := acc[l := Red(sum)];
      }
    }
    tot := Total(ReduceLanes(acc), a, b, t);
  }

  function Multiply(x: U64, y: U64): (r: U64)
    requires x < P && y < P
    ensures r as int == Product(x, y)
  {
    ProductBound(x, y);
    x * y
  }

  lemma ResidueZero()
    ensures Residue(0) == 0
  {}

  function ReduceLanes(acc: seq<U64>): (r: seq<U64>)
    requires |acc| == Lanes
    ensures |r| == Lanes && forall l :: 0 <= l < Lanes ==> r[l] as int == Residue(acc[l] as int)
    ensures forall l, x: nat :: 0 <= l < Lanes && acc[l] as int == Residue(x) ==> r[l] as int == Residue(x)
  {
    hide Red, Residue;
    RedIsResidue(acc[0]); RedIsResidue(acc[1]); RedIsResidue(acc[2]); RedIsResidue(acc[3]);
    ResidueTwice();
    [Red(acc[0]), Red(acc[1]), Red(acc[2]), Red(acc[3])]
  }

  lemma ResidueTwice()
    ensures forall x: nat :: Residue(Residue(x)) == Residue(x)
  {
    forall x: nat ensures Residue(Residue(x)) == Residue(x) { ResidueAdd(x, 0); }
  }

  // The common last loop: add up the reduced lanes.
  method Total(lanes: seq<U64>, a: seq<U64>, b: seq<U64>, t: nat) returns (tot: U64)
    requires Operands(a, b, t) && |lanes| == Lanes
    requires forall l :: 0 <= l < Lanes ==> lanes[l] as int == Residue(LaneDot(a, b, l, t))
    ensures tot as int == Residue(Dot(a, b, Lanes * t))
  {
    hide Dot, Red, Residue, Product, LaneDot;
    tot := 0;
    ResidueZero();
    ghost var sum: nat := 0;
    for l := 0 to Lanes
      invariant sum == (if l > 0 then LaneDot(a, b, 0, t) else 0) + (if l > 1 then LaneDot(a, b, 1, t) else 0) +
                       (if l > 2 then LaneDot(a, b, 2, t) else 0) + (if l > 3 then LaneDot(a, b, 3, t) else 0)
      invariant tot as int == Residue(sum)
    {
      ResidueAdd(sum, LaneDot(a, b, l, t));
      ResidueAdd(LaneDot(a, b, l, t), 0);
      var next := tot + lanes[l];
      RedIsResidue(next);
      tot := Red(next);
      sum := sum + LaneDot(a, b, l, t);
    }
    LanesCoverDot(a, b, t);
  }

  // The products of lane l from round i on.
  function Since(a: seq<U64>, b: seq<U64>, l: nat, i: nat, j: nat): int
    requires l < Lanes && i <= j && Lanes * j <= |a| && Lanes * j <= |b|
  {
    LaneDot(a, b, l, j) - LaneDot(a, b, l, i)
  }

  // Lane l of part holds the products from round i on, cnt of them.
  ghost predicate Holds(part: U64, a: seq<U64>, b: seq<U64>, l: nat, i: nat, j: nat)
    requires l < Lanes && i <= j && Lanes * j <= |a| && Lanes * j <= |b|
  {
    part as int == Since(a, b, l, i, j) && part as int <= (j - i) * 0x3FFF_FFFE_0000_0004
  }

  /** Reduction every k products. Four full-width products fit in a word, and five do not. */
  method Chunked(a: seq<U64>, b: seq<U64>, t: nat, k: nat) returns (tot: U64)
    requires Operands(a, b, t) && 1 <= k <= 4
    ensures tot as int == Residue(Dot(a, b, Lanes * t))
  {
    hide Dot, Red, Residue, Product, LaneDot;
    var acc, part, cnt := [0, 0, 0, 0], [0, 0, 0, 0], 0;
    ResidueZero();
    NoProducts(a, b);
    for j := 0 to t
      invariant 0 <= cnt < k && cnt <= j && |acc| == |part| == Lanes
      invariant forall l :: 0 <= l < Lanes ==> acc[l] as int == Residue(LaneDot(a, b, l, j - cnt))
      invariant forall l :: 0 <= l < Lanes ==> Holds(part[l], a, b, l, j - cnt, j)
    {
      part := AddProducts(part, a, b, t, j, cnt);
      cnt := cnt + 1;
      if cnt == k {
        for l := 0 to Lanes
          invariant |acc| == |part| == Lanes
          invariant forall m :: 0 <= m < l ==> acc[m] as int == Residue(LaneDot(a, b, m, j + 1)) && part[m] == 0
          invariant forall m :: l <= m < Lanes ==> acc[m] as int == Residue(LaneDot(a, b, m, j + 1 - cnt))
          invariant forall m :: l <= m < Lanes ==> part[m] as int == Since(a, b, m, j + 1 - cnt, j + 1)
        {
          var sum := Flush(acc[l], part[l], a, b, l, j + 1 - cnt, j + 1);
          RedIsResidue(sum);
          ResidueTwice();
          acc := acc[l := Red(sum)];
          part := part[l := 0];
        }
        cnt := 0;
      }
    }
    var s0 := Flush(acc[0], part[0], a, b, 0, t - cnt, t);
    var s1 := Flush(acc[1], part[1], a, b, 1, t - cnt, t);
    var s2 := Flush(acc[2], part[2], a, b, 2, t - cnt, t);
    var s3 := Flush(acc[3], part[3], a, b, 3, t - cnt, t);
    tot := Total(ReduceLanes([s0, s1, s2, s3]), a, b, t);
  }

  lemma NoProducts(a: seq<U64>, b: seq<U64>)
    ensures forall l: nat :: l < Lanes ==> LaneDot(a, b, l, 0) == 0
  {}

  lemma NextProduct(a: seq<U64>, b: seq<U64>, l: nat, j: nat)
    requires l < Lanes && Lanes * (j + 1) <= |a| && Lanes * (j + 1) <= |b|
    ensures LaneDot(a, b, l, j + 1) == LaneDot(a, b, l, j) + Product(a[Lanes * j + l], b[Lanes * j + l])
  {}

  method AddProducts(before: seq<U64>, a: seq<U64>, b: seq<U64>, t: nat, j: nat, cnt: nat) returns (part: seq<U64>)
    requires Operands(a, b, t) && j < t && cnt <= j && cnt < 4 && |before| == Lanes
    requires forall l :: 0 <= l < Lanes ==> Holds(before[l], a, b, l, j - cnt, j)
    ensures |part| == Lanes
    ensures forall l :: 0 <= l < Lanes ==> Holds(part[l], a, b, l, j - cnt, j + 1)
  {
    hide Product, LaneDot;
    part := before;
    for l := 0 to Lanes
      invariant |part| == Lanes
      invariant forall m :: 0 <= m < l ==> Holds(part[m], a, b, m, j - cnt, j + 1)
      invariant forall m :: l <= m < Lanes ==> part[m] == before[m]
    {
      var x, y := a[Lanes * j + l], b[Lanes * j + l];
      ProductBound(x, y);
      NextProduct(a, b, l, j);
      part := part[l := part[l] + Multiply(x, y)];
    }
  }

  // acc + red(part), congruent to the lane's sum so far.
  method Flush(acc: U64, part: U64, a: seq<U64>, b: seq<U64>, l: nat, i: nat, j: nat) returns (sum: U64)
    requires l < Lanes && i <= j && Lanes * j <= |a| && Lanes * j <= |b|
    requires acc as int == Residue(LaneDot(a, b, l, i)) && part as int == Since(a, b, l, i, j)
    ensures Residue(sum as int) == Residue(LaneDot(a, b, l, j))
  {
    hide Red, Residue, LaneDot;
    RedIsResidue(part);
    ResidueAdd(LaneDot(a, b, l, i), part as int);
    ResidueAdd(part as int, 0);
    sum := acc + Red(part);
  }

  /** One reduction at the end, right whenever every lane's sum fits in a word. */
  method Deferred(a: seq<U64>, b: seq<U64>, t: nat) returns (tot: U64)
    requires Operands(a, b, t)
    requires forall l: nat :: l < Lanes ==> LaneDot(a, b, l, t) < 0x1_0000_0000_0000_0000
    ensures tot as int == Residue(Dot(a, b, Lanes * t))
  {
    hide Dot, Red, Residue, Product, LaneDot;
    var acc := [0, 0, 0, 0];
    NoProducts(a, b);
    for j := 0 to t
      invariant |acc| == Lanes && forall l :: 0 <= l < Lanes ==> acc[l] as int == LaneDot(a, b, l, j)
    {
      for l := 0 to Lanes
        invariant |acc| == Lanes
        invariant forall m :: 0 <= m < l ==> acc[m] as int == LaneDot(a, b, m, j + 1)
        invariant forall m :: l <= m < Lanes ==> acc[m] as int == LaneDot(a, b, m, j)
      {
        NextProduct(a, b, l, j);
        LaneGrows(a, b, l, j + 1, t);
        acc := acc[l := acc[l] + Multiply(a[Lanes * j + l], b[Lanes * j + l])];
      }
    }
    tot := Total(ReduceLanes(acc), a, b, t);
  }

  lemma {:induction false} LaneGrows(a: seq<U64>, b: seq<U64>, l: nat, i: nat, j: nat)
    requires l < Lanes && i <= j && Lanes * j <= |a| && Lanes * j <= |b|
    ensures LaneDot(a, b, l, i) <= LaneDot(a, b, l, j)
  {
    hide Product;
    if i < j { LaneGrows(a, b, l, i, j - 1); }
  }

  /** Double-width lanes: no reduction is needed for fewer than 2^66 products a lane. */
  method WideLanes(a: seq<U64>, b: seq<U64>, t: nat) returns (tot: U64)
    requires Operands(a, b, t) && t <= 0x4_0000_0000_0000_0000
    ensures tot as int == Residue(Dot(a, b, Lanes * t))
  {
    hide Dot, Red, Product, LaneDot;
    var acc: seq<U128> := [0, 0, 0, 0];
    NoProducts(a, b);
    for j := 0 to t
      invariant |acc| == Lanes && forall l :: 0 <= l < Lanes ==> acc[l] as int == LaneDot(a, b, l, j)
    {
      for l := 0 to Lanes
        invariant |acc| == Lanes
        invariant forall m :: 0 <= m < l ==> acc[m] as int == LaneDot(a, b, m, j + 1)
        invariant forall m :: l <= m < Lanes ==> acc[m] as int == LaneDot(a, b, m, j)
      {
        NextProduct(a, b, l, j);
        LaneBound(a, b, t, l, j + 1);
        acc := acc[l := acc[l] + Multiply(a[Lanes * j + l], b[Lanes * j + l]) as U128];
      }
    }
    var lanes: seq<U64> := [];
    for l := 0 to Lanes
      invariant |lanes| == l && forall m :: 0 <= m < l ==> lanes[m] as int == Residue(LaneDot(a, b, m, t))
    {
      lanes := lanes + [(acc[l] % 0x7FFF_FFFF) as U64];
    }
    tot := Total(lanes, a, b, t);
  }

  // k products of one lane fit in a word, whatever the operands.
  ghost predicate AlwaysFits(k: nat) {
    forall a: seq<U64>, b: seq<U64>, t: nat, l: nat :: Operands(a, b, t) && l < Lanes && k <= t ==>
      LaneDot(a, b, l, k) < 0x1_0000_0000_0000_0000
  }

  /** The chunk bound is exact: k products always fit in a word if and only if k is at most four. */
  lemma ChunkLimit(k: nat)
    ensures AlwaysFits(k) <==> k <= 4
  {
    hide LaneDot;
    if k <= 4 {
      forall a: seq<U64>, b: seq<U64>, t: nat, l: nat | Operands(a, b, t) && l < Lanes && k <= t
        ensures LaneDot(a, b, l, k) < 0x1_0000_0000_0000_0000
      {
        LaneBound(a, b, t, l, k);
      }
    } else {
      var full: seq<U64> := seq(Lanes * k, _ => 0x7FFF_FFFE);
      assert Operands(full, full, k);
      FullLane(full, k, k);
    }
  }

  // The largest operands: every lane grows by MaxProduct a round.
  lemma {:induction false} FullLane(full: seq<U64>, k: nat, j: nat)
    requires |full| == Lanes * k && j <= k && forall i :: 0 <= i < |full| ==> full[i] == 0x7FFF_FFFE
    ensures LaneDot(full, full, 0, j) == j * MaxProduct
  {
    if j > 0 { FullLane(full, k, j - 1); }
  }
}
