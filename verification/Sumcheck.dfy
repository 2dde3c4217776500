/**
 Sumcheck over whole runs: round polynomials built from the split equality object telescope
 the claim, and the compressed form is enough to follow it.
 */
module Sumcheck {
  import opened Field
  import opened Arith
  import opened Sums
  import opened EqPolynomial
  import opened EqTables
  import opened Multilinear
  import opened UniPoly
  import opened SplitEq
  import Interpolation

  // ---- The claims, for an arbitrary function g of n variables

  ghost function InnerTerms(rest: seq<F>, rs: seq<F>, g: seq<F> -> F): nat -> F {
    (i: nat) => Mul(Eq(rest, i), g(rs + Bits(|rest|, i)))
  }

  // Sum over the hypercube of the remaining variables of eq(rest, .) * g(rs, .).
  ghost function Inner(rest: seq<F>, rs: seq<F>, g: seq<F> -> F): F {
    Sum(Pow2(|rest|), InnerTerms(rest, rs, g))
  }

  // The running claim c * eq(tau_bound, rs) * Inner.
  ghost function Claim(tau: seq<F>, c: F, rs: seq<F>, g: seq<F> -> F): F
    requires |rs| <= |tau|
  {
    Mul(Mul(c, EqPoint(tau[..|rs|], rs)), Inner(tau[|rs|..], rs, g))
  }

  lemma InnerOfPair(t: F, rest: seq<F>, rs: seq<F>, g: seq<F> -> F)
    ensures Inner([t] + rest, rs, g) ==
      Add(Mul(Sub(One, t), Inner(rest, rs + [Zero], g)), Mul(t, Inner(rest, rs + [One], g)))
  {
    hide Add, Mul, Neg, Eq, Sum, Bits;
    var n := Pow2(|rest|);
    var whole, zero, one := InnerTerms([t] + rest, rs, g), InnerTerms(rest, rs + [Zero], g), InnerTerms(rest, rs + [One], g);
    var left := (j: nat) => Mul(Sub(One, t), zero(j));
    var right := (j: nat) => Mul(t, one(j));
    var pair := (j: nat) => Add(left(j), right(j));
    forall j: nat
      ensures whole(2 * j) == left(j) && whole(2 * j + 1) == right(j)
    {
      Cons(t, rest, 2 * j);
      Cons(t, rest, 2 * j + 1);
      NextBits(rs, |rest|, j);
      MulAssoc(Sub(One, t), Eq(rest, j), g(rs + [Zero] + Bits(|rest|, j)));
      MulAssoc(t, Eq(rest, j), g(rs + [One] + Bits(|rest|, j)));
    }
    Pairs(n, whole, pair);
    Plus(n, left, right, pair);
    Scale(n, Sub(One, t), zero, left);
    Scale(n, t, one, right);
  }

  lemma NextBits(rs: seq<F>, n: nat, j: nat)
    ensures rs + Bits(n + 1, 2 * j) == rs + [Zero] + Bits(n, j)
    ensures rs + Bits(n + 1, 2 * j + 1) == rs + [One] + Bits(n, j)
  {
    assert Bits(n + 1, 2 * j) == [Zero] + Bits(n, j) && Bits(n + 1, 2 * j + 1) == [One] + Bits(n, j);
    Regroup(rs, Zero, Bits(n, j));
    Regroup(rs, One, Bits(n, j));
  }

  lemma Regroup(a: seq<F>, x: F, b: seq<F>)
    ensures a + ([x] + b) == a + [x] + b
  {}

  lemma InnerOfNone(rs: seq<F>, g: seq<F> -> F)
    ensures Inner([], rs, g) == g(rs)
  {
    hide Add, Mul, Neg, Eq;
    Empty(0);
    var f := InnerTerms([], rs, g);
    assert rs + Bits(0, 0) == rs;
    assert Sum(1, f) == Add(Zero, f(0));
    MulComm(One, g(rs));
    MulOne(g(rs));
    ZeroPlus(g(rs));
  }

  // s(x) = l(x) * Inner(rest, (rs, x)) at round |rs|.
  ghost predicate HonestRound(s: seq<F>, tau: seq<F>, c: F, rs: seq<F>, g: seq<F> -> F)
    requires |rs| < |tau|
  {
    var k := |rs|;
    forall x: F :: Value(s, x) == Mul(Mul(Mul(c, EqPoint(tau[..k], rs)), Agree(tau[k], x)), Inner(tau[k + 1..], rs + [x], g))
  }

  /** One round: the hint of an honest round polynomial is the current claim, and its value at
      the challenge is the next claim. */
  lemma RoundKeepsClaim(s: seq<F>, tau: seq<F>, c: F, rs: seq<F>, r: F, g: seq<F> -> F)
    requires |rs| < |tau| && HonestRound(s, tau, c, rs, g)
    ensures Hint(s) == Claim(tau, c, rs, g)
    ensures Value(s, r) == Claim(tau, c, rs + [r], g)
  {
    hide Add, Mul, Neg, Value, Inner, EqPoint, Agree;
    var k := |rs|;
    var scalar, t, rest := Mul(c, EqPoint(tau[..k], rs)), tau[k], tau[k + 1..];
    assert tau[k..] == [t] + rest;
    InnerOfPair(t, rest, rs, g);
    AgreeOnBits(t);
    HintOfProduct(scalar, t, Inner(rest, rs + [Zero], g), Inner(rest, rs + [One], g));
    BoundFactor(tau, c, rs, r);
  }

  lemma HintOfProduct(scalar: F, t: F, zero: F, one: F)
    ensures Add(Mul(Mul(scalar, Sub(One, t)), zero), Mul(Mul(scalar, t), one)) ==
      Mul(scalar, Add(Mul(Sub(One, t), zero), Mul(t, one)))
  {
    MulAssoc(scalar, Sub(One, t), zero);
    MulAssoc(scalar, t, one);
    Distributes(scalar, Mul(Sub(One, t), zero), Mul(t, one));
  }

  // The verifier's claim after k rounds, computed from the compressed polynomials alone.
  function Followed(start: F, compressed: seq<seq<F>>, rs: seq<F>): F
    requires |compressed| == |rs|
  {
    if |rs| == 0 then start
    else
      var k := |rs| - 1;
      Value(Decompress(compressed[k], Followed(start, compressed[..k], rs[..k])), rs[k])
  }

  /** Whole runs: starting from the true sum, the claim followed from the compressed round
      polynomials is the true claim after every round, and after the last one it is
      c * eq(tau, r) * g(r). */
  lemma {:induction false} FollowedClaim(tau: seq<F>, c: F, rs: seq<F>, rounds: seq<seq<F>>, g: seq<F> -> F)
    requires |rs| == |rounds| <= |tau|
    requires forall k: nat :: k < |rounds| ==> HonestRound(rounds[k], tau, c, rs[..k], g)
    ensures Followed(Claim(tau, c, [], g), CompressAll(rounds), rs) == Claim(tau, c, rs, g)
    ensures |rs| == |tau| ==> Claim(tau, c, rs, g) == Mul(Mul(c, EqPoint(tau, rs)), g(rs))
  {
    hide Add, Mul, Neg, Value, Inner, EqPoint, Agree, HonestRound, Followed, CompressAll, Compress, Decompress, Hint, Claim;
    if |rs| == |tau| {
      LastClaim(tau, c, rs, g);
    }
    if |rs| == 0 {
      assert rs == [] && rounds == [];
      FollowNothing(Claim(tau, c, [], g));
    } else {
      var k := |rs| - 1;
      var s, init := rounds[k], rs[..k];
      forall i: nat | i < k
        ensures HonestRound(rounds[..k][i], tau, c, init[..i], g)
      {
        assert init[..i] == rs[..i];
      }
      FollowedClaim(tau, c, init, rounds[..k], g);
      FollowedStep(Claim(tau, c, [], g), rounds[..k], s, rs, k);
      assert rounds[..k] + [s] == rounds && rs[..k + 1] == rs;
      RoundKeepsClaim(s, tau, c, init, rs[k], g);
      CompressRoundTrip(s, rs[k]);
      assert init + [rs[k]] == rs;
    }
  }

  function CompressAll(rounds: seq<seq<F>>): (c: seq<seq<F>>)
    ensures |c| == |rounds|
  {
    seq(|rounds|, (i: nat) requires i < |rounds| => Compress(rounds[i]))
  }

  // ---- One table folded in step

  /** The extension at a point whose last coordinates are bits is an entry of the folded table. */
  lemma FoldedEntry(f: seq<F>, p: seq<F>, n: nat, j: nat)
    requires j < Pow2(n)
    ensures Extension(f, p + Bits(n, j)) == At(FoldAll(f, p), j)
  {
    hide Extension, FoldAll, At;
    ExtensionOfFolded(f, p, Bits(n, j));
    ExtensionAtBits(FoldAll(f, p), n, j);
  }

  lemma {:induction false} ExtensionOfFolded(f: seq<F>, p: seq<F>, b: seq<F>)
    ensures Extension(f, p + b) == Extension(FoldAll(f, p), b)
    decreases |p|
  {
    hide Extension, Fold;
    if |p| == 0 {
      assert p + b == b;
    } else {
      assert (p + b)[1..] == p[1..] + b;
      FoldKeepsExtension(f, p + b);
      ExtensionOfFolded(Fold(f, p[0]), p[1..], b);
    }
  }

  lemma ExtensionAtBits(t: seq<F>, n: nat, j: nat)
    requires j < Pow2(n)
    ensures Extension(t, Bits(n, j)) == At(t, j)
  {
    hide Add, Mul, Neg, Eq, Sum, Bits, At;
    var f := Terms(t, Bits(n, j));
    forall i: nat | i < Pow2(n)
      ensures f(i) == if i == j then At(t, j) else Zero
    {
      Indicator(n, j, i);
      MulOne(At(t, i));
      MulZero(At(t, i));
    }
    Sums.Single(Pow2(n), f, j);
  }

  // q(x) = sum_j eq(rest, j) * (f[2j] + x (f[2j + 1] - f[2j])) as [q0, q1].
  ghost function ConstantTerms(rest: seq<F>, f: seq<F>): nat -> F {
    (j: nat) => Mul(Eq(rest, j), At(f, 2 * j))
  }

  ghost function LinearTerms(rest: seq<F>, f: seq<F>): nat -> F {
    (j: nat) => Mul(Eq(rest, j), Sub(At(f, 2 * j + 1), At(f, 2 * j)))
  }

  /** The inner polynomial from the two remaining tables and the live table. */
  method RoundInner(first: seq<F>, second: seq<F>, ghost m: nat, ghost rest: seq<F>, f: array<F>, len: nat)
    returns (q: seq<F>)
    requires SplitsRest(first, second, m, rest)
    requires len <= f.Length && len == 2 * Pow2(|rest|)
    ensures q == [Sum(Pow2(|rest|), ConstantTerms(rest, f[..len])), Sum(Pow2(|rest|), LinearTerms(rest, f[..len]))]
  {
    hide Add, Mul, Neg, Eq, Low, Shr, At, Sum, Pow2;
    var constant, linear := Zero, Zero;
    var half := len / 2;
    ghost var table := f[..len];
    SumStep(0, ConstantTerms(rest, table));
    SumStep(0, LinearTerms(rest, table));
    var j := 0;
    while j < half
      invariant 0 <= j <= half
      invariant constant == Sum(j, ConstantTerms(rest, table)) && linear == Sum(j, LinearTerms(rest, table))
    {
      var jLow, jHigh := LowHigh(j, |first|, m);
      assert Eq(rest, j) == Mul(first[jLow], second[jHigh]);
      var weight := Mul(first[jLow], second[jHigh]);
      AtEntry(table, 2 * j);
      AtEntry(table, 2 * j + 1);
      SumStep(j, ConstantTerms(rest, table));
      SumStep(j, LinearTerms(rest, table));
      constant := Add(constant, Mul(weight, f[2 * j]));
      linear := Add(linear, Mul(weight, Sub(f[2 * j + 1], f[2 * j])));
      j := j + 1;
    }
    return [constant, linear];
  }

  // j & (len - 1) and j >> log2(len) for a table of length len = 2^m.
  method LowHigh(j: nat, len: nat, ghost m: nat) returns (low: nat, high: nat)
    requires len == Pow2(m)
    ensures low == Low(j, m) && high == Shr(j, m)
  {
    ShrLow(j, m);
    ShlIsMul(Shr(j, m), m);
    DivModUnique(j, len, Shr(j, m), Low(j, m));
    low, high := j % len, j / len;
  }

  lemma RoundInnerIsInner(tau: seq<F>, rs: seq<F>, f: seq<F>, q: seq<F>, x: F)
    requires |rs| < |tau|
    requires var rest, live := tau[|rs| + 1..], FoldAll(f, rs);
      q == [Sum(Pow2(|rest|), ConstantTerms(rest, live)), Sum(Pow2(|rest|), LinearTerms(rest, live))]
    ensures Value(q, x) == Inner(tau[|rs| + 1..], rs + [x], TableFunction(f))
  {
    hide Add, Mul, Neg, Eq, Sum, At, Extension, FoldAll, Value, Bits, Fold;
    var rest, live := tau[|rs| + 1..], FoldAll(f, rs);
    var n := Pow2(|rest|);
    var g := TableFunction(f);
    var constants, lines, terms := ConstantTerms(rest, live), LinearTerms(rest, live), InnerTerms(rest, rs + [x], g);
    var scaled := (j: nat) => Mul(x, lines(j));
    forall j: nat | j < n
      ensures terms(j) == Add(constants(j), scaled(j))
    {
      FoldedEntry(f, rs + [x], |rest|, j);
      FoldAllSnoc(f, rs, x);
      FoldEntry(live, x, j);
      BlendedTerm(Eq(rest, j), At(live, 2 * j), At(live, 2 * j + 1), x);
    }
    Plus(n, constants, scaled, terms);
    Scale(n, x, lines, scaled);
    LinearValue(q[0], q[1], x);
  }

  lemma BlendedTerm(e: F, a: F, b: F, x: F)
    ensures Mul(e, Blend(a, b, x)) == Add(Mul(e, a), Mul(x, Mul(e, Sub(b, a))))
  {
    Distributes(e, a, Mul(x, Sub(b, a)));
    MulExchange(e, x, Sub(b, a));
  }

  lemma LinearValue(a: F, b: F, x: F)
    ensures Value([a, b], x) == Add(a, Mul(x, b))
  {
    assert [a, b][1..] == [b];
    Interpolation.ConstantValue(b, x);
  }

  ghost function TableFunction(f: seq<F>): seq<F> -> F {
    (p: seq<F>) => Extension(f, p)
  }

  ghost function StartTerms(tau: seq<F>, f: seq<F>): nat -> F {
    (i: nat) => Mul(Eq(tau, i), At(f, i))
  }

  /** The opening claim is c times the inner product of the equality table with f. */
  lemma OpeningClaim(tau: seq<F>, c: F, f: seq<F>)
    ensures Claim(tau, c, [], TableFunction(f)) == Mul(c, Sum(Pow2(|tau|), StartTerms(tau, f)))
  {
    hide Add, Mul, Neg, Eq, Sum, At, Extension, Bits;
    assert tau[..0] == [] && tau[0..] == tau;
    MulOne(c);
    var terms := InnerTerms(tau, [], TableFunction(f));
    forall i: nat | i < Pow2(|tau|)
      ensures terms(i) == StartTerms(tau, f)(i)
    {
      FoldedEntry(f, [], |tau|, i);
      assert FoldAll(f, []) == f;
    }
    Congruent(Pow2(|tau|), terms, StartTerms(tau, f));
  }

  /** One prover round and the verifier's step on its compressed message. */
  method Round(split: GruenSplitEq, live: array<F>, len: nat, claim: F, r: F, ghost f: seq<F>)
    returns (s: seq<F>, next: F, nextLen: nat)
    requires split.Valid() && split.currentRound < |split.tau|
    requires len == Pow2(|split.tau| - split.currentRound) <= live.Length && live[..len] == FoldAll(f, split.bound)
    requires claim == Claim(split.tau, split.leading, split.bound, TableFunction(f))
    modifies split, live
    ensures split.Valid() && split.tau == old(split.tau) && split.leading == old(split.leading)
    ensures split.bound == old(split.bound) + [r] && split.currentRound == old(split.currentRound) + 1
    ensures nextLen == Pow2(|split.tau| - split.currentRound) <= live.Length && live[..nextLen] == FoldAll(f, split.bound)
    ensures |s| == 3
    ensures HonestRound(s, split.tau, split.leading, old(split.bound), TableFunction(f)) && Hint(s) == claim
    ensures next == Value(Decompress(Compress(s), claim), r)
    ensures next == Claim(split.tau, split.leading, split.bound, TableFunction(f))
  {
    hide Add, Mul, Neg, Extension, EqPoint, Agree, Claim, HonestRound, Value, FoldAll, Sum, SplitsRest, MatchesFolded,
      FirstHalf, TableFunction, Decompress, Compress, SuffixTables, EqTable, Fold, Hint, ConstantTerms, LinearTerms;
    ghost var k, bound := split.currentRound, split.bound;
    var first, second := split.RemainingEqTables();
    var q := RoundInner(first, second, |FirstHalf(split.tau, k)|, split.tau[k + 1..], live, len);
    s := split.GruenMul(q);
    RoundIsHonest(split.tau, split.leading, bound, f, q, s);
    RoundKeepsClaim(s, split.tau, split.leading, bound, r, TableFunction(f));
    CompressRoundTrip(s, r);
    next := EvalFromHint(Compress(s), claim, r);
    FoldAllSnoc(f, bound, r);
    nextLen := FoldInPlace(live, len, r);
    split.Bind(r);
  }

  /** A full run with one table: the split object, the folded table, the product with the linear
      factor, compression, and evaluation from the hint. Every round polynomial is quadratic and
      equals l * q everywhere, not only where the run evaluates it. */
  method Run(tau: seq<F>, c: F, f: seq<F>, challenges: seq<F>, claim: F)
    returns (rounds: seq<seq<F>>, final: F)
    requires 0 < |tau| == |challenges| && |f| == Pow2(|tau|)
    requires claim == Mul(c, Sum(Pow2(|tau|), StartTerms(tau, f)))
    ensures |rounds| == |tau|
    ensures forall k: nat :: k < |rounds| ==>
      |rounds[k]| == 3 && HonestRound(rounds[k], tau, c, challenges[..k], TableFunction(f))
    ensures forall k: nat :: k < |rounds| ==> Hint(rounds[k]) == Claim(tau, c, challenges[..k], TableFunction(f))
    ensures final == Followed(claim, CompressAll(rounds), challenges)
    ensures final == Mul(Mul(c, EqPoint(tau, challenges)), Extension(f, challenges))
  {
    hide Add, Mul, Neg, Extension, EqPoint, Claim, HonestRound, Value, FoldAll, Sum, Followed, CompressAll, Hint, Decompress,
      Pow2, Compress, SuffixTables, StartTerms;
    ghost var g := TableFunction(f);
    OpeningClaim(tau, c, f);
    var split := new GruenSplitEq(tau, c);
    var live := new F[|f|](i requires 0 <= i < |f| => f[i]);
    var len := |f|;
    rounds, final := [], claim;
    FoldNothing(f);
    FollowNothing(claim);
    assert challenges[..0] == [] && live[..len] == f;
    for k := 0 to |tau|
      invariant split.Valid() && split.tau == tau && split.leading == c && fresh(split) && fresh(live)
      invariant split.currentRound == k && split.bound == challenges[..k]
      invariant len == Pow2(|tau| - k) <= live.Length && live[..len] == FoldAll(f, challenges[..k])
      invariant |rounds| == k
      invariant forall i: nat :: i < k ==> |rounds[i]| == 3 && HonestRound(rounds[i], tau, c, challenges[..i], g)
      invariant forall i: nat :: i < k ==> Hint(rounds[i]) == Claim(tau, c, challenges[..i], g)
      invariant final == Claim(tau, c, challenges[..k], g)
      invariant final == Followed(claim, CompressAll(rounds), challenges[..k])
    {
      assert challenges[..k + 1] == challenges[..k] + [challenges[k]];
      var s;
      s, final, len := Round(split, live, len, final, challenges[k], f);
      FollowedStep(claim, rounds, s, challenges, k);
      rounds := rounds + [s];
    }
    assert challenges[..|tau|] == challenges;
    LastClaim(tau, c, challenges, g);
  }

  lemma FollowNothing(start: F)
    ensures Followed(start, CompressAll([]), []) == start
  {}

  lemma FoldNothing(f: seq<F>)
    ensures FoldAll(f, []) == f
  {}

  lemma LastClaim(tau: seq<F>, c: F, rs: seq<F>, g: seq<F> -> F)
    requires |rs| == |tau|
    ensures Claim(tau, c, rs, g) == Mul(Mul(c, EqPoint(tau, rs)), g(rs))
  {
    assert tau[|rs|..] == [] && tau[..|rs|] == tau;
    InnerOfNone(rs, g);
  }

  lemma RoundIsHonest(tau: seq<F>, c: F, rs: seq<F>, f: seq<F>, q: seq<F>, s: seq<F>)
    requires |rs| < |tau|
    requires var rest, live := tau[|rs| + 1..], FoldAll(f, rs);
      q == [Sum(Pow2(|rest|), ConstantTerms(rest, live)), Sum(Pow2(|rest|), LinearTerms(rest, live))]
    requires forall x: F ::
      Value(s, x) == Mul(Mul(Mul(c, EqPoint(tau[..|rs|], rs)), Agree(tau[|rs|], x)), Value(q, x))
    ensures HonestRound(s, tau, c, rs, TableFunction(f))
  {
    hide Add, Mul, Neg, Extension, EqPoint, Agree, Value, FoldAll, Sum, Inner;
    forall x: F
      ensures Value(q, x) == Inner(tau[|rs| + 1..], rs + [x], TableFunction(f))
    {
      RoundInnerIsInner(tau, rs, f, q, x);
    }
  }

  lemma FollowedStep(start: F, rounds: seq<seq<F>>, s: seq<F>, rs: seq<F>, k: nat)
    requires |rounds| == k < |rs|
    ensures Followed(start, CompressAll(rounds + [s]), rs[..k + 1]) ==
      Value(Decompress(Compress(s), Followed(start, CompressAll(rounds), rs[..k])), rs[k])
  {
    hide Value, Decompress, Compress;
    assert CompressAll(rounds + [s])[..k] == CompressAll(rounds) && CompressAll(rounds + [s])[k] == Compress(s);
    assert rs[..k + 1][..k] == rs[..k];
  }
}
