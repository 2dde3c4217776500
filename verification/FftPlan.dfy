/** The stage plan of a transform: radices, their products and mixed-radix digit reversal. */
module FftPlan {
  import opened Arith

  predicate Radices(factors: seq<nat>) {
    forall i :: 0 <= i < |factors| ==> factors[i] >= 2
  }

  function Prod(factors: seq<nat>): nat {
    if |factors| == 0 then 1 else Prod(factors[..|factors| - 1]) * factors[|factors| - 1]
  }

  lemma {:induction false} ProdPositive(factors: seq<nat>)
    requires Radices(factors)
    ensures Prod(factors) >= 1
  {
    if |factors| > 0 {
      ProdPositive(factors[..|factors| - 1]);
      MulMonotone(1, Prod(factors[..|factors| - 1]), factors[|factors| - 1]);
    }
  }

  lemma EmptyPlan()
    ensures Prod([]) == 1 && Rev([], 0) == 0
  {}

  lemma ProdPrefix(factors: seq<nat>, i: nat)
    requires i < |factors|
    ensures Prod(factors[..i + 1]) == Prod(factors[..i]) * factors[i]
  {
    assert factors[..i + 1][..i] == factors[..i];
  }

  // The number whose mixed-radix digits are those of a, in reverse order.
  function Rev(factors: seq<nat>, a: nat): nat
    requires Radices(factors)
  {
    if |factors| == 0 then 0 else
      var init, r := factors[..|factors| - 1], factors[|factors| - 1];
      ProdPositive(init);
      DivMod(a, Prod(init));
      var high, digit := Rev(init, a % Prod(init)), a / Prod(init);
      MulMonotone(0, high, r);
      high * r + digit
  }

  // The reversal of a = low + digit * Prod(init) puts the leading digit last.
  lemma RevSnoc(init: seq<nat>, r: nat, low: nat, digit: nat)
    requires Radices(init) && r >= 2 && low < Prod(init)
    ensures Prod(init + [r]) == Prod(init) * r
    ensures Rev(init + [r], low + digit * Prod(init)) == Rev(init, low) * r + digit
  {
    var factors := init + [r];
    assert factors[..|factors| - 1] == init;
    DivModUnique(low + digit * Prod(init), Prod(init), digit, low);
  }

  lemma {:induction false} RevBound(factors: seq<nat>, a: nat)
    requires Radices(factors) && a < Prod(factors)
    ensures Rev(factors, a) < Prod(factors)
  {
    if |factors| > 0 {
      var init, r := factors[..|factors| - 1], factors[|factors| - 1];
      ProdPositive(init);
      DivMod(a, Prod(init));
      RevBound(init, a % Prod(init));
      DivBound(a, Prod(init), r);
      DigitBound(Rev(init, a % Prod(init)), Prod(init), r, a / Prod(init));
    }
  }

  lemma DigitBound(high: nat, m: nat, r: nat, digit: nat)
    requires high < m && digit < r
    ensures high * r + digit < m * r
  {
    MulMonotone(high + 1, m, r);
  }

  /** Digit reversal never sends two indices below Prod(factors) to the same place. */
  lemma {:induction false} RevInjective(factors: seq<nat>, a: nat, b: nat)
    requires Radices(factors) && a < Prod(factors) && b < Prod(factors)
    requires Rev(factors, a) == Rev(factors, b)
    ensures a == b
  {
    if |factors| > 0 {
      var init, r := factors[..|factors| - 1], factors[|factors| - 1];
      var m := Prod(init);
      ProdPositive(init);
      DivMod(a, m);
      DivMod(b, m);
      DivBound(a, m, r);
      DivBound(b, m, r);
      DivModUnique(Rev(factors, a), r, Rev(init, a % m), a / m);
      DivModUnique(Rev(factors, b), r, Rev(init, b % m), b / m);
      RevInjective(init, a % m, b % m);
    }
  }

  // The reversed number, digit by digit.
  method ReverseDigits(factors: seq<nat>, k: nat) returns (rev: nat)
    requires Radices(factors) && k < Prod(factors)
    ensures rev == Rev(factors, k)
  {
    hide Rev, Prod;
    var digits: seq<nat> := [];
    var tmp := k;
    hide Above;
    NothingAbove(factors, k);
    for i := 0 to |factors|
      invariant |digits| == i && tmp == Above(factors, k, i)
      invariant forall j: nat :: j < i ==> digits[j] == Above(factors, k, j) % factors[j]
    {
      NextAbove(factors, k, i);
      digits := digits + [tmp % factors[i]];
      tmp := tmp / factors[i];
    }
    rev := 0;
    hide RevLow;
    for i := 0 to |factors|
      invariant rev == RevLow(factors, k, i)
    {
      RevStep(factors, i, k);
      rev := rev * factors[i] + digits[i];
    }
    WholeRevLow(factors, k);
  }

  // What is left of k above its first i digits.
  function Above(factors: seq<nat>, k: nat, i: nat): nat
    requires Radices(factors) && i <= |factors|
  {
    ProdPositive(factors[..i]);
    DivMod(k, Prod(factors[..i]));
    k / Prod(factors[..i])
  }

  // The reversal of the first i digits of k.
  function RevLow(factors: seq<nat>, k: nat, i: nat): nat
    requires Radices(factors) && i <= |factors|
  {
    ProdPositive(factors[..i]);
    DivMod(k, Prod(factors[..i]));
    Rev(factors[..i], k % Prod(factors[..i]))
  }

  lemma NothingAbove(factors: seq<nat>, k: nat)
    requires Radices(factors)
    ensures Above(factors, k, 0) == k && RevLow(factors, k, 0) == 0
  {
    assert factors[..0] == [];
    EmptyPlan();
    DivModUnique(k, 1, k, 0);
  }

  lemma NextAbove(factors: seq<nat>, k: nat, i: nat)
    requires Radices(factors) && i < |factors|
    ensures Above(factors, k, i + 1) == Above(factors, k, i) / factors[i]
  {
    hide Prod;
    ProdPositive(factors[..i]);
    ProdPrefix(factors, i);
    NestedDivMod(k, Prod(factors[..i]), factors[i]);
  }

  lemma WholeRevLow(factors: seq<nat>, k: nat)
    requires Radices(factors) && k < Prod(factors)
    ensures RevLow(factors, k, |factors|) == Rev(factors, k)
  {
    hide Prod, Rev;
    assert factors[..|factors|] == factors;
    DivSmall(k, Prod(factors));
  }

  lemma RevStep(factors: seq<nat>, i: nat, k: nat)
    requires Radices(factors) && i < |factors|
    ensures RevLow(factors, k, i + 1) == RevLow(factors, k, i) * factors[i] + Above(factors, k, i) % factors[i]
  {
    hide Prod;
    ProdPositive(factors[..i]);
    ProdPrefix(factors, i);
    NestedDivMod(k, Prod(factors[..i]), factors[i]);
    assert factors[..i + 1][..i] == factors[..i];
  }

  ghost predicate IsReversal(perm: seq<nat>, factors: seq<nat>)
    requires Radices(factors)
  {
    |perm| == Prod(factors) && forall a: nat :: a < |perm| ==> perm[a] == Rev(factors, a)
  }

  method DigitReversal(n: nat, factors: seq<nat>) returns (perm: seq<nat>)
    requires Radices(factors) && n == Prod(factors)
    ensures IsReversal(perm, factors)
  {
    hide Rev, Prod;
    perm := [];
    for k := 0 to n
      invariant |perm| == k && forall a: nat :: a < k ==> perm[a] == Rev(factors, a)
    {
      var rev := ReverseDigits(factors, k);
      perm := perm + [rev];
    }
  }

  /** Digit reversal is a permutation of the indices. */
  lemma ReversalIsPermutation(perm: seq<nat>, factors: seq<nat>, a: nat, b: nat)
    requires Radices(factors) && IsReversal(perm, factors) && a < |perm| && b < |perm|
    ensures perm[a] < |perm|
    ensures perm[a] == perm[b] <==> a == b
  {
    RevBound(factors, a);
    if perm[a] == perm[b] { RevInjective(factors, a, b); }
  }
}
