/** Factorisation of the domain size and roots of unity of exact order. */
module Roots {
  import opened Field
  import opened Arith
  import opened Dft
  import opened FftPlan
  import FftKernels

  // ---- Repeated squaring

  method FieldPow(base: F, exp: nat) returns (result: F)
    ensures result == Pow(base, exp)
  {
    hide Mul, Pow;
    result := One;
    var b, e := base, exp;
    MulComm(One, Pow(base, exp));
    MulOne(Pow(base, exp));
    while e > 0
      invariant Mul(result, Pow(b, e)) == Pow(base, exp)
    {
      SquareStep(result, b, e);
      if e % 2 == 1 {
        result := Mul(result, b);
      }
      b := Mul(b, b);
      e := e / 2;
    }
    PowZero(b);
    MulOne(result);
  }

  lemma PowZero(b: F)
    ensures Pow(b, 0) == One && Pow(b, 1) == b
  {
    assert Pow(b, 1) == Mul(b, Pow(b, 0));
    MulOne(b);
  }

  lemma SquareStep(result: F, b: F, e: nat)
    ensures Mul(if e % 2 == 1 then Mul(result, b) else result, Pow(Mul(b, b), e / 2)) == Mul(result, Pow(b, e))
  {
    hide Mul, Pow;
    var h := e / 2;
    PowProduct(b, b, h);
    PowAdd(b, h, h);
    if e % 2 == 1 {
      PowAdd(b, 1, 2 * h);
      PowZero(b);
      MulAssoc(result, b, Pow(b, 2 * h));
    }
  }

  // ---- Divisors and primes

  predicate Divides(d: nat, n: nat) {
    d > 0 && n % d == 0
  }

  predicate Prime(p: nat) {
    p >= 2 && forall d: nat :: 2 <= d < p ==> !Divides(d, p)
  }

  // d is the least divisor of n above one.
  predicate LeastDivisor(n: nat, d: nat) {
    2 <= d <= n && Divides(d, n) && NoneBelow(n, d)
  }

  predicate NoneBelow(n: nat, limit: nat) {
    forall d: nat :: 2 <= d < limit ==> !Divides(d, n)
  }

  lemma Multiple(d: nat, k: nat)
    requires d > 0
    ensures Divides(d, k * d) && k * d / d == k
  {
    DivModUnique(k * d, d, k, 0);
  }

  lemma Quotient(d: nat, n: nat)
    requires Divides(d, n)
    ensures n == (n / d) * d
  {
    DivMod(n, d);
  }

  lemma DividesTransitive(a: nat, b: nat, c: nat)
    requires Divides(a, b) && Divides(b, c)
    ensures Divides(a, c)
  {
    Quotient(a, b);
    Quotient(b, c);
    assert c == (c / b) * (b / a) * a;
    Multiple(a, (c / b) * (b / a));
  }

  lemma DivisorBound(d: nat, n: nat)
    requires Divides(d, n) && n > 0
    ensures d <= n
  {
    Quotient(d, n);
    if n / d >= 1 { MulMonotone(1, n / d, d); }
  }

  /** The least divisor above one is prime. */
  lemma LeastDivisorIsPrime(n: nat, p: nat)
    requires LeastDivisor(n, p)
    ensures Prime(p)
  {
    forall d: nat | 2 <= d < p
      ensures !Divides(d, p)
    {
      if Divides(d, p) { DividesTransitive(d, p, n); }
    }
  }

  // A number without divisors up to its square root is its own least divisor.
  lemma NoSmallDivisor(n: nat, i: nat)
    requires n >= 2 && i * i > n && NoneBelow(n, i)
    ensures LeastDivisor(n, n)
  {
    forall d: nat | 2 <= d < n
      ensures !Divides(d, n)
    {
      if Divides(d, n) {
        Quotient(d, n);
        var e := n / d;
        assert e >= 2 by { if e <= 1 { MulMonotone(e, 1, d); } }
        assert n == d * e;
        Multiple(e, d);
        assert d >= i && e >= i;
        MulMonotone(i, d, e);
        MulMonotone(i, e, i);
      }
    }
    Multiple(n, 1);
  }

  const SmallPrimes: seq<nat> := [2, 3, 5, 7, 11, 13, 17, 19, 23, 29, 31]

  // Every number from 2 to 36 has a divisor in the list.
  function SmallWitness(d: nat): (p: nat)
    requires 2 <= d < 37
    ensures p in SmallPrimes && Divides(p, d)
  {
    if d % 2 == 0 then 2 else if d % 3 == 0 then 3 else if d % 5 == 0 then 5 else if d % 7 == 0 then 7 else d
  }

  method SmallestPrimeFactor(n: nat) returns (p: nat)
    ensures n <= 1 ==> p == n
    ensures n >= 2 ==> LeastDivisor(n, p)
  {
    if n <= 1 {
      return n;
    }
    var k := 0;
    while k < |SmallPrimes|
      invariant 0 <= k <= |SmallPrimes|
      invariant forall j :: 0 <= j < k ==> !Divides(SmallPrimes[j], n)
    {
      if n % SmallPrimes[k] == 0 {
        ListedIsLeast(n, k);
        return SmallPrimes[k];
      }
      k := k + 1;
    }
    NothingListed(n);
    hide NoneBelow, Divides;
    var i := 37;
    while i * i <= n
      invariant i >= 37 && i % 2 == 1 && NoneBelow(n, i) && !Divides(2, n)
      decreases n + 2 - i
    {
      MulMonotone(1, i, i);
      if n % i == 0 {
        FirstFound(n, i);
        return i;
      }
      NextOdd(n, i);
      i := i + 2;
    }
    NoSmallDivisor(n, i);
    return n;
  }

  lemma FirstFound(n: nat, i: nat)
    requires 2 <= i <= n && n % i == 0 && NoneBelow(n, i)
    ensures LeastDivisor(n, i)
  {}

  lemma NextOdd(n: nat, i: nat)
    requires i >= 2 && i % 2 == 1 && n % i != 0 && NoneBelow(n, i) && !Divides(2, n)
    ensures NoneBelow(n, i + 2)
  {
    EvenDivides(n, i + 1);
  }

  lemma EvenDivides(n: nat, d: nat)
    requires d > 0 && d % 2 == 0 && !Divides(2, n)
    ensures !Divides(d, n)
  {
    if Divides(d, n) { DividesTransitive(2, d, n); }
  }

  lemma NothingListed(n: nat)
    requires n >= 2 && forall j :: 0 <= j < |SmallPrimes| ==> !Divides(SmallPrimes[j], n)
    ensures NoneBelow(n, 37) && !Divides(2, n)
  {
    assert SmallPrimes[0] == 2;
    forall d: nat | 2 <= d < 37
      ensures !Divides(d, n)
    {
      if Divides(d, n) { DividesTransitive(SmallWitness(d), d, n); }
    }
  }

  lemma BelowIsEarlier(s: nat, k: nat)
    requires k < |SmallPrimes| && s in SmallPrimes && s < SmallPrimes[k]
    ensures exists j :: 0 <= j < k && SmallPrimes[j] == s
  {
    var j :| 0 <= j < |SmallPrimes| && SmallPrimes[j] == s;
    assert j < k;
  }

  lemma ListedIsLeast(n: nat, k: nat)
    requires n >= 2 && k < |SmallPrimes| && Divides(SmallPrimes[k], n)
    requires forall j :: 0 <= j < k ==> !Divides(SmallPrimes[j], n)
    ensures LeastDivisor(n, SmallPrimes[k])
  {
    var p := SmallPrimes[k];
    DivisorBound(p, n);
    forall d: nat | 2 <= d < p
      ensures !Divides(d, n)
    {
      if Divides(d, n) {
        var s := SmallWitness(d);
        DividesTransitive(s, d, n);
        DivisorBound(s, d);
        BelowIsEarlier(s, k);
      }
    }
  }

  // ---- Factorisation

  ghost predicate AllPrime(factors: seq<nat>) {
    forall i :: 0 <= i < |factors| ==> Prime(factors[i])
  }

  ghost predicate NonDecreasing(factors: seq<nat>) {
    forall i, j :: 0 <= i < j < |factors| ==> factors[i] <= factors[j]
  }

  /** The primes of n with multiplicity, in non-decreasing order. */
  method Factorize(n: nat) returns (factors: seq<nat>)
    ensures AllPrime(factors) && NonDecreasing(factors) && Radices(factors)
    ensures n >= 1 ==> Prod(factors) == n
  {
    hide Prod;
    factors := [];
    var rest := n;
    EmptyPlan();
    while rest > 1
      invariant n >= 1 ==> rest >= 1 && Prod(factors) * rest == n
      invariant AllPrime(factors) && NonDecreasing(factors)
      invariant forall i :: 0 <= i < |factors| ==> NoneBelow(rest, factors[i])
    {
      var p := SmallestPrimeFactor(rest);
      LeastDivisorIsPrime(rest, p);
      Quotient(p, rest);
      NextFactor(factors, rest, p);
      factors := factors + [p];
      rest := rest / p;
    }
    assert Radices(factors);
  }

  lemma NextFactor(factors: seq<nat>, rest: nat, p: nat)
    requires LeastDivisor(rest, p)
    requires forall i :: 0 <= i < |factors| ==> NoneBelow(rest, factors[i])
    ensures Prod(factors + [p]) * (rest / p) == Prod(factors) * rest
    ensures 1 <= rest / p < rest
    ensures forall i :: 0 <= i < |factors| ==> factors[i] <= p
    ensures forall i :: 0 <= i <= |factors| ==> NoneBelow(rest / p, (factors + [p])[i])
  {
    var q, longer := rest / p, factors + [p];
    ProperQuotient(p, rest);
    assert longer[..|longer| - 1] == factors;
    Reassociate(Prod(factors), p, q);
    forall i | 0 <= i <= |factors| ensures NoneBelow(q, longer[i]) {
      NoneBelowQuotient(rest, q, p, longer[i]);
    }
  }

  lemma ProperQuotient(p: nat, n: nat)
    requires Divides(p, n) && p >= 2 && n >= 1
    ensures 1 <= n / p < n && n == (n / p) * p
  {
    Quotient(p, n);
    MulMonotone(2, p, n / p);
  }

  lemma NoneBelowQuotient(n: nat, q: nat, p: nat, limit: nat)
    requires n == q * p && q > 0 && NoneBelow(n, limit)
    ensures NoneBelow(q, limit)
  {
    Multiple(q, p);
    forall d: nat | 2 <= d < limit ensures !Divides(d, q) {
      if Divides(d, q) { DividesTransitive(d, q, n); }
    }
  }

  lemma Reassociate(a: nat, p: nat, q: nat)
    ensures a * p * q == a * (q * p)
  {}

  // ---- Unique factorisation

  /** Euclid's lemma: a prime that divides a * m and not a divides m. */
  lemma {:induction false} Euclid(q: nat, a: nat, m: nat)
    requires Prime(q) && Divides(q, a * m) && !Divides(q, a)
    ensures Divides(q, m)
    decreases a
  {
    if a >= q {
      DivMod(a, q);
      RemainderDivides(q, a, a / q, a % q, m);
      Euclid(q, a % q, m);
    } else if a > 1 {
      DivMod(q, a);
      assert !Divides(a, q);
      CoRemainderDivides(q, a, q / a, q % a, m);
      Euclid(q, q % a, m);
    }
  }

  lemma RemainderDivides(q: nat, a: nat, t: nat, s: nat, m: nat)
    requires q > 0 && a == t * q + s && 0 < s < q && Divides(q, a * m)
    ensures Divides(q, s * m) && !Divides(q, s)
  {
    DivSmall(s, q);
    var u := a * m / q;
    Quotient(q, a * m);
    assert s * m == a * m - t * q * m == (u - t * m) * q by { Distribute(a, t, q, s, m); }
    DivModUnique(s * m, q, u - t * m, 0);
  }

  lemma Distribute(a: nat, t: nat, q: nat, s: nat, m: nat)
    requires a == t * q + s
    ensures a * m == t * m * q + s * m && a * m == t * q * m + s * m
  {}

  lemma CoRemainderDivides(q: nat, a: nat, t: nat, s: nat, m: nat)
    requires q > 0 && q == t * a + s && 0 < s < a < q && Divides(q, a * m)
    ensures Divides(q, s * m) && !Divides(q, s)
  {
    DivSmall(s, q);
    var u := a * m / q;
    Quotient(q, a * m);
    assert s * m == q * m - t * (a * m) by { Distribute(q, t, a, s, m); }
    assert s * m == (m - t * u) * q;
    DivModUnique(s * m, q, m - t * u, 0);
  }

  /** A prime divides a product of primes exactly when it is one of them. */
  lemma {:induction false} PrimeDivisors(factors: seq<nat>, q: nat)
    requires AllPrime(factors) && Prime(q)
    ensures Divides(q, Prod(factors)) <==> q in factors
  {
    if |factors| == 0 {
      DivSmall(1, q);
    } else {
      hide Divides, Prime;
      var init, r := factors[..|factors| - 1], factors[|factors| - 1];
      assert factors == init + [r];
      PrimeDivisors(init, q);
      var m := Prod(init);
      ProdPositive(init);
      Multiple(r, m);
      if q == r {
      } else {
        OtherPrime(q, r, m);
      }
    }
  }

  lemma OtherPrime(q: nat, r: nat, m: nat)
    requires Prime(q) && Prime(r) && q != r && m >= 1
    ensures Divides(q, m * r) <==> Divides(q, m)
  {
    hide Divides;
    assert m * r == r * m;
    if Divides(q, m) {
      Multiple(m, r);
      DividesTransitive(q, m, r * m);
    } else if Divides(q, m * r) {
      PrimesDiffer(q, r);
      Euclid(q, r, m);
    }
  }

  lemma PrimesDiffer(q: nat, r: nat)
    requires Prime(q) && Prime(r) && q != r
    ensures !Divides(q, r)
  {
    if Divides(q, r) { DivisorBound(q, r); }
  }

  // ---- Exact order

  // Some least positive exponent with w^o = 1 exists at or below n.
  lemma {:induction false} LeastExponent(w: F, n: nat, limit: nat) returns (o: nat)
    requires n > 0 && Pow(w, n) == One && 1 <= limit <= n
    requires forall d: nat :: 0 < d < limit ==> Pow(w, d) != One
    ensures limit <= o <= n && PrimitiveRoot(w, o)
    decreases n - limit
  {
    if Pow(w, limit) == One {
      o := limit;
    } else {
      o := LeastExponent(w, n, limit + 1);
    }
  }

  /** The order divides every exponent that gives one. */
  lemma OrderDivides(w: F, o: nat, n: nat)
    requires PrimitiveRoot(w, o) && Pow(w, n) == One
    ensures Divides(o, n)
  {
    hide Mul, Pow;
    DivMod(n, o);
    FftKernels.PowReduced(w, o, n);
  }

  lemma PowOfMultiple(w: F, o: nat, n: nat)
    requires Divides(o, n) && Pow(w, o) == One
    ensures Pow(w, n) == One
  {
    hide Mul, Pow;
    Quotient(o, n);
    assert n == o * (n / o);
    PowMul(w, o, n / o);
    PowOne(n / o);
  }

  // The least divisor above one, as a ghost search.
  lemma {:induction false} SomePrimeDivisor(m: nat, from: nat) returns (q: nat)
    requires 2 <= from <= m && NoneBelow(m, from)
    ensures LeastDivisor(m, q) && Prime(q)
    decreases m - from
  {
    if Divides(from, m) {
      q := from;
      LeastDivisorIsPrime(m, q);
    } else {
      if from == m { Multiple(m, 1); }
      q := SomePrimeDivisor(m, from + 1);
    }
  }

  // A proper divisor of the exponent misses a prime: it still divides n / q.
  lemma MissedPrime(o: nat, n: nat) returns (q: nat)
    requires Divides(o, n) && 0 < o < n
    ensures Prime(q) && Divides(q, n) && Divides(o, n / q)
  {
    Quotient(o, n);
    var m := n / o;
    assert m >= 2 by { if m <= 1 { MulMonotone(m, 1, o); } }
    q := SomePrimeDivisor(m, 2);
    Quotient(q, m);
    var k := m / q;
    assert n == k * q * o == k * o * q;
    Multiple(q, k * o);
    Multiple(o, k);
  }

  /** The order of w is n exactly when w^n = 1 and no w^(n/q) is one, for the primes q of n. */
  lemma ExactOrder(w: F, n: nat, primes: seq<nat>)
    requires n > 0
    requires forall q: nat :: q in primes <==> Prime(q) && Divides(q, n)
    ensures PrimitiveRoot(w, n) <==>
            Pow(w, n) == One && forall q :: q in primes ==> q > 0 && Pow(w, n / q) != One
  {
    hide Mul, Pow;
    if PrimitiveRoot(w, n) {
      forall q | q in primes ensures q > 0 && Pow(w, n / q) != One {
        ProperQuotient(q, n);
      }
    } else if Pow(w, n) == One {
      var o := LeastExponent(w, n, 1);
      OrderDivides(w, o, n);
      var q := MissedPrime(o, n);
      PowOfMultiple(w, o, n / q);
      assert q in primes;
    }
  }

  method DistinctPrimeFactors(n: nat) returns (primes: seq<nat>)
    requires n > 0
    ensures forall q: nat :: q in primes <==> Prime(q) && Divides(q, n)
    ensures forall i, j :: 0 <= i < j < |primes| ==> primes[i] < primes[j]
  {
    hide Prod;
    var factors := Factorize(n);
    // The factors are already in order, so sorting them changes nothing.
    primes := [];
    var i := 0;
    while i < |factors|
      invariant 0 <= i <= |factors|
      invariant forall q :: q in primes <==> q in factors[..i]
      invariant forall j, k :: 0 <= j < k < |primes| ==> primes[j] < primes[k]
      invariant |primes| > 0 <==> i > 0
      invariant i > 0 ==> primes[|primes| - 1] == factors[i - 1]
    {
      assert factors[..i + 1] == factors[..i] + [factors[i]];
      if |primes| == 0 || primes[|primes| - 1] != factors[i] {
        primes := primes + [factors[i]];
      }
      i := i + 1;
    }
    assert factors[..i] == factors;
    forall q: nat
      ensures q in primes <==> Prime(q) && Divides(q, n)
    {
      if Prime(q) { PrimeDivisors(factors, q); }
    }
  }

  method IsPrimitiveNthRoot(omega: F, n: nat, primes: seq<nat>) returns (primitive: bool)
    requires n > 0
    requires forall q: nat :: q in primes <==> Prime(q) && Divides(q, n)
    ensures primitive <==> PrimitiveRoot(omega, n)
  {
    hide Mul, Pow, PrimitiveRoot;
    ExactOrder(omega, n, primes);
    var top := FieldPow(omega, n);
    if top != One {
      return false;
    }
    for i := 0 to |primes|
      invariant forall j :: 0 <= j < i ==> primes[j] > 0 && Pow(omega, n / primes[j]) != One
    {
      assert Prime(primes[i]);
      var power := FieldPow(omega, n / primes[i]);
      if power == One {
        return false;
      }
    }
    return true;
  }

  /** The root of order n that the stored root of a multiple of n supplies: for n * m = order it
      is the m-th power. There is none when n does not divide the order. */
  method PrimitiveNthRoot(root: F, order: nat, n: nat) returns (omega: Option<F>)
    requires PrimitiveRoot(root, order)
    ensures omega.Some? <==> Divides(n, order)
    ensures omega.Some? ==> PrimitiveRoot(omega.value, n)
    ensures omega.Some? ==> forall m: nat :: n * m == order ==> omega.value == Pow(root, m)
  {
    hide Mul, Pow, PrimitiveRoot;
    if n == 0 || order % n != 0 {
      return None;
    }
    var power := FieldPow(root, order / n);
    RootOfDivisor(root, order, n);
    forall m: nat | n * m == order ensures m == order / n {
      Cofactor(n, m, order);
    }
    return Some(power);
  }

  lemma Cofactor(n: nat, m: nat, order: nat)
    requires n > 0 && n * m == order
    ensures Divides(n, order) && order / n == m
  {
    assert m * n == n * m;
    Multiple(n, m);
  }

  /** Supported roots are nested: the root of size k is the j-th power of the root of size
      n = k * j, whenever both sizes divide the order. */
  lemma RootsNest(root: F, order: nat, k: nat, j: nat, n: nat, m: nat)
    requires n == k * j && n * m == order && k > 0 && n > 0
    ensures Divides(k, order) && Divides(n, order)
    ensures Pow(root, order / k) == Pow(Pow(root, order / n), j)
  {
    hide Pow;
    Cofactor(n, m, order);
    assert k * (j * m) == k * j * m;
    Cofactor(k, j * m, order);
    PowMul(root, m, j);
    assert m * j == j * m;
  }

  lemma RootOfDivisor(root: F, order: nat, n: nat)
    requires PrimitiveRoot(root, order) && Divides(n, order)
    ensures PrimitiveRoot(Pow(root, order / n), n)
  {
    hide Mul, Pow;
    var k := order / n;
    Quotient(n, order);
    PowMul(root, k, n);
    forall d: nat | 0 < d < n ensures Pow(Pow(root, k), d) != One {
      PowMul(root, k, d);
      MulMonotone(d, n - 1, k);
      MulMonotone(1, d, k);
    }
  }

  // ---- The supported subgroup: order 17496 = 2^3 * 3^7

  const SmoothSubgroupOrder: nat := 17496

  /** Every domain the protocol prime supports has only radices 2 and 3. */
  lemma SupportedRadices(n: nat, q: nat)
    requires Divides(n, SmoothSubgroupOrder) && Prime(q) && Divides(q, n)
    ensures q == 2 || q == 3
  {
    var factors := [2, 2, 2, 3, 3, 3, 3, 3, 3, 3];
    SmoothProduct();
    TwoAndThreeArePrime();
    DividesTransitive(q, n, SmoothSubgroupOrder);
    PrimeDivisors(factors, q);
  }

  lemma TwoAndThreeArePrime()
    ensures Prime(2) && Prime(3)
  {}

  lemma SmoothProduct()
    ensures Prod([2, 2, 2, 3, 3, 3, 3, 3, 3, 3]) == SmoothSubgroupOrder
  {
    var f := [2, 2, 2, 3, 3, 3, 3, 3, 3, 3];
    ProdPrefix(f, 0); ProdPrefix(f, 1); ProdPrefix(f, 2); ProdPrefix(f, 3); ProdPrefix(f, 4);
    ProdPrefix(f, 5); ProdPrefix(f, 6); ProdPrefix(f, 7); ProdPrefix(f, 8); ProdPrefix(f, 9);
    assert f[..0] == [] && f[..10] == f;
  }
}
