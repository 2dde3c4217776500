/** Powers of two and the few facts about quotients and remainders the address maps need. */
module Arith {

  function Pow2(k: nat): (p: nat)
    ensures p >= 1
  {
    if k == 0 then 1 else 2 * Pow2(k - 1)
  }

  lemma {:induction false} Pow2Add(a: nat, b: nat)
    ensures Pow2(a + b) == Pow2(a) * Pow2(b)
  {
    if a > 0 { Pow2Add(a - 1, b); }
  }

  lemma Pow2Step(k: nat)
    ensures Pow2(0) == 1 && Pow2(k + 1) == 2 * Pow2(k)
  {}

  lemma {:induction false} Pow2Monotone(a: nat, b: nat)
    requires a <= b
    ensures Pow2(a) <= Pow2(b)
  {
    if a < b { Pow2Monotone(a, b - 1); }
  }

  // b >> k
  function Shr(b: nat, k: nat): nat {
    if k == 0 then b else Shr(b / 2, k - 1)
  }

  // b & (2^k - 1)
  function Low(b: nat, k: nat): nat {
    if k == 0 then 0 else b % 2 + 2 * Low(b / 2, k - 1)
  }

  // h << k
  function Shl(h: nat, k: nat): nat {
    if k == 0 then h else 2 * Shl(h, k - 1)
  }

  lemma {:induction false} ShlIsMul(h: nat, k: nat)
    ensures Shl(h, k) == h * Pow2(k)
  {
    if k > 0 { ShlIsMul(h, k - 1); }
  }

  lemma {:induction false} ShlPlusOne(h: nat, k: nat)
    ensures Shl(h + 1, k) == Shl(h, k) + Pow2(k)
    ensures Shl(2 * h, k) == Shl(h, k + 1)
    ensures Shl(0, k) == 0
  {
    if k > 0 { ShlPlusOne(h, k - 1); }
  }

  lemma {:induction false} ShlAdd(g: nat, h: nat, k: nat)
    ensures Shl(g + h, k) == Shl(g, k) + Shl(h, k)
  {
    if k > 0 { ShlAdd(g, h, k - 1); }
  }

  lemma {:induction false} ShrLow(b: nat, k: nat)
    ensures b == Shl(Shr(b, k), k) + Low(b, k) && Low(b, k) < Pow2(k)
  {
    if k > 0 { ShrLow(b / 2, k - 1); }
  }

  // The pair (b >> k, b & mask) is the only quotient and remainder of b by 2^k.
  lemma {:induction false} ShrLowUnique(b: nat, k: nat, high: nat, low: nat)
    requires b == Shl(high, k) + low && low < Pow2(k)
    ensures Shr(b, k) == high && Low(b, k) == low
  {
    if k > 0 { ShrLowUnique(b / 2, k - 1, high, low / 2); }
  }

  lemma {:induction false} ShrOnce(b: nat, k: nat)
    ensures Shr(b, k + 1) == Shr(b, k) / 2
  {
    if k > 0 { ShrOnce(b / 2, k - 1); }
  }

  lemma {:induction false} LowSmall(b: nat, k: nat)
    requires b < Pow2(k)
    ensures Shr(b, k) == 0 && Low(b, k) == b
  {
    ShlPlusOne(0, k);
    ShrLowUnique(b, k, 0, b);
  }

  lemma MulMonotone(x: int, y: int, m: int)
    requires x <= y && m >= 0
    ensures x * m <= y * m
  {}

  lemma DivModUnique(a: int, m: int, q: int, r: int)
    requires a == q * m + r && 0 <= r < m
    ensures a / m == q && a % m == r
  {
    var q', r' := a / m, a % m;
    assert a == q' * m + r';
    assert (q - q') * m == r' - r;
    if q' < q { MulMonotone(1, q - q', m); }
    if q < q' { MulMonotone(q - q', -1, m); }
    assert q == q';
  }

  // a = (a / m) * m + a % m, the form in which it is used below.
  lemma DivMod(a: nat, m: nat)
    requires m > 0
    ensures a == (a / m) * m + a % m && a / m >= 0 && 0 <= a % m < m
  {}

  lemma ShiftedDivMod(c: nat, m: nat, a: nat)
    requires m > 0
    ensures c * m >= 0
    ensures (c * m + a) / m == c + a / m
    ensures (c * m + a) % m == a % m
  {
    DivMod(a, m);
    assert c * m + a == (c + a / m) * m + a % m;
    DivModUnique(c * m + a, m, c + a / m, a % m);
  }

  lemma DistributeOver(x: int, y: int, m: int)
    ensures (x + y) * m == x * m + y * m
  {}

  lemma MulReorder(q: int, k: int, m: int)
    ensures q * k * m == q * (m * k)
  {}

  // Splitting by m and then by k is splitting by m * k.
  lemma NestedDivMod(a: nat, m: nat, k: nat)
    requires m > 0 && k > 0
    ensures m * k > 0
    ensures a / m / k == a / (m * k)
    ensures a % (m * k) / m == a / m % k
    ensures a % (m * k) % m == a % m
  {
    DivMod(a, m);
    DivMod(a / m, k);
    var q, r, s := a / m / k, a / m % k, a % m;
    MulMonotone(1, k, m);
    DistributeOver(q * k, r, m);
    MulReorder(q, k, m);
    MulMonotone(0, r, m);
    MulMonotone(r, k - 1, m);
    DistributeOver(k - 1, 1, m);
    MulReorder(1, k, m);
    DivModUnique(a, m * k, q, r * m + s);
    DivModUnique(r * m + s, m, r, s);
  }

  lemma DivSmall(a: nat, m: nat)
    requires a < m
    ensures a / m == 0 && a % m == a
  {
    DivModUnique(a, m, 0, a);
  }

  lemma DivBound(a: nat, m: nat, k: nat)
    requires m > 0 && a < m * k
    ensures a / m < k
  {
    DivMod(a, m);
    if a / m >= k { MulMonotone(k, a / m, m); }
  }

  // floor(log2(n)); the number of trailing zeros when n is a power of two.
  function Log2(n: nat): nat {
    if n <= 1 then 0 else 1 + Log2(n / 2)
  }

  predicate IsPow2(n: nat) {
    n > 0 && n == Pow2(Log2(n))
  }

  lemma {:induction false} Log2OfPow2(k: nat)
    ensures Log2(Pow2(k)) == k && IsPow2(Pow2(k))
  {
    if k > 0 { Log2OfPow2(k - 1); }
  }

  lemma IsPow2Exactly(n: nat)
    ensures IsPow2(n) <==> exists k: nat :: n == Pow2(k)
    ensures forall k: nat :: n == Pow2(k) ==> Log2(n) == k
  {
    forall k: nat | n == Pow2(k) ensures IsPow2(n) && Log2(n) == k { Log2OfPow2(k); }
    if IsPow2(n) { assert n == Pow2(Log2(n)); }
  }

  // The least power of two that is at least n.
  function NextPow2(n: nat): (p: nat)
    requires n > 0
    ensures p >= n && IsPow2(p)
  {
    Pow2Exceeds(n);
    Log2OfPow2(CeilLog2(n));
    Pow2(CeilLog2(n))
  }

  function CeilLog2(n: nat): nat {
    if n <= 1 then 0 else 1 + CeilLog2((n + 1) / 2)
  }

  lemma {:induction false} Pow2Exceeds(n: nat)
    ensures n <= Pow2(CeilLog2(n))
    ensures n > 1 ==> Pow2(CeilLog2(n)) < 2 * n
  {
    if n > 1 { Pow2Exceeds((n + 1) / 2); }
  }
}
