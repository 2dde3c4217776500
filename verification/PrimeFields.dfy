/** The integers modulo a prime are one of the fields the model ranges over. */
module PrimeFields {
  import opened Field
  import opened Arith
  import opened Roots

  function Mod(x: int, p: nat): (r: int)
    requires p > 0
    ensures 0 <= r < p
  {
    x % p
  }

  ghost predicate InverseOf(p: nat, x: int, y: int)
    requires p > 0
  {
    0 <= y < p && Mod(x * y, p) == 1
  }

  ghost function Invert(p: nat, x: int): (y: int)
    requires p > 0
    ensures 0 <= y < p
    ensures (exists z :: InverseOf(p, x, z)) ==> InverseOf(p, x, y)
  {
    if exists z :: InverseOf(p, x, z) then var y :| InverseOf(p, x, y); y else 0
  }

  function Plus(p: nat, x: int, y: int): (r: int) requires p > 0 { Mod(x + y, p) }
  function Times(p: nat, x: int, y: int): (r: int) requires p > 0 { Mod(x * y, p) }
  function Minus(p: nat, x: int): (r: int) requires p > 0 { Mod(-x, p) }

  ghost function Residues(p: nat): Structure
    requires p > 1
  {
    Structure(
      x => 0 <= x < p,
      0,
      1,
      (x, y) => Plus(p, x, y),
      x => Minus(p, x),
      (x, y) => Times(p, x, y),
      x => Invert(p, x))
  }

  // Two numbers that differ by a multiple of p have the same residue.
  lemma ModShift(p: nat, x: int, k: int)
    requires p > 0
    ensures Mod(x + k * p, p) == Mod(x, p)
  {
    assert x == x / p * p + x % p;
    assert x + k * p == (x / p + k) * p + x % p;
    DivModUnique(x + k * p, p, x / p + k, x % p);
  }

  lemma ModQuotient(p: nat, x: int) returns (k: int)
    requires p > 0
    ensures x == Mod(x, p) + k * p
  {
    k := x / p;
  }

  // Replacing a number by its residue changes nothing modulo p.
  lemma ModAdd(p: nat, x: int, y: int)
    requires p > 0
    ensures Mod(Mod(x, p) + y, p) == Mod(x + y, p)
  {
    hide Mod;
    var k := ModQuotient(p, x);
    ModShift(p, Mod(x, p) + y, k);
  }

  lemma ModMul(p: nat, x: int, y: int)
    requires p > 0
    ensures Mod(Mod(x, p) * y, p) == Mod(x * y, p)
  {
    hide Mod;
    var k := ModQuotient(p, x);
    ShiftedProduct(x, Mod(x, p), k, p, y);
    ModShift(p, Mod(x, p) * y, k * y);
  }

  lemma ShiftedProduct(x: int, r: int, k: int, p: int, y: int)
    requires x == r + k * p
    ensures x * y == r * y + k * y * p
  {}

  lemma ModSmall(p: nat, x: int)
    requires 0 <= x < p
    ensures Mod(x, p) == x
  {
    DivSmall(x, p);
  }

  /** Every nonzero residue has an inverse. */
  lemma {:induction false} InverseExists(p: nat, x: nat) returns (y: int)
    requires Prime(p) && 0 < x < p
    ensures InverseOf(p, x, y)
    decreases x
  {
    hide Mod;
    if x == 1 {
      y := 1;
      ModSmall(p, 1);
    } else {
      DivMod(p, x);
      assert !Divides(x, p);
      var z := InverseExists(p, p % x);
      y := Mod(-(p / x * z), p);
      NegatedInverse(p, x, p / x, p % x, z);
    }
  }

  // p = t x + s and s z = 1 give x (-t z) = 1 modulo p.
  lemma NegatedInverse(p: nat, x: int, t: int, s: int, z: int)
    requires p > 1 && p == t * x + s && Mod(s * z, p) == 1
    ensures Mod(x * Mod(-(t * z), p), p) == 1
  {
    hide Mod;
    ModMul(p, -(t * z), x);
    CrossTerm(p, x, t, s, z);
    ModShift(p, s * z, -z);
    MulCommutes(x, Mod(-(t * z), p));
  }

  lemma CrossTerm(p: int, x: int, t: int, s: int, z: int)
    requires p == t * x + s
    ensures -(t * z) * x == s * z + -z * p
  {
    assert z * p == z * (t * x) + z * s;
    assert z * (t * x) == t * z * x;
  }

  lemma MulCommutes(x: int, y: int)
    ensures x * y == y * x
  {}

  lemma PlusLaws(p: nat, x: int, y: int, z: int)
    requires p > 0
    ensures Plus(p, x, y) == Plus(p, y, x)
    ensures Plus(p, Plus(p, x, y), z) == Plus(p, x, Plus(p, y, z))
  {
    hide Mod;
    ModAdd(p, x + y, z);
    ModAdd(p, y + z, x);
    assert y + z + x == x + y + z;
  }

  lemma TimesLaws(p: nat, x: int, y: int, z: int)
    requires p > 0
    ensures Times(p, x, y) == Times(p, y, x)
    ensures Times(p, Times(p, x, y), z) == Times(p, x, Times(p, y, z))
  {
    hide Mod;
    ModMul(p, x * y, z);
    ModMul(p, y * z, x);
    MulCommutes(x, y);
    MulCommutes(Mod(y * z, p), x);
    assert x * y * z == y * z * x;
  }

  lemma TimesPlus(p: nat, x: int, y: int, z: int)
    requires p > 0
    ensures Times(p, x, Plus(p, y, z)) == Plus(p, Times(p, x, y), Times(p, x, z))
  {
    hide Mod;
    ModMul(p, y + z, x);
    MulCommutes(Mod(y + z, p), x);
    ModAdd(p, x * y, Mod(x * z, p));
    ModAdd(p, x * z, x * y);
    assert (y + z) * x == x * z + x * y;
  }

  lemma UnitLaws(p: nat, x: int)
    requires Prime(p) && 0 <= x < p
    ensures Plus(p, x, 0) == x && Plus(p, x, Minus(p, x)) == 0 && Times(p, x, 1) == x
    ensures x != 0 ==> Times(p, x, Invert(p, x)) == 1
  {
    hide Mod;
    ModSmall(p, x);
    ModSmall(p, 0);
    ModAdd(p, -x, x);
    if x != 0 {
      var y := InverseExists(p, x);
    }
  }

  /** The field laws hold of the residues modulo any prime. */
  lemma IsField(p: nat)
    requires Prime(p)
    ensures Closed(Residues(p)) && Laws(Residues(p))
  {
    assert p > 1;
    hide Mod, Invert, Prime, Times, Plus, Minus;
    forall x: int, y: int {:trigger At2(x, y)}
      ensures Plus(p, x, y) == Plus(p, y, x) && Times(p, x, y) == Times(p, y, x)
      ensures 0 <= Plus(p, x, y) < p && 0 <= Times(p, x, y) < p && 0 <= Minus(p, x) < p
    {
      InRange(p, x, y);
      PlusLaws(p, x, y, x);
      TimesLaws(p, x, y, x);
    }
    forall x: int {:trigger At1(x)} | 0 <= x < p
      ensures Plus(p, x, 0) == x && Plus(p, x, Minus(p, x)) == 0 && Times(p, x, 1) == x
      ensures x != 0 ==> Times(p, x, Invert(p, x)) == 1
    {
      UnitLaws(p, x);
    }
    forall x: int, y: int, z: int {:trigger At3(x, y, z)}
      ensures Plus(p, Plus(p, x, y), z) == Plus(p, x, Plus(p, y, z))
    {
      PlusLaws(p, x, y, z);
    }
    forall x: int, y: int, z: int {:trigger At3(x, y, z)}
      ensures Times(p, Times(p, x, y), z) == Times(p, x, Times(p, y, z))
    {
      TimesLaws(p, x, y, z);
    }
    forall x: int, y: int, z: int {:trigger At3(x, y, z)}
      ensures Plus(p, Times(p, x, y), Times(p, x, z)) == Times(p, x, Plus(p, y, z))
    {
      TimesPlus(p, x, y, z);
    }
  }

  lemma InRange(p: nat, x: int, y: int)
    requires p > 0
    ensures 0 <= Plus(p, x, y) < p && 0 <= Times(p, x, y) < p && 0 <= Minus(p, x) < p
  {}
}
