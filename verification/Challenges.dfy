/** Sparse challenges: validation by bitset, evaluation, and the subring embedding. */
module Challenges {
  import opened Field
  import opened Arith
  import opened Sums

  type U32 = x: int | 0 <= x < 0x1_0000_0000

  // A sparse polynomial: small coefficients at the given powers.
  datatype SparseChallenge = SparseChallenge(positions: seq<U32>, coeffs: seq<int>)

  ghost predicate NoRepeats(positions: seq<U32>) {
    forall i, j :: 0 <= i < j < |positions| ==> positions[i] != positions[j]
  }

  ghost predicate ValidAt(c: SparseChallenge, d: nat) {
    && |c.positions| == |c.coeffs|
    && (forall i :: 0 <= i < |c.positions| ==> c.positions[i] < d)
    && (forall i :: 0 <= i < |c.coeffs| ==> c.coeffs[i] != 0)
    && NoRepeats(c.positions)
  }

  // ---- Words as sets of bits

  // word & (1 << b) != 0
  function Bit(word: nat, b: nat): bool {
    if b == 0 then word % 2 == 1 else Bit(word / 2, b - 1)
  }

  // word | (1 << b)
  function WithBit(word: nat, b: nat): nat {
    if b == 0 then word / 2 * 2 + 1 else 2 * WithBit(word / 2, b - 1) + word % 2
  }

  lemma {:induction false} BitOfWithBit(word: nat, b: nat, c: nat)
    ensures Bit(WithBit(word, b), c) <==> c == b || Bit(word, c)
  {
    if b > 0 && c > 0 { BitOfWithBit(word / 2, b - 1, c - 1); }
  }

  lemma {:induction false} EmptyWord(c: nat)
    ensures !Bit(0, c)
  {
    if c > 0 { EmptyWord(c - 1); }
  }

  // The words hold exactly the positions seen so far.
  ghost predicate Records(seen: seq<nat>, positions: seq<U32>, d: nat) {
    |seen| == (d + 63) / 64 &&
    forall x: U32 :: x < d ==> (Bit(seen[x / 64], x % 64) <==> x in positions)
  }

  lemma RecordsNext(seen: seq<nat>, positions: seq<U32>, d: nat, x: U32)
    requires Records(seen, positions, d) && x < d
    ensures Records(seen[x / 64 := WithBit(seen[x / 64], x % 64)], positions + [x], d)
  {
    var next := seen[x / 64 := WithBit(seen[x / 64], x % 64)];
    forall y: U32 | y < d
      ensures Bit(next[y / 64], y % 64) <==> y in positions + [x]
    {
      if y / 64 == x / 64 {
        BitOfWithBit(seen[x / 64], x % 64, y % 64);
        assert y == x <==> y % 64 == x % 64;
      }
    }
  }

  lemma NothingSeen(seen: seq<nat>, d: nat)
    requires |seen| == (d + 63) / 64 && forall w :: 0 <= w < |seen| ==> seen[w] == 0
    ensures Records(seen, [], d)
  {
    hide Bit;
    forall b: nat ensures !Bit(0, b) { EmptyWord(b); }
  }

  lemma NothingWrong(c: SparseChallenge, d: nat)
    ensures |c.positions| == |c.coeffs| ==> ValidAt(Prefix(c, 0), d)
    ensures |c.positions| != |c.coeffs| ==> !ValidAt(c, d)
  {}

  /** Validation accepts exactly the challenges with matching lengths, positions in range and
      distinct, and nonzero coefficients. */
  method Validate(c: SparseChallenge, d: nat) returns (ok: bool)
    ensures ok <==> ValidAt(c, d)
  {
    hide Bit, WithBit, Records, ValidAt;
    NothingWrong(c, d);
    if |c.positions| != |c.coeffs| {
      return false;
    }
    var seen: array<nat> := new nat[(d + 63) / 64](_ => 0);
    NothingSeen(seen[..], d);
    assert c.positions[..0] == [];
    var i := 0;
    while i < |c.positions|
      invariant 0 <= i <= |c.positions| && fresh(seen)
      invariant Records(seen[..], c.positions[..i], d) && seen.Length == (d + 63) / 64
      invariant ValidAt(Prefix(c, i), d)
    {
      var x := c.positions[i];
      PrefixGrows(c, i, d);
      if x >= d {
        return false;
      }
      if c.coeffs[i] == 0 {
        return false;
      }
      RecordsAt(seen[..], c.positions[..i], d, x);
      if Bit(seen[x / 64], x % 64) {
        return false;
      }
      RecordsNext(seen[..], c.positions[..i], d, x);
      assert c.positions[..i + 1] == c.positions[..i] + [x];
      ghost var before := seen[..];
      seen[x / 64] := WithBit(seen[x / 64], x % 64);
      assert seen[..] == before[x / 64 := WithBit(before[x / 64], x % 64)];
      i := i + 1;
    }
    assert Prefix(c, i) == c;
    return true;
  }

  // The first i terms.
  ghost function Prefix(c: SparseChallenge, i: nat): SparseChallenge
    requires i <= |c.positions| == |c.coeffs|
  {
    SparseChallenge(c.positions[..i], c.coeffs[..i])
  }

  // One more valid term keeps a valid prefix valid, and any other term spoils the challenge.
  lemma PrefixGrows(c: SparseChallenge, i: nat, d: nat)
    requires i < |c.positions| == |c.coeffs| && ValidAt(Prefix(c, i), d)
    ensures ValidAt(Prefix(c, i + 1), d) <==>
      c.positions[i] < d && c.coeffs[i] != 0 && c.positions[i] !in c.positions[..i]
    ensures ValidAt(c, d) ==> ValidAt(Prefix(c, i + 1), d)
  {
    if c.positions[i] !in c.positions[..i] {
      forall j | 0 <= j < i ensures c.positions[j] != c.positions[i] {
        assert c.positions[j] == c.positions[..i][j];
      }
    } else {
      var j :| 0 <= j < i && c.positions[..i][j] == c.positions[i];
      assert Prefix(c, i + 1).positions[j] == Prefix(c, i + 1).positions[i];
    }
  }

  lemma RecordsAt(seen: seq<nat>, positions: seq<U32>, d: nat, x: U32)
    requires Records(seen, positions, d) && x < d
    ensures x / 64 < |seen|
    ensures Bit(seen[x / 64], x % 64) <==> x in positions
  {}

  // ---- Evaluation

  // Term i of the value at a table of powers.
  ghost function ValueTerms(c: SparseChallenge, pows: seq<F>): nat -> F {
    (i: nat) => ValueTerm(c, pows, i)
  }

  ghost function ValueTerm(c: SparseChallenge, pows: seq<F>, i: nat): F {
    if i < |c.positions| && i < |c.coeffs| then Mul(FromInt(c.coeffs[i]), At(pows, c.positions[i])) else Zero
  }

  // The polynomial's value: the sum of coefficient times power.
  ghost function ValueAt(c: SparseChallenge, pows: seq<F>): F {
    Sum(|c.positions|, ValueTerms(c, pows))
  }

  function AccumulateSmallSigned(acc: F, value: F, coeff: int): (r: F)
    ensures r == Add(acc, Mul(FromInt(coeff), value))
  {
    SmallMultiples(acc, value);
    MulComm(value, FromInt(coeff));
    if coeff == 1 then Add(acc, value)
    else if coeff == -1 then Sub(acc, value)
    else if coeff == 2 then Add(Add(acc, value), value)
    else if coeff == -2 then Sub(Sub(acc, value), value)
    else Add(acc, Mul(value, FromInt(coeff)))
  }

  lemma SmallMultiples(acc: F, value: F)
    ensures Add(acc, value) == Add(acc, Mul(FromInt(1), value))
    ensures Sub(acc, value) == Add(acc, Mul(FromInt(-1), value))
    ensures Add(Add(acc, value), value) == Add(acc, Mul(FromInt(2), value))
    ensures Sub(Sub(acc, value), value) == Add(acc, Mul(FromInt(-2), value))
  {
    hide Add, Mul, Neg;
    assert FromNat(0) == Zero && FromNat(1) == Add(FromNat(0), One) && FromNat(2) == Add(FromNat(1), One);
    SmallMultiplesOf(acc, value);
  }

  lemma SmallMultiplesOf(acc: F, value: F)
    ensures Mul(Add(Zero, One), value) == value
    ensures Add(Add(acc, value), value) == Add(acc, Mul(Add(Add(Zero, One), One), value))
    ensures Sub(acc, value) == Add(acc, Mul(Neg(Add(Zero, One)), value))
    ensures Sub(Sub(acc, value), value) == Add(acc, Mul(Neg(Add(Add(Zero, One), One)), value))
  {
    hide Add, Mul, Neg;
    Multiples(value);
    AddAssoc(acc, value, value);
    AddAssoc(acc, Neg(value), Neg(value));
    NegAdd(value, value);
  }

  lemma Multiples(value: F)
    ensures Mul(Add(Zero, One), value) == value
    ensures Mul(Add(Add(Zero, One), One), value) == Add(value, value)
    ensures Mul(Neg(Add(Zero, One)), value) == Neg(value)
    ensures Mul(Neg(Add(Add(Zero, One), One)), value) == Neg(Add(value, value))
  {
    hide Add, Mul, Neg;
    AddComm(Zero, One);
    AddZero(One);
    MulComm(One, value);
    MulOne(value);
    Distributes(value, One, One);
    MulComm(Add(One, One), value);
    MulNeg(value, One);
    MulNeg(value, Add(One, One));
    MulComm(Neg(One), value);
    MulComm(Neg(Add(One, One)), value);
  }

  ghost predicate Evaluable(c: SparseChallenge, d: nat) {
    && |c.positions| == |c.coeffs|
    && (forall i :: 0 <= i < |c.positions| ==> c.positions[i] < d)
    && forall i :: 0 <= i < |c.coeffs| ==> c.coeffs[i] != 0
  }

  method EvalAtPows(c: SparseChallenge, pows: seq<F>) returns (value: Option<F>)
    ensures value.Some? <==> Evaluable(c, |pows|)
    ensures value.Some? ==> value.value == ValueAt(c, pows)
  {
    hide Add, Mul, Sum, FromInt, AccumulateSmallSigned;
    if |c.positions| != |c.coeffs| {
      return None;
    }
    var acc := Zero;
    SumStep(0, ValueTerms(c, pows));
    for i := 0 to |c.positions|
      invariant acc == Sum(i, ValueTerms(c, pows))
      invariant forall j :: 0 <= j < i ==> c.positions[j] < |pows| && c.coeffs[j] != 0
    {
      if c.positions[i] >= |pows| {
        return None;
      }
      if c.coeffs[i] == 0 {
        return None;
      }
      AccumulatesTerm(acc, pows[c.positions[i]], c.coeffs[i]);
      SumStep(i, ValueTerms(c, pows));
      acc := AccumulateSmallSigned(acc, pows[c.positions[i]], c.coeffs[i]);
    }
    return Some(acc);
  }

  lemma AccumulatesTerm(acc: F, value: F, coeff: int)
    ensures AccumulateSmallSigned(acc, value, coeff) == Add(acc, Mul(FromInt(coeff), value))
  {}

  // ---- The subring embedding

  // Every position times the stride.
  ghost predicate IsEmbedding(e: SparseChallenge, c: SparseChallenge, stride: nat) {
    && e.coeffs == c.coeffs && |e.positions| == |c.positions|
    && forall i :: 0 <= i < |c.positions| ==> e.positions[i] == c.positions[i] * stride
  }

  // Every embedded position fits in 32 bits.
  ghost predicate Fits(c: SparseChallenge, stride: nat) {
    forall i :: 0 <= i < |c.positions| ==> c.positions[i] * stride < 0x1_0000_0000
  }

  method EmbedOne(c: SparseChallenge, d: nat, stride: nat, ambient: nat) returns (e: Option<SparseChallenge>)
    requires d > 0 && stride > 0 && d * stride == ambient
    ensures e.Some? <==> ValidAt(c, d) && Fits(c, stride)
    ensures e.Some? ==> IsEmbedding(e.value, c, stride)
  {
    var ok := Validate(c, d);
    if !ok {
      return None;
    }
    var positions: seq<U32> := [];
    for i := 0 to |c.positions|
      invariant |positions| == i
      invariant forall j :: 0 <= j < i ==> positions[j] == c.positions[j] * stride
    {
      var position: int := c.positions[i];
      MulMonotone(position + 1, d, stride);
      var embedded := position * stride;
      if embedded >= ambient || embedded >= 0x1_0000_0000 {
        return None;
      }
      positions := positions + [embedded];
    }
    return Some(SparseChallenge(positions, c.coeffs));
  }

  /** Embedding keeps validity: a valid challenge of the subring is valid in the ambient ring. */
  lemma EmbeddingIsValid(c: SparseChallenge, e: SparseChallenge, d: nat, stride: nat)
    requires ValidAt(c, d) && IsEmbedding(e, c, stride) && stride > 0
    ensures ValidAt(e, d * stride)
  {
    hide NoRepeats;
    forall i | 0 <= i < |e.positions| ensures e.positions[i] < d * stride {
      var x: int := c.positions[i];
      MulMonotone(x + 1, d, stride);
    }
    assert NoRepeats(e.positions) by { StrideKeepsDistinct(c.positions, e.positions, stride); }
  }

  lemma StrideKeepsDistinct(before: seq<U32>, after: seq<U32>, stride: nat)
    requires NoRepeats(before) && |after| == |before| && stride > 0
    requires forall i :: 0 <= i < |before| ==> after[i] == before[i] * stride
    ensures NoRepeats(after)
  {
    forall i, j | 0 <= i < j < |after| ensures after[i] != after[j] {
      assert after[i] == before[i] * stride && after[j] == before[j] * stride;
      StrideInjective(before[i], before[j], stride);
    }
  }

  lemma StrideInjective(x: int, y: int, stride: nat)
    requires stride > 0
    ensures x * stride == y * stride <==> x == y
  {
    DivModUnique(x * stride, stride, x, 0);
    DivModUnique(y * stride, stride, y, 0);
  }

  ghost predicate ArePowers(pows: seq<F>, alpha: F) {
    forall i :: 0 <= i < |pows| ==> pows[i] == Pow(alpha, i)
  }

  /** The embedded challenge at alpha is the source challenge at alpha^stride. */
  lemma EmbeddingValue(c: SparseChallenge, e: SparseChallenge, d: nat, stride: nat, alpha: F, ambient: seq<F>, sub: seq<F>)
    requires ValidAt(c, d) && IsEmbedding(e, c, stride) && stride > 0
    requires |ambient| == d * stride && ArePowers(ambient, alpha)
    requires |sub| == d && ArePowers(sub, Pow(alpha, stride))
    ensures ValueAt(e, ambient) == ValueAt(c, sub)
  {
    hide Add, Mul, Sum, FromInt, Pow;
    EmbeddingIsValid(c, e, d, stride);
    forall i: nat | i < |c.positions|
      ensures ValueTerms(e, ambient)(i) == ValueTerms(c, sub)(i)
    {
      PowMul(alpha, stride, c.positions[i]);
      assert stride * c.positions[i] == c.positions[i] * stride;
    }
    Congruent(|c.positions|, ValueTerms(e, ambient), ValueTerms(c, sub));
  }

  /** Two embeddings in a row are the embedding by the product of the strides. */
  lemma EmbeddingsCompose(c: SparseChallenge, e: SparseChallenge, g: SparseChallenge, s: nat, t: nat)
    requires IsEmbedding(e, c, s) && IsEmbedding(g, e, t)
    ensures s * t >= 0 && IsEmbedding(g, c, s * t)
  {
    forall i | 0 <= i < |c.positions| ensures g.positions[i] == c.positions[i] * (s * t) {
      assert c.positions[i] * s * t == c.positions[i] * (s * t);
    }
  }

  // ---- Batches, claim-major

  datatype Challenges = Challenges(challenges: seq<SparseChallenge>, blocks: nat, claims: nat)

  predicate IsBatch(b: Challenges) {
    |b.challenges| == b.blocks * b.claims
  }

  function FromSparse(challenges: seq<SparseChallenge>, blocks: nat, claims: nat): (r: Option<Challenges>)
    ensures r.Some? <==> |challenges| == blocks * claims
    ensures r.Some? ==> IsBatch(r.value)
  {
    if |challenges| != blocks * claims then None else Some(Challenges(challenges, blocks, claims))
  }

  ghost predicate Embeddable(b: Challenges, d: nat, stride: nat, ambient: nat) {
    && d > 0 && stride > 0 && d * stride == ambient
    && forall i :: 0 <= i < |b.challenges| ==> ValidAt(b.challenges[i], d) && Fits(b.challenges[i], stride)
  }

  /** The embedding of a batch keeps the layout, the order and the coefficients, gives challenges
      valid in the ambient ring, and fails exactly when some challenge cannot be embedded. */
  method EmbedSubringPositions(b: Challenges, d: nat, stride: nat, ambient: nat) returns (r: Option<Challenges>)
    requires IsBatch(b)
    ensures r.Some? <==> Embeddable(b, d, stride, ambient)
    ensures r.Some? ==> IsBatch(r.value) && r.value.blocks == b.blocks && r.value.claims == b.claims
    ensures r.Some? ==> forall i :: 0 <= i < |b.challenges| ==>
      IsEmbedding(r.value.challenges[i], b.challenges[i], stride) && ValidAt(r.value.challenges[i], ambient)
  {
    hide ValidAt, Fits, IsEmbedding;
    if d == 0 || stride == 0 || d * stride != ambient {
      return None;
    }
    var embedded: seq<SparseChallenge> := [];
    for i := 0 to |b.challenges|
      invariant |embedded| == i
      invariant forall j :: 0 <= j < i ==> ValidAt(b.challenges[j], d) && Fits(b.challenges[j], stride)
      invariant forall j :: 0 <= j < i ==> IsEmbedding(embedded[j], b.challenges[j], stride) && ValidAt(embedded[j], ambient)
    {
      var e := EmbedOne(b.challenges[i], d, stride, ambient);
      if e.None? {
        return None;
      }
      EmbeddingIsValid(b.challenges[i], e.value, d, stride);
      embedded := embedded + [e.value];
    }
    r := FromSparse(embedded, b.blocks, b.claims);
  }

  /** Complete claims, in the requested order. */
  method SelectClaims(b: Challenges, indices: seq<nat>) returns (r: Option<Challenges>)
    requires IsBatch(b)
    ensures r.Some? <==> forall k :: 0 <= k < |indices| ==> indices[k] * b.blocks + b.blocks <= |b.challenges|
    ensures r.Some? ==> IsBatch(r.value) && r.value.blocks == b.blocks && r.value.claims == |indices|
    ensures r.Some? ==> forall k: nat, i: nat :: k < |indices| && i < b.blocks ==>
      Entry(r.value, k, i) == Entry(b, indices[k], i)
  {
    var selected: seq<SparseChallenge> := [];
    for k := 0 to |indices|
      invariant |selected| == k * b.blocks
      invariant forall m :: 0 <= m < k ==> indices[m] * b.blocks + b.blocks <= |b.challenges|
      invariant forall m: nat, i: nat :: m < k && i < b.blocks ==>
        EntryOf(selected, b.blocks, m, i) == Entry(b, indices[m], i)
    {
      var start := indices[k] * b.blocks;
      if start + b.blocks > |b.challenges| {
        return None;
      }
      ghost var before := selected;
      selected := selected + b.challenges[start..start + b.blocks];
      SelectedNext(b, indices, k, before, selected);
    }
    assert |indices| * b.blocks == b.blocks * |indices|;
    r := FromSparse(selected, b.blocks, |indices|);
  }

  // Block i of claim k.
  ghost function EntryOf(challenges: seq<SparseChallenge>, blocks: nat, k: nat, i: nat): Option<SparseChallenge> {
    if k * blocks + i < |challenges| then Some(challenges[k * blocks + i]) else None
  }

  ghost function Entry(b: Challenges, k: nat, i: nat): Option<SparseChallenge> {
    EntryOf(b.challenges, b.blocks, k, i)
  }

  lemma SelectedNext(b: Challenges, indices: seq<nat>, k: nat, before: seq<SparseChallenge>, after: seq<SparseChallenge>)
    requires k < |indices| && |before| == k * b.blocks && indices[k] * b.blocks + b.blocks <= |b.challenges|
    requires after == before + b.challenges[indices[k] * b.blocks..indices[k] * b.blocks + b.blocks]
    requires forall m: nat, i: nat :: m < k && i < b.blocks ==> EntryOf(before, b.blocks, m, i) == Entry(b, indices[m], i)
    ensures |after| == (k + 1) * b.blocks
    ensures forall m: nat, i: nat :: m < k + 1 && i < b.blocks ==> EntryOf(after, b.blocks, m, i) == Entry(b, indices[m], i)
  {
    NextClaim(k, b.blocks);
    forall m: nat, i: nat | m < k + 1 && i < b.blocks
      ensures EntryOf(after, b.blocks, m, i) == Entry(b, indices[m], i)
    {
      if m < k {
        assert EntryOf(before, b.blocks, m, i) == Entry(b, indices[m], i);
        EarlierEntry(before, after, b.blocks, k, m, i);
      }
    }
  }

  lemma NextClaim(k: nat, blocks: nat)
    ensures (k + 1) * blocks == k * blocks + blocks
  {}

  lemma EarlierEntry(before: seq<SparseChallenge>, after: seq<SparseChallenge>, blocks: nat, k: nat, m: nat, i: nat)
    requires |before| == k * blocks && before <= after && m < k && i < blocks
    ensures EntryOf(after, blocks, m, i) == EntryOf(before, blocks, m, i)
  {
    MulMonotone(m + 1, k, blocks);
    NextClaim(m, blocks);
  }
}
