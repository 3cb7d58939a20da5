/** Bitwise AND on unbounded naturals, and what the usual power-of-two idioms
    compute with it. */
module Bits {
  import opened Numbers

  const UINT64_MAX: nat := 0xFFFF_FFFF_FFFF_FFFF

  /** A 64-bit word; storing anything larger is refused. */
  type Uint64 = x: int | 0 <= x <= UINT64_MAX witness 0

  function Pow2(n: nat): (p: nat)
    ensures 0 < p
  {
    if n == 0 then 1 else 2 * Pow2(n - 1)
  }

  lemma {:induction false} PowAdds(a: nat, b: nat)
    ensures Pow2(a + b) == Pow2(a) * Pow2(b)
  {
    if a != 0 {
      PowAdds(a - 1, b);
      assert Pow2(a + b) == 2 * Pow2(a - 1 + b);
      Pull(Pow2(a - 1), Pow2(b));
    }
  }

  lemma {:induction false} Pull(x: int, y: int)
    ensures 2 * (x * y) == (2 * x) * y
  {
  }

  function And(x: nat, y: nat): nat {
    if x == 0 || y == 0 then 0 else 2 * And(x / 2, y / 2) + (x % 2) * (y % 2)
  }

  predicate IsPow2(p: nat) {
    p == 1 || (0 < p && p % 2 == 0 && IsPow2(p / 2))
  }

  lemma {:induction false} AndSelf(x: nat)
    ensures And(x, x) == x
  {
    if x != 0 { AndSelf(x / 2); }
  }

  /** p & (p - 1) is zero exactly at the powers of two. */
  lemma {:induction false} SingleBit(p: nat)
    requires 0 < p
    ensures And(p, p - 1) == 0 <==> IsPow2(p)
  {
    if p % 2 == 1 {
      assert p / 2 == (p - 1) / 2;
      AndSelf(p / 2);
      if p != 1 { assert And(p, p - 1) == 2 * And(p / 2, p / 2); }
    } else {
      assert (p - 1) / 2 == p / 2 - 1;
      SingleBit(p / 2);
      assert (p - 1) % 2 == 1 && p % 2 == 0;
      if p != 2 { assert And(p, p - 1) == 2 * And(p / 2, p / 2 - 1); }
    }
  }

  /** With a word of `bits` bits, x & ~(p - 1) is the last multiple of p up to x. */
  lemma {:induction false} MaskRoundsDown(x: nat, p: nat, bits: nat)
    requires IsPow2(p) && x < Pow2(bits) && p <= Pow2(bits)
    ensures var r := And(x, Pow2(bits) - 1 - (p - 1));
      r <= x < r + p && Multiple(r, p)
  {
    if p == 1 {
      AndAllOnes(x, bits);
      assert x == x * 1;
    } else if x == 0 || p == Pow2(bits) {
      assert 0 == 0 * p;
    } else {
      MaskRoundsDown(x / 2, p / 2, bits - 1);
      MaskHalves(x, p, bits);
      MultipleDoubles(And(x / 2, Pow2(bits - 1) - p / 2), p / 2);
    }
  }

  lemma {:induction false} MaskHalves(x: nat, p: nat, bits: nat)
    requires 0 < bits && p % 2 == 0 && p <= Pow2(bits)
    ensures And(x, Pow2(bits) - p) == 2 * And(x / 2, Pow2(bits - 1) - p / 2)
  {
    var m, h := Pow2(bits) - p, Pow2(bits - 1) - p / 2;
    assert m == 2 * h;
    AndStep(x, m);
    assert m / 2 == h && m % 2 == 0;
  }

  lemma {:induction false} MultipleDoubles(r: int, h: int)
    requires Multiple(r, h)
    ensures Multiple(2 * r, 2 * h)
  {
    var q: int :| r == q * h;
    Doubled(q, h);
    assert 2 * r == q * (2 * h);
  }

  function Or(x: nat, y: nat): nat {
    if x == 0 then y else if y == 0 then x
    else 2 * Or(x / 2, y / 2) + (if x % 2 == 1 || y % 2 == 1 then 1 else 0)
  }

  lemma {:induction false} OrIsSum(x: nat, y: nat)
    ensures Or(x, y) == x + y - And(x, y)
  {
    if x != 0 && y != 0 { OrIsSum(x / 2, y / 2); }
  }

  /** The low `k` bits and the rest are independent. */
  lemma {:induction false} AndSplits(x: nat, a: nat, y: nat, b: nat, k: nat)
    requires a < Pow2(k) && b < Pow2(k)
    ensures And(x * Pow2(k) + a, y * Pow2(k) + b) == And(x, y) * Pow2(k) + And(a, b)
  {
    if k != 0 {
      var p, v, w := Pow2(k - 1), x * Pow2(k) + a, y * Pow2(k) + b;
      Halved(x, p, a);
      Halved(y, p, b);
      Doubled(And(x, y), p);
      AndSplits(x, a / 2, y, b / 2, k - 1);
      AndStep(v, w);
      AndStep(a, b);
    }
  }

  lemma {:induction false} AndStep(x: nat, y: nat)
    ensures And(x, y) == 2 * And(x / 2, y / 2) + (x % 2) * (y % 2)
  {
  }

  lemma {:induction false} Halved(x: nat, p: nat, a: nat)
    ensures (x * (2 * p) + a) / 2 == x * p + a / 2 && (x * (2 * p) + a) % 2 == a % 2
  {
    Doubled(x, p);
  }

  lemma {:induction false} Doubled(q: int, h: int)
    ensures 2 * (q * h) == q * (2 * h)
  {
  }

  lemma {:induction false} AndAllOnes(x: nat, bits: nat)
    requires x < Pow2(bits)
    ensures And(x, Pow2(bits) - 1) == x
  {
    if x != 0 {
      assert bits != 0;
      assert (Pow2(bits) - 1) / 2 == Pow2(bits - 1) - 1;
      AndAllOnes(x / 2, bits - 1);
    }
  }
}
