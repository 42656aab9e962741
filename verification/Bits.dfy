/**
  The bitwise operators of C on unsigned numbers, bit by bit, and how they act on
  the parts of a number above and below one of its bits.
 */
module Bits {

  function BitAnd(a: nat, b: nat): nat { if a % 2 == 1 && b % 2 == 1 then 1 else 0 }

  function And(a: nat, b: nat): nat {
    if a == 0 && b == 0 then 0 else BitAnd(a, b) + 2 * And(a / 2, b / 2)
  }

  function Xor(a: nat, b: nat): nat {
    if a == 0 && b == 0 then 0 else (a + b) % 2 + 2 * Xor(a / 2, b / 2)
  }

  function Pow2(k: nat): (p: nat)
    ensures p > 0
  {
    if k == 0 then 1 else 2 * Pow2(k - 1)
  }

  lemma {:induction false} HalfOf(bit: nat, x: nat)
    requires bit < 2
    ensures (bit + 2 * x) % 2 == bit && (bit + 2 * x) / 2 == x
  {
  }

  lemma {:induction false} AndHalf(a: nat, b: nat)
    ensures And(a, b) % 2 == BitAnd(a, b) && And(a, b) / 2 == And(a / 2, b / 2)
  {
    if a == 0 && b == 0 {
      assert And(0, 0) == 0;
    } else {
      HalfOf(BitAnd(a, b), And(a / 2, b / 2));
    }
  }

  lemma {:induction false} XorHalf(a: nat, b: nat)
    ensures Xor(a, b) % 2 == (a + b) % 2 && Xor(a, b) / 2 == Xor(a / 2, b / 2)
  {
    if a == 0 && b == 0 {
      assert Xor(0, 0) == 0;
    } else {
      HalfOf((a + b) % 2, Xor(a / 2, b / 2));
    }
  }

  lemma {:induction false} AndZero(a: nat)
    ensures And(a, 0) == 0 && And(0, a) == 0
  {
    if a > 0 {
      AndZero(a / 2);
    }
  }

  lemma {:induction false} XorZero(a: nat)
    ensures Xor(a, 0) == a && Xor(0, a) == a
  {
    if a > 0 {
      XorZero(a / 2);
    }
  }

  /** A number with the bits `low` below bit `k` and the number `high` from there on. */
  function Glue(low: nat, high: nat, k: nat): nat {
    low + Pow2(k) * high
  }

  lemma {:induction false} GlueHalf(low: nat, high: nat, k: nat)
    requires k > 0
    ensures Glue(low, high, k) % 2 == low % 2 && Glue(low, high, k) / 2 == Glue(low / 2, high, k - 1)
  {
    var x := Pow2(k - 1) * high;
    assert Pow2(k) * high == 2 * x;
    assert (low + 2 * x) % 2 == low % 2 && (low + 2 * x) / 2 == low / 2 + x;
  }

  /** Both operators work on the bits below and above bit `k` separately. */
  lemma {:induction false} AndParts(a: nat, a': nat, b: nat, b': nat, k: nat)
    requires a < Pow2(k) && b < Pow2(k)
    ensures And(Glue(a, a', k), Glue(b, b', k)) == Glue(And(a, b), And(a', b'), k)
    decreases k
  {
    if k == 0 {
      AndZero(0);
    } else {
      GlueHalf(a, a', k);
      GlueHalf(b, b', k);
      AndHalf(Glue(a, a', k), Glue(b, b', k));
      AndParts(a / 2, a', b / 2, b', k - 1);
      AndHalf(a, b);
      GlueHalf(And(a, b), And(a', b'), k);
      SameHalves(And(Glue(a, a', k), Glue(b, b', k)), Glue(And(a, b), And(a', b'), k));
    }
  }

  lemma {:induction false} XorParts(a: nat, a': nat, b: nat, b': nat, k: nat)
    requires a < Pow2(k) && b < Pow2(k)
    ensures Xor(Glue(a, a', k), Glue(b, b', k)) == Glue(Xor(a, b), Xor(a', b'), k)
    decreases k
  {
    if k == 0 {
      XorZero(0);
    } else {
      GlueHalf(a, a', k);
      GlueHalf(b, b', k);
      XorHalf(Glue(a, a', k), Glue(b, b', k));
      XorParts(a / 2, a', b / 2, b', k - 1);
      XorHalf(a, b);
      GlueHalf(Xor(a, b), Xor(a', b'), k);
      SameParity(a, b, Glue(a, a', k), Glue(b, b', k));
      SameHalves(Xor(Glue(a, a', k), Glue(b, b', k)), Glue(Xor(a, b), Xor(a', b'), k));
    }
  }

  lemma {:induction false} SameHalves(x: nat, y: nat)
    requires x % 2 == y % 2 && x / 2 == y / 2
    ensures x == y
  {
  }

  lemma {:induction false} SameParity(a: nat, b: nat, x: nat, y: nat)
    requires a % 2 == x % 2 && b % 2 == y % 2
    ensures (a + b) % 2 == (x + y) % 2
  {
  }

  /** Numbers of `k` bits stay numbers of `k` bits. */
  lemma {:induction false} XorBound(a: nat, b: nat, k: nat)
    requires a < Pow2(k) && b < Pow2(k)
    ensures Xor(a, b) < Pow2(k)
    decreases k
  {
    if k > 0 {
      XorBound(a / 2, b / 2, k - 1);
      XorHalf(a, b);
    } else {
      XorZero(0);
    }
  }

  /** A mask of `k` ones keeps the low bits. */
  lemma {:induction false} AndOnes(a: nat, k: nat)
    requires a < Pow2(k)
    ensures And(a, Pow2(k) - 1) == a
    decreases k
  {
    if k == 0 {
      AndZero(0);
    } else {
      AndOnes(a / 2, k - 1);
      AndHalf(a, Pow2(k) - 1);
      assert (Pow2(k) - 1) / 2 == Pow2(k - 1) - 1 && (Pow2(k) - 1) % 2 == 1;
    }
  }

  /** A number and its complement within `k` bits have no bit in common. */
  lemma {:induction false} AndComplement(a: nat, k: nat)
    requires a < Pow2(k)
    ensures And(a, Pow2(k) - 1 - a) == 0
    decreases k
  {
    if k == 0 {
      AndZero(0);
    } else {
      var b := Pow2(k) - 1 - a;
      assert b / 2 == Pow2(k - 1) - 1 - a / 2 && b % 2 == 1 - a % 2;
      AndComplement(a / 2, k - 1);
      AndHalf(a, b);
    }
  }
}
