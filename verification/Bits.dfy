/** The bit operations of C on unbounded naturals. */
module Bits {
  import opened Arithmetic

  function Xor(a: nat, b: nat): nat
    decreases a + b
  {
    if a == 0 && b == 0 then 0
    else (if a % 2 != b % 2 then 1 else 0) + 2 * Xor(a / 2, b / 2)
  }

  function And(a: nat, b: nat): nat {
    if a == 0 then 0
    else (if a % 2 == 1 && b % 2 == 1 then 1 else 0) + 2 * And(a / 2, b / 2)
  }

  function Pow2(k: nat): (p: nat)
    ensures p > 0
  {
    if k == 0 then 1 else 2 * Pow2(k - 1)
  }

  lemma HalfParts(a1: nat, p: nat, a0: nat)
    ensures (a1 * (2 * p) + a0) / 2 == a1 * p + a0 / 2
    ensures (a1 * (2 * p) + a0) % 2 == a0 % 2
    ensures a1 * p >= 0
  {
    MulMonotonic(0, a1, p);
    assert a1 * (2 * p) == 2 * (a1 * p);
  }

  lemma DoubleParts(x: nat, p: nat, y: nat)
    ensures 2 * (x * p + y) == x * (2 * p) + 2 * y
  {
  }

  /** Exclusive or works on the parts above and below bit `k` separately. */
  lemma {:induction false} XorSplit(k: nat, a1: nat, a0: nat, b1: nat, b0: nat)
    requires a0 < Pow2(k) && b0 < Pow2(k)
    ensures Xor(a1 * Pow2(k) + a0, b1 * Pow2(k) + b0) == Xor(a1, b1) * Pow2(k) + Xor(a0, b0)
    ensures Xor(a0, b0) < Pow2(k)
  {
    if k > 0 {
      var p := Pow2(k - 1);
      XorSplit(k - 1, a1, a0 / 2, b1, b0 / 2);
      HalfParts(a1, p, a0);
      HalfParts(b1, p, b0);
      DoubleParts(Xor(a1, b1), p, Xor(a0 / 2, b0 / 2));
    }
  }

  /** Masking works on the two parts separately, too. */
  lemma {:induction false} AndSplit(k: nat, a1: nat, a0: nat, b1: nat, b0: nat)
    requires a0 < Pow2(k) && b0 < Pow2(k)
    ensures And(a1 * Pow2(k) + a0, b1 * Pow2(k) + b0) == And(a1, b1) * Pow2(k) + And(a0, b0)
  {
    if k > 0 {
      var p := Pow2(k - 1);
      AndSplit(k - 1, a1, a0 / 2, b1, b0 / 2);
      HalfParts(a1, p, a0);
      HalfParts(b1, p, b0);
      DoubleParts(And(a1, b1), p, And(a0 / 2, b0 / 2));
    }
  }

  lemma {:induction false} AndZero(a: nat)
    ensures And(a, 0) == 0
  {
    if a > 0 {
      AndZero(a / 2);
    }
  }

  lemma {:induction false} XorSelf(a: nat)
    ensures Xor(a, a) == 0
    ensures Xor(a, 0) == a
  {
    if a > 0 {
      XorSelf(a / 2);
    }
  }

  lemma {:induction false} Pow2Sum(j: nat, k: nat)
    ensures Pow2(j + k) == Pow2(j) * Pow2(k)
  {
    if j > 0 {
      Pow2Sum(j - 1, k);
    }
  }

  lemma {:induction false} AndOnes(k: nat, a: nat)
    requires a < Pow2(k)
    ensures And(a, Pow2(k) - 1) == a
  {
    if k > 0 {
      AndOnes(k - 1, a / 2);
      assert (Pow2(k) - 1) / 2 == Pow2(k - 1) - 1;
    }
  }

  lemma XorBelow(k: nat, hi: nat, lo: nat, s: nat)
    requires lo < Pow2(k) && s < Pow2(k)
    ensures Xor(hi * Pow2(k) + lo, s) == hi * Pow2(k) + Xor(lo, s)
    ensures Xor(lo, s) < Pow2(k)
  {
    var p := Pow2(k);
    assert 0 * p + s == s;
    XorSplit(k, hi, lo, 0, s);
    XorSelf(hi);
  }

  lemma XorAway(k: nat, hi: nat, lo: nat)
    requires lo < Pow2(k)
    ensures Xor(hi * Pow2(k) + lo, hi * Pow2(k)) == lo
  {
    XorSplit(k, hi, lo, hi, 0);
    XorSelf(hi);
    XorSelf(lo);
  }
}
