/** The masks contained in a mask, and how many there are. */
module Submasks {
  import opened Bits
  import opened BitCount

  /** Every bit of `c` is a bit of `m`. */
  predicate Submask(c: nat, m: nat) {
    c == 0 || (c % 2 <= m % 2 && Submask(c / 2, m / 2))
  }

  /** `(c & ~m) == 0`, for words of `k` bits. */
  lemma {:induction false} SubmaskIsMasked(k: nat, c: nat, m: nat)
    requires c < Pow2(k) && m < Pow2(k)
    ensures And(c, Pow2(k) - 1 - m) == 0 <==> Submask(c, m)
  {
    if k > 0 && c > 0 {
      SubmaskIsMasked(k - 1, c / 2, m / 2);
      var n := Pow2(k) - 1 - m;
      assert n / 2 == Pow2(k - 1) - 1 - m / 2 && n % 2 == 1 - m % 2;
      assert And(c, n) == (if c % 2 == 1 && n % 2 == 1 then 1 else 0) + 2 * And(c / 2, n / 2);
    }
  }

  lemma {:induction false} SubmaskAtMost(c: nat, m: nat)
    requires Submask(c, m)
    ensures c <= m
  {
    if c > 0 {
      SubmaskAtMost(c / 2, m / 2);
    }
  }

  lemma {:induction false} SubmaskTransitive(a: nat, b: nat, c: nat)
    requires Submask(a, b) && Submask(b, c)
    ensures Submask(a, c)
  {
    if a > 0 {
      SubmaskAtMost(a, b);
      SubmaskTransitive(a / 2, b / 2, c / 2);
    }
  }

  lemma {:induction false} SubmaskReflexive(a: nat)
    ensures Submask(a, a)
  {
    if a > 0 {
      SubmaskReflexive(a / 2);
    }
  }

  /** A bit missing from a mask is missing from its submasks. */
  lemma {:induction false} SubmaskKeepsClear(c: nat, m: nat, bits: nat)
    requires Submask(c, m) && And(m, bits) == 0
    ensures And(c, bits) == 0
  {
    if c > 0 {
      SubmaskAtMost(c, m);
      SubmaskKeepsClear(c / 2, m / 2, bits / 2);
    }
  }

  /** How many masks below `n` are contained in `m`. */
  function CountBelow(m: nat, n: nat): nat {
    if n == 0 then 0 else CountBelow(m, n - 1) + (if Submask(n - 1, m) then 1 else 0)
  }

  lemma {:induction false} CountPairs(m: nat, n: nat)
    ensures CountBelow(m, 2 * n) == (if m % 2 == 0 then 1 else 2) * CountBelow(m / 2, n)
  {
    if n > 0 {
      CountPairs(m, n - 1);
      var c := n - 1;
      assert Submask(2 * c, m) <==> Submask(c, m / 2);
      assert Submask(2 * c + 1, m) <==> m % 2 == 1 && Submask(c, m / 2);
      assert CountBelow(m, 2 * n - 1) == CountBelow(m, 2 * c) + (if Submask(2 * c, m) then 1 else 0);
    }
  }

  lemma CountEven(h: nat)
    ensures CountBelow(2 * h, 2 * h + 1) == CountBelow(h, h + 1)
  {
    CountPairs(2 * h, h + 1);
    assert !Submask(2 * h + 1, 2 * h);
  }

  lemma CountOdd(h: nat)
    ensures CountBelow(2 * h + 1, 2 * h + 2) == 2 * CountBelow(h, h + 1)
  {
    CountPairs(2 * h + 1, h + 1);
  }

  /** A mask has exactly 2 to the number of its bits submasks. */
  lemma {:induction false} SubmaskCount(m: nat)
    ensures CountBelow(m, m + 1) == Pow2(PopCount(m))
  {
    if m > 0 {
      SubmaskCount(m / 2);
      if m % 2 == 0 {
        CountEven(m / 2);
      } else {
        CountOdd(m / 2);
      }
    }
  }
}
