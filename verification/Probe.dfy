/** The double-hashing probe sequence of message catalogues. */
module Probe {
  import opened Arithmetic

  ghost predicate Prime(p: nat) {
    p >= 2 && forall d :: 2 <= d < p ==> p % d != 0
  }

  /** The step at the end of the search loop, in unsigned arithmetic. */
  function NextIndex(size: nat, idx: nat, incr: nat): (r: nat)
    requires idx < size && 0 < incr < size
    ensures r < size
  {
    if idx >= size - incr then idx - (size - incr) else idx + incr
  }

  /** The `k`-th slot probed. */
  function Slot(size: nat, start: nat, incr: nat, k: nat): (s: nat)
    requires size > 0
    ensures s < size
  {
    MulMonotonic(0, k, incr);
    (start + k * incr) % size
  }

  /** Each step goes to the next slot of the sequence. */
  lemma NextSlot(size: nat, start: nat, incr: nat, k: nat)
    requires 0 < incr < size
    ensures NextIndex(size, Slot(size, start, incr, k), incr) == Slot(size, start, incr, k + 1)
  {
    MulMonotonic(0, k, incr);
    var x := start + k * incr;
    var q, idx := x / size, x % size;
    assert start + (k + 1) * incr == x + incr;
    var next := NextIndex(size, idx, incr);
    if idx >= size - incr {
      assert x + incr == (q + 1) * size + next;
      QuotientUnique(x + incr, q + 1, next, size);
    } else {
      QuotientUnique(x + incr, q, next, size);
    }
  }

  /** Euclid's lemma for factors below the prime. */
  lemma {:induction false} ProductNotDivisible(p: nat, j: nat, a: nat)
    requires Prime(p) && 0 < j < p && 0 < a < p
    ensures (j * a) % p != 0
    decreases a
  {
    if a > 1 {
      var q, r := p / a, p % a;
      assert p == q * a + r;
      ProductNotDivisible(p, j, r);
      if (j * a) % p == 0 {
        var t := (j * a) / p;
        RemainderMultiple(p, j, a, q, r, t);
      }
    }
  }

  lemma RemainderMultiple(p: nat, j: nat, a: nat, q: nat, r: nat, t: int)
    requires p > 0 && p == q * a + r && j * a == t * p
    ensures (j * r) % p == 0
  {
    assert j * r == j * (p - q * a);
    assert j * (q * a) == q * (j * a);
    assert q * (t * p) == (q * t) * p;
    assert j * r == (j - q * t) * p + 0;
    QuotientUnique(j * r, j - q * t, 0, p);
  }

  /** No slot is probed twice in the first `size` probes. */
  lemma SlotsDistinct(size: nat, start: nat, incr: nat, j: nat, k: nat)
    requires Prime(size) && 0 < incr < size && j < k < size
    ensures Slot(size, start, incr, j) != Slot(size, start, incr, k)
  {
    MulMonotonic(0, j, incr);
    MulMonotonic(0, k, incr);
    var x, y := start + j * incr, start + k * incr;
    if x % size == y % size {
      var d := y / size - x / size;
      assert (k - j) * incr == d * size + 0;
      QuotientUnique((k - j) * incr, d, 0, size);
      ProductNotDivisible(size, k - j, incr);
    }
  }

  /** The slots of the first `n` probes. */
  ghost function Probed(size: nat, start: nat, incr: nat, n: nat): set<nat>
    requires size > 0
  {
    set k: nat | k < n :: Slot(size, start, incr, k)
  }

  function Below(n: nat): (s: set<nat>)
    ensures |s| == n && forall i: nat :: i in s <==> i < n
  {
    if n == 0 then {} else Below(n - 1) + {n - 1}
  }

  lemma {:induction false} ProbedCount(size: nat, start: nat, incr: nat, n: nat)
    requires Prime(size) && 0 < incr < size && n <= size
    ensures |Probed(size, start, incr, n)| == n
  {
    if n > 0 {
      ProbedCount(size, start, incr, n - 1);
      var last := Slot(size, start, incr, n - 1);
      assert Probed(size, start, incr, n) == Probed(size, start, incr, n - 1) + {last};
      forall k: nat | k < n - 1
        ensures Slot(size, start, incr, k) != last
      {
        SlotsDistinct(size, start, incr, k, n - 1);
      }
    }
  }

  lemma SubsetOfSameSize(a: set<nat>, b: set<nat>)
    requires a <= b && |a| == |b|
    ensures a == b
  {
    assert b == a + (b - a);
    assert |b| == |a| + |b - a|;
  }

  /** The first `size` probes visit every slot, each exactly once. */
  lemma EverySlotProbedOnce(size: nat, start: nat, incr: nat, slot: nat) returns (k: nat)
    requires Prime(size) && 0 < incr < size && slot < size
    ensures k < size && Slot(size, start, incr, k) == slot
    ensures forall j: nat | j < size && Slot(size, start, incr, j) == slot :: j == k
  {
    ProbedCount(size, start, incr, size);
    SubsetOfSameSize(Probed(size, start, incr, size), Below(size));
    assert slot in Probed(size, start, incr, size);
    k :| k < size && Slot(size, start, incr, k) == slot;
    forall j: nat | j < size && Slot(size, start, incr, j) == slot
      ensures j == k
    {
      if j < k {
        SlotsDistinct(size, start, incr, j, k);
      } else if k < j {
        SlotsDistinct(size, start, incr, k, j);
      }
    }
  }
}
