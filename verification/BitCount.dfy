/** Counting bits and the masks contained in a mask. */
module BitCount {
  import opened Bits

  /** The number of bits set. */
  function PopCount(x: nat): nat {
    if x == 0 then 0 else x % 2 + PopCount(x / 2)
  }

  /** `pop`, on values of up to 16 bits. */
  function Pop(x0: nat): nat {
    var x1 := And(x0, 0xaaaa) / 2 + And(x0, 0x5555);
    var x2 := And(x1, 0xcccc) / 4 + And(x1, 0x3333);
    var x3 := And(x2 / 16 + x2, 0x0f0f);
    And(x3 / 256 + x3, 0xff)
  }

  /** A number of four hexadecimal digits. */
  function Hex(d3: nat, d2: nat, d1: nat, d0: nat): nat {
    d3 * 4096 + d2 * 256 + d1 * 16 + d0
  }

  lemma And16(a1: nat, a0: nat, b1: nat, b0: nat)
    requires a0 < 16 && b0 < 16
    ensures And(a1 * 16 + a0, b1 * 16 + b0) == And(a1, b1) * 16 + And(a0, b0)
  {
    assert Pow2(4) == 16;
    AndSplit(4, a1, a0, b1, b0);
  }

  lemma And4(a1: nat, a0: nat, b1: nat, b0: nat)
    requires a0 < 4 && b0 < 4
    ensures And(a1 * 4 + a0, b1 * 4 + b0) == And(a1, b1) * 4 + And(a0, b0)
  {
    assert Pow2(2) == 4;
    AndSplit(2, a1, a0, b1, b0);
  }

  lemma AndHex(a3: nat, a2: nat, a1: nat, a0: nat, b3: nat, b2: nat, b1: nat, b0: nat)
    requires a3 < 16 && a2 < 16 && a1 < 16 && a0 < 16
    requires b3 < 16 && b2 < 16 && b1 < 16 && b0 < 16
    ensures And(Hex(a3, a2, a1, a0), Hex(b3, b2, b1, b0)) ==
            Hex(And(a3, b3), And(a2, b2), And(a1, b1), And(a0, b0))
  {
    AndUpper(a3, a2, a1, b3, b2, b1);
    And16(a3 * 256 + a2 * 16 + a1, a0, b3 * 256 + b2 * 16 + b1, b0);
  }

  lemma AndUpper(a3: nat, a2: nat, a1: nat, b3: nat, b2: nat, b1: nat)
    requires a2 < 16 && a1 < 16 && b2 < 16 && b1 < 16
    ensures And(a3 * 256 + a2 * 16 + a1, b3 * 256 + b2 * 16 + b1) ==
            And(a3, b3) * 256 + And(a2, b2) * 16 + And(a1, b1)
  {
    And16(a3 * 16 + a2, a1, b3 * 16 + b2, b1);
    And16(a3, a2, b3, b2);
  }

  /** The first two folding steps on one hexadecimal digit. */
  function PairSum(d: nat): nat {
    (d / 4 / 2 + d / 4 % 2) * 4 + (d % 4 / 2 + d % 4 % 2)
  }

  function NibbleSum(q: nat): nat {
    q / 4 + q % 4
  }

  lemma PairCount(q: nat)
    requires q < 4
    ensures And(q, 2) == 2 * (q / 2) && And(q, 1) == q % 2
    ensures And(q, 3) == q && And(q, 0) == 0
  {
    match q
    case 0 =>
    case 1 =>
    case 2 =>
    case 3 =>
  }

  lemma PopCountSplit(h: nat, q: nat)
    requires q < 4
    ensures PopCount(h * 4 + q) == PopCount(h) + q / 2 + q % 2
  {
    var x := h * 4 + q;
    assert x / 2 == h * 2 + q / 2 && x % 2 == q % 2;
    assert x / 2 / 2 == h && x / 2 % 2 == q / 2;
    assert PopCount(x) == x % 2 + PopCount(x / 2);
    assert PopCount(x / 2) == x / 2 % 2 + PopCount(h);
  }

  lemma PairMasks(h: nat, q: nat)
    requires h < 4 && q < 4
    ensures And(h * 4 + q, 10) == 8 * (h / 2) + 2 * (q / 2)
    ensures And(h * 4 + q, 5) == 4 * (h % 2) + q % 2
  {
    And4(h, q, 2, 2);
    And4(h, q, 1, 1);
    PairCount(h);
    PairCount(q);
  }

  lemma NibbleMasks(h: nat, q: nat)
    requires h < 4 && q < 4
    ensures And(h * 4 + q, 12) == 4 * h
    ensures And(h * 4 + q, 3) == q
  {
    And4(h, q, 3, 0);
    And4(h, q, 0, 3);
    PairCount(h);
    PairCount(q);
  }

  /** The masks of `pop` on one digit. */
  lemma DigitMasks(d: nat)
    requires d < 16
    ensures And(d, 10) == 8 * (d / 4 / 2) + 2 * (d % 4 / 2)
    ensures And(d, 5) == 4 * (d / 4 % 2) + d % 4 % 2
    ensures And(d, 12) == 4 * (d / 4)
    ensures And(d, 3) == d % 4
  {
    PairMasks(d / 4, d % 4);
    NibbleMasks(d / 4, d % 4);
  }

  lemma SumsOf(h: nat, q: nat)
    requires h < 4 && q < 4
    ensures PairSum(h * 4 + q) == (h / 2 + h % 2) * 4 + (q / 2 + q % 2)
    ensures NibbleSum(h * 4 + q) == h + q
  {
  }

  lemma DigitHalves(h: nat, q: nat)
    requires h < 4 && q < 4
    ensures NibbleSum(PairSum(h * 4 + q)) == PopCount(h * 4 + q) <= 4
    ensures PairSum(h * 4 + q) < 16
  {
    SumsOf(h, q);
    SumsOf(h / 2 + h % 2, q / 2 + q % 2);
    PopCountSplit(h, q);
    PopCountSplit(0, h);
  }

  lemma DigitCount(d: nat)
    requires d < 16
    ensures NibbleSum(PairSum(d)) == PopCount(d) <= 4
    ensures PairSum(d) < 16
  {
    DigitHalves(d / 4, d % 4);
  }

  lemma PopCountDigit(h: nat, d: nat)
    requires d < 16
    ensures PopCount(h * 16 + d) == PopCount(h) + PopCount(d)
  {
    PopCountSplit(h * 4 + d / 4, d % 4);
    PopCountSplit(h, d / 4);
    PopCountSplit(d / 4, d % 4);
    PopCountSplit(0, d / 4);
  }

  lemma Fold1(d3: nat, d2: nat, d1: nat, d0: nat)
    requires d3 < 16 && d2 < 16 && d1 < 16 && d0 < 16
    ensures And(Hex(d3, d2, d1, d0), 0xaaaa) / 2 + And(Hex(d3, d2, d1, d0), 0x5555) ==
            Hex(PairSum(d3), PairSum(d2), PairSum(d1), PairSum(d0))
  {
    AndHex(d3, d2, d1, d0, 10, 10, 10, 10);
    AndHex(d3, d2, d1, d0, 5, 5, 5, 5);
    DigitMasks(d3);
    DigitMasks(d2);
    DigitMasks(d1);
    DigitMasks(d0);
  }

  lemma Fold2(d3: nat, d2: nat, d1: nat, d0: nat)
    requires d3 < 16 && d2 < 16 && d1 < 16 && d0 < 16
    ensures And(Hex(d3, d2, d1, d0), 0xcccc) / 4 + And(Hex(d3, d2, d1, d0), 0x3333) ==
            Hex(NibbleSum(d3), NibbleSum(d2), NibbleSum(d1), NibbleSum(d0))
  {
    AndHex(d3, d2, d1, d0, 12, 12, 12, 12);
    AndHex(d3, d2, d1, d0, 3, 3, 3, 3);
    DigitMasks(d3);
    DigitMasks(d2);
    DigitMasks(d1);
    DigitMasks(d0);
  }

  lemma Mask15(d: nat)
    requires d < 16
    ensures And(d, 15) == d && And(d, 0) == 0
  {
    assert Pow2(4) == 16;
    AndOnes(4, d);
    AndZero(d);
  }

  lemma Fold3(n3: nat, n2: nat, n1: nat, n0: nat, x2: nat)
    requires n3 <= 4 && n2 <= 4 && n1 <= 4 && n0 <= 4
    requires x2 == Hex(n3, n2, n1, n0)
    ensures And(x2 / 16 + x2, 0x0f0f) == (n3 + n2) * 256 + (n1 + n0)
  {
    Overlap(n3, n2, n1, n0, x2);
    Alternate(n3, n3 + n2, n2 + n1, n1 + n0, x2 / 16 + x2);
  }

  lemma Overlap(n3: nat, n2: nat, n1: nat, n0: nat, x2: nat)
    requires n3 <= 4 && n2 <= 4 && n1 <= 4 && n0 <= 4
    requires x2 == Hex(n3, n2, n1, n0)
    ensures x2 / 16 + x2 == Hex(n3, n3 + n2, n2 + n1, n1 + n0)
  {
    assert x2 / 16 == n3 * 256 + n2 * 16 + n1;
  }

  lemma Alternate(n3: nat, n2: nat, n1: nat, n0: nat, y: nat)
    requires n3 < 16 && n2 < 16 && n1 < 16 && n0 < 16
    requires y == Hex(n3, n2, n1, n0)
    ensures And(y, 0x0f0f) == n2 * 256 + n0
  {
    AndHex(n3, n2, n1, n0, 0, 15, 0, 15);
    Mask15(n3);
    Mask15(n2);
    Mask15(n1);
    Mask15(n0);
  }

  lemma Fold4(a: nat, b: nat, x3: nat)
    requires a <= 8 && b <= 8
    requires x3 == a * 256 + b
    ensures And(x3 / 256 + x3, 0xff) == a + b
  {
    assert Pow2(4) == 16 && Pow2(8) == 16 * Pow2(4);
    AndSplit(8, a, a + b, 0, 255);
    AndZero(a);
    AndOnes(8, a + b);
  }

  lemma PopSteps(x0: nat, x1: nat, x2: nat, x3: nat)
    requires x1 == And(x0, 0xaaaa) / 2 + And(x0, 0x5555)
    requires x2 == And(x1, 0xcccc) / 4 + And(x1, 0x3333)
    requires x3 == And(x2 / 16 + x2, 0x0f0f)
    ensures Pop(x0) == And(x3 / 256 + x3, 0xff)
  {
  }

  lemma Folds12(d3: nat, d2: nat, d1: nat, d0: nat, x0: nat) returns (x1: nat, x2: nat)
    requires d3 < 16 && d2 < 16 && d1 < 16 && d0 < 16
    requires PairSum(d3) < 16 && PairSum(d2) < 16 && PairSum(d1) < 16 && PairSum(d0) < 16
    requires x0 == Hex(d3, d2, d1, d0)
    ensures x1 == And(x0, 0xaaaa) / 2 + And(x0, 0x5555)
    ensures x2 == And(x1, 0xcccc) / 4 + And(x1, 0x3333)
    ensures x2 == Hex(NibbleSum(PairSum(d3)), NibbleSum(PairSum(d2)),
                      NibbleSum(PairSum(d1)), NibbleSum(PairSum(d0)))
  {
    x1 := And(x0, 0xaaaa) / 2 + And(x0, 0x5555);
    x2 := And(x1, 0xcccc) / 4 + And(x1, 0x3333);
    Fold1(d3, d2, d1, d0);
    Fold2(PairSum(d3), PairSum(d2), PairSum(d1), PairSum(d0));
  }

  lemma Folds34(n3: nat, n2: nat, n1: nat, n0: nat, x2: nat) returns (x3: nat)
    requires n3 <= 4 && n2 <= 4 && n1 <= 4 && n0 <= 4
    requires x2 == Hex(n3, n2, n1, n0)
    ensures x3 == And(x2 / 16 + x2, 0x0f0f)
    ensures And(x3 / 256 + x3, 0xff) == n3 + n2 + n1 + n0
  {
    x3 := And(x2 / 16 + x2, 0x0f0f);
    Fold3(n3, n2, n1, n0, x2);
    Fold4(n3 + n2, n1 + n0, x3);
  }

  lemma Folds(d3: nat, d2: nat, d1: nat, d0: nat, x0: nat) returns (x1: nat, x2: nat, x3: nat)
    requires d3 < 16 && d2 < 16 && d1 < 16 && d0 < 16
    requires x0 == Hex(d3, d2, d1, d0)
    ensures x1 == And(x0, 0xaaaa) / 2 + And(x0, 0x5555)
    ensures x2 == And(x1, 0xcccc) / 4 + And(x1, 0x3333)
    ensures x3 == And(x2 / 16 + x2, 0x0f0f)
    ensures And(x3 / 256 + x3, 0xff) == PopCount(d3) + PopCount(d2) + PopCount(d1) + PopCount(d0)
  {
    DigitCount(d3);
    DigitCount(d2);
    DigitCount(d1);
    DigitCount(d0);
    x1, x2 := Folds12(d3, d2, d1, d0, x0);
    x3 := Folds34(PopCount(d3), PopCount(d2), PopCount(d1), PopCount(d0), x2);
  }

  /** The folded sum is the number of bits of every 16-bit value. */
  lemma PopCounts(x: nat)
    requires x < 0x10000
    ensures Pop(x) == PopCount(x)
  {
    var h, l := x / 256, x % 256;
    var d3, d2, d1, d0 := h / 16, h % 16, l / 16, l % 16;
    assert x == Hex(d3, d2, d1, d0);
    PopCountHex(d3, d2, d1, d0);
    var x1, x2, x3 := Folds(d3, d2, d1, d0, x);
    PopSteps(x, x1, x2, x3);
  }

  lemma PopCountHex(d3: nat, d2: nat, d1: nat, d0: nat)
    requires d3 < 16 && d2 < 16 && d1 < 16 && d0 < 16
    ensures PopCount(Hex(d3, d2, d1, d0)) == PopCount(d3) + PopCount(d2) + PopCount(d1) + PopCount(d0)
  {
    PopCountDigit(d3 * 256 + d2 * 16 + d1, d0);
    PopCountDigit(d3 * 16 + d2, d1);
    PopCountDigit(d3, d2);
  }
}
