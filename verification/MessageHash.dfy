/** `hash_string` for any width of `unsigned long`, with the C bit operations on
    unbounded naturals. */
module MessageHash {
  import opened Arithmetic
  import opened Bits

  const WORD: nat := 0x1_0000_0000
  const TOP_NIBBLE: nat := 0x1000_0000

  lemma Pow2Values()
    ensures Pow2(28) == TOP_NIBBLE && Pow2(32) == WORD && Pow2(64) == WORD * WORD
  {
    assert Pow2(4) == 16;
    Pow2Sum(4, 4);
    Pow2Sum(8, 8);
    Pow2Sum(16, 8);
    Pow2Sum(24, 4);
    Pow2Sum(28, 4);
    Pow2Sum(32, 32);
  }

  /** Two exclusive ors below bit 32 leave the bits above alone. */
  lemma XorTwice(hi: nat, lo: nat, s: nat, g: nat)
    requires lo < WORD && s < WORD && g < WORD
    ensures Xor(Xor(hi * WORD + lo, s), g) == hi * WORD + Xor(Xor(lo, s), g)
    ensures Xor(Xor(lo, s), g) < WORD
  {
    Pow2Values();
    XorBelow(32, hi, lo, s);
    XorBelow(32, hi, Xor(lo, s), g);
  }

  // ----- The hash function -----

  /** The value before folding: `hval <<= 4; hval += c` with `width` bits. */
  function Shifted(width: nat, hval: nat, c: int): nat {
    (hval * 16 % Pow2(width) + c) % Pow2(width)
  }

  /** `g`, and the two assignments it guards. */
  function Folded(hval: nat): nat {
    var g := And(hval, 0xf000_0000);
    if g != 0 then Xor(Xor(hval, g / 0x100_0000), g) else hval
  }

  /** `hash_string` on the values of the characters, which may be negative where
      `char` is signed, with an `unsigned long` of `width` bits. */
  function Hash(width: nat, text: seq<int>): nat {
    if text == [] then 0
    else
      var n := |text| - 1;
      Folded(Shifted(width, Hash(width, text[..n]), text[n]))
  }

  /** Folding reads and writes the low word without looking at higher bits. */
  lemma FoldedLowWord(hval: nat)
    ensures Folded(hval) % WORD == Folded(hval % WORD) < TOP_NIBBLE
    ensures Folded(hval) / WORD == hval / WORD
  {
    var hi, lo := hval / WORD, hval % WORD;
    MaskLowWord(hi, lo);
    MaskedWord(lo);
    FoldedWord(lo);
    var g := And(lo, 0xf000_0000);
    XorTwice(hi, lo, g / 0x100_0000, g);
    assert Folded(hval) == hi * WORD + Folded(lo);
    QuotientUnique(Folded(hval), hi, Folded(lo), WORD);
  }

  lemma MaskLowWord(hi: nat, lo: nat)
    requires lo < WORD
    ensures And(hi * WORD + lo, 0xf000_0000) == And(lo, 0xf000_0000)
  {
    Pow2Values();
    AndSplit(32, hi, lo, 0, 0xf000_0000);
    AndZero(hi);
  }

  /** The mask selects the top four bits of a word. */
  lemma MaskedWord(lo: nat)
    requires lo < WORD
    ensures And(lo, 0xf000_0000) == lo / TOP_NIBBLE * TOP_NIBBLE
  {
    var n, y := lo / TOP_NIBBLE, lo % TOP_NIBBLE;
    Pow2Values();
    AndSplit(28, n, y, 15, 0);
    AndZero(y);
    assert Pow2(4) == 16;
    AndOnes(4, n);
  }

  /** Exclusive or with the top nibble clears it. */
  lemma ClearTop(n: nat, y: nat)
    requires n < 16 && y < TOP_NIBBLE
    ensures Xor(Xor(n * TOP_NIBBLE + y, n * 16), n * TOP_NIBBLE) < TOP_NIBBLE
  {
    Pow2Values();
    XorBelow(28, n, y, n * 16);
    XorAway(28, n, Xor(y, n * 16));
  }

  /** In one word folding clears the top four bits. */
  lemma FoldedWord(lo: nat)
    requires lo < WORD
    ensures Folded(lo) < TOP_NIBBLE
  {
    var n := lo / TOP_NIBBLE;
    MaskedWord(lo);
    ClearTop(n, lo % TOP_NIBBLE);
    assert n * TOP_NIBBLE / 0x100_0000 == n * 16;
  }

  /** In one word folding moves the top four bits down to bit 4 and adds them there. */
  lemma FoldedIs(lo: nat)
    requires lo < WORD
    ensures Folded(lo) == Xor(lo % TOP_NIBBLE, lo / TOP_NIBBLE * 16)
  {
    var n, y := lo / TOP_NIBBLE, lo % TOP_NIBBLE;
    MaskedWord(lo);
    Pow2Values();
    XorSelf(y);
    assert lo == n * TOP_NIBBLE + y && n * TOP_NIBBLE / 0x100_0000 == n * 16;
    XorBelow(28, n, y, n * 16);
    XorAway(28, n, Xor(y, n * 16));
  }

  /** The bytes as the digits of a number with base 16. */
  function Number16(text: seq<int>): int {
    if text == [] then 0 else 16 * Number16(text[..|text| - 1]) + text[|text| - 1]
  }

  /** The largest such number of `k` bytes. */
  function Largest(k: nat): nat {
    if k == 0 then 0 else 16 * Largest(k - 1) + 255
  }

  lemma {:induction false} LargestFits(k: nat)
    requires k <= 5
    ensures Largest(k) * (if k == 5 then 1 else if k == 4 then 16 else if k == 3 then 256 else 4096) < 17 * 0x10_0000
  {
    if k > 0 {
      LargestFits(k - 1);
    }
  }

  /** Where nothing is folded, as in every string of at most five bytes, the hash is that number. */
  lemma {:induction false} ShortHash(width: nat, text: seq<int>)
    requires width >= 32 && |text| <= 5 && forall c | c in text :: 0 <= c <= 255
    ensures Hash(width, text) == Number16(text) <= Largest(|text|)
  {
    if text != [] {
      var n := |text| - 1;
      assert forall c :: c in text[..n] ==> c in text;
      ShortHash(width, text[..n]);
      assert text[n] in text;
      LargestFits(n);
      SmallStep(width, Hash(width, text[..n]), text[n]);
    }
  }

  lemma SmallStep(width: nat, h: nat, c: nat)
    requires width >= 32 && h * 16 + c < TOP_NIBBLE
    ensures Folded(Shifted(width, h, c)) == h * 16 + c
  {
    SmallShift(width, h, c);
    MaskedWord(h * 16 + c);
  }

  lemma SmallShift(width: nat, h: nat, c: nat)
    requires width >= 32 && h * 16 + c < TOP_NIBBLE
    ensures Shifted(width, h, c) == h * 16 + c
  {
    Pow2Values();
    Pow2Sum(width - 32, 32);
    MulMonotonic(1, Pow2(width - 32), WORD);
    var m := Pow2(width);
    QuotientUnique(h * 16, 0, h * 16, m);
    QuotientUnique(h * 16 + c, 0, h * 16 + c, m);
  }

  lemma ModOfMod(x: int, q: nat, m: nat)
    requires m > 0 && q > 0
    ensures q * m > 0 && (x % (q * m)) % m == x % m
  {
    MulMonotonic(1, q, m);
    var k, r := x / (q * m), x % (q * m);
    assert x == k * (q * m) + r;
    assert k * (q * m) == (k * q) * m;
    ModPlusMultiple(r, k * q, m);
  }

  lemma ShiftedLowWord(width: nat, hval: nat, c: int)
    requires width >= 32
    ensures Shifted(width, hval, c) % WORD == Shifted(32, hval % WORD, c)
  {
    Pow2Values();
    Pow2Sum(width - 32, 32);
    var q := Pow2(width - 32);
    ModOfMod(hval * 16 % Pow2(width) + c, q, WORD);
    ModOfMod(hval * 16, q, WORD);
    var a, b := hval * 16 % Pow2(width), hval * 16 % WORD;
    assert a % WORD == b;
    ModPlusMultiple(b + c, a / WORD, WORD);
    assert hval * 16 == (hval / WORD * 16) * WORD + hval % WORD * 16;
    ModPlusMultiple(hval % WORD * 16, hval / WORD * 16, WORD);
  }

  /** The low word of the hash does not depend on the width of the type, and stays
      below 2^28. */
  lemma {:induction false} HashLowWord(width: nat, text: seq<int>)
    requires width >= 32
    ensures Hash(width, text) % WORD == Hash(32, text) < TOP_NIBBLE
  {
    if text != [] {
      var n := |text| - 1;
      HashLowWord(width, text[..n]);
      HashLowWord(32, text[..n]);
      var h := Hash(width, text[..n]);
      ShiftedLowWord(width, h, text[n]);
      FoldedLowWord(Shifted(width, h, text[n]));
    }
  }

  /** Where `char` is signed, the wider sum carries past bit 31: for a single
      character of value -1 the 64-bit hash is not the 32-bit one. */
  lemma WiderHashDiffers()
    ensures Hash(64, [-1]) >= WORD > Hash(32, [-1])
  {
    HashLowWord(32, [-1]);
    HashOfOne(64, -1);
    ShiftedCarry();
    FoldedLowWord(Shifted(64, 0, -1));
  }

  lemma HashOfOne(width: nat, c: int)
    ensures Hash(width, [c]) == Folded(Shifted(width, 0, c))
  {
    assert [c][..0] == [];
  }

  lemma ShiftedCarry()
    ensures Shifted(64, 0, -1) == WORD * WORD - 1
  {
    Pow2Values();
    QuotientUnique(-1, -1, WORD * WORD - 1, WORD * WORD);
  }

  /** `hash_string` as it is written. */
  method HashString(width: nat, text: seq<int>) returns (hval: nat)
    requires width >= 32
    ensures hval == Hash(width, text)
  {
    hval := 0;
    assert text[..0] == [];
    for i := 0 to |text|
      invariant hval == Hash(width, text[..i])
    {
      assert text[..i + 1][..i] == text[..i];
      hval := hval * 16 % Pow2(width);
      hval := (hval + text[i]) % Pow2(width);
      var g := And(hval, 0xf000_0000);
      if g != 0 {
        hval := Xor(hval, g / 0x100_0000);
        hval := Xor(hval, g);
      }
    }
    assert text[..|text|] == text;
  }
}
