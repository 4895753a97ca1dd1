/** When the file name built for a locale repeats the locale name it was split from. */
module LocaleRoundTrip {
  import opened Bits
  import opened CStrings
  import opened Codeset
  import opened ExplodeName
  import opened LocaleFile
  import opened LocaleMarks
  import Syntax = LocaleSyntax
  import opened Options
  import opened Sequences

  type Name = Syntax.Name
  type Bytes = Syntax.Bytes

  predicate Text(part: Option<Bytes>) {
    part.Some? ==> forall c | c in part.value :: 1 <= c <= 255
  }

  predicate IsText(x: Name) {
    && (forall c | c in x.language :: 1 <= c <= 255)
    && Text(x.territory) && Text(x.codeset) && Text(x.modifier)
    && Text(x.special) && Text(x.sponsor) && Text(x.revision)
  }

  function Value(part: Option<Bytes>): CString
    requires Text(part)
  {
    match part
    case None => []
    case Some(t) => t
  }

  /** The arguments that the file list gets for a name. */
  function PartsOf(x: Name): Parts
    requires IsText(x)
  {
    Parts(x.language, Value(x.territory), Value(x.codeset), Normalized(Value(x.codeset)),
          Value(x.modifier), Value(x.special), Value(x.sponsor), Value(x.revision))
  }

  /** The parts of a C string are C strings. */
  lemma ExplodeIsText(s: CString)
    ensures IsText(Syntax.Explode(s))
  {
    var x := Syntax.Explode(s);
    Syntax.ExplodeJoins(s);
    RejoinLeft(x);
    assert forall c :: c in Syntax.Rejoin(x) ==> 1 <= c <= 255;
    PartText(UNDERSCORE, x.territory, s);
    PartText(DOT, x.codeset, s);
    PartText(Syntax.MarkOf(x), x.modifier, s);
    PartText(PLUS, x.special, s);
    PartText(COMMA, x.sponsor, s);
    PartText(UNDERSCORE, x.revision, s);
  }

  lemma PartText(mark: int, part: Option<Bytes>, s: CString)
    requires forall c :: c in Syntax.Part(mark, part) ==> c in s
    ensures Text(part)
  {
    if part.Some? {
      forall c | c in part.value ensures 1 <= c <= 255 {
        assert c in Syntax.Part(mark, part);
      }
    }
  }

  lemma OddBit(high: nat, b: nat)
    requires b < 2
    ensures And(2 * high + b, 1) == b
  {
    var m := 2 * high + b;
    AndZero(high);
    assert m > 0 ==> And(m, 1) == (if m % 2 == 1 then 1 else 0) + 2 * And(m / 2, 0);
  }

  /** One bit of a word. */
  lemma BitOfWord(k: nat, high: nat, on: bool, low: nat)
    requires low < Pow2(k)
    ensures Has((2 * high + Bit(on, 1)) * Pow2(k) + low, Pow2(k)) <==> on
  {
    AndSplit(k, 2 * high + Bit(on, 1), low, 1, 0);
    AndZero(low);
    OddBit(high, Bit(on, 1));
  }

  lemma Powers()
    ensures Pow2(0) == 1 && Pow2(1) == 2 && Pow2(2) == 4 && Pow2(3) == 8
    ensures Pow2(4) == 16 && Pow2(5) == 32 && Pow2(6) == 64 && Pow2(7) == 128
  {
    assert Pow2(3) == 8;
  }

  lemma LowBits(high: nat, b3: bool, b2: bool, b1: bool, b0: bool)
    ensures var m := 16 * high + Bit(b3, 8) + Bit(b2, 4) + Bit(b1, 2) + Bit(b0, 1);
            (Has(m, 1) <==> b0) && (Has(m, 2) <==> b1) && (Has(m, 4) <==> b2) && (Has(m, 8) <==> b3)
  {
    Powers();
    var h2 := 2 * high + Bit(b3, 1);
    var h1 := 2 * h2 + Bit(b2, 1);
    var h0 := 2 * h1 + Bit(b1, 1);
    BitOfWord(3, high, b3, Bit(b2, 4) + Bit(b1, 2) + Bit(b0, 1));
    BitOfWord(2, h2, b2, Bit(b1, 2) + Bit(b0, 1));
    BitOfWord(1, h1, b1, Bit(b0, 1));
    BitOfWord(0, h0, b0, 0);
  }

  lemma HighBits(b7: bool, b6: bool, b5: bool, b4: bool, low: nat)
    requires low < 16
    ensures var m := Bit(b7, 128) + Bit(b6, 64) + Bit(b5, 32) + Bit(b4, 16) + low;
            (Has(m, 16) <==> b4) && (Has(m, 32) <==> b5) && (Has(m, 64) <==> b6) && (Has(m, 128) <==> b7)
  {
    Powers();
    var h6 := Bit(b7, 1);
    var h5 := 2 * h6 + Bit(b6, 1);
    var h4 := 2 * h5 + Bit(b5, 1);
    BitOfWord(7, 0, b7, Bit(b6, 64) + Bit(b5, 32) + Bit(b4, 16) + low);
    BitOfWord(6, h6, b6, Bit(b5, 32) + Bit(b4, 16) + low);
    BitOfWord(5, h5, b5, Bit(b4, 16) + low);
    BitOfWord(4, h4, b4, low);
  }

  predicate Keeps(x: Name, part: Option<Bytes>) {
    part.Some? && !(IsXpg(x) && Empty(part))
  }

  /** Which bits the mask of a name has. */
  lemma MaskBits(x: Name)
    ensures Has(Mask(x), TERRITORY) <==> Keeps(x, x.territory)
    ensures Has(Mask(x), CODESET) <==> x.codeset.Some? && x.codeset.value != []
    ensures Has(Mask(x), NORM_CODESET) <==> OtherCodeset(x)
    ensures Has(Mask(x), AUDIENCE) <==> x.modifier.Some?
    ensures Has(Mask(x), MODIFIER) <==> Keeps(x, x.modifier)
    ensures Has(Mask(x), SPECIAL) <==> x.special.Some?
    ensures Has(Mask(x), SPONSOR) <==> x.sponsor.Some?
    ensures Has(Mask(x), REVISION) <==> x.revision.Some?
  {
    var b7, b6, b5 := Keeps(x, x.modifier), x.modifier.Some?, Keeps(x, x.territory);
    var b4 := x.codeset.Some? && x.codeset.value != [];
    var high := Bit(b7, 8) + Bit(b6, 4) + Bit(b5, 2) + Bit(b4, 1);
    var low := Bit(OtherCodeset(x), 8) + TailMask(x);
    MaskParts(x, b7, b6, b5, b4);
    HighBits(b7, b6, b5, b4, low);
    LowBits(high, OtherCodeset(x), x.special.Some?, x.sponsor.Some?, x.revision.Some?);
    assert 16 * high + low == Mask(x);
  }

  lemma MaskParts(x: Name, b7: bool, b6: bool, b5: bool, b4: bool)
    requires b7 == Keeps(x, x.modifier) && b6 == x.modifier.Some? && b5 == Keeps(x, x.territory)
    requires b4 == (x.codeset.Some? && x.codeset.value != [])
    ensures Mask(x) == Bit(b7, 128) + Bit(b6, 64) + Bit(b5, 32) + Bit(b4, 16)
                       + (Bit(OtherCodeset(x), 8) + TailMask(x))
  {
  }

  /** What the file list makes of the front of a name. */
  function ShownFront(x: Name): Bytes {
    x.language
    + (if Keeps(x, x.territory) then Syntax.Part(UNDERSCORE, x.territory) else [])
    + (if Empty(x.codeset) then [] else Syntax.Part(DOT, x.codeset))
    + (if OtherCodeset(x) then [DOT] + Normalized(x.codeset.value) else [])
  }

  /** A comma goes before a revision even if there is no sponsor. */
  function ShownLast(x: Name): Bytes {
    if x.sponsor.None? && x.revision.Some? then [COMMA] + Syntax.Part(UNDERSCORE, x.revision)
    else Syntax.Part(COMMA, x.sponsor) + Syntax.Part(UNDERSCORE, x.revision)
  }

  /** A modifier is always shown in CEN syntax. */
  function ShownBack(x: Name): Bytes {
    Syntax.Part(PLUS, x.modifier) + Syntax.Part(PLUS, x.special) + ShownLast(x)
  }

  lemma FrontShown(x: Name)
    requires IsText(x)
    ensures FrontName(Mask(x), PartsOf(x)) == ShownFront(x)
  {
    MaskBits(x);
  }

  lemma LastShown(x: Name)
    requires IsText(x)
    ensures LastPieces(Mask(x), PartsOf(x)) == ShownLast(x)
  {
    MaskBits(x);
    EitherBit(Mask(x));
  }

  lemma BackShown(x: Name)
    requires IsText(x)
    ensures BackName(Mask(x), PartsOf(x)) == ShownBack(x)
  {
    MaskBits(x);
    EitherBit(Mask(x));
    LastShown(x);
  }

  /**
   * The names that come back unchanged: no modifier after `@`, no empty part or
   * codeset in another spelling in XPG syntax, and no revision without a sponsor.
   */
  predicate Plain(x: Name) {
    && !x.at
    && (x.codeset.Some? ==> !Empty(x.territory) && !Empty(x.codeset)
                            && x.codeset.value == Normalized(x.codeset.value))
    && (x.revision.Some? ==> x.sponsor.Some?)
  }

  function Back(x: Name): Bytes {
    Syntax.Part(Syntax.MarkOf(x), x.modifier) + Syntax.Part(PLUS, x.special)
    + (Syntax.Part(COMMA, x.sponsor) + Syntax.Part(UNDERSCORE, x.revision))
  }

  function Front(x: Name): Bytes {
    x.language + Syntax.Part(UNDERSCORE, x.territory) + Syntax.Part(DOT, x.codeset)
  }

  lemma FrontBack(x: Name)
    ensures Syntax.Rejoin(x) == Front(x) + Back(x)
  {
    RejoinLeft(x);
    Regroup3(Front(x), Syntax.Part(Syntax.MarkOf(x), x.modifier), Syntax.Part(PLUS, x.special),
             Syntax.Part(COMMA, x.sponsor), Syntax.Part(UNDERSCORE, x.revision));
  }

  lemma Regroup3(s: Bytes, a: Bytes, b: Bytes, c: Bytes, d: Bytes)
    ensures s + a + b + c + d == s + (a + b + (c + d))
  {
    Regroup(s, a, b);
    Regroup(s + a + b, c, d);
    Regroup(s, a + b, c + d);
  }

  /** In XPG syntax the two names can only agree in length if their fronts are the same. */
  lemma XpgFront(x: Name)
    requires Syntax.Valid(x) && IsXpg(x)
    ensures |ShownBack(x)| == |Back(x)|
    ensures |ShownFront(x)| == |Front(x)| ==> ShownFront(x) == Front(x)
    ensures ShownFront(x) == Front(x) <==>
            !Empty(x.territory) && !Empty(x.codeset) && !OtherCodeset(x)
  {
    if OtherCodeset(x) {
      NormalizedNotEmpty(x.codeset.value);
    }
  }

  lemma NormalizedNotEmpty(codeset: Bytes)
    ensures Normalized(codeset) != []
  {
    NormalizedOnce(codeset);
  }

  lemma SplitEqual(a: Bytes, b: Bytes, c: Bytes, d: Bytes)
    requires a + b == c + d && |a| == |c|
    ensures a == c && b == d
  {
    assert a == (a + b)[..|a|] && c == (c + d)[..|c|];
    assert b == (a + b)[|a|..] && d == (c + d)[|c|..];
  }

  lemma AtShown(x: Name)
    requires x.modifier.Some?
    ensures ShownBack(x)[0] == PLUS && Back(x)[0] == Syntax.MarkOf(x)
  {
  }

  lemma XpgRoundTrip(x: Name)
    requires Syntax.Valid(x) && IsXpg(x)
    ensures ShownFront(x) + ShownBack(x) == Front(x) + Back(x) <==> Plain(x)
  {
    XpgFront(x);
    assert x.at ==> ShownBack(x) != Back(x) by {
      if x.at {
        AtShown(x);
      }
    }
    if ShownFront(x) + ShownBack(x) == Front(x) + Back(x) {
      SplitEqual(ShownFront(x), ShownBack(x), Front(x), Back(x));
    }
  }

  lemma CenRoundTrip(x: Name)
    requires Syntax.Valid(x) && !IsXpg(x)
    ensures ShownFront(x) + ShownBack(x) == Front(x) + Back(x) <==> Plain(x)
  {
    assert ShownFront(x) == Front(x);
    if ShownFront(x) + ShownBack(x) == Front(x) + Back(x) {
      SplitEqual(ShownFront(x), ShownBack(x), Front(x), Back(x));
    }
  }

  /** Exactly when the most specific file name repeats the locale name. */
  lemma NameRoundTrip(s: CString)
    ensures IsText(Syntax.Explode(s))
    ensures LocaleName(Mask(Syntax.Explode(s)), PartsOf(Syntax.Explode(s))) == s <==>
            Plain(Syntax.Explode(s))
  {
    var x := Syntax.Explode(s);
    ExplodeIsText(s);
    Syntax.ExplodeJoins(s);
    FrontShown(x);
    BackShown(x);
    FrontBack(x);
    if IsXpg(x) {
      XpgRoundTrip(x);
    } else {
      CenRoundTrip(x);
    }
  }
}
