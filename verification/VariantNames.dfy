/** What the variants of a locale name are called. */
module VariantNames {
  import opened ArgzVector
  import opened Bits
  import opened CStrings
  import opened Codeset
  import opened ExplodeName
  import opened LocaleFile
  import opened LocaleMarks
  import opened LocaleRoundTrip
  import opened Options
  import opened Submasks
  import opened Variants
  import Syntax = LocaleSyntax

  function If(on: bool, part: Option<Bytes>): Option<Bytes> {
    if on then part else None
  }

  /**
   * The name with only the parts in `c`. A modifier follows `@` unless it is taken for an
   * audience, and the bit for the normalized codeset stands for its other spelling.
   */
  function Restricted(x: Name, c: nat): Name {
    Syntax.Name(
      x.language,
      If(Has(c, TERRITORY), x.territory),
      if Has(c, NORM_CODESET) && x.codeset.Some? then Some(Normalized(x.codeset.value)) else If(Has(c, CODESET), x.codeset),
      Has(c, MODIFIER) && !Has(c, AUDIENCE),
      If(Has(c, MODIFIER) || Has(c, AUDIENCE), x.modifier),
      If(Has(c, SPECIAL), x.special),
      If(Has(c, SPONSOR), x.sponsor),
      If(Has(c, REVISION), x.revision))
  }

  /** A bit of a submask is a bit of the mask. */
  lemma BitKept(c: nat, m: nat, bit: nat)
    requires Submask(c, m)
    ensures Has(c, bit) ==> Has(m, bit)
  {
    if !Has(m, bit) {
      SubmaskKeepsClear(c, m, bit);
    }
  }

  /** Every bit of a submask stands for a part that the name has. */
  lemma PartsThere(x: Name, c: nat)
    requires Submask(c, Mask(x))
    ensures Has(c, TERRITORY) ==> x.territory.Some?
    ensures Has(c, CODESET) || Has(c, NORM_CODESET) ==> x.codeset.Some?
    ensures Has(c, MODIFIER) || Has(c, AUDIENCE) ==> x.modifier.Some?
    ensures Has(c, SPECIAL) ==> x.special.Some?
    ensures Has(c, SPONSOR) ==> x.sponsor.Some?
    ensures Has(c, REVISION) ==> x.revision.Some?
  {
    MaskBits(x);
    BitKept(c, Mask(x), TERRITORY);
    BitKept(c, Mask(x), CODESET);
    BitKept(c, Mask(x), NORM_CODESET);
    BitKept(c, Mask(x), MODIFIER);
    BitKept(c, Mask(x), AUDIENCE);
    BitKept(c, Mask(x), SPECIAL);
    BitKept(c, Mask(x), SPONSOR);
    BitKept(c, Mask(x), REVISION);
  }

  lemma PieceIsPart(on: bool, mark: int, part: Option<Bytes>)
    requires Text(part) && 1 <= mark <= 255 && (on ==> part.Some?)
    ensures Piece(on, mark, Value(part)) == Syntax.Part(mark, If(on, part))
  {
  }

  lemma FrontOfVariant(x: Name, c: nat)
    requires IsText(x) && Submask(c, Mask(x)) && !(Has(c, CODESET) && Has(c, NORM_CODESET))
    ensures FrontName(c, PartsOf(x)) == Front(Restricted(x, c))
  {
    PartsThere(x, c);
    PieceIsPart(Has(c, TERRITORY), UNDERSCORE, x.territory);
    PieceIsPart(Has(c, CODESET), DOT, x.codeset);
  }

  lemma LastOfVariant(x: Name, c: nat)
    requires IsText(x) && Submask(c, Mask(x))
    ensures var y := Restricted(x, c);
            LastPieces(c, PartsOf(x)) ==
            (if Has(c, REVISION) && !Has(c, SPONSOR) then [COMMA] else [])
            + (Syntax.Part(COMMA, y.sponsor) + Syntax.Part(UNDERSCORE, y.revision))
  {
    PartsThere(x, c);
    EitherBit(c);
    PieceIsPart(Has(c, REVISION), UNDERSCORE, x.revision);
    var sponsor, revision := Value(x.sponsor), Syntax.Part(UNDERSCORE, If(Has(c, REVISION), x.revision));
    LastShapes([COMMA], sponsor, revision);
  }

  lemma LastShapes(m: Bytes, a: Bytes, b: Bytes)
    ensures m + (a + b) == [] + (m + a + b)
    ensures m + (a + []) == [] + (m + a + [])
    ensures [] + ([] + []) == m[..0]
  {
  }

  lemma ModifierOfVariant(x: Name, c: nat)
    requires IsText(x) && Submask(c, Mask(x))
    ensures var y := Restricted(x, c);
            Piece(Has(c, MODIFIER + AUDIENCE), ModifierMark(c), Value(x.modifier)) == Syntax.Part(Syntax.MarkOf(y), y.modifier)
    ensures Piece(Has(c, SPECIAL), PLUS, Value(x.special)) == Syntax.Part(PLUS, Restricted(x, c).special)
  {
    PartsThere(x, c);
    EitherBit(c);
    PieceIsPart(Has(c, SPECIAL), PLUS, x.special);
  }

  /**
   * The name of a variant is the locale name with the parts in its mask alone, unless it
   * has a revision without the sponsor, before which a comma is left over.
   */
  lemma VariantName(x: Name, c: nat)
    requires IsText(x) && Submask(c, Mask(x)) && !(Has(c, CODESET) && Has(c, NORM_CODESET))
    ensures LocaleName(c, PartsOf(x)) == Syntax.Rejoin(Restricted(x, c)) <==> (Has(c, REVISION) ==> Has(c, SPONSOR))
  {
    var y := Restricted(x, c);
    FrontOfVariant(x, c);
    ModifierOfVariant(x, c);
    LastOfVariant(x, c);
    FrontBack(y);
    var front := Syntax.Part(Syntax.MarkOf(y), y.modifier) + Syntax.Part(PLUS, y.special);
    var last := Syntax.Part(COMMA, y.sponsor) + Syntax.Part(UNDERSCORE, y.revision);
    if Has(c, REVISION) && !Has(c, SPONSOR) {
      assert |BackName(c, PartsOf(x))| == |front| + 1 + |last|;
    } else {
      assert [] + last == last;
    }
  }

  // ----- The name itself among the variants of an XPG name -----

  /** A name with a modifier after `@` and no empty parts. */
  predicate PlainXpg(x: Name) {
    && x.at && x.modifier.Some? && !Empty(x.modifier) && !Empty(x.territory) && !Empty(x.codeset)
  }

  /** The bits for the parts of an XPG name. */
  function XpgMask(x: Name): nat {
    Bit(x.territory.Some?, TERRITORY) + Bit(x.codeset.Some?, CODESET) + MODIFIER
  }

  lemma XpgHas(x: Name)
    requires PlainXpg(x)
    ensures var c := XpgMask(x);
            && (Has(c, TERRITORY) <==> x.territory.Some?) && (Has(c, CODESET) <==> x.codeset.Some?)
            && Has(c, MODIFIER) && !Has(c, AUDIENCE) && !Has(c, NORM_CODESET)
            && !Has(c, SPECIAL) && !Has(c, SPONSOR) && !Has(c, REVISION)
  {
    var b5, b4 := x.territory.Some?, x.codeset.Some?;
    HighBits(true, false, b5, b4, 0);
    LowBits(8 + Bit(b5, 2) + Bit(b4, 1), false, false, false, false);
  }

  /** What the mask of the name has besides. */
  function Besides(x: Name): nat {
    Bit(x.codeset.Some?, NORM_CODESET) + AUDIENCE
  }

  lemma XpgMaskOf(x: Name)
    requires Syntax.Valid(x) && PlainXpg(x)
    ensures Mask(x) == XpgMask(x) + Besides(x)
  {
  }

  lemma NormApart()
    ensures And(NORM_CODESET, AUDIENCE) == 0 && And(REVISION, SPONSOR) == 0 && And(REVISION + SPONSOR, SPECIAL) == 0
    ensures And(REVISION + SPONSOR + SPECIAL, AUDIENCE) == 0
  {
    AudienceApart();
  }

  /** A word is a submask of its sum with a disjoint one. */
  lemma {:induction false} SummandIsSubmask(c: nat, d: nat)
    requires And(c, d) == 0
    ensures Submask(c, c + d)
  {
    if c > 0 {
      DisjointBits(c, d);
      SummandIsSubmask(c / 2, d / 2);
    }
  }

  lemma NoCenBits(c: nat)
    requires !Has(c, REVISION) && !Has(c, SPONSOR) && !Has(c, SPECIAL) && !Has(c, AUDIENCE)
    ensures !Has(c, CEN_SPECIFIC)
  {
    NormApart();
    HasEither(c, REVISION, SPONSOR);
    HasEither(c, REVISION + SPONSOR, SPECIAL);
    HasEither(c, REVISION + SPONSOR + SPECIAL, AUDIENCE);
  }

  lemma XpgAllowed(x: Name)
    requires Syntax.Valid(x) && PlainXpg(x)
    ensures XpgMask(x) < Mask(x) && Allowed(XpgMask(x), Mask(x))
  {
    var c := XpgMask(x);
    XpgHas(x);
    XpgMaskOf(x);
    NormApart();
    HasEither(c, NORM_CODESET, AUDIENCE);
    SummandIsSubmask(c, Besides(x));
    NoCenBits(c);
  }

  lemma XpgRestricted(x: Name)
    requires PlainXpg(x)
    ensures Restricted(x, XpgMask(x)) == x || x.special.Some? || x.sponsor.Some? || x.revision.Some?
  {
    XpgHas(x);
  }

  lemma XpgNameIs(x: Name)
    requires Syntax.Valid(x) && PlainXpg(x) && IsText(x)
    ensures LocaleName(XpgMask(x), PartsOf(x)) == Syntax.Rejoin(x)
  {
    XpgAllowed(x);
    XpgHas(x);
    VariantName(x, XpgMask(x));
    XpgRestricted(x);
  }

  lemma InOneDirectory(d: CString, c: nat, parts: Parts, file: CString)
    ensures FileName([d], c, parts, file) == d + [SLASH] + LocaleName(c, parts) + [SLASH] + file
  {
    assert [d][..0] == [] && Marked([], COLON) + d == d;
  }

  lemma ExplodedXpg(s: CString) returns (x: Name)
    ensures x == Syntax.Explode(s) && IsText(x) && Syntax.Valid(x) && Syntax.Rejoin(x) == s
  {
    x := Syntax.Explode(s);
    ExplodeIsText(s);
    Syntax.ExplodeJoins(s);
  }

  /** A locale name with a modifier is the name of one of its own variants, so that its file is listed. */
  lemma XpgNameListed(s: CString, dirs: seq<CString>, d: CString, file: CString) returns (x: Name)
    requires PlainXpg(Syntax.Explode(s)) && d in dirs
    ensures x == Syntax.Explode(s) && IsText(x)
    ensures Variant(d, XpgMask(x)) in Wanted(dirs, Mask(x))
    ensures FileName([d], XpgMask(x), PartsOf(x), file) == d + [SLASH] + s + [SLASH] + file
  {
    x := ExplodedXpg(s);
    XpgAllowed(x);
    XpgNameIs(x);
    WantedMember(dirs, Mask(x), Variant(d, XpgMask(x)));
    InOneDirectory(d, XpgMask(x), PartsOf(x), file);
  }
}
