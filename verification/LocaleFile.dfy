/** The names of message catalogue files, and the variants of a locale name. */
module LocaleFile {
  import opened ArgzVector
  import opened Bits
  import opened CStrings
  import opened LocaleMarks

  /** The parts of a locale name. A part whose mask bit is clear is never looked at. */
  datatype Parts = Parts(
    language: CString, territory: CString, codeset: CString, normalized: CString,
    modifier: CString, special: CString, sponsor: CString, revision: CString)

  predicate Has(mask: nat, bits: nat) {
    And(mask, bits) != 0
  }

  function Piece(present: bool, mark: int, part: CString): CString
    requires 1 <= mark <= 255
  {
    if present then [mark] + part else []
  }

  function LastPieces(mask: nat, parts: Parts): CString {
    Piece(Has(mask, SPONSOR + REVISION), COMMA,
          (if Has(mask, SPONSOR) then parts.sponsor else [])
          + Piece(Has(mask, REVISION), UNDERSCORE, parts.revision))
  }

  function ModifierMark(mask: nat): int {
    if Has(mask, AUDIENCE) then PLUS else AT
  }

  /** The part of a locale name before the modifier. */
  function FrontName(mask: nat, parts: Parts): CString {
    parts.language
    + Piece(Has(mask, TERRITORY), UNDERSCORE, parts.territory)
    + Piece(Has(mask, CODESET), DOT, parts.codeset)
    + Piece(Has(mask, NORM_CODESET), DOT, parts.normalized)
  }

  /** The modifier and what follows it. */
  function BackName(mask: nat, parts: Parts): CString {
    Piece(Has(mask, MODIFIER + AUDIENCE), ModifierMark(mask), parts.modifier)
    + Piece(Has(mask, SPECIAL), PLUS, parts.special)
    + LastPieces(mask, parts)
  }

  /** The name of a locale restricted to the parts in `mask`. */
  function LocaleName(mask: nat, parts: Parts): CString {
    FrontName(mask, parts) + BackName(mask, parts)
  }

  function FileName(dirs: seq<CString>, mask: nat, parts: Parts, file: CString): CString
    requires dirs != []
  {
    Join(dirs, COLON) + [SLASH] + LocaleName(mask, parts) + [SLASH] + file
  }

  function PartSize(present: bool, part: CString): nat {
    if present then |part| + 1 else 0
  }

  function LastSize(mask: nat, parts: Parts): nat {
    if Has(mask, SPONSOR) || Has(mask, REVISION) then
      1 + PartSize(Has(mask, SPONSOR), parts.sponsor) + PartSize(Has(mask, REVISION), parts.revision)
    else 0
  }

  /** The size that is allocated for the name, for a directory list of `size` bytes. */
  function NameSize(size: nat, mask: nat, parts: Parts, file: CString): nat {
    size + |parts.language|
    + PartSize(Has(mask, TERRITORY), parts.territory)
    + PartSize(Has(mask, CODESET), parts.codeset)
    + PartSize(Has(mask, NORM_CODESET), parts.normalized)
    + PartSize(Has(mask, MODIFIER) || Has(mask, AUDIENCE), parts.modifier)
    + PartSize(Has(mask, SPECIAL), parts.special)
    + LastSize(mask, parts)
    + 1 + |file| + 1
  }

  /** Testing for either of two bits is testing for one or for the other. */
  lemma {:induction false} HasEither(mask: nat, a: nat, b: nat)
    requires And(a, b) == 0
    ensures And(mask, a + b) == And(mask, a) + And(mask, b)
  {
    if mask > 0 {
      DisjointBits(a, b);
      HasEither(mask / 2, a / 2, b / 2);
    }
  }

  /** Masking the sum of disjoint words. */
  lemma {:induction false} AndOfSum(x: nat, y: nat, c: nat)
    requires And(x, y) == 0
    ensures And(x + y, c) == And(x, c) + And(y, c)
    decreases x + y
  {
    if x + y > 0 {
      DisjointBits(x, y);
      AndOfSum(x / 2, y / 2, c / 2);
    }
  }

  lemma DisjointBits(a: nat, b: nat)
    requires And(a, b) == 0
    ensures And(a / 2, b / 2) == 0
    ensures (a + b) % 2 == a % 2 + b % 2 && (a + b) / 2 == a / 2 + b / 2
  {
    if a > 0 {
      assert And(a, b) == (if a % 2 == 1 && b % 2 == 1 then 1 else 0) + 2 * And(a / 2, b / 2);
      assert a % 2 == 0 || b % 2 == 0;
    }
  }

  lemma EitherBit(mask: nat)
    ensures Has(mask, MODIFIER + AUDIENCE) <==> Has(mask, MODIFIER) || Has(mask, AUDIENCE)
    ensures Has(mask, SPONSOR + REVISION) <==> Has(mask, SPONSOR) || Has(mask, REVISION)
  {
    HasEither(mask, MODIFIER, AUDIENCE);
    HasEither(mask, SPONSOR, REVISION);
  }

  lemma LastPiecesSize(mask: nat, parts: Parts)
    ensures LastSize(mask, parts) == |LastPieces(mask, parts)| + (if Has(mask, SPONSOR) then 1 else 0)
  {
    EitherBit(mask);
  }

  lemma FrontNameSize(mask: nat, parts: Parts)
    ensures |FrontName(mask, parts)| ==
            |parts.language|
            + PartSize(Has(mask, TERRITORY), parts.territory)
            + PartSize(Has(mask, CODESET), parts.codeset)
            + PartSize(Has(mask, NORM_CODESET), parts.normalized)
  {
  }

  lemma BackNameSize(mask: nat, parts: Parts)
    ensures |BackName(mask, parts)| ==
            PartSize(Has(mask, MODIFIER + AUDIENCE), parts.modifier)
            + PartSize(Has(mask, SPECIAL), parts.special)
            + |LastPieces(mask, parts)|
  {
  }

  /**
   * The name and its NUL always fit what is allocated for them. One byte is left
   * over if there is a sponsor, and none otherwise.
   */
  lemma NameFits(dirs: seq<CString>, mask: nat, parts: Parts, file: CString)
    requires dirs != []
    ensures NameSize(|Argz(dirs)|, mask, parts, file) ==
            |FileName(dirs, mask, parts, file)| + 1 + (if Has(mask, SPONSOR) then 1 else 0)
  {
    JoinSize(dirs, COLON);
    EitherBit(mask);
    FrontNameSize(mask, parts);
    BackNameSize(mask, parts);
    LastPiecesSize(mask, parts);
  }
}
