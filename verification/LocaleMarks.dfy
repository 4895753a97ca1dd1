/** The bytes and the mask bits that stand for the parts of a locale name. */
module LocaleMarks {

  const SLASH := 47
  const COLON := 58

  const UNDERSCORE := 95
  const DOT := 46
  const AT := 64
  const PLUS := 43
  const COMMA := 44

  const REVISION := 1
  const SPONSOR := 2
  const SPECIAL := 4
  const NORM_CODESET := 8
  const CODESET := 16
  const TERRITORY := 32
  const AUDIENCE := 64
  const MODIFIER := 128

  /** The bits of the two syntaxes for locale names. */
  const CEN_SPECIFIC := REVISION + SPONSOR + SPECIAL + AUDIENCE
  const XPG_SPECIFIC := CODESET + NORM_CODESET + MODIFIER
}
