/** The character classes of the C locale. */
module CharClasses {

  predicate IsDigit(c: int) {
    48 <= c <= 57
  }

  predicate IsAlpha(c: int) {
    65 <= c <= 90 || 97 <= c <= 122
  }

  predicate IsAlnum(c: int) {
    IsAlpha(c) || IsDigit(c)
  }

  function ToLower(c: int): int {
    if 65 <= c <= 90 then c + 32 else c
  }
}
