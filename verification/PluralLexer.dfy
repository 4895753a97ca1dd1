/** The scanner of plural expressions. Text is a C string: the character after
    the last one reads as NUL. */
module PluralLexer {
  import opened PluralSyntax
  import opened Arithmetic

  const YYEOF: int := 0
  const YYERRCODE: int := 256
  const EQUOP2: int := 257
  const CMPOP2: int := 258
  const ADDOP2: int := 259
  const MULOP2: int := 260
  const NUMBER: int := 261

  /** `unsigned long int` holds 64 bits. */
  const ULONG_MODULUS: nat := 0x1_0000_0000_0000_0000

  /** The semantic value of a stack entry: `YYSTYPE`, with its active member. */
  datatype Sem = SNone | SNum(num: nat) | SOp(op: Operator) | SExp(exp: Expr)

  function At(text: string, i: nat): char {
    if i < |text| then text[i] else '\0'
  }

  predicate IsBlank(c: char) {
    c == ' ' || c == '\t'
  }

  predicate IsDigit(c: char) {
    '0' <= c <= '9'
  }

  function DigitValue(c: char): nat
    requires IsDigit(c)
  {
    c as int - '0' as int
  }

  /** The number a string of digits denotes. */
  function Decimal(digits: string): nat
    requires forall c | c in digits :: IsDigit(c)
  {
    if digits == [] then 0
    else
      var n := |digits| - 1;
      10 * Decimal(digits[..n]) + DigitValue(digits[n])
  }

  function SkipBlanks(text: string, pos: nat): (p: nat)
    requires pos <= |text|
    ensures pos <= p <= |text| && !IsBlank(At(text, p))
    ensures forall i | pos <= i < p :: IsBlank(text[i])
    decreases |text| - pos
  {
    if IsBlank(At(text, pos)) then SkipBlanks(text, pos + 1) else pos
  }

  function DigitsEnd(text: string, pos: nat): (p: nat)
    requires pos <= |text|
    ensures pos <= p <= |text| && !IsDigit(At(text, p))
    ensures forall i | pos <= i < p :: IsDigit(text[i])
    decreases |text| - pos
  {
    if IsDigit(At(text, pos)) then DigitsEnd(text, pos + 1) else pos
  }

  /** The token that begins at `p`, a position after any blanks, and where the
      scanner stops. */
  function ScanAt(text: string, p: nat): (r: (Token, nat))
    requires p <= |text|
    ensures p <= r.1 <= |text| && (!r.0.TEof? ==> p < r.1)
  {
    var c, d := At(text, p), At(text, p + 1);
    if c == '\0' || c == ';' || c == '\n' then (TEof, p)
    else if IsDigit(c) then
      var e := DigitsEnd(text, p);
      (TNumber(Decimal(text[p..e]) % ULONG_MODULUS), e)
    else if c == '=' then (if d == '=' then (TOp(Equal), p + 2) else (TError, p + 1))
    else if c == '!' then (if d == '=' then (TOp(NotEqual), p + 2) else (TNot, p + 1))
    else if c == '&' then (if d == '&' then (TOp(LAnd), p + 2) else (TError, p + 1))
    else if c == '|' then (if d == '|' then (TOp(LOr), p + 2) else (TError, p + 1))
    else if c == '<' then (if d == '=' then (TOp(LessOrEqual), p + 2) else (TOp(LessThan), p + 1))
    else if c == '>' then (if d == '=' then (TOp(GreaterOrEqual), p + 2) else (TOp(GreaterThan), p + 1))
    else if c == '*' then (TOp(Mult), p + 1)
    else if c == '/' then (TOp(Divide), p + 1)
    else if c == '%' then (TOp(Module), p + 1)
    else if c == '+' then (TOp(Plus), p + 1)
    else if c == '-' then (TOp(Minus), p + 1)
    else if c == 'n' then (TVar, p + 1)
    else if c == '?' then (TQuestion, p + 1)
    else if c == ':' then (TColon, p + 1)
    else if c == '(' then (TLParen, p + 1)
    else if c == ')' then (TRParen, p + 1)
    else (TError, p + 1)
  }

  function Scan(text: string, pos: nat): (r: (Token, nat))
    requires pos <= |text|
    ensures pos <= r.1 <= |text| && (!r.0.TEof? ==> pos < r.1)
  {
    ScanAt(text, SkipBlanks(text, pos))
  }

  /** All tokens up to the end of the expression. */
  function Lex(text: string, pos: nat): (tokens: seq<Token>)
    requires pos <= |text|
    ensures TEof !in tokens
    decreases |text| - pos
  {
    var (t, next) := Scan(text, pos);
    if t.TEof? then [] else [t] + Lex(text, next)
  }

  /** The code by which the scanner reports a token. */
  function CodeOf(t: Token): int {
    match t
    case TEof => YYEOF
    case TError => YYERRCODE
    case TOp(LOr) => '|' as int
    case TOp(LAnd) => '&' as int
    case TOp(Equal) => EQUOP2
    case TOp(NotEqual) => EQUOP2
    case TOp(Plus) => ADDOP2
    case TOp(Minus) => ADDOP2
    case TOp(Mult) => MULOP2
    case TOp(Divide) => MULOP2
    case TOp(Module) => MULOP2
    case TOp(_) => CMPOP2
    case TNumber(_) => NUMBER
    case TNot => '!' as int
    case TQuestion => '?' as int
    case TColon => ':' as int
    case TVar => 'n' as int
    case TLParen => '(' as int
    case TRParen => ')' as int
  }

  /** Whether `v` is the semantic value that goes with `t`; a token without one
      leaves whatever was there. */
  predicate Carries(v: Sem, t: Token) {
    match t
    case TNumber(n) => v == SNum(n)
    case TOp(op) => OpLevel(op) >= 3 ==> v == SOp(op)
    case _ => true
  }

  lemma DecimalStep(text: string, p: nat, e: nat)
    requires p < e <= |text| && forall i | p <= i < e :: IsDigit(text[i])
    ensures Decimal(text[p..e]) == 10 * Decimal(text[p..e - 1]) + DigitValue(text[e - 1])
  {
    assert text[p..e][..e - p - 1] == text[p..e - 1];
  }

  lemma ModStep(a: nat, b: nat, m: nat)
    requires m > 0
    ensures ((a % m) * 10 % m + b) % m == (10 * a + b) % m
  {
    var q, r := a / m, a % m;
    var q2, r2 := (r * 10) / m, (r * 10) % m;
    assert 10 * a + b == (10 * q) * m + (q2 * m + (r2 + b));
    ModPlusMultiple(q2 * m + (r2 + b), 10 * q, m);
    ModPlusMultiple(r2 + b, q2, m);
  }

  lemma Accumulate(text: string, p: nat, e: nat)
    requires p <= e < |text| && forall i | p <= i <= e :: IsDigit(text[i])
    ensures (Decimal(text[p..e]) % ULONG_MODULUS * 10 % ULONG_MODULUS + DigitValue(text[e])) % ULONG_MODULUS
         == Decimal(text[p..e + 1]) % ULONG_MODULUS
  {
    DecimalStep(text, p, e + 1);
    ModStep(Decimal(text[p..e]), DigitValue(text[e]), ULONG_MODULUS);
  }

  /** Reads one number: the cursor stands behind its first digit. */
  method ScanNumber(text: string, start: nat) returns (n: nat, exp: nat)
    requires start < |text| && IsDigit(text[start])
    ensures exp == DigitsEnd(text, start)
    ensures n == Decimal(text[start..exp]) % ULONG_MODULUS
  {
    n := DigitValue(text[start]);
    exp := start + 1;
    DecimalStep(text, start, exp);
    assert text[start..start] == [];
    while IsDigit(At(text, exp))
      invariant start < exp <= |text|
      invariant forall i | start <= i < exp :: IsDigit(text[i])
      invariant DigitsEnd(text, start) == DigitsEnd(text, exp)
      invariant n == Decimal(text[start..exp]) % ULONG_MODULUS
      decreases |text| - exp
    {
      Accumulate(text, start, exp);
      n := n * 10 % ULONG_MODULUS;
      n := (n + DigitValue(text[exp])) % ULONG_MODULUS;
      exp := exp + 1;
    }
  }

  /** The scanner: the next token's code, its semantic value, and the new cursor. */
  method YyLex(text: string, pexp: nat, lval0: Sem) returns (result: int, lval: Sem, next: nat)
    requires pexp <= |text|
    ensures var (t, e) := Scan(text, pexp);
            result == CodeOf(t) && next == e && Carries(lval, t)
  {
    var exp := pexp;
    lval := lval0;
    while true
      invariant pexp <= exp <= |text|
      invariant SkipBlanks(text, pexp) == SkipBlanks(text, exp)
      decreases |text| - exp
    {
      if At(text, exp) == '\0' {
        return YYEOF, lval, exp;
      }
      if At(text, exp) != ' ' && At(text, exp) != '\t' {
        break;
      }
      exp := exp + 1;
    }

    var c := text[exp];
    exp := exp + 1;
    result := c as int;
    if IsDigit(c) {
      var n;
      n, exp := ScanNumber(text, exp - 1);
      lval := SNum(n);
      result := NUMBER;
    } else if c == '=' {
      if At(text, exp) == '=' {
        exp := exp + 1;
        lval := SOp(Equal);
        result := EQUOP2;
      } else {
        result := YYERRCODE;
      }
    } else if c == '!' {
      if At(text, exp) == '=' {
        exp := exp + 1;
        lval := SOp(NotEqual);
        result := EQUOP2;
      }
    } else if c == '&' || c == '|' {
      if At(text, exp) == c {
        exp := exp + 1;
      } else {
        result := YYERRCODE;
      }
    } else if c == '<' {
      if At(text, exp) == '=' {
        exp := exp + 1;
        lval := SOp(LessOrEqual);
      } else {
        lval := SOp(LessThan);
      }
      result := CMPOP2;
    } else if c == '>' {
      if At(text, exp) == '=' {
        exp := exp + 1;
        lval := SOp(GreaterOrEqual);
      } else {
        lval := SOp(GreaterThan);
      }
      result := CMPOP2;
    } else if c == '*' || c == '/' || c == '%' {
      lval := SOp(if c == '*' then Mult else if c == '/' then Divide else Module);
      result := MULOP2;
    } else if c == '+' || c == '-' {
      lval := SOp(if c == '+' then Plus else Minus);
      result := ADDOP2;
    } else if c == 'n' || c == '?' || c == ':' || c == '(' || c == ')' {
      // The character is its own code.
    } else if c == ';' || c == '\n' {
      exp := exp - 1;
      result := YYEOF;
    } else {
      result := YYERRCODE;
    }
    next := exp;
  }
}
