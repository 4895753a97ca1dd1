/** What the value of a plural expression means, without the evaluator's own cases. */
module PluralMeaning {
  import opened Options
  import opened PluralSyntax
  import opened PluralLexer
  import opened PluralEval
  import opened Arithmetic

  // ----- Comparisons -----

  /** Equality and order are those of the numbers, and the other comparisons come from these two. */
  lemma ComparisonLaws(a: Expr, b: Expr, n: nat, x: nat, y: nat)
    requires n < ULONG_MODULUS && Eval(a, n) == Some(x) && Eval(b, n) == Some(y)
    ensures Eval(Binary(Equal, a, b), n) == Some(if x == y then 1 else 0)
    ensures Eval(Binary(LessThan, a, b), n) == Some(if x < y then 1 else 0)
    ensures Eval(Binary(NotEqual, a, b), n) == Eval(LNot(Binary(Equal, a, b)), n)
    ensures Eval(Binary(GreaterOrEqual, a, b), n) == Eval(LNot(Binary(LessThan, a, b)), n)
    ensures Eval(Binary(GreaterThan, a, b), n) == Eval(Binary(LessThan, b, a), n)
    ensures Eval(Binary(LessOrEqual, a, b), n) == Eval(Binary(GreaterOrEqual, b, a), n)
  {
  }

  // ----- Arithmetic, by counting -----

  /** Counting on by one wraps around at the width of `unsigned long`. */
  function Next(x: nat): nat {
    if x + 1 == ULONG_MODULUS then 0 else x + 1
  }

  /** The number `y` steps after `x`. */
  function Counted(x: nat, y: nat): nat {
    if y == 0 then x else Next(Counted(x, y - 1))
  }

  /** `y` times `x`, by counting. */
  function Times(x: nat, y: nat): nat {
    if y == 0 then 0 else Counted(Times(x, y - 1), x)
  }

  lemma {:induction false} CountedIs(x: nat, y: nat)
    requires x < ULONG_MODULUS
    ensures Counted(x, y) == (x + y) % ULONG_MODULUS
  {
    if y > 0 {
      CountedIs(x, y - 1);
      NextIs(x + y - 1);
    }
  }

  lemma NextIs(z: nat)
    ensures Next(z % ULONG_MODULUS) == (z + 1) % ULONG_MODULUS
  {
  }

  lemma {:induction false} TimesIs(x: nat, y: nat)
    requires x < ULONG_MODULUS
    ensures Times(x, y) == Product(x, y) % ULONG_MODULUS
  {
    if y > 0 {
      TimesIs(x, y - 1);
      CountedIs(Times(x, y - 1), x);
      ProductNext(x, y);
      SumModulo(Product(x, y - 1), x, ULONG_MODULUS);
    }
  }

  lemma ProductNext(x: nat, y: nat)
    requires y > 0
    ensures Product(x, y) == Product(x, y - 1) + x
  {
  }

  lemma SumModulo(a: nat, b: nat, m: nat)
    requires m > 0
    ensures (a % m + b) % m == (a + b) % m
  {
    ModPlusMultiple(a % m + b, a / m, m);
  }

  /** Addition is counting on, and multiplication is counting on again and again. */
  lemma SumLaw(a: Expr, b: Expr, n: nat, x: nat, y: nat)
    requires n < ULONG_MODULUS && Eval(a, n) == Some(x) && Eval(b, n) == Some(y)
    ensures Eval(Binary(Plus, a, b), n) == Some(Counted(x, y))
  {
    CountedIs(x, y);
  }

  lemma ProductLaw(a: Expr, b: Expr, n: nat, x: nat, y: nat)
    requires n < ULONG_MODULUS && Eval(a, n) == Some(x) && Eval(b, n) == Some(y)
    ensures Eval(Binary(Mult, a, b), n) == Some(Times(x, y))
  {
    TimesIs(x, y);
  }

  /** Subtraction is undone by addition. */
  lemma DifferenceLaw(a: Expr, b: Expr, n: nat, x: nat, y: nat)
    requires n < ULONG_MODULUS && Eval(a, n) == Some(x) && Eval(b, n) == Some(y)
    ensures Eval(Binary(Plus, Binary(Minus, a, b), b), n) == Some(x)
  {
    Undone(x, y);
  }

  lemma Undone(x: nat, y: nat)
    requires x < ULONG_MODULUS && y < ULONG_MODULUS
    ensures ((x - y) % ULONG_MODULUS + y) % ULONG_MODULUS == x
  {
  }

  lemma Divided(x: nat, y: nat)
    requires y > 0
    ensures 0 <= x / y <= x && 0 <= x % y < y && Product(x / y, y) + x % y == x
  {
    DivideFits(x, y);
  }

  lemma DivisionValues(a: Expr, b: Expr, n: nat, x: nat, y: nat)
    requires n < ULONG_MODULUS && Eval(a, n) == Some(x) && Eval(b, n) == Some(y) && y > 0
    ensures Eval(Binary(Divide, a, b), n) == Some(x / y) && Eval(Binary(Module, a, b), n) == Some(x % y)
  {
  }

  lemma MultValue(a: Expr, b: Expr, n: nat, x: nat, y: nat)
    requires n < ULONG_MODULUS && Eval(a, n) == Some(x) && Eval(b, n) == Some(y)
    ensures Product(x, y) < ULONG_MODULUS ==> Eval(Binary(Mult, a, b), n) == Some(Product(x, y))
  {
  }

  /** Quotient and remainder make the dividend again, and the remainder is below the divisor. */
  lemma DivisionLaws(a: Expr, b: Expr, n: nat, x: nat, y: nat)
    requires n < ULONG_MODULUS && Eval(a, n) == Some(x) && Eval(b, n) == Some(y) && y > 0
    ensures Eval(Binary(Plus, Binary(Mult, Binary(Divide, a, b), b), Binary(Module, a, b)), n) == Some(x)
    ensures Eval(Binary(LessThan, Binary(Module, a, b), b), n) == Some(1)
    ensures Eval(Binary(LessOrEqual, Binary(Mult, Binary(Divide, a, b), b), a), n) == Some(1)
  {
    var quotient, remainder := Binary(Divide, a, b), Binary(Module, a, b);
    Divided(x, y);
    DivisionValues(a, b, n, x, y);
    MultValue(quotient, b, n, x / y, y);
    SumAndOrder(Binary(Mult, quotient, b), remainder, a, b, n, Product(x / y, y), x % y, x, y);
  }

  lemma SumAndOrder(p: Expr, r: Expr, a: Expr, b: Expr, n: nat, u: nat, v: nat, x: nat, y: nat)
    requires n < ULONG_MODULUS && Eval(p, n) == Some(u) && Eval(r, n) == Some(v)
    requires Eval(a, n) == Some(x) && Eval(b, n) == Some(y) && u + v == x && v < y
    ensures Eval(Binary(Plus, p, r), n) == Some(x)
    ensures Eval(Binary(LessThan, r, b), n) == Some(1) && Eval(Binary(LessOrEqual, p, a), n) == Some(1)
  {
  }

  // ----- Truth -----

  /** `!`, `|`, `&` and `?:` by the truth of their operands, with the operands that they skip. */
  lemma TruthLaws(a: Expr, b: Expr, c: Expr, n: nat, x: nat)
    requires n < ULONG_MODULUS && Eval(a, n) == Some(x)
    ensures Eval(LNot(a), n) == Some(if x == 0 then 1 else 0)
    ensures Eval(QMop(a, b, c), n) == if x == 0 then Eval(c, n) else Eval(b, n)
    ensures Eval(Binary(LOr, a, b), n) == if x == 0 then Eval(LNot(LNot(b)), n) else Some(1)
    ensures Eval(LNot(Binary(LAnd, a, b)), n) == Eval(Binary(LOr, LNot(a), LNot(b)), n)
  {
  }
}
