/** The usual plural rules, from their text to the form that they select for a number. */
module PluralRules {
  import opened Options
  import opened PluralSyntax
  import opened PluralLexer
  import opened PluralEval
  import opened PluralMeaning
  import opened PluralTheorems
  import opened PluralParser
  import opened PluralRoundTrip
  import opened PluralWriting

  // ----- From the text of a rule to the form it selects -----

  /** The rule of a catalogue that states none that can be read: the singular form for one alone. */
  const GERMANIC := Rule(Binary(NotEqual, Var, Num(1)), 2)

  /** What a catalogue's header comes to: the parsed rule, or the Germanic one. */
  method ReadRule(text: string, nplurals: nat) returns (rule: Rule)
    ensures forall c :: Reads(YYMAXDEPTH, c, Lex(text, 0)) ==> rule == Rule(Ast(c), nplurals)
    ensures (forall c :: !Reads(YYMAXDEPTH, c, Lex(text, 0))) ==> rule == GERMANIC
  {
    var ret, res := YyParse(text);
    if ret == 0 && res.Some? {
      rule := Rule(res.value, nplurals);
    } else {
      rule := GERMANIC;
    }
  }

  /** The variant for `n` by the rule in a catalogue's header, which reads as `c` and comes to `k`. */
  method SelectForm(text: string, nplurals: nat, n: nat, translation: string, ghost variants: seq<string>,
      ghost c: Cst, ghost k: nat)
    returns (start: Option<nat>)
    requires n < ULONG_MODULUS
    requires variants != [] && NulFree(variants) && translation == Block(variants)
    requires Reads(YYMAXDEPTH, c, Lex(text, 0)) && Eval(Ast(c), n) == Some(k) && k < nplurals && k < |variants|
    ensures start == Some(StartOf(variants, k))
  {
    var rule := ReadRule(text, nplurals);
    start := PluralLookup(rule.plural, rule.nplurals, n, translation, variants);
  }

  lemma ReadsByTokens(text: string, tokens: seq<Token>, c: Cst)
    requires Lex(text, 0) == tokens == Yield(c) && WellFormed(c) && 1 + Need(c) < YYMAXDEPTH
    ensures Reads(YYMAXDEPTH, c, Lex(text, 0))
  {
  }

  lemma LexesThree(text: string, a: Token, p: nat, b: Token, q: nat, c: Token, e: nat)
    requires p <= |text| && q <= |text| && e <= |text|
    requires Scan(text, 0) == (a, p) && Scan(text, p) == (b, q) && Scan(text, q) == (c, e)
    requires Scan(text, e).0.TEof? && !a.TEof? && !b.TEof? && !c.TEof?
    ensures Lex(text, 0) == [a, b, c]
  {
    assert Lex(text, e) == [];
    assert Lex(text, q) == [c];
    assert Lex(text, p) == [b] + [c];
  }

  lemma NotOneLexes()
    ensures Lex("n != 1", 0) == [TVar, TOp(NotEqual), TNumber(1)]
  {
    LexesThree("n != 1", TVar, 1, TOp(NotEqual), 4, TNumber(1), 6);
  }

  lemma AboveOneLexes()
    ensures Lex("n > 1", 0) == [TVar, TOp(GreaterThan), TNumber(1)]
  {
    LexesThree("n > 1", TVar, 1, TOp(GreaterThan), 3, TNumber(1), 5);
  }

  /** `n op m` for a numeral. */
  function Against(op: Operator, m: nat): Cst {
    CBinary(op, CVar, CNum(m))
  }

  lemma AgainstReads(text: string, op: Operator, m: nat)
    requires Lex(text, 0) == [TVar, TOp(op), TNumber(m)]
    ensures Reads(YYMAXDEPTH, Against(op, m), Lex(text, 0))
  {
    assert Yield(Against(op, m)) == [TVar] + [TOp(op)] + [TNumber(m)];
    ReadsByTokens(text, [TVar, TOp(op), TNumber(m)], Against(op, m));
  }

  lemma AgainstValues(op: Operator, n: nat, m: nat)
    requires n < ULONG_MODULUS && m < ULONG_MODULUS
    ensures Ast(Against(op, m)) == Binary(op, Var, Num(m)) && Eval(Var, n) == Some(n) && Eval(Num(m), n) == Some(m)
  {
  }

  lemma NotEqualIs(n: nat, m: nat)
    requires n < ULONG_MODULUS && m < ULONG_MODULUS
    ensures Eval(Ast(Against(NotEqual, m)), n) == Some(if n == m then 0 else 1)
  {
    AgainstValues(NotEqual, n, m);
    ComparisonLaws(Var, Num(m), n, n, m);
    TruthLaws(Binary(Equal, Var, Num(m)), Var, Var, n, if n == m then 1 else 0);
  }

  lemma AboveIs(n: nat, m: nat)
    requires n < ULONG_MODULUS && m < ULONG_MODULUS
    ensures Eval(Ast(Against(GreaterThan, m)), n) == Some(if n <= m then 0 else 1)
  {
    AgainstValues(GreaterThan, n, m);
    ComparisonLaws(Var, Num(m), n, n, m);
    ComparisonLaws(Num(m), Var, n, m, n);
  }

  /** With the rule `n != 1`: the first form for one, the second for all else. */
  method NotOneForm(n: nat, translation: string, ghost variants: seq<string>) returns (start: Option<nat>)
    requires n < ULONG_MODULUS && |variants| == 2 && NulFree(variants) && translation == Block(variants)
    ensures start == Some(StartOf(variants, if n == 1 then 0 else 1))
  {
    NotOneLexes();
    AgainstReads("n != 1", NotEqual, 1);
    NotEqualIs(n, 1);
    start := SelectForm("n != 1", 2, n, translation, variants, Against(NotEqual, 1), if n == 1 then 0 else 1);
  }

  /** With the rule `n > 1`: the first form for none and one, the second for more. */
  method AboveOneForm(n: nat, translation: string, ghost variants: seq<string>) returns (start: Option<nat>)
    requires n < ULONG_MODULUS && |variants| == 2 && NulFree(variants) && translation == Block(variants)
    ensures start == Some(StartOf(variants, if n <= 1 then 0 else 1))
  {
    AboveOneLexes();
    AgainstReads("n > 1", GreaterThan, 1);
    AboveIs(n, 1);
    start := SelectForm("n > 1", 2, n, translation, variants, Against(GreaterThan, 1), if n <= 1 then 0 else 1);
  }

  // ----- The arithmetic signs -----

  /** The text is read as a rule, and evaluates to these values. */
  ghost predicate Means(text: string, value: nat -> nat) {
    exists c :: Reads(YYMAXDEPTH, c, Lex(text, 0)) && Values(c, value)
  }

  ghost predicate Values(c: Cst, value: nat -> nat) {
    forall n: nat {:trigger Eval(Ast(c), n)} :: n < ULONG_MODULUS ==> Eval(Ast(c), n) == Some(value(n))
  }

  lemma MeansAgainst(text: string, op: Operator, m: nat, value: nat -> nat)
    requires Lex(text, 0) == [TVar, TOp(op), TNumber(m)]
    requires forall n: nat {:trigger Eval(Binary(op, Var, Num(m)), n)} | n < ULONG_MODULUS ::
               Eval(Binary(op, Var, Num(m)), n) == Some(value(n))
    ensures Means(text, value)
  {
    AgainstReads(text, op, m);
    assert Values(Against(op, m), value);
  }

  lemma SumValue(n: nat)
    requires n < ULONG_MODULUS
    ensures Eval(Binary(Plus, Var, Num(7)), n) == Some((n + 7) % ULONG_MODULUS)
  {
  }

  lemma SumLexes()
    ensures Lex("n + 7", 0) == [TVar, TOp(Plus), TNumber(7)]
  {
    LexesThree("n + 7", TVar, 1, TOp(Plus), 3, TNumber(7), 5);
  }

  /** What the arithmetic signs compute, from their text. */
  lemma SumMeans(value: nat -> nat)
    requires forall n: nat {:trigger value(n)} | n < ULONG_MODULUS ::
               value(n) == (n + 7) % ULONG_MODULUS
    ensures Means("n + 7", value)
  {
    forall n: nat | n < ULONG_MODULUS ensures Eval(Binary(Plus, Var, Num(7)), n) == Some(value(n)) {
      SumValue(n);
    }
    SumLexes();
    MeansAgainst("n + 7", Plus, 7, value);
  }

  lemma DifferenceValue(n: nat)
    requires n < ULONG_MODULUS
    ensures Eval(Binary(Minus, Var, Num(7)), n) == Some(if n < 7 then ULONG_MODULUS - 7 + n else n - 7)
  {
  }

  lemma DifferenceLexes()
    ensures Lex("n - 7", 0) == [TVar, TOp(Minus), TNumber(7)]
  {
    LexesThree("n - 7", TVar, 1, TOp(Minus), 3, TNumber(7), 5);
  }

  lemma DifferenceMeans(value: nat -> nat)
    requires forall n: nat {:trigger value(n)} | n < ULONG_MODULUS ::
               value(n) == if n < 7 then ULONG_MODULUS - 7 + n else n - 7
    ensures Means("n - 7", value)
  {
    forall n: nat | n < ULONG_MODULUS ensures Eval(Binary(Minus, Var, Num(7)), n) == Some(value(n)) {
      DifferenceValue(n);
    }
    DifferenceLexes();
    MeansAgainst("n - 7", Minus, 7, value);
  }

  lemma ProductValue(n: nat)
    requires n < ULONG_MODULUS
    ensures Eval(Binary(Mult, Var, Num(7)), n) == Some((n + n + n + n + n + n + n) % ULONG_MODULUS)
  {
  }

  lemma ProductLexes()
    ensures Lex("n * 7", 0) == [TVar, TOp(Mult), TNumber(7)]
  {
    LexesThree("n * 7", TVar, 1, TOp(Mult), 3, TNumber(7), 5);
  }

  lemma ProductMeans(value: nat -> nat)
    requires forall n: nat {:trigger value(n)} | n < ULONG_MODULUS ::
               value(n) == (n + n + n + n + n + n + n) % ULONG_MODULUS
    ensures Means("n * 7", value)
  {
    forall n: nat | n < ULONG_MODULUS ensures Eval(Binary(Mult, Var, Num(7)), n) == Some(value(n)) {
      ProductValue(n);
    }
    ProductLexes();
    MeansAgainst("n * 7", Mult, 7, value);
  }

  lemma QuotientValue(n: nat)
    requires n < ULONG_MODULUS
    ensures Eval(Binary(Divide, Var, Num(7)), n) == Some(n / 7)
  {
  }

  lemma QuotientLexes()
    ensures Lex("n / 7", 0) == [TVar, TOp(Divide), TNumber(7)]
  {
    LexesThree("n / 7", TVar, 1, TOp(Divide), 3, TNumber(7), 5);
  }

  lemma QuotientMeans(value: nat -> nat)
    requires forall n: nat {:trigger value(n)} | n < ULONG_MODULUS ::
               value(n) == n / 7
    ensures Means("n / 7", value)
  {
    forall n: nat | n < ULONG_MODULUS ensures Eval(Binary(Divide, Var, Num(7)), n) == Some(value(n)) {
      QuotientValue(n);
    }
    QuotientLexes();
    MeansAgainst("n / 7", Divide, 7, value);
  }

  lemma NegationMeans(value: nat -> nat)
    requires forall n: nat :: value(n) == if n == 0 then 1 else 0
    ensures Means("!n", value)
  {
    assert Scan("!n", 0) == (TNot, 1) && Scan("!n", 1) == (TVar, 2) && Scan("!n", 2).0.TEof?;
    assert Lex("!n", 2) == [];
    assert Lex("!n", 1) == [TVar] + [];
    assert Lex("!n", 0) == [TNot] + [TVar];
    var c := CNot(CVar);
    ReadsByTokens("!n", [TNot, TVar], c);
    assert Values(c, value);
  }

  // ----- The three forms of the Slavic languages -----

  function Residue(k: nat): Cst {
    CBinary(Module, CVar, CNum(k))
  }

  /** `n % k` compared with `m`. */
  function ResidueIs(op: Operator, k: nat, m: nat): Cst {
    CBinary(op, Residue(k), CNum(m))
  }

  /** `n%10==1 && n%100!=11`. */
  function One(): Cst {
    CBinary(LAnd, ResidueIs(Equal, 10, 1), ResidueIs(NotEqual, 100, 11))
  }

  /** `n%10>=2 && n%10<=4 && (n%100<10 || n%100>=20)`. */
  function Few(): Cst {
    CBinary(LAnd, CBinary(LAnd, ResidueIs(GreaterOrEqual, 10, 2), ResidueIs(LessOrEqual, 10, 4)),
            CParen(CBinary(LOr, ResidueIs(LessThan, 100, 10), ResidueIs(GreaterOrEqual, 100, 20))))
  }

  /** `One ? 0 : Few ? 1 : 2`. */
  function Slavic(): Cst {
    CCond(One(), CNum(0), CCond(Few(), CNum(1), CNum(2)))
  }

  /** The form, by the last digits of `n`. */
  function SlavicForm(n: nat): nat {
    var ones, tens := n % 10, n / 10 % 10;
    if ones == 1 && tens != 1 then 0 else if 2 <= ones <= 4 && tens != 1 then 1 else 2
  }

  lemma ResidueValue(k: nat, n: nat)
    requires 0 < k < ULONG_MODULUS && n < ULONG_MODULUS
    ensures Eval(Ast(Residue(k)), n) == Some(n % k) && n % k < ULONG_MODULUS
  {
    DivisionValues(Var, Num(k), n, n, k);
    Divided(n, k);
  }

  lemma ResidueCompared(k: nat, m: nat, n: nat)
    requires 0 < k < ULONG_MODULUS && m < ULONG_MODULUS && n < ULONG_MODULUS
    ensures Eval(Ast(ResidueIs(Equal, k, m)), n) == Some(if n % k == m then 1 else 0)
    ensures Eval(Ast(ResidueIs(NotEqual, k, m)), n) == Some(if n % k == m then 0 else 1)
    ensures Eval(Ast(ResidueIs(LessThan, k, m)), n) == Some(if n % k < m then 1 else 0)
    ensures Eval(Ast(ResidueIs(GreaterOrEqual, k, m)), n) == Some(if n % k < m then 0 else 1)
    ensures Eval(Ast(ResidueIs(LessOrEqual, k, m)), n) == Some(if n % k <= m then 1 else 0)
  {
    ResidueValue(k, n);
    Compared(Ast(Residue(k)), Num(m), n, n % k, m);
  }

  lemma Compared(a: Expr, b: Expr, n: nat, x: nat, y: nat)
    requires n < ULONG_MODULUS && Eval(a, n) == Some(x) && Eval(b, n) == Some(y)
    ensures Eval(Binary(Equal, a, b), n) == Some(if x == y then 1 else 0)
    ensures Eval(Binary(NotEqual, a, b), n) == Some(if x == y then 0 else 1)
    ensures Eval(Binary(LessThan, a, b), n) == Some(if x < y then 1 else 0)
    ensures Eval(Binary(GreaterOrEqual, a, b), n) == Some(if x < y then 0 else 1)
    ensures Eval(Binary(LessOrEqual, a, b), n) == Some(if x <= y then 1 else 0)
  {
    ComparisonLaws(a, b, n, x, y);
    ComparisonLaws(b, a, n, y, x);
    TruthLaws(Binary(Equal, a, b), a, a, n, if x == y then 1 else 0);
    TruthLaws(Binary(LessThan, a, b), a, a, n, if x < y then 1 else 0);
    TruthLaws(Binary(LessThan, b, a), a, a, n, if y < x then 1 else 0);
  }

  lemma Both(a: Expr, b: Expr, n: nat, p: bool, q: bool)
    requires n < ULONG_MODULUS
    requires Eval(a, n) == Some(if p then 1 else 0) && Eval(b, n) == Some(if q then 1 else 0)
    ensures Eval(Binary(LAnd, a, b), n) == Some(if p && q then 1 else 0)
    ensures Eval(Binary(LOr, a, b), n) == Some(if p || q then 1 else 0)
  {
  }

  lemma OneIs(n: nat)
    requires n < ULONG_MODULUS
    ensures Eval(Ast(One()), n) == Some(if n % 10 == 1 && n % 100 != 11 then 1 else 0)
  {
    ResidueCompared(10, 1, n);
    ResidueCompared(100, 11, n);
    Both(Ast(ResidueIs(Equal, 10, 1)), Ast(ResidueIs(NotEqual, 100, 11)), n, n % 10 == 1, n % 100 != 11);
  }

  lemma FewIs(n: nat)
    requires n < ULONG_MODULUS
    ensures Eval(Ast(Few()), n) ==
            Some(if (n % 10 >= 2 && n % 10 <= 4) && (n % 100 < 10 || n % 100 >= 20) then 1 else 0)
  {
    ResidueCompared(10, 2, n);
    ResidueCompared(10, 4, n);
    ResidueCompared(100, 10, n);
    ResidueCompared(100, 20, n);
    var a, b := Ast(ResidueIs(GreaterOrEqual, 10, 2)), Ast(ResidueIs(LessOrEqual, 10, 4));
    var c, d := Ast(ResidueIs(LessThan, 100, 10)), Ast(ResidueIs(GreaterOrEqual, 100, 20));
    Both(a, b, n, n % 10 >= 2, n % 10 <= 4);
    Both(c, d, n, n % 100 < 10, n % 100 >= 20);
    Both(Binary(LAnd, a, b), Binary(LOr, c, d), n, n % 10 >= 2 && n % 10 <= 4, n % 100 < 10 || n % 100 >= 20);
  }

  lemma SlavicDigits(n: nat)
    ensures SlavicForm(n) ==
            if n % 10 == 1 && n % 100 != 11 then 0
            else if (n % 10 >= 2 && n % 10 <= 4) && (n % 100 < 10 || n % 100 >= 20) then 1 else 2
  {
    assert n % 100 == 10 * (n / 10 % 10) + n % 10;
  }

  lemma Chosen(a: Expr, b: Expr, c: Expr, n: nat, p: bool)
    requires n < ULONG_MODULUS && Eval(a, n) == Some(if p then 1 else 0)
    ensures Eval(QMop(a, b, c), n) == if p then Eval(b, n) else Eval(c, n)
  {
    TruthLaws(a, b, c, n, if p then 1 else 0);
  }

  lemma SlavicIs(n: nat)
    requires n < ULONG_MODULUS
    ensures Eval(Ast(Slavic()), n) == Some(SlavicForm(n))
  {
    OneIs(n);
    FewIs(n);
    SlavicDigits(n);
    var one, few := n % 10 == 1 && n % 100 != 11, (n % 10 >= 2 && n % 10 <= 4) && (n % 100 < 10 || n % 100 >= 20);
    Chosen(Ast(Few()), Num(1), Num(2), n, few);
    Chosen(Ast(One()), Num(0), QMop(Ast(Few()), Num(1), Num(2)), n, one);
  }

  // ----- Its text -----

  function OneText(): string {
    "n%10==1" + " && " + "n%100!=11"
  }

  function FewText(): string {
    "n%10>=2" + " && " + "n%10<=4" + " && " + ("(" + ("n%100<10" + " || " + "n%100>=20") + ")")
  }

  function SlavicText(): string {
    OneText() + " ? " + "0" + " : " + (FewText() + " ? " + "1" + " : " + "2")
  }

  lemma BinarySpaced(op: Operator, l: Cst, r: Cst)
    requires NumbersFit(Ast(l)) && NumbersFit(Ast(r))
    ensures NumbersFit(Ast(CBinary(op, l, r))) && Spaced(CBinary(op, l, r)) == Spaced(l) + Sign(op) + Spaced(r)
  {
  }

  lemma ParenSpaced(c: Cst)
    requires NumbersFit(Ast(c))
    ensures NumbersFit(Ast(CParen(c))) && Spaced(CParen(c)) == "(" + Spaced(c) + ")"
  {
  }

  lemma CondSpaced(b: Cst, x: Cst, y: Cst)
    requires NumbersFit(Ast(b)) && NumbersFit(Ast(x)) && NumbersFit(Ast(y))
    ensures NumbersFit(Ast(CCond(b, x, y)))
    ensures Spaced(CCond(b, x, y)) == Spaced(b) + " ? " + Spaced(x) + " : " + Spaced(y)
  {
  }

  lemma NumberSpaced(k: nat, numeral: string)
    requires k < ULONG_MODULUS && ToDecimal(k) == numeral
    ensures NumbersFit(Ast(CNum(k))) && Spaced(CNum(k)) == numeral
  {
  }

  lemma ResidueSpaced(op: Operator, sign: string, k: nat, ks: string, m: nat, ms: string, text: string)
    requires op != LAnd && op != LOr && Spell(TOp(op)) == sign && text == "n" + "%" + ks + sign + ms
    requires k < ULONG_MODULUS && m < ULONG_MODULUS && ToDecimal(k) == ks && ToDecimal(m) == ms
    ensures NumbersFit(Ast(ResidueIs(op, k, m))) && Spaced(ResidueIs(op, k, m)) == text
  {
    NumberSpaced(k, ks);
    NumberSpaced(m, ms);
    BinarySpaced(Module, CVar, CNum(k));
    BinarySpaced(op, Residue(k), CNum(m));
    assert Sign(Module) == "%" && Sign(op) == sign;
  }

  lemma Numerals()
    ensures ToDecimal(0) == "0" && ToDecimal(1) == "1" && ToDecimal(2) == "2" && ToDecimal(4) == "4"
    ensures ToDecimal(10) == "10" && ToDecimal(11) == "11" && ToDecimal(20) == "20" && ToDecimal(100) == "100"
  {
  }

  lemma Comparisons()
    ensures "n" + "%" + "10" + "==" + "1" == "n%10==1" && "n" + "%" + "100" + "!=" + "11" == "n%100!=11"
    ensures "n" + "%" + "10" + ">=" + "2" == "n%10>=2" && "n" + "%" + "10" + "<=" + "4" == "n%10<=4"
    ensures "n" + "%" + "100" + "<" + "10" == "n%100<10" && "n" + "%" + "100" + ">=" + "20" == "n%100>=20"
  {
  }

  lemma Signs()
    ensures Sign(LAnd) == " && " && Sign(LOr) == " || "
  {
  }

  /** A comparison of a residue is well-formed and needs little of the stack. */
  lemma ResidueFits(op: Operator, k: nat, m: nat)
    requires 3 <= OpLevel(op) <= 4
    ensures WellFormed(ResidueIs(op, k, m)) && Need(ResidueIs(op, k, m)) == 3
    ensures Level(ResidueIs(op, k, m)) == OpLevel(op)
  {
    assert WellFormed(Residue(k)) && Level(Residue(k)) == 6 && Need(Residue(k)) == 3;
  }

  /** A tree that is well-formed, needs at most `need` of the stack and is written as `text`. */
  ghost predicate Writes(c: Cst, level: nat, need: nat, text: string) {
    WellFormed(c) && Level(c) == level && Need(c) <= need && NumbersFit(Ast(c)) && Spaced(c) == text
  }

  lemma WritesBinary(op: Operator, sign: string, l: Cst, r: Cst, a: nat, b: nat, need: nat, x: string, y: string)
    requires Writes(l, a, need, x) && Writes(r, b, need, y) && a >= OpLevel(op) && b > OpLevel(op) && Sign(op) == sign
    ensures Writes(CBinary(op, l, r), OpLevel(op), 2 + need, x + sign + y)
  {
    BinarySpaced(op, l, r);
  }

  lemma WritesParen(c: Cst, a: nat, need: nat, x: string)
    requires Writes(c, a, need, x)
    ensures Writes(CParen(c), 7, 2 + need, "(" + x + ")")
  {
    ParenSpaced(c);
  }

  lemma WritesCond(b: Cst, x: Cst, y: Cst, l: nat, m: nat, k: nat, need: nat, p: string, q: string, r: string)
    requires Writes(b, l, need, p) && Writes(x, m, need, q) && Writes(y, k, need, r) && l >= 1
    ensures Writes(CCond(b, x, y), 0, 4 + need, p + " ? " + q + " : " + r)
  {
    CondSpaced(b, x, y);
  }

  lemma WritesMore(c: Cst, a: nat, need: nat, more: nat, x: string)
    requires Writes(c, a, need, x) && need <= more
    ensures Writes(c, a, more, x)
  {
  }

  lemma WritesNumber(k: nat, numeral: string)
    requires k < ULONG_MODULUS && ToDecimal(k) == numeral
    ensures Writes(CNum(k), 7, 1, numeral)
  {
    NumberSpaced(k, numeral);
  }

  lemma WritesResidue(op: Operator, sign: string, k: nat, ks: string, m: nat, ms: string, text: string)
    requires 3 <= OpLevel(op) <= 4 && Spell(TOp(op)) == sign && text == "n" + "%" + ks + sign + ms
    requires k < ULONG_MODULUS && m < ULONG_MODULUS && ToDecimal(k) == ks && ToDecimal(m) == ms
    ensures Writes(ResidueIs(op, k, m), OpLevel(op), 3, text)
  {
    ResidueFits(op, k, m);
    ResidueSpaced(op, sign, k, ks, m, ms, text);
  }

  lemma EqualityWritten()
    ensures Writes(ResidueIs(Equal, 10, 1), 3, 3, "n%10==1") && Writes(ResidueIs(NotEqual, 100, 11), 3, 3, "n%100!=11")
  {
    Numerals();
    Comparisons();
    WritesResidue(Equal, "==", 10, "10", 1, "1", "n%10==1");
    WritesResidue(NotEqual, "!=", 100, "100", 11, "11", "n%100!=11");
  }

  lemma OnesWritten()
    ensures Writes(ResidueIs(GreaterOrEqual, 10, 2), 4, 3, "n%10>=2")
    ensures Writes(ResidueIs(LessOrEqual, 10, 4), 4, 3, "n%10<=4")
  {
    Numerals();
    Comparisons();
    WritesResidue(GreaterOrEqual, ">=", 10, "10", 2, "2", "n%10>=2");
    WritesResidue(LessOrEqual, "<=", 10, "10", 4, "4", "n%10<=4");
  }

  lemma TensWritten()
    ensures Writes(ResidueIs(LessThan, 100, 10), 4, 3, "n%100<10")
    ensures Writes(ResidueIs(GreaterOrEqual, 100, 20), 4, 3, "n%100>=20")
  {
    Numerals();
    Comparisons();
    WritesResidue(LessThan, "<", 100, "100", 10, "10", "n%100<10");
    WritesResidue(GreaterOrEqual, ">=", 100, "100", 20, "20", "n%100>=20");
  }

  lemma WritesAnd(a: Cst, b: Cst, level: nat, x: string, y: string)
    requires Writes(a, level, 3, x) && Writes(b, level, 3, y) && level > 2
    ensures Writes(CBinary(LAnd, a, b), 2, 5, x + " && " + y)
  {
    Signs();
    WritesBinary(LAnd, " && ", a, b, level, level, 3, x, y);
  }

  lemma WritesOr(a: Cst, b: Cst, level: nat, x: string, y: string)
    requires Writes(a, level, 3, x) && Writes(b, level, 3, y) && level > 1
    ensures Writes(CParen(CBinary(LOr, a, b)), 7, 7, "(" + (x + " || " + y) + ")")
  {
    Signs();
    WritesBinary(LOr, " || ", a, b, level, level, 3, x, y);
    WritesParen(CBinary(LOr, a, b), 1, 5, x + " || " + y);
  }

  lemma OneWritten()
    ensures Writes(One(), 2, 5, OneText())
  {
    EqualityWritten();
    WritesAnd(ResidueIs(Equal, 10, 1), ResidueIs(NotEqual, 100, 11), 3, "n%10==1", "n%100!=11");
  }

  lemma FewWritten()
    ensures Writes(Few(), 2, 9, FewText())
  {
    OnesWritten();
    TensWritten();
    Signs();
    var a := CBinary(LAnd, ResidueIs(GreaterOrEqual, 10, 2), ResidueIs(LessOrEqual, 10, 4));
    var b := CParen(CBinary(LOr, ResidueIs(LessThan, 100, 10), ResidueIs(GreaterOrEqual, 100, 20)));
    var x, y := "n%10>=2" + " && " + "n%10<=4", "(" + ("n%100<10" + " || " + "n%100>=20") + ")";
    WritesAnd(ResidueIs(GreaterOrEqual, 10, 2), ResidueIs(LessOrEqual, 10, 4), 4, "n%10>=2", "n%10<=4");
    WritesOr(ResidueIs(LessThan, 100, 10), ResidueIs(GreaterOrEqual, 100, 20), 4, "n%100<10", "n%100>=20");
    WritesMore(a, 2, 5, 7, x);
    WritesBinary(LAnd, " && ", a, b, 2, 7, 7, x, y);
  }

  lemma SlavicWritten()
    ensures Writes(Slavic(), 0, 17, SlavicText())
  {
    Numerals();
    OneWritten();
    FewWritten();
    WritesNumber(0, "0");
    WritesNumber(1, "1");
    WritesNumber(2, "2");
    WritesMore(CNum(1), 7, 1, 9, "1");
    WritesMore(CNum(2), 7, 1, 9, "2");
    WritesCond(Few(), CNum(1), CNum(2), 2, 7, 7, 9, FewText(), "1", "2");
    WritesMore(One(), 2, 5, 13, OneText());
    WritesMore(CNum(0), 7, 1, 13, "0");
    var rest := FewText() + " ? " + "1" + " : " + "2";
    WritesCond(One(), CNum(0), CCond(Few(), CNum(1), CNum(2)), 2, 7, 0, 13, OneText(), "0", rest);
  }

  lemma WrittenReads(c: Cst, level: nat, need: nat, text: string, tail: string)
    requires Writes(c, level, need, text) && 1 + need < YYMAXDEPTH && EndsExpr(tail)
    ensures Reads(YYMAXDEPTH, c, Lex(text + tail, 0))
  {
    SpacedReads(c, tail);
  }

  lemma SlavicReads(tail: string, n: nat) returns (c: Cst)
    requires n < ULONG_MODULUS && EndsExpr(tail)
    ensures Reads(YYMAXDEPTH, c, Lex(SlavicText() + tail, 0)) && Eval(Ast(c), n) == Some(SlavicForm(n))
  {
    c := Slavic();
    SlavicWritten();
    WrittenReads(c, 0, 17, SlavicText(), tail);
    SlavicIs(n);
  }

  /** With the three-form rule, and whatever ends it: the form that the last digits of `n` ask for. */
  method SlavicSelects(tail: string, n: nat, translation: string, ghost variants: seq<string>)
    returns (start: Option<nat>)
    requires n < ULONG_MODULUS && |variants| == 3 && NulFree(variants) && translation == Block(variants)
    requires EndsExpr(tail)
    ensures start == Some(StartOf(variants, SlavicForm(n)))
  {
    ghost var c := SlavicReads(tail, n);
    start := SelectForm(SlavicText() + tail, 3, n, translation, variants, c, SlavicForm(n));
  }
}
