/** Printing an expression with the parentheses its precedence requires and
    parsing the text gives the expression back. */
module PluralRoundTrip {
  import opened Options
  import opened PluralSyntax
  import opened PluralLexer
  import opened PluralPrecedence
  import opened PluralMachine
  import opened PluralTheorems
  import opened PluralParser

  // ----- From expressions to concrete syntax -----

  function Bracket(c: Cst, level: nat): (r: Cst)
    requires level <= 7
    ensures Level(r) >= level && Ast(r) == Ast(c) && WellFormed(r) == WellFormed(c)
  {
    if Level(c) >= level then c else CParen(c)
  }

  /** The concrete syntax with only the parentheses that are needed. */
  function Minimal(e: Expr): Cst {
    match e
    case Var => CVar
    case Num(n) => CNum(n)
    case LNot(a) => CNot(Bracket(Minimal(a), 7))
    case Binary(op, l, r) =>
      CBinary(op, Bracket(Minimal(l), OpLevel(op)), Bracket(Minimal(r), OpLevel(op) + 1))
    case QMop(b, t, f) => CCond(Bracket(Minimal(b), 1), Minimal(t), Minimal(f))
  }

  lemma {:induction false} MinimalDenotes(e: Expr)
    ensures WellFormed(Minimal(e)) && Ast(Minimal(e)) == e
  {
    match e
    case Var =>
    case Num(_) =>
    case LNot(a) => MinimalDenotes(a);
    case Binary(_, l, r) => MinimalDenotes(l); MinimalDenotes(r);
    case QMop(b, t, f) => MinimalDenotes(b); MinimalDenotes(t); MinimalDenotes(f);
  }

  /** How many tokens a tree has. */
  function Length(c: Cst): nat {
    match c
    case CVar => 1
    case CNum(_) => 1
    case CParen(i) => Length(i) + 2
    case CNot(a) => 1 + Length(a)
    case CBinary(_, l, r) => Length(l) + 1 + Length(r)
    case CCond(b, t, f) => Length(b) + 1 + Length(t) + 1 + Length(f)
  }

  lemma {:induction false} YieldLength(c: Cst)
    ensures |Yield(c)| == Length(c)
  {
    match c
    case CVar =>
    case CNum(_) =>
    case CParen(i) => YieldLength(i);
    case CNot(a) => YieldLength(a);
    case CBinary(_, l, r) => YieldLength(l); YieldLength(r);
    case CCond(b, t, f) => YieldLength(b); YieldLength(t); YieldLength(f);
  }

  lemma {:induction false} BracketIsShortest(c: Cst, level: nat)
    requires WellFormed(c) && level <= Level(c)
    ensures Length(Bracket(Minimal(Ast(c)), level)) <= Length(c)
    decreases c, 1
  {
    match c
    case CVar =>
    case CNum(_) =>
    case CParen(i) => BracketIsShortest(i, 0);
    case CNot(a) => BracketIsShortest(a, 7);
    case CBinary(_, _, _) => BinaryIsShortest(c);
    case CCond(_, _, _) => CondIsShortest(c);
  }

  lemma {:induction false} CondIsShortest(c: Cst)
    requires WellFormed(c) && c.CCond?
    ensures Length(Minimal(Ast(c))) <= Length(c)
    decreases c, 0
  {
    BracketIsShortest(c.cond, 1);
    BracketIsShortest(c.tbranch, 0);
    BracketIsShortest(c.fbranch, 0);
    var b, t, f := Minimal(Ast(c.cond)), Minimal(Ast(c.tbranch)), Minimal(Ast(c.fbranch));
    CondLength(Bracket(b, 1), Bracket(t, 0), Bracket(f, 0), c.cond, c.tbranch, c.fbranch);
    assert Minimal(Ast(c)) == CCond(Bracket(b, 1), Bracket(t, 0), Bracket(f, 0));
  }

  lemma {:induction false} CondLength(b: Cst, t: Cst, f: Cst, b': Cst, t': Cst, f': Cst)
    requires Length(b) <= Length(b') && Length(t) <= Length(t') && Length(f) <= Length(f')
    ensures Length(CCond(b, t, f)) <= Length(CCond(b', t', f'))
  {
  }

  lemma {:induction false} BinaryIsShortest(c: Cst)
    requires WellFormed(c) && c.CBinary?
    ensures Length(Minimal(Ast(c))) <= Length(c)
    decreases c, 0
  {
    BracketIsShortest(c.left, OpLevel(c.op));
    BracketIsShortest(c.right, OpLevel(c.op) + 1);
  }

  /** No other way of writing the expression has fewer tokens. */
  lemma MinimalIsShortest(c: Cst)
    requires WellFormed(c)
    ensures |Yield(Minimal(Ast(c)))| <= |Yield(c)|
  {
    BracketIsShortest(c, 0);
    YieldLength(c);
    YieldLength(Minimal(Ast(c)));
  }

  // ----- From tokens to text -----

  function Digit(d: nat): char
    requires d < 10
  {
    ('0' as int + d) as char
  }

  function ToDecimal(n: nat): (s: string)
    ensures s != "" && forall c | c in s :: IsDigit(c)
    ensures Decimal(s) == n
  {
    if n < 10 then
      var s := [Digit(n)];
      assert s[..0] == [];
      s
    else
      var front := ToDecimal(n / 10);
      var s := front + [Digit(n % 10)];
      assert s[..|s| - 1] == front;
      s
  }

  predicate Spellable(t: Token) {
    !t.TError? && !t.TEof? && (t.TNumber? ==> t.num < ULONG_MODULUS)
  }

  function Spell(t: Token): (s: string)
    requires Spellable(t)
    ensures s != ""
  {
    match t
    case TNumber(n) => ToDecimal(n)
    case TNot => "!"
    case TQuestion => "?"
    case TColon => ":"
    case TVar => "n"
    case TLParen => "("
    case TRParen => ")"
    case TOp(op) =>
      match op
      case Mult => "*"
      case Divide => "/"
      case Module => "%"
      case Plus => "+"
      case Minus => "-"
      case LessThan => "<"
      case GreaterThan => ">"
      case LessOrEqual => "<="
      case GreaterOrEqual => ">="
      case Equal => "=="
      case NotEqual => "!="
      case LAnd => "&&"
      case LOr => "||"
  }

  predicate Blank(s: string) {
    forall c | c in s :: IsBlank(c)
  }

  /** `gaps[i]` is written before token `i`, and the last gap at the end. */
  function Render(tokens: seq<Token>, gaps: seq<string>): string
    requires |gaps| == |tokens| + 1
    requires forall t | t in tokens :: Spellable(t)
  {
    if tokens == [] then gaps[0]
    else gaps[0] + Spell(tokens[0]) + Render(tokens[1..], gaps[1..])
  }

  /** A character that, directly after `t`, would become part of it. */
  predicate Glues(t: Token, c: char) {
    || (t.TNumber? && IsDigit(c))
    || ((t == TNot || t == TOp(LessThan) || t == TOp(GreaterThan)) && c == '=')
  }

  /** What may follow the expression in its surroundings. */
  predicate EndsExpr(tail: string) {
    At(tail, 0) == '\0' || At(tail, 0) == ';' || At(tail, 0) == '\n'
  }

  // ----- Scanning the text back -----

  lemma {:induction false} SkipsGap(text: string, pos: nat, n: nat)
    requires pos + n <= |text| && !IsBlank(At(text, pos + n))
    requires forall i | pos <= i < pos + n :: IsBlank(text[i])
    ensures SkipBlanks(text, pos) == pos + n
    decreases n
  {
    if n > 0 {
      SkipsGap(text, pos + 1, n - 1);
    }
  }

  lemma {:induction false} SkipsDigits(text: string, pos: nat, n: nat)
    requires pos + n <= |text| && !IsDigit(At(text, pos + n))
    requires forall i | pos <= i < pos + n :: IsDigit(text[i])
    ensures DigitsEnd(text, pos) == pos + n
    decreases n
  {
    if n > 0 {
      SkipsDigits(text, pos + 1, n - 1);
    }
  }

  lemma ScansNumber(text: string, p: nat, digits: string)
    requires digits != "" && forall c | c in digits :: IsDigit(c)
    requires p + |digits| <= |text| && text[p..p + |digits|] == digits && !IsDigit(At(text, p + |digits|))
    requires Decimal(digits) < ULONG_MODULUS
    ensures ScanAt(text, p) == (TNumber(Decimal(digits)), p + |digits|)
  {
    DigitsThere(text, p, digits);
    SkipsDigits(text, p, |digits|);
    SmallModulo(Decimal(digits), ULONG_MODULUS);
  }

  lemma SmallModulo(x: nat, m: nat)
    requires x < m
    ensures x % m == x
  {
  }

  lemma DigitsThere(text: string, p: nat, digits: string)
    requires forall c | c in digits :: IsDigit(c)
    requires p + |digits| <= |text| && text[p..p + |digits|] == digits
    ensures forall i | p <= i < p + |digits| :: IsDigit(text[i])
  {
    forall i | p <= i < p + |digits|
      ensures IsDigit(text[i])
    {
      assert text[i] == digits[i - p];
    }
  }

  lemma ScansSymbol(text: string, p: nat, t: Token)
    requires Spellable(t) && !t.TNumber?
    requires p + |Spell(t)| <= |text| && text[p..p + |Spell(t)|] == Spell(t)
    requires !Glues(t, At(text, p + |Spell(t)|))
    ensures ScanAt(text, p) == (t, p + |Spell(t)|)
  {
    var s := Spell(t);
    assert text[p] == s[0];
    assert |s| > 1 ==> text[p + 1] == s[1];
  }

  lemma SpellStart(t: Token)
    requires Spellable(t)
    ensures !IsBlank(Spell(t)[0]) && Spell(t)[0] != '\0'
    ensures Spell(t)[0] == '=' <==> t == TOp(Equal)
    ensures IsDigit(Spell(t)[0]) <==> t.TNumber?
  {
    if t.TNumber? {
      assert ToDecimal(t.num)[0] in ToDecimal(t.num);
    }
  }

  /** Where `s` stands in a text that goes on with `gap`, `s`, `more`. */
  lemma Located(text: string, pos: nat, gap: string, s: string, more: string)
    requires pos <= |text| && text[pos..] == gap + s + more
    ensures |text| == pos + |gap| + |s| + |more|
    ensures forall i | pos <= i < pos + |gap| :: text[i] == gap[i - pos]
    ensures text[pos + |gap|..pos + |gap| + |s|] == s
    ensures At(text, pos + |gap| + |s|) == At(more, 0)
  {
    var p := pos + |gap|;
    assert forall i | 0 <= i < |s| :: text[p + i] == text[pos..][|gap| + i] == s[i];
    assert forall i | pos <= i < p :: text[i] == text[pos..][i - pos];
    if more != "" {
      assert text[p + |s|] == text[pos..][|gap| + |s|];
    }
  }

  lemma ScansToken(text: string, pos: nat, gap: string, t: Token, more: string)
    requires Blank(gap) && Spellable(t) && !Glues(t, At(more, 0))
    requires pos <= |text| && text[pos..] == gap + Spell(t) + more
    ensures Scan(text, pos) == (t, pos + |gap| + |Spell(t)|)
  {
    var p, s := pos + |gap|, Spell(t);
    Located(text, pos, gap, s, more);
    SpellStart(t);
    assert At(text, p) == s[0] by {
      assert text[p..p + |s|][0] == s[0];
    }
    SkipsGap(text, pos, |gap|);
    if t.TNumber? {
      ScansNumber(text, p, s);
    } else {
      ScansSymbol(text, p, t);
    }
  }

  // ----- Which tokens may touch -----

  /** Whether `u` may follow `t` without a blank. */
  predicate Adjacent(t: Token, u: Token) {
    && (t.TNumber? ==> !u.TNumber?)
    && (t == TNot || t == TOp(LessThan) || t == TOp(GreaterThan) ==> u != TOp(Equal))
  }

  ghost predicate AllAdjacent(s: seq<Token>) {
    forall i :: 0 < i < |s| ==> Adjacent(s[i - 1], s[i])
  }

  predicate ClosesExpr(t: Token) {
    t.TVar? || t.TNumber? || t.TRParen?
  }

  /** A token run that reads like an operand. */
  ghost predicate OperandLike(s: seq<Token>) {
    s != [] && StartsExpr(s[0]) && ClosesExpr(s[|s| - 1]) && AllAdjacent(s)
  }

  lemma JoinOperands(a: seq<Token>, t: Token, b: seq<Token>)
    requires OperandLike(a) && OperandLike(b) && (IsInfix(t) || t.TColon?)
    ensures OperandLike(a + [t] + b)
  {
    var s := a + [t] + b;
    forall i | 0 < i < |s|
      ensures Adjacent(s[i - 1], s[i])
    {
      if i < |a| {
        assert Adjacent(a[i - 1], a[i]);
      } else if i > |a| + 1 {
        assert Adjacent(b[i - |a| - 2], b[i - |a| - 1]);
      }
    }
  }

  lemma PrefixOperand(t: Token, a: seq<Token>)
    requires OperandLike(a) && (t.TNot? || t.TLParen?)
    ensures OperandLike([t] + a)
  {
    var s := [t] + a;
    forall i | 0 < i < |s|
      ensures Adjacent(s[i - 1], s[i])
    {
      if i > 1 {
        assert Adjacent(a[i - 2], a[i - 1]);
      }
    }
  }

  lemma CloseOperand(a: seq<Token>)
    requires OperandLike(a)
    ensures OperandLike(a + [TRParen])
  {
    var s := a + [TRParen];
    forall i | 0 < i < |s|
      ensures Adjacent(s[i - 1], s[i])
    {
      if i < |a| {
        assert Adjacent(a[i - 1], a[i]);
      }
    }
  }

  /** In a well-formed expression no two tokens need a blank between them. */
  lemma {:induction false} YieldIsOperandLike(c: Cst)
    ensures OperandLike(Yield(c))
  {
    match c
    case CVar =>
    case CNum(_) =>
    case CParen(i) =>
      YieldIsOperandLike(i);
      PrefixOperand(TLParen, Yield(i));
      CloseOperand([TLParen] + Yield(i));
    case CNot(a) =>
      YieldIsOperandLike(a);
      PrefixOperand(TNot, Yield(a));
    case CBinary(op, l, r) =>
      YieldIsOperandLike(l);
      YieldIsOperandLike(r);
      JoinOperands(Yield(l), TOp(op), Yield(r));
    case CCond(b, t, f) =>
      YieldIsOperandLike(b);
      YieldIsOperandLike(t);
      YieldIsOperandLike(f);
      JoinOperands(Yield(b), TQuestion, Yield(t));
      JoinOperands(Yield(b) + [TQuestion] + Yield(t), TColon, Yield(f));
  }

  // ----- The text as a whole -----

  ghost predicate Printable(tokens: seq<Token>, gaps: seq<string>) {
    && |gaps| == |tokens| + 1
    && (forall t | t in tokens :: Spellable(t))
    && (forall g | g in gaps :: Blank(g))
    && AllAdjacent(tokens)
  }

  lemma RenderStart(t: Token, tokens: seq<Token>, gaps: seq<string>, tail: string)
    requires Spellable(t) && Printable(tokens, gaps) && EndsExpr(tail)
    requires tokens != [] ==> Adjacent(t, tokens[0])
    ensures !Glues(t, At(Render(tokens, gaps) + tail, 0))
  {
    var more := Render(tokens, gaps) + tail;
    if gaps[0] != "" {
      assert more[0] == gaps[0][0] && gaps[0][0] in gaps[0] && gaps[0] in gaps;
    } else if tokens != [] {
      SpellStart(tokens[0]);
      assert more[0] == Spell(tokens[0])[0];
    } else {
      assert more == tail;
    }
  }

  lemma LexesGap(text: string, pos: nat, gap: string, tail: string)
    requires pos <= |text| && Blank(gap) && text[pos..] == gap + tail && EndsExpr(tail)
    ensures Lex(text, pos) == []
  {
    var p := pos + |gap|;
    assert forall i | pos <= i < p :: text[i] == text[pos..][i - pos] == gap[i - pos];
    assert At(text, p) == At(tail, 0) by {
      if tail != "" {
        assert text[p] == text[pos..][|gap|];
      }
    }
    SkipsGap(text, pos, |gap|);
  }

  lemma RenderUnfold(tokens: seq<Token>, gaps: seq<string>, tail: string)
    requires Printable(tokens, gaps) && tokens != []
    ensures Spellable(tokens[0]) && Printable(tokens[1..], gaps[1..])
    ensures Render(tokens, gaps) + tail
         == gaps[0] + Spell(tokens[0]) + (Render(tokens[1..], gaps[1..]) + tail)
  {
    assert tokens[0] in tokens;
    PrintableRest(tokens, gaps);
  }

  lemma SplitText(text: string, pos: nat, a: string, b: string, c: string)
    requires pos <= |text| && text[pos..] == a + b + c
    ensures pos + |a| + |b| <= |text| && text[pos + |a| + |b|..] == c
  {
    assert text[pos + |a| + |b|..] == text[pos..][|a| + |b|..];
  }

  lemma ScansFirst(text: string, pos: nat, tokens: seq<Token>, gaps: seq<string>, tail: string) returns (next: nat)
    requires Printable(tokens, gaps) && EndsExpr(tail) && tokens != []
    requires pos <= |text| && text[pos..] == Render(tokens, gaps) + tail
    ensures Printable(tokens[1..], gaps[1..])
    ensures pos < next <= |text| && Scan(text, pos) == (tokens[0], next)
    ensures text[next..] == Render(tokens[1..], gaps[1..]) + tail
  {
    RenderUnfold(tokens, gaps, tail);
    var t, more := tokens[0], Render(tokens[1..], gaps[1..]) + tail;
    RenderStart(t, tokens[1..], gaps[1..], tail);
    assert gaps[0] in gaps;
    ScansToken(text, pos, gaps[0], t, more);
    SplitText(text, pos, gaps[0], Spell(t), more);
    next := pos + |gaps[0]| + |Spell(t)|;
  }

  /** The scanner reads the tokens back, whatever blanks were put between them. */
  lemma {:induction false} RenderLexes(text: string, pos: nat, tokens: seq<Token>, gaps: seq<string>, tail: string)
    requires Printable(tokens, gaps) && EndsExpr(tail)
    requires pos <= |text| && text[pos..] == Render(tokens, gaps) + tail
    ensures Lex(text, pos) == tokens
    decreases |tokens|
  {
    if tokens == [] {
      LexesGap(text, pos, gaps[0], tail);
    } else {
      PrintableRest(tokens, gaps);
      var next := ScansFirst(text, pos, tokens, gaps, tail);
      RenderLexes(text, next, tokens[1..], gaps[1..], tail);
      YieldHasNoEnd(tokens);
    }
  }

  lemma YieldHasNoEnd(tokens: seq<Token>)
    requires tokens != [] && forall t | t in tokens :: Spellable(t)
    ensures !tokens[0].TEof?
  {
    assert tokens[0] in tokens;
  }

  lemma PrintableRest(tokens: seq<Token>, gaps: seq<string>)
    requires Printable(tokens, gaps) && tokens != []
    ensures Printable(tokens[1..], gaps[1..])
    ensures |tokens| > 1 ==> Adjacent(tokens[0], tokens[1])
  {
    var rest := tokens[1..];
    forall i | 0 < i < |rest|
      ensures Adjacent(rest[i - 1], rest[i])
    {
      assert Adjacent(tokens[i], tokens[i + 1]);
    }
  }

  // ----- The round trip -----

  predicate NumbersFit(e: Expr) {
    match e
    case Var => true
    case Num(n) => n < ULONG_MODULUS
    case LNot(a) => NumbersFit(a)
    case Binary(_, l, r) => NumbersFit(l) && NumbersFit(r)
    case QMop(b, t, f) => NumbersFit(b) && NumbersFit(t) && NumbersFit(f)
  }

  lemma {:induction false} YieldSpellable(c: Cst)
    requires NumbersFit(Ast(c))
    ensures forall t | t in Yield(c) :: Spellable(t)
  {
    match c
    case CVar =>
    case CNum(_) =>
    case CParen(i) => YieldSpellable(i);
    case CNot(a) => YieldSpellable(a);
    case CBinary(_, l, r) => YieldSpellable(l); YieldSpellable(r);
    case CCond(b, t, f) => YieldSpellable(b); YieldSpellable(t); YieldSpellable(f);
  }

  /** The text of a tree, with a given blank gap before each token and at the
      end. */
  function Written(c: Cst, gaps: seq<string>): string
    requires NumbersFit(Ast(c)) && |gaps| == |Yield(c)| + 1
  {
    YieldSpellable(c);
    Render(Yield(c), gaps)
  }

  /** Any well-formed way of writing an expression, with any blanks between its
      tokens and any terminated text after it, is parsed to that expression. */
  lemma ParsesAnyWriting(c: Cst, gaps: seq<string>, tail: string)
    requires WellFormed(c) && NumbersFit(Ast(c)) && 1 + Need(c) < YYMAXDEPTH
    requires |gaps| == |Yield(c)| + 1 && (forall g | g in gaps :: Blank(g)) && EndsExpr(tail)
    ensures Run(YYMAXDEPTH, Initial(Lex(Written(c, gaps) + tail, 0))) == Outcome(0, Some(c))
  {
    var text := Written(c, gaps) + tail;
    YieldSpellable(c);
    YieldIsOperandLike(c);
    assert text[0..] == text;
    RenderLexes(text, 0, Yield(c), gaps, tail);
    AcceptsExactly(YYMAXDEPTH, Lex(text, 0), c);
  }

  /** The round trip of the parser and the printer with fewest parentheses: by the
      first postcondition of `YyParse` the result is `e` again, with return value 0. */
  lemma RoundTrip(e: Expr, gaps: seq<string>, tail: string)
    requires NumbersFit(e) && 1 + Need(Minimal(e)) < YYMAXDEPTH
    requires |gaps| == |Yield(Minimal(e))| + 1 && (forall g | g in gaps :: Blank(g)) && EndsExpr(tail)
    ensures NumbersFit(Ast(Minimal(e))) && Ast(Minimal(e)) == e
    ensures Run(YYMAXDEPTH, Initial(Lex(Written(Minimal(e), gaps) + tail, 0))) == Outcome(0, Some(Minimal(e)))
  {
    MinimalDenotes(e);
    ParsesAnyWriting(Minimal(e), gaps, tail);
  }

  /** Expressions of fewer than 9998 tokens always fit the stack. */
  lemma ShortWritingsFit(c: Cst)
    requires |Yield(c)| < YYMAXDEPTH - 1
    ensures 1 + Need(c) < YYMAXDEPTH
  {
    YieldNonEmpty(c);
  }
}
