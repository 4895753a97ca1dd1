/** Expressions with the blanks that they are usually written with. */
module PluralWriting {
  import opened Options
  import opened PluralSyntax
  import opened PluralLexer
  import opened PluralTheorems
  import opened PluralParser
  import opened PluralRoundTrip
  import opened Sequences

  /** Blanks around `&&`, `||`, `?` and `:`, and nowhere else. */
  function Spaced(c: Cst): string
    requires NumbersFit(Ast(c))
  {
    match c
    case CVar => "n"
    case CNum(k) => ToDecimal(k)
    case CParen(i) => "(" + Spaced(i) + ")"
    case CNot(a) => "!" + Spaced(a)
    case CBinary(op, l, r) => Spaced(l) + Sign(op) + Spaced(r)
    case CCond(b, t, f) => Spaced(b) + " ? " + Spaced(t) + " : " + Spaced(f)
  }

  function Around(op: Operator): string {
    if op == LAnd || op == LOr then " " else ""
  }

  function Sign(op: Operator): string {
    Around(op) + Spell(TOp(op)) + Around(op)
  }

  /** The gap before each token, with `g` before the first one. */
  function Gaps(c: Cst, g: string): seq<string> {
    match c
    case CVar => [g]
    case CNum(_) => [g]
    case CParen(i) => [g] + Gaps(i, "") + [""]
    case CNot(a) => [g] + Gaps(a, "")
    case CBinary(op, l, r) => Gaps(l, g) + [Around(op)] + Gaps(r, Around(op))
    case CCond(b, t, f) => Gaps(b, g) + [" "] + Gaps(t, " ") + [" "] + Gaps(f, " ")
  }

  /** Tokens with their gaps, and none at the end. */
  function Bare(tokens: seq<Token>, gaps: seq<string>): string
    requires |gaps| == |tokens| && forall t | t in tokens :: Spellable(t)
  {
    if tokens == [] then "" else gaps[0] + Spell(tokens[0]) + Bare(tokens[1..], gaps[1..])
  }

  lemma {:induction false} BareJoin(a: seq<Token>, ga: seq<string>, b: seq<Token>, gb: seq<string>)
    requires |ga| == |a| && |gb| == |b| && forall t | t in a + b :: Spellable(t)
    ensures forall t | t in a || t in b :: t in a + b
    ensures Bare(a + b, ga + gb) == Bare(a, ga) + Bare(b, gb)
  {
    assert forall t | t in a || t in b :: t in a + b;
    if a == [] {
      assert a + b == b && ga + gb == gb;
    } else {
      assert (a + b)[1..] == a[1..] + b && (ga + gb)[1..] == ga[1..] + gb;
      BareJoin(a[1..], ga[1..], b, gb);
      Regroup(ga[0] + Spell(a[0]), Bare(a[1..], ga[1..]), Bare(b, gb));
    }
  }

  lemma BareOne(t: Token, g: string)
    requires Spellable(t)
    ensures Bare([t], [g]) == g + Spell(t)
  {
    assert g + Spell(t) + "" == g + Spell(t);
  }

  lemma BareThree(a: seq<Token>, ga: seq<string>, b: seq<Token>, gb: seq<string>, c: seq<Token>, gc: seq<string>)
    requires |ga| == |a| && |gb| == |b| && |gc| == |c| && forall t | t in a + b + c :: Spellable(t)
    ensures forall t | t in a || t in b || t in c :: t in a + b + c
    ensures Bare(a + b + c, ga + gb + gc) == Bare(a, ga) + Bare(b, gb) + Bare(c, gc)
  {
    BareJoin(a + b, ga + gb, c, gc);
    BareJoin(a, ga, b, gb);
  }

  lemma RegroupThree(g: string, a: string, b: string, c: string)
    ensures g + a + b + c == g + (a + b + c)
  {
  }

  lemma RegroupSign(a: string, x: string, s: string, b: string)
    ensures a + (x + s) + (x + b) == a + (x + s + x) + b
  {
  }

  /** Written with these gaps, a tree looks like this. */
  lemma {:induction false} SpacedIs(c: Cst, g: string)
    requires NumbersFit(Ast(c))
    ensures |Gaps(c, g)| == |Yield(c)| && forall t | t in Yield(c) :: Spellable(t)
    ensures Bare(Yield(c), Gaps(c, g)) == g + Spaced(c)
    decreases c, 1
  {
    YieldSpellable(c);
    match c
    case CVar => BareOne(TVar, g);
    case CNum(k) => BareOne(TNumber(k), g);
    case CParen(i) => SpacedParen(c, g);
    case CNot(a) => SpacedNot(c, g);
    case CBinary(op, l, r) => SpacedBinary(c, g);
    case CCond(b, x, y) => SpacedCond(c, g);
  }

  lemma {:induction false} SpacedParen(c: Cst, g: string)
    requires NumbersFit(Ast(c)) && c.CParen?
    ensures |Gaps(c, g)| == |Yield(c)| && forall t | t in Yield(c) :: Spellable(t)
    ensures Bare(Yield(c), Gaps(c, g)) == g + Spaced(c)
    decreases c, 0
  {
    var i := c.inner;
    SpacedIs(i, "");
    YieldSpellable(c);
    BareThree([TLParen], [g], Yield(i), Gaps(i, ""), [TRParen], [""]);
    BareOne(TLParen, g);
    BareOne(TRParen, "");
    assert "" + Spaced(i) == Spaced(i) && "" + ")" == ")";
    RegroupThree(g, "(", Spaced(i), ")");
  }

  lemma {:induction false} SpacedNot(c: Cst, g: string)
    requires NumbersFit(Ast(c)) && c.CNot?
    ensures |Gaps(c, g)| == |Yield(c)| && forall t | t in Yield(c) :: Spellable(t)
    ensures Bare(Yield(c), Gaps(c, g)) == g + Spaced(c)
    decreases c, 0
  {
    var a := c.arg;
    SpacedIs(a, "");
    YieldSpellable(c);
    BareJoin([TNot], [g], Yield(a), Gaps(a, ""));
    BareOne(TNot, g);
    assert "" + Spaced(a) == Spaced(a);
    Regroup(g, "!", Spaced(a));
  }

  lemma {:induction false} SpacedBinary(c: Cst, g: string)
    requires NumbersFit(Ast(c)) && c.CBinary?
    ensures |Gaps(c, g)| == |Yield(c)| && forall t | t in Yield(c) :: Spellable(t)
    ensures Bare(Yield(c), Gaps(c, g)) == g + Spaced(c)
    decreases c, 0
  {
    var op, l, r, x := c.op, c.left, c.right, Around(c.op);
    SpacedIs(l, g);
    SpacedIs(r, x);
    YieldSpellable(c);
    BareThree(Yield(l), Gaps(l, g), [TOp(op)], [x], Yield(r), Gaps(r, x));
    BareOne(TOp(op), x);
    RegroupSign(g + Spaced(l), x, Spell(TOp(op)), Spaced(r));
    RegroupThree(g, Spaced(l), Sign(op), Spaced(r));
  }

  lemma RegroupCond(g: string, b: string, x: string, y: string)
    ensures g + b + (" " + "?") + (" " + x) + (" " + ":") + (" " + y) == g + (b + " ? " + x + " : " + y)
  {
  }

  lemma {:induction false} SpacedCond(c: Cst, g: string)
    requires NumbersFit(Ast(c)) && c.CCond?
    ensures |Gaps(c, g)| == |Yield(c)| && forall t | t in Yield(c) :: Spellable(t)
    ensures Bare(Yield(c), Gaps(c, g)) == g + Spaced(c)
    decreases c, 0
  {
    var b, x, y := c.cond, c.tbranch, c.fbranch;
    SpacedIs(b, g);
    SpacedIs(x, " ");
    SpacedIs(y, " ");
    YieldSpellable(c);
    var front, gaps := Yield(b) + [TQuestion] + Yield(x), Gaps(b, g) + [" "] + Gaps(x, " ");
    assert front + [TColon] + Yield(y) == Yield(c);
    BareThree(front, gaps, [TColon], [" "], Yield(y), Gaps(y, " "));
    BareThree(Yield(b), Gaps(b, g), [TQuestion], [" "], Yield(x), Gaps(x, " "));
    BareOne(TQuestion, " ");
    BareOne(TColon, " ");
    RegroupCond(g, Spaced(b), Spaced(x), Spaced(y));
  }

  lemma {:induction false} RenderBare(tokens: seq<Token>, gaps: seq<string>)
    requires |gaps| == |tokens| && forall t | t in tokens :: Spellable(t)
    ensures Render(tokens, gaps + [""]) == Bare(tokens, gaps)
  {
    if tokens != [] {
      RenderBare(tokens[1..], gaps[1..]);
      assert (gaps + [""])[1..] == gaps[1..] + [""];
    }
  }

  lemma {:induction false} GapsAreBlank(c: Cst, g: string)
    requires Blank(g)
    ensures forall x | x in Gaps(c, g) :: Blank(x)
  {
    match c
    case CVar =>
    case CNum(_) =>
    case CParen(i) => GapsAreBlank(i, "");
    case CNot(a) => GapsAreBlank(a, "");
    case CBinary(op, l, r) =>
      GapsAreBlank(l, g);
      GapsAreBlank(r, Around(op));
    case CCond(b, x, y) =>
      GapsAreBlank(b, g);
      GapsAreBlank(x, " ");
      GapsAreBlank(y, " ");
  }

  /** A tree written with the usual blanks is read as that tree. */
  lemma SpacedReads(c: Cst, tail: string)
    requires WellFormed(c) && NumbersFit(Ast(c)) && 1 + Need(c) < YYMAXDEPTH && EndsExpr(tail)
    ensures Reads(YYMAXDEPTH, c, Lex(Spaced(c) + tail, 0))
  {
    var gaps := Gaps(c, "") + [""];
    SpacedIs(c, "");
    GapsAreBlank(c, "");
    RenderBare(Yield(c), Gaps(c, ""));
    assert "" + Spaced(c) == Spaced(c);
    ParsesAnyWriting(c, gaps, tail);
    YieldSpellable(c);
    assert Written(c, gaps) == Spaced(c);
    AcceptsExactly(YYMAXDEPTH, Lex(Spaced(c) + tail, 0), c);
  }
}
