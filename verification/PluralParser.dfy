/** The generated parser over growable array stacks. Memory allocation is taken
    to succeed. */
module PluralParser {
  import opened Options
  import opened PluralSyntax
  import opened PluralPrecedence
  import opened PluralTables
  import opened PluralLexer
  import opened PluralMachine
  import opened PluralOverflow
  import opened PluralSoundness
  import opened PluralTheorems

  const YYEMPTY: int := -2
  const YYINITDEPTH: int := 200
  const YYMAXDEPTH: int := 10000
  const YYTERROR: int := 1

  /** The value that stands for a stack symbol. */
  predicate Denotes(v: Sem, s: Sym) {
    match s
    case Term(t) => Carries(v, t)
    case NonTerm(c) => v == SExp(Ast(c))
    case Start(c) => v == SExp(Ast(c))
  }

  function AstOf(res: Option<Cst>): Option<Expr> {
    match res
    case None => None
    case Some(c) => Some(Ast(c))
  }

  /** The lookahead variables, the cursor and the text after it spell `rest`. */
  predicate Ahead(text: string, cp: nat, yychar: int, yylval: Sem, rest: seq<Token>) {
    && cp <= |text|
    && if yychar == YYEMPTY then rest == Lex(text, cp)
       else
         && yychar == CodeOf(First(rest)) && Carries(yylval, First(rest))
         && (rest != [] ==> rest[1..] == Lex(text, cp))
  }

  lemma TranslateCode(t: Token)
    ensures YyTranslate(CodeOf(t)) == KindOf(t)
    ensures CodeOf(t) >= 0 && (CodeOf(t) == 0 <==> t.TEof?)
  {
  }

  /** The last part of `yybackup`: what the tables say for a state and a kind of token. */
  method Consult(yystate: State, yypact: int, yychar1: Kind) returns (action: Action)
    requires yypact == YyPact(yystate) != YYFLAG
    ensures action == ActionOf(yystate, yychar1)
  {
    var yyn := yypact + yychar1;
    if yyn < 0 || yyn > YYLAST || YyCheck(yyn) != yychar1 {
      action := Default(yystate);
      return;
    }
    yyn := YyTable(yyn);
    if yyn < 0 {
      action := if yyn == YYFLAG then Fail else Reduce(-yyn);
    } else if yyn == 0 {
      action := Fail;
    } else if yyn == YYFINAL {
      action := Accept;
    } else {
      action := Shift(yyn);
    }
  }

  /** `yybackup` to the point where the action is known, reading a token only if
      the state needs one. */
  method Backup(text: string, yystate: State, cp0: nat, yychar0: int, yylval0: Sem, ghost rest: seq<Token>)
    returns (action: Action, cp: nat, yychar: int, yylval: Sem)
    requires Ahead(text, cp0, yychar0, yylval0, rest)
    ensures Ahead(text, cp, yychar, yylval, rest)
    ensures action == Decide(yystate, First(rest))
    ensures action.Shift? || action.Accept? ==> yychar != YYEMPTY
  {
    cp, yychar, yylval := cp0, yychar0, yylval0;
    TablesDecide(yystate, First(rest));
    var yyn := YyPact(yystate);
    if yyn == YYFLAG {
      action := Default(yystate);
      return;
    }
    if yychar == YYEMPTY {
      yychar, yylval, cp := YyLex(text, cp, yylval);
    }
    TranslateCode(First(rest));
    var yychar1;
    if yychar <= 0 {
      yychar1 := 0;
      yychar := YYEOF;
    } else {
      yychar1 := YyTranslate(yychar);
    }
    action := Consult(yystate, yyn, yychar1);
  }

  /** `yydefault`. */
  method Default(yystate: State) returns (action: Action)
    ensures action == DefaultAction(yystate)
  {
    var yyn := YyDefAct(yystate);
    action := if yyn == 0 then Fail else Reduce(yyn);
  }

  /** The rules' actions: the value of a reduction from the top of the value
      stack. */
  method RuleValue(yyn: int, yyvs: array<Sem>, yyvsp: nat, ghost args: seq<Sym>) returns (yyval: Sem)
    requires 1 <= yyn <= 12 && |args| == RuleLength(yyn) && ArgsFit(yyn, args)
    requires |args| <= yyvsp < yyvs.Length
    requires forall k :: 0 <= k < |args| ==> Denotes(yyvs[yyvsp + 1 - |args| + k], args[k])
    ensures Denotes(yyval, Build(yyn, args))
  {
    TablesLength(yyn);
    var yylen := YyR2(yyn);
    assert forall k :: 0 <= k < |args| ==> Denotes(yyvs[yyvsp + 1 - |args| + k], args[k]);
    yyval := yyvs[yyvsp + 1 - yylen];
    if yyn == 1 {
      assert Denotes(yyvs[yyvsp + 1 - |args| + 0], args[0]);
    } else if yyn == 2 {
      yyval := SExp(QMop(yyvs[yyvsp - 4].exp, yyvs[yyvsp - 2].exp, yyvs[yyvsp].exp));
    } else if yyn == 3 {
      yyval := SExp(Binary(LOr, yyvs[yyvsp - 2].exp, yyvs[yyvsp].exp));
    } else if yyn == 4 {
      yyval := SExp(Binary(LAnd, yyvs[yyvsp - 2].exp, yyvs[yyvsp].exp));
    } else if yyn <= 8 {
      yyval := SExp(Binary(yyvs[yyvsp - 1].op, yyvs[yyvsp - 2].exp, yyvs[yyvsp].exp));
    } else if yyn == 9 {
      yyval := SExp(LNot(yyvs[yyvsp].exp));
    } else if yyn == 10 {
      yyval := SExp(Var);
    } else if yyn == 11 {
      yyval := SExp(Num(yyvs[yyvsp].num));
    } else {
      yyval := SExp(yyvs[yyvsp - 1].exp);
    }
  }

  lemma NoErrorToken(s: State)
    ensures YyPact(s) == YYFLAG || YyPact(s) + YYTERROR < 0
         || YyPact(s) + YYTERROR > YYLAST || YyCheck(YyPact(s) + YYTERROR) != YYTERROR
  {
  }

  /** `yyerrlab`: recovery pops every state, for none of them takes the error
      token, and gives up. */
  method Recover(yyss: array<State>, yyssp0: nat) returns (ret: int)
    requires yyssp0 < yyss.Length
    ensures ret == 1
  {
    var yyssp := yyssp0;
    while true
      invariant 0 <= yyssp < yyss.Length
      decreases yyssp
    {
      NoErrorToken(yyss[yyssp]);
      var yyn := YyPact(yyss[yyssp]);
      if yyn != YYFLAG {
        yyn := yyn + YYTERROR;
        if !(yyn < 0 || yyn > YYLAST || YyCheck(yyn) != YYTERROR) {
          assert false;
        }
      }
      if yyssp == 0 {
        return 1;
      }
      yyssp := yyssp - 1;
    }
  }

  /** A larger copy of a stack. */
  method Extend<T(0)>(stack: array<T>, size: nat, capacity: nat) returns (r: array<T>)
    requires size <= stack.Length && size <= capacity
    ensures fresh(r) && r.Length == capacity && r[..size] == stack[..size]
  {
    r := new T[capacity];
    for i := 0 to size
      invariant r[..i] == stack[..i]
    {
      r[i] := stack[i];
    }
  }

  /** Entry `k + 1` of the value stack stands for the `k`-th symbol. */
  ghost predicate Values(yyvs: array<Sem>, syms: seq<Sym>)
    reads yyvs
  {
    |syms| < yyvs.Length && forall k :: 0 <= k < |syms| ==> Denotes(yyvs[k + 1], syms[k])
  }

  /** The stacks up to entry `top` represent a configuration. */
  ghost predicate Stored(yyss: array<State>, yyvs: array<Sem>, top: int, c: Config)
    reads yyss, yyvs
  {
    && 0 <= top < yyss.Length == yyvs.Length
    && c.states == yyss[..top + 1]
    && Values(yyvs, c.syms)
  }

  /** The same with the top state still to be pushed. */
  ghost predicate Pending(yyss: array<State>, yyvs: array<Sem>, top: int, yystate: State, c: Config)
    reads yyss, yyvs
  {
    && -1 <= top && top + 1 < yyss.Length == yyvs.Length
    && c.states == yyss[..top + 1] + [yystate]
    && Values(yyvs, c.syms)
  }

  /** Copies full stacks into larger ones. */
  method Grow(yyss: array<State>, yyvs: array<Sem>, yyssp: nat, ghost c: Config)
    returns (newss: array<State>, newvs: array<Sem>)
    requires Stored(yyss, yyvs, yyssp, c) && yyssp + 1 == yyss.Length < YYMAXDEPTH
    ensures fresh(newss) && fresh(newvs)
    ensures newss.Length == if 2 * yyss.Length > YYMAXDEPTH then YYMAXDEPTH else 2 * yyss.Length
    ensures Stored(newss, newvs, yyssp, c)
  {
    var size := yyssp + 1;
    var yystacksize := 2 * yyss.Length;
    if yystacksize > YYMAXDEPTH {
      yystacksize := YYMAXDEPTH;
    }
    newss := Extend(yyss, size, yystacksize);
    newvs := Extend(yyvs, size, yystacksize);
    forall k | 0 <= k < |c.syms|
      ensures Denotes(newvs[k + 1], c.syms[k])
    {
      assert newvs[..size][k + 1] == yyvs[..size][k + 1];
    }
  }

  /** `yynewstate`: pushes the state, then makes room or reports overflow. */
  method PushState(yyss0: array<State>, yyvs0: array<Sem>, yyssp0: int, yystate: State, ghost c: Config)
    returns (yyss: array<State>, yyvs: array<Sem>, yyssp: nat, full: bool)
    requires Pending(yyss0, yyvs0, yyssp0, yystate, c) && YYINITDEPTH <= yyss0.Length <= YYMAXDEPTH
    modifies yyss0
    ensures full <==> |c.states| >= YYMAXDEPTH
    ensures (yyss == yyss0 && yyvs == yyvs0) || (fresh(yyss) && fresh(yyvs))
    ensures Stored(yyss, yyvs, yyssp, c) && YYINITDEPTH <= yyss.Length <= YYMAXDEPTH
    ensures !full ==> yyssp + 1 < yyss.Length
  {
    yyss, yyvs, yyssp, full := yyss0, yyvs0, yyssp0 + 1, false;
    yyss[yyssp] := yystate;
    assert c.states == yyss[..yyssp + 1];
    if yyssp >= yyss.Length - 1 {
      if yyss.Length >= YYMAXDEPTH {
        full := true;
      } else {
        yyss, yyvs := Grow(yyss, yyvs, yyssp, c);
      }
    }
  }

  /** Pushes the value of the shifted token. */
  method ShiftToken(yyss: array<State>, yyvs: array<Sem>, yyssp: nat, yylval: Sem, s: State, ghost c: Config)
    requires Stored(yyss, yyvs, yyssp, c) && yyssp + 1 < yyss.Length
    requires Carries(yylval, First(c.rest))
    modifies yyvs
    ensures Pending(yyss, yyvs, yyssp, s, ShiftConfig(c, s))
  {
    yyvs[yyssp + 1] := yylval;
  }

  /** `yyreduce`: pops the right-hand side, pushes its value, and finds the state
      to enter. */
  method ReduceRule(yyss: array<State>, yyvs: array<Sem>, yyssp0: nat, yyn: int, ghost c: Config)
    returns (yyssp: nat, yystate: State, yyval: Sem)
    requires Stored(yyss, yyvs, yyssp0, c) && yyssp0 + 1 < yyss.Length
    requires 1 <= yyn <= 12 && |c.syms| >= RuleLength(yyn) && ArgsFit(yyn, c.syms[|c.syms| - RuleLength(yyn)..])
    modifies yyvs
    ensures Pending(yyss, yyvs, yyssp, yystate, ReduceConfig(c, yyn))
    ensures Denotes(yyval, Build(yyn, c.syms[|c.syms| - RuleLength(yyn)..]))
  {
    TablesLength(yyn);
    var yylen := YyR2(yyn);
    ghost var args := c.syms[|c.syms| - yylen..];
    yyval := RuleValue(yyn, yyvs, yyssp0, args);
    yyssp := yyssp0 - yylen;
    yyvs[yyssp + 1] := yyval;
    TablesGoto(yyss[yyssp], yyn);
    yystate := GotoOf(yyss[yyssp], yyn);
    assert c.states[..yyssp + 1] == yyss[..yyssp + 1];
  }

  /** Carries out a shift or a reduction, one pass of the machine. */
  method Act(text: string, yyss: array<State>, yyvs: array<Sem>, yyssp0: nat, action: Action,
             cp: nat, yychar0: int, yylval: Sem, res0: Option<Expr>, ghost c: Config, ghost tokens: seq<Token>)
    returns (yyssp: int, yystate: State, yychar: int, res: Option<Expr>, ghost d: Config)
    requires Stored(yyss, yyvs, yyssp0, c) && yyssp0 + 1 < yyss.Length && |c.states| < YYMAXDEPTH
    requires Viable(c, tokens) && TEof !in tokens
    requires Ahead(text, cp, yychar0, yylval, c.rest)
    requires action == Decide(Top(c.states), First(c.rest)) && (action.Shift? || action.Reduce?)
    requires action.Shift? ==> yychar0 != YYEMPTY
    requires res0 == AstOf(c.res)
    modifies yyvs
    ensures Pending(yyss, yyvs, yyssp, yystate, d)
    ensures Ahead(text, cp, yychar, yylval, d.rest)
    ensures res == AstOf(d.res)
    ensures Step(YYMAXDEPTH, c) == Continue(d) && Viable(d, tokens)
  {
    StepKeepsViable(YYMAXDEPTH, c, tokens);
    yychar, res := yychar0, res0;
    if action.Shift? {
      yyssp, yystate := yyssp0, action.state;
      ShiftToken(yyss, yyvs, yyssp, yylval, yystate, c);
      TranslateCode(First(c.rest));
      if yychar != YYEOF {
        yychar := YYEMPTY;
      }
      d := ShiftConfig(c, yystate);
    } else {
      RuleArgs(c, tokens, action.rule);
      var yyval;
      yyssp, yystate, yyval := ReduceRule(yyss, yyvs, yyssp0, action.rule, c);
      if action.rule == 1 {
        res := Some(yyval.exp);
      }
      d := ReduceConfig(c, action.rule);
    }
  }

  /** What `yyparse` promises of its return value and result: 0 exactly when the
      tokens form one expression that fits the stack, with that expression's only
      tree as the result. A rejected input leaves a result behind exactly when a
      whole expression comes before the offending token, and the stack overflows
      exactly when a beginning of the tokens can fill it. */
  ghost predicate ParseMeaning(tokens: seq<Token>, ret: int, res: Option<Expr>) {
    && (ret == 0 || ret == 1 || ret == 2)
    && (ret == 0 <==> exists c :: Reads(YYMAXDEPTH, c, tokens))
    && (forall c :: Reads(YYMAXDEPTH, c, tokens) ==> res == Some(Ast(c)))
    && (ret == 1 && res.Some? <==> exists c :: ReadsPrefix(YYMAXDEPTH, c, tokens))
    && (forall c :: ReadsPrefix(YYMAXDEPTH, c, tokens) ==> res == Some(Ast(c)))
    && (ret == 2 <==> FillsStack(YYMAXDEPTH, tokens))
    && (ret == 2 ==> |tokens| >= YYMAXDEPTH - 2)
  }

  lemma OutcomeMeaning(tokens: seq<Token>)
    requires TEof !in tokens
    ensures var o := Run(YYMAXDEPTH, Initial(tokens)); ParseMeaning(tokens, o.code, AstOf(o.res))
  {
    var o := Run(YYMAXDEPTH, Initial(tokens));
    Trichotomy(YYMAXDEPTH, tokens);
    OverflowsExactly(YYMAXDEPTH, tokens);
    forall c
      ensures o == Outcome(0, Some(c)) <==> Reads(YYMAXDEPTH, c, tokens)
      ensures o == Outcome(1, Some(c)) <==> ReadsPrefix(YYMAXDEPTH, c, tokens)
    {
      AcceptsExactly(YYMAXDEPTH, tokens, c);
      RejectsExactly(YYMAXDEPTH, tokens, c);
    }
    if o.code != 2 && o.res.Some? {
      assert Reads(YYMAXDEPTH, o.res.value, tokens) || ReadsPrefix(YYMAXDEPTH, o.res.value, tokens);
    }
  }

  /** The loop of the generated parser: it returns what the machine returns on the
      tokens of `text`. */
  method RunParser(text: string) returns (ret: int, res: Option<Expr>)
    ensures var o := Run(YYMAXDEPTH, Initial(Lex(text, 0))); ret == o.code && res == AstOf(o.res)
  {
    var yyss, yyvs := new State[YYINITDEPTH], new Sem[YYINITDEPTH];
    var yyssp: int, yystate: State := -1, 0;
    var cp, yychar, yylval := 0, YYEMPTY, SNone;
    res := None;
    ghost var tokens := Lex(text, 0);
    ghost var c := Initial(tokens);
    InitialViable(tokens);
    while true
      invariant fresh(yyss) && fresh(yyvs)
      invariant YYINITDEPTH <= yyss.Length <= YYMAXDEPTH
      invariant Pending(yyss, yyvs, yyssp, yystate, c)
      invariant Viable(c, tokens)
      invariant Ahead(text, cp, yychar, yylval, c.rest)
      invariant Run(YYMAXDEPTH, c) == Run(YYMAXDEPTH, Initial(tokens))
      invariant res == AstOf(c.res)
      decreases Measure(c)
    {
      var full;
      yyss, yyvs, yyssp, full := PushState(yyss, yyvs, yyssp, yystate, c);
      if full {
        return 2, res;
      }
      var action;
      action, cp, yychar, yylval := Backup(text, yystate, cp, yychar, yylval, c.rest);
      if action == Fail {
        ret := Recover(yyss, yyssp);
        return ret, res;
      }
      if action == Accept {
        return 0, res;
      }
      ghost var d;
      yyssp, yystate, yychar, res, d := Act(text, yyss, yyvs, yyssp, action, cp, yychar, yylval, res, c, tokens);
      StepDecreases(YYMAXDEPTH, c);
      c := d;
    }
  }

  /** The generated parser, and what its answer means. */
  method YyParse(text: string) returns (ret: int, res: Option<Expr>)
    ensures var o := Run(YYMAXDEPTH, Initial(Lex(text, 0))); ret == o.code && res == AstOf(o.res)
    ensures ParseMeaning(Lex(text, 0), ret, res)
  {
    ret, res := RunParser(text);
    OutcomeMeaning(Lex(text, 0));
  }
}
