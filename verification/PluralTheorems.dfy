/** The machine recognises exactly the stratified grammar. */
module PluralTheorems {
  import opened Options
  import opened PluralSyntax
  import opened PluralPrecedence
  import opened PluralMachine
  import opened PluralCompleteness
  import opened PluralSoundness

  /** `tree` is a reading of all of `tokens` that fits a stack of `max` entries. */
  predicate Reads(max: nat, tree: Cst, tokens: seq<Token>) {
    WellFormed(tree) && Yield(tree) == tokens && 1 + Need(tree) < max
  }

  /** `tree` is a reading of the first tokens, and what follows is no infix
      operator. */
  predicate ReadsPrefix(max: nat, tree: Cst, tokens: seq<Token>) {
    && WellFormed(tree) && 1 + Need(tree) < max
    && |Yield(tree)| < |tokens|
    && tokens[..|Yield(tree)|] == Yield(tree)
    && !IsInfix(tokens[|Yield(tree)|])
  }

  lemma InitialViable(tokens: seq<Token>)
    ensures Viable(Initial(tokens), tokens)
  {
    assert StackYield([]) + tokens == tokens;
  }

  /** The stack never holds more than the tokens read and the end mark. */
  lemma {:induction false} StackBound(states: seq<State>, syms: seq<Sym>)
    requires Linked(states, syms)
    ensures |syms| <= |StackYield(syms)| + if syms != [] && syms[|syms| - 1] == Term(TEof) then 1 else 0
  {
    if syms != [] {
      var n := |syms| - 1;
      LinkedPop(states, syms, n);
      StackBound(states[..n + 1], syms[..n]);
      if n > 0 {
        EndMarkOnTop(states, syms);
      }
      SymYieldNonEmpty(syms[n]);
    }
  }

  lemma EndMarkOnTop(states: seq<State>, syms: seq<Sym>)
    requires Linked(states, syms) && |syms| >= 2
    ensures syms[|syms| - 2] != Term(TEof)
  {
    assert Link(states, syms, |syms| - 1);
    assert Link(states, syms, |syms| - 2);
  }

  lemma SymYieldNonEmpty(s: Sym)
    ensures s == Term(TEof) || |SymYield(s)| >= 1
  {
    match s
    case Term(_) =>
    case NonTerm(t) => YieldNonEmpty(t);
    case Start(t) => YieldNonEmpty(t);
  }

  lemma {:induction false} YieldNonEmpty(t: Cst)
    ensures |Yield(t)| >= Need(t) >= 1
  {
    match t
    case CVar =>
    case CNum(_) =>
    case CParen(i) => YieldNonEmpty(i);
    case CNot(a) => YieldNonEmpty(a);
    case CBinary(_, l, r) => YieldNonEmpty(l); YieldNonEmpty(r);
    case CCond(b, x, y) => YieldNonEmpty(b); YieldNonEmpty(x); YieldNonEmpty(y);
  }

  /** What a finished run says about its tokens. */
  ghost predicate OutcomeSound(max: nat, o: Outcome, tokens: seq<Token>) {
    match o.code
    case 0 => o.res.Some? && WellFormed(o.res.value) && Yield(o.res.value) == tokens
    case 1 =>
      o.res.Some? ==>
        var y := Yield(o.res.value);
        WellFormed(o.res.value) && |y| < |tokens| && tokens[..|y|] == y && !IsInfix(tokens[|y|])
    case 2 => |tokens| + 2 >= max
    case _ => false
  }

  lemma StopSound(max: nat, c: Config, tokens: seq<Token>)
    requires Viable(c, tokens) && TEof !in tokens && Step(max, c).Stop?
    ensures OutcomeSound(max, Step(max, c).outcome, tokens)
  {
    StackBound(c.states, c.syms);
    StepKeepsViable(max, c, tokens);
    if c.syms != [] {
      var last := |c.syms| - 1;
      EnteredBy(c, last);
      assert Link(c.states, c.syms, last);
      if Top(c.states) == 26 {
        EnteredBy(c, last - 1);
        assert Link(c.states, c.syms, last - 1);
      }
      if c.syms[0].Start? {
        StartAlone(c);
        StartOnly(c, tokens);
      }
    }
    if c.rest != [] {
      assert tokens[|StackYield(c.syms)|] == c.rest[0];
    }
  }

  /** A stack with the start symbol holds the whole tree and nothing else. */
  lemma StartOnly(c: Config, tokens: seq<Token>)
    requires Viable(c, tokens) && c.syms != [] && c.syms[0].Start?
    ensures WellFormed(c.syms[0].tree) && StackYield(c.syms) == Yield(c.syms[0].tree)
    ensures Top(c.states) == 25 ==> |c.syms| == 1
    ensures Top(c.states) == 26 ==> c.rest == []
  {
    assert Link(c.states, c.syms, 0);
    StartAlone(c);
    if |c.syms| > 1 {
      assert Link(c.states, c.syms, 1);
      if |c.syms| > 2 {
        NothingAboveEnd(c);
      }
      EnteredBy(c, |c.syms| - 1);
      assert Link(c.states, c.syms, |c.syms| - 1);
      assert c.syms == [c.syms[0], c.syms[1]];
      PairYield(c.syms[0], c.syms[1]);
    } else {
      assert c.syms == [c.syms[0]];
      UnitYield(c.syms[0]);
    }
  }

  lemma {:induction false} RunSound(max: nat, c: Config, tokens: seq<Token>)
    requires Viable(c, tokens) && TEof !in tokens
    ensures OutcomeSound(max, Run(max, c), tokens)
    decreases Measure(c)
  {
    if Step(max, c).Continue? {
      StepDecreases(max, c);
      StepKeepsViable(max, c, tokens);
      RunSound(max, Step(max, c).config, tokens);
    } else {
      StopSound(max, c, tokens);
    }
  }

  // ----- The other direction -----

  /** From the moment the whole tree is on the stack. */
  lemma FinishRun(run: Config -> Outcome, max: nat, tree: Cst, rest: seq<Token>, c: Config)
    requires Runs(run, max) && max > 3
    requires c == Stacks([0, 5], [NonTerm(tree)], rest, None)
    requires !IsInfix(First(rest)) && TEof !in rest
    ensures run(c) == Outcome(if rest == [] then 0 else 1, Some(tree))
  {
    assert c.syms[0..] == [NonTerm(tree)] && c.states[..1] == [0] && c.syms[..0] == [];
    var d := Stacks([0, 25], [Start(tree)], rest, Some(tree));
    assert Step(max, c) == Continue(d);
    if rest == [] {
      var e := Stacks([0, 25, 26], [Start(tree), Term(TEof)], [], Some(tree));
      assert Step(max, d) == Continue(e);
      assert Step(max, e) == Stop(Outcome(0, Some(tree)));
    } else {
      assert Step(max, d) == Stop(Outcome(1, Some(tree)));
    }
  }

  lemma ReadsRun(max: nat, tree: Cst, tokens: seq<Token>, rest: seq<Token>)
    requires max > 3 && WellFormed(tree) && tokens == Yield(tree) + rest
    requires !IsInfix(First(rest)) && TEof !in rest
    ensures Run(max, Initial(tokens)) ==
            if 1 + Need(tree) < max then Outcome(if rest == [] then 0 else 1, Some(tree)) else Outcome(2, None)
  {
    var run := (c: Config) => Run(max, c);
    RunRuns(max);
    Simulate(run, max, Initial(tokens), tree, rest);
    if 1 + Need(tree) < max {
      var d := Done(Initial(tokens), tree, rest);
      assert d == Stacks([0, 5], [NonTerm(tree)], rest, None);
      FinishRun(run, max, tree, rest, d);
    }
  }

  // ----- Main results -----

  /** The machine accepts with `tree` exactly when `tree` is a reading of the
      tokens in the stratified grammar and the stack has room for it. */
  lemma AcceptsExactly(max: nat, tokens: seq<Token>, tree: Cst)
    requires max > 3 && TEof !in tokens
    ensures Run(max, Initial(tokens)) == Outcome(0, Some(tree)) <==> Reads(max, tree, tokens)
  {
    InitialViable(tokens);
    RunSound(max, Initial(tokens), tokens);
    if WellFormed(tree) && Yield(tree) == tokens {
      assert tokens == Yield(tree) + [];
      ReadsRun(max, tree, tokens, []);
    }
  }

  lemma PrefixRun(max: nat, tokens: seq<Token>, tree: Cst)
    requires max > 3 && TEof !in tokens && WellFormed(tree)
    requires |Yield(tree)| < |tokens| && tokens[..|Yield(tree)|] == Yield(tree) && !IsInfix(tokens[|Yield(tree)|])
    ensures Run(max, Initial(tokens)) == if 1 + Need(tree) < max then Outcome(1, Some(tree)) else Outcome(2, None)
  {
    var rest := tokens[|Yield(tree)|..];
    assert tokens == Yield(tree) + rest;
    ReadsRun(max, tree, tokens, rest);
  }

  /** A rejected input still has `tree` recorded as its result exactly when `tree`
      is a reading of a proper prefix with no infix operator after it. */
  lemma RejectsExactly(max: nat, tokens: seq<Token>, tree: Cst)
    requires max > 3 && TEof !in tokens
    ensures Run(max, Initial(tokens)) == Outcome(1, Some(tree)) <==> ReadsPrefix(max, tree, tokens)
  {
    var o := Run(max, Initial(tokens));
    if o == Outcome(1, Some(tree)) {
      Trichotomy(max, tokens);
      PrefixRun(max, tokens, tree);
    } else if ReadsPrefix(max, tree, tokens) {
      PrefixRun(max, tokens, tree);
    }
  }

  /** The grammar is unambiguous: precedence and associativity leave one reading. */
  lemma Unambiguous(t1: Cst, t2: Cst)
    requires WellFormed(t1) && WellFormed(t2) && Yield(t1) == Yield(t2)
    ensures t1 == t2
  {
    var max := 4 + Need(t1) + Need(t2);
    YieldHasNoEof(t1);
    AcceptsExactly(max, Yield(t1), t1);
    AcceptsExactly(max, Yield(t1), t2);
  }

  lemma {:induction false} YieldHasNoEof(t: Cst)
    ensures TEof !in Yield(t) && TError !in Yield(t)
  {
    match t
    case CVar =>
    case CNum(_) =>
    case CParen(i) => YieldHasNoEof(i);
    case CNot(a) => YieldHasNoEof(a);
    case CBinary(_, l, r) => YieldHasNoEof(l); YieldHasNoEof(r);
    case CCond(b, x, y) => YieldHasNoEof(b); YieldHasNoEof(x); YieldHasNoEof(y);
  }

  /** The stack cannot overflow on fewer than `max - 2` tokens, whatever they are. */
  lemma ShortInputsFit(max: nat, tokens: seq<Token>)
    requires TEof !in tokens && |tokens| + 2 < max
    ensures Run(max, Initial(tokens)).code != 2
  {
    InitialViable(tokens);
    RunSound(max, Initial(tokens), tokens);
  }

  /** The run ends in one of the three return codes, and acceptance always
      carries a tree. */
  lemma Trichotomy(max: nat, tokens: seq<Token>)
    requires TEof !in tokens
    ensures OutcomeSound(max, Run(max, Initial(tokens)), tokens)
  {
    InitialViable(tokens);
    RunSound(max, Initial(tokens), tokens);
  }
}
