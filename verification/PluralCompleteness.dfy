/** Every concrete syntax tree is recognised: the machine reads its tokens and
    leaves the tree on its stack. */
module PluralCompleteness {
  import opened PluralSyntax
  import opened PluralPrecedence
  import opened PluralMachine

  /** An infix token that would pull the last operand of a level-`level`
      expression to its own right. */
  predicate Extends(t: Token, level: nat) {
    IsInfix(t) && (level == 0 || TokenLevel(t) > level)
  }

  /** `tree` may be read in the top state of `c`, and ends where `rest` begins. */
  predicate Readable(c: Config, tree: Cst, rest: seq<Token>) {
    && WellFormed(tree)
    && c.rest == Yield(tree) + rest
    && IsOpen(Top(c.states))
    && Level(tree) >= Context(Top(c.states))
    && !Extends(First(rest), Level(tree))
  }

  /** The configuration in which `tree` has been read. */
  function Done(c: Config, tree: Cst, rest: seq<Token>): Config
    requires IsOpen(Top(c.states))
  {
    Stacks(c.states + [Closed(Top(c.states))], c.syms + [NonTerm(tree)], rest, c.res)
  }

  function ShiftTo(c: Config, s: State, t: Token, rest: seq<Token>): Config
  {
    Stacks(c.states + [s], c.syms + [Term(t)], rest, c.res)
  }

  lemma ShiftRun(run: Config -> Outcome, max: nat, c: Config, s: State, t: Token, rest: seq<Token>)
    requires Runs(run, max)
    requires c.rest == [t] + rest
    requires Decide(Top(c.states), t) == Shift(s)
    requires |c.states| < max
    ensures run(c) == run(ShiftTo(c, s, t, rest))
  {
    assert c.rest[1..] == rest;
    assert ShiftConfig(c, s) == ShiftTo(c, s, t, rest);
    assert Step(max, c) == Continue(ShiftTo(c, s, t, rest));
  }

  lemma ReduceRun(run: Config -> Outcome, max: nat, c: Config, rule: int, base: Config, args: seq<Sym>, tree: Cst)
    requires Runs(run, max)
    requires |c.states| < max
    requires 2 <= rule <= 12 && |args| == RuleLength(rule) && Build(rule, args) == NonTerm(tree)
    requires Decide(Top(c.states), First(c.rest)) == Reduce(rule)
    requires c.syms == base.syms + args && c.res == base.res
    requires c.states[..|base.states|] == base.states
    requires IsOpen(Top(base.states))
    ensures run(c) == run(Done(base, tree, c.rest))
  {
    var n := |c.syms| - RuleLength(rule);
    assert c.syms[n..] == args && c.syms[..n] == base.syms;
    assert Top(c.states[..n + 1]) == Top(base.states);
    assert ReduceConfig(c, rule) == Done(base, tree, c.rest);
    assert Step(max, c) == Continue(Done(base, tree, c.rest));
  }

  lemma OverflowRun(run: Config -> Outcome, max: nat, c: Config)
    requires Runs(run, max) && |c.states| >= max
    ensures run(c) == Outcome(2, c.res)
  {
    assert Step(max, c).Stop?;
  }

  /** What running `c` over the tokens of `tree` comes to. */
  function Simulated(run: Config -> Outcome, max: nat, c: Config, tree: Cst, rest: seq<Token>): Outcome
    requires Readable(c, tree, rest)
  {
    if |c.states| + Need(tree) < max then run(Done(c, tree, rest)) else Outcome(2, c.res)
  }

  /** A construct begun in `s` ends when the next token does not extend it. */
  lemma EndRun(s: State, t: Token)
    requires IsOpen(s) && EndAction(s).Reduce? && (IsInfix(t) ==> TokenLevel(t) < Context(s))
    ensures Decide(Closed(s), t) == EndAction(s)
  {
  }

  lemma ReadAtom(run: Config -> Outcome, max: nat, c: Config, tree: Cst, rest: seq<Token>)
    requires Runs(run, max)
    requires Readable(c, tree, rest) && (tree.CVar? || tree.CNum?)
    ensures run(c) == Simulated(run, max, c, tree, rest)
  {
    if |c.states| < max {
      var t := Yield(tree)[0];
      ShiftRun(run, max, c, PrefixState(t), t, rest);
      var c1 := ShiftTo(c, PrefixState(t), t, rest);
      if |c1.states| < max {
        ReduceRun(run, max, c1, if tree.CVar? then 10 else 11, c, [Term(t)], tree);
      } else {
        OverflowRun(run, max, c1);
      }
    } else {
      OverflowRun(run, max, c);
    }
  }

  /** An operand is complete and the infix token after it is shifted. */
  lemma InfixRun(run: Config -> Outcome, max: nat, c: Config, left: Cst, t: Token, rest: seq<Token>)
    requires Runs(run, max)
    requires Readable(c, left, [t] + rest) && IsInfix(t) && TokenLevel(t) >= Context(Top(c.states))
    ensures run(c) == if |c.states| + Need(left) < max
                           then run(ShiftTo(Done(c, left, [t] + rest), InfixState(t), t, rest))
                           else Outcome(2, c.res)
    decreases left, 4
  {
    Simulate(run, max, c, left, [t] + rest);
    if |c.states| + Need(left) < max {
      ShiftRun(run, max, Done(c, left, [t] + rest), InfixState(t), t, rest);
    }
  }

  lemma ReadParen(run: Config -> Outcome, max: nat, c: Config, tree: Cst, rest: seq<Token>)
    requires Runs(run, max)
    requires Readable(c, tree, rest) && tree.CParen?
    ensures run(c) == Simulated(run, max, c, tree, rest)
    decreases tree, 1
  {
    if |c.states| < max {
      var rest0 := Yield(tree.inner) + ([TRParen] + rest);
      assert c.rest == [TLParen] + rest0;
      ShiftRun(run, max, c, 4, TLParen, rest0);
      ReadClosing(run, max, c, tree, rest, ShiftTo(c, 4, TLParen, rest0));
    } else {
      OverflowRun(run, max, c);
    }
  }

  /** The bracketed expression and its closing parenthesis. */
  lemma ReadClosing(run: Config -> Outcome, max: nat, c: Config, tree: Cst, rest: seq<Token>, c1: Config)
    requires Runs(run, max)
    requires Readable(c, tree, rest) && tree.CParen?
    requires c1 == ShiftTo(c, 4, TLParen, Yield(tree.inner) + ([TRParen] + rest))
    ensures run(c1) == Simulated(run, max, c, tree, rest)
    decreases tree, 0
  {
    var i := tree.inner;
    Simulate(run, max, c1, i, [TRParen] + rest);
    if |c1.states| + Need(i) < max {
      var c2 := Done(c1, i, [TRParen] + rest);
      ShiftRun(run, max, c2, 15, TRParen, rest);
      ReduceParen(run, max, c, tree, rest, ShiftTo(c2, 15, TRParen, rest));
    }
  }

  lemma ReduceParen(run: Config -> Outcome, max: nat, c: Config, tree: Cst, rest: seq<Token>, c3: Config)
    requires Runs(run, max)
    requires Readable(c, tree, rest) && tree.CParen?
    requires c3.rest == rest && c3.res == c.res
    requires |c3.states| == |c.states| + 3 && c3.states[..|c.states|] == c.states && Top(c3.states) == 15
    requires c3.syms == c.syms + [Term(TLParen), NonTerm(tree.inner), Term(TRParen)]
    ensures run(c3) == if |c3.states| < max then run(Done(c, tree, rest)) else Outcome(2, c.res)
  {
    if |c3.states| < max {
      ReduceRun(run, max, c3, 12, c, [Term(TLParen), NonTerm(tree.inner), Term(TRParen)], tree);
    } else {
      OverflowRun(run, max, c3);
    }
  }

  lemma ReadNot(run: Config -> Outcome, max: nat, c: Config, tree: Cst, rest: seq<Token>)
    requires Runs(run, max)
    requires Readable(c, tree, rest) && tree.CNot?
    ensures run(c) == Simulated(run, max, c, tree, rest)
    decreases tree, 0
  {
    if |c.states| < max {
      assert c.rest == [TNot] + (Yield(tree.arg) + rest);
      ShiftRun(run, max, c, 1, TNot, Yield(tree.arg) + rest);
      var c1 := ShiftTo(c, 1, TNot, Yield(tree.arg) + rest);
      Simulate(run, max, c1, tree.arg, rest);
      if |c1.states| + Need(tree.arg) < max {
        EndRun(1, First(rest));
        ReduceRun(run, max, Done(c1, tree.arg, rest), 9, c, [Term(TNot), NonTerm(tree.arg)], tree);
      }
    } else {
      OverflowRun(run, max, c);
    }
  }

  lemma ReadBinary(run: Config -> Outcome, max: nat, c: Config, tree: Cst, rest: seq<Token>)
    requires Runs(run, max)
    requires Readable(c, tree, rest) && tree.CBinary?
    ensures run(c) == Simulated(run, max, c, tree, rest)
    decreases tree, 1
  {
    var t, rest2 := TOp(tree.op), Yield(tree.right) + rest;
    BinaryTokens(Yield(tree.left), t, Yield(tree.right), rest);
    InfixRun(run, max, c, tree.left, t, rest2);
    if |c.states| + Need(tree.left) < max {
      ReadRight(run, max, c, tree, rest, ShiftTo(Done(c, tree.left, [t] + rest2), InfixState(t), t, rest2));
    }
  }

  /** The right operand, once the operator is shifted. */
  lemma ReadRight(run: Config -> Outcome, max: nat, c: Config, tree: Cst, rest: seq<Token>, c2: Config)
    requires Runs(run, max)
    requires Readable(c, tree, rest) && tree.CBinary?
    requires c2.rest == Yield(tree.right) + rest && c2.res == c.res
    requires |c2.states| == |c.states| + 2 && c2.states[..|c.states|] == c.states
    requires Top(c2.states) == InfixState(TOp(tree.op))
    requires c2.syms == c.syms + [NonTerm(tree.left), Term(TOp(tree.op))]
    ensures run(c2) == if |c.states| + 2 + Need(tree.right) < max
                            then run(Done(c, tree, rest)) else Outcome(2, c.res)
    decreases tree, 0
  {
    Simulate(run, max, c2, tree.right, rest);
    if |c2.states| + Need(tree.right) < max {
      EndRun(InfixState(TOp(tree.op)), First(rest));
      ReduceRun(run, max, Done(c2, tree.right, rest), OpLevel(tree.op) + 2, c,
                [NonTerm(tree.left), Term(TOp(tree.op)), NonTerm(tree.right)], tree);
    }
  }

  lemma BinaryTokens(l: seq<Token>, t: Token, r: seq<Token>, rest: seq<Token>)
    ensures l + [t] + r + rest == l + ([t] + (r + rest))
  {
  }

  lemma CondTokens(b: seq<Token>, t: seq<Token>, f: seq<Token>, rest: seq<Token>)
    ensures b + [TQuestion] + t + [TColon] + f + rest == b + ([TQuestion] + (t + ([TColon] + (f + rest))))
  {
  }

  lemma ReadCond(run: Config -> Outcome, max: nat, c: Config, tree: Cst, rest: seq<Token>)
    requires Runs(run, max)
    requires Readable(c, tree, rest) && tree.CCond?
    ensures run(c) == Simulated(run, max, c, tree, rest)
    decreases tree, 2
  {
    var rest2 := Yield(tree.tbranch) + ([TColon] + (Yield(tree.fbranch) + rest));
    CondTokens(Yield(tree.cond), Yield(tree.tbranch), Yield(tree.fbranch), rest);
    InfixRun(run, max, c, tree.cond, TQuestion, rest2);
    if |c.states| + Need(tree.cond) < max {
      ReadThen(run, max, c, tree, rest, ShiftTo(Done(c, tree.cond, [TQuestion] + rest2), 8, TQuestion, rest2));
    }
  }

  lemma AppendTwo(a: seq<Sym>, w: Sym, x: Sym, y: Sym, z: Sym)
    ensures a + [w, x] + [y] + [z] == a + [w, x, y, z]
  {
  }

  /** The middle part of `cond ? tbranch : fbranch`, once the question mark is
      shifted. */
  lemma ReadThen(run: Config -> Outcome, max: nat, c: Config, tree: Cst, rest: seq<Token>, c2: Config)
    requires Runs(run, max)
    requires Readable(c, tree, rest) && tree.CCond?
    requires c2.rest == Yield(tree.tbranch) + ([TColon] + (Yield(tree.fbranch) + rest))
    requires c2.res == c.res
    requires |c2.states| == |c.states| + 2 && c2.states[..|c.states|] == c.states && Top(c2.states) == 8
    requires c2.syms == c.syms + [NonTerm(tree.cond), Term(TQuestion)]
    ensures run(c2) == if |c.states| + Max(2 + Need(tree.tbranch), 4 + Need(tree.fbranch)) < max
                            then run(Done(c, tree, rest)) else Outcome(2, c.res)
    decreases tree, 1
  {
    var rest4 := Yield(tree.fbranch) + rest;
    Simulate(run, max, c2, tree.tbranch, [TColon] + rest4);
    if |c2.states| + Need(tree.tbranch) < max {
      var c4 := ColonRun(run, max, c, tree, rest, c2);
      ReadElse(run, max, c, tree, rest, c4);
    }
  }

  /** The colon is shifted behind the middle part. */
  lemma ColonRun(run: Config -> Outcome, max: nat, c: Config, tree: Cst, rest: seq<Token>, c2: Config)
    returns (c4: Config)
    requires Runs(run, max) && tree.CCond? && c2.res == c.res
    requires |c2.states| == |c.states| + 2 < max - 1 && c2.states[..|c.states|] == c.states && Top(c2.states) == 8
    requires c2.syms == c.syms + [NonTerm(tree.cond), Term(TQuestion)]
    ensures c4.rest == Yield(tree.fbranch) + rest && c4.res == c.res
    ensures |c4.states| == |c.states| + 4 && c4.states[..|c.states|] == c.states && Top(c4.states) == 23
    ensures c4.syms == c.syms + [NonTerm(tree.cond), Term(TQuestion), NonTerm(tree.tbranch), Term(TColon)]
    ensures run(Done(c2, tree.tbranch, [TColon] + (Yield(tree.fbranch) + rest))) == run(c4)
  {
    var rest4 := Yield(tree.fbranch) + rest;
    var c3 := Done(c2, tree.tbranch, [TColon] + rest4);
    ShiftRun(run, max, c3, 23, TColon, rest4);
    AppendTwo(c.syms, NonTerm(tree.cond), Term(TQuestion), NonTerm(tree.tbranch), Term(TColon));
    c4 := ShiftTo(c3, 23, TColon, rest4);
  }

  /** The last part, once the colon is shifted. */
  lemma ReadElse(run: Config -> Outcome, max: nat, c: Config, tree: Cst, rest: seq<Token>, c4: Config)
    requires Runs(run, max)
    requires Readable(c, tree, rest) && tree.CCond?
    requires c4.rest == Yield(tree.fbranch) + rest && c4.res == c.res
    requires |c4.states| == |c.states| + 4 && c4.states[..|c.states|] == c.states && Top(c4.states) == 23
    requires c4.syms == c.syms + [NonTerm(tree.cond), Term(TQuestion), NonTerm(tree.tbranch), Term(TColon)]
    ensures run(c4) == if |c.states| + 4 + Need(tree.fbranch) < max
                            then run(Done(c, tree, rest)) else Outcome(2, c.res)
    decreases tree, 0
  {
    Simulate(run, max, c4, tree.fbranch, rest);
    if |c4.states| + Need(tree.fbranch) < max {
      EndRun(23, First(rest));
      ReduceRun(run, max, Done(c4, tree.fbranch, rest), 2, c,
                [NonTerm(tree.cond), Term(TQuestion), NonTerm(tree.tbranch), Term(TColon), NonTerm(tree.fbranch)],
                tree);
    }
  }

  /** From any open state the machine reads exactly `tree`, or overflows exactly
      when the tree needs more stack than there is. */
  lemma {:induction false} Simulate(run: Config -> Outcome, max: nat, c: Config, tree: Cst, rest: seq<Token>)
    requires Runs(run, max)
    requires Readable(c, tree, rest)
    ensures run(c) == Simulated(run, max, c, tree, rest)
    decreases tree, 3
  {
    match tree
    case CVar => ReadAtom(run, max, c, tree, rest);
    case CNum(_) => ReadAtom(run, max, c, tree, rest);
    case CParen(_) => ReadParen(run, max, c, tree, rest);
    case CNot(_) => ReadNot(run, max, c, tree, rest);
    case CBinary(_, _, _) => ReadBinary(run, max, c, tree, rest);
    case CCond(_, _, _) => ReadCond(run, max, c, tree, rest);
  }
}
