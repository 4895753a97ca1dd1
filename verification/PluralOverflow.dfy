/** Exactly when the parser's stack overflows. */
module PluralOverflow {
  import opened Options
  import opened PluralSyntax
  import opened PluralPrecedence
  import opened PluralMachine
  import opened PluralCompleteness
  import opened PluralSoundness
  import opened PluralTheorems
  import opened Sequences

  /** A stack of `max` entries that obeys precedence spells a beginning of the tokens. */
  ghost predicate FillsStack(max: nat, tokens: seq<Token>) {
    exists c: Config :: Viable(c, tokens) && |c.states| == max
  }

  // ----- An overflow leaves such a stack -----

  lemma GrowsByOne(max: nat, c: Config)
    requires Step(max, c).Continue?
    ensures |c.states| < max && |Step(max, c).config.states| <= |c.states| + 1
  {
  }

  lemma {:induction false} OverflowFills(max: nat, c: Config, tokens: seq<Token>)
    requires Viable(c, tokens) && TEof !in tokens && |c.states| <= max
    ensures Run(max, c).code == 2 ==> FillsStack(max, tokens)
    decreases Measure(c)
  {
    if Step(max, c).Continue? {
      GrowsByOne(max, c);
      StepDecreases(max, c);
      StepKeepsViable(max, c, tokens);
      OverflowFills(max, Step(max, c).config, tokens);
    }
  }

  // ----- Such a stack is reached -----

  /** The configuration in which the first `k` entries of the stack have been made. */
  function Part(c: Config, k: nat): Config
    requires k <= |c.syms|
  {
    Stacks(c.states[..k + 1], c.syms[..k], StackYield(c.syms[k..]) + c.rest, None)
  }

  lemma PartYield(c: Config, k: nat)
    requires k < |c.syms|
    ensures Part(c, k).rest == SymYield(c.syms[k]) + Part(c, k + 1).rest
  {
    assert c.syms[k..] == [c.syms[k]] + c.syms[k + 1..];
    StackYieldConcat([c.syms[k]], c.syms[k + 1..]);
    UnitYield(c.syms[k]);
    Regroup(SymYield(c.syms[k]), StackYield(c.syms[k + 1..]), c.rest);
  }

  /** A token on the stack is one that the state below shifts. */
  lemma TokenShifts(c: Config, k: nat, t: Token)
    requires Linked(c.states, c.syms) && k < |c.syms| && c.syms[k] == Term(t) && t != TEof
    ensures Decide(c.states[k], t) == Shift(c.states[k + 1])
  {
    assert Link(c.states, c.syms, k);
    if k > 0 {
      assert Link(c.states, c.syms, k - 1);
    }
  }

  lemma TokenRun(run: Config -> Outcome, max: nat, c: Config, k: nat, t: Token)
    requires Runs(run, max) && Linked(c.states, c.syms)
    requires k < |c.syms| && c.syms[k] == Term(t) && t != TEof && k + 1 < max
    ensures run(Part(c, k)) == run(Part(c, k + 1))
  {
    var d, e := Part(c, k), Part(c, k + 1);
    TokenShifts(c, k, t);
    PartYield(c, k);
    ShiftRun(run, max, d, c.states[k + 1], t, e.rest);
    assert d.states + [c.states[k + 1]] == e.states && d.syms + [Term(t)] == e.syms;
  }

  /** What is above a tree on the stack does not extend it. */
  lemma TreeEnds(c: Config, k: nat, tokens: seq<Token>, tree: Cst)
    requires Viable(c, tokens) && k < |c.syms| && c.syms[k] == NonTerm(tree)
    ensures !Extends(First(Part(c, k + 1).rest), Level(tree))
  {
    if k + 1 < |c.syms| {
      assert Link(c.states, c.syms, k);
      assert Link(c.states, c.syms, k + 1);
      PartYield(c, k + 1);
    } else {
      assert c.syms[k + 1..] == [];
      assert Part(c, k + 1).rest == c.rest;
    }
  }

  lemma TreeIsDone(c: Config, k: nat, tree: Cst)
    requires Linked(c.states, c.syms) && k < |c.syms| && c.syms[k] == NonTerm(tree)
    ensures IsOpen(c.states[k]) && WellFormed(tree) && Level(tree) >= Context(c.states[k])
    ensures Done(Part(c, k), tree, Part(c, k + 1).rest) == Part(c, k + 1)
  {
    var d, e := Part(c, k), Part(c, k + 1);
    assert Link(c.states, c.syms, k);
    assert d.states + [c.states[k + 1]] == e.states && d.syms + [NonTerm(tree)] == e.syms;
  }

  lemma TreeRun(run: Config -> Outcome, max: nat, c: Config, k: nat, tokens: seq<Token>, tree: Cst)
    requires Runs(run, max) && Viable(c, tokens) && k < |c.syms| && c.syms[k] == NonTerm(tree)
    ensures run(Part(c, k)) == Outcome(2, None) || run(Part(c, k)) == run(Part(c, k + 1))
  {
    TreeIsDone(c, k, tree);
    TreeEnds(c, k, tokens, tree);
    PartYield(c, k);
    Simulate(run, max, Part(c, k), tree, Part(c, k + 1).rest);
  }

  /** Only a tree that is nothing but the input is under the start symbol. */
  lemma NoStart(c: Config, tokens: seq<Token>, k: nat)
    requires Viable(c, tokens) && |c.states| > 3 && k < |c.syms|
    ensures !c.syms[k].Start? && c.syms[k] != Term(TEof)
  {
    assert Link(c.states, c.syms, 0) && Link(c.states, c.syms, 1) && Link(c.states, c.syms, 2);
    assert Link(c.states, c.syms, k);
    if c.states[k] == 25 {
      assert Link(c.states, c.syms, k - 1);
    }
  }

  /** The machine makes the stack entry by entry, if it does not overflow before. */
  lemma {:induction false} PartsRun(run: Config -> Outcome, max: nat, c: Config, tokens: seq<Token>, k: nat)
    requires Runs(run, max) && Viable(c, tokens) && |c.states| == max > 3 && k <= |c.syms|
    ensures run(Initial(tokens)) == Outcome(2, None) || run(Initial(tokens)) == run(Part(c, k))
  {
    if k == 0 {
      assert c.syms[0..] == c.syms && c.states[..1] == [0];
    } else {
      PartsRun(run, max, c, tokens, k - 1);
      NoStart(c, tokens, k - 1);
      match c.syms[k - 1]
      case Term(t) => TokenRun(run, max, c, k - 1, t);
      case NonTerm(tree) => TreeRun(run, max, c, k - 1, tokens, tree);
      case Start(_) =>
    }
  }

  lemma FilledOverflows(run: Config -> Outcome, max: nat, c: Config, tokens: seq<Token>)
    requires Runs(run, max) && Viable(c, tokens) && |c.states| == max > 3
    ensures run(Initial(tokens)) == Outcome(2, None)
  {
    PartsRun(run, max, c, tokens, |c.syms|);
    OverflowRun(run, max, Part(c, |c.syms|));
  }

  /** The stack overflows if and only if it can be filled by a beginning of the tokens. */
  lemma OverflowsExactly(max: nat, tokens: seq<Token>)
    requires max > 3 && TEof !in tokens
    ensures Run(max, Initial(tokens)).code == 2 <==> FillsStack(max, tokens)
  {
    InitialViable(tokens);
    OverflowFills(max, Initial(tokens), tokens);
    if c: Config :| Viable(c, tokens) && |c.states| == max {
      RunRuns(max);
      FilledOverflows((d: Config) => Run(max, d), max, c, tokens);
    }
  }
}
