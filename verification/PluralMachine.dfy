/** The parser as a machine on stacks: one `Step` per pass through `yybackup`. */
module PluralMachine {
  import opened Options
  import opened PluralSyntax
  import opened PluralPrecedence

  /** What a stack entry above the bottom stands for. */
  datatype Sym = Term(tok: Token) | NonTerm(tree: Cst) | Start(tree: Cst)

  /** `states` is the state stack, `syms` the symbols between its entries,
      `rest` the tokens not yet shifted, `res` the result recorded so far. */
  datatype Stacks = Stacks(states: seq<State>, syms: seq<Sym>, rest: seq<Token>, res: Option<Cst>)

  type Config = c: Stacks | |c.states| == |c.syms| + 1 witness Stacks([0], [], [], None)

  /** The return value and the recorded result. */
  datatype Outcome = Outcome(code: int, res: Option<Cst>)

  datatype Next = Continue(config: Config) | Stop(outcome: Outcome)

  function Top(states: seq<State>): State
    requires |states| > 0
  {
    states[|states| - 1]
  }

  function First(rest: seq<Token>): Token {
    if rest == [] then TEof else rest[0]
  }

  function TreeOf(s: Sym): Cst {
    match s
    case Term(_) => CVar
    case NonTerm(c) => c
    case Start(c) => c
  }

  function OpOf(s: Sym): Operator {
    if s.Term? && s.tok.TOp? then s.tok.op else Mult
  }

  function NumOf(s: Sym): nat {
    if s.Term? && s.tok.TNumber? then s.tok.num else 0
  }

  /** The grammar rules' actions. */
  function Build(rule: int, args: seq<Sym>): Sym
    requires 1 <= rule <= 12 && |args| == RuleLength(rule)
  {
    if rule == 1 then Start(TreeOf(args[0]))
    else if rule == 2 then NonTerm(CCond(TreeOf(args[0]), TreeOf(args[2]), TreeOf(args[4])))
    else if rule == 3 then NonTerm(CBinary(LOr, TreeOf(args[0]), TreeOf(args[2])))
    else if rule == 4 then NonTerm(CBinary(LAnd, TreeOf(args[0]), TreeOf(args[2])))
    else if rule <= 8 then NonTerm(CBinary(OpOf(args[1]), TreeOf(args[0]), TreeOf(args[2])))
    else if rule == 9 then NonTerm(CNot(TreeOf(args[1])))
    else if rule == 10 then NonTerm(CVar)
    else if rule == 11 then NonTerm(CNum(NumOf(args[0])))
    else NonTerm(CParen(TreeOf(args[1])))
  }

  function ShiftConfig(c: Config, s: State): Config
  {
    Stacks(c.states + [s], c.syms + [Term(First(c.rest))], if c.rest == [] then [] else c.rest[1..], c.res)
  }

  function ReduceConfig(c: Config, rule: int): Config
    requires 1 <= rule <= 12 && |c.syms| >= RuleLength(rule)
  {
    var n := |c.syms| - RuleLength(rule);
    var value := Build(rule, c.syms[n..]);
    var below := c.states[..n + 1];
    Stacks(below + [AfterReduce(Top(below), rule)], c.syms[..n] + [value], c.rest,
           if rule == 1 then Some(value.tree) else c.res)
  }

  /** One pass: overflow check, table lookup, shift or reduction. A stack too
      short for its rule does not arise (see `PluralSoundness.StepKeepsViable`). */
  function Step(max: nat, c: Config): (next: Next)
  {
    if |c.states| >= max then Stop(Outcome(2, c.res))
    else
      match Decide(Top(c.states), First(c.rest))
      case Fail => Stop(Outcome(1, c.res))
      case Accept => Stop(Outcome(0, c.res))
      case Shift(s) => Continue(ShiftConfig(c, s))
      case Reduce(r) => if |c.syms| < RuleLength(r) then Stop(Outcome(1, c.res)) else Continue(ReduceConfig(c, r))
  }

  // ----- Termination -----

  function Weight(s: State): nat {
    if s == 2 || s == 3 then 4 else if s == 25 || s == 26 then 2 else 3
  }

  function StackWeight(states: seq<State>): nat {
    if states == [] then 0 else StackWeight(states[..|states| - 1]) + Weight(states[|states| - 1])
  }

  function Measure(c: Config): nat
  {
    5 * |c.rest| + StackWeight(c.states) + if Top(c.states) == 26 then 0 else 4
  }

  lemma StackWeightPush(states: seq<State>, s: State)
    ensures StackWeight(states + [s]) == StackWeight(states) + Weight(s)
  {
    assert (states + [s])[..|states|] == states;
  }

  lemma {:induction false} StackWeightPop(states: seq<State>, n: nat)
    requires n <= |states|
    ensures StackWeight(states[..n]) + 2 * (|states| - n) <= StackWeight(states)
  {
    if n == |states| {
      assert states[..n] == states;
    } else {
      var front := states[..|states| - 1];
      StackWeightPop(front, n);
      assert front[..n] == states[..n];
    }
  }

  lemma ShiftDecreases(c: Config, s: State)
    requires Top(c.states) != 26 && (c.rest == [] ==> s == 26)
    ensures Measure(ShiftConfig(c, s)) < Measure(c)
  {
    StackWeightPush(c.states, s);
  }

  /** A state that a rule leads to weighs less than what the rule takes off the stack. */
  lemma WeightLost(top: State, t: Token, r: int, goto: State)
    requires Decide(top, t) == Reduce(r) && (r == 1 ==> goto == 25) && (r > 1 ==> goto != 2 && goto != 3)
    ensures Weight(goto) < if RuleLength(r) == 1 then Weight(top) else 2 * RuleLength(r)
    ensures top != 26
  {
  }

  lemma ReduceDecreases(c: Config, r: int)
    requires Decide(Top(c.states), First(c.rest)) == Reduce(r)
    requires |c.syms| >= RuleLength(r)
    ensures Measure(ReduceConfig(c, r)) < Measure(c)
  {
    var n := |c.states| - RuleLength(r);
    var goto := AfterReduce(Top(c.states[..n]), r);
    assert ReduceConfig(c, r).states == c.states[..n] + [goto];
    WeightLost(Top(c.states), First(c.rest), r, goto);
    StackWeightPush(c.states[..n], goto);
    if RuleLength(r) == 1 {
      StackWeightPush(c.states[..n], Top(c.states));
      assert c.states == c.states[..n] + [Top(c.states)];
    } else {
      StackWeightPop(c.states, n);
    }
  }

  lemma StepDecreases(max: nat, c: Config)
    requires Step(max, c).Continue?
    ensures Measure(Step(max, c).config) < Measure(c)
  {
    match Decide(Top(c.states), First(c.rest))
    case Shift(s) => ShiftDecreases(c, s);
    case Reduce(r) => ReduceDecreases(c, r);
    case _ =>
  }

  /** The whole run. */
  function Run(max: nat, c: Config): Outcome
    decreases Measure(c)
  {
    match Step(max, c)
    case Stop(o) => o
    case Continue(d) => StepDecreases(max, c); Run(max, d)
  }

  /** What any function that runs the machine satisfies. */
  ghost predicate Runs(run: Config -> Outcome, max: nat) {
    forall c: Config {:trigger Step(max, c)} ::
      run(c) == match Step(max, c) case Stop(o) => o case Continue(d) => run(d)
  }

  lemma RunRuns(max: nat)
    ensures Runs((c: Config) => Run(max, c), max)
  {
  }

  function Initial(tokens: seq<Token>): Config
  {
    Stacks([0], [], tokens, None)
  }
}
