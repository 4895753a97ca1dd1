/** Whatever the machine accepts is the tree of a well-formed reading of its
    tokens: an invariant over every configuration of every run. */
module PluralSoundness {
  import opened Options
  import opened PluralSyntax
  import opened PluralPrecedence
  import opened PluralMachine
  import opened PluralCompleteness
  import opened Sequences

  /** The tokens a stack symbol stands for. */
  function SymYield(s: Sym): seq<Token> {
    match s
    case Term(t) => if t.TEof? then [] else [t]
    case NonTerm(c) => Yield(c)
    case Start(c) => Yield(c)
  }

  function StackYield(syms: seq<Sym>): seq<Token> {
    if syms == [] then []
    else StackYield(syms[..|syms| - 1]) + SymYield(syms[|syms| - 1])
  }

  /** How entry `i` of the stack got there. */
  predicate Link(states: seq<State>, syms: seq<Sym>, i: nat)
    requires |states| == |syms| + 1 && i < |syms|
  {
    var p, n := states[i], states[i + 1];
    match syms[i]
    case NonTerm(t) => IsOpen(p) && n == Closed(p) && WellFormed(t) && Level(t) >= Context(p)
    case Start(t) => i == 0 && n == 25 && WellFormed(t)
    case Term(t) =>
      if StartsExpr(t) then IsOpen(p) && n == PrefixState(t)
      else if IsInfix(t) then
        && i > 0
        && syms[i - 1].NonTerm?
        && !Extends(t, Level(syms[i - 1].tree))
        && IsOpen(states[i - 1])
        && TokenLevel(t) >= Context(states[i - 1])
        && n == InfixState(t)
      else
        || (t.TRParen? && p == 7 && n == 15)
        || (t.TColon? && p == 16 && n == 23)
        || (t.TEof? && p == 25 && n == 26)
  }

  ghost predicate Linked(states: seq<State>, syms: seq<Sym>) {
    && |states| == |syms| + 1
    && states[0] == 0
    && forall i :: 0 <= i < |syms| ==> Link(states, syms, i)
  }

  /** The invariant of a run on `tokens`. */
  ghost predicate Viable(c: Config, tokens: seq<Token>) {
    && Linked(c.states, c.syms)
    && StackYield(c.syms) + c.rest == tokens
    && (c.syms != [] ==>
          var last := c.syms[|c.syms| - 1];
          && (last.NonTerm? ==> !Extends(First(c.rest), Level(last.tree)))
          && (last.Start? ==> !IsInfix(First(c.rest)))
          && (last == Term(TEof) ==> c.rest == []))
    && c.res == if c.syms != [] && c.syms[0].Start? then Some(c.syms[0].tree) else None
  }

  // ----- Lemmas on yields -----

  lemma StackYieldPush(syms: seq<Sym>, s: Sym)
    ensures StackYield(syms + [s]) == StackYield(syms) + SymYield(s)
  {
    assert (syms + [s])[..|syms|] == syms;
  }

  lemma {:induction false} StackYieldConcat(a: seq<Sym>, b: seq<Sym>)
    ensures StackYield(a + b) == StackYield(a) + StackYield(b)
  {
    if b == [] {
      assert a + b == a;
    } else {
      var front, last := b[..|b| - 1], b[|b| - 1];
      assert b == front + [last] && a + b == (a + front) + [last];
      StackYieldConcat(a, front);
      StackYieldPush(a + front, last);
      StackYieldPush(front, last);
      Regroup(StackYield(a), StackYield(front), SymYield(last));
    }
  }

  lemma StackYieldSplit(syms: seq<Sym>, n: nat)
    requires n <= |syms|
    ensures StackYield(syms) == StackYield(syms[..n]) + StackYield(syms[n..])
  {
    assert syms == syms[..n] + syms[n..];
    StackYieldConcat(syms[..n], syms[n..]);
  }

  // ----- The stack below a state -----

  /** A state on the stack tells the symbol it was entered by. */
  lemma EnteredBy(c: Config, i: nat)
    requires Linked(c.states, c.syms) && i < |c.syms|
    ensures c.states[i + 1] != 0
    ensures IsClosed(c.states[i + 1]) <==> c.syms[i].NonTerm?
    ensures c.states[i + 1] == 25 <==> c.syms[i].Start?
    ensures c.syms[i].Term? <==> !IsClosed(c.states[i + 1]) && c.states[i + 1] != 25
  {
    assert Link(c.states, c.syms, i);
  }

  lemma LinkedPush(states: seq<State>, syms: seq<Sym>, s: State, x: Sym)
    requires Linked(states, syms) && Link(states + [s], syms + [x], |syms|)
    ensures Linked(states + [s], syms + [x])
  {
    forall i | 0 <= i < |syms + [x]|
      ensures Link(states + [s], syms + [x], i)
    {
      if i < |syms| {
        assert Link(states, syms, i);
      }
    }
  }

  lemma LinkedPop(states: seq<State>, syms: seq<Sym>, n: nat)
    requires Linked(states, syms) && n <= |syms|
    ensures Linked(states[..n + 1], syms[..n])
  {
    var lower, kept := states[..n + 1], syms[..n];
    forall i | 0 <= i < n
      ensures Link(lower, kept, i)
    {
      assert Link(states, syms, i);
    }
  }

  // ----- Shifts -----

  lemma ShiftLink(c: Config, t: Token)
    requires Linked(c.states, c.syms) && Decide(Top(c.states), t).Shift?
    requires c.syms != [] && c.syms[|c.syms| - 1].NonTerm? ==> !Extends(t, Level(c.syms[|c.syms| - 1].tree))
    ensures Link(c.states + [Decide(Top(c.states), t).state], c.syms + [Term(t)], |c.syms|)
  {
    var n := |c.syms|;
    if n > 0 {
      EnteredBy(c, n - 1);
      assert Link(c.states, c.syms, n - 1);
    }
  }

  lemma ShiftKeepsViable(c: Config, tokens: seq<Token>)
    requires Viable(c, tokens) && TEof !in tokens
    requires Decide(Top(c.states), First(c.rest)).Shift?
    ensures Viable(ShiftConfig(c, Decide(Top(c.states), First(c.rest)).state), tokens)
  {
    var t := First(c.rest);
    var s := Decide(Top(c.states), t).state;
    ShiftLink(c, t);
    LinkedPush(c.states, c.syms, s, Term(t));
    ShiftYield(c, tokens, s);
  }

  lemma ShiftYield(c: Config, tokens: seq<Token>, s: State)
    requires StackYield(c.syms) + c.rest == tokens && TEof !in tokens
    ensures var d := ShiftConfig(c, s);
            && StackYield(d.syms) + d.rest == tokens
            && (First(c.rest).TEof? ==> c.rest == [])
  {
    var t := First(c.rest);
    assert t.TEof? ==> c.rest == [] by {
      assert c.rest != [] ==> tokens[|StackYield(c.syms)|] == t;
    }
    StackYieldPush(c.syms, Term(t));
    var d := ShiftConfig(c, s);
    Regroup(StackYield(c.syms), SymYield(Term(t)), d.rest);
    assert SymYield(Term(t)) + d.rest == c.rest;
  }

  // ----- Reductions -----

  /** Replacing the entries from `n` up by a tree with the same tokens. */
  lemma FoldKeepsViable(c: Config, tokens: seq<Token>, n: nat, tree: Cst)
    requires Viable(c, tokens) && n < |c.syms|
    requires IsOpen(c.states[n]) && WellFormed(tree) && Level(tree) >= Context(c.states[n])
    requires StackYield(c.syms[n..]) == Yield(tree)
    requires !Extends(First(c.rest), Level(tree))
    requires !c.syms[0].Start?
    ensures Viable(Stacks(c.states[..n + 1] + [Closed(c.states[n])], c.syms[..n] + [NonTerm(tree)], c.rest, c.res),
                   tokens)
  {
    LinkedPop(c.states, c.syms, n);
    LinkedPush(c.states[..n + 1], c.syms[..n], Closed(c.states[n]), NonTerm(tree));
    StackYieldSplit(c.syms, n);
    StackYieldPush(c.syms[..n], NonTerm(tree));
  }

  lemma NothingAboveEnd(c: Config)
    requires Linked(c.states, c.syms) && |c.syms| > 2
    ensures c.states[2] != 26
  {
    assert Link(c.states, c.syms, 2);
    EnteredBy(c, 1);
  }

  /** A stack that starts with the start symbol holds nothing else but the end. */
  lemma StartAlone(c: Config)
    requires Linked(c.states, c.syms) && c.syms != [] && c.syms[0].Start?
    ensures Top(c.states) == 25 || Top(c.states) == 26
  {
    assert Link(c.states, c.syms, 0);
    if |c.syms| > 1 {
      assert Link(c.states, c.syms, 1);
      if |c.syms| > 2 {
        NothingAboveEnd(c);
      }
    }
  }

  lemma UnitYield(s: Sym)
    ensures StackYield([s]) == SymYield(s)
  {
    StackYieldPush([], s);
    assert [] + [s] == [s];
  }

  lemma PairYield(a: Sym, b: Sym)
    ensures StackYield([a, b]) == SymYield(a) + SymYield(b)
  {
    UnitYield(a);
    StackYieldPush([a], b);
    assert [a] + [b] == [a, b];
  }

  lemma TripleYield(a: Sym, b: Sym, c: Sym)
    ensures StackYield([a, b, c]) == SymYield(a) + SymYield(b) + SymYield(c)
  {
    PairYield(a, b);
    StackYieldPush([a, b], c);
    assert [a, b] + [c] == [a, b, c];
  }

  /** The reduction by a rule that makes `tree` of the entries from `n` up. */
  lemma ReduceKeepsViable(c: Config, tokens: seq<Token>, r: int, n: nat, tree: Cst)
    requires Viable(c, tokens) && 2 <= r <= 12 && n < |c.syms| && n == |c.syms| - RuleLength(r)
    requires Top(c.states) != 25 && Top(c.states) != 26
    requires Build(r, c.syms[n..]) == NonTerm(tree)
    requires IsOpen(c.states[n]) && WellFormed(tree) && Level(tree) >= Context(c.states[n])
    requires StackYield(c.syms[n..]) == Yield(tree)
    requires !Extends(First(c.rest), Level(tree))
    ensures Viable(ReduceConfig(c, r), tokens)
  {
    if c.syms[0].Start? {
      StartAlone(c);
    }
    FoldKeepsViable(c, tokens, n, tree);
    assert Top(c.states[..n + 1]) == c.states[n];
  }

  /** The entry of a number or of the variable. */
  lemma AtomEntry(c: Config, r: int)
    requires Linked(c.states, c.syms) && Top(c.states) == 13 - r && 10 <= r <= 11
    ensures |c.syms| >= 1
    ensures var n := |c.syms| - 1;
            && IsOpen(c.states[n])
            && c.syms[n].Term? && (if r == 10 then c.syms[n].tok.TVar? else c.syms[n].tok.TNumber?)
  {
    var n := |c.syms| - 1;
    EnteredBy(c, n);
    assert Link(c.states, c.syms, n);
  }

  lemma AtomTree(r: int, args: seq<Sym>)
    requires 10 <= r <= 11 && |args| == 1
    requires args[0].Term? && (if r == 10 then args[0].tok.TVar? else args[0].tok.TNumber?)
    ensures var x := Build(r, args);
            x.NonTerm? && WellFormed(x.tree) && Level(x.tree) == 7 && StackYield(args) == Yield(x.tree)
  {
    assert args == [args[0]];
    UnitYield(args[0]);
  }

  lemma AtomKeepsViable(c: Config, tokens: seq<Token>, r: int)
    requires Viable(c, tokens) && Top(c.states) == 13 - r && 10 <= r <= 11
    ensures |c.syms| >= 1 && Viable(ReduceConfig(c, r), tokens)
  {
    AtomEntry(c, r);
    var n := |c.syms| - 1;
    AtomTree(r, c.syms[n..]);
    ReduceKeepsViable(c, tokens, r, n, Build(r, c.syms[n..]).tree);
  }

  /** The two entries below a completed negation. */
  lemma NotEntries(c: Config)
    requires Linked(c.states, c.syms) && Top(c.states) == 6
    ensures |c.syms| >= 2
    ensures var n := |c.syms| - 2;
            && c.syms[n] == Term(TNot) && c.syms[n + 1].NonTerm?
            && IsOpen(c.states[n])
            && WellFormed(CNot(c.syms[n + 1].tree))
            && Level(CNot(c.syms[n + 1].tree)) >= Context(c.states[n])
  {
    var n := |c.syms| - 2;
    EnteredBy(c, n + 1);
    assert Link(c.states, c.syms, n + 1);
    EnteredBy(c, n);
    assert Link(c.states, c.syms, n);
  }

  lemma NotKeepsViable(c: Config, tokens: seq<Token>)
    requires Viable(c, tokens) && Top(c.states) == 6
    ensures |c.syms| >= 2 && Viable(ReduceConfig(c, 9), tokens)
  {
    NotEntries(c);
    var n := |c.syms| - 2;
    var args := c.syms[n..];
    assert args == [args[0], args[1]];
    PairYield(args[0], args[1]);
    ReduceKeepsViable(c, tokens, 9, n, CNot(args[1].tree));
  }

  /** The three entries below a closing parenthesis. */
  lemma ParenEntries(c: Config)
    requires Linked(c.states, c.syms) && Top(c.states) == 15
    ensures |c.syms| >= 3
    ensures var n := |c.syms| - 3;
            && c.syms[n] == Term(TLParen) && c.syms[n + 1].NonTerm? && c.syms[n + 2] == Term(TRParen)
            && IsOpen(c.states[n])
            && WellFormed(CParen(c.syms[n + 1].tree))
            && Level(CParen(c.syms[n + 1].tree)) >= Context(c.states[n])
  {
    var n := |c.syms| - 3;
    EnteredBy(c, n + 2);
    assert Link(c.states, c.syms, n + 2);
    EnteredBy(c, n + 1);
    assert Link(c.states, c.syms, n + 1);
    EnteredBy(c, n);
    assert Link(c.states, c.syms, n);
  }

  lemma BuildParen(args: seq<Sym>)
    requires |args| == 3 && args[1].NonTerm?
    ensures Build(12, args) == NonTerm(CParen(args[1].tree))
  {
  }

  lemma ParenKeepsViable(c: Config, tokens: seq<Token>)
    requires Viable(c, tokens) && Top(c.states) == 15
    ensures |c.syms| >= 3 && Viable(ReduceConfig(c, 12), tokens)
  {
    ParenEntries(c);
    var n := |c.syms| - 3;
    var args := c.syms[n..];
    assert args == [args[0], args[1], args[2]];
    TripleYield(args[0], args[1], args[2]);
    BuildParen(args);
    ReduceKeepsViable(c, tokens, 12, n, CParen(args[1].tree));
  }

  /** The three entries below a completed right operand. */
  lemma BinaryEntries(c: Config)
    requires Linked(c.states, c.syms) && 17 <= Top(c.states) <= 22
    ensures |c.syms| >= 3
    ensures var n := |c.syms| - 3;
            && c.syms[n].NonTerm? && c.syms[n + 2].NonTerm?
            && c.syms[n + 1].Term? && c.syms[n + 1].tok.TOp?
            && OpLevel(c.syms[n + 1].tok.op) == Top(c.states) - 16
            && IsOpen(c.states[n])
            && OpLevel(c.syms[n + 1].tok.op) >= Context(c.states[n])
            && WellFormed(CBinary(c.syms[n + 1].tok.op, c.syms[n].tree, c.syms[n + 2].tree))
  {
    var n := |c.syms| - 3;
    EnteredBy(c, n + 2);
    assert Link(c.states, c.syms, n + 2);
    EnteredBy(c, n + 1);
    assert Link(c.states, c.syms, n + 1);
    assert Link(c.states, c.syms, n);
  }

  lemma BinaryKeepsViable(c: Config, tokens: seq<Token>, r: int)
    requires Viable(c, tokens) && Top(c.states) == r + 14 && 3 <= r <= 8
    requires !Extends(First(c.rest), r - 2)
    ensures |c.syms| >= 3 && Viable(ReduceConfig(c, r), tokens)
  {
    BinaryEntries(c);
    var n := |c.syms| - 3;
    var args := c.syms[n..];
    assert args == [args[0], args[1], args[2]];
    TripleYield(args[0], args[1], args[2]);
    BuildBinary(r, args);
    ReduceKeepsViable(c, tokens, r, n, CBinary(args[1].tok.op, args[0].tree, args[2].tree));
  }

  lemma BuildBinary(r: int, args: seq<Sym>)
    requires 3 <= r <= 8 && |args| == 3 && args[0].NonTerm? && args[2].NonTerm?
    requires args[1].Term? && args[1].tok.TOp? && OpLevel(args[1].tok.op) == r - 2
    ensures Build(r, args) == NonTerm(CBinary(args[1].tok.op, args[0].tree, args[2].tree))
  {
  }

  /** The five entries below a completed else-branch. */
  lemma CondEntries(c: Config)
    requires Linked(c.states, c.syms) && Top(c.states) == 24
    ensures |c.syms| >= 5
    ensures var n := |c.syms| - 5;
            && c.syms[n].NonTerm? && c.syms[n + 1] == Term(TQuestion)
            && c.syms[n + 2].NonTerm? && c.syms[n + 3] == Term(TColon)
            && c.syms[n + 4].NonTerm?
            && IsOpen(c.states[n]) && Context(c.states[n]) == 0
            && WellFormed(CCond(c.syms[n].tree, c.syms[n + 2].tree, c.syms[n + 4].tree))
  {
    var n := |c.syms| - 5;
    EnteredBy(c, n + 4);
    assert Link(c.states, c.syms, n + 4);
    EnteredBy(c, n + 3);
    assert Link(c.states, c.syms, n + 3);
    EnteredBy(c, n + 2);
    assert Link(c.states, c.syms, n + 2);
    EnteredBy(c, n + 1);
    assert Link(c.states, c.syms, n + 1);
    assert Link(c.states, c.syms, n);
  }

  lemma CondKeepsViable(c: Config, tokens: seq<Token>)
    requires Viable(c, tokens) && Top(c.states) == 24 && !IsInfix(First(c.rest))
    ensures |c.syms| >= 5 && Viable(ReduceConfig(c, 2), tokens)
  {
    CondEntries(c);
    var n := |c.syms| - 5;
    var s := c.syms[n..];
    assert s == [s[0], s[1], s[2]] + [s[3], s[4]];
    StackYieldSplit(s, 3);
    TripleYield(s[0], s[1], s[2]);
    PairYield(s[3], s[4]);
    ReduceKeepsViable(c, tokens, 2, n, CCond(s[0].tree, s[2].tree, s[4].tree));
  }

  /** A whole expression stands alone on the stack. */
  lemma StartEntry(c: Config)
    requires Linked(c.states, c.syms) && Top(c.states) == 5
    ensures |c.syms| == 1 && c.syms[0].NonTerm? && WellFormed(c.syms[0].tree) && c.states == [0, 5]
  {
    var n := |c.syms| - 1;
    EnteredBy(c, n);
    assert Link(c.states, c.syms, n);
    if n > 0 {
      EnteredBy(c, n - 1);
    }
  }

  lemma StartLinked(tree: Cst)
    requires WellFormed(tree)
    ensures Linked([0, 25], [Start(tree)])
  {
    assert Link([0, 25], [Start(tree)], 0);
  }

  lemma StartReduces(c: Config, tree: Cst)
    requires c.states == [0, 5] && c.syms == [NonTerm(tree)]
    ensures ReduceConfig(c, 1) == Stacks([0, 25], [Start(tree)], c.rest, Some(tree))
  {
  }

  lemma StartViable(tree: Cst, rest: seq<Token>, tokens: seq<Token>)
    requires WellFormed(tree) && !IsInfix(First(rest)) && SymYield(Start(tree)) + rest == tokens
    ensures Viable(Stacks([0, 25], [Start(tree)], rest, Some(tree)), tokens)
  {
    UnitYield(Start(tree));
    StartLinked(tree);
  }

  lemma StartKeepsViable(c: Config, tokens: seq<Token>)
    requires Viable(c, tokens) && Top(c.states) == 5 && !IsInfix(First(c.rest))
    ensures |c.syms| == 1 && c.syms[0].NonTerm? && Viable(ReduceConfig(c, 1), tokens)
  {
    StartEntry(c);
    var tree := c.syms[0].tree;
    assert c.syms == [NonTerm(tree)];
    UnitYield(NonTerm(tree));
    StartViable(tree, c.rest, tokens);
    StartReduces(c, tree);
  }

  /** Every pass keeps the invariant, and no reduction finds its stack too short. */
  lemma StepKeepsViable(max: nat, c: Config, tokens: seq<Token>)
    requires Viable(c, tokens) && TEof !in tokens
    ensures Step(max, c).Continue? ==> Viable(Step(max, c).config, tokens)
    ensures Decide(Top(c.states), First(c.rest)).Reduce? ==>
              |c.syms| >= RuleLength(Decide(Top(c.states), First(c.rest)).rule)
  {
    match Decide(Top(c.states), First(c.rest))
    case Shift(_) => ShiftKeepsViable(c, tokens);
    case Reduce(r) =>
      if r == 1 {
        StartKeepsViable(c, tokens);
      } else if r == 2 {
        CondKeepsViable(c, tokens);
      } else if r <= 8 {
        BinaryKeepsViable(c, tokens, r);
      } else if r == 9 {
        NotKeepsViable(c, tokens);
      } else if r <= 11 {
        AtomKeepsViable(c, tokens, r);
      } else {
        ParenKeepsViable(c, tokens);
      }
    case _ =>
  }

  /** The symbols a rule finds on the stack have the kinds its action reads. */
  predicate ArgsFit(r: int, args: seq<Sym>)
    requires 1 <= r <= 12 && |args| == RuleLength(r)
  {
    if r == 1 then args[0].NonTerm?
    else if r == 2 then args[0].NonTerm? && args[2].NonTerm? && args[4].NonTerm?
    else if r <= 8 then
      && args[0].NonTerm? && args[2].NonTerm?
      && args[1].Term? && args[1].tok.TOp? && OpLevel(args[1].tok.op) == r - 2
    else if r == 9 then args[1].NonTerm?
    else if r == 10 then true
    else if r == 11 then args[0].Term? && args[0].tok.TNumber?
    else args[1].NonTerm?
  }

  /** The state in which each rule is reduced. */
  lemma StateOfRule(s: State, t: Token, r: int)
    requires Decide(s, t) == Reduce(r)
    ensures 1 <= r <= 12
    ensures r == 1 ==> IsClosed(s)
    ensures r == 2 ==> s == 24
    ensures 3 <= r <= 8 ==> s == r + 14
    ensures r == 9 ==> s == 6
    ensures 10 <= r <= 11 ==> s == 13 - r
    ensures r == 12 ==> s == 15
  {
  }

  lemma RuleArgs(c: Config, tokens: seq<Token>, r: int)
    requires Viable(c, tokens) && TEof !in tokens && Decide(Top(c.states), First(c.rest)) == Reduce(r)
    ensures |c.syms| >= RuleLength(r) && ArgsFit(r, c.syms[|c.syms| - RuleLength(r)..])
  {
    StateOfRule(Top(c.states), First(c.rest), r);
    if r == 1 {
      EnteredBy(c, |c.syms| - 1);
    } else if r == 2 {
      CondEntries(c);
    } else if r <= 8 {
      BinaryEntries(c);
    } else if r == 9 {
      NotEntries(c);
    } else if r <= 11 {
      AtomEntry(c, r);
    } else {
      ParenEntries(c);
    }
  }
}
