/** The decisions of an operator-precedence parser for plural expressions, by
    parser state and next token. `PluralTables.TablesDecide` shows that the
    generated tables make exactly these. */
module PluralPrecedence {
  import opened PluralSyntax

  type State = s: int | 0 <= s < 28

  datatype Action = Shift(state: State) | Reduce(rule: int) | Accept | Fail

  /** States in which an expression may begin. */
  predicate IsOpen(s: State) {
    s == 0 || s == 1 || s == 4 || 8 <= s <= 14 || s == 23
  }

  /** The weakest level an expression begun in `s` may have. */
  function Context(s: State): nat
    requires IsOpen(s)
  {
    if s == 1 then 7
    else if 9 <= s <= 14 then s - 7
    else 0
  }

  /** The state once that expression is complete. */
  function Closed(s: State): State
    requires IsOpen(s)
  {
    if s == 0 then 5
    else if s == 1 then 6
    else if s == 4 then 7
    else if s == 23 then 24
    else s + 8
  }

  predicate IsClosed(s: State) {
    5 <= s <= 7 || 16 <= s <= 22 || s == 24
  }

  /** The state in which the expression just completed was begun. */
  function Opener(s: State): (o: State)
    requires IsClosed(s)
    ensures IsOpen(o) && Closed(o) == s
  {
    if s == 5 then 0
    else if s == 6 then 1
    else if s == 7 then 4
    else if s == 24 then 23
    else s - 8
  }

  /** What ends the construct begun in `s` when no further token belongs to it. */
  function EndAction(s: State): Action
    requires IsOpen(s)
  {
    if s == 0 then Reduce(1)
    else if s == 1 then Reduce(9)
    else if s == 23 then Reduce(2)
    else if s == 4 || s == 8 then Fail
    else Reduce(s - 6)
  }

  function InfixState(t: Token): (s: State)
    requires IsInfix(t)
    ensures IsOpen(s)
  {
    8 + TokenLevel(t)
  }

  predicate StartsExpr(t: Token) {
    t.TNot? || t.TNumber? || t.TVar? || t.TLParen?
  }

  function PrefixState(t: Token): State
    requires StartsExpr(t)
  {
    if t.TNot? then 1 else if t.TNumber? then 2 else if t.TVar? then 3 else 4
  }

  /** An infix token is shifted exactly when it binds at least as tightly as the
      context of the operand before it allows. */
  function Decide(s: State, t: Token): (a: Action)
    ensures a.Reduce? ==> 1 <= a.rule <= 12
    ensures a.Shift? ==> s != 26 && (t.TEof? ==> a.state == 26)
  {
    if IsOpen(s) then (if StartsExpr(t) then Shift(PrefixState(t)) else Fail)
    else if s == 2 then Reduce(11)
    else if s == 3 then Reduce(10)
    else if s == 15 then Reduce(12)
    else if s == 25 then (if t.TEof? then Shift(26) else Fail)
    else if s == 26 then (if t.TEof? then Accept else Fail)
    else if s == 27 then Fail
    else if IsInfix(t) then
      if TokenLevel(t) >= Context(Opener(s)) then Shift(InfixState(t)) else EndAction(Opener(s))
    else if s == 7 && t.TRParen? then Shift(15)
    else if s == 16 && t.TColon? then Shift(23)
    else EndAction(Opener(s))
  }

  /** The state entered after reducing by `rule` with `s` uncovered. */
  function AfterReduce(s: State, rule: int): State {
    if rule == 1 then 25
    else if IsOpen(s) then Closed(s)
    else 5
  }

  function RuleLength(rule: int): nat {
    if rule == 2 then 5
    else if 3 <= rule <= 8 || rule == 12 then 3
    else if rule == 9 then 2
    else 1
  }
}
