/** Plural-form expressions: the tree the parser builds, the tokens it reads,
    and the concrete syntax that relates the two. */
module PluralSyntax {

  /** The binary operators of `enum operator`. */
  datatype Operator =
    | Mult | Divide | Module
    | Plus | Minus
    | LessThan | GreaterThan | LessOrEqual | GreaterOrEqual
    | Equal | NotEqual
    | LAnd
    | LOr

  /** `struct expression`. */
  datatype Expr =
    | Var
    | Num(num: nat)
    | LNot(arg: Expr)
    | Binary(op: Operator, left: Expr, right: Expr)
    | QMop(cond: Expr, tbranch: Expr, fbranch: Expr)

  datatype Token =
    | TQuestion
    | TOp(op: Operator)
    | TNot
    | TNumber(num: nat)
    | TColon
    | TVar
    | TLParen
    | TRParen
    | TError
    | TEof

  /** Binding strength: `?:` 0, `|` 1, `&` 2, equality 3, comparison 4,
      additive 5, multiplicative 6; 7 is left for `!` and the atoms. */
  function OpLevel(op: Operator): (n: nat)
    ensures 1 <= n <= 6
  {
    match op
    case LOr => 1
    case LAnd => 2
    case Equal => 3
    case NotEqual => 3
    case LessThan => 4
    case GreaterThan => 4
    case LessOrEqual => 4
    case GreaterOrEqual => 4
    case Plus => 5
    case Minus => 5
    case Mult => 6
    case Divide => 6
    case Module => 6
  }

  predicate IsInfix(t: Token) {
    t.TQuestion? || t.TOp?
  }

  function TokenLevel(t: Token): nat
    requires IsInfix(t)
  {
    if t.TQuestion? then 0 else OpLevel(t.op)
  }

  /** Concrete syntax trees: expressions together with their parentheses. */
  datatype Cst =
    | CVar
    | CNum(num: nat)
    | CParen(inner: Cst)
    | CNot(arg: Cst)
    | CBinary(op: Operator, left: Cst, right: Cst)
    | CCond(cond: Cst, tbranch: Cst, fbranch: Cst)

  /** The grammar level a tree belongs to. */
  function Level(c: Cst): nat {
    match c
    case CCond(_, _, _) => 0
    case CBinary(op, _, _) => OpLevel(op)
    case _ => 7
  }

  /** The stratified grammar: left-associative binary operators,
      right-associative `?:`, a prefix `!`. */
  predicate WellFormed(c: Cst) {
    match c
    case CVar => true
    case CNum(_) => true
    case CParen(i) => WellFormed(i)
    case CNot(a) => WellFormed(a) && Level(a) == 7
    case CBinary(op, l, r) =>
      WellFormed(l) && WellFormed(r) && Level(l) >= OpLevel(op) && Level(r) > OpLevel(op)
    case CCond(b, t, f) =>
      WellFormed(b) && WellFormed(t) && WellFormed(f) && Level(b) >= 1
  }

  /** The tokens of a tree, left to right. */
  function Yield(c: Cst): seq<Token> {
    match c
    case CVar => [TVar]
    case CNum(n) => [TNumber(n)]
    case CParen(i) => [TLParen] + Yield(i) + [TRParen]
    case CNot(a) => [TNot] + Yield(a)
    case CBinary(op, l, r) => Yield(l) + [TOp(op)] + Yield(r)
    case CCond(b, t, f) => Yield(b) + [TQuestion] + Yield(t) + [TColon] + Yield(f)
  }

  /** The expression a tree denotes. */
  function Ast(c: Cst): Expr {
    match c
    case CVar => Var
    case CNum(n) => Num(n)
    case CParen(i) => Ast(i)
    case CNot(a) => LNot(Ast(a))
    case CBinary(op, l, r) => Binary(op, Ast(l), Ast(r))
    case CCond(b, t, f) => QMop(Ast(b), Ast(t), Ast(f))
  }

  /** Entries the parse stack needs above the current top to read a tree. */
  function Need(c: Cst): nat
    ensures Need(c) >= 1
  {
    match c
    case CVar => 1
    case CNum(_) => 1
    case CParen(i) => Max(1 + Need(i), 3)
    case CNot(a) => 1 + Need(a)
    case CBinary(_, l, r) => Max(Need(l), 2 + Need(r))
    case CCond(b, t, f) => Max(Need(b), Max(2 + Need(t), 4 + Need(f)))
  }

  function Max(a: nat, b: nat): nat {
    if a < b then b else a
  }
}
