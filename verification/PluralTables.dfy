/** The LALR(1) tables of the generated parser, and the proof that they decide
    what `PluralPrecedence` says. */
module PluralTables {
  import opened PluralSyntax
  import opened PluralPrecedence

  const YYFINAL: int := 27
  const YYFLAG: int := -32768
  const YYNTBASE: int := 16
  const YYLAST: int := 53

  function YyR1(i: int): int
    requires 0 <= i < 13
  {
    match i
    case 0 => 0 case 1 => 16 case 2 => 17 case 3 => 17 case 4 => 17 case 5 => 17
    case 6 => 17 case 7 => 17 case 8 => 17 case 9 => 17 case 10 => 17 case 11 => 17
    case 12 => 17
  }

  function YyR2(i: int): int
    requires 0 <= i < 13
  {
    match i
    case 0 => 0 case 1 => 1 case 2 => 5 case 3 => 3 case 4 => 3 case 5 => 3
    case 6 => 3 case 7 => 3 case 8 => 3 case 9 => 2 case 10 => 1 case 11 => 1
    case 12 => 3
  }

  function YyDefAct(i: int): (r: int)
    requires 0 <= i < 28
    ensures 0 <= r <= 12
  {
    match i
    case 0 => 0 case 1 => 0 case 2 => 11 case 3 => 10 case 4 => 0 case 5 => 1
    case 6 => 9 case 7 => 0 case 8 => 0 case 9 => 0 case 10 => 0 case 11 => 0
    case 12 => 0 case 13 => 0 case 14 => 0 case 15 => 12 case 16 => 0 case 17 => 3
    case 18 => 4 case 19 => 5 case 20 => 6 case 21 => 7 case 22 => 8 case 23 => 0
    case 24 => 2 case 25 => 0 case 26 => 0 case 27 => 0
  }

  function YyDefGoto(i: int): int
    requires 0 <= i < 2
  {
    match i
    case 0 => 25 case 1 => 5
  }

  function YyPact(i: int): int
    requires 0 <= i < 28
  {
    match i
    case 0 => -9 case 1 => -9 case 2 => -32768 case 3 => -32768 case 4 => -9 case 5 => 34
    case 6 => -32768 case 7 => 11 case 8 => -9 case 9 => -9 case 10 => -9 case 11 => -9
    case 12 => -9 case 13 => -9 case 14 => -9 case 15 => -32768 case 16 => 24 case 17 => 39
    case 18 => 43 case 19 => 16 case 20 => 26 case 21 => -3 case 22 => -32768 case 23 => -9
    case 24 => 34 case 25 => 21 case 26 => 53 case 27 => -32768
  }

  function YyPGoto(i: int): int
    requires 0 <= i < 2
  {
    match i
    case 0 => -32768 case 1 => -1
  }

  function YyTable(i: int): (r: int)
    requires 0 <= i < 54
    ensures 0 < r <= YYFINAL
  {
    match i
    case 0 => 6 case 1 => 1 case 2 => 2 case 3 => 7 case 4 => 3 case 5 => 4
    case 6 => 14 case 7 => 16 case 8 => 17 case 9 => 18 case 10 => 19 case 11 => 20
    case 12 => 21 case 13 => 22 case 14 => 8 case 15 => 9 case 16 => 10 case 17 => 11
    case 18 => 12 case 19 => 13 case 20 => 14 case 21 => 26 case 22 => 24 case 23 => 12
    case 24 => 13 case 25 => 14 case 26 => 15 case 27 => 8 case 28 => 9 case 29 => 10
    case 30 => 11 case 31 => 12 case 32 => 13 case 33 => 14 case 34 => 13 case 35 => 14
    case 36 => 23 case 37 => 8 case 38 => 9 case 39 => 10 case 40 => 11 case 41 => 12
    case 42 => 13 case 43 => 14 case 44 => 10 case 45 => 11 case 46 => 12 case 47 => 13
    case 48 => 14 case 49 => 11 case 50 => 12 case 51 => 13 case 52 => 14 case 53 => 27
  }

  function YyCheck(i: int): int
    requires 0 <= i < 54
  {
    match i
    case 0 => 1 case 1 => 10 case 2 => 11 case 3 => 4 case 4 => 13 case 5 => 14
    case 6 => 9 case 7 => 8 case 8 => 9 case 9 => 10 case 10 => 11 case 11 => 12
    case 12 => 13 case 13 => 14 case 14 => 3 case 15 => 4 case 16 => 5 case 17 => 6
    case 18 => 7 case 19 => 8 case 20 => 9 case 21 => 0 case 22 => 23 case 23 => 7
    case 24 => 8 case 25 => 9 case 26 => 15 case 27 => 3 case 28 => 4 case 29 => 5
    case 30 => 6 case 31 => 7 case 32 => 8 case 33 => 9 case 34 => 8 case 35 => 9
    case 36 => 12 case 37 => 3 case 38 => 4 case 39 => 5 case 40 => 6 case 41 => 7
    case 42 => 8 case 43 => 9 case 44 => 5 case 45 => 6 case 46 => 7 case 47 => 8
    case 48 => 9 case 49 => 6 case 50 => 7 case 51 => 8 case 52 => 9 case 53 => 0
  }

  type Kind = k: int | 0 <= k < 16

  function DefaultAction(s: State): (a: Action)
    ensures !a.Shift? && (a.Reduce? ==> 1 <= a.rule <= 12)
  {
    if YyDefAct(s) == 0 then Fail else Reduce(YyDefAct(s))
  }

  function ActionOf(s: State, k: Kind): (a: Action)
    ensures a.Shift? ==> 0 < a.state < YYFINAL
    ensures a.Reduce? ==> 1 <= a.rule <= 12
  {
    if YyPact(s) == YYFLAG then DefaultAction(s)
    else
      var yyn := YyPact(s) + k;
      if yyn < 0 || yyn > YYLAST || YyCheck(yyn) != k then DefaultAction(s)
      else
        var act := YyTable(yyn);
        if act < 0 then (if act == YYFLAG then Fail else Reduce(-act))
        else if act == 0 then Fail
        else if act == YYFINAL then Accept
        else Shift(act)
  }

  /** The state entered after reducing by `rule` with `s` uncovered. */
  function GotoOf(s: State, rule: int): (n: State)
    requires 1 <= rule <= 12
  {
    var nt := YyR1(rule) - YYNTBASE;
    var y := YyPGoto(nt) + s;
    if 0 <= y <= YYLAST && YyCheck(y) == s then YyTable(y) else YyDefGoto(nt)
  }

  /** `YYTRANSLATE`: from the scanner's codes to internal token numbers. */
  function YyTranslate(code: int): int {
    if 0 <= code <= 261 then
      match code
      case 0 => 0
      case 33 => 10 case 38 => 5 case 40 => 14 case 41 => 15 case 58 => 12
      case 63 => 3 case 110 => 13 case 124 => 4 case 256 => 1
      case 257 => 6 case 258 => 7 case 259 => 8 case 260 => 9 case 261 => 11
      case _ => 2
    else 18
  }

  /** Internal token numbers. */
  function KindOf(t: Token): Kind {
    match t
    case TEof => 0
    case TError => 1
    case TQuestion => 3
    case TOp(op) => 3 + OpLevel(op)
    case TNot => 10
    case TNumber(_) => 11
    case TColon => 12
    case TVar => 13
    case TLParen => 14
    case TRParen => 15
  }

  // ----- What the tables encode -----

  lemma InfixKindAction(s: State, level: nat)
    requires IsOpen(s) && level < 7
    ensures ActionOf(Closed(s), 3 + level) == if level >= Context(s) then Shift(8 + level) else EndAction(s)
  {
  }

  lemma EndKindAction(s: State, k: Kind)
    requires IsOpen(s) && (k < 3 || k > 9)
    ensures ActionOf(Closed(s), k) ==
            if s == 4 && k == 15 then Shift(15)
            else if s == 8 && k == 12 then Shift(23)
            else EndAction(s)
  {
  }

  lemma OpenKindAction(s: State, k: Kind)
    requires IsOpen(s)
    ensures ActionOf(s, k) ==
            if k == 10 then Shift(1)
            else if k == 11 then Shift(2)
            else if k == 13 then Shift(3)
            else if k == 14 then Shift(4)
            else Fail
  {
  }

  lemma OtherKindAction(k: Kind)
    ensures ActionOf(2, k) == Reduce(11)
    ensures ActionOf(3, k) == Reduce(10)
    ensures ActionOf(15, k) == Reduce(12)
    ensures ActionOf(25, k) == if k == 0 then Shift(26) else Fail
    ensures ActionOf(26, k) == if k == 0 then Accept else Fail
    ensures ActionOf(27, k) == Fail
  {
  }

  /** For every state and token, the packed tables decide what the precedence
      rules decide. */
  lemma TablesDecide(s: State, t: Token)
    ensures ActionOf(s, KindOf(t)) == Decide(s, t)
  {
    if IsOpen(s) {
      OpenKindAction(s, KindOf(t));
    } else if s == 2 || s == 3 || s == 15 || s == 25 || s == 26 || s == 27 {
      OtherKindAction(KindOf(t));
    } else if IsInfix(t) {
      InfixKindAction(Opener(s), TokenLevel(t));
    } else {
      EndKindAction(Opener(s), KindOf(t));
    }
  }

  /** The goto tables complete the construct begun in the uncovered state. */
  lemma TablesGoto(s: State, rule: int)
    requires 1 <= rule <= 12
    ensures GotoOf(s, rule) == AfterReduce(s, rule)
  {
  }

  /** The lengths of the rules' right-hand sides. */
  lemma TablesLength(rule: int)
    requires 1 <= rule <= 12
    ensures YyR2(rule) == RuleLength(rule)
  {
  }
}
