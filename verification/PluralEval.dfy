/** Evaluating a plural expression and selecting a variant of a translation. */
module PluralEval {
  import opened Options
  import opened PluralSyntax
  import opened PluralLexer
  import opened Arithmetic

  function Truth(b: bool): nat {
    if b then 1 else 0
  }

  /** `unsigned long` arithmetic on two evaluated operands; dividing by zero has no
      result. */
  function Apply(op: Operator, l: nat, r: nat): (v: Option<nat>)
    requires l < ULONG_MODULUS && r < ULONG_MODULUS && op != LOr && op != LAnd
    ensures v.Some? ==> v.value < ULONG_MODULUS
    ensures v.None? <==> r == 0 && (op == Divide || op == Module)
  {
    match op
    case Mult => Some(Product(l, r) % ULONG_MODULUS)
    case Divide => if r == 0 then None else DivideFits(l, r); Some(l / r)
    case Module => if r == 0 then None else DivideFits(l, r); Some(l % r)
    case Plus => Some((l + r) % ULONG_MODULUS)
    case Minus => Some((l - r) % ULONG_MODULUS)
    case LessThan => Some(Truth(l < r))
    case GreaterThan => Some(Truth(l > r))
    case LessOrEqual => Some(Truth(l <= r))
    case GreaterOrEqual => Some(Truth(l >= r))
    case Equal => Some(Truth(l == r))
    case NotEqual => Some(Truth(l != r))
  }

  function Product(l: nat, r: nat): nat {
    MulMonotonic(0, l, r);
    l * r
  }

  lemma DivideFits(l: nat, r: nat)
    requires r > 0
    ensures l / r <= l && l % r < r && l % r <= l
  {
    var q := l / r;
    assert l == q * r + l % r;
    if q < 0 {
      MulMonotonic(q, -1, r);
    } else {
      MulMonotonic(1, r, q);
    }
  }

  /** `plural_eval`: `|`, `&` and `?:` evaluate only the operands they need. */
  function Eval(e: Expr, n: nat): (v: Option<nat>)
    requires n < ULONG_MODULUS
    ensures v.Some? ==> v.value < ULONG_MODULUS
  {
    match e
    case Var => Some(n)
    case Num(k) => Some(k % ULONG_MODULUS)
    case LNot(a) =>
      var x := Eval(a, n);
      if x.None? then None else Some(Truth(x.value == 0))
    case Binary(op, l, r) =>
      var x := Eval(l, n);
      if x.None? then None
      else if op == LOr && x.value != 0 then Some(1)
      else if op == LAnd && x.value == 0 then Some(0)
      else
        var y := Eval(r, n);
        if y.None? then None
        else if op == LOr || op == LAnd then Some(Truth(y.value != 0))
        else Apply(op, x.value, y.value)
    case QMop(b, t, f) =>
      var x := Eval(b, n);
      if x.None? then None else Eval(if x.value != 0 then t else f, n)
  }

  /** Whether the right operand is evaluated once the left one has been. */
  predicate NeedsRight(op: Operator, l: Option<nat>) {
    l.Some? && !(op == LOr && l.value != 0) && !(op == LAnd && l.value == 0)
  }

  /** The subexpressions that are evaluated for `n`. */
  function Reached(e: Expr, n: nat): set<Expr>
    requires n < ULONG_MODULUS
  {
    match e
    case Var => {e}
    case Num(_) => {e}
    case LNot(a) => {e} + Reached(a, n)
    case Binary(op, l, r) => {e} + Reached(l, n) + if NeedsRight(op, Eval(l, n)) then Reached(r, n) else {}
    case QMop(b, t, f) =>
      var x := Eval(b, n);
      {e} + Reached(b, n) + if x.None? then {} else Reached(if x.value != 0 then t else f, n)
  }

  /** A division whose divisor is zero. */
  predicate DividesByZero(d: Expr, n: nat)
    requires n < ULONG_MODULUS
  {
    d.Binary? && (d.op == Divide || d.op == Module) && Eval(d.right, n) == Some(0)
  }

  lemma BinaryFails(e: Expr, n: nat)
    requires n < ULONG_MODULUS && e.Binary?
    ensures Eval(e, n).None? <==>
            || Eval(e.left, n).None?
            || (NeedsRight(e.op, Eval(e.left, n)) && (Eval(e.right, n).None? || DividesByZero(e, n)))
    ensures Eval(e.left, n).Some? && DividesByZero(e, n) ==> Eval(e, n).None?
  {
  }

  /** Evaluation divides by zero exactly if some division that it reaches has a zero divisor. */
  lemma {:induction false} FailsExactly(e: Expr, n: nat)
    requires n < ULONG_MODULUS
    ensures Eval(e, n).None? <==> exists d :: d in Reached(e, n) && DividesByZero(d, n)
  {
    match e
    case Var =>
    case Num(_) =>
    case LNot(a) =>
      FailsExactly(a, n);
      assert forall d :: d in Reached(e, n) <==> d == e || d in Reached(a, n);
    case Binary(op, l, r) =>
      BinaryFails(e, n);
      FailsExactly(l, n);
      FailsExactly(r, n);
      var right := if NeedsRight(op, Eval(l, n)) then Reached(r, n) else {};
      assert forall d :: d in Reached(e, n) <==> d == e || d in Reached(l, n) || d in right;
    case QMop(b, t, f) =>
      FailsExactly(b, n);
      FailsExactly(t, n);
      FailsExactly(f, n);
      var x := Eval(b, n);
      var branch := if x.None? then {} else Reached(if x.value != 0 then t else f, n);
      assert forall d :: d in Reached(e, n) <==> d == e || d in Reached(b, n) || d in branch;
  }

  /** Every divisor is a numeral that is not zero after truncation. */
  predicate SafeDivisors(e: Expr) {
    match e
    case Var => true
    case Num(_) => true
    case LNot(a) => SafeDivisors(a)
    case Binary(op, l, r) =>
      && SafeDivisors(l) && SafeDivisors(r)
      && (op == Divide || op == Module ==> r.Num? && r.num % ULONG_MODULUS != 0)
    case QMop(b, t, f) => SafeDivisors(b) && SafeDivisors(t) && SafeDivisors(f)
  }

  lemma {:induction false} ReachedIsSafe(e: Expr, n: nat, d: Expr)
    requires n < ULONG_MODULUS && SafeDivisors(e) && d in Reached(e, n)
    ensures SafeDivisors(d)
  {
    if d != e {
      match e
      case LNot(a) => ReachedIsSafe(a, n, d);
      case Binary(_, l, r) =>
        if d in Reached(l, n) {
          ReachedIsSafe(l, n, d);
        } else {
          ReachedIsSafe(r, n, d);
        }
      case QMop(b, t, f) =>
        if d in Reached(b, n) {
          ReachedIsSafe(b, n, d);
        } else {
          ReachedIsSafe(if Eval(b, n).value != 0 then t else f, n, d);
        }
    }
  }

  /** With nonzero numerals for all divisors nothing can fail. */
  lemma SafeDivisorsEvaluate(e: Expr, n: nat)
    requires n < ULONG_MODULUS && SafeDivisors(e)
    ensures Eval(e, n).Some?
  {
    FailsExactly(e, n);
    forall d | d in Reached(e, n) ensures !DividesByZero(d, n) {
      ReachedIsSafe(e, n, d);
    }
  }

  // ----- Selecting a variant -----

  /** A block of variants: each one followed by NUL. */
  function Block(variants: seq<string>): string {
    if variants == [] then "" else variants[0] + ['\0'] + Block(variants[1..])
  }

  ghost predicate NulFree(variants: seq<string>) {
    forall v | v in variants :: '\0' !in v
  }

  /** Where variant `k` begins. */
  function StartOf(variants: seq<string>, k: nat): nat
    requires k <= |variants|
  {
    |Block(variants[..k])|
  }

  /** `strchr (p, '\0')`, within a block that ends in NUL. */
  method FindNul(block: string, p0: nat) returns (p: nat)
    requires p0 < |block| && block[|block| - 1] == '\0'
    ensures p0 <= p < |block| && block[p] == '\0' && '\0' !in block[p0..p]
  {
    p := p0;
    while block[p] != '\0'
      decreases |block| - p
      invariant p0 <= p < |block| && '\0' !in block[p0..p]
    {
      p := p + 1;
    }
  }

  lemma {:induction false} BlockConcat(a: seq<string>, b: seq<string>)
    ensures Block(a + b) == Block(a) + Block(b)
  {
    if a == [] {
      assert a + b == b;
    } else {
      assert (a + b)[1..] == a[1..] + b;
      BlockConcat(a[1..], b);
    }
  }

  lemma BlockAround(front: seq<string>, v: string, rest: seq<string>)
    ensures Block(front + [v]) == Block(front) + (v + ['\0'])
    ensures Block(front + [v] + rest) == Block(front) + (v + ['\0']) + Block(rest)
  {
    assert [v][1..] == [] && Block([v]) == v + ['\0'];
    BlockConcat(front, [v]);
    BlockConcat(front + [v], rest);
  }

  lemma PlaceAround(front: seq<string>, v: string, rest: seq<string>)
    ensures var s := |Block(front)|; var block := Block(front + [v] + rest);
            && s + |v| < |block| && block[s..s + |v|] == v && block[s + |v|] == '\0'
            && |Block(front + [v])| == s + |v| + 1
  {
    BlockAround(front, v, rest);
    StringPlace(Block(front), v, Block(rest));
  }

  lemma VariantPlace(variants: seq<string>, k: nat)
    requires k < |variants|
    ensures var s := StartOf(variants, k); var v := variants[k]; var block := Block(variants);
            && s + |v| < |block| && block[s..s + |v|] == v && block[s + |v|] == '\0'
            && StartOf(variants, k + 1) == s + |v| + 1
  {
    SplitAround(variants, k);
    PlaceAround(variants[..k], variants[k], variants[k + 1..]);
  }

  lemma SplitAround(variants: seq<string>, k: nat)
    requires k < |variants|
    ensures variants[..k] + [variants[k]] == variants[..k + 1]
    ensures variants[..k] + [variants[k]] + variants[k + 1..] == variants
  {
  }

  lemma StringPlace(a: string, v: string, b: string)
    ensures var block := a + (v + ['\0']) + b;
            |block| == |a| + |v| + 1 + |b| && block[|a|..|a| + |v|] == v && block[|a| + |v|] == '\0'
  {
  }

  /** From the start of variant `k` the next NUL ends it. */
  lemma VariantEnd(variants: seq<string>, k: nat, p: nat)
    requires NulFree(variants) && k < |variants|
    requires StartOf(variants, k) <= p < |Block(variants)|
    requires Block(variants)[p] == '\0' && '\0' !in Block(variants)[StartOf(variants, k)..p]
    ensures p == StartOf(variants, k) + |variants[k]|
    ensures StartOf(variants, k + 1) == p + 1
  {
    var block, v, s := Block(variants), variants[k], StartOf(variants, k);
    VariantPlace(variants, k);
    assert v in variants;
  }

  lemma BlockEnds(variants: seq<string>)
    requires variants != []
    ensures Block(variants) != "" && Block(variants)[|Block(variants)| - 1] == '\0'
    ensures StartOf(variants, |variants|) == |Block(variants)|
  {
    VariantPlace(variants, |variants| - 1);
    assert variants[..|variants|] == variants;
  }

  /** Starts grow with the index. */
  lemma {:induction false} StartsGrow(variants: seq<string>, j: nat, k: nat)
    requires j < k <= |variants|
    ensures StartOf(variants, j) < StartOf(variants, k)
    decreases k - j
  {
    VariantPlace(variants, k - 1);
    if j < k - 1 {
      StartsGrow(variants, j, k - 1);
    }
  }

  /** The variant the expression selects for `n`. */
  function Selected(plural: Expr, nplurals: nat, count: nat, n: nat): Option<nat>
    requires n < ULONG_MODULUS
  {
    var v := Eval(plural, n);
    if v.None? then None
    else if v.value < nplurals && v.value < count then Some(v.value)
    else Some(0)
  }

  /** `plural_lookup`: the offset of the selected variant in the translation. */
  method PluralLookup(plural: Expr, nplurals: nat, n: nat, translation: string, ghost variants: seq<string>)
    returns (r: Option<nat>)
    requires n < ULONG_MODULUS
    requires variants != [] && NulFree(variants) && translation == Block(variants)
    ensures var k := Selected(plural, nplurals, |variants|, n);
            if k.None? then r == None else r == Some(StartOf(variants, k.value))
    ensures match Eval(plural, n)
            case None => r == None
            case Some(k) => r == Some(if k < nplurals && k < |variants| then StartOf(variants, k) else 0)
  {
    var v := Eval(plural, n);
    if v.None? {
      return None;
    }
    var index := v.value;
    if index >= nplurals {
      index := 0;
    }
    ghost var wanted := index;
    BlockEnds(variants);
    var p := 0;
    while index > 0
      invariant 0 <= index <= wanted && wanted - index < |variants|
      invariant p == StartOf(variants, wanted - index)
      decreases index
    {
      ghost var k := wanted - index;
      VariantPlace(variants, k);
      p := FindNul(translation, p);
      VariantEnd(variants, k, p);
      index := index - 1;
      p := p + 1;
      if p >= |translation| {
        if k + 1 < |variants| {
          StartsGrow(variants, k + 1, |variants|);
        }
        return Some(0);
      }
    }
    return Some(p);
  }

  // ----- Translations as they are stored -----

  /** The bytes of a translation: variants, the last one with its NUL, too. */
  type Translation = s: string | s != "" && s[|s| - 1] == '\0' witness "\0"

  function FirstNul(block: string): (k: nat)
    ensures k <= |block|
  {
    if block == "" || block[0] == '\0' then 0 else 1 + FirstNul(block[1..])
  }

  /** The variants that a block consists of. */
  function Split(block: string): seq<string>
    decreases |block|
  {
    var k := FirstNul(block);
    if k == |block| then [] else [block[..k]] + Split(block[k + 1..])
  }

  lemma {:induction false} FirstNulIs(block: string)
    ensures '\0' !in block[..FirstNul(block)]
    ensures FirstNul(block) < |block| ==> block[FirstNul(block)] == '\0'
    ensures FirstNul(block) == |block| ==> '\0' !in block
  {
    if block != "" && block[0] != '\0' {
      FirstNulIs(block[1..]);
      var k := FirstNul(block[1..]);
      assert block[..k + 1] == [block[0]] + block[1..][..k];
      assert block == [block[0]] + block[1..];
    }
  }

  /** Every translation is a block of variants, in one way. */
  lemma {:induction false} SplitBlock(t: Translation)
    ensures Split(t) != [] && NulFree(Split(t)) && Block(Split(t)) == t
    decreases |t|
  {
    var k := FirstNul(t);
    FirstNulIs(t);
    assert '\0' in t;
    var rest := t[k + 1..];
    assert ([t[..k]] + Split(rest))[1..] == Split(rest);
    assert t == t[..k] + ['\0'] + rest;
    if rest != "" {
      assert rest[|rest| - 1] == t[|t| - 1];
      SplitBlock(rest);
    }
  }

  lemma {:induction false} FirstNulAt(v: string, rest: string)
    requires '\0' !in v
    ensures FirstNul(v + ['\0'] + rest) == |v|
  {
    var block := v + ['\0'] + rest;
    if v != "" {
      assert block[0] == v[0] && v[0] in v;
      assert block[1..] == v[1..] + ['\0'] + rest;
      FirstNulAt(v[1..], rest);
    }
  }

  lemma {:induction false} SplitOfBlock(variants: seq<string>)
    requires NulFree(variants)
    ensures Split(Block(variants)) == variants
  {
    if variants != [] {
      var v, rest := variants[0], variants[1..];
      assert v in variants;
      SplitOfBlock(rest);
      FirstNulAt(v, Block(rest));
      var block := Block(variants);
      assert block[..|v|] == v && block[|v| + 1..] == Block(rest);
      assert variants == [v] + rest;
    }
  }

  /** The plural expression of a catalogue and the number of its forms. */
  datatype Rule = Rule(plural: Expr, nplurals: nat)

  /** Where the variant for `n` begins in a translation; there is none after a division by zero. */
  function VariantStart(rule: Rule, n: nat, t: string): Option<nat>
    requires n < ULONG_MODULUS && |Split(t)| > 0
  {
    match Selected(rule.plural, rule.nplurals, |Split(t)|, n)
    case None => None
    case Some(k) => Some(StartOf(Split(t), k))
  }
}
