/** Which texts the scanner and the parser accept. */
module PluralTexts {
  import opened PluralSyntax
  import opened PluralLexer
  import opened PluralTheorems
  import opened PluralParser
  import opened PluralRoundTrip
  import opened Sequences

  /** The text of a token: numbers may begin with zeros and wrap around, all else is spelled in one way. */
  predicate Spells(s: string, t: Token) {
    match t
    case TNumber(n) => s != "" && (forall c | c in s :: IsDigit(c)) && Decimal(s) % ULONG_MODULUS == n
    case TEof => false
    case TError => false
    case _ => s == Spell(t)
  }

  /** A gap and a piece in turn. */
  function Woven(gaps: seq<string>, pieces: seq<string>): string
    requires |gaps| == |pieces|
  {
    if gaps == [] then "" else gaps[0] + pieces[0] + Woven(gaps[1..], pieces[1..])
  }

  ghost predicate Weaves(text: string, tokens: seq<Token>, gaps: seq<string>, pieces: seq<string>, tail: string) {
    && |gaps| == |pieces| == |tokens|
    && text == Woven(gaps, pieces) + tail
    && (forall g | g in gaps :: Blank(g))
    && forall i :: 0 <= i < |tokens| ==> Spells(pieces[i], tokens[i])
  }

  /** Blanks may stand before what ends the expression. */
  predicate Ends(tail: string) {
    EndsExpr(tail[SkipBlanks(tail, 0)..])
  }

  lemma Two(text: string, p: nat, c: char, d: char)
    requires p + 1 < |text| && text[p] == c && text[p + 1] == d
    ensures text[p..p + 2] == [c, d]
  {
  }

  lemma One(text: string, p: nat, c: char)
    requires p < |text| && text[p] == c
    ensures text[p..p + 1] == [c]
  {
  }

  lemma NumberSpells(text: string, p: nat)
    requires p < |text| && IsDigit(text[p])
    ensures var e := DigitsEnd(text, p);
            e > p && Spells(text[p..e], TNumber(Decimal(text[p..e]) % ULONG_MODULUS))
  {
    var e := DigitsEnd(text, p);
    forall c | c in text[p..e] ensures IsDigit(c) {
      var i :| 0 <= i < e - p && text[p..e][i] == c;
      assert text[p + i] == c;
    }
  }

  /** Every token that is no error stands in the text as it is spelled. */
  lemma ScanSpells(text: string, p: nat)
    requires p < |text|
    ensures var (t, e) := ScanAt(text, p); t.TEof? || t.TError? || Spells(text[p..e], t)
  {
    var c, d := At(text, p), At(text, p + 1);
    One(text, p, c);
    if IsDigit(c) {
      NumberSpells(text, p);
    } else if p + 1 < |text| {
      Two(text, p, c, d);
    }
  }

  lemma SkipShift(text: string, pos: nat)
    requires pos <= |text|
    ensures SkipBlanks(text, pos) == pos + SkipBlanks(text[pos..], 0)
  {
    SkipsFrom(text, pos, 0);
  }

  lemma {:induction false} SkipsFrom(text: string, pos: nat, i: nat)
    requires pos + i <= |text|
    ensures SkipBlanks(text, pos + i) == pos + SkipBlanks(text[pos..], i)
    decreases |text| - i
  {
    if pos + i < |text| && IsBlank(text[pos + i]) {
      SkipsFrom(text, pos, i + 1);
    }
  }

  lemma EndsHere(text: string, pos: nat)
    requires pos <= |text| && Scan(text, pos).0.TEof?
    ensures Ends(text[pos..])
  {
    SkipShift(text, pos);
    var p, tail := SkipBlanks(text, pos), text[pos..];
    assert tail[p - pos..] == text[p..];
  }

  lemma WeavesOne(text: string, pos: nat, p: nat, e: nat, t: Token, tokens: seq<Token>, gaps: seq<string>,
      pieces: seq<string>, tail: string)
    requires pos <= p <= e <= |text| && Blank(text[pos..p]) && Spells(text[p..e], t)
    requires Weaves(text[e..], tokens, gaps, pieces, tail)
    ensures Weaves(text[pos..], [t] + tokens, [text[pos..p]] + gaps, [text[p..e]] + pieces, tail)
  {
    var gs, ps := [text[pos..p]] + gaps, [text[p..e]] + pieces;
    assert gs[1..] == gaps && ps[1..] == pieces;
    assert text[pos..] == text[pos..p] + text[p..e] + text[e..];
    Regroup(text[pos..p] + text[p..e], Woven(gaps, pieces), tail);
  }

  /** A text without an error is a writing of its tokens, up to what ends the expression. */
  lemma {:induction false} LexWeaves(text: string, pos: nat)
    returns (gaps: seq<string>, pieces: seq<string>, tail: string)
    requires pos <= |text| && TError !in Lex(text, pos)
    ensures Weaves(text[pos..], Lex(text, pos), gaps, pieces, tail) && Ends(tail)
    decreases |text| - pos
  {
    var p := SkipBlanks(text, pos);
    var (t, e) := Scan(text, pos);
    if t.TEof? {
      EndsHere(text, pos);
      gaps, pieces, tail := [], [], text[pos..];
      assert Woven([], []) + tail == tail;
    } else {
      assert Lex(text, pos) == [t] + Lex(text, e);
      ScanSpells(text, p);
      gaps, pieces, tail := LexWeaves(text, e);
      BlankGap(text, pos, p);
      WeavesOne(text, pos, p, e, t, Lex(text, e), gaps, pieces, tail);
      gaps, pieces := [text[pos..p]] + gaps, [text[p..e]] + pieces;
    }
  }

  lemma BlankGap(text: string, pos: nat, p: nat)
    requires pos <= p <= |text| && forall i | pos <= i < p :: IsBlank(text[i])
    ensures Blank(text[pos..p])
  {
    forall c | c in text[pos..p] ensures IsBlank(c) {
      var i :| 0 <= i < p - pos && text[pos..p][i] == c;
      assert text[pos + i] == c;
    }
  }

  /** What the parser accepts is written as its tree is spelled, with blanks between the tokens at most. */
  lemma AcceptedIsWritten(text: string, c: Cst) returns (gaps: seq<string>, pieces: seq<string>, tail: string)
    requires Reads(YYMAXDEPTH, c, Lex(text, 0))
    ensures Weaves(text, Yield(c), gaps, pieces, tail) && Ends(tail)
  {
    YieldHasNoEof(c);
    assert text[0..] == text;
    gaps, pieces, tail := LexWeaves(text, 0);
  }
}
