/** Locale names in XPG and CEN syntax, and how they fall into parts. */
module LocaleSyntax {
  import opened LocaleMarks
  import opened Options

  type Bytes = seq<int>

  /** The parts of a locale name. `at` tells the two kinds of modifiers apart. */
  datatype Name = Name(
    language: Bytes, territory: Option<Bytes>, codeset: Option<Bytes>,
    at: bool, modifier: Option<Bytes>,
    special: Option<Bytes>, sponsor: Option<Bytes>, revision: Option<Bytes>)

  /** A part with its delimiter. */
  function Part(mark: int, part: Option<Bytes>): Bytes
  {
    match part
    case None => []
    case Some(t) => [mark] + t
  }

  function MarkOf(x: Name): int {
    if x.at then AT else PLUS
  }

  /** What follows the modifier. */
  function Tail(x: Name): Bytes {
    Part(PLUS, x.special) + (Part(COMMA, x.sponsor) + Part(UNDERSCORE, x.revision))
  }

  function AfterCodeset(x: Name): Bytes {
    Part(MarkOf(x), x.modifier) + Tail(x)
  }

  function AfterLanguage(x: Name): Bytes {
    Part(UNDERSCORE, x.territory) + (Part(DOT, x.codeset) + AfterCodeset(x))
  }

  /** The name that has these parts. */
  function Rejoin(x: Name): Bytes {
    x.language + AfterLanguage(x)
  }

  const LANGUAGE_ENDS := {UNDERSCORE, AT, PLUS, COMMA}
  const TERRITORY_ENDS := {DOT, AT, PLUS, COMMA, UNDERSCORE}
  const CODESET_ENDS := {AT}
  const MODIFIER_ENDS := {PLUS, COMMA, UNDERSCORE}
  const SPECIAL_ENDS := {COMMA, UNDERSCORE}
  const SPONSOR_ENDS := {UNDERSCORE}

  /** How far it is to the first byte of `ends`. */
  function Span(s: Bytes, ends: set<int>): (n: nat)
    ensures n <= |s|
  {
    if s == [] || s[0] in ends then 0 else 1 + Span(s[1..], ends)
  }

  lemma {:induction false} SpanStops(s: Bytes, ends: set<int>)
    ensures forall k :: 0 <= k < Span(s, ends) ==> s[k] !in ends
    ensures Span(s, ends) < |s| ==> s[Span(s, ends)] in ends
  {
    if s != [] && s[0] !in ends {
      SpanStops(s[1..], ends);
    }
  }

  lemma {:induction false} SpanIs(a: Bytes, b: Bytes, ends: set<int>)
    requires forall c | c in a :: c !in ends
    requires b == [] || b[0] in ends
    ensures Span(a + b, ends) == |a|
  {
    if a == [] {
      assert a + b == b;
    } else {
      assert (a + b)[1..] == a[1..] + b;
      assert (a + b)[0] == a[0] && a[0] in a;
      SpanIs(a[1..], b, ends);
    }
  }

  /** A part, if its delimiter comes next, and what is left. */
  datatype Cut = Cut(part: Option<Bytes>, rest: Bytes)

  function Take(s: Bytes, mark: int, ends: set<int>): Cut {
    if s == [] || s[0] != mark then Cut(None, s)
    else var n := Span(s[1..], ends); Cut(Some(s[1..][..n]), s[1..][n..])
  }

  /** The parts of a name, from left to right. */
  function Explode(s: Bytes): Name {
    var n := Span(s, LANGUAGE_ENDS);
    if n == 0 then Name(s, None, None, false, None, None, None, None)
    else FromTerritory(s[..n], s[n..])
  }

  function FromTerritory(language: Bytes, s: Bytes): Name {
    var t := Take(s, UNDERSCORE, TERRITORY_ENDS);
    var c := if t.part.Some? then Take(t.rest, DOT, CODESET_ENDS) else Cut(None, t.rest);
    FromModifier(language, t.part, c.part, c.rest)
  }

  function FromModifier(language: Bytes, territory: Option<Bytes>, codeset: Option<Bytes>,
      s: Bytes): Name
  {
    if s != [] && s[0] == AT then
      Name(language, territory, codeset, true, Some(s[1..]), None, None, None)
    else if codeset.Some? then Name(language, territory, codeset, false, None, None, None, None)
    else
      var m := Take(s, PLUS, MODIFIER_ENDS);
      FromSpecial(language, territory, m.part, m.rest)
  }

  function FromSpecial(language: Bytes, territory: Option<Bytes>, modifier: Option<Bytes>,
      s: Bytes): Name
  {
    var a := Take(s, PLUS, SPECIAL_ENDS);
    var b := Take(a.rest, COMMA, SPONSOR_ENDS);
    var c := Take(b.rest, UNDERSCORE, {});
    Name(language, territory, None, false, modifier, a.part, b.part, c.part)
  }

  /** A part, if there is one, holds none of `ends`. */
  predicate Free(part: Option<Bytes>, ends: set<int>) {
    part.Some? ==> forall c | c in part.value :: c !in ends
  }

  /** A cut that loses nothing, and stops before a byte of `ends`. */
  predicate Taken(s: Bytes, mark: int, ends: set<int>, cut: Cut) {
    && Part(mark, cut.part) + cut.rest == s
    && Free(cut.part, ends)
    && (cut.part.None? ==> s == [] || s[0] != mark)
    && (cut.part.Some? ==> cut.rest == [] || cut.rest[0] in ends)
  }

  lemma TakeJoins(s: Bytes, mark: int, ends: set<int>)
    ensures Taken(s, mark, ends, Take(s, mark, ends))
  {
    if s != [] && s[0] == mark {
      var r := s[1..];
      var n := Span(r, ends);
      SpanStops(r, ends);
      assert [mark] + r[..n] + r[n..] == s;
    }
  }

  /** A part that is written out is the one that is read. */
  lemma TakeReads(mark: int, part: Option<Bytes>, rest: Bytes, ends: set<int>)
    requires part.None? ==> rest == [] || rest[0] != mark
    requires part.Some? ==> (forall k | k in part.value :: k !in ends) && (rest == [] || rest[0] in ends)
    ensures Take(Part(mark, part) + rest, mark, ends) == Cut(part, rest)
  {
    match part {
      case None =>
        assert Part(mark, part) + rest == rest;
      case Some(t) =>
        var s := Part(mark, part) + rest;
        assert s[1..] == t + rest;
        SpanIs(t, rest, ends);
    }
  }

  /**
   * The names that the two syntaxes allow:
   * `language[_territory[.codeset]][@modifier]` and
   * `language[_territory][+audience[+special]][,sponsor][_revision]`, a revision not
   * following the language at once. A text that begins with a delimiter is no such
   * name and is taken as a whole.
   */
  predicate Valid(x: Name) {
    if x.language == [] || x.language[0] in LANGUAGE_ENDS then
      x == Name(x.language, None, None, false, None, None, None, None)
    else
      && (forall c | c in x.language :: c !in LANGUAGE_ENDS)
      && Free(x.territory, TERRITORY_ENDS)
      && Free(x.codeset, CODESET_ENDS)
      && (x.codeset.Some? ==> x.territory.Some?)
      && (x.at ==> x.modifier.Some?)
      && (!x.at ==> Free(x.modifier, MODIFIER_ENDS))
      && (x.codeset.Some? && x.modifier.Some? ==> x.at)
      && (x.codeset.Some? || x.at ==> x.special.None? && x.sponsor.None? && x.revision.None?)
      && Free(x.special, SPECIAL_ENDS)
      && Free(x.sponsor, SPONSOR_ENDS)
      && (x.special.Some? ==> x.modifier.Some?)
      && (x.revision.Some? ==> x.territory.Some? || x.modifier.Some? || x.sponsor.Some?)
  }

  lemma SpecialJoins(s: Bytes, a: Cut, b: Cut, c: Cut, x: Name)
    requires s == [] || s[0] in MODIFIER_ENDS
    requires Taken(s, PLUS, SPECIAL_ENDS, a)
    requires Taken(a.rest, COMMA, SPONSOR_ENDS, b)
    requires Taken(b.rest, UNDERSCORE, {}, c)
    requires x.special == a.part && x.sponsor == b.part && x.revision == c.part
    ensures Tail(x) == s
    ensures x.special.Some? ==> s != [] && s[0] == PLUS
    ensures x.revision.Some? && x.special.None? && x.sponsor.None? ==> s != [] && s[0] == UNDERSCORE
  {
    assert c.rest == [];
  }

  lemma FromSpecialJoins(language: Bytes, territory: Option<Bytes>, modifier: Option<Bytes>, s: Bytes)
    requires s == [] || s[0] in MODIFIER_ENDS
    ensures var x := FromSpecial(language, territory, modifier, s);
            && Tail(x) == s
            && Free(x.special, SPECIAL_ENDS) && Free(x.sponsor, SPONSOR_ENDS)
            && (x.special.Some? ==> s != [] && s[0] == PLUS)
            && (x.revision.Some? && x.special.None? && x.sponsor.None? ==> s != [] && s[0] == UNDERSCORE)
  {
    var a := Take(s, PLUS, SPECIAL_ENDS);
    var b := Take(a.rest, COMMA, SPONSOR_ENDS);
    var c := Take(b.rest, UNDERSCORE, {});
    TakeJoins(s, PLUS, SPECIAL_ENDS);
    TakeJoins(a.rest, COMMA, SPONSOR_ENDS);
    TakeJoins(b.rest, UNDERSCORE, {});
    SpecialJoins(s, a, b, c, FromSpecial(language, territory, modifier, s));
  }

  /** The names made from what follows the codeset. */
  lemma ModifierJoins(language: Bytes, territory: Option<Bytes>, codeset: Option<Bytes>, s: Bytes)
    requires language != [] && forall c | c in language :: c !in LANGUAGE_ENDS
    requires Free(territory, TERRITORY_ENDS) && Free(codeset, CODESET_ENDS)
    requires codeset.Some? ==> territory.Some?
    requires s == [] || s[0] in MODIFIER_ENDS || s[0] == AT
    requires codeset.Some? ==> s == [] || s[0] == AT
    requires territory.None? ==> s == [] || s[0] != UNDERSCORE
    ensures AfterCodeset(FromModifier(language, territory, codeset, s)) == s
    ensures Valid(FromModifier(language, territory, codeset, s))
  {
    if s != [] && s[0] == AT {
      assert s == [AT] + s[1..];
    } else if codeset.None? {
      var m := Take(s, PLUS, MODIFIER_ENDS);
      TakeJoins(s, PLUS, MODIFIER_ENDS);
      FromSpecialJoins(language, territory, m.part, m.rest);
    }
  }

  lemma TerritoryParts(s: Bytes, t: Cut, c: Cut, x: Name)
    requires Taken(s, UNDERSCORE, TERRITORY_ENDS, t)
    requires if t.part.Some? then Taken(t.rest, DOT, CODESET_ENDS, c) else c == Cut(None, s)
    requires x.territory == t.part && x.codeset == c.part && AfterCodeset(x) == c.rest
    ensures Rejoin(x) == x.language + s
  {
    assert t.part.None? ==> t.rest == s;
    assert AfterLanguage(x) == s;
  }

  lemma SameParts(language: Bytes, territory: Option<Bytes>, codeset: Option<Bytes>, s: Bytes)
    ensures var x := FromModifier(language, territory, codeset, s);
            && x.language == language && x.territory == territory
            && (codeset.Some? || x.at ==> x.codeset == codeset)
            && (codeset.None? ==> x.codeset.None?)
  {
  }

  lemma TerritoryJoins(language: Bytes, s: Bytes)
    requires language != [] && forall c | c in language :: c !in LANGUAGE_ENDS
    requires s == [] || s[0] in LANGUAGE_ENDS
    ensures Rejoin(FromTerritory(language, s)) == language + s
    ensures Valid(FromTerritory(language, s))
  {
    var t := Take(s, UNDERSCORE, TERRITORY_ENDS);
    TakeJoins(s, UNDERSCORE, TERRITORY_ENDS);
    var c := if t.part.Some? then Take(t.rest, DOT, CODESET_ENDS) else Cut(None, t.rest);
    if t.part.Some? {
      TakeJoins(t.rest, DOT, CODESET_ENDS);
    }
    TakenEnds(s, t, c);
    ModifierJoins(language, t.part, c.part, c.rest);
    SameParts(language, t.part, c.part, c.rest);
    TerritoryParts(s, t, c, FromModifier(language, t.part, c.part, c.rest));
  }

  lemma TakenEnds(s: Bytes, t: Cut, c: Cut)
    requires s == [] || s[0] in LANGUAGE_ENDS
    requires Taken(s, UNDERSCORE, TERRITORY_ENDS, t)
    requires if t.part.Some? then Taken(t.rest, DOT, CODESET_ENDS, c) else c == Cut(None, t.rest)
    ensures t.part.None? ==> c.rest == s
    ensures c.rest == [] || c.rest[0] in MODIFIER_ENDS || c.rest[0] == AT
    ensures c.part.Some? ==> c.rest == [] || c.rest[0] == AT
    ensures t.part.None? ==> c.rest == [] || c.rest[0] != UNDERSCORE
    ensures Free(t.part, TERRITORY_ENDS) && Free(c.part, CODESET_ENDS)
  {
  }

  /** Exploding loses nothing, and makes a valid name. */
  lemma ExplodeJoins(s: Bytes)
    ensures Rejoin(Explode(s)) == s
    ensures Valid(Explode(s))
  {
    var n := Span(s, LANGUAGE_ENDS);
    SpanStops(s, LANGUAGE_ENDS);
    if n == 0 {
      assert Rejoin(Explode(s)) == s + [];
    } else {
      var l, r := s[..n], s[n..];
      assert s == l + r;
      TerritoryJoins(l, r);
    }
  }

  lemma SpecialReads(x: Name)
    requires Valid(x) && x.language != [] && x.language[0] !in LANGUAGE_ENDS
    requires x.codeset.None? && !x.at
    ensures FromSpecial(x.language, x.territory, x.modifier, Tail(x)) == x
    ensures Tail(x) == [] || Tail(x)[0] in MODIFIER_ENDS
    ensures x.modifier.None? ==> Tail(x) == [] || Tail(x)[0] != PLUS
    ensures x.territory.None? && x.modifier.None? ==> Tail(x) == [] || Tail(x)[0] == COMMA
  {
    var r3 := Part(UNDERSCORE, x.revision);
    var r2 := Part(COMMA, x.sponsor) + r3;
    TakeReads(PLUS, x.special, r2, SPECIAL_ENDS);
    TakeReads(COMMA, x.sponsor, r3, SPONSOR_ENDS);
    TakeReads(UNDERSCORE, x.revision, [], {});
    assert r3 + [] == r3;
  }

  lemma ModifierReads(x: Name)
    requires Valid(x) && x.language != [] && x.language[0] !in LANGUAGE_ENDS
    ensures FromModifier(x.language, x.territory, x.codeset, AfterCodeset(x)) == x
    ensures AfterCodeset(x) == [] || AfterCodeset(x)[0] in MODIFIER_ENDS || AfterCodeset(x)[0] == AT
    ensures x.codeset.Some? ==> AfterCodeset(x) == [] || AfterCodeset(x)[0] == AT
    ensures x.territory.None? ==> AfterCodeset(x) == [] || AfterCodeset(x)[0] != UNDERSCORE
  {
    if x.at {
      assert Tail(x) == [];
      assert AfterCodeset(x)[1..] == x.modifier.value;
    } else if x.codeset.None? {
      SpecialReads(x);
      TakeReads(PLUS, x.modifier, Tail(x), MODIFIER_ENDS);
    } else {
      assert AfterCodeset(x) == [];
    }
  }

  lemma TerritoryReads(x: Name)
    requires Valid(x) && x.language != [] && x.language[0] !in LANGUAGE_ENDS
    ensures FromTerritory(x.language, AfterLanguage(x)) == x
    ensures AfterLanguage(x) == [] || AfterLanguage(x)[0] in LANGUAGE_ENDS
  {
    ModifierReads(x);
    var r := Part(DOT, x.codeset) + AfterCodeset(x);
    TakeReads(UNDERSCORE, x.territory, r, TERRITORY_ENDS);
    if x.territory.Some? {
      TakeReads(DOT, x.codeset, AfterCodeset(x), CODESET_ENDS);
    } else {
      assert r == AfterCodeset(x);
    }
  }

  /** Every valid name is found again: there is no other way to read its text. */
  lemma ExplodeRejoin(x: Name)
    ensures Explode(Rejoin(x)) == x <==> Valid(x)
  {
    if Valid(x) {
      if x.language == [] || x.language[0] in LANGUAGE_ENDS {
        assert Rejoin(x) == x.language;
      } else {
        TerritoryReads(x);
        SpanIs(x.language, AfterLanguage(x), LANGUAGE_ENDS);
      }
    }
    if Explode(Rejoin(x)) == x {
      ExplodeJoins(Rejoin(x));
    }
  }
}
