/** Splitting a locale name in place. */
module ExplodeName {
  import opened CStrings
  import opened Codeset
  import opened LocaleMarks
  import opened LocaleSyntax
  import opened Options
  import opened Sequences

  /** Where the parts begin; -1 is NULL. The language begins at 0. */
  datatype Pointers = Pointers(territory: int, codeset: int, modifier: int, special: int, sponsor: int,
    revision: int)

  predicate IsXpg(x: Name) {
    x.codeset.Some? || x.at
  }

  function Bit(on: bool, bit: nat): nat {
    if on then bit else 0
  }

  function TailMask(x: Name): nat {
    Bit(x.special.Some?, SPECIAL) + Bit(x.sponsor.Some?, SPONSOR) + Bit(x.revision.Some?, REVISION)
  }

  /** The normalized codeset counts as different whenever a modifier follows. */
  predicate OtherCodeset(x: Name) {
    && x.codeset.Some? && x.codeset.value != []
    && (x.modifier.Some? || x.codeset.value != Normalized(x.codeset.value))
  }

  predicate Empty(part: Option<Bytes>) {
    part == Some([])
  }

  /** Which parts the name has. */
  function FullMask(x: Name): nat {
    Bit(x.territory.Some?, TERRITORY) + Bit(x.codeset.Some?, CODESET) + Bit(OtherCodeset(x), NORM_CODESET)
    + Bit(x.modifier.Some?, MODIFIER + AUDIENCE) + TailMask(x)
  }

  /**
   * An XPG name loses the bits of empty parts, except that of the audience: an empty
   * modifier is still looked for in the CEN syntax.
   */
  function Mask(x: Name): nat {
    FullMask(x)
    - Bit(IsXpg(x) && Empty(x.territory), TERRITORY)
    - Bit(IsXpg(x) && Empty(x.codeset), CODESET)
    - Bit(IsXpg(x) && Empty(x.modifier), MODIFIER)
  }

  /** The name with a NUL in place of every delimiter. */
  function Overwritten(x: Name): Bytes {
    x.language + Part(0, x.territory) + Part(0, x.codeset) + Part(0, x.modifier)
    + Part(0, x.special) + Part(0, x.sponsor) + Part(0, x.revision)
  }

  /**
   * A pointer to a part in a buffer that has been split up to `cp`: the part ends
   * there or at a NUL.
   */
  predicate Points(buf: Bytes, cp: nat, p: int, part: Option<Bytes>) {
    match part
    case None => p == -1
    case Some(t) =>
      && 0 <= p && p + |t| <= cp < |buf| && buf[p..p + |t|] == t
      && (p + |t| == cp || buf[p + |t|] == 0)
  }

  /** The pointers of a name whose parts have been found up to `cp`. */
  predicate Found(buf: Bytes, cp: nat, ptrs: Pointers, x: Name) {
    && Points(buf, cp, 0, Some(x.language))
    && Points(buf, cp, ptrs.territory, x.territory)
    && Points(buf, cp, ptrs.codeset, x.codeset)
    && Points(buf, cp, ptrs.modifier, x.modifier)
    && Points(buf, cp, ptrs.special, x.special)
    && Points(buf, cp, ptrs.sponsor, x.sponsor)
    && Points(buf, cp, ptrs.revision, x.revision)
  }

  lemma PointsOn(buf: Bytes, cp: nat, more: Bytes, next: nat, p: int, part: Option<Bytes>)
    requires Points(buf, cp, p, part)
    requires cp <= next < |more| && cp < |buf| && more[..cp] == buf[..cp]
    requires next == cp || more[cp] == 0
    ensures Points(more, next, p, part)
  {
    if part.Some? {
      var n := p + |part.value|;
      assert more[p..n] == more[..cp][p..n] == buf[..cp][p..n] == buf[p..n];
      if n < cp {
        assert more[n] == more[..cp][n] == buf[..cp][n];
      }
    }
  }

  /** Splitting further keeps what has been found. */
  lemma FoundOn(buf: Bytes, cp: nat, more: Bytes, next: nat, ptrs: Pointers, x: Name)
    requires Found(buf, cp, ptrs, x)
    requires cp <= next < |more| && cp < |buf| && more[..cp] == buf[..cp]
    requires next == cp || more[cp] == 0
    ensures Found(more, next, ptrs, x)
  {
    PointsOn(buf, cp, more, next, 0, Some(x.language));
    PointsOn(buf, cp, more, next, ptrs.territory, x.territory);
    PointsOn(buf, cp, more, next, ptrs.codeset, x.codeset);
    PointsOn(buf, cp, more, next, ptrs.modifier, x.modifier);
    PointsOn(buf, cp, more, next, ptrs.special, x.special);
    PointsOn(buf, cp, more, next, ptrs.sponsor, x.sponsor);
    PointsOn(buf, cp, more, next, ptrs.revision, x.revision);
  }

  lemma SpanStep(r: Bytes, i: nat, ends: set<int>)
    requires i < |r|
    ensures Span(r[i..], ends) == if r[i] in ends then 0 else 1 + Span(r[i + 1..], ends)
  {
    assert r[i..][1..] == r[i + 1..];
  }

  /** The scanning loops: on to the first byte of `ends`, or to the NUL. */
  method Scan(name: array<int>, from: nat, ends: set<int>, ghost r: CString) returns (cp: nat)
    requires from < name.Length && name[from..] == r + [0]
    ensures cp == from + Span(r, ends) < name.Length
  {
    cp := from;
    ghost var i := 0;
    assert r[0..] == r;
    assert forall k :: 0 <= k < |r| ==> name[from..][k] == name[from + k] == r[k];
    assert name[from..][|r|] == name[from + |r|] == 0;
    while name[cp] != 0 && name[cp] !in ends
      invariant i <= |r| && cp == from + i < name.Length
      invariant Span(r, ends) == i + Span(r[i..], ends)
      decreases |r| - i
    {
      SpanStep(r, i, ends);
      cp := cp + 1;
      i := i + 1;
    }
    if i < |r| {
      SpanStep(r, i, ends);
    }
  }

  /** One part, if its delimiter is next: the delimiter is overwritten and the part skipped. */
  method TakePart(name: array<int>, cp: nat, mark: int, ends: set<int>, ghost r: CString)
    returns (p: int, next: nat, ghost part: Option<CString>, ghost rest: CString)
    requires cp < name.Length && name[cp..] == r + [0] && mark != 0
    modifies name
    ensures Take(r, mark, ends) == Cut(part, rest)
    ensures cp <= next < name.Length && name[next..] == rest + [0]
    ensures name[..next] == old(name[..cp]) + Part(0, part)
    ensures next == cp || name[cp] == 0
    ensures Points(name[..], next, p, part)
    ensures part.Some? ==> p + |part.value| == next && name[p..next] == part.value
  {
    p, next := -1, cp;
    part, rest := None, r;
    assert r != [] ==> name[cp..][0] == r[0];
    assert r == [] ==> name[cp..][0] == 0;
    if name[cp] == mark {
      ghost var before := name[..cp];
      assert name[cp + 1..] == name[cp..][1..] == r[1..] + [0];
      name[cp] := 0;
      p := cp + 1;
      next := Scan(name, p, ends, r[1..]);
      ghost var n := Span(r[1..], ends);
      TakenLayout(name[..], cp, r[1..], n);
      assert name[..cp] == before;
      part, rest := Some(r[1..][..n]), r[1..][n..];
    }
  }

  lemma TakenLayout(buf: Bytes, cp: nat, r: Bytes, n: nat)
    requires cp < |buf| && buf[cp] == 0 && buf[cp + 1..] == r + [0] && n <= |r|
    ensures cp + 1 + n < |buf|
    ensures buf[cp + 1 + n..] == r[n..] + [0]
    ensures buf[..cp + 1 + n] == buf[..cp] + ([0] + r[..n])
    ensures buf[cp + 1..cp + 1 + n] == r[..n]
  {
    var rest := buf[cp + 1..];
    assert rest[n..] == r[n..] + [0];
    assert rest[..n] == r[..n];
    assert buf[cp + 1 + n..] == rest[n..];
    assert buf[cp + 1..cp + 1 + n] == rest[..n];
    assert buf[..cp + 1 + n] == buf[..cp] + [buf[cp]] + buf[cp + 1..cp + 1 + n];
  }

  /** The same, when other parts have been found before. */
  method TakeNext(name: array<int>, cp: nat, mark: int, ends: set<int>, ghost ptrs: Pointers, ghost x: Name,
      ghost r: CString)
    returns (p: int, next: nat, ghost part: Option<CString>, ghost rest: CString)
    requires cp < name.Length && name[cp..] == r + [0] && mark != 0
    requires Found(name[..], cp, ptrs, x)
    modifies name
    ensures Take(r, mark, ends) == Cut(part, rest)
    ensures cp <= next < name.Length && name[next..] == rest + [0]
    ensures name[..next] == old(name[..cp]) + Part(0, part)
    ensures Points(name[..], next, p, part)
    ensures part.Some? ==> p + |part.value| == next && name[p..next] == part.value
    ensures Found(name[..], next, ptrs, x)
  {
    ghost var before := name[..];
    p, next, part, rest := TakePart(name, cp, mark, ends, r);
    assert name[..][..cp] == name[..next][..cp] == before[..cp];
    FoundOn(before, cp, name[..], next, ptrs, x);
  }

  lemma AddSpecial(buf: Bytes, cp: nat, ptrs: Pointers, x: Name, p: int, part: Option<Bytes>)
    requires Found(buf, cp, ptrs, x) && Points(buf, cp, p, part)
    requires x.special.None? && x.sponsor.None? && x.revision.None?
    ensures Found(buf, cp, ptrs.(special := p), x.(special := part))
    ensures Overwritten(x.(special := part)) == Overwritten(x) + Part(0, part)
  {
  }

  lemma AddSponsor(buf: Bytes, cp: nat, ptrs: Pointers, x: Name, p: int, part: Option<Bytes>)
    requires Found(buf, cp, ptrs, x) && Points(buf, cp, p, part)
    requires x.sponsor.None? && x.revision.None?
    ensures Found(buf, cp, ptrs.(sponsor := p), x.(sponsor := part))
    ensures Overwritten(x.(sponsor := part)) == Overwritten(x) + Part(0, part)
  {
  }

  lemma AddRevision(buf: Bytes, cp: nat, ptrs: Pointers, x: Name, p: int, part: Option<Bytes>)
    requires Found(buf, cp, ptrs, x) && Points(buf, cp, p, part)
    requires x.revision.None?
    ensures Found(buf, cp, ptrs.(revision := p), x.(revision := part))
    ensures Overwritten(x.(revision := part)) == Overwritten(x) + Part(0, part)
  {
  }

  /** Nothing is left after the revision. */
  lemma TailDone(r: Bytes)
    requires r == [] || r[0] in MODIFIER_ENDS
    ensures Take(Take(Take(r, PLUS, SPECIAL_ENDS).rest, COMMA, SPONSOR_ENDS).rest, UNDERSCORE, {}).rest == []
  {
    var a := Take(r, PLUS, SPECIAL_ENDS);
    var b := Take(a.rest, COMMA, SPONSOR_ENDS);
    TakeJoins(r, PLUS, SPECIAL_ENDS);
    TakeJoins(a.rest, COMMA, SPONSOR_ENDS);
    TakeJoins(b.rest, UNDERSCORE, {});
  }

  method SplitSpecial(name: array<int>, start: nat, ptrs0: Pointers, ghost x: Name, ghost r: CString)
    returns (cp: nat, ptrs: Pointers, bit: nat, ghost part: Option<CString>, ghost rest: CString)
    requires start < name.Length && name[start..] == r + [0]
    requires x.special.None? && x.sponsor.None? && x.revision.None?
    requires Found(name[..], start, ptrs0, x) && name[..start] == Overwritten(x)
    modifies name
    ensures Take(r, PLUS, SPECIAL_ENDS) == Cut(part, rest)
    ensures cp < name.Length && name[cp..] == rest + [0]
    ensures ptrs == ptrs0.(special := ptrs.special)
    ensures bit == Bit(part.Some?, SPECIAL)
    ensures Found(name[..], cp, ptrs, x.(special := part)) && name[..cp] == Overwritten(x.(special := part))
  {
    var p;
    p, cp, part, rest := TakeNext(name, start, PLUS, SPECIAL_ENDS, ptrs0, x, r);
    ptrs := ptrs0.(special := p);
    bit := Bit(p >= 0, SPECIAL);
    AddSpecial(name[..], cp, ptrs0, x, p, part);
  }

  method SplitSponsor(name: array<int>, start: nat, ptrs0: Pointers, ghost x: Name, ghost r: CString)
    returns (cp: nat, ptrs: Pointers, bit: nat, ghost part: Option<CString>, ghost rest: CString)
    requires start < name.Length && name[start..] == r + [0]
    requires x.sponsor.None? && x.revision.None?
    requires Found(name[..], start, ptrs0, x) && name[..start] == Overwritten(x)
    modifies name
    ensures Take(r, COMMA, SPONSOR_ENDS) == Cut(part, rest)
    ensures cp < name.Length && name[cp..] == rest + [0]
    ensures ptrs == ptrs0.(sponsor := ptrs.sponsor)
    ensures bit == Bit(part.Some?, SPONSOR)
    ensures Found(name[..], cp, ptrs, x.(sponsor := part)) && name[..cp] == Overwritten(x.(sponsor := part))
  {
    var p;
    p, cp, part, rest := TakeNext(name, start, COMMA, SPONSOR_ENDS, ptrs0, x, r);
    ptrs := ptrs0.(sponsor := p);
    bit := Bit(p >= 0, SPONSOR);
    AddSponsor(name[..], cp, ptrs0, x, p, part);
  }

  method SplitRevision(name: array<int>, start: nat, ptrs0: Pointers, ghost x: Name, ghost r: CString)
    returns (cp: nat, ptrs: Pointers, bit: nat, ghost part: Option<CString>, ghost rest: CString)
    requires start < name.Length && name[start..] == r + [0]
    requires x.revision.None?
    requires Found(name[..], start, ptrs0, x) && name[..start] == Overwritten(x)
    modifies name
    ensures Take(r, UNDERSCORE, {}) == Cut(part, rest)
    ensures cp < name.Length && name[cp..] == rest + [0]
    ensures ptrs == ptrs0.(revision := ptrs.revision)
    ensures bit == Bit(part.Some?, REVISION)
    ensures Found(name[..], cp, ptrs, x.(revision := part)) && name[..cp] == Overwritten(x.(revision := part))
  {
    var p;
    p, cp, part, rest := TakeNext(name, start, UNDERSCORE, {}, ptrs0, x, r);
    ptrs := ptrs0.(revision := p);
    bit := Bit(p >= 0, REVISION);
    AddRevision(name[..], cp, ptrs0, x, p, part);
  }

  method SplitLater(name: array<int>, start: nat, ptrs0: Pointers, ghost x: Name, ghost r: CString)
    returns (cp: nat, ptrs: Pointers, mask: nat, ghost b: Option<CString>, ghost c: Option<CString>,
             ghost rb: CString, ghost rest: CString)
    requires start < name.Length && name[start..] == r + [0]
    requires x.sponsor.None? && x.revision.None?
    requires Found(name[..], start, ptrs0, x) && name[..start] == Overwritten(x)
    modifies name
    ensures Take(r, COMMA, SPONSOR_ENDS) == Cut(b, rb) && Take(rb, UNDERSCORE, {}) == Cut(c, rest)
    ensures cp < name.Length && name[cp..] == rest + [0]
    ensures mask == Bit(b.Some?, SPONSOR) + Bit(c.Some?, REVISION)
    ensures Found(name[..], cp, ptrs, x.(sponsor := b, revision := c))
    ensures name[..cp] == Overwritten(x.(sponsor := b, revision := c))
  {
    var next, bit;
    next, ptrs, mask, b, rb := SplitSponsor(name, start, ptrs0, x, r);
    cp, ptrs, bit, c, rest := SplitRevision(name, next, ptrs, x.(sponsor := b), rb);
    mask := mask + bit;
  }

  method SplitThree(name: array<int>, start: nat, ptrs0: Pointers, ghost x0: Name, ghost r: CString)
    returns (mask: nat, ptrs: Pointers, ghost cp: nat, ghost x: Name)
    requires start < name.Length && name[start..] == r + [0]
    requires x0 == Name(x0.language, x0.territory, None, false, x0.modifier, None, None, None)
    requires r == [] || r[0] in MODIFIER_ENDS
    requires Found(name[..], start, ptrs0, x0) && name[..start] == Overwritten(x0)
    modifies name
    ensures x == FromSpecial(x0.language, x0.territory, x0.modifier, r)
    ensures cp < name.Length && name[cp..] == [0]
    ensures mask == TailMask(x)
    ensures Found(name[..], cp, ptrs, x) && name[..cp] == Overwritten(x)
  {
    ghost var a, b, c, ra, rb, rest;
    var next;
    var bit;
    next, ptrs, mask, a, ra := SplitSpecial(name, start, ptrs0, x0, r);
    next, ptrs, bit, b, c, rb, rest := SplitLater(name, next, ptrs, x0.(special := a), ra);
    mask := mask + bit;
    cp := next;
    x := x0.(special := a, sponsor := b, revision := c);
    FromSpecialIs(x0, r, Cut(a, ra), Cut(b, rb), Cut(c, rest));
  }

  lemma FromSpecialIs(x: Name, r: Bytes, a: Cut, b: Cut, c: Cut)
    requires x == Name(x.language, x.territory, None, false, x.modifier, None, None, None)
    requires r == [] || r[0] in MODIFIER_ENDS
    requires Take(r, PLUS, SPECIAL_ENDS) == a
    requires Take(a.rest, COMMA, SPONSOR_ENDS) == b
    requires Take(b.rest, UNDERSCORE, {}) == c
    ensures FromSpecial(x.language, x.territory, x.modifier, r) ==
            x.(special := a.part, sponsor := b.part, revision := c.part)
    ensures c.rest == []
  {
    TailDone(r);
  }

  lemma FromNothing(x: Name)
    requires x == Name(x.language, x.territory, None, false, x.modifier, None, None, None)
    ensures FromSpecial(x.language, x.territory, x.modifier, []) == x
  {
  }

  /** Special, sponsor and revision. */
  method SplitTail(name: array<int>, start: nat, ptrs0: Pointers, ghost x0: Name, ghost r: CString)
    returns (mask: nat, ptrs: Pointers, ghost cp: nat, ghost x: Name)
    requires start < name.Length && name[start..] == r + [0]
    requires r == [] || r[0] in MODIFIER_ENDS
    requires x0 == Name(x0.language, x0.territory, None, false, x0.modifier, None, None, None)
    requires Found(name[..], start, ptrs0, x0) && name[..start] == Overwritten(x0)
    modifies name
    ensures x == FromSpecial(x0.language, x0.territory, x0.modifier, r)
    ensures cp < name.Length && name[cp..] == [0]
    ensures mask == TailMask(x)
    ensures Found(name[..], cp, ptrs, x) && name[..cp] == Overwritten(x)
  {
    assert r != [] ==> name[start..][0] == r[0];
    if name[start] == PLUS || name[start] == COMMA || name[start] == UNDERSCORE {
      mask, ptrs, cp, x := SplitThree(name, start, ptrs0, x0, r);
    } else {
      assert r == [];
      FromNothing(x0);
      mask, ptrs, cp, x := 0, ptrs0, start, x0;
    }
  }

  lemma AddModifier(buf: Bytes, cp: nat, ptrs: Pointers, x: Name, p: int, at: bool, part: Option<Bytes>)
    requires Found(buf, cp, ptrs, x) && Points(buf, cp, p, part)
    requires x.modifier.None? && x.special.None? && x.sponsor.None? && x.revision.None?
    ensures Found(buf, cp, ptrs.(modifier := p), x.(at := at, modifier := part))
    ensures Overwritten(x.(at := at, modifier := part)) == Overwritten(x) + Part(0, part)
  {
  }

  /** Overwrites `@`: the modifier is the rest of the name. */
  method CutAt(name: array<int>, cp: nat, ghost r: CString) returns (p: nat)
    requires cp < name.Length && name[cp..] == r + [0] && r != []
    modifies name
    ensures p == cp + 1 && p + |r[1..]| == name.Length - 1
    ensures name[name.Length - 1..] == [0] && name[cp] == 0
    ensures name[..name.Length - 1] == old(name[..cp]) + Part(0, Some(r[1..]))
    ensures Points(name[..], name.Length - 1, p, Some(r[1..]))
  {
    ghost var prefix := name[..cp];
    assert name[cp + 1..] == name[cp..][1..] == r[1..] + [0];
    name[cp] := 0;
    p := cp + 1;
    assert name[..cp] == prefix;
    TakenLayout(name[..], cp, r[1..], |r[1..]|);
  }

  method SplitAt(name: array<int>, start: nat, ptrs0: Pointers, ghost x0: Name, ghost r: CString)
    returns (ptrs: Pointers, ghost cp: nat, ghost x: Name)
    requires start < name.Length && name[start..] == r + [0] && r != []
    requires x0 == Name(x0.language, x0.territory, x0.codeset, false, None, None, None, None)
    requires Found(name[..], start, ptrs0, x0) && name[..start] == Overwritten(x0)
    modifies name
    ensures x == x0.(at := true, modifier := Some(r[1..]))
    ensures cp < name.Length && name[cp..] == [0]
    ensures Found(name[..], cp, ptrs, x) && name[..cp] == Overwritten(x)
  {
    ghost var before := name[..];
    var p := CutAt(name, start, r);
    cp := name.Length - 1;
    assert name[..][..start] == name[..cp][..start] == before[..start];
    FoundOn(before, start, name[..], cp, ptrs0, x0);
    ptrs := ptrs0.(modifier := p);
    AddModifier(name[..], cp, ptrs0, x0, p, true, Some(r[1..]));
    x := x0.(at := true, modifier := Some(r[1..]));
  }

  /** A modifier after `+`, if there is one. */
  method SplitPlus(name: array<int>, start: nat, ptrs0: Pointers, ghost x: Name, ghost r: CString)
    returns (cp: nat, ptrs: Pointers, bits: nat, ghost part: Option<CString>, ghost rest: CString)
    requires start < name.Length && name[start..] == r + [0]
    requires x == Name(x.language, x.territory, None, false, None, None, None, None)
    requires Found(name[..], start, ptrs0, x) && name[..start] == Overwritten(x)
    modifies name
    ensures Take(r, PLUS, MODIFIER_ENDS) == Cut(part, rest)
    ensures cp < name.Length && name[cp..] == rest + [0]
    ensures bits == Bit(part.Some?, MODIFIER + AUDIENCE)
    ensures Found(name[..], cp, ptrs, x.(modifier := part)) && name[..cp] == Overwritten(x.(modifier := part))
  {
    var p;
    p, cp, part, rest := TakeNext(name, start, PLUS, MODIFIER_ENDS, ptrs0, x, r);
    ptrs := ptrs0.(modifier := p);
    bits := Bit(p >= 0, MODIFIER + AUDIENCE);
    AddModifier(name[..], cp, ptrs0, x, p, false, part);
  }

  lemma AfterPlus(r: Bytes)
    requires r == [] || r[0] in MODIFIER_ENDS
    ensures var c := Take(r, PLUS, MODIFIER_ENDS); c.rest == [] || c.rest[0] in MODIFIER_ENDS
  {
    TakeJoins(r, PLUS, MODIFIER_ENDS);
  }

  /** The modifier and what follows it. */
  method SplitModifier(name: array<int>, start: nat, xpg: bool, ptrs0: Pointers, ghost x0: Name, ghost r: CString)
    returns (mask: nat, ptrs: Pointers, isXpg: bool, ghost cp: nat, ghost x: Name)
    requires start < name.Length && name[start..] == r + [0]
    requires r == [] || r[0] in MODIFIER_ENDS || r[0] == AT
    requires xpg <==> x0.codeset.Some?
    requires xpg ==> r == [] || r[0] == AT
    requires x0 == Name(x0.language, x0.territory, x0.codeset, false, None, None, None, None)
    requires Found(name[..], start, ptrs0, x0) && name[..start] == Overwritten(x0)
    modifies name
    ensures x == FromModifier(x0.language, x0.territory, x0.codeset, r)
    ensures isXpg <==> IsXpg(x)
    ensures cp < name.Length && name[cp..] == [0]
    ensures mask == Bit(x.modifier.Some?, MODIFIER + AUDIENCE) + TailMask(x)
    ensures Found(name[..], cp, ptrs, x) && name[..cp] == Overwritten(x)
  {
    assert r != [] ==> name[start..][0] == r[0];
    assert r == [] ==> name[start..][0] == 0;
    isXpg := xpg;
    if name[start] == AT {
      isXpg, mask := true, MODIFIER + AUDIENCE;
      ptrs, cp, x := SplitAt(name, start, ptrs0, x0, r);
    } else if !xpg {
      AfterPlus(r);
      ghost var part, rest;
      var next, bits;
      next, ptrs, bits, part, rest := SplitPlus(name, start, ptrs0, x0, r);
      mask, ptrs, cp, x := SplitTail(name, next, ptrs, x0.(modifier := part), rest);
      mask := mask + bits;
    } else {
      mask, ptrs, cp, x := 0, ptrs0, start, x0;
    }
  }

  lemma AddTerritory(buf: Bytes, cp: nat, ptrs: Pointers, x: Name, p: int, part: Option<Bytes>)
    requires Found(buf, cp, ptrs, x) && Points(buf, cp, p, part)
    requires x == Name(x.language, None, None, false, None, None, None, None)
    ensures Found(buf, cp, ptrs.(territory := p), x.(territory := part))
    ensures Overwritten(x.(territory := part)) == Overwritten(x) + Part(0, part)
  {
  }

  lemma AddCodeset(buf: Bytes, cp: nat, ptrs: Pointers, x: Name, p: int, part: Option<Bytes>)
    requires Found(buf, cp, ptrs, x) && Points(buf, cp, p, part)
    requires x == Name(x.language, x.territory, None, false, None, None, None, None)
    ensures Found(buf, cp, ptrs.(codeset := p), x.(codeset := part))
    ensures Overwritten(x.(codeset := part)) == Overwritten(x) + Part(0, part)
  {
  }

  method SplitTerritory(name: array<int>, start: nat, ptrs0: Pointers, ghost x: Name, ghost r: CString)
    returns (cp: nat, ptrs: Pointers, bit: nat, ghost part: Option<CString>, ghost rest: CString)
    requires start < name.Length && name[start..] == r + [0]
    requires x == Name(x.language, None, None, false, None, None, None, None)
    requires Found(name[..], start, ptrs0, x) && name[..start] == Overwritten(x)
    modifies name
    ensures Take(r, UNDERSCORE, TERRITORY_ENDS) == Cut(part, rest)
    ensures cp < name.Length && name[cp..] == rest + [0]
    ensures bit == Bit(part.Some?, TERRITORY)
    ensures Found(name[..], cp, ptrs, x.(territory := part)) && name[..cp] == Overwritten(x.(territory := part))
  {
    var p;
    p, cp, part, rest := TakeNext(name, start, UNDERSCORE, TERRITORY_ENDS, ptrs0, x, r);
    ptrs := ptrs0.(territory := p);
    bit := Bit(p >= 0, TERRITORY);
    AddTerritory(name[..], cp, ptrs0, x, p, part);
  }

  /** Where the codeset is not its own normalization, given what follows it. */
  predicate Differs(codeset: Bytes, rest: Bytes) {
    codeset != [] && codeset + rest != Normalized(codeset)
  }

  /** A normalized name holds no `@`, so that whatever begins with one makes the difference. */
  lemma DiffersExactly(codeset: Bytes, rest: Bytes)
    requires rest == [] || rest[0] == AT
    ensures Differs(codeset, rest) <==>
            codeset != [] && (rest != [] || codeset != Normalized(codeset))
  {
    if rest == [] {
      assert codeset + rest == codeset;
    } else {
      assert (codeset + rest)[|codeset|] == AT;
      FoldedBytes(codeset);
      assert AT !in Folded(codeset);
      assert AT !in Normalized(codeset);
    }
  }

  /** The bits for the codeset at `p`, which the cursor has passed. */
  method CodesetBits(name: array<int>, p: nat, cp: nat, ghost part: CString, ghost rest: CString)
    returns (bits: nat, normalized: CString)
    requires p <= cp < name.Length && name[p..cp] == part && name[cp..] == rest + [0]
    ensures bits == CODESET + Bit(Differs(part, rest), NORM_CODESET)
    ensures part != [] ==> normalized == Normalized(part)
  {
    bits, normalized := CODESET, [];
    if p != cp {
      normalized := NormalizeCodeset(name[p..cp]);
      assert name[cp..name.Length - 1] == name[cp..][..|rest|] == rest;
      assert name[p..name.Length - 1] == name[p..cp] + name[cp..name.Length - 1];
      StrCmpEqual(part + rest, normalized);
      if StrCmp(name[p..name.Length - 1], normalized) != 0 {
        bits := bits + NORM_CODESET;
      }
    }
  }

  /** The codeset, and whether its normalization is another one. */
  method SplitCodeset(name: array<int>, start: nat, ptrs0: Pointers, ghost x: Name, ghost r: CString)
    returns (cp: nat, ptrs: Pointers, bits: nat, normalized: CString, ghost part: CString, ghost rest: CString)
    requires start < name.Length && name[start..] == r + [0] && r != [] && r[0] == DOT
    requires x == Name(x.language, x.territory, None, false, None, None, None, None)
    requires Found(name[..], start, ptrs0, x) && name[..start] == Overwritten(x)
    modifies name
    ensures Take(r, DOT, CODESET_ENDS) == Cut(Some(part), rest)
    ensures cp < name.Length && name[cp..] == rest + [0]
    ensures bits == CODESET + Bit(Differs(part, rest), NORM_CODESET)
    ensures part != [] ==> normalized == Normalized(part)
    ensures Found(name[..], cp, ptrs, x.(codeset := Some(part)))
    ensures name[..cp] == Overwritten(x.(codeset := Some(part)))
  {
    ghost var cut;
    var p;
    p, cp, cut, rest := TakeNext(name, start, DOT, CODESET_ENDS, ptrs0, x, r);
    part := cut.value;
    ptrs := ptrs0.(codeset := p);
    AddCodeset(name[..], cp, ptrs0, x, p, cut);
    bits, normalized := CodesetBits(name, p, cp, part, rest);
  }

  lemma OtherIfDiffers(x: Name, part: Bytes, rest: Bytes)
    requires rest == [] || rest[0] == AT
    requires x == FromModifier(x.language, x.territory, Some(part), rest)
    ensures OtherCodeset(x) <==> Differs(part, rest)
  {
    DiffersExactly(part, rest);
  }

  /** The codeset after a territory, if there is one. */
  method SplitDot(name: array<int>, start: nat, ptrs0: Pointers, ghost x: Name, ghost r: CString)
    returns (cp: nat, ptrs: Pointers, bits: nat, normalized: CString, ghost part: Option<CString>,
      ghost rest: CString)
    requires start < name.Length && name[start..] == r + [0]
    requires x == Name(x.language, x.territory, None, false, None, None, None, None)
    requires Found(name[..], start, ptrs0, x) && name[..start] == Overwritten(x)
    modifies name
    ensures Take(r, DOT, CODESET_ENDS) == Cut(part, rest)
    ensures cp < name.Length && name[cp..] == rest + [0]
    ensures bits == Bit(part.Some?, CODESET) + Bit(part.Some? && Differs(part.value, rest), NORM_CODESET)
    ensures part.Some? && part.value != [] ==> normalized == Normalized(part.value)
    ensures part.Some? <==> bits != 0
    ensures Found(name[..], cp, ptrs, x.(codeset := part)) && name[..cp] == Overwritten(x.(codeset := part))
  {
    assert r != [] ==> name[start..][0] == r[0];
    assert r == [] ==> name[start..][0] == 0;
    if name[start] == DOT {
      ghost var c;
      cp, ptrs, bits, normalized, c, rest := SplitCodeset(name, start, ptrs0, x, r);
      part := Some(c);
    } else {
      cp, ptrs, bits, normalized, part, rest := start, ptrs0, 0, [], None, r;
    }
  }

  lemma FromTerritoryIs(language: Bytes, s: Bytes, t: Cut, c: Cut)
    requires s == [] || s[0] in LANGUAGE_ENDS
    requires Take(s, UNDERSCORE, TERRITORY_ENDS) == t
    requires if t.part.Some? then Take(t.rest, DOT, CODESET_ENDS) == c else c == Cut(None, t.rest)
    ensures FromTerritory(language, s) == FromModifier(language, t.part, c.part, c.rest)
    ensures c.rest == [] || c.rest[0] in MODIFIER_ENDS || c.rest[0] == AT
    ensures c.part.Some? ==> c.rest == [] || c.rest[0] == AT
  {
    TakeJoins(s, UNDERSCORE, TERRITORY_ENDS);
    if t.part.Some? {
      TakeJoins(t.rest, DOT, CODESET_ENDS);
    }
    TakenEnds(s, t, c);
  }

  /** Territory and codeset. */
  method SplitFront(name: array<int>, start: nat, ptrs0: Pointers, ghost x0: Name, ghost r: CString)
    returns (next: nat, ptrs: Pointers, bits: nat, isXpg: bool, normalized: CString,
      ghost x: Name, ghost rest: CString)
    requires start < name.Length && name[start..] == r + [0]
    requires r == [] || r[0] in LANGUAGE_ENDS
    requires x0 == Name(x0.language, None, None, false, None, None, None, None)
    requires Found(name[..], start, ptrs0, x0) && name[..start] == Overwritten(x0)
    modifies name
    ensures x == Name(x0.language, x.territory, x.codeset, false, None, None, None, None)
    ensures FromTerritory(x0.language, r) == FromModifier(x.language, x.territory, x.codeset, rest)
    ensures rest == [] || rest[0] in MODIFIER_ENDS || rest[0] == AT
    ensures isXpg <==> x.codeset.Some?
    ensures isXpg ==> rest == [] || rest[0] == AT
    ensures isXpg && x.codeset.value != [] ==> normalized == Normalized(x.codeset.value)
    ensures bits == Bit(x.territory.Some?, TERRITORY) + Bit(isXpg, CODESET)
                    + Bit(isXpg && Differs(x.codeset.value, rest), NORM_CODESET)
    ensures next < name.Length && name[next..] == rest + [0]
    ensures Found(name[..], next, ptrs, x) && name[..next] == Overwritten(x)
  {
    ghost var t, rt, c;
    var bit;
    next, ptrs, bit, t, rt := SplitTerritory(name, start, ptrs0, x0, r);
    if bit != 0 {
      next, ptrs, bits, normalized, c, rest := SplitDot(name, next, ptrs, x0.(territory := t), rt);
    } else {
      bits, normalized, c, rest := 0, [], None, rt;
    }
    isXpg := bits != 0;
    bits := bits + bit;
    x := x0.(territory := t, codeset := c);
    FromTerritoryIs(x0.language, r, Cut(t, rt), Cut(c, rest));
  }

  /** Everything after the language. */
  method SplitRest(name: array<int>, start: nat, ptrs0: Pointers, ghost x0: Name, ghost r: CString)
    returns (mask: nat, ptrs: Pointers, isXpg: bool, normalized: CString, ghost cp: nat, ghost x: Name)
    requires start < name.Length && name[start..] == r + [0]
    requires r == [] || r[0] in LANGUAGE_ENDS
    requires x0 == Name(x0.language, None, None, false, None, None, None, None)
    requires Found(name[..], start, ptrs0, x0) && name[..start] == Overwritten(x0)
    modifies name
    ensures x == FromTerritory(x0.language, r)
    ensures isXpg <==> IsXpg(x)
    ensures cp < name.Length && name[cp..] == [0]
    ensures mask == FullMask(x)
    ensures x.codeset.Some? && x.codeset.value != [] ==> normalized == Normalized(x.codeset.value)
    ensures Found(name[..], cp, ptrs, x) && name[..cp] == Overwritten(x)
  {
    ghost var y, rest;
    var next, more;
    next, ptrs, mask, isXpg, normalized, y, rest := SplitFront(name, start, ptrs0, x0, r);
    more, ptrs, isXpg, cp, x := SplitModifier(name, next, isXpg, ptrs, y, rest);
    FullMaskIs(y, rest, x, mask, more);
    mask := mask + more;
  }

  lemma FullMaskIs(y: Name, rest: Bytes, x: Name, bits: nat, more: nat)
    requires x == FromModifier(y.language, y.territory, y.codeset, rest)
    requires y.codeset.Some? ==> rest == [] || rest[0] == AT
    requires bits == Bit(y.territory.Some?, TERRITORY) + Bit(y.codeset.Some?, CODESET)
                     + Bit(y.codeset.Some? && Differs(y.codeset.value, rest), NORM_CODESET)
    requires more == Bit(x.modifier.Some?, MODIFIER + AUDIENCE) + TailMask(x)
    ensures FullMask(x) == bits + more
    ensures x.codeset == y.codeset
  {
    if y.codeset.Some? {
      OtherIfDiffers(x, y.codeset.value, rest);
    }
  }

  /** The bits of empty parts of an XPG name are cleared. */
  method ClearEmpty(name: array<int>, mask: nat, ptrs: Pointers, isXpg: bool, ghost cp: nat, ghost x: Name)
    returns (cleared: nat)
    requires Found(name[..], cp, ptrs, x) && cp < name.Length && name[cp] == 0
    requires isXpg <==> IsXpg(x)
    requires forall t | t in [x.territory, x.codeset, x.modifier] && t.Some? :: 0 !in t.value
    requires mask == FullMask(x)
    ensures cleared == Mask(x)
  {
    cleared := mask;
    if isXpg {
      EmptyAt(name[..], cp, ptrs.territory, x.territory);
      EmptyAt(name[..], cp, ptrs.codeset, x.codeset);
      EmptyAt(name[..], cp, ptrs.modifier, x.modifier);
      if ptrs.territory >= 0 && name[ptrs.territory] == 0 {
        cleared := cleared - TERRITORY;
      }
      if ptrs.codeset >= 0 && name[ptrs.codeset] == 0 {
        cleared := cleared - CODESET;
      }
      if ptrs.modifier >= 0 && name[ptrs.modifier] == 0 {
        cleared := cleared - MODIFIER;
      }
    }
  }

  /** A part is empty exactly if its first byte is the NUL. */
  lemma EmptyAt(buf: Bytes, cp: nat, p: int, part: Option<Bytes>)
    requires cp < |buf| && Points(buf, cp, p, part) && buf[cp] == 0
    requires part.Some? ==> 0 !in part.value
    ensures part.Some? <==> p >= 0
    ensures p >= 0 ==> p < |buf| && (buf[p] == 0 <==> Empty(part))
  {
    if part.Some? && part.value != [] {
      assert buf[p] == buf[p..p + |part.value|][0] == part.value[0];
      assert part.value[0] in part.value;
    }
  }

  const DELIMITERS := {UNDERSCORE, DOT, AT, PLUS, COMMA}

  /** The same bytes, except that some delimiters have become NULs. */
  predicate Masked(after: Bytes, before: Bytes) {
    && |after| == |before|
    && forall k :: 0 <= k < |after| ==> after[k] == before[k] || (after[k] == 0 && before[k] in DELIMITERS)
  }

  lemma MaskedJoin(a: Bytes, b: Bytes, c: Bytes, d: Bytes)
    requires Masked(a, b) && Masked(c, d)
    ensures Masked(a + c, b + d)
  {
  }

  lemma MaskedPart(mark: int, part: Option<Bytes>)
    requires mark in DELIMITERS
    ensures Masked(Part(0, part), Part(mark, part))
  {
  }

  /** Splitting a name changes nothing but delimiters. */
  lemma OverwritesDelimiters(x: Name)
    ensures Masked(Overwritten(x), Rejoin(x))
  {
    var t, c, m := Part(UNDERSCORE, x.territory), Part(DOT, x.codeset), Part(MarkOf(x), x.modifier);
    var a, b, r := Part(PLUS, x.special), Part(COMMA, x.sponsor), Part(UNDERSCORE, x.revision);
    MaskedPart(UNDERSCORE, x.territory);
    MaskedPart(DOT, x.codeset);
    MaskedPart(MarkOf(x), x.modifier);
    MaskedPart(PLUS, x.special);
    MaskedPart(COMMA, x.sponsor);
    MaskedPart(UNDERSCORE, x.revision);
    var front := x.language + Part(0, x.territory);
    MaskedJoin(x.language, x.language, Part(0, x.territory), t);
    MaskedJoin(front, x.language + t, Part(0, x.codeset), c);
    MaskedJoin(front + Part(0, x.codeset), x.language + t + c, Part(0, x.modifier), m);
    var back := front + Part(0, x.codeset) + Part(0, x.modifier);
    MaskedJoin(back, x.language + t + c + m, Part(0, x.special), a);
    MaskedJoin(back + Part(0, x.special), x.language + t + c + m + a, Part(0, x.sponsor), b);
    MaskedJoin(back + Part(0, x.special) + Part(0, x.sponsor), x.language + t + c + m + a + b,
               Part(0, x.revision), r);
    RejoinLeft(x);
  }

  /** The parts of a name, put together from the left. */
  lemma RejoinLeft(x: Name)
    ensures Rejoin(x) ==
            x.language + Part(UNDERSCORE, x.territory) + Part(DOT, x.codeset) + Part(MarkOf(x), x.modifier)
            + Part(PLUS, x.special) + Part(COMMA, x.sponsor) + Part(UNDERSCORE, x.revision)
  {
    var t, c, m := Part(UNDERSCORE, x.territory), Part(DOT, x.codeset), Part(MarkOf(x), x.modifier);
    var a, b, r := Part(PLUS, x.special), Part(COMMA, x.sponsor), Part(UNDERSCORE, x.revision);
    Regroup(x.language, t, c + AfterCodeset(x));
    Regroup(x.language + t, c, AfterCodeset(x));
    Regroup(x.language + t + c, m, Tail(x));
    Regroup(x.language + t + c + m, a, b + r);
    Regroup(x.language + t + c + m + a, b, r);
  }

  /** Every part of a name holds only bytes of the name. */
  lemma PartsWithin(x: Name, b: int)
    requires b !in Rejoin(x)
    ensures b !in x.language
    ensures forall t | t in [x.territory, x.codeset, x.modifier] && t.Some? :: b !in t.value
  {
    PartWithin(UNDERSCORE, x.territory, b);
    PartWithin(DOT, x.codeset, b);
    PartWithin(MarkOf(x), x.modifier, b);
  }

  lemma PartWithin(mark: int, part: Option<Bytes>, b: int)
    ensures part.Some? && b in part.value ==> b in Part(mark, part)
  {
  }

  lemma EndOfBuffer(buf: Bytes, cp: nat)
    requires cp < |buf| && buf[cp..] == [0]
    ensures cp == |buf| - 1 && buf == buf[..cp] + [0] && buf[cp] == 0
  {
    assert buf == buf[..cp] + buf[cp..];
    assert buf[cp] == buf[cp..][0];
  }

  lemma TerritoryWithin(language: CString, r: CString)
    requires language != [] && forall c | c in language :: c !in LANGUAGE_ENDS
    requires r == [] || r[0] in LANGUAGE_ENDS
    ensures var x := FromTerritory(language, r);
            forall t | t in [x.territory, x.codeset, x.modifier] && t.Some? :: 0 !in t.value
  {
    TerritoryJoins(language, r);
    assert 0 !in language + r;
    PartsWithin(FromTerritory(language, r), 0);
  }

  /** A name with a language, whose end has been found. */
  method SplitName(name: array<int>, start: nat, ghost language: CString, ghost r: CString)
    returns (mask: nat, ptrs: Pointers, normalized: CString, ghost cp: nat, ghost x: Name)
    requires start < name.Length && name[..start] == language && name[start..] == r + [0]
    requires language != [] && forall c | c in language :: c !in LANGUAGE_ENDS
    requires r == [] || r[0] in LANGUAGE_ENDS
    modifies name
    ensures x == FromTerritory(language, r)
    ensures cp < name.Length && name[cp..] == [0]
    ensures Found(name[..], cp, ptrs, x) && name[..cp] == Overwritten(x)
    ensures mask == Mask(x)
    ensures x.codeset.Some? && x.codeset.value != [] ==> normalized == Normalized(x.codeset.value)
  {
    ghost var x0 := Name(language, None, None, false, None, None, None, None);
    assert Overwritten(x0) == language;
    assert name[..][0..start] == language;
    ptrs := Pointers(-1, -1, -1, -1, -1, -1);
    var bits, isXpg;
    bits, ptrs, isXpg, normalized, cp, x := SplitRest(name, start, ptrs, x0, r);
    TerritoryWithin(language, r);
    assert name[cp] == name[cp..][0];
    mask := ClearEmpty(name, bits, ptrs, isXpg, cp, x);
  }

  /** The same, by the name: its language ends at `start`. */
  method SplitAfter(name: array<int>, start: nat, ghost s: CString)
    returns (mask: nat, ptrs: Pointers, normalized: CString, ghost cp: nat, ghost x: Name)
    requires name[..] == s + [0] && 0 < start == Span(s, LANGUAGE_ENDS)
    modifies name
    ensures x == Explode(s) && cp < name.Length && name[cp..] == [0]
    ensures Found(name[..], cp, ptrs, x) && name[..cp] == Overwritten(x)
    ensures mask == Mask(x)
    ensures x.codeset.Some? && x.codeset.value != [] ==> normalized == Normalized(x.codeset.value)
  {
    SpanStops(s, LANGUAGE_ENDS);
    ghost var language, r := s[..start], s[start..];
    assert name[..start] == name[..][..start] == language;
    assert name[start..] == name[..][start..] == r + [0];
    mask, ptrs, normalized, cp, x := SplitName(name, start, language, r);
  }

  lemma ExplodeEnd(buf: Bytes, cp: nat, ptrs: Pointers, x: Name)
    requires cp < |buf| && buf[cp..] == [0]
    requires Found(buf, cp, ptrs, x) && buf[..cp] == Overwritten(x)
    ensures Found(buf, |buf| - 1, ptrs, x) && buf == Overwritten(x) + [0]
  {
    EndOfBuffer(buf, cp);
  }

  /**
   * `_nl_explode_name`. Every pointer is to its part, which a NUL ends; nothing but the
   * delimiters between the parts has been overwritten.
   */
  method ExplodeName(name: array<int>, ghost s: CString)
    returns (mask: nat, ptrs: Pointers, normalized: CString)
    requires name[..] == s + [0]
    modifies name
    ensures Found(name[..], |s|, ptrs, Explode(s))
    ensures name[..] == Overwritten(Explode(s)) + [0]
    ensures mask == Mask(Explode(s))
    ensures var c := Explode(s).codeset;
            c.Some? && c.value != [] ==> normalized == Normalized(c.value)
  {
    assert name[0..] == name[..];
    var start := Scan(name, 0, LANGUAGE_ENDS, s);
    ghost var cp, x;
    if start == 0 {
      mask, ptrs, normalized := 0, Pointers(-1, -1, -1, -1, -1, -1), [];
      cp, x := |s|, Name(s, None, None, false, None, None, None, None);
      assert name[..][0..|s|] == s;
      assert name[cp..] == [0];
    } else {
      mask, ptrs, normalized, cp, x := SplitAfter(name, start, s);
    }
    assert name[..][cp..] == name[cp..];
    ExplodeEnd(name[..], cp, ptrs, x);
  }
}
