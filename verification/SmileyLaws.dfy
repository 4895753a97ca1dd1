/** Which emoticons are rewritten, where tags end, and what a smiley tag says. */
module SmileyLaws {
  import opened CStrings
  import opened Options
  import opened Sequences
  import opened Smileys

  // ----- Where a tag ends -----

  /** A tag ends behind its first `>`, or with the message if there is none. */
  lemma {:induction false} TagEndIs(s: Bytes, p: nat)
    requires p <= |s|
    ensures var e := TagEnd(s, p);
            && (GT in s[p..] ==> p < e && s[e - 1] == GT && GT !in s[p..e - 1])
            && (GT !in s[p..] ==> e == |s|)
    decreases |s| - p
  {
    if p < |s| && s[p] != GT {
      TagEndIs(s, p + 1);
      var e := TagEnd(s, p);
      assert s[p..] == [s[p]] + s[p + 1..];
      if GT in s[p + 1..] {
        assert s[p..e - 1] == [s[p]] + s[p + 1..e - 1];
      }
    }
  }

  // ----- Which emoticon is taken -----

  /** Of the emoticons that stand at a place, the first on the list is found. */
  lemma {:induction false} FirstWins(s: Bytes, p: nat, list: seq<Smiley>, from: nat)
    requires p <= |s| && from <= |list|
    ensures var m := MatchAt(s, p, list, from);
            && (m.None? ==> forall j :: from <= j < |list| ==> !StartsWith(s, p, list[j].text))
            && (m.Some? ==> forall j :: from <= j < m.value ==> !StartsWith(s, p, list[j].text))
    decreases |list| - from
  {
    if from < |list| && !StartsWith(s, p, list[from].text) {
      FirstWins(s, p, list, from + 1);
    }
  }

  /** A smiley stands for the first emoticon on the list that stands at its place. */
  lemma {:induction false} TagIsFirst(s: Bytes, p: nat, list: seq<Smiley>, urls: seq<Bytes>, x: Piece)
    requires p <= |s| && NonEmpty(list) && x in Pieces(s, p, list, urls) && x.Tag?
    ensures x.at <= |s| && x.index < |list| && StartsWith(s, x.at, list[x.index].text)
    ensures forall j :: 0 <= j < x.index ==> !StartsWith(s, x.at, list[j].text)
    decreases |s| - p
  {
    var q := SkippedEnd(s, p, urls);
    RoundAdvances(s, p, list, urls);
    FirstWins(s, q, list, 0);
    if x !in Found(s, p, q, list) {
      TagIsFirst(s, FoundEnd(s, q, list), list, urls, x);
    }
  }

  // ----- What is copied although an emoticon stands there -----

  lemma {:induction false} TagsAreProtected(s: Bytes, p: nat, k: nat, urls: seq<Bytes>)
    requires p <= |s| && p <= k < TagsEnd(s, p)
    ensures Protected(s, p, k, urls)
    decreases |s| - p
  {
    if k >= TagEnd(s, p) {
      TagsAreProtected(s, TagEnd(s, p), k, urls);
    }
  }

  /** What a round skips is in a tag or after the beginning of a URL. */
  lemma SkippedIsProtected(s: Bytes, p: nat, k: nat, urls: seq<Bytes>)
    requires p <= |s| && p <= k < SkippedEnd(s, p, urls)
    ensures Protected(s, p, k, urls)
  {
    if k < TagsEnd(s, p) {
      TagsAreProtected(s, p, k, urls);
    } else {
      TagsPass(s, p, k, urls);
    }
  }

  /** A byte that is copied although an emoticon stands there is in a tag or after the beginning of a URL. */
  lemma {:induction false} CopiedIsProtected(s: Bytes, p: nat, list: seq<Smiley>, urls: seq<Bytes>, x: Piece, k: nat, i: nat)
    requires p <= |s| && NonEmpty(list) && !Cuts(list, urls)
    requires x in Pieces(s, p, list, urls) && x.Copied? && x.from <= k < x.to
    requires i < |list| && k <= |s| && StartsWith(s, k, list[i].text)
    ensures Protected(s, p, k, urls)
    decreases |s| - p
  {
    var q := SkippedEnd(s, p, urls);
    var e := FoundEnd(s, q, list);
    RoundAdvances(s, p, list, urls);
    FirstWins(s, q, list, 0);
    if x in Found(s, p, q, list) {
      assert k < q;
      SkippedIsProtected(s, p, k, urls);
    } else {
      PiecesTile(s, e, list, urls);
      TileBegins(Pieces(s, e, list, urls), s, e, |s|, list, x);
      CopiedIsProtected(s, e, list, urls, x, k, i);
      assert k < |s|;
      RoundInStep(s, p, list, urls, k);
    }
  }

  // ----- What the tag says -----

  predicate Bracket(c: int) {
    c == GT || c == LT
  }

  /** The letter in the entity of a bracket. */
  function Letter(c: int): int {
    if c == GT then 103 else 108
  }

  /** What follows the ampersand of an entity. */
  function Behind(letter: int): Bytes {
    [letter, 116, 59]
  }

  predicate Begins(t: Bytes, s: Bytes) {
    t == [] || (s != [] && s[0] == t[0] && Begins(t[1..], s[1..]))
  }

  /** The entity of this bracket stands first. */
  predicate EntityFirst(c: int, s: Bytes) {
    s != [] && s[0] == 38 && Begins(Behind(Letter(c)), s[1..])
  }

  /** The text that a reader makes of the `alt` attribute. */
  function Unescaped(s: Bytes): Bytes {
    if s == [] then []
    else if EntityFirst(GT, s) && |s| >= 4 then [GT] + Unescaped(s[4..])
    else if EntityFirst(LT, s) && |s| >= 4 then [LT] + Unescaped(s[4..])
    else [s[0]] + Unescaped(s[1..])
  }

  /** The text has what an escaped bracket looks like. */
  predicate HasEntity(e: Bytes) {
    e != [] && (EntityFirst(GT, e) || EntityFirst(LT, e) || HasEntity(e[1..]))
  }

  lemma {:induction false} EscapedFirst(c: int, rest: Bytes)
    ensures Escaped([c] + rest) == EscapedByte(c) + Escaped(rest)
    decreases |rest|
  {
    var e := [c] + rest;
    if rest == [] {
      assert e[..0] == [];
    } else {
      var front := rest[..|rest| - 1];
      assert e[..|e| - 1] == [c] + front;
      EscapedFirst(c, front);
      Regroup(EscapedByte(c), Escaped(front), EscapedByte(rest[|rest| - 1]));
    }
  }

  lemma BracketBytes(c: int)
    requires Bracket(c)
    ensures EscapedByte(c) == [38] + Behind(Letter(c))
  {
  }

  /** Bytes that are no brackets. */
  predicate Unmarked(t: Bytes) {
    t == [] || (!Bracket(t[0]) && t[0] != 38 && Unmarked(t[1..]))
  }

  lemma {:induction false} BeginsIs(t: Bytes, s: Bytes)
    ensures Begins(t, s) <==> |t| <= |s| && s == t + s[|t|..]
    decreases |t|
  {
    if t != [] && s != [] {
      BeginsIs(t[1..], s[1..]);
      if |t| <= |s| {
        assert s[1..][|t| - 1..] == s[|t|..];
        assert s == [s[0]] + s[1..] && t == [t[0]] + t[1..];
        Regroup([t[0]], t[1..], s[|t|..]);
      }
    }
  }

  /** They are escaped as themselves. */
  lemma {:induction false} EscapedBegins(t: Bytes, e: Bytes)
    requires Unmarked(t)
    ensures Begins(t, Escaped(e)) <==> Begins(t, e)
    decreases |t|
  {
    if t != [] && e != [] {
      EscapedFirst(e[0], e[1..]);
      assert e == [e[0]] + e[1..];
      if Bracket(e[0]) {
        BracketBytes(e[0]);
      } else {
        EscapedBegins(t[1..], e[1..]);
        assert Escaped(e)[1..] == Escaped(e[1..]);
      }
    }
  }

  lemma {:induction false} EscapedAfter(t: Bytes, rest: Bytes)
    requires Unmarked(t)
    ensures Escaped(t + rest) == t + Escaped(rest)
    decreases |t|
  {
    if t == [] {
      assert t + rest == rest && t + Escaped(rest) == Escaped(rest);
    } else {
      assert t == [t[0]] + t[1..];
      Regroup([t[0]], t[1..], rest);
      EscapedFirst(t[0], t[1..] + rest);
      EscapedAfter(t[1..], rest);
      Regroup([t[0]], t[1..], Escaped(rest));
    }
  }

  lemma BehindUnmarked(letter: int)
    requires letter == 103 || letter == 108
    ensures Unmarked(Behind(letter)) && |Behind(letter)| == 3
  {
    var t := Behind(letter);
    assert t[1..] == [116, 59] && t[1..][1..] == [59] && t[1..][1..][1..] == [];
  }

  /** The entity of a bracket stands first exactly if the text is the entity and something after it. */
  lemma EntityFirstIs(c: int, s: Bytes)
    requires Bracket(c)
    ensures EntityFirst(c, s) <==> |s| >= 4 && s == EscapedByte(c) + s[4..]
  {
    BracketBytes(c);
    BehindUnmarked(Letter(c));
    if s != [] {
      BeginsIs(Behind(Letter(c)), s[1..]);
      assert s == [s[0]] + s[1..];
      if |s| >= 4 {
        assert s[1..][3..] == s[4..];
        Regroup([38], Behind(Letter(c)), s[4..]);
        assert s == [38] + (Behind(Letter(c)) + s[4..]) ==> s[1..] == Behind(Letter(c)) + s[4..];
      }
    }
  }

  lemma OneEntityFirst(s: Bytes)
    ensures !EntityFirst(GT, s) || !EntityFirst(LT, s)
  {
  }

  lemma UnescapedEntity(c: int, rest: Bytes)
    requires Bracket(c)
    ensures Unescaped(EscapedByte(c) + rest) == [c] + Unescaped(rest)
  {
    var s := EscapedByte(c) + rest;
    BracketBytes(c);
    BehindUnmarked(Letter(c));
    assert s[4..] == rest;
    EntityFirstIs(c, s);
    OneEntityFirst(s);
  }

  predicate NoEntityFirst(s: Bytes) {
    !EntityFirst(GT, s) && !EntityFirst(LT, s)
  }

  lemma UnescapedByte(c: int, rest: Bytes)
    requires NoEntityFirst([c] + rest)
    ensures Unescaped([c] + rest) == [c] + Unescaped(rest)
    ensures HasEntity([c] + rest) <==> HasEntity(rest)
  {
    assert ([c] + rest)[1..] == rest;
  }

  /** What a reader gets of an emoticon: the emoticon itself, or something shorter. */
  predicate ReadBack(e: Bytes) {
    var u := Unescaped(Escaped(e));
    if HasEntity(e) then |u| < |e| else u == e
  }

  lemma BracketReadBack(c: int, rest: Bytes)
    requires Bracket(c) && ReadBack(rest)
    ensures ReadBack([c] + rest)
  {
    EscapedFirst(c, rest);
    UnescapedEntity(c, Escaped(rest));
    UnescapedByte(c, rest);
  }

  lemma EntityKept(c: int, b: int, rest: Bytes)
    requires Bracket(c) && !Bracket(b)
    ensures EntityFirst(c, [b] + Escaped(rest)) <==> EntityFirst(c, [b] + rest)
  {
    BehindUnmarked(Letter(c));
    EscapedBegins(Behind(Letter(c)), rest);
    assert ([b] + rest)[1..] == rest && ([b] + Escaped(rest))[1..] == Escaped(rest);
  }

  lemma PlainReadBack(b: int, rest: Bytes)
    requires !Bracket(b) && ReadBack(rest) && NoEntityFirst([b] + rest)
    ensures ReadBack([b] + rest)
  {
    EscapedFirst(b, rest);
    EntityKept(GT, b, rest);
    EntityKept(LT, b, rest);
    UnescapedByte(b, rest);
    UnescapedByte(b, Escaped(rest));
  }

  lemma EntityEscaped(c: int, rest: Bytes)
    requires Bracket(c)
    ensures Escaped(EscapedByte(c) + rest) == EscapedByte(c) + Escaped(rest)
  {
    var t := Behind(Letter(c));
    BehindUnmarked(Letter(c));
    BracketBytes(c);
    Regroup([38], t, rest);
    EscapedFirst(38, t + rest);
    EscapedAfter(t, rest);
    Regroup([38], t, Escaped(rest));
  }

  lemma EntityReadBack(c: int, e: Bytes)
    requires Bracket(c) && EntityFirst(c, e) && |e| >= 4 && ReadBack(e[4..])
    ensures ReadBack(e)
  {
    EntityFirstIs(c, e);
    EntityEscaped(c, e[4..]);
    UnescapedEntity(c, Escaped(e[4..]));
  }

  lemma {:induction false} ReadsBack(e: Bytes)
    ensures ReadBack(e)
    decreases |e|
  {
    if e != [] {
      assert e == [e[0]] + e[1..];
      EntityFirstIs(GT, e);
      EntityFirstIs(LT, e);
      if c :| Bracket(c) && EntityFirst(c, e) {
        ReadsBack(e[4..]);
        EntityReadBack(c, e);
      } else {
        ReadsBack(e[1..]);
        if Bracket(e[0]) {
          BracketReadBack(e[0], e[1..]);
        } else {
          PlainReadBack(e[0], e[1..]);
        }
      }
    }
  }

  /** The `alt` text stands for the emoticon exactly if the emoticon has nothing that looks like an entity. */
  lemma UnescapedExactly(e: Bytes)
    ensures Unescaped(Escaped(e)) == e <==> !HasEntity(e)
  {
    ReadsBack(e);
  }
}
