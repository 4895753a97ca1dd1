/** Replacing emoticons in a message by smiley tags. */
module Smileys {
  import opened CharClasses
  import opened CStrings
  import opened Options
  import opened Sequences

  type Bytes = seq<int>

  const LT := 60
  const GT := 62

  /** An emoticon and the name of its picture. */
  datatype Smiley = Smiley(text: CString, name: CString)

  function Ascii(text: string): CString
    requires forall i | 0 <= i < |text| :: 1 <= text[i] as int < 128
  {
    seq(|text|, i requires 0 <= i < |text| => text[i] as int)
  }

  /** The beginnings after which nothing is rewritten. */
  const NO_SMILEYS: seq<CString> :=
    [Ascii("http://"), Ascii("https://"), Ascii("ftp://"), Ascii("mailto:/"), Ascii("log://")]

  predicate StartsWith(s: Bytes, p: nat, t: Bytes)
    requires p <= |s|
  {
    p + |t| <= |s| && s[p..p + |t|] == t
  }

  /** An HTML tag begins at `p`. */
  predicate TagAt(s: Bytes, p: nat)
    requires p <= |s|
  {
    p + 1 < |s| && s[p] == LT && IsAlpha(s[p + 1])
  }

  predicate UrlAt(s: Bytes, p: nat, urls: seq<Bytes>)
    requires p <= |s|
  {
    exists u :: u in urls && StartsWith(s, p, u)
  }

  /** The end of a tag, with its bracket if there is one. */
  function TagEnd(s: Bytes, p: nat): (e: nat)
    requires p <= |s|
    ensures p <= e <= |s| && (p < |s| ==> p < e)
    decreases |s| - p
  {
    if p == |s| then p else if s[p] == GT then p + 1 else TagEnd(s, p + 1)
  }

  /** The end of all tags that follow one another from `p` on. */
  function TagsEnd(s: Bytes, p: nat): (e: nat)
    requires p <= |s|
    ensures p <= e <= |s|
    decreases |s| - p
  {
    if TagAt(s, p) then TagsEnd(s, TagEnd(s, p)) else p
  }

  function SkippedEnd(s: Bytes, p: nat, urls: seq<Bytes>): (e: nat)
    requires p <= |s|
    ensures p <= e <= |s|
  {
    if UrlAt(s, TagsEnd(s, p), urls) then |s| else TagsEnd(s, p)
  }

  /** The first smiley on the list whose emoticon stands at `p`. */
  function MatchAt(s: Bytes, p: nat, list: seq<Smiley>, from: nat): (m: Option<nat>)
    requires p <= |s| && from <= |list|
    ensures m.Some? ==> from <= m.value < |list| && StartsWith(s, p, list[m.value].text)
    decreases |list| - from
  {
    if from == |list| then None
    else if StartsWith(s, p, list[from].text) then Some(from)
    else MatchAt(s, p, list, from + 1)
  }

  /** What the result is made of: bytes of the message, and tags for the emoticons that stood at `at`. */
  datatype Piece = Copied(from: nat, to: nat) | Tag(at: nat, index: nat)

  predicate NonEmpty(list: seq<Smiley>) {
    forall x | x in list :: x.text != []
  }

  /** What a round of the outer loop finds at `q`, after what it has skipped. */
  function Found(s: Bytes, p: nat, q: nat, list: seq<Smiley>): seq<Piece>
    requires p <= q <= |s|
  {
    match MatchAt(s, q, list, 0)
    case Some(i) => [Copied(p, q), Tag(q, i)]
    case None => [Copied(p, if q == |s| then q else q + 1)]
  }

  /** Where the next round begins. */
  function FoundEnd(s: Bytes, q: nat, list: seq<Smiley>): (e: nat)
    requires q <= |s|
    ensures q <= e <= |s|
  {
    match MatchAt(s, q, list, 0)
    case Some(i) => q + |list[i].text|
    case None => if q == |s| then q else q + 1
  }

  lemma RoundAdvances(s: Bytes, p: nat, list: seq<Smiley>, urls: seq<Bytes>)
    requires p < |s| && NonEmpty(list)
    ensures p < FoundEnd(s, SkippedEnd(s, p, urls), list)
  {
    var m := MatchAt(s, SkippedEnd(s, p, urls), list, 0);
    assert m.Some? ==> list[m.value] in list;
  }

  function Pieces(s: Bytes, p: nat, list: seq<Smiley>, urls: seq<Bytes>): seq<Piece>
    requires p <= |s| && NonEmpty(list)
    decreases |s| - p
  {
    if p == |s| then []
    else
      var q := SkippedEnd(s, p, urls);
      RoundAdvances(s, p, list, urls);
      Found(s, p, q, list) + Pieces(s, FoundEnd(s, q, list), list, urls)
  }

  // ----- Nothing is lost -----

  /** The pieces follow one another from `p` to `e`, and every tag stands for its emoticon. */
  predicate Tiles(pieces: seq<Piece>, s: Bytes, p: nat, e: nat, list: seq<Smiley>)
    requires p <= |s|
  {
    if pieces == [] then p == e
    else match pieces[0]
      case Copied(from, to) => p == from <= to <= |s| && Tiles(pieces[1..], s, to, e, list)
      case Tag(at, i) =>
        && p == at && i < |list| && StartsWith(s, at, list[i].text)
        && Tiles(pieces[1..], s, at + |list[i].text|, e, list)
  }

  lemma {:induction false} TilesJoin(a: seq<Piece>, b: seq<Piece>, s: Bytes, p: nat, q: nat, e: nat,
      list: seq<Smiley>)
    requires p <= |s| && q <= |s| && Tiles(a, s, p, q, list) && Tiles(b, s, q, e, list)
    ensures Tiles(a + b, s, p, e, list)
  {
    if a == [] {
      assert a + b == b;
    } else {
      assert (a + b)[1..] == a[1..] + b;
      TilesJoin(a[1..], b, s, EndOf(a[0], list), q, e, list);
    }
  }

  /** Where the text of a piece ends. */
  function EndOf(x: Piece, list: seq<Smiley>): nat {
    match x
    case Copied(_, to) => to
    case Tag(at, i) => at + if i < |list| then |list[i].text| else 0
  }

  lemma FoundTiles(s: Bytes, p: nat, q: nat, list: seq<Smiley>)
    requires p <= q <= |s|
    ensures Tiles(Found(s, p, q, list), s, p, FoundEnd(s, q, list), list)
  {
    var e := FoundEnd(s, q, list);
    assert Tiles([], s, e, e, list);
    match MatchAt(s, q, list, 0) {
      case Some(i) =>
        var c, t := Copied(p, q), Tag(q, i);
        assert [c, t][1..] == [t] && [t][1..] == [];
        assert Tiles([t], s, q, e, list);
      case None =>
    }
  }

  /** The pieces cover the message from end to end. */
  lemma {:induction false} PiecesTile(s: Bytes, p: nat, list: seq<Smiley>, urls: seq<Bytes>)
    requires p <= |s| && NonEmpty(list)
    ensures Tiles(Pieces(s, p, list, urls), s, p, |s|, list)
    decreases |s| - p
  {
    if p < |s| {
      var q := SkippedEnd(s, p, urls);
      var e := FoundEnd(s, q, list);
      RoundAdvances(s, p, list, urls);
      FoundTiles(s, p, q, list);
      PiecesTile(s, e, list, urls);
      TilesJoin(Found(s, p, q, list), Pieces(s, e, list, urls), s, p, e, |s|, list);
    }
  }

  /** The text that a piece stands for. */
  function SourceOf(x: Piece, s: Bytes, list: seq<Smiley>): Bytes {
    match x
    case Copied(from, to) => if from <= to <= |s| then s[from..to] else []
    case Tag(_, i) => if i < |list| then list[i].text else []
  }

  function Source(pieces: seq<Piece>, s: Bytes, list: seq<Smiley>): Bytes {
    if pieces == [] then [] else SourceOf(pieces[0], s, list) + Source(pieces[1..], s, list)
  }

  lemma SliceJoin(s: Bytes, p: nat, q: nat, e: nat)
    requires p <= q <= e <= |s|
    ensures s[p..q] + s[q..e] == s[p..e]
  {
  }

  lemma FirstTile(pieces: seq<Piece>, s: Bytes, p: nat, e: nat, list: seq<Smiley>) returns (q: nat)
    requires pieces != [] && p <= |s| && Tiles(pieces, s, p, e, list)
    ensures p <= q <= |s| && SourceOf(pieces[0], s, list) == s[p..q] && Tiles(pieces[1..], s, q, e, list)
  {
    q := EndOf(pieces[0], list);
  }

  lemma {:induction false} TilesSource(pieces: seq<Piece>, s: Bytes, p: nat, e: nat, list: seq<Smiley>)
    requires p <= |s| && Tiles(pieces, s, p, e, list)
    ensures p <= e <= |s| && Source(pieces, s, list) == s[p..e]
  {
    if pieces != [] {
      var q := FirstTile(pieces, s, p, e, list);
      TilesSource(pieces[1..], s, q, e, list);
      SliceJoin(s, p, q, e);
    }
  }

  /** Putting the emoticons back for the tags gives the message. */
  lemma PiecesSource(s: Bytes, list: seq<Smiley>, urls: seq<Bytes>)
    requires NonEmpty(list)
    ensures Source(Pieces(s, 0, list, urls), s, list) == s
  {
    PiecesTile(s, 0, list, urls);
    TilesSource(Pieces(s, 0, list, urls), s, 0, |s|, list);
  }

  // ----- What is left alone -----

  /** By the message alone: byte `k` is in a tag or after the beginning of a URL, seen from `p` on. */
  predicate Protected(s: Bytes, p: nat, k: nat, urls: seq<Bytes>)
    requires p <= |s|
    decreases |s| - p
  {
    if p == |s| || k < p then false
    else if TagAt(s, p) then k < TagEnd(s, p) || Protected(s, TagEnd(s, p), k, urls)
    else UrlAt(s, p, urls) || Protected(s, p + 1, k, urls)
  }

  /** At `q` a round finds smiley `i`, and `k` bytes on, inside its emoticon, a tag or a URL begins. */
  predicate Cut(s: Bytes, q: nat, list: seq<Smiley>, urls: seq<Bytes>, i: nat, k: nat)
    requires q <= |s|
  {
    && MatchAt(s, q, list, 0) == Some(i) && !TagAt(s, q) && !UrlAt(s, q, urls)
    && 0 < k < |list[i].text| && (TagAt(s, q + k) || UrlAt(s, q + k, urls))
  }

  /** What can complete a tag or a URL that begins inside an emoticon: nothing, a letter, the rest of a prefix. */
  function Completions(urls: seq<Bytes>): set<Bytes> {
    {[]} + (set b | 0 <= b < 256 && IsAlpha(b) :: [b]) + (set u, j | u in urls && 0 < j < |u| :: u[j..])
  }

  /** Some emoticon, with some completion behind it, is found although a tag or a URL begins inside it. */
  predicate Cuts(list: seq<Smiley>, urls: seq<Bytes>) {
    exists c, i, k :: c in Completions(urls) && 0 <= i < |list| && 0 < k < |list[i].text| &&
      Cut(list[i].text + c, 0, list, urls, i, k)
  }

  lemma SliceOfSlice(s: Bytes, q: nat, e: nat, p: nat, n: nat)
    requires q <= e <= |s| && p <= n <= e - q
    ensures s[q..e][p..n] == s[q + p..q + n]
  {
    var part := s[q..e];
    assert forall j :: p <= j < n ==> part[j] == s[q + j];
    assert part[p..n] == s[q + p..q + n];
  }

  lemma StartsInside(s: Bytes, q: nat, e: nat, p: nat, t: Bytes)
    requires q <= e <= |s| && p <= e - q
    ensures StartsWith(s[q..e], p, t) <==> q + p + |t| <= e && StartsWith(s, q + p, t)
  {
    if q + p + |t| <= e {
      SliceOfSlice(s, q, e, p, p + |t|);
    }
  }

  /** The match at `q` is also found in the part of the text from `q` to `e`, if it ends there. */
  lemma {:induction false} MatchInside(s: Bytes, q: nat, e: nat, list: seq<Smiley>, from: nat)
    requires q <= e <= |s| && from <= |list|
    requires var m := MatchAt(s, q, list, from); m.Some? && q + |list[m.value].text| <= e
    ensures MatchAt(s[q..e], 0, list, from) == MatchAt(s, q, list, from)
    decreases |list| - from
  {
    StartsInside(s, q, e, 0, list[from].text);
    if !StartsWith(s, q, list[from].text) {
      MatchInside(s, q, e, list, from + 1);
    }
  }

  lemma UrlInside(s: Bytes, q: nat, e: nat, p: nat, urls: seq<Bytes>)
    requires q <= e <= |s| && p <= e - q
    ensures UrlAt(s[q..e], p, urls) ==> UrlAt(s, q + p, urls)
  {
    forall u | u in urls && StartsWith(s[q..e], p, u) ensures StartsWith(s, q + p, u) {
      StartsInside(s, q, e, p, u);
    }
  }

  /** A tag that begins inside the emoticon is decided by one letter behind it at most. */
  lemma TagBeginning(s: Bytes, q: nat, t: nat, k: nat, urls: seq<Bytes>) returns (e: nat)
    requires q + k < t <= |s| && TagAt(s, q + k)
    ensures t <= e <= |s| && s[t..e] in Completions(urls) && TagAt(s[q..e], k)
  {
    if q + k + 2 <= t {
      e := t;
      assert s[t..e] == [];
    } else {
      e := t + 1;
      assert s[t..e] == [s[t]];
    }
  }

  /** A URL that begins inside the emoticon is decided by the rest of its prefix. */
  lemma UrlBeginning(s: Bytes, q: nat, t: nat, k: nat, urls: seq<Bytes>) returns (e: nat)
    requires q + k < t <= |s| && 0 < k && UrlAt(s, q + k, urls)
    ensures t <= e <= |s| && s[t..e] in Completions(urls) && UrlAt(s[q..e], k, urls)
  {
    var u :| u in urls && StartsWith(s, q + k, u);
    if q + k + |u| <= t {
      e := t;
      assert s[t..e] == [];
    } else {
      e := q + k + |u|;
      SliceOfSlice(s, q + k, e, t - q - k, |u|);
      assert s[t..e] == u[t - q - k..];
    }
    StartsInside(s, q, e, k, u);
  }

  lemma CutInside(s: Bytes, q: nat, e: nat, list: seq<Smiley>, urls: seq<Bytes>, i: nat, k: nat)
    requires q <= |s| && Cut(s, q, list, urls, i, k) && q + |list[i].text| <= e <= |s|
    requires TagAt(s[q..e], k) || UrlAt(s[q..e], k, urls)
    ensures Cut(s[q..e], 0, list, urls, i, k)
  {
    MatchInside(s, q, e, list, 0);
    UrlInside(s, q, e, 0, urls);
  }

  /** Whatever a message has behind the emoticon, a completion shows the same. */
  lemma CutCompletes(s: Bytes, q: nat, list: seq<Smiley>, urls: seq<Bytes>, i: nat, k: nat)
    requires q <= |s| && Cut(s, q, list, urls, i, k)
    ensures Cuts(list, urls)
  {
    var t := q + |list[i].text|;
    var e;
    if TagAt(s, q + k) {
      e := TagBeginning(s, q, t, k, urls);
    } else {
      e := UrlBeginning(s, q, t, k, urls);
    }
    CutInside(s, q, e, list, urls, i, k);
    SliceJoin(s, q, t, e);
    assert s[q..e] == list[i].text + s[t..e];
  }

  /** Bytes that no tag and no URL begins at are not protected. */
  lemma {:induction false} PassesOver(s: Bytes, q: nat, e: nat, k: nat, urls: seq<Bytes>)
    requires q <= e <= |s|
    requires forall j :: q <= j < e ==> !TagAt(s, j) && !UrlAt(s, j, urls)
    ensures Protected(s, q, k, urls) == (k >= e && Protected(s, e, k, urls))
    decreases e - q
  {
    if q < e {
      PassesOver(s, q + 1, e, k, urls);
    }
  }

  lemma {:induction false} TagsPass(s: Bytes, p: nat, k: nat, urls: seq<Bytes>)
    requires p <= |s| && k >= TagsEnd(s, p)
    ensures Protected(s, p, k, urls) == Protected(s, TagsEnd(s, p), k, urls)
    ensures !TagAt(s, TagsEnd(s, p))
    decreases |s| - p
  {
    if TagAt(s, p) {
      TagsPass(s, TagEnd(s, p), k, urls);
    }
  }

  lemma EmoticonPasses(s: Bytes, q: nat, list: seq<Smiley>, urls: seq<Bytes>, i: nat, k: nat)
    requires q <= |s| && MatchAt(s, q, list, 0) == Some(i) && !Cuts(list, urls)
    requires !TagAt(s, q) && !UrlAt(s, q, urls)
    ensures var e := q + |list[i].text|; Protected(s, q, k, urls) == (k >= e && Protected(s, e, k, urls))
  {
    var e := q + |list[i].text|;
    forall j | q <= j < e ensures !TagAt(s, j) && !UrlAt(s, j, urls) {
      if j > q && (TagAt(s, j) || UrlAt(s, j, urls)) {
        CutCompletes(s, q, list, urls, i, j - q);
      }
    }
    PassesOver(s, q, e, k, urls);
  }

  /** Where the text of a piece begins. */
  function BeginOf(x: Piece): nat {
    match x
    case Copied(from, _) => from
    case Tag(at, _) => at
  }

  lemma {:induction false} TileBegins(pieces: seq<Piece>, s: Bytes, p: nat, e: nat, list: seq<Smiley>, x: Piece)
    requires p <= |s| && Tiles(pieces, s, p, e, list) && x in pieces
    ensures p <= BeginOf(x)
  {
    if x != pieces[0] {
      TileBegins(pieces[1..], s, EndOf(pieces[0], list), e, list, x);
    }
  }

  /** Where a round finds something, no tag and no URL begins. */
  lemma FoundOutside(s: Bytes, p: nat, list: seq<Smiley>, urls: seq<Bytes>, k: nat)
    requires p < |s|
    requires var q := SkippedEnd(s, p, urls); q < |s| && k >= q
    ensures var q := SkippedEnd(s, p, urls);
            && !TagAt(s, q) && !UrlAt(s, q, urls)
            && Protected(s, p, k, urls) == Protected(s, q, k, urls)
  {
    TagsPass(s, p, k, urls);
  }

  /** After a round the message alone tells the same as before it about what follows. */
  lemma RoundInStep(s: Bytes, p: nat, list: seq<Smiley>, urls: seq<Bytes>, k: nat)
    requires p < |s| && !Cuts(list, urls)
    requires SkippedEnd(s, p, urls) <= k < |s|
    ensures var q := SkippedEnd(s, p, urls);
            var e := FoundEnd(s, q, list);
            && (k >= e ==> Protected(s, p, k, urls) == Protected(s, e, k, urls))
            && (k < e && MatchAt(s, q, list, 0).Some? ==> !Protected(s, p, k, urls))
  {
    var q := SkippedEnd(s, p, urls);
    FoundOutside(s, p, list, urls, k);
    match MatchAt(s, q, list, 0) {
      case Some(i) =>
        EmoticonPasses(s, q, list, urls, i, k);
      case None =>
    }
  }

  /** No byte that has become part of a smiley is in a tag or after the beginning of a URL. */
  lemma {:induction false} NothingProtectedIsRewritten(s: Bytes, p: nat, list: seq<Smiley>, urls: seq<Bytes>,
      x: Piece, k: nat)
    requires p <= |s| && NonEmpty(list) && !Cuts(list, urls)
    requires x in Pieces(s, p, list, urls) && x.Tag? && x.at <= k < EndOf(x, list)
    ensures k < |s| && !Protected(s, p, k, urls)
    decreases |s| - p
  {
    var q := SkippedEnd(s, p, urls);
    var e := FoundEnd(s, q, list);
    RoundAdvances(s, p, list, urls);
    if x in Found(s, p, q, list) {
      RoundInStep(s, p, list, urls, k);
    } else {
      PiecesTile(s, e, list, urls);
      TileBegins(Pieces(s, e, list, urls), s, e, |s|, list, x);
      NothingProtectedIsRewritten(s, e, list, urls, x, k);
      RoundInStep(s, p, list, urls, k);
    }
  }

  /** After the beginning of a URL the whole rest of the message is copied, blanks and all. */
  lemma UrlTakesTheRest(s: Bytes, p: nat, list: seq<Smiley>, urls: seq<Bytes>)
    requires p < |s| && NonEmpty(list) && UrlAt(s, TagsEnd(s, p), urls)
    ensures Pieces(s, p, list, urls) == [Copied(p, |s|)]
  {
    NoMatchAtEnd(s, list, 0);
    assert Pieces(s, |s|, list, urls) == [];
  }

  lemma {:induction false} NoMatchAtEnd(s: Bytes, list: seq<Smiley>, from: nat)
    requires NonEmpty(list) && from <= |list|
    ensures MatchAt(s, |s|, list, from) == None
    decreases |list| - from
  {
    if from < |list| {
      assert list[from] in list;
      NoMatchAtEnd(s, list, from + 1);
    }
  }

  /** In no message does a byte of a tag, or after the beginning of a URL, become part of a smiley. */
  ghost predicate LeavesAlone(list: seq<Smiley>, urls: seq<Bytes>)
    requires NonEmpty(list)
  {
    forall s: CString, x, k: nat :: x in Pieces(s, 0, list, urls) && x.Tag? && x.at <= k < EndOf(x, list) ==>
      !Protected(s, 0, k, urls)
  }

  lemma CompletionIsText(c: Bytes, urls: seq<CString>)
    requires c in Completions(urls)
    ensures forall b | b in c :: 1 <= b <= 255
  {
    if !(c == [] || exists b | 0 <= b < 256 && IsAlpha(b) :: c == [b]) {
      var u, j :| u in urls && 0 < j < |u| && c == u[j..];
    }
  }

  /** The first place inside the emoticon where something begins is protected and rewritten. */
  lemma {:induction false} CutRewrites(s: Bytes, list: seq<Smiley>, urls: seq<Bytes>, i: nat, k: nat) returns (first: nat)
    requires NonEmpty(list) && Cut(s, 0, list, urls, i, k)
    ensures Tag(0, i) in Pieces(s, 0, list, urls) && first < |list[i].text| && Protected(s, 0, first, urls)
    decreases k
  {
    if j: nat :| 0 < j < k && (TagAt(s, j) || UrlAt(s, j, urls)) {
      first := CutRewrites(s, list, urls, i, j);
    } else {
      first := k;
      PassesOver(s, 0, k, k, urls);
      assert Protected(s, k, k, urls);
      assert SkippedEnd(s, 0, urls) == 0;
      assert Found(s, 0, 0, list)[1] == Tag(0, i);
    }
  }

  /** Exactly which lists of emoticons leave tags and URLs alone. */
  lemma LeavesAloneExactly(list: seq<Smiley>, urls: seq<CString>)
    requires NonEmpty(list)
    ensures LeavesAlone(list, urls) <==> !Cuts(list, urls)
  {
    if Cuts(list, urls) {
      var c, i, k :| c in Completions(urls) && 0 <= i < |list| && 0 < k < |list[i].text| &&
        Cut(list[i].text + c, 0, list, urls, i, k);
      CompletionIsText(c, urls);
      var s: CString := list[i].text + c;
      var first := CutRewrites(s, list, urls, i, k);
      assert Tag(0, i) in Pieces(s, 0, list, urls) && EndOf(Tag(0, i), list) == |list[i].text|;
    } else {
      forall s: CString, x, k: nat | x in Pieces(s, 0, list, urls) && x.Tag? && x.at <= k < EndOf(x, list)
        ensures !Protected(s, 0, k, urls)
      {
        NothingProtectedIsRewritten(s, 0, list, urls, x, k);
      }
    }
  }

  /** A list in which `:<` comes before what else `:<b>` begins with breaks the tag of that message. */
  lemma TagBroken(list: seq<Smiley>, i: nat, urls: seq<Bytes>)
    requires NonEmpty(list) && forall u | u in urls :: |u| > 4
    requires MatchAt([58, LT, 98, GT], 0, list, 0) == Some(i) && list[i].text == [58, LT]
    ensures Tag(0, i) in Pieces([58, LT, 98, GT], 0, list, urls) && Protected([58, LT, 98, GT], 0, 1, urls)
  {
    var s := [58, LT, 98, GT];
    assert Cut(s, 0, list, urls, i, 1);
    var first := CutRewrites(s, list, urls, i, 1);
  }

  // ----- The result as text -----

  function EscapedByte(c: int): Bytes {
    if c == GT then Ascii("&gt;") else if c == LT then Ascii("&lt;") else [c]
  }

  function Escaped(e: Bytes): Bytes {
    if e == [] then [] else Escaped(e[..|e| - 1]) + EscapedByte(e[|e| - 1])
  }

  /** The fixed parts of a smiley tag. */
  datatype Template = Template(name: Bytes, protocol: Bytes, alt: Bytes, close: Bytes)

  const SMILEY_TAG :=
    Template(Ascii("<smiley name=\""), Ascii("\" protocol=\""), Ascii("\" alt=\""), Ascii("\">"))

  function TagText(x: Smiley, service: Bytes, t: Template): Bytes {
    t.name + x.name + t.protocol + service + t.alt + Escaped(x.text) + t.close
  }

  function Rendered(x: Piece, s: Bytes, list: seq<Smiley>, service: Bytes, t: Template): Bytes {
    match x
    case Copied(_, _) => SourceOf(x, s, list)
    case Tag(_, i) => if i < |list| then TagText(list[i], service, t) else []
  }

  function Concat(texts: seq<Bytes>): Bytes {
    if texts == [] then [] else texts[0] + Concat(texts[1..])
  }

  function Texts(pieces: seq<Piece>, s: Bytes, list: seq<Smiley>, service: Bytes, t: Template): seq<Bytes> {
    seq(|pieces|, i requires 0 <= i < |pieces| => Rendered(pieces[i], s, list, service, t))
  }

  /** The result as text. */
  function RenderedAll(pieces: seq<Piece>, s: Bytes, list: seq<Smiley>, service: Bytes, t: Template): Bytes {
    Concat(Texts(pieces, s, list, service, t))
  }

  lemma {:induction false} ConcatJoin(a: seq<Bytes>, b: seq<Bytes>)
    ensures Concat(a + b) == Concat(a) + Concat(b)
  {
    if a == [] {
      assert a + b == b;
    } else {
      ConcatJoin(a[1..], b);
      assert (a + b)[1..] == a[1..] + b;
      Regroup(a[0], Concat(a[1..]), Concat(b));
    }
  }

  lemma ConcatOne(a: Bytes)
    ensures Concat([a]) == a
  {
    assert a + [] == a;
  }

  lemma TextsJoin(a: seq<Piece>, b: seq<Piece>, s: Bytes, list: seq<Smiley>, service: Bytes, t: Template)
    ensures Texts(a + b, s, list, service, t) == Texts(a, s, list, service, t) + Texts(b, s, list, service, t)
  {
  }

  lemma RenderedJoin(a: seq<Piece>, b: seq<Piece>, s: Bytes, list: seq<Smiley>, service: Bytes, t: Template)
    ensures RenderedAll(a + b, s, list, service, t) ==
            RenderedAll(a, s, list, service, t) + RenderedAll(b, s, list, service, t)
  {
    TextsJoin(a, b, s, list, service, t);
    ConcatJoin(Texts(a, s, list, service, t), Texts(b, s, list, service, t));
  }

  lemma RenderedOne(x: Piece, s: Bytes, list: seq<Smiley>, service: Bytes, t: Template)
    ensures RenderedAll([x], s, list, service, t) == Rendered(x, s, list, service, t)
  {
    ConcatOne(Rendered(x, s, list, service, t));
    assert Texts([x], s, list, service, t) == [Rendered(x, s, list, service, t)];
  }

  /** Appends one byte of an emoticon, escaped. */
  method AppendEscaped(html: array<int>, j: nat, c: int) returns (next: nat)
    requires j + 4 <= html.Length
    modifies html
    ensures next == j + |EscapedByte(c)| <= j + 4
    ensures html[..next] == old(html[..j]) + EscapedByte(c)
  {
    if c == GT {
      html[j], html[j + 1], html[j + 2], html[j + 3] := 38, 103, 116, 59;
      next := j + 4;
    } else if c == LT {
      html[j], html[j + 1], html[j + 2], html[j + 3] := 38, 108, 116, 59;
      next := j + 4;
    } else {
      html[j] := c;
      next := j + 1;
    }
    assert html[j..next] == EscapedByte(c);
    assert html[..next] == html[..j] + html[j..next];
  }

  lemma EscapedNext(e: Bytes, i: nat)
    requires i < |e|
    ensures Escaped(e[..i + 1]) == Escaped(e[..i]) + EscapedByte(e[i])
  {
    assert e[..i + 1][..i] == e[..i];
  }

  /** The text of the `alt` attribute, in a buffer of 128 bytes. */
  method AltText(e: CString) returns (alt: Bytes)
    requires |e| < 16
    ensures alt == Escaped(e)
  {
    var html := new int[128];
    var i, j := 0, 0;
    while i < |e| && j < 123
      invariant i <= |e| && 0 <= j <= 4 * i
      invariant html[..j] == Escaped(e[..i])
    {
      EscapedNext(e, i);
      j := AppendEscaped(html, j, e[i]);
      i := i + 1;
    }
    assert e[..i] == e;
    html[j] := 0;
    alt := html[..j];
  }

  lemma SliceNext(s: Bytes, p: nat, q: nat)
    requires p <= q < |s|
    ensures s[p..q] + [s[q]] == s[p..q + 1]
  {
  }

  /** Copies a tag. */
  method CopyTag(text: CString, start: nat) returns (newstr: Bytes, ipos: nat)
    requires start < |text| && text[start] != GT
    ensures ipos == TagEnd(text, start) && newstr == text[start..ipos]
  {
    newstr, ipos := [], start;
    while ipos < |text| && text[ipos] != GT
      invariant start <= ipos <= |text| && newstr == text[start..ipos]
      invariant TagEnd(text, ipos) == TagEnd(text, start)
      decreases |text| - ipos
    {
      SliceNext(text, start, ipos);
      newstr := newstr + [text[ipos]];
      ipos := ipos + 1;
    }
    if ipos < |text| {
      SliceNext(text, start, ipos);
      newstr := newstr + [text[ipos]];
      ipos := ipos + 1;
    }
  }

  /** Copies the tags that follow one another from `start` on. */
  method CopyTags(text: CString, start: nat) returns (newstr: Bytes, ipos: nat)
    requires start <= |text|
    ensures ipos == TagsEnd(text, start) && newstr == text[start..ipos]
  {
    newstr, ipos := [], start;
    while ipos + 1 < |text| && text[ipos] == LT && IsAlpha(text[ipos + 1])
      invariant start <= ipos <= |text| && newstr == text[start..ipos]
      invariant TagsEnd(text, ipos) == TagsEnd(text, start)
      decreases |text| - ipos
    {
      var tag, next := CopyTag(text, ipos);
      SliceJoin(text, start, ipos, next);
      newstr := newstr + tag;
      ipos := next;
    }
  }

  /** Copies a URL: as far as the end of the message, for no byte is both a blank and `<`. */
  method CopyUrl(text: CString, start: nat, urls: seq<Bytes>) returns (newstr: Bytes, ipos: nat)
    requires start <= |text|
    ensures ipos == (if UrlAt(text, start, urls) then |text| else start) && newstr == text[start..ipos]
  {
    newstr, ipos := [], start;
    var i := 0;
    while i < |urls|
      invariant i <= |urls|
      invariant ipos == start <= |text| || ipos == |text|
      invariant newstr == text[start..ipos]
      invariant (exists j :: 0 <= j < i && StartsWith(text, start, urls[j])) ==> ipos == |text|
      invariant (forall j :: 0 <= j < i ==> !StartsWith(text, start, urls[j])) ==> ipos == start
    {
      if StartsWith(text, ipos, urls[i]) {
        newstr := newstr + urls[i];
        ipos := ipos + |urls[i]|;
        while ipos < |text| && (text[ipos] != 32 || text[ipos] != LT)
          invariant start <= ipos <= |text| && newstr == text[start..ipos]
        {
          newstr := newstr + [text[ipos]];
          ipos := ipos + 1;
        }
      }
      i := i + 1;
    }
  }

  /** The search along the list of smileys. */
  method FindSmiley(text: CString, ipos: nat, list: seq<Smiley>) returns (found: Option<nat>)
    requires ipos <= |text|
    ensures found == MatchAt(text, ipos, list, 0)
  {
    var l := 0;
    while l < |list|
      invariant l <= |list| && MatchAt(text, ipos, list, l) == MatchAt(text, ipos, list, 0)
    {
      if StartsWith(text, ipos, list[l].text) {
        return Some(l);
      }
      l := l + 1;
    }
    found := None;
  }

  predicate Short(list: seq<Smiley>) {
    forall x | x in list :: 0 < |x.text| < 16
  }

  method SmileyTag(x: Smiley, service: CString, t: Template) returns (tag: Bytes)
    requires |x.text| < 16
    ensures tag == TagText(x, service, t)
    ensures tag == t.name + x.name + t.protocol + service + t.alt + Escaped(x.text) + t.close
  {
    var alt := AltText(x.text);
    tag := t.name + x.name + t.protocol + service + t.alt + alt + t.close;
  }

  /** What is skipped before a round looks for a smiley. */
  method CopySkipped(text: CString, start: nat, urls: seq<Bytes>) returns (newstr: Bytes, ipos: nat)
    requires start <= |text|
    ensures ipos == SkippedEnd(text, start, urls) && newstr == text[start..ipos]
  {
    newstr, ipos := CopyTags(text, start);
    ghost var t := ipos;
    var url;
    url, ipos := CopyUrl(text, ipos, urls);
    SliceJoin(text, start, t, ipos);
    newstr := newstr + url;
  }

  /** What a round appends after what it has skipped. */
  function LastText(s: Bytes, q: nat, list: seq<Smiley>, service: Bytes, t: Template): Bytes
    requires q <= |s|
  {
    match MatchAt(s, q, list, 0)
    case Some(i) => TagText(list[i], service, t)
    case None => if q == |s| then [] else [s[q]]
  }

  lemma RenderedFound(s: Bytes, p: nat, q: nat, list: seq<Smiley>, service: Bytes, t: Template)
    requires p <= q <= |s|
    ensures RenderedAll(Found(s, p, q, list), s, list, service, t) == s[p..q] + LastText(s, q, list, service, t)
  {
    match MatchAt(s, q, list, 0) {
      case Some(i) =>
        RenderedOne(Copied(p, q), s, list, service, t);
        RenderedOne(Tag(q, i), s, list, service, t);
        RenderedJoin([Copied(p, q)], [Tag(q, i)], s, list, service, t);
        assert [Copied(p, q)] + [Tag(q, i)] == [Copied(p, q), Tag(q, i)];
      case None =>
        RenderedOne(Copied(p, if q == |s| then q else q + 1), s, list, service, t);
        if q < |s| {
          SliceNext(s, p, q);
        }
    }
  }

  /** One round of the outer loop: what it appends, and how far it gets. */
  method OneRound(text: CString, start: nat, list: seq<Smiley>, service: CString, urls: seq<Bytes>, t: Template)
    returns (skipped: Bytes, last: Bytes, ipos: nat)
    requires start < |text| && Short(list)
    ensures var q := SkippedEnd(text, start, urls);
            && ipos == FoundEnd(text, q, list)
            && skipped == text[start..q]
            && last == LastText(text, q, list, service, t)
  {
    skipped, ipos := CopySkipped(text, start, urls);
    var found := FindSmiley(text, ipos, list);
    if found.Some? {
      var x := list[found.value];
      assert x in list;
      last := SmileyTag(x, service, t);
      ipos := ipos + |x.text|;
    } else if ipos < |text| {
      last := [text[ipos]];
      ipos := ipos + 1;
    } else {
      last := [];
    }
  }

  method Rewrite(s: CString, list: seq<Smiley>, service: CString, urls: seq<Bytes>, t: Template)
    returns (newstr: Bytes)
    requires Short(list)
    ensures NonEmpty(list) && newstr == RenderedAll(Pieces(s, 0, list, urls), s, list, service, t)
  {
    newstr := [];
    var ipos := 0;
    ghost var done, whole := [], Pieces(s, 0, list, urls);
    while ipos < |s|
      invariant ipos <= |s|
      invariant done + Pieces(s, ipos, list, urls) == whole
      invariant newstr == RenderedAll(done, s, list, service, t)
      decreases |s| - ipos
    {
      ghost var q := SkippedEnd(s, ipos, urls);
      ghost var found := Found(s, ipos, q, list);
      RoundAdvances(s, ipos, list, urls);
      RenderedFound(s, ipos, q, list, service, t);
      RenderedJoin(done, found, s, list, service, t);
      Regroup(done, found, Pieces(s, FoundEnd(s, q, list), list, urls));
      var skipped, last;
      skipped, last, ipos := OneRound(s, ipos, list, service, urls, t);
      newstr := newstr + (skipped + last);
      done := done + found;
    }
    assert done + [] == done;
  }

  /** `eb_smilify`. */
  method Smilify(text: Option<CString>, enabled: bool, list: seq<Smiley>, service: CString)
    returns (newstr: Bytes)
    requires Short(list)
    ensures NonEmpty(list)
    ensures match text
            case None => newstr == []
            case Some(s) =>
              newstr == if enabled then RenderedAll(Pieces(s, 0, list, NO_SMILEYS), s, list, service, SMILEY_TAG) else s
  {
    if text.None? {
      return [];
    }
    if enabled {
      newstr := Rewrite(text.value, list, service, NO_SMILEYS, SMILEY_TAG);
    } else {
      newstr := text.value;
    }
  }
}
