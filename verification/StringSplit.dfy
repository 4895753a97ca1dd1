/** Splitting a string at a separator. */
module StringSplit {
  import opened TextFile

  /** Byte by byte, the text stands at `p`, where its first `j` bytes are known to stand. */
  predicate Same(s: Bytes, p: nat, t: Bytes, j: nat)
    requires p + |t| <= |s| && j <= |t|
    decreases |t| - j
  {
    j == |t| || (s[p + j] == t[j] && Same(s, p, t, j + 1))
  }

  /** The text stands at `p`. */
  predicate At(s: Bytes, p: nat, t: Bytes) {
    p + |t| <= |s| && Same(s, p, t, 0)
  }

  lemma {:induction false} SameIs(s: Bytes, p: nat, t: Bytes, j: nat)
    requires p + |t| <= |s| && j <= |t|
    ensures Same(s, p, t, j) <==> s[p + j..p + |t|] == t[j..]
    decreases |t| - j
  {
    if j < |t| {
      SameIs(s, p, t, j + 1);
      assert s[p + j..p + |t|] == [s[p + j]] + s[p + j + 1..p + |t|];
      assert t[j..] == [t[j]] + t[j + 1..];
    }
  }

  lemma AtIs(s: Bytes, p: nat, t: Bytes)
    ensures At(s, p, t) <==> p + |t| <= |s| && s[p..p + |t|] == t
  {
    if p + |t| <= |s| {
      SameIs(s, p, t, 0);
      assert t[0..] == t;
    }
  }

  /** The first place of `sep` from `p` on, or the end if there is none. */
  function Index(s: Bytes, sep: Bytes, p: nat): (k: nat)
    requires sep != [] && p <= |s|
    ensures p <= k <= |s| && (k < |s| ==> k + |sep| <= |s|)
    decreases |s| - p
  {
    if p == |s| || At(s, p, sep) then p else Index(s, sep, p + 1)
  }

  /** The pieces between the separators, from `p` on. */
  function Pieces(s: Bytes, sep: Bytes, p: nat): (v: seq<Bytes>)
    requires sep != [] && p <= |s|
    ensures |v| > 0
    decreases |s| - p
  {
    var k := Index(s, sep, p);
    if k == |s| then [s[p..]] else [s[p..k]] + Pieces(s, sep, k + |sep|)
  }

  predicate EndsWith(s: Bytes, sep: Bytes) {
    |sep| <= |s| && At(s, |s| - |sep|, sep)
  }

  /** The pieces, without the last one if the string ends with the separator. */
  function Tokens(s: Bytes, sep: Bytes): seq<Bytes>
    requires sep != []
  {
    var v := Pieces(s, sep, 0);
    if EndsWith(s, sep) then v[..|v| - 1] else v
  }

  function JoinPieces(v: seq<Bytes>, sep: Bytes): Bytes {
    if v == [] then [] else if |v| == 1 then v[0] else v[0] + sep + JoinPieces(v[1..], sep)
  }

  /** Put behind `a`, the separator begins nowhere before. */
  predicate Fits(a: Bytes, sep: Bytes)
    requires sep != []
  {
    Index(a + sep, sep, 0) == |a|
  }

  /** Texts that a separator fits between, and that end with one that does not hold it. */
  predicate Parts(v: seq<Bytes>, sep: Bytes)
    requires sep != []
  {
    v != [] &&
    if |v| == 1 then Index(v[0], sep, 0) == |v[0]| else Fits(v[0], sep) && Parts(v[1..], sep)
  }

  // ----- The first separator -----

  lemma {:induction false} IndexBytes(s: Bytes, sep: Bytes, p: nat)
    requires sep != [] && p <= |s|
    ensures var k := Index(s, sep, p); k < |s| ==> At(s, k, sep)
    ensures forall j :: p <= j < Index(s, sep, p) ==> !At(s, j, sep)
    decreases |s| - p
  {
    if p < |s| && !At(s, p, sep) {
      IndexBytes(s, sep, p + 1);
    }
  }

  lemma AtShift(a: Bytes, s: Bytes, p: nat, t: Bytes)
    requires p <= |s|
    ensures At(a + s, |a| + p, t) <==> At(s, p, t)
  {
    AtIs(a + s, |a| + p, t);
    AtIs(s, p, t);
    if p + |t| <= |s| {
      assert (a + s)[|a| + p..|a| + p + |t|] == s[p..p + |t|];
    }
  }

  lemma {:induction false} IndexShift(a: Bytes, s: Bytes, sep: Bytes, p: nat)
    requires sep != [] && p <= |s|
    ensures Index(a + s, sep, |a| + p) == |a| + Index(s, sep, p)
    decreases |s| - p
  {
    AtShift(a, s, p, sep);
    if p < |s| && !At(s, p, sep) {
      IndexShift(a, s, sep, p + 1);
    }
  }

  /** What comes behind a separator is not looked at. */
  lemma {:induction false} IndexIs(s: Bytes, sep: Bytes, rest: Bytes, p: nat)
    requires sep != [] && EndsWith(s, sep) && p <= |s| - |sep|
    ensures Index(s + rest, sep, p) == Index(s, sep, p) <= |s| - |sep|
    decreases |s| - p
  {
    AtIs(s + rest, p, sep);
    AtIs(s, p, sep);
    assert (s + rest)[p..p + |sep|] == s[p..p + |sep|];
    if !At(s, p, sep) {
      IndexIs(s, sep, rest, p + 1);
    }
  }

  lemma {:induction false} IndexPrefix(s: Bytes, rest: Bytes, sep: Bytes, p: nat)
    requires sep != [] && p <= |s|
    ensures Index(s, sep, p) < |s| ==> Index(s + rest, sep, p) == Index(s, sep, p)
    decreases |s| - p
  {
    AtIs(s, p, sep);
    AtIs(s + rest, p, sep);
    if p + |sep| <= |s| {
      assert (s + rest)[p..p + |sep|] == s[p..p + |sep|];
    }
    if p < |s| && !At(s, p, sep) {
      IndexPrefix(s, rest, sep, p + 1);
    }
  }

  lemma SeparatorEnds(a: Bytes, sep: Bytes)
    ensures EndsWith(a + sep, sep)
  {
    AtIs(a + sep, |a|, sep);
    assert (a + sep)[|a|..|a| + |sep|] == sep;
  }

  lemma FitsBefore(a: Bytes, sep: Bytes, rest: Bytes)
    requires sep != []
    ensures Fits(a, sep) <==> Index(a + sep + rest, sep, 0) == |a|
  {
    SeparatorEnds(a, sep);
    IndexIs(a + sep, sep, rest, 0);
  }

  /** What is before the first separator is a text that it fits behind. */
  lemma FirstFits(s: Bytes, sep: Bytes, p: nat, k: nat)
    requires sep != [] && p <= |s| && k == Index(s, sep, p) < |s|
    ensures Fits(s[p..k], sep) && s[p..] == s[p..k] + sep + s[k + |sep|..]
  {
    var a, rest := s[p..k], s[k + |sep|..];
    IndexBytes(s, sep, p);
    AtIs(s, k, sep);
    assert s[p..] == a + sep + rest;
    assert s == s[..p] + s[p..];
    IndexShift(s[..p], s[p..], sep, 0);
    FitsBefore(a, sep, rest);
  }

  lemma NoneAfter(s: Bytes, sep: Bytes, p: nat)
    requires sep != [] && p <= |s|
    ensures Index(s, sep, p) == |s| <==> Index(s[p..], sep, 0) == |s[p..]|
  {
    assert s == s[..p] + s[p..];
    IndexShift(s[..p], s[p..], sep, 0);
  }

  /** A separator of one byte fits behind what does not hold the byte. */
  lemma IndexByte(a: Bytes, c: int)
    requires c !in a
    ensures Index(a, [c], 0) == |a| && Fits(a, [c])
  {
    IndexBytes(a, [c], 0);
    IndexBytes(a + [c], [c], 0);
    SeparatorEnds(a, [c]);
    assert forall j :: 0 <= j < |a| ==> (a + [c])[j] == a[j] && a[j] in a;
  }

  // ----- One way to take a string apart -----

  /** Nothing is lost: the pieces, joined again, are the string. */
  lemma {:induction false} PiecesJoin(s: Bytes, sep: Bytes, p: nat)
    requires sep != [] && p <= |s|
    ensures JoinPieces(Pieces(s, sep, p), sep) == s[p..] && Parts(Pieces(s, sep, p), sep)
    decreases |s| - p
  {
    var k := Index(s, sep, p);
    if k < |s| {
      var left := Pieces(s, sep, k + |sep|);
      PiecesJoin(s, sep, k + |sep|);
      FirstFits(s, sep, p, k);
      assert ([s[p..k]] + left)[1..] == left;
    } else {
      NoneAfter(s, sep, p);
    }
  }

  lemma FirstPart(v: seq<Bytes>, sep: Bytes, s: Bytes, rest: Bytes)
    requires sep != [] && Parts(v, sep) && s == JoinPieces(v, sep) && rest == JoinPieces(v[1..], sep)
    ensures Index(s, sep, 0) == |v[0]| <= |s| && s[..|v[0]|] == v[0]
    ensures |v| == 1 ==> s == v[0]
    ensures |v| > 1 ==> |v[0]| + |sep| <= |s| && s[|v[0]| + |sep|..] == rest
  {
    if |v| > 1 {
      FitsBefore(v[0], sep, rest);
    }
  }

  /** There is only one way to take a string apart into such parts. */
  lemma {:induction false} OneWay(v: seq<Bytes>, w: seq<Bytes>, sep: Bytes)
    requires sep != [] && Parts(v, sep) && Parts(w, sep) && JoinPieces(v, sep) == JoinPieces(w, sep)
    ensures v == w
  {
    var s := JoinPieces(v, sep);
    FirstPart(v, sep, s, JoinPieces(v[1..], sep));
    FirstPart(w, sep, s, JoinPieces(w[1..], sep));
    if |v| > 1 && |w| > 1 {
      OneWay(v[1..], w[1..], sep);
    }
    assert v == [v[0]] + v[1..] && w == [w[0]] + w[1..];
  }

  /** Joined texts are taken apart into the same texts if and only if they are such parts. */
  lemma PiecesOfJoined(v: seq<Bytes>, sep: Bytes)
    requires sep != []
    ensures Pieces(JoinPieces(v, sep), sep, 0) == v <==> Parts(v, sep)
  {
    var s := JoinPieces(v, sep);
    PiecesJoin(s, sep, 0);
    if Parts(v, sep) {
      assert s[0..] == s;
      OneWay(v, Pieces(s, sep, 0), sep);
    }
  }

  // ----- What is lost at the end -----

  function Last(v: seq<Bytes>): Bytes
    requires v != []
  {
    v[|v| - 1]
  }

  /** No end of the separator is also a beginning of it. */
  predicate Borderless(sep: Bytes) {
    forall j :: 0 < j < |sep| ==> sep[j..] != sep[..|sep| - j]
  }

  /** The last piece of a string that ends with the separator, which is dropped, is always empty. */
  ghost predicate LosesNothing(sep: Bytes)
    requires sep != []
  {
    forall s: Bytes :: EndsWith(s, sep) ==> Last(Pieces(s, sep, 0)) == []
  }

  lemma {:induction false} LastIsEmpty(s: Bytes, sep: Bytes, p: nat)
    requires sep != [] && Borderless(sep) && EndsWith(s, sep) && p <= |s| - |sep|
    ensures Last(Pieces(s, sep, p)) == []
    decreases |s| - p
  {
    var k, e := Index(s, sep, p), |s| - |sep|;
    IndexBytes(s, sep, p);
    if k + |sep| <= e {
      LastIsEmpty(s, sep, k + |sep|);
    } else if k < e {
      Overlap(s, sep, k, e);
    } else {
      assert s[|s|..] == [];
    }
  }

  lemma Overlap(s: Bytes, sep: Bytes, k: nat, e: nat)
    requires k < e < k + |sep| && e <= |s| && At(s, k, sep) && At(s, e, sep)
    ensures !Borderless(sep)
  {
    var j := e - k;
    AtIs(s, k, sep);
    AtIs(s, e, sep);
    assert sep[j..] == s[e..k + |sep|];
    assert sep[..|sep| - j] == s[e..k + |sep|];
  }

  /** A separator that overlaps itself by all but `j` bytes loses its last `j` bytes, put behind it. */
  lemma TailLost(sep: Bytes, j: nat) returns (s: Bytes)
    requires 0 < j < |sep| && sep[j..] == sep[..|sep| - j]
    ensures EndsWith(s, sep) && Last(Pieces(s, sep, 0)) == sep[|sep| - j..]
  {
    var tail := sep[|sep| - j..];
    s := sep + tail;
    AtIs(s, 0, sep);
    AtIs(s, j, sep);
    assert s[j..j + |sep|] == sep[j..] + tail;
    assert sep == sep[..|sep| - j] + tail;
    assert s[0..|sep|] == sep && s[|sep|..] == tail;
    assert Pieces(s, sep, |sep|) == [tail];
  }

  /** Exactly the separators that do not overlap themselves never lose text. */
  lemma LosesNothingExactly(sep: Bytes)
    requires sep != []
    ensures LosesNothing(sep) <==> Borderless(sep)
  {
    if Borderless(sep) {
      forall s: Bytes | EndsWith(s, sep) ensures Last(Pieces(s, sep, 0)) == [] {
        LastIsEmpty(s, sep, 0);
      }
    } else {
      var j :| 0 < j < |sep| && sep[j..] == sep[..|sep| - j];
      var s := TailLost(sep, j);
    }
  }

  // ----- The loops -----

  /** `strstr`, with the end of the string for NULL. */
  method Find(s: Bytes, sep: Bytes, p: nat) returns (k: nat)
    requires sep != [] && p <= |s|
    ensures k == Index(s, sep, p)
  {
    k := p;
    while k < |s| && !At(s, k, sep)
      invariant p <= k <= |s| && Index(s, sep, k) == Index(s, sep, p)
    {
      k := k + 1;
    }
  }

  /** How many pieces there are from `p` on. */
  function Count(s: Bytes, sep: Bytes, p: nat): nat
    requires sep != [] && p <= |s|
    decreases |s| - p
  {
    var k := Index(s, sep, p);
    if k == |s| then 1 else 1 + Count(s, sep, k + |sep|)
  }

  lemma {:induction false} CountsPieces(s: Bytes, sep: Bytes, p: nat)
    requires sep != [] && p <= |s|
    ensures |Pieces(s, sep, p)| == Count(s, sep, p)
    decreases |s| - p
  {
    var k := Index(s, sep, p);
    if k < |s| {
      CountsPieces(s, sep, k + |sep|);
    }
  }

  /** A beginning of a string has no more pieces than the whole. */
  lemma {:induction false} CountPrefix(s: Bytes, rest: Bytes, sep: Bytes, p: nat)
    requires sep != [] && p <= |s|
    ensures Count(s, sep, p) <= Count(s + rest, sep, p)
    decreases |s| - p
  {
    var k := Index(s, sep, p);
    IndexPrefix(s, rest, sep, p);
    if k < |s| {
      CountPrefix(s, rest, sep, k + |sep|);
    }
  }

  method CountSeparators(str: Bytes, sep: Bytes) returns (n: nat)
    requires sep != []
    ensures n + 1 == Count(str, sep, 0)
  {
    n := 0;
    ghost var p := 0;
    var s := Find(str, sep, 0);
    while s < |str|
      invariant p <= |str| && s == Index(str, sep, p)
      invariant n + Count(str, sep, p) == Count(str, sep, 0)
      decreases |str| - p
    {
      p := s + |sep|;
      s := Find(str, sep, s + |sep|);
      n := n + 1;
    }
  }

  /** How many elements the vector gets if the caller does not say. */
  method CountElements(str: Bytes, sep: Bytes) returns (nelem: nat)
    requires 0 < |sep| <= |str|
    ensures nelem == |Tokens(str, sep)|
  {
    nelem := CountSeparators(str, sep);
    CountsPieces(str, sep, 0);
    var end := str[|str| - |sep|..];
    AtIs(str, |str| - |sep|, sep);
    assert end == str[|str| - |sep|..|str|];
    if end != sep {
      nelem := nelem + 1;
    }
  }

  function First(v: seq<Bytes>, n: nat): seq<Bytes> {
    if n < |v| then v[..n] else v
  }

  /** One more piece goes from what is left to the vector. */
  lemma Moved(vector: seq<Bytes>, piece: Bytes, left: seq<Bytes>, all: seq<Bytes>)
    requires vector + ([piece] + left) == all
    ensures (vector + [piece]) + left == all
  {
  }

  lemma FirstOfAll(vector: seq<Bytes>, left: seq<Bytes>, n: nat)
    requires |vector| <= n && left != []
    requires |vector| < n ==> |left| == 1
    ensures First(vector + left, n) == if |vector| < n then vector + left else vector
  {
  }

  /** The loop that fills a vector of at most `n` elements. */
  method FillVector(str: Bytes, sep: Bytes, n: nat) returns (vector: seq<Bytes>)
    requires sep != []
    ensures vector == First(Pieces(str, sep, 0), n)
  {
    vector := [];
    ghost var all := Pieces(str, sep, 0);
    var p := 0;
    var s := Find(str, sep, p);
    while |vector| < n && s < |str|
      invariant p <= |str| && s == Index(str, sep, p)
      invariant |vector| <= n
      invariant vector + Pieces(str, sep, p) == all
      decreases |str| - p
    {
      Moved(vector, str[p..s], Pieces(str, sep, s + |sep|), all);
      vector := vector + [str[p..s]];
      p := s + |sep|;
      s := Find(str, sep, p);
    }
    FirstOfAll(vector, Pieces(str, sep, p), n);
    if |vector| < n {
      vector := vector + [str[p..]];
    }
  }

  /** `ay_strsplit`, with all elements or with the first `nelem` ones. */
  method StrSplit(str: Bytes, sep: Bytes, nelem: int) returns (vector: seq<Bytes>)
    requires sep != [] && (nelem < 0 ==> |sep| <= |str|)
    ensures nelem < 0 ==> vector == Tokens(str, sep)
    ensures 0 <= nelem ==> vector == First(Pieces(str, sep, 0), nelem)
  {
    if nelem < 0 {
      var n := CountElements(str, sep);
      vector := FillVector(str, sep, n);
    } else {
      vector := FillVector(str, sep, nelem);
    }
  }
}
