/** Normalized codeset names. */
module Codeset {
  import opened CStrings
  import opened CharClasses
  import opened Sequences

  const ISO: CString := [105, 115, 111]

  function FoldedByte(c: int): seq<int> {
    if IsAlnum(c) then [ToLower(c)] else []
  }

  /** The letters and digits of a name, the letters in lower case. */
  function Folded(codeset: seq<int>): seq<int> {
    if codeset == [] then []
    else FoldedByte(codeset[0]) + Folded(codeset[1..])
  }

  predicate HasAlpha(codeset: seq<int>) {
    exists c :: c in codeset && IsAlpha(c)
  }

  lemma {:induction false} FoldedBytes(codeset: seq<int>)
    ensures forall c | c in Folded(codeset) :: IsDigit(c) || 97 <= c <= 122
  {
    if codeset != [] {
      FoldedBytes(codeset[1..]);
    }
  }

  function Normalized(codeset: seq<int>): CString {
    FoldedBytes(codeset);
    (if HasAlpha(codeset) then [] else ISO) + Folded(codeset)
  }

  lemma {:induction false} FoldedSnoc(codeset: seq<int>, c: int)
    ensures Folded(codeset + [c]) == Folded(codeset) + FoldedByte(c)
  {
    if codeset == [] {
      assert [c][1..] == [];
    } else {
      FoldedSnoc(codeset[1..], c);
      assert (codeset + [c])[1..] == codeset[1..] + [c];
      Regroup(FoldedByte(codeset[0]), Folded(codeset[1..]), FoldedByte(c));
    }
  }

  lemma {:induction false} FoldedFixed(codeset: seq<int>)
    requires forall c | c in codeset :: IsDigit(c) || 97 <= c <= 122
    ensures Folded(codeset) == codeset
  {
    if codeset != [] {
      assert codeset[0] in codeset;
      FoldedFixed(codeset[1..]);
    }
  }

  /** A folded name has a letter if the name has one. */
  lemma {:induction false} FoldedKeepsAlpha(codeset: seq<int>, c: int)
    requires c in codeset && IsAlpha(c)
    ensures ToLower(c) in Folded(codeset) && IsAlpha(ToLower(c))
  {
    if codeset[0] != c {
      FoldedKeepsAlpha(codeset[1..], c);
    }
  }

  /** A normalized name is its own normalization. */
  lemma NormalizedOnce(codeset: seq<int>)
    ensures Normalized(Normalized(codeset)) == Normalized(codeset)
    ensures HasAlpha(Normalized(codeset))
  {
    FoldedBytes(codeset);
    FoldedFixed(Normalized(codeset));
    if c :| c in codeset && IsAlpha(c) {
      FoldedKeepsAlpha(codeset, c);
    } else {
      assert ISO[0] in Normalized(codeset);
    }
  }

  /** A byte that is neither a letter nor a digit makes no difference. */
  lemma {:induction false} NormalizedIgnoresPunctuation(a: seq<int>, c: int, b: seq<int>)
    requires !IsAlnum(c)
    ensures Normalized(a + [c] + b) == Normalized(a + b)
  {
    FoldedSkips(a, c, b);
    var with, without := a + [c] + b, a + b;
    assert forall x :: x in with <==> x in without || x == c;
    assert HasAlpha(with) <==> HasAlpha(without);
  }

  lemma {:induction false} FoldedSkips(a: seq<int>, c: int, b: seq<int>)
    requires !IsAlnum(c)
    ensures Folded(a + [c] + b) == Folded(a + b)
  {
    if a == [] {
      assert ([c] + b)[1..] == b;
      assert a + [c] + b == [c] + b && a + b == b;
    } else {
      FoldedSkips(a[1..], c, b);
      assert (a + [c] + b)[1..] == a[1..] + [c] + b;
      assert (a + b)[1..] == a[1..] + b;
    }
  }

  /** Nor does the case of a letter. */
  lemma NormalizedIgnoresCase(a: seq<int>, c: int, b: seq<int>)
    requires 65 <= c <= 90
    ensures Normalized(a + [c] + b) == Normalized(a + [c + 32] + b)
  {
    FoldedSame(a, c, c + 32, b);
    HasAlphaJoin(a, c, b);
    HasAlphaJoin(a, c + 32, b);
  }

  /** Without punctuation and capitals a name with a letter stays as it is, and a number has "iso" put before it. */
  lemma NormalizedPlain(codeset: seq<int>)
    requires forall c | c in codeset :: IsDigit(c) || 97 <= c <= 122
    ensures Normalized(codeset) ==
            if exists c :: c in codeset && !IsDigit(c) then codeset else [105, 115, 111] + codeset
  {
    FoldedFixed(codeset);
    assert [] + codeset == codeset;
  }

  lemma HasAlphaJoin(a: seq<int>, c: int, b: seq<int>)
    ensures HasAlpha(a + [c] + b) <==> HasAlpha(a) || IsAlpha(c) || HasAlpha(b)
  {
    assert forall x :: x in a + [c] + b <==> x in a || x == c || x in b;
  }

  lemma {:induction false} FoldedSame(a: seq<int>, c: int, d: int, b: seq<int>)
    requires FoldedByte(c) == FoldedByte(d)
    ensures Folded(a + [c] + b) == Folded(a + [d] + b)
  {
    if a == [] {
      assert ([c] + b)[1..] == b && ([d] + b)[1..] == b;
      assert a + [c] + b == [c] + b && a + [d] + b == [d] + b;
    } else {
      FoldedSame(a[1..], c, d, b);
      assert (a + [c] + b)[1..] == a[1..] + [c] + b;
      assert (a + [d] + b)[1..] == a[1..] + [d] + b;
    }
  }

  lemma {:induction false} FoldedPrefix(codeset: seq<int>, k: nat)
    requires k <= |codeset|
    ensures |Folded(codeset[..k])| <= |Folded(codeset)|
    decreases |codeset| - k
  {
    if k < |codeset| {
      FoldedPrefix(codeset, k + 1);
      FoldedNext(codeset, k);
    } else {
      assert codeset[..k] == codeset;
    }
  }

  lemma FoldedNext(codeset: seq<int>, k: nat)
    requires k < |codeset|
    ensures Folded(codeset[..k + 1]) ==
            Folded(codeset[..k]) + FoldedByte(codeset[k])
  {
    assert codeset[..k + 1] == codeset[..k] + [codeset[k]];
    FoldedSnoc(codeset[..k], codeset[k]);
  }

  /** The first loop measures the result. */
  method Measure(codeset: seq<int>) returns (len: nat, onlyDigit: bool)
    ensures len == |Folded(codeset)|
    ensures onlyDigit <==> !HasAlpha(codeset)
  {
    len, onlyDigit := 0, true;
    var cnt := 0;
    while cnt < |codeset|
      invariant cnt <= |codeset|
      invariant len == |Folded(codeset[..cnt])|
      invariant onlyDigit <==> forall k :: 0 <= k < cnt ==> !IsAlpha(codeset[k])
    {
      FoldedNext(codeset, cnt);
      if IsAlnum(codeset[cnt]) {
        len := len + 1;
        if IsAlpha(codeset[cnt]) {
          onlyDigit := false;
        }
      }
      cnt := cnt + 1;
    }
    assert codeset[..cnt] == codeset;
  }

  /** The second loop writes it, from `start` on. */
  method WriteFolded(retval: array<int>, start: nat, codeset: seq<int>) returns (wp: nat)
    requires start + |Folded(codeset)| < retval.Length
    modifies retval
    ensures wp == start + |Folded(codeset)|
    ensures retval[..wp] == old(retval[..start]) + Folded(codeset)
  {
    wp := start;
    var cnt := 0;
    while cnt < |codeset|
      invariant cnt <= |codeset|
      invariant wp == start + |Folded(codeset[..cnt])|
      invariant wp <= start + |Folded(codeset)|
      invariant retval[..wp] == old(retval[..start]) + Folded(codeset[..cnt])
    {
      FoldedNext(codeset, cnt);
      FoldedPrefix(codeset, cnt + 1);
      if IsAlpha(codeset[cnt]) {
        retval[wp] := ToLower(codeset[cnt]);
        wp := wp + 1;
      } else if IsDigit(codeset[cnt]) {
        retval[wp] := codeset[cnt];
        wp := wp + 1;
      }
      cnt := cnt + 1;
    }
    assert codeset[..cnt] == codeset;
  }

  /** `_nl_normalize_codeset`. */
  method NormalizeCodeset(codeset: seq<int>) returns (normalized: CString)
    ensures normalized == Normalized(codeset)
  {
    var len, onlyDigit := Measure(codeset);
    var start := if onlyDigit then 3 else 0;
    var retval := new int[start + len + 1];
    if onlyDigit {
      retval[0], retval[1], retval[2] := ISO[0], ISO[1], ISO[2];
      assert retval[..start] == ISO;
    }
    var wp := WriteFolded(retval, start, codeset);
    retval[wp] := 0;
    assert retval[..wp] == Normalized(codeset);
    normalized := retval[..wp];
  }
}
