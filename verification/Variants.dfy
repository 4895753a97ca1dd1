/** The less specific variants of a locale name that are tried after it. */
module Variants {
  import opened Arithmetic
  import opened BitCount
  import opened Bits
  import opened CStrings
  import opened LocaleFile
  import opened LocaleMarks
  import opened Sequences
  import opened Submasks

  /** One directory and the parts of the locale name to keep. */
  datatype Variant = Variant(dir: CString, mask: nat)

  /** `~mask` as a 32-bit word. */
  function Complement(mask: nat): nat
    requires mask < 256
  {
    Pow2(32) - 1 - mask
  }

  lemma Pow2Of32()
    ensures Pow2(32) == 0x1_0000_0000 && Pow2(8) == 256
  {
    assert Pow2(8) == 256;
    Pow2Sum(8, 8);
    Pow2Sum(16, 16);
  }

  /** Whether the loop makes an entry for `c`: a part of `mask`, in one syntax, with one codeset. */
  predicate Allowed(c: nat, mask: nat) {
    && Submask(c, mask)
    && !(Has(c, CEN_SPECIFIC) && Has(c, XPG_SPECIFIC))
    && !(Has(c, CODESET) && Has(c, NORM_CODESET))
  }

  /** Within a set of parts are the masks without a bit of the others. */
  lemma Within(c: nat, parts: nat, others: nat)
    requires c < 256 && parts + others == 255
    ensures Submask(c, parts) <==> !Has(c, others)
  {
    Pow2Of32();
    SubmaskIsMasked(8, c, parts);
  }

  lemma GroupsApart()
    ensures And(CEN_SPECIFIC, NORM_CODESET) == 0 && And(CEN_SPECIFIC, CODESET) == 0
    ensures And(CODESET, NORM_CODESET) == 0 && And(CODESET + NORM_CODESET, MODIFIER) == 0
  {
    assert And(71, 8) == 0 && And(71, 16) == 0 && And(16, 8) == 0 && And(24, 128) == 0;
  }

  /** One syntax and one codeset: the parts of the CEN syntax, or those of the XPG syntax with either codeset. */
  lemma AllowedExactly(c: nat, mask: nat)
    requires c < 256
    ensures Allowed(c, mask) <==>
            && Submask(c, mask)
            && (|| Submask(c, TERRITORY + AUDIENCE + SPECIAL + SPONSOR + REVISION)
                || Submask(c, TERRITORY + CODESET + MODIFIER)
                || Submask(c, TERRITORY + NORM_CODESET + MODIFIER))
  {
    Within(c, TERRITORY + CEN_SPECIFIC, XPG_SPECIFIC);
    Within(c, TERRITORY + CODESET + MODIFIER, CEN_SPECIFIC + NORM_CODESET);
    Within(c, TERRITORY + NORM_CODESET + MODIFIER, CEN_SPECIFIC + CODESET);
    GroupsApart();
    HasEither(c, CEN_SPECIFIC, NORM_CODESET);
    HasEither(c, CEN_SPECIFIC, CODESET);
    HasEither(c, CODESET, NORM_CODESET);
    HasEither(c, CODESET + NORM_CODESET, MODIFIER);
  }

  /** The test of the loop, on 32-bit words. */
  method IsAllowed(c: nat, mask: nat) returns (allowed: bool)
    requires c < 256 && mask < 256
    ensures allowed <==> Allowed(c, mask)
  {
    Pow2Of32();
    SubmaskIsMasked(32, c, mask);
    allowed := And(c, Complement(mask)) == 0
      && (And(c, CEN_SPECIFIC) == 0 || And(c, XPG_SPECIFIC) == 0)
      && (And(c, CODESET) == 0 || And(c, NORM_CODESET) == 0);
  }

  /** The variants for `c`, one in each directory. */
  function Each(dirs: seq<CString>, c: nat): seq<Variant> {
    if dirs == [] then [] else [Variant(dirs[0], c)] + Each(dirs[1..], c)
  }

  /** The variants for the masks below `n`, largest mask first. */
  function Below(dirs: seq<CString>, mask: nat, n: nat): seq<Variant> {
    if n == 0 then []
    else (if Allowed(n - 1, mask) then Each(dirs, n - 1) else []) + Below(dirs, mask, n - 1)
  }

  /** The masks tried are those below `mask`, and `mask` itself if there are several directories. */
  function Bound(dirs: seq<CString>, mask: nat): nat {
    if |dirs| == 1 then mask else mask + 1
  }

  function Wanted(dirs: seq<CString>, mask: nat): seq<Variant> {
    Below(dirs, mask, Bound(dirs, mask))
  }

  lemma {:induction false} EachMember(dirs: seq<CString>, c: nat, v: Variant)
    ensures v in Each(dirs, c) <==> v.mask == c && v.dir in dirs
    ensures |Each(dirs, c)| == |dirs|
  {
    if dirs != [] {
      EachMember(dirs[1..], c, v);
    }
  }

  lemma {:induction false} EachAt(dirs: seq<CString>, c: nat, i: nat)
    requires i < |dirs|
    ensures Each(dirs[i..], c) == [Variant(dirs[i], c)] + Each(dirs[i + 1..], c)
  {
    assert dirs[i..][1..] == dirs[i + 1..];
  }

  lemma {:induction false} BelowMember(dirs: seq<CString>, mask: nat, n: nat, v: Variant)
    ensures v in Below(dirs, mask, n) <==> v.mask < n && Allowed(v.mask, mask) && v.dir in dirs
  {
    if n > 0 {
      BelowMember(dirs, mask, n - 1, v);
      EachMember(dirs, n - 1, v);
    }
  }

  /** One round of the loop moves the variants for one mask from what is left to what is done. */
  lemma BelowStep(dirs: seq<CString>, mask: nat, cnt: nat, done: seq<Variant>)
    ensures |Each(dirs, cnt)| == |dirs|
    ensures done + Below(dirs, mask, cnt + 1) ==
            (if Allowed(cnt, mask) then done + Each(dirs, cnt) else done) + Below(dirs, mask, cnt)
  {
    EachMember(dirs, cnt, Variant([], 0));
    Regroup(done, Each(dirs, cnt), Below(dirs, mask, cnt));
    BelowUnfold(dirs, mask, cnt);
  }

  lemma BelowUnfold(dirs: seq<CString>, mask: nat, cnt: nat)
    ensures Below(dirs, mask, cnt + 1) ==
            if Allowed(cnt, mask) then Each(dirs, cnt) + Below(dirs, mask, cnt) else Below(dirs, mask, cnt)
  {
  }

  /** Exactly which variants are tried. */
  lemma WantedMember(dirs: seq<CString>, mask: nat, v: Variant)
    ensures v in Wanted(dirs, mask) <==>
            Allowed(v.mask, mask) && v.dir in dirs && (v.mask < mask || |dirs| != 1)
  {
    BelowMember(dirs, mask, Bound(dirs, mask), v);
    if Submask(v.mask, mask) {
      SubmaskAtMost(v.mask, mask);
    }
  }

  /** The variants of a variant are variants of the whole. */
  lemma WantedTransitive(dirs: seq<CString>, mask: nat, v: Variant, w: Variant)
    requires v in Wanted(dirs, mask) && w in Wanted([v.dir], v.mask)
    ensures w in Wanted(dirs, mask)
  {
    WantedMember(dirs, mask, v);
    WantedMember([v.dir], v.mask, w);
    WantedMember(dirs, mask, w);
    SubmaskTransitive(w.mask, v.mask, mask);
    SubmaskAtMost(v.mask, mask);
  }

  lemma Distribute(a: nat, b: nat)
    ensures a * (b + 1) == a * b + a
  {
  }

  lemma {:induction false} BelowSize(dirs: seq<CString>, mask: nat, n: nat)
    ensures |Below(dirs, mask, n)| <= |dirs| * CountBelow(mask, n)
  {
    if n > 0 {
      BelowSize(dirs, mask, n - 1);
      EachMember(dirs, n - 1, Variant([], 0));
      Distribute(|dirs|, CountBelow(mask, n - 1));
    }
  }

  /** The variants, with a NULL after them, fit the successor array that is allocated. */
  lemma WantedFits(dirs: seq<CString>, mask: nat)
    requires mask < 0x10000
    ensures |Wanted(dirs, mask)| < 1 + |dirs| * Pow2(Pop(mask))
  {
    PopCounts(mask);
    SubmaskCount(mask);
    BelowSize(dirs, mask, Bound(dirs, mask));
    MulMonotonic(CountBelow(mask, Bound(dirs, mask)), CountBelow(mask, mask + 1), |dirs|);
  }

  lemma {:induction false} EachMask(dirs: seq<CString>, c: nat, i: nat)
    requires i < |Each(dirs, c)|
    ensures Each(dirs, c)[i].mask == c
  {
    if i > 0 {
      EachMask(dirs[1..], c, i - 1);
    }
  }

  lemma {:induction false} BelowBound(dirs: seq<CString>, mask: nat, n: nat, i: nat)
    requires i < |Below(dirs, mask, n)|
    ensures Below(dirs, mask, n)[i].mask < n
  {
    BelowMember(dirs, mask, n, Below(dirs, mask, n)[i]);
  }

  /** Largest masks come first. */
  lemma {:induction false} BelowDescends(dirs: seq<CString>, mask: nat, n: nat, i: nat, j: nat)
    requires i <= j < |Below(dirs, mask, n)|
    ensures Below(dirs, mask, n)[j].mask <= Below(dirs, mask, n)[i].mask
  {
    var c: nat := n - 1;
    var k := if Allowed(c, mask) then |Each(dirs, c)| else 0;
    BelowUnfold(dirs, mask, c);
    if i < k {
      EachMask(dirs, c, i);
      BelowBound(dirs, mask, n, j);
    } else {
      BelowDescends(dirs, mask, c, i - k, j - k);
    }
  }

  /** The search goes from the most specific variant to the least specific one. */
  lemma WantedDescends(dirs: seq<CString>, mask: nat, i: nat, j: nat)
    requires i <= j < |Wanted(dirs, mask)|
    ensures Wanted(dirs, mask)[j].mask <= Wanted(dirs, mask)[i].mask <= mask
  {
    BelowDescends(dirs, mask, Bound(dirs, mask), i, j);
    BelowBound(dirs, mask, Bound(dirs, mask), i);
  }

  lemma ModifierClear(m: nat)
    requires m < 128
    ensures And(m, MODIFIER) == 0 && And(MODIFIER, m) == 0
  {
    assert Pow2(7) == 128;
    AndSplit(7, 0, m, 1, 0);
    AndSplit(7, 1, 0, 0, m);
    AndZero(m);
  }

  lemma ModifierBit(m: nat, b: nat)
    requires m < 128 && b < 128
    ensures And(m + MODIFIER, b) == And(m, b)
  {
    ModifierClear(m);
    ModifierClear(b);
    AndOfSum(m, MODIFIER, b);
  }

  lemma SameFront(m: nat, parts: Parts)
    requires m < 128
    ensures FrontName(m + MODIFIER, parts) == FrontName(m, parts)
  {
    ModifierBit(m, TERRITORY);
    ModifierBit(m, CODESET);
    ModifierBit(m, NORM_CODESET);
  }

  lemma SameLast(m: nat, parts: Parts)
    requires m < 128
    ensures LastPieces(m + MODIFIER, parts) == LastPieces(m, parts)
  {
    ModifierBit(m, SPONSOR + REVISION);
    ModifierBit(m, SPONSOR);
    ModifierBit(m, REVISION);
  }

  lemma SameBack(m: nat, parts: Parts)
    requires m < 128 && Has(m, AUDIENCE)
    ensures BackName(m + MODIFIER, parts) == BackName(m, parts)
  {
    ModifierBit(m, AUDIENCE);
    ModifierBit(m, SPECIAL);
    EitherBit(m);
    EitherBit(m + MODIFIER);
    SameLast(m, parts);
  }

  lemma Halves(m: nat, p: nat)
    ensures (m + 2 * p) / 2 == m / 2 + p && (m + 2 * p) % 2 == m % 2
  {
  }

  lemma {:induction false} LargerIsSubmask(k: nat, m: nat)
    requires m < Pow2(k)
    ensures Submask(m, m + Pow2(k))
  {
    if k > 0 {
      LargerIsSubmask(k - 1, m / 2);
      Halves(m, Pow2(k - 1));
    } else {
      assert m == 0;
    }
  }

  /**
   * With a modifier the mask holds the bits of both syntaxes. Without the XPG bit the
   * name is the same, so that an entry is one of its own successors exactly if it has no codeset.
   */
  lemma OwnSuccessor(d: CString, m: nat, parts: Parts, file: CString)
    requires m < 128 && Has(m, AUDIENCE)
    ensures FileName([d], m + MODIFIER, parts, file) == FileName([d], m, parts, file)
    ensures Variant(d, m) in Wanted([d], m + MODIFIER) <==> !Has(m, CODESET) && !Has(m, NORM_CODESET)
  {
    SameFront(m, parts);
    SameBack(m, parts);
    BothSyntaxes(m);
    assert Pow2(7) == 128;
    LargerIsSubmask(7, m);
    WantedMember([d], m + MODIFIER, Variant(d, m));
  }

  lemma AudienceApart()
    ensures And(REVISION + SPONSOR + SPECIAL, AUDIENCE) == 0
  {
    assert Pow2(3) == 8;
    AndSplit(3, 0, REVISION + SPONSOR + SPECIAL, 8, 0);
    AndZero(REVISION + SPONSOR + SPECIAL);
  }

  lemma BothSyntaxes(m: nat)
    requires m < 128 && Has(m, AUDIENCE)
    ensures Has(m, CEN_SPECIFIC)
    ensures Has(m, XPG_SPECIFIC) <==> Has(m, CODESET) || Has(m, NORM_CODESET)
  {
    AudienceApart();
    HasEither(m, REVISION + SPONSOR + SPECIAL, AUDIENCE);
    ModifierClear(CODESET + NORM_CODESET);
    HasEither(m, CODESET + NORM_CODESET, MODIFIER);
    HasEither(m, CODESET, NORM_CODESET);
    ModifierClear(m);
  }
}
