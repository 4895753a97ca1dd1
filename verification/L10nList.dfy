/** The list of message catalogue files, and how a locale name fills it. */
module L10nList {
  import opened ArgzVector
  import opened BitCount
  import opened Bits
  import opened CStrings
  import opened LocaleFile
  import opened LocaleMarks
  import opened NameBuffer
  import opened Sequences
  import opened Submasks
  import opened Variants

  /** One catalogue file. `successor` is an array that NULL ends. */
  class L10nFile {
    const filename: CString
    var decided: bool
    const successor: array<L10nFile?>

    constructor (filename: CString, decided: bool, size: nat)
      ensures this.filename == filename && this.decided == decided
      ensures fresh(successor) && successor.Length == size
    {
      this.filename := filename;
      this.decided := decided;
      this.successor := new L10nFile?[size](_ => null);
    }
  }

  /** Strictly descending by file name. */
  ghost predicate Descending(files: seq<L10nFile>) {
    forall i, j :: 0 <= i < j < |files| ==> StrCmp(files[i].filename, files[j].filename) > 0
  }

  /** The file name for a variant. */
  ghost function NameOf(v: Variant, parts: Parts, file: CString): CString {
    FileName([v.dir], v.mask, parts, file)
  }

  ghost function NamesOf(vs: seq<Variant>, parts: Parts, file: CString): seq<CString> {
    seq(|vs|, i requires 0 <= i < |vs| => NameOf(vs[i], parts, file))
  }

  lemma NamesOfMore(vs: seq<Variant>, v: Variant, parts: Parts, file: CString)
    ensures NamesOf(vs + [v], parts, file) == NamesOf(vs, parts, file) + [NameOf(v, parts, file)]
  {
  }

  lemma RowStep(dirs: seq<CString>, cnt: nat, i: nat, row: seq<Variant>, parts: Parts, file: CString)
    requires i < |dirs|
    ensures row + [Variant(dirs[i], cnt)] + Each(dirs[i + 1..], cnt) == row + Each(dirs[i..], cnt)
    ensures NamesOf(row + [Variant(dirs[i], cnt)], parts, file) ==
            NamesOf(row, parts, file) + [NameOf(Variant(dirs[i], cnt), parts, file)]
  {
    EachAt(dirs, cnt, i);
    Regroup(row, [Variant(dirs[i], cnt)], Each(dirs[i + 1..], cnt));
    NamesOfMore(row, Variant(dirs[i], cnt), parts, file);
  }

  /** The first successors are the entries of the list with these names. */
  ghost predicate Follows(f: L10nFile, files: seq<L10nFile>, names: seq<CString>)
    reads f.successor
  {
    && |names| <= f.successor.Length
    && forall k :: 0 <= k < |names| ==>
         f.successor[k] != null && f.successor[k].filename == names[k] && f.successor[k] in files
  }

  lemma FollowsGrows(f: L10nFile, files: seq<L10nFile>, more: seq<L10nFile>, names: seq<CString>)
    requires Follows(f, files, names) && forall g :: g in files ==> g in more
    ensures Follows(f, more, names)
  {
  }

  /** What an entry looks like once it is finished. */
  ghost predicate Built(f: L10nFile, files: seq<L10nFile>, dirs: seq<CString>, mask: nat, parts: Parts,
      file: CString)
    requires dirs != []
    reads f, f.successor
  {
    && f.filename == FileName(dirs, mask, parts, file)
    && f.decided == (|dirs| != 1 || (Has(mask, CODESET) && Has(mask, NORM_CODESET)))
    && Follows(f, files, NamesOf(Wanted(dirs, mask), parts, file))
    && |Wanted(dirs, mask)| < f.successor.Length
    && f.successor[|Wanted(dirs, mask)|] == null
  }

  /** Which entries a call for `dirs` and `mask` may make. */
  predicate Covers(dirs: seq<CString>, mask: nat, ds: seq<CString>, m: nat) {
    || (ds == dirs && m == mask)
    || (|ds| == 1 && Variant(ds[0], m) in Wanted(dirs, mask))
  }

  /** A finished entry that such a call may have made. */
  ghost predicate Made(f: L10nFile, files: seq<L10nFile>, dirs: seq<CString>, mask: nat, parts: Parts,
      file: CString)
    reads f, f.successor
  {
    exists ds, m :: ds != [] && Covers(dirs, mask, ds, m) && Built(f, files, ds, m, parts, file)
  }

  /** All entries but those in `before` are finished. */
  ghost predicate AllMade(files: seq<L10nFile>, before: seq<L10nFile>, dirs: seq<CString>, mask: nat, parts: Parts,
      file: CString)
    reads files, set g | g in files :: g.successor
  {
    forall g {:trigger Made(g, files, dirs, mask, parts, file)} :: g in files && g !in before ==>
      Made(g, files, dirs, mask, parts, file)
  }

  /** The successors of `f` are in no array of the entries that are not in `before`. */
  ghost predicate Apart(files: seq<L10nFile>, before: seq<L10nFile>, f: L10nFile) {
    forall g :: g in files && g !in before ==> g.successor != f.successor
  }

  lemma CoversTransitive(dirs: seq<CString>, mask: nat, v: Variant, ds: seq<CString>, m: nat)
    requires v in Wanted(dirs, mask) && Covers([v.dir], v.mask, ds, m)
    ensures Covers(dirs, mask, ds, m)
  {
    if !(ds == [v.dir] && m == v.mask) {
      WantedTransitive(dirs, mask, v, Variant(ds[0], m));
    }
  }

  /** An entry stays finished as the list grows, and counts as made by the larger call. */
  lemma MadeGrows(f: L10nFile, files: seq<L10nFile>, more: seq<L10nFile>, dirs: seq<CString>, mask: nat,
      v: Variant, parts: Parts, file: CString)
    requires v in Wanted(dirs, mask) && Made(f, files, [v.dir], v.mask, parts, file)
    requires forall g :: g in files ==> g in more
    ensures Made(f, more, dirs, mask, parts, file)
  {
    var ds, m :| ds != [] && Covers([v.dir], v.mask, ds, m) && Built(f, files, ds, m, parts, file);
    CoversTransitive(dirs, mask, v, ds, m);
    assert Built(f, more, ds, m, parts, file);
  }

  lemma MadeStays(f: L10nFile, files: seq<L10nFile>, more: seq<L10nFile>, dirs: seq<CString>, mask: nat,
      parts: Parts, file: CString)
    requires Made(f, files, dirs, mask, parts, file)
    requires forall g :: g in files ==> g in more
    ensures Made(f, more, dirs, mask, parts, file)
  {
    var ds, m :| ds != [] && Covers(dirs, mask, ds, m) && Built(f, files, ds, m, parts, file);
    assert Built(f, more, ds, m, parts, file);
  }

  lemma AllStay(before: seq<L10nFile>, middle: seq<L10nFile>, files: seq<L10nFile>, dirs: seq<CString>,
      mask: nat, parts: Parts, file: CString)
    requires forall g :: g in middle && g !in before ==> Made(g, middle, dirs, mask, parts, file)
    requires forall g :: g in middle ==> g in files
    ensures forall g :: g in middle && g !in before ==> Made(g, files, dirs, mask, parts, file)
  {
    forall g | g in middle && g !in before ensures Made(g, files, dirs, mask, parts, file) {
      MadeStays(g, middle, files, dirs, mask, parts, file);
    }
  }

  lemma AllGrow(before: seq<L10nFile>, files: seq<L10nFile>, dirs: seq<CString>,
      mask: nat, v: Variant, parts: Parts, file: CString)
    requires v in Wanted(dirs, mask)
    requires forall g :: g in files && g !in before ==> Made(g, files, [v.dir], v.mask, parts, file)
    ensures AllMade(files, before, dirs, mask, parts, file)
  {
    forall g | g in files && g !in before ensures Made(g, files, dirs, mask, parts, file) {
      MadeGrows(g, files, files, dirs, mask, v, parts, file);
    }
  }

  lemma NowBuilt(f: L10nFile, files: seq<L10nFile>, dirs: seq<CString>, mask: nat, parts: Parts, file: CString)
    requires dirs != [] && f.filename == FileName(dirs, mask, parts, file)
    requires f.decided == (|dirs| != 1 || (Has(mask, CODESET) && Has(mask, NORM_CODESET)))
    requires Follows(f, files, NamesOf(Wanted(dirs, mask), parts, file))
    requires |Wanted(dirs, mask)| < f.successor.Length && f.successor[|Wanted(dirs, mask)|] == null
    ensures Built(f, files, dirs, mask, parts, file)
    ensures Made(f, files, dirs, mask, parts, file)
  {
    assert Covers(dirs, mask, dirs, mask);
    assert Built(f, files, dirs, mask, parts, file);
  }

  /** Putting a name where the search stopped keeps the list descending. */
  lemma InsertDescends(files: seq<L10nFile>, at: nat, f: L10nFile)
    requires Descending(files) && at <= |files|
    requires forall k :: 0 <= k < at ==> StrCmp(files[k].filename, f.filename) > 0
    requires forall k :: at <= k < |files| ==> StrCmp(files[k].filename, f.filename) < 0
    ensures Descending(files[..at] + [f] + files[at..])
  {
    forall k | at <= k < |files| ensures StrCmp(f.filename, files[k].filename) > 0 {
      StrCmpAntisymmetric(files[k].filename, f.filename);
    }
  }

  method SetSuccessor(f: L10nFile, end: nat, s: L10nFile, ghost files: seq<L10nFile>,
      ghost names: seq<CString>)
    requires end == |names| < f.successor.Length && Follows(f, files, names) && s in files
    modifies f.successor
    ensures Follows(f, files, names + [s.filename])
  {
    f.successor[end] := s;
  }

  /** The NULL behind the successors of `f`; no other entry changes. */
  method EndSuccessors(f: L10nFile, end: nat, ghost files: seq<L10nFile>, ghost names: seq<CString>,
      ghost start: seq<L10nFile>, ghost dirs: seq<CString>, ghost mask: nat, ghost parts: Parts, ghost file: CString)
    requires end == |names| < f.successor.Length && Follows(f, files, names)
    requires Apart(files, start, f) && AllMade(files, start, dirs, mask, parts, file)
    modifies f.successor
    ensures Follows(f, files, names) && f.successor[end] == null
    ensures AllMade(files, start, dirs, mask, parts, file)
  {
    f.successor[end] := null;
  }

  /** A file of this name is in the list. */
  ghost predicate Listed(files: seq<L10nFile>, name: CString) {
    exists f :: f in files && f.filename == name
  }

  lemma VariantListed(files: seq<L10nFile>, f: L10nFile, vs: seq<Variant>, v: Variant, parts: Parts,
      file: CString)
    requires Follows(f, files, NamesOf(vs, parts, file)) && v in vs
    ensures Listed(files, NameOf(v, parts, file))
  {
    var k :| 0 <= k < |vs| && vs[k] == v;
    assert NamesOf(vs, parts, file)[k] == NameOf(v, parts, file);
    assert f.successor[k] in files;
  }

  lemma MadeName(f: L10nFile, files: seq<L10nFile>, dirs: seq<CString>, mask: nat, parts: Parts, file: CString)
    requires dirs != [] && Made(f, files, dirs, mask, parts, file)
    ensures f.filename == FileName(dirs, mask, parts, file)
            || exists v :: v in Wanted(dirs, mask) && f.filename == NameOf(v, parts, file)
  {
    var ds, m :| ds != [] && Covers(dirs, mask, ds, m) && Built(f, files, ds, m, parts, file);
    if !(ds == dirs && m == mask) {
      assert ds == [ds[0]];
      assert f.filename == NameOf(Variant(ds[0], m), parts, file);
    }
  }

  /** Exactly which names a call adds to the list: its own and those of all variants. */
  lemma ListedExactly(before: seq<L10nFile>, files: seq<L10nFile>, retval: L10nFile, dirs: seq<CString>,
      mask: nat, parts: Parts, file: CString, name: CString)
    requires dirs != [] && retval in files && Built(retval, files, dirs, mask, parts, file)
    requires forall g :: g in before ==> g in files
    requires AllMade(files, before, dirs, mask, parts, file)
    ensures Listed(files, name) <==>
            || Listed(before, name)
            || name == FileName(dirs, mask, parts, file)
            || exists v :: v in Wanted(dirs, mask) && name == NameOf(v, parts, file)
  {
    if v :| v in Wanted(dirs, mask) && name == NameOf(v, parts, file) {
      VariantListed(files, retval, Wanted(dirs, mask), v, parts, file);
    }
    if f :| f in files && f.filename == name && f !in before {
      assert Made(f, files, dirs, mask, parts, file);
      MadeName(f, files, dirs, mask, parts, file);
    }
  }

  /** How many successors there is room for. */
  method SuccessorSize(count: nat, mask: nat, ghost dirs: seq<CString>) returns (size: nat)
    requires count == |dirs| && mask < 256
    ensures |Wanted(dirs, mask)| < size
  {
    size := 1 + count * Pow2(Pop(mask));
    WantedFits(dirs, mask);
  }

  class FileList {
    var files: seq<L10nFile>

    constructor ()
      ensures files == []
    {
      files := [];
    }

    /**
     * Looks for a name; without success, `last` entries come before its place.
     */
    method Find(name: CString) returns (retval: L10nFile?, last: nat)
      requires Descending(files)
      ensures last <= |files|
      ensures retval != null ==> retval in files && retval.filename == name
      ensures retval == null ==>
                && (forall k :: 0 <= k < last ==> StrCmp(files[k].filename, name) > 0)
                && (forall k :: last <= k < |files| ==> StrCmp(files[k].filename, name) < 0)
                && forall g :: g in files ==> g.filename != name
    {
      StrCmpEqual(name, name);
      retval, last := null, 0;
      while last < |files|
        invariant last <= |files|
        invariant forall k :: 0 <= k < last ==> StrCmp(files[k].filename, name) > 0
      {
        var compare := StrCmp(files[last].filename, name);
        if compare == 0 {
          StrCmpEqual(files[last].filename, name);
          return files[last], last;
        }
        if compare < 0 {
          forall k | last < k < |files| ensures StrCmp(files[k].filename, name) < 0 {
            StrCmpAntisymmetric(files[k].filename, files[last].filename);
            StrCmpTransitive(files[k].filename, files[last].filename, name);
          }
          return null, last;
        }
        last := last + 1;
      }
    }

    /** The recursive call for one variant. */
    method MakeVariant(one: seq<int>, mask: nat, cnt: nat, parts: Parts, file: CString,
        ghost dirs: seq<CString>, ghost d: CString)
      returns (s: L10nFile)
      requires dirs != [] && one == Argz([d]) && mask < 256
      requires Variant(d, cnt) in Wanted(dirs, mask)
      requires Descending(files)
      modifies this
      decreases |dirs| != 1, mask, 0
      ensures Descending(files)
      ensures forall g :: g in old(files) ==> g in files
      ensures s in files && s.filename == NameOf(Variant(d, cnt), parts, file)
      ensures forall g :: g in files && g !in old(files) ==> fresh(g) && fresh(g.successor)
      ensures AllMade(files, old(files), dirs, mask, parts, file)
    {
      WantedMember(dirs, mask, Variant(d, cnt));
      SubmaskAtMost(cnt, mask);
      s := Make(one, cnt, parts, file, true, [d]);
      AllGrow(old(files), files, dirs, mask, Variant(d, cnt), parts, file);
    }

    /** The entry for one variant, as the next successor. */
    method FillOne(retval: L10nFile, one: seq<int>, mask: nat, cnt: nat, parts: Parts, file: CString,
        end: nat, ghost dirs: seq<CString>, ghost d: CString, ghost names: seq<CString>)
      requires dirs != [] && one == Argz([d]) && mask < 256
      requires Variant(d, cnt) in Wanted(dirs, mask)
      requires Descending(files) && retval in files
      requires end == |names| < retval.successor.Length && Follows(retval, files, names)
      modifies this, retval.successor
      decreases |dirs| != 1, mask, 1
      ensures Descending(files)
      ensures forall g :: g in old(files) ==> g in files
      ensures Follows(retval, files, names + [NameOf(Variant(d, cnt), parts, file)])
      ensures forall g :: g in files && g !in old(files) ==> fresh(g) && fresh(g.successor)
      ensures AllMade(files, old(files), dirs, mask, parts, file)
    {
      var s := MakeVariant(one, mask, cnt, parts, file, dirs, d);
      FollowsGrows(retval, old(files), files, names);
      SetSuccessor(retval, end, s, files, names);
    }

    /** The same, when entries have been added since `start` already. */
    method FillNext(retval: L10nFile, one: seq<int>, mask: nat, cnt: nat, parts: Parts, file: CString,
        end: nat, ghost dirs: seq<CString>, ghost d: CString, ghost names: seq<CString>,
        ghost start: seq<L10nFile>)
      requires dirs != [] && one == Argz([d]) && mask < 256
      requires Variant(d, cnt) in Wanted(dirs, mask)
      requires Descending(files) && retval in files
      requires end == |names| < retval.successor.Length && Follows(retval, files, names)
      requires Apart(files, start, retval)
      requires AllMade(files, start, dirs, mask, parts, file)
      modifies this, retval.successor
      decreases |dirs| != 1, mask, 2
      ensures Descending(files)
      ensures forall g :: g in old(files) ==> g in files
      ensures Follows(retval, files, names + [NameOf(Variant(d, cnt), parts, file)])
      ensures forall g :: g in files && g !in old(files) ==> fresh(g) && fresh(g.successor)
      ensures Apart(files, start, retval)
      ensures AllMade(files, start, dirs, mask, parts, file)
    {
      FillOne(retval, one, mask, cnt, parts, file, end, dirs, d, names);
      AllStay(start, old(files), files, dirs, mask, parts, file);
    }

    /** One round of the inner loop: the entry for `cnt` in the directory at `dir`. */
    method FillStep(retval: L10nFile, dirlist: seq<int>, dir: nat, mask: nat, cnt: nat, parts: Parts, file: CString,
        end: nat, ghost dirs: seq<CString>, ghost i: nat, ghost names: seq<CString>, ghost start: seq<L10nFile>)
      requires dirlist == Argz(dirs) && i < |dirs| && dir == StartOf(dirs, i) && mask < 256
      requires Allowed(cnt, mask) && cnt < Bound(dirs, mask)
      requires Descending(files) && retval in files
      requires end == |names| < retval.successor.Length && Follows(retval, files, names)
      requires Apart(files, start, retval) && AllMade(files, start, dirs, mask, parts, file)
      modifies this, retval.successor
      decreases |dirs| != 1, mask, 3
      ensures Descending(files)
      ensures forall g :: g in old(files) ==> g in files
      ensures Follows(retval, files, names + [NameOf(Variant(dirs[i], cnt), parts, file)])
      ensures forall g :: g in files && g !in old(files) ==> fresh(g) && fresh(g.successor)
      ensures Apart(files, start, retval) && AllMade(files, start, dirs, mask, parts, file)
    {
      WantedMember(dirs, mask, Variant(dirs[i], cnt));
      var one := FirstString(dirlist, dir, dirs, i);
      FillNext(retval, one, mask, cnt, parts, file, end, dirs, dirs[i], names, start);
    }

    /** An entry for `cnt` in every directory. */
    method FillRow(retval: L10nFile, dirlist: seq<int>, mask: nat, cnt: nat, parts: Parts, file: CString,
        entries: nat, ghost dirs: seq<CString>, ghost done: seq<Variant>, ghost start: seq<L10nFile>)
      returns (end: nat)
      requires dirs != [] && dirlist == Argz(dirs) && mask < 256
      requires Allowed(cnt, mask) && cnt < Bound(dirs, mask)
      requires Descending(files) && retval in files
      requires entries == |done| && Follows(retval, files, NamesOf(done, parts, file))
      requires entries + |dirs| < retval.successor.Length
      requires Apart(files, start, retval)
      requires AllMade(files, start, dirs, mask, parts, file)
      modifies this, retval.successor
      decreases |dirs| != 1, mask, 4
      ensures Descending(files)
      ensures forall g :: g in old(files) ==> g in files
      ensures end == entries + |dirs|
      ensures Follows(retval, files, NamesOf(done + Each(dirs, cnt), parts, file))
      ensures forall g :: g in files && g !in old(files) ==> fresh(g) && fresh(g.successor)
      ensures Apart(files, start, retval)
      ensures AllMade(files, start, dirs, mask, parts, file)
    {
      end := entries;
      ghost var i, row, whole := 0, done, done + Each(dirs, cnt);
      var dir := Next(dirlist, -1, dirs, 0);
      assert dirs[0..] == dirs;
      while dir >= 0
        invariant Descending(files) && retval in files
        invariant forall g :: g in old(files) ==> g in files
        invariant i <= |dirs| && (dir >= 0 <==> i < |dirs|)
        invariant i < |dirs| ==> dir == StartOf(dirs, i)
        invariant end == entries + i == |row|
        invariant row + Each(dirs[i..], cnt) == whole
        invariant Follows(retval, files, NamesOf(row, parts, file))
        invariant forall g :: g in files && g !in old(files) ==> fresh(g) && fresh(g.successor)
        invariant Apart(files, start, retval)
        invariant AllMade(files, start, dirs, mask, parts, file)
        decreases |dirs| - i
      {
        RowStep(dirs, cnt, i, row, parts, file);
        FillStep(retval, dirlist, dir, mask, cnt, parts, file, end, dirs, i, NamesOf(row, parts, file), start);
        end := end + 1;
        row := row + [Variant(dirs[i], cnt)];
        i := i + 1;
        dir := Next(dirlist, dir, dirs, i);
      }
    }

    /** One round of the loop: entries for `cnt`, if it is allowed. */
    method FillRound(retval: L10nFile, dirlist: seq<int>, mask: nat, cnt: nat, parts: Parts, file: CString,
        entries: nat, ghost dirs: seq<CString>, ghost done: seq<Variant>, ghost start: seq<L10nFile>)
      returns (end: nat, ghost more: seq<Variant>)
      requires dirs != [] && dirlist == Argz(dirs) && mask < 256
      requires cnt < Bound(dirs, mask)
      requires Descending(files) && retval in files
      requires entries == |done| && Follows(retval, files, NamesOf(done, parts, file))
      requires |done + Below(dirs, mask, cnt + 1)| < retval.successor.Length
      requires Apart(files, start, retval)
      requires AllMade(files, start, dirs, mask, parts, file)
      modifies this, retval.successor
      decreases |dirs| != 1, mask, 5
      ensures Descending(files)
      ensures forall g :: g in old(files) ==> g in files
      ensures end == |more| && Follows(retval, files, NamesOf(more, parts, file))
      ensures more + Below(dirs, mask, cnt) == done + Below(dirs, mask, cnt + 1)
      ensures forall g :: g in files && g !in old(files) ==> fresh(g) && fresh(g.successor)
      ensures Apart(files, start, retval)
      ensures AllMade(files, start, dirs, mask, parts, file)
    {
      end, more := entries, done;
      BelowStep(dirs, mask, cnt, done);
      var allowed := IsAllowed(cnt, mask);
      if allowed {
        end := FillRow(retval, dirlist, mask, cnt, parts, file, entries, dirs, done, start);
        more := done + Each(dirs, cnt);
      }
    }

    /** The loop that fills the successors of a new entry. */
    method Fill(retval: L10nFile, dirlist: seq<int>, mask: nat, parts: Parts, file: CString, count: nat,
        ghost dirs: seq<CString>, ghost start: seq<L10nFile>)
      requires dirs != [] && dirlist == Argz(dirs) && count == |dirs| && mask < 256
      requires Descending(files) && retval in files
      requires |Wanted(dirs, mask)| < retval.successor.Length
      requires forall g :: g in files ==> g in start
      modifies this, retval.successor
      decreases |dirs| != 1, mask, 6
      ensures Descending(files)
      ensures forall g :: g in old(files) ==> g in files
      ensures Follows(retval, files, NamesOf(Wanted(dirs, mask), parts, file))
      ensures retval.successor[|Wanted(dirs, mask)|] == null
      ensures forall g :: g in files && g !in old(files) ==> fresh(g) && fresh(g.successor)
      ensures Apart(files, start, retval)
      ensures AllMade(files, start, dirs, mask, parts, file)
    {
      var entries, cnt := 0, if count == 1 then mask - 1 else mask;
      ghost var done, whole := [], Wanted(dirs, mask);
      while cnt >= 0
        invariant -1 <= cnt < Bound(dirs, mask)
        invariant Descending(files) && retval in files
        invariant forall g :: g in old(files) ==> g in files
        invariant entries == |done| && done + Below(dirs, mask, cnt + 1) == whole
        invariant Follows(retval, files, NamesOf(done, parts, file))
        invariant forall g :: g in files && g !in old(files) ==> fresh(g) && fresh(g.successor)
        invariant Apart(files, start, retval)
        invariant AllMade(files, start, dirs, mask, parts, file)
        decreases cnt
      {
        entries, done := FillRound(retval, dirlist, mask, cnt, parts, file, entries, dirs, done, start);
        cnt := cnt - 1;
      }
      assert Below(dirs, mask, 0) == [] && done + [] == done;
      EndSuccessors(retval, entries, files, NamesOf(done, parts, file), start, dirs, mask, parts, file);
    }

    /** Splices a new entry into the list where the search stopped. */
    method Enter(absFilename: CString, decided: bool, size: nat, last: nat) returns (retval: L10nFile)
      requires Descending(files) && last <= |files|
      requires forall k :: 0 <= k < last ==> StrCmp(files[k].filename, absFilename) > 0
      requires forall k :: last <= k < |files| ==> StrCmp(files[k].filename, absFilename) < 0
      modifies this
      ensures fresh(retval) && fresh(retval.successor) && retval.successor.Length == size
      ensures retval.filename == absFilename && retval.decided == decided
      ensures files == old(files[..last]) + [retval] + old(files[last..])
      ensures Descending(files) && retval in files
      ensures forall g :: g in files <==> g in old(files) || g == retval
    {
      retval := new L10nFile(absFilename, decided, size);
      InsertDescends(files, last, retval);
      files := files[..last] + [retval] + files[last..];
    }

    /** Finishes a new entry: every entry that is not in `start` is finished then. */
    method Complete(retval: L10nFile, dirlist: seq<int>, mask: nat, parts: Parts, file: CString, count: nat,
        ghost dirs: seq<CString>, ghost start: seq<L10nFile>)
      requires dirs != [] && dirlist == Argz(dirs) && count == |dirs| && mask < 256
      requires Descending(files) && retval in files
      requires |Wanted(dirs, mask)| < retval.successor.Length
      requires retval.filename == FileName(dirs, mask, parts, file)
      requires retval.decided == (|dirs| != 1 || (Has(mask, CODESET) && Has(mask, NORM_CODESET)))
      requires forall g :: g in files ==> g in start || g == retval
      modifies this, retval.successor
      decreases |dirs| != 1, mask, 7
      ensures Descending(files)
      ensures forall g :: g in old(files) ==> g in files
      ensures Built(retval, files, dirs, mask, parts, file)
      ensures forall g :: g in files && g !in old(files) ==> fresh(g) && fresh(g.successor)
      ensures AllMade(files, start, dirs, mask, parts, file)
    {
      Fill(retval, dirlist, mask, parts, file, count, dirs, start + [retval]);
      NowBuilt(retval, files, dirs, mask, parts, file);
    }

    /** The entry for a name that is not in the list. */
    method MakeNew(absFilename: CString, last: nat, dirlist: seq<int>, mask: nat, parts: Parts, file: CString,
        ghost dirs: seq<CString>)
      returns (retval: L10nFile)
      requires dirs != [] && dirlist == Argz(dirs) && mask < 256
      requires absFilename == FileName(dirs, mask, parts, file)
      requires Descending(files) && last <= |files|
      requires forall k :: 0 <= k < last ==> StrCmp(files[k].filename, absFilename) > 0
      requires forall k :: last <= k < |files| ==> StrCmp(files[k].filename, absFilename) < 0
      modifies this
      decreases |dirs| != 1, mask, 8
      ensures Descending(files)
      ensures forall g :: g in old(files) ==> g in files
      ensures retval in files && retval !in old(files) && Built(retval, files, dirs, mask, parts, file)
      ensures forall g :: g in files && g !in old(files) ==> fresh(g) && fresh(g.successor)
      ensures AllMade(files, old(files), dirs, mask, parts, file)
    {
      var count := Count(dirlist, dirs);
      var decided := count != 1 || (Has(mask, CODESET) && Has(mask, NORM_CODESET));
      var size := SuccessorSize(count, mask, dirs);
      retval := Enter(absFilename, decided, size, last);
      Complete(retval, dirlist, mask, parts, file, count, dirs, old(files));
    }

    /** `_nl_make_l10nflist`. */
    method Make(dirlist: seq<int>, mask: nat, parts: Parts, file: CString, doAllocate: bool,
        ghost dirs: seq<CString>)
      returns (retval: L10nFile?)
      requires dirs != [] && dirlist == Argz(dirs) && mask < 256
      requires Descending(files)
      modifies this
      decreases |dirs| != 1, mask, 9
      ensures Descending(files)
      ensures forall g :: g in old(files) ==> g in files
      ensures retval != null ==> retval in files && retval.filename == FileName(dirs, mask, parts, file)
      ensures retval == null <==>
              !doAllocate && forall g :: g in old(files) ==> g.filename != FileName(dirs, mask, parts, file)
      ensures !doAllocate || (retval != null && retval in old(files)) ==> files == old(files)
      ensures retval != null && retval !in old(files) ==> Built(retval, files, dirs, mask, parts, file)
      ensures forall g :: g in files && g !in old(files) ==> fresh(g) && fresh(g.successor)
      ensures AllMade(files, old(files), dirs, mask, parts, file)
    {
      var absFilename := BuildName(dirlist, mask, parts, file, dirs);
      var last;
      retval, last := Find(absFilename);
      if retval == null && doAllocate {
        retval := MakeNew(absFilename, last, dirlist, mask, parts, file, dirs);
      }
    }
  }
}
