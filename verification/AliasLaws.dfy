/** What alias files mean, by the lines and the directories that they are written from. */
module AliasLaws {
  import opened AliasFile
  import opened CharClasses
  import opened CStrings
  import opened LocaleAlias
  import opened Options
  import opened Sequences
  import opened TextFile

  // ----- Lines -----

  /** A line as it is written: a definition with blanks around it, or a comment. */
  datatype Line =
    | Entry(before: Bytes, d: Definition, between: Bytes, after: Bytes)
    | Comment(before: Bytes, text: Bytes)

  predicate Blanks(s: Bytes) {
    forall c | c in s :: IsSpace(c) && c != NEWLINE
  }

  /** What may be written on a line. Comments may be longer than the buffer, definitions may not. */
  predicate Writable(x: Line, size: nat) {
    match x
    case Entry(before, d, between, after) =>
      && Plain(d.name) && d.name[0] != HASH && Plain(d.value)
      && Blanks(before) && Blanks(between) && between != []
      && NEWLINE !in after && (after == [] || IsSpace(after[0]))
      && |Written(x)| < size
    case Comment(before, text) => Blanks(before) && NEWLINE !in text && |before| + 1 < size
  }

  /** The line without its newline. */
  function Body(x: Line): Bytes {
    match x
    case Entry(before, d, between, after) => before + d.name + between + d.value + after
    case Comment(before, text) => before + [HASH] + text
  }

  function Written(x: Line): Bytes {
    Body(x) + [NEWLINE]
  }

  function FileText(lines: seq<Line>): Bytes {
    if lines == [] then [] else Written(lines[0]) + FileText(lines[1..])
  }

  function OnLine(x: Line): seq<Definition> {
    if x.Entry? then [x.d] else []
  }

  /** The definitions that were written, in order. */
  function Meant(lines: seq<Line>): seq<Definition> {
    if lines == [] then []
    else OnLine(lines[0]) + Meant(lines[1..])
  }

  lemma {:induction false} LineEndAt(text: Bytes, pos: nat, e: nat)
    requires pos < e <= |text|
    requires forall k :: pos <= k < e - 1 ==> text[k] != NEWLINE
    requires e == |text| || text[e - 1] == NEWLINE
    ensures LineEnd(text, pos) == e
    decreases e - pos
  {
    if pos + 1 < e {
      LineEndAt(text, pos + 1, e);
    }
  }

  lemma BodyBytes(x: Line, size: nat)
    requires Writable(x, size)
    ensures NEWLINE !in Body(x)
  {
    if x.Entry? {
      assert IsSpace(NEWLINE);
    }
  }

  /** The line is written at `pos`. */
  predicate StandsAt(text: Bytes, pos: nat, x: Line) {
    pos + |Written(x)| <= |text| && text[pos..pos + |Written(x)|] == Written(x)
  }

  lemma LineEndWritten(text: Bytes, pos: nat, x: Line, size: nat)
    requires Writable(x, size) && StandsAt(text, pos, x)
    ensures LineEnd(text, pos) == pos + |Written(x)|
  {
    var w := Written(x);
    var e := pos + |w|;
    BodyBytes(x, size);
    forall k | pos <= k < e - 1 ensures text[k] != NEWLINE {
      assert text[k] == text[pos..e][k - pos] == Body(x)[k - pos] && Body(x)[k - pos] in Body(x);
    }
    assert text[e - 1] == text[pos..e][|w| - 1] == NEWLINE;
    LineEndAt(text, pos, e);
  }

  lemma CommentIsNone(before: Bytes, more: Bytes)
    requires forall c | c in before :: IsSpace(c)
    ensures LineDefinition(before + [HASH] + more) == None
  {
    var s := before + [HASH] + more;
    forall k | 0 <= k < |before| ensures IsSpace(s[k]) {
      assert s[k] == before[k] && before[k] in before;
    }
    BlanksAre(s, 0, |before|);
  }

  lemma CommentIsRead(text: Bytes, pos: nat, x: Line, size: nat)
    requires x.Comment? && Writable(x, size) && StandsAt(text, pos, x)
    ensures LineDefinition(Chunk(text, pos, size)) == None
  {
    LineEndWritten(text, pos, x, size);
    var w := Written(x);
    var chunk := Chunk(text, pos, size);
    var i := |x.before| + 1;
    assert chunk == text[pos..pos + |w|][..|chunk|] == w[..|chunk|];
    assert chunk == x.before + [HASH] + chunk[i..];
    CommentIsNone(x.before, chunk[i..]);
  }

  lemma ChunkIsLine(text: Bytes, pos: nat, x: Line, size: nat)
    requires Writable(x, size) && StandsAt(text, pos, x) && |Written(x)| < size
    ensures Chunk(text, pos, size) == Written(x)
  {
    LineEndWritten(text, pos, x, size);
  }

  lemma EntryIsRead(x: Line, size: nat)
    requires x.Entry? && Writable(x, size)
    ensures LineDefinition(Written(x)) == Some(x.d)
  {
    Regroup(x.before + x.d.name + x.between + x.d.value, x.after, [NEWLINE]);
    WrittenIsRead(x.before, x.d, x.between, x.after + [NEWLINE]);
  }

  /** The definition of an entry that fits the buffer is read from its line, and none from a comment. */
  lemma LineIsRead(text: Bytes, pos: nat, x: Line, size: nat)
    requires Writable(x, size) && StandsAt(text, pos, x)
    ensures LineDefinition(Chunk(text, pos, size)) == if x.Entry? then Some(x.d) else None
  {
    if x.Entry? {
      ChunkIsLine(text, pos, x, size);
      EntryIsRead(x, size);
    } else {
      CommentIsRead(text, pos, x, size);
    }
  }

  lemma OneLine(text: Bytes, pos: nat, size: nat, e: nat, d: Option<Definition>)
    requires pos < |text| && size > 0 && LineEnd(text, pos) == e && LineDefinition(Chunk(text, pos, size)) == d
    ensures e <= |text| && Definitions(text, pos, size) == AsList(d) + Definitions(text, e, size)
  {
  }

  /** What is read from each place on. */
  ghost predicate Reads(text: Bytes, size: nat, defs: nat -> seq<Definition>)
    requires size > 0
  {
    forall p: nat {:trigger Definitions(text, p, size)} :: p <= |text| ==> defs(p) == Definitions(text, p, size)
  }

  lemma LineMeans(text: Bytes, pos: nat, x: Line, size: nat, e: nat, defs: nat -> seq<Definition>)
    requires Writable(x, size) && StandsAt(text, pos, x) && e == pos + |Written(x)|
    requires size > 0 && Reads(text, size, defs)
    ensures defs(pos) == OnLine(x) + defs(e)
  {
    LineIsRead(text, pos, x, size);
    LineEndWritten(text, pos, x, size);
    OneLine(text, pos, size, e, if x.Entry? then Some(x.d) else None);
  }

  lemma SliceParts(s: Bytes, p: nat, q: nat, a: Bytes, b: Bytes)
    requires p <= q <= |s| && s[p..q] == a + b
    ensures p + |a| <= q && s[p..p + |a|] == a && s[p + |a|..q] == b
  {
    assert s[p..p + |a|] == s[p..q][..|a|];
    assert s[p + |a|..q] == s[p..q][|a|..];
  }

  /** What is read from each of these lines, wherever it stands, comes before what is read from its end on. */
  ghost predicate ReadInOrder(text: Bytes, lines: seq<Line>, defs: nat -> seq<Definition>) {
    forall p: nat, x {:trigger StandsAt(text, p, x)} :: x in lines && StandsAt(text, p, x) ==>
      defs(p) == OnLine(x) + defs(p + |Written(x)|)
  }

  lemma FirstStands(text: Bytes, pos: nat, stop: nat, x: Line, w: Bytes, more: Bytes)
    requires pos <= stop <= |text| && text[pos..stop] == w + more && w == Written(x)
    ensures StandsAt(text, pos, x) && pos + |w| <= stop && text[pos + |w|..stop] == more
  {
    SliceParts(text, pos, stop, w, more);
  }

  lemma {:induction false} InOrder(text: Bytes, pos: nat, lines: seq<Line>, stop: nat, defs: nat -> seq<Definition>)
    requires pos <= stop <= |text| && text[pos..stop] == FileText(lines) && ReadInOrder(text, lines, defs)
    ensures defs(pos) == Meant(lines) + defs(stop)
    decreases |lines|
  {
    if lines != [] {
      var x, w := lines[0], Written(lines[0]);
      FirstStands(text, pos, stop, x, w, FileText(lines[1..]));
      InOrder(text, pos + |w|, lines[1..], stop, defs);
      assert defs(pos) == OnLine(x) + (Meant(lines[1..]) + defs(stop));
      Regroup(OnLine(x), Meant(lines[1..]), defs(stop));
    }
  }

  predicate AllWritable(lines: seq<Line>, size: nat) {
    forall x | x in lines :: Writable(x, size)
  }

  lemma AreReadInOrder(text: Bytes, lines: seq<Line>, size: nat, defs: nat -> seq<Definition>)
    requires size > 0 && AllWritable(lines, size) && Reads(text, size, defs)
    ensures ReadInOrder(text, lines, defs)
  {
    forall p: nat, x | x in lines && StandsAt(text, p, x)
      ensures defs(p) == OnLine(x) + defs(p + |Written(x)|)
    {
      LineMeans(text, p, x, size, p + |Written(x)|, defs);
    }
  }

  /** Lines that are written anywhere in a file mean what was written on them, in order. */
  lemma LinesMean(text: Bytes, pos: nat, lines: seq<Line>, stop: nat, size: nat)
    requires pos <= stop <= |text| && text[pos..stop] == FileText(lines)
    requires size > 0 && AllWritable(lines, size)
    ensures Definitions(text, pos, size) == Meant(lines) + Definitions(text, stop, size)
  {
    var defs := (p: nat) => if p <= |text| then Definitions(text, p, size) else [];
    AreReadInOrder(text, lines, size, defs);
    InOrder(text, pos, lines, stop, defs);
  }

  /** A file of written lines has exactly the definitions on them. */
  lemma FileMeans(lines: seq<Line>, size: nat)
    requires size > 0 && AllWritable(lines, size)
    ensures Definitions(FileText(lines), 0, size) == Meant(lines)
  {
    var text := FileText(lines);
    assert text[0..|text|] == text;
    LinesMean(text, 0, lines, |text|, size);
    assert Meant(lines) + [] == Meant(lines);
  }

  // ----- Names -----

  /** The same byte, or the same letter in the other case. */
  predicate SameLetter(a: int, b: int) {
    a == b || (65 <= a <= 90 && b == a + 32) || (65 <= b <= 90 && a == b + 32)
  }

  lemma {:induction false} LowerAt(s: Bytes, i: nat)
    requires i < |s|
    ensures |Lower(s)| == |s| && Lower(s)[i] == ToLower(s[i])
  {
    if |s| > 1 {
      LowerAt(s[1..], if i > 0 then i - 1 else 0);
    }
  }

  lemma {:induction false} LowerLength(s: Bytes)
    ensures |Lower(s)| == |s|
  {
    if s != [] {
      LowerLength(s[1..]);
    }
  }

  lemma SameLetterExactly(a: int, b: int)
    ensures SameLetter(a, b) <==> ToLower(a) == ToLower(b)
  {
  }

  /** Names are compared without regard to the case of letters, and of nothing else. */
  lemma SameNameExactly(a: Bytes, b: Bytes)
    ensures SameName(a, b) <==> |a| == |b| && forall i :: 0 <= i < |a| ==> SameLetter(a[i], b[i])
  {
    LowerLength(a);
    LowerLength(b);
    if |a| == |b| {
      forall i | 0 <= i < |a| ensures SameLetter(a[i], b[i]) <==> Lower(a)[i] == Lower(b)[i] {
        LowerAt(a, i);
        LowerAt(b, i);
        SameLetterExactly(a[i], b[i]);
      }
      assert SameName(a, b) <==> forall i :: 0 <= i < |a| ==> Lower(a)[i] == Lower(b)[i];
    }
  }

  // ----- Directories -----

  function Joined(dirs: seq<Bytes>): Bytes {
    if dirs == [] then []
    else if |dirs| == 1 then dirs[0]
    else dirs[0] + [PATH_SEPARATOR] + Joined(dirs[1..])
  }

  /** What the files of the directories say, in order. An empty place on the path names no directory. */
  function InEach(file: Bytes -> seq<Definition>, dirs: seq<Bytes>): seq<Definition> {
    if dirs == [] then []
    else (if dirs[0] == [] then [] else file(dirs[0])) + InEach(file, dirs[1..])
  }

  lemma {:induction false} SegmentEndAt(path: Bytes, pos: nat, e: nat)
    requires pos <= e <= |path| && (e == |path| || path[e] == PATH_SEPARATOR)
    requires forall k :: pos <= k < e ==> path[k] != PATH_SEPARATOR
    ensures SegmentEnd(path, pos) == e
    decreases e - pos
  {
    if pos < e {
      SegmentEndAt(path, pos + 1, e);
    }
  }

  lemma DirectoryEnd(path: Bytes, pos: nat, dir: Bytes)
    requires PATH_SEPARATOR !in dir && pos + |dir| <= |path| && path[pos..pos + |dir|] == dir
    requires pos + |dir| == |path| || path[pos + |dir|] == PATH_SEPARATOR
    ensures SegmentEnd(path, pos) == pos + |dir|
  {
    var e := pos + |dir|;
    forall k | pos <= k < e ensures path[k] != PATH_SEPARATOR {
      assert path[k] == path[pos..e][k - pos] && dir[k - pos] in dir;
    }
    SegmentEndAt(path, pos, e);
  }

  /** What a file says, and what is found from each place on the path on. */
  ghost predicate Finds(open: Bytes -> Option<CString>, path: Bytes, size: nat, file: Bytes -> seq<Definition>,
      defs: nat -> seq<Definition>)
    requires size > 0
  {
    && (forall d {:trigger FileDefinitions(open, d, size)} :: file(d) == FileDefinitions(open, d, size))
    && (forall p: nat {:trigger PathDefinitions(open, path, p, size)} :: p <= |path| ==>
          defs(p) == PathDefinitions(open, path, p, size))
  }

  /** `dir` is what stands between two separators, or the ends of the path. */
  predicate NamedAt(path: Bytes, pos: nat, dir: Bytes) {
    && pos + |dir| <= |path| && path[pos..pos + |dir|] == dir
    && (pos + |dir| == |path| || path[pos + |dir|] == PATH_SEPARATOR)
  }

  lemma OneDirectory(open: Bytes -> Option<CString>, path: Bytes, pos: nat, size: nat, e: nat, dir: Bytes,
      file: Bytes -> seq<Definition>, defs: nat -> seq<Definition>)
    requires pos < |path| && path[pos] != PATH_SEPARATOR && SegmentEnd(path, pos) == e && path[pos..e] == dir
    requires size > 0 && Finds(open, path, size, file, defs)
    ensures defs(pos) == file(dir) + defs(e)
  {
    assert PathDefinitions(open, path, pos, size) ==
           FileDefinitions(open, dir, size) + PathDefinitions(open, path, e, size);
  }

  lemma DirectoryBegins(path: Bytes, pos: nat, dir: Bytes)
    requires PATH_SEPARATOR !in dir && NamedAt(path, pos, dir) && dir != []
    ensures pos < |path| && path[pos] != PATH_SEPARATOR && SegmentEnd(path, pos) == pos + |dir|
  {
    DirectoryEnd(path, pos, dir);
    assert path[pos] == path[pos..pos + |dir|][0] && dir[0] in dir;
  }

  lemma DirectoryAt(open: Bytes -> Option<CString>, path: Bytes, pos: nat, dir: Bytes, size: nat,
      file: Bytes -> seq<Definition>, defs: nat -> seq<Definition>)
    requires PATH_SEPARATOR !in dir && NamedAt(path, pos, dir) && dir != []
    requires size > 0 && Finds(open, path, size, file, defs)
    ensures defs(pos) == file(dir) + defs(pos + |dir|)
  {
    DirectoryBegins(path, pos, dir);
    OneDirectory(open, path, pos, size, pos + |dir|, dir, file, defs);
  }

  lemma SeparatorAt(open: Bytes -> Option<CString>, path: Bytes, pos: nat, size: nat,
      file: Bytes -> seq<Definition>, defs: nat -> seq<Definition>)
    requires pos < |path| && path[pos] == PATH_SEPARATOR
    requires size > 0 && Finds(open, path, size, file, defs)
    ensures defs(pos) == defs(pos + 1)
  {
    assert PathDefinitions(open, path, pos, size) == PathDefinitions(open, path, pos + 1, size);
  }

  lemma PathStops(open: Bytes -> Option<CString>, path: Bytes, size: nat,
      file: Bytes -> seq<Definition>, defs: nat -> seq<Definition>)
    requires size > 0 && Finds(open, path, size, file, defs)
    ensures defs(|path|) == []
  {
    assert PathDefinitions(open, path, |path|, size) == [];
  }

  predicate AllNames(dirs: seq<Bytes>) {
    forall d | d in dirs :: PATH_SEPARATOR !in d
  }

  /** Each directory, wherever it is named, comes before what is named behind it. */
  ghost predicate NamedInOrder(path: Bytes, file: Bytes -> seq<Definition>, defs: nat -> seq<Definition>) {
    && defs(|path|) == []
    && (forall p: nat {:trigger path[p]} :: p < |path| && path[p] == PATH_SEPARATOR ==> defs(p) == defs(p + 1))
    && (forall p: nat, dir {:trigger NamedAt(path, p, dir)} ::
          PATH_SEPARATOR !in dir && dir != [] && NamedAt(path, p, dir) ==> defs(p) == file(dir) + defs(p + |dir|))
  }

  lemma AreNamedInOrder(open: Bytes -> Option<CString>, path: Bytes, size: nat,
      file: Bytes -> seq<Definition>, defs: nat -> seq<Definition>)
    requires size > 0 && Finds(open, path, size, file, defs)
    ensures NamedInOrder(path, file, defs)
  {
    PathStops(open, path, size, file, defs);
    forall p: nat | p < |path| && path[p] == PATH_SEPARATOR ensures defs(p) == defs(p + 1) {
      SeparatorAt(open, path, p, size, file, defs);
    }
    forall p: nat, dir | PATH_SEPARATOR !in dir && dir != [] && NamedAt(path, p, dir)
      ensures defs(p) == file(dir) + defs(p + |dir|)
    {
      DirectoryAt(open, path, p, dir, size, file, defs);
    }
  }

  lemma FirstName(path: Bytes, pos: nat, dir: Bytes, more: Bytes)
    requires pos <= |path| && path[pos..|path|] == dir + [PATH_SEPARATOR] + more
    ensures NamedAt(path, pos, dir)
    ensures var e := pos + |dir|; e < |path| && path[e] == PATH_SEPARATOR && path[e + 1..|path|] == more
  {
    SliceParts(path, pos, |path|, dir + [PATH_SEPARATOR], more);
    SliceParts(path, pos, pos + |dir| + 1, dir, [PATH_SEPARATOR]);
    assert path[pos + |dir|] == path[pos + |dir|..pos + |dir| + 1][0];
  }

  lemma {:induction false} InDirectories(path: Bytes, pos: nat, dirs: seq<Bytes>, file: Bytes -> seq<Definition>,
      defs: nat -> seq<Definition>)
    requires pos <= |path| && path[pos..|path|] == Joined(dirs) && AllNames(dirs)
    requires NamedInOrder(path, file, defs)
    ensures defs(pos) == InEach(file, dirs)
    decreases |dirs|
  {
    if |dirs| == 1 {
      assert NamedAt(path, pos, dirs[0]);
    } else if dirs != [] {
      FirstName(path, pos, dirs[0], Joined(dirs[1..]));
      InDirectories(path, pos + |dirs[0]| + 1, dirs[1..], file, defs);
    }
  }

  /** A path has the definitions of each of the directories it was joined from, in order. */
  lemma PathMeans(open: Bytes -> Option<CString>, dirs: seq<Bytes>, size: nat)
    requires size > 0 && AllNames(dirs)
    ensures PathDefinitions(open, Joined(dirs), 0, size) == InEach(d => FileDefinitions(open, d, size), dirs)
  {
    var path := Joined(dirs);
    var file := d => FileDefinitions(open, d, size);
    var defs := (p: nat) => if p <= |path| then PathDefinitions(open, path, p, size) else [];
    assert path[0..|path|] == path;
    AreNamedInOrder(open, path, size, file, defs);
    InDirectories(path, 0, dirs, file, defs);
  }
}
