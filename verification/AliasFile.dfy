/** The text of alias files, and the definitions in it. */
module AliasFile {
  import opened CStrings
  import opened CharClasses
  import opened Options
  import opened TextFile

  datatype Definition = Definition(name: Bytes, value: Bytes)

  const HASH := 35

  /** `isspace` in the C locale. */
  predicate IsSpace(c: int) {
    c == 32 || 9 <= c <= 13
  }

  /** The first byte from `p` on that is no blank. */
  function BlanksEnd(s: Bytes, p: nat): (e: nat)
    requires p <= |s|
    ensures p <= e <= |s|
    decreases |s| - p
  {
    if p == |s| || !IsSpace(s[p]) then p else BlanksEnd(s, p + 1)
  }

  /** The first byte from `p` on that is a blank. */
  function WordEnd(s: Bytes, p: nat): (e: nat)
    requires p <= |s|
    ensures p <= e <= |s|
    decreases |s| - p
  {
    if p == |s| || IsSpace(s[p]) then p else WordEnd(s, p + 1)
  }

  /** The definition on a line, if there is one: the first two words, unless it is a comment. */
  function LineDefinition(line: Bytes): Option<Definition> {
    var name := BlanksEnd(line, 0);
    var end := WordEnd(line, name);
    var value := BlanksEnd(line, end);
    if name == |line| || line[name] == HASH || value == |line| then None
    else Some(Definition(line[name..end], line[value..WordEnd(line, value)]))
  }

  /** What a buffer of `size` bytes gets of that line. */
  function Chunk(text: Bytes, pos: nat, size: nat): Bytes
    requires pos <= |text| && size > 0
  {
    text[pos..ChunkEnd(text, pos, size)]
  }

  /** The definitions from `pos` on. What does not fit the buffer is ignored, line by line. */
  function Definitions(text: Bytes, pos: nat, size: nat): seq<Definition>
    requires pos <= |text| && size > 0
    decreases |text| - pos
  {
    if pos == |text| then []
    else AsList(LineDefinition(Chunk(text, pos, size))) + Definitions(text, LineEnd(text, pos), size)
  }

  function AsList(d: Option<Definition>): seq<Definition> {
    match d
    case None => []
    case Some(x) => [x]
  }

  function Lower(s: Bytes): Bytes {
    if s == [] then [] else [ToLower(s[0])] + Lower(s[1..])
  }

  /** `strcasecmp`, up to the size of the result. */
  function CompareNames(a: Bytes, b: Bytes): int {
    StrCmp(Lower(a), Lower(b))
  }

  predicate SameName(a: Bytes, b: Bytes) {
    Lower(a) == Lower(b)
  }

  lemma {:induction false} WordIs(s: Bytes, p: nat, e: nat)
    requires p <= e <= |s| && (e == |s| || IsSpace(s[e]))
    requires forall k :: p <= k < e ==> !IsSpace(s[k])
    ensures WordEnd(s, p) == e
    decreases e - p
  {
    if p < e {
      WordIs(s, p + 1, e);
    }
  }

  lemma {:induction false} BlanksAre(s: Bytes, p: nat, e: nat)
    requires p <= e <= |s| && (e == |s| || !IsSpace(s[e]))
    requires forall k :: p <= k < e ==> IsSpace(s[k])
    ensures BlanksEnd(s, p) == e
    decreases e - p
  {
    if p < e {
      BlanksAre(s, p + 1, e);
    }
  }

  lemma {:induction false} WordBytes(s: Bytes, p: nat)
    requires p <= |s|
    ensures forall k :: p <= k < WordEnd(s, p) ==> !IsSpace(s[k])
    decreases |s| - p
  {
    if p < |s| && !IsSpace(s[p]) {
      WordBytes(s, p + 1);
    }
  }

  lemma {:induction false} AfterBlanks(s: Bytes, p: nat)
    requires p <= |s|
    ensures BlanksEnd(s, p) < |s| ==> !IsSpace(s[BlanksEnd(s, p)])
    decreases |s| - p
  {
    if p < |s| && IsSpace(s[p]) {
      AfterBlanks(s, p + 1);
    }
  }

  /** Names and values are nonempty and hold neither blanks nor NULs. */
  predicate Plain(s: Bytes) {
    s != [] && forall c | c in s :: !IsSpace(c) && c != 0
  }

  lemma WordIsPlain(s: CString, p: nat)
    requires p < |s| && !IsSpace(s[p])
    ensures Plain(s[p..WordEnd(s, p)])
  {
    WordBytes(s, p);
    assert forall k :: p <= k < WordEnd(s, p) ==> s[k] in s;
  }

  lemma LineIsPlain(line: CString)
    ensures var d := LineDefinition(line);
            d.Some? ==> Plain(d.value.name) && Plain(d.value.value)
  {
    var name := BlanksEnd(line, 0);
    var value := BlanksEnd(line, WordEnd(line, name));
    AfterBlanks(line, 0);
    AfterBlanks(line, WordEnd(line, name));
    if name < |line| && value < |line| {
      WordIsPlain(line, name);
      WordIsPlain(line, value);
    }
  }

  /** A definition written out as a line is read back, whatever blanks are put around it. */
  lemma WrittenIsRead(before: Bytes, d: Definition, between: Bytes, after: Bytes)
    requires Plain(d.name) && d.name[0] != HASH && Plain(d.value)
    requires forall c | c in before :: IsSpace(c)
    requires between != [] && forall c | c in between :: IsSpace(c)
    requires after == [] || IsSpace(after[0])
    ensures LineDefinition(before + d.name + between + d.value + after) == Some(d)
  {
    var s := before + d.name + between + d.value + after;
    var name := |before|;
    var end := name + |d.name|;
    var value := end + |between|;
    var stop := value + |d.value|;
    forall k | 0 <= k < name ensures IsSpace(s[k]) {
      assert s[k] == before[k] && before[k] in before;
    }
    forall k | name <= k < end ensures !IsSpace(s[k]) {
      assert s[k] == d.name[k - name] && d.name[k - name] in d.name;
    }
    forall k | end <= k < value ensures IsSpace(s[k]) {
      assert s[k] == between[k - end] && between[k - end] in between;
    }
    forall k | value <= k < stop ensures !IsSpace(s[k]) {
      assert s[k] == d.value[k - value] && d.value[k - value] in d.value;
    }
    BlanksAre(s, 0, name);
    WordIs(s, name, end);
    BlanksAre(s, end, value);
    WordIs(s, value, stop);
    assert s[name..end] == d.name && s[value..stop] == d.value;
  }

  // ----- Reading -----

  /** Bytes of a C string. */
  predicate Positive(s: Bytes) {
    forall c | c in s :: c > 0
  }

  function ByteAt(s: Bytes, i: nat): int {
    if i < |s| then s[i] else 0
  }

  lemma {:induction false} LowerTail(s: Bytes, i: nat)
    requires i <= |s| && Positive(s)
    ensures i < |s| ==> Lower(s[i..]) == [ToLower(s[i])] + Lower(s[i + 1..]) && ToLower(s[i]) != 0
    ensures i == |s| ==> Lower(s[i..]) == []
  {
    if i < |s| {
      assert s[i..][1..] == s[i + 1..];
      assert s[i] in s;
    }
  }

  lemma CompareTails(a: Bytes, b: Bytes, i: nat)
    requires i <= |a| && i <= |b| && Positive(a) && Positive(b)
    ensures var c1, c2 := ToLower(ByteAt(a, i)), ToLower(ByteAt(b, i));
            && (c1 == c2 == 0 ==> CompareNames(a[i..], b[i..]) == 0)
            && (c1 < c2 ==> CompareNames(a[i..], b[i..]) < 0)
            && (c1 > c2 ==> CompareNames(a[i..], b[i..]) > 0)
            && (c1 == c2 != 0 ==> i < |a| && i < |b|
                                  && CompareNames(a[i..], b[i..]) == CompareNames(a[i + 1..], b[i + 1..]))
  {
    LowerTail(a, i);
    LowerTail(b, i);
    assert i < |a| ==> a[i] in a;
    assert i < |b| ==> b[i] in b;
  }

  lemma NamesTransitive(a: Bytes, b: Bytes, c: Bytes)
    requires CompareNames(a, b) <= 0 && CompareNames(b, c) <= 0
    ensures CompareNames(a, c) <= 0
    ensures CompareNames(a, b) < 0 || CompareNames(b, c) < 0 ==> CompareNames(a, c) < 0
  {
    StrCmpEqual(Lower(a), Lower(b));
    StrCmpEqual(Lower(b), Lower(c));
    if CompareNames(a, b) < 0 && CompareNames(b, c) < 0 {
      StrCmpTransitive(Lower(a), Lower(b), Lower(c));
    }
  }

  lemma NamesOrder(a: Bytes, b: Bytes)
    ensures CompareNames(a, b) == 0 <==> SameName(a, b)
    ensures CompareNames(a, b) > 0 <==> CompareNames(b, a) < 0
  {
    StrCmpEqual(Lower(a), Lower(b));
    StrCmpEqual(Lower(b), Lower(a));
    StrCmpAntisymmetric(Lower(a), Lower(b));
    StrCmpAntisymmetric(Lower(b), Lower(a));
  }

  /** `alias_compare`. */
  method AliasCompare(a: Bytes, b: Bytes) returns (c: int)
    requires Positive(a) && Positive(b)
    ensures c < 0 <==> CompareNames(a, b) < 0
    ensures c == 0 <==> CompareNames(a, b) == 0
  {
    var i := 0;
    assert a[0..] == a && b[0..] == b;
    CompareTails(a, b, 0);
    var c1, c2 := ToLower(ByteAt(a, 0)), ToLower(ByteAt(b, 0));
    while c1 != 0 && c1 == c2
      invariant i <= |a| && i <= |b|
      invariant c1 == ToLower(ByteAt(a, i)) && c2 == ToLower(ByteAt(b, i))
      invariant CompareNames(a, b) == CompareNames(a[i..], b[i..])
      decreases |a| - i
    {
      CompareTails(a, b, i);
      i := i + 1;
      c1, c2 := ToLower(ByteAt(a, i)), ToLower(ByteAt(b, i));
    }
    CompareTails(a, b, i);
    c := c1 - c2;
  }

  method SkipBlanks(buf: CString, start: nat) returns (cp: nat)
    requires start <= |buf|
    ensures cp == BlanksEnd(buf, start)
  {
    cp := start;
    while cp < |buf| && IsSpace(buf[cp])
      invariant cp <= |buf|
      invariant BlanksEnd(buf, cp) == BlanksEnd(buf, start)
    {
      cp := cp + 1;
    }
  }

  method SkipWord(buf: CString, start: nat) returns (cp: nat)
    requires start <= |buf|
    ensures cp == WordEnd(buf, start)
  {
    cp := start;
    while cp < |buf| && !IsSpace(buf[cp])
      invariant cp <= |buf|
      invariant WordEnd(buf, cp) == WordEnd(buf, start)
    {
      cp := cp + 1;
    }
  }

  /** The two fields of a line. The blank that ends the name is stepped over with those after it. */
  method ReadFields(buf: CString) returns (d: Option<Definition>)
    ensures d == LineDefinition(buf)
  {
    var alias := SkipBlanks(buf, 0);
    if alias == |buf| || buf[alias] == HASH {
      return None;
    }
    var end := SkipWord(buf, alias);
    var value := SkipBlanks(buf, end);
    if value == |buf| {
      return None;
    }
    var stop := SkipWord(buf, value);
    d := Some(Definition(buf[alias..end], buf[value..stop]));
  }

  /** One line; what does not fit the buffer is read and forgotten. */
  method ReadLine(text: CString, pos: nat, size: nat) returns (buf: CString, next: nat)
    requires pos < |text| && size > 1
    ensures buf == Chunk(text, pos, size) && next == LineEnd(text, pos)
  {
    LineEndBytes(text, pos);
    next := Fgets(text, pos, size);
    buf := text[pos..next];
    while text[next - 1] != NEWLINE && next < |text|
      invariant pos < next <= LineEnd(text, pos)
      invariant next < |text| && text[next - 1] != NEWLINE ==> next < LineEnd(text, pos)
      decreases |text| - next
    {
      LineEndIs(text, pos, next);
      next := Fgets(text, next, size);
    }
  }
}
