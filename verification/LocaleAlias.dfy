/** Locale aliases: a table that alias files are read into one at a time, when needed. */
module LocaleAlias {
  import opened AliasFile
  import opened CStrings
  import opened Options
  import opened Sequences
  import opened TextFile

  const PATH_SEPARATOR := 58

  type Byte = x: int | 0 <= x < 256

  type Pool = seq<Byte>

  /** An entry of the table: the addresses of two strings. */
  datatype AliasMap = AliasMap(alias: int, value: int)

  /** The C string at `p`. */
  function TextAt(pool: Pool, p: nat): Bytes
    requires p <= |pool|
    decreases |pool| - p
  {
    if p == |pool| || pool[p] == 0 then [] else [pool[p]] + TextAt(pool, p + 1)
  }

  /** A string that ends before `act`. */
  predicate Held(pool: Pool, act: nat, p: int) {
    && 0 <= p <= |pool| && act <= |pool|
    && p + |TextAt(pool, p)| < act
  }

  predicate EntryHeld(pool: Pool, act: nat, base: int, e: AliasMap) {
    Held(pool, act, e.alias - base) && Held(pool, act, e.value - base)
  }

  function NameAt(pool: Pool, base: int, e: AliasMap): Bytes {
    if 0 <= e.alias - base <= |pool| then TextAt(pool, e.alias - base) else []
  }

  /** The definition that an entry denotes when the pool lies at `base`. */
  function DefinitionAt(pool: Pool, base: int, e: AliasMap): Definition {
    Definition(NameAt(pool, base, e),
               if 0 <= e.value - base <= |pool| then TextAt(pool, e.value - base) else [])
  }

  function Meaning(pool: Pool, base: int, table: seq<AliasMap>): seq<Definition> {
    seq(|table|, i requires 0 <= i < |table| => DefinitionAt(pool, base, table[i]))
  }

  lemma {:induction false} TextEnds(pool: Pool, p: nat)
    requires p <= |pool|
    ensures p + |TextAt(pool, p)| <= |pool|
    ensures TextAt(pool, p) == pool[p..p + |TextAt(pool, p)|]
    ensures p + |TextAt(pool, p)| < |pool| ==> pool[p + |TextAt(pool, p)|] == 0
    decreases |pool| - p
  {
    if p < |pool| && pool[p] != 0 {
      TextEnds(pool, p + 1);
    }
  }

  /** Only the bytes up to its NUL make a string. */
  lemma {:induction false} TextStays(pool: Pool, act: nat, p: nat, more: Pool)
    requires Held(pool, act, p) && act <= |more| && more[..act] == pool[..act]
    ensures Held(more, act, p) && TextAt(more, p) == TextAt(pool, p)
    decreases |pool| - p
  {
    assert more[p] == more[..act][p] == pool[..act][p] == pool[p];
    if pool[p] != 0 {
      TextStays(pool, act, p + 1, more);
    }
  }

  lemma {:induction false} TextWritten(pool: Pool, p: nat, s: CString)
    requires p + |s| < |pool| && pool[p..p + |s|] == s && pool[p + |s|] == 0
    ensures TextAt(pool, p) == s
    decreases |s|
  {
    if s != [] {
      assert pool[p] == pool[p..p + |s|][0] == s[0];
      assert s[0] in s;
      assert pool[p + 1..p + |s|] == pool[p..p + |s|][1..] == s[1..];
      TextWritten(pool, p + 1, s[1..]);
    }
  }

  /** Entries that are moved with the pool keep what they denote. */
  lemma EntryMoves(pool: Pool, act: nat, base: int, e: AliasMap, more: Pool, newBase: int, moved: AliasMap)
    requires EntryHeld(pool, act, base, e) && act <= |more| && more[..act] == pool[..act]
    requires moved == AliasMap(e.alias + (newBase - base), e.value + (newBase - base))
    ensures EntryHeld(more, act, newBase, moved)
    ensures DefinitionAt(more, newBase, moved) == DefinitionAt(pool, base, e)
  {
    TextStays(pool, act, e.alias - base, more);
    TextStays(pool, act, e.value - base, more);
  }

  predicate AllHeld(pool: Pool, act: nat, base: int, table: seq<AliasMap>) {
    act <= |pool| && forall e | e in table :: EntryHeld(pool, act, base, e)
  }

  /** Writing behind what is in use changes no meaning. */
  lemma MeaningStays(pool: Pool, act: nat, base: int, table: seq<AliasMap>, more: Pool)
    requires AllHeld(pool, act, base, table)
    requires act <= |more| && more[..act] == pool[..act]
    ensures Meaning(more, base, table) == Meaning(pool, base, table)
    ensures AllHeld(more, act, base, table)
  {
    forall e | e in table
      ensures EntryHeld(more, act, base, e) && DefinitionAt(more, base, e) == DefinitionAt(pool, base, e)
    {
      EntryMoves(pool, act, base, e, more, base, e);
    }
  }

  /** The table in the order of its names. */
  predicate Ascending(pool: Pool, base: int, table: seq<AliasMap>) {
    forall i, j :: 0 <= i < j < |table| ==>
      CompareNames(NameAt(pool, base, table[i]), NameAt(pool, base, table[j])) <= 0
  }

  lemma {:induction false} TextIsPositive(pool: Pool, p: nat)
    requires p <= |pool|
    ensures Positive(TextAt(pool, p))
    decreases |pool| - p
  {
    if p < |pool| && pool[p] != 0 {
      TextIsPositive(pool, p + 1);
    }
  }

  lemma NameIsPositive(pool: Pool, base: int, e: AliasMap)
    ensures Positive(NameAt(pool, base, e))
  {
    if 0 <= e.alias - base <= |pool| {
      TextIsPositive(pool, e.alias - base);
    }
  }

  lemma MeaningJoins(pool: Pool, base: int, a: seq<AliasMap>, b: seq<AliasMap>)
    ensures Meaning(pool, base, a + b) == Meaning(pool, base, a) + Meaning(pool, base, b)
  {
  }

  lemma AllAbove(pool: Pool, base: int, sorted: seq<AliasMap>, at: nat, x: Bytes, k: nat)
    requires Ascending(pool, base, sorted) && at <= k < |sorted|
    requires CompareNames(NameAt(pool, base, sorted[at]), x) > 0
    ensures CompareNames(x, NameAt(pool, base, sorted[k])) <= 0
  {
    NamesOrder(NameAt(pool, base, sorted[at]), x);
    if k > at {
      NamesTransitive(x, NameAt(pool, base, sorted[at]), NameAt(pool, base, sorted[k]));
    }
  }

  ghost predicate Ordered<T(!new)>(le: (T, T) -> bool, s: seq<T>) {
    forall i, j :: 0 <= i < j < |s| ==> le(s[i], s[j])
  }

  /** A value put between smaller and larger ones. */
  lemma InsertOrdered<T(!new)>(le: (T, T) -> bool, s: seq<T>, at: nat, e: T)
    requires at <= |s| && Ordered(le, s)
    requires forall k :: 0 <= k < at ==> le(s[k], e)
    requires forall k :: at <= k < |s| ==> le(e, s[k])
    ensures Ordered(le, s[..at] + [e] + s[at..])
  {
  }

  /** The entry can be put in at `at`. */
  predicate PlaceFor(pool: Pool, base: int, sorted: seq<AliasMap>, at: nat, x: Bytes) {
    && at <= |sorted|
    && (forall k :: 0 <= k < at ==> CompareNames(NameAt(pool, base, sorted[k]), x) <= 0)
    && (at < |sorted| ==> CompareNames(NameAt(pool, base, sorted[at]), x) > 0)
  }

  /** An entry put in at its place. */
  lemma InsertAscends(pool: Pool, base: int, sorted: seq<AliasMap>, at: nat, e: AliasMap)
    requires Ascending(pool, base, sorted) && PlaceFor(pool, base, sorted, at, NameAt(pool, base, e))
    ensures Ascending(pool, base, sorted[..at] + [e] + sorted[at..])
  {
    var le := (a: AliasMap, b: AliasMap) => CompareNames(NameAt(pool, base, a), NameAt(pool, base, b)) <= 0;
    forall k | at <= k < |sorted| ensures le(e, sorted[k]) {
      AllAbove(pool, base, sorted, at, NameAt(pool, base, e), k);
    }
    assert Ordered(le, sorted);
    InsertOrdered(le, sorted, at, e);
    AscendsBy(pool, base, le, sorted[..at] + [e] + sorted[at..]);
  }

  lemma AscendsBy(pool: Pool, base: int, le: (AliasMap, AliasMap) -> bool, table: seq<AliasMap>)
    requires Ordered(le, table)
    requires forall a, b :: le(a, b) == (CompareNames(NameAt(pool, base, a), NameAt(pool, base, b)) <= 0)
    ensures Ascending(pool, base, table)
  {
  }

  lemma InsertMeaning(pool: Pool, base: int, a: seq<AliasMap>, e: AliasMap, b: seq<AliasMap>)
    ensures multiset(Meaning(pool, base, a + [e] + b)) ==
            multiset(Meaning(pool, base, a + b)) + multiset{DefinitionAt(pool, base, e)}
  {
    MeaningJoins(pool, base, a + [e], b);
    MeaningJoins(pool, base, a, [e]);
    MeaningJoins(pool, base, a, b);
    assert Meaning(pool, base, [e]) == [DefinitionAt(pool, base, e)];
  }

  /** Where an entry goes: before the first one with a larger name. */
  method PlaceOf(pool: Pool, base: int, sorted: seq<AliasMap>, e: AliasMap) returns (at: nat)
    ensures PlaceFor(pool, base, sorted, at, NameAt(pool, base, e))
  {
    at := 0;
    NameIsPositive(pool, base, e);
    while at < |sorted|
      invariant at <= |sorted|
      invariant forall k :: 0 <= k < at ==>
                  CompareNames(NameAt(pool, base, sorted[k]), NameAt(pool, base, e)) <= 0
    {
      NameIsPositive(pool, base, sorted[at]);
      var c := AliasCompare(NameAt(pool, base, sorted[at]), NameAt(pool, base, e));
      if c > 0 {
        return;
      }
      at := at + 1;
    }
  }

  lemma InsertedMeans(pool: Pool, base: int, sorted: seq<AliasMap>, at: nat, e: AliasMap)
    requires at <= |sorted|
    ensures multiset(Meaning(pool, base, sorted[..at] + [e] + sorted[at..])) ==
            multiset(Meaning(pool, base, sorted)) + multiset{DefinitionAt(pool, base, e)}
  {
    assert sorted == sorted[..at] + sorted[at..];
    InsertMeaning(pool, base, sorted[..at], e, sorted[at..]);
  }

  lemma InsertedMembers(sorted: seq<AliasMap>, at: nat, e: AliasMap)
    requires at <= |sorted|
    ensures var more := sorted[..at] + [e] + sorted[at..];
            |more| == |sorted| + 1 && forall x :: x in more ==> x in sorted || x == e
  {
  }

  /** One round of an insertion sort. */
  method InsertEntry(pool: Pool, base: int, sorted: seq<AliasMap>, e: AliasMap) returns (more: seq<AliasMap>)
    requires Ascending(pool, base, sorted)
    ensures Ascending(pool, base, more)
    ensures multiset(Meaning(pool, base, more)) ==
            multiset(Meaning(pool, base, sorted)) + multiset{DefinitionAt(pool, base, e)}
    ensures |more| == |sorted| + 1 && forall x :: x in more ==> x in sorted || x == e
  {
    var at := PlaceOf(pool, base, sorted, e);
    InsertAscends(pool, base, sorted, at, e);
    InsertedMeans(pool, base, sorted, at, e);
    InsertedMembers(sorted, at, e);
    more := sorted[..at] + [e] + sorted[at..];
  }

  /** `qsort`: any order of entries with equal names would do. */
  method Qsort(pool: Pool, base: int, table: seq<AliasMap>) returns (sorted: seq<AliasMap>)
    ensures Ascending(pool, base, sorted)
    ensures multiset(Meaning(pool, base, sorted)) == multiset(Meaning(pool, base, table))
    ensures |sorted| == |table| && forall x :: x in sorted ==> x in table
  {
    sorted := [];
    var i := 0;
    while i < |table|
      invariant i <= |table|
      invariant Ascending(pool, base, sorted)
      invariant multiset(Meaning(pool, base, sorted)) == multiset(Meaning(pool, base, table[..i]))
      invariant |sorted| == i && forall x :: x in sorted ==> x in table
    {
      MeaningNext(pool, base, table, i);
      sorted := InsertEntry(pool, base, sorted, table[i]);
      i := i + 1;
    }
    assert table[..i] == table;
  }

  lemma MeaningNext(pool: Pool, base: int, table: seq<AliasMap>, i: nat)
    requires i < |table|
    ensures multiset(Meaning(pool, base, table[..i + 1])) ==
            multiset(Meaning(pool, base, table[..i])) + multiset{DefinitionAt(pool, base, table[i])}
    ensures table[..i + 1] == table[..i] + [table[i]]
  {
    assert table[..i + 1] == table[..i] + [table[i]];
    MeaningJoins(pool, base, table[..i], [table[i]]);
    assert Meaning(pool, base, [table[i]]) == [DefinitionAt(pool, base, table[i])];
  }

  /** `bsearch`. */
  method Bsearch(pool: Pool, base: int, table: seq<AliasMap>, name: CString) returns (found: int)
    requires Ascending(pool, base, table)
    ensures -1 <= found < |table|
    ensures found >= 0 ==> SameName(NameAt(pool, base, table[found]), name)
    ensures found < 0 ==> forall k :: 0 <= k < |table| ==> !SameName(NameAt(pool, base, table[k]), name)
  {
    var low, high := 0, |table|;
    while low < high
      invariant 0 <= low <= high <= |table|
      invariant forall k :: 0 <= k < low ==> CompareNames(NameAt(pool, base, table[k]), name) < 0
      invariant forall k :: high <= k < |table| ==> CompareNames(name, NameAt(pool, base, table[k])) < 0
    {
      var mid := (low + high) / 2;
      var x := NameAt(pool, base, table[mid]);
      NameIsPositive(pool, base, table[mid]);
      NamesOrder(name, x);
      NamesOrder(x, name);
      var c := AliasCompare(name, x);
      if c == 0 {
        return mid;
      }
      if c < 0 {
        forall k | mid < k < high ensures CompareNames(name, NameAt(pool, base, table[k])) < 0 {
          NamesTransitive(name, x, NameAt(pool, base, table[k]));
        }
        high := mid;
      } else {
        forall k | low <= k < mid ensures CompareNames(NameAt(pool, base, table[k]), name) < 0 {
          NamesTransitive(NameAt(pool, base, table[k]), x, name);
        }
        low := mid + 1;
      }
    }
    forall k | 0 <= k < |table| ensures !SameName(NameAt(pool, base, table[k]), name) {
      NamesOrder(NameAt(pool, base, table[k]), name);
      NamesOrder(name, NameAt(pool, base, table[k]));
    }
    found := -1;
  }

  /** The definitions in the alias file of a directory, if it can be opened. */
  function FileDefinitions(open: Bytes -> Option<CString>, dir: Bytes, bufsiz: nat): seq<Definition>
    requires bufsiz > 0
  {
    match open(dir)
    case None => []
    case Some(text) => Definitions(text, 0, bufsiz)
  }

  function SegmentEnd(path: Bytes, pos: nat): (e: nat)
    requires pos <= |path|
    ensures pos <= e <= |path|
    decreases |path| - pos
  {
    if pos == |path| || path[pos] == PATH_SEPARATOR then pos else SegmentEnd(path, pos + 1)
  }

  /** All definitions in the files on the path, from `pos` on: what eager loading would read. */
  function PathDefinitions(open: Bytes -> Option<CString>, path: Bytes, pos: nat, bufsiz: nat): seq<Definition>
    requires pos <= |path| && bufsiz > 0
    decreases |path| - pos
  {
    if pos == |path| then []
    else if path[pos] == PATH_SEPARATOR then PathDefinitions(open, path, pos + 1, bufsiz)
    else
      var e := SegmentEnd(path, pos);
      assert e > pos;
      FileDefinitions(open, path[pos..e], bufsiz) + PathDefinitions(open, path, e, bufsiz)
  }

  /** Some definition of `name` has this value. */
  ghost predicate Defines(defs: seq<Definition>, name: Bytes, value: Bytes) {
    exists d :: d in defs && SameName(d.name, name) && d.value == value
  }

  ghost predicate Defined(defs: seq<Definition>, name: Bytes) {
    exists d :: d in defs && SameName(d.name, name)
  }

  class AliasTable {
    var stringSpace: array<Byte>
    var base: int
    var stringSpaceAct: nat
    var table: seq<AliasMap>
    var maxmap: nat
    const open: Bytes -> Option<CString>
    const path: Bytes
    const bufsiz: nat
    var localeAliasPath: nat

    ghost predicate Valid()
      reads this, stringSpace
    {
      && |table| <= maxmap
      && AllHeld(stringSpace[..], stringSpaceAct, base, table)
    }

    /** The definitions that the entries of the table denote. */
    ghost function Contents(): seq<Definition>
      reads this, stringSpace
    {
      Meaning(stringSpace[..], base, table)
    }

    /** What has been read and what is left make up what there is to be read. */
    ghost predicate Lazy()
      reads this, stringSpace
    {
      && Valid() && bufsiz > 1 && localeAliasPath <= |path|
      && Ascending(stringSpace[..], base, table)
      && multiset(Contents()) + multiset(PathDefinitions(open, path, localeAliasPath, bufsiz)) ==
         multiset(PathDefinitions(open, path, 0, bufsiz))
    }

    constructor (open: Bytes -> Option<CString>, path: Bytes, bufsiz: nat)
      requires bufsiz > 1
      ensures Lazy() && Contents() == [] && fresh(stringSpace)
      ensures this.open == open && this.path == path && this.bufsiz == bufsiz
    {
      stringSpace := new Byte[0];
      base, stringSpaceAct, table, maxmap := 0, 0, [], 0;
      this.open, this.path, this.bufsiz, localeAliasPath := open, path, bufsiz, 0;
    }

    /** `realloc` and the loop after it: the pool moves anywhere, and every entry with it. */
    method GrowPool(newSize: nat)
      requires Valid() && newSize >= stringSpace.Length
      modifies this`stringSpace, this`base, this`table
      ensures Valid() && Contents() == old(Contents())
      ensures fresh(stringSpace) && stringSpace.Length == newSize
      ensures stringSpaceAct == old(stringSpaceAct) && maxmap == old(maxmap) && |table| == old(|table|)
    {
      ghost var pool := stringSpace[..];
      var newPool := new Byte[newSize](_ => 0);
      var newBase: int := *;
      var k := 0;
      while k < stringSpace.Length
        invariant k <= stringSpace.Length
        invariant newPool[..k] == stringSpace[..k]
        modifies newPool
      {
        newPool[k] := stringSpace[k];
        k := k + 1;
      }
      assert newPool[..stringSpaceAct] == newPool[..k][..stringSpaceAct] == pool[..stringSpaceAct];
      Rebase(newPool, newBase);
      stringSpace, base := newPool, newBase;
    }

    method Rebase(newPool: array<Byte>, newBase: int)
      requires Valid() && stringSpaceAct <= newPool.Length
      requires newPool[..stringSpaceAct] == stringSpace[..stringSpaceAct]
      modifies this`table
      ensures |table| == old(|table|)
      ensures AllHeld(newPool[..], stringSpaceAct, newBase, table)
      ensures Meaning(newPool[..], newBase, table) == old(Contents())
    {
      ghost var pool, before := stringSpace[..], table;
      assert newPool[..][..stringSpaceAct] == pool[..stringSpaceAct];
      if newBase != base {
        var i := 0;
        while i < |table|
          invariant i <= |table| == |before|
          invariant forall k :: i <= k < |table| ==> table[k] == before[k]
          invariant forall k :: 0 <= k < i ==>
                      && EntryHeld(newPool[..], stringSpaceAct, newBase, table[k])
                      && DefinitionAt(newPool[..], newBase, table[k]) == DefinitionAt(pool, base, before[k])
        {
          var moved := AliasMap(table[i].alias + (newBase - base), table[i].value + (newBase - base));
          assert before[i] in before;
          EntryMoves(pool, stringSpaceAct, base, before[i], newPool[..], newBase, moved);
          table := table[i := moved];
          i := i + 1;
        }
      } else {
        MeaningStays(pool, stringSpaceAct, base, table, newPool[..]);
      }
    }

    /** `memcpy` of a string with its NUL to the end of what is in use. */
    method CopyString(s: CString) returns (at: int)
      requires Valid() && stringSpaceAct + |s| < stringSpace.Length
      modifies this`stringSpaceAct, stringSpace
      ensures Valid() && Contents() == old(Contents())
      ensures stringSpaceAct == old(stringSpaceAct) + |s| + 1
      ensures at == base + old(stringSpaceAct)
      ensures Held(stringSpace[..], stringSpaceAct, at - base) && TextAt(stringSpace[..], at - base) == s
      ensures stringSpace[..old(stringSpaceAct)] == old(stringSpace[..stringSpaceAct])
    {
      ghost var pool := stringSpace[..];
      var start := stringSpaceAct;
      var k := 0;
      while k < |s|
        invariant k <= |s|
        invariant stringSpace[..start] == pool[..start]
        invariant stringSpace[start..start + k] == s[..k]
      {
        stringSpace[start + k] := s[k];
        k := k + 1;
      }
      stringSpace[start + k] := 0;
      assert stringSpace[..][..start] == stringSpace[..start] == pool[..start];
      assert stringSpace[..][start..start + |s|] == stringSpace[start..start + |s|] == s;
      TextWritten(stringSpace[..], start, s);
      MeaningStays(pool, start, base, table, stringSpace[..]);
      stringSpaceAct := start + |s| + 1;
      HeldMore(stringSpace[..], start, stringSpaceAct, base, table);
      at := base + start;
    }

    /** Makes the table and the pool large enough for one more definition. */
    method MakeRoom(needed: nat)
      requires Valid()
      modifies this`stringSpace, this`base, this`table, this`maxmap
      ensures Valid() && Contents() == old(Contents())
      ensures |table| < maxmap && stringSpaceAct + needed <= stringSpace.Length
      ensures stringSpace == old(stringSpace) || fresh(stringSpace)
    {
      if |table| >= maxmap {
        maxmap := if maxmap == 0 then 100 else 2 * maxmap;
      }
      if stringSpaceAct + needed > stringSpace.Length {
        GrowPool(stringSpace.Length + if needed > 1024 then needed else 1024);
      }
    }

    method CopyBoth(alias: CString, value: CString) returns (e: AliasMap)
      requires Valid() && stringSpaceAct + |alias| + |value| + 2 <= stringSpace.Length
      modifies this`stringSpaceAct, stringSpace
      ensures Valid() && Contents() == old(Contents())
      ensures EntryHeld(stringSpace[..], stringSpaceAct, base, e)
      ensures DefinitionAt(stringSpace[..], base, e) == Definition(alias, value)
    {
      var a := CopyString(alias);
      ghost var pool, act := stringSpace[..], stringSpaceAct;
      var v := CopyString(value);
      assert stringSpace[..][..act] == stringSpace[..act] == pool[..act];
      e := AliasMap(a, v);
      BothHeld(pool, act, stringSpace[..], stringSpaceAct, base, e, alias, value);
    }

    /** One definition is added. */
    method Store(alias: CString, value: CString)
      requires Valid()
      modifies this`stringSpace, this`base, this`stringSpaceAct, this`table, this`maxmap, stringSpace
      ensures Valid() && Contents() == old(Contents()) + [Definition(alias, value)]
      ensures stringSpace == old(stringSpace) || fresh(stringSpace)
    {
      MakeRoom(|alias| + 1 + (|value| + 1));
      var e := CopyBoth(alias, value);
      MeaningMore(stringSpace[..], stringSpaceAct, base, table, e);
      table := table + [e];
    }

    /** Adds the definition on a line, if there is one. */
    method ReadDefinition(buf: CString) returns (added: nat)
      requires Valid()
      modifies this`stringSpace, this`base, this`stringSpaceAct, this`table, this`maxmap, stringSpace
      ensures Valid() && Contents() == old(Contents()) + AsList(LineDefinition(buf))
      ensures added == |AsList(LineDefinition(buf))|
      ensures stringSpace == old(stringSpace) || fresh(stringSpace)
      ensures added == 0 ==> table == old(table) && base == old(base) && stringSpace == old(stringSpace)
                             && stringSpace[..] == old(stringSpace[..])
    {
      var d := ReadFields(buf);
      if d.Some? {
        LineIsText(buf);
        Store(d.value.name, d.value.value);
        added := 1;
      } else {
        added := 0;
      }
    }

    /** Adds the definitions of a text in the order in which they stand there. */
    method ReadText(text: CString) returns (added: nat)
      requires Valid() && bufsiz > 1
      modifies this`stringSpace, this`base, this`stringSpaceAct, this`table, this`maxmap, stringSpace
      ensures Valid() && Contents() == old(Contents()) + Definitions(text, 0, bufsiz)
      ensures added == |Definitions(text, 0, bufsiz)|
      ensures stringSpace == old(stringSpace) || fresh(stringSpace)
      ensures added == 0 ==> table == old(table) && base == old(base) && stringSpace == old(stringSpace)
                             && stringSpace[..] == old(stringSpace[..])
    {
      added := 0;
      var pos := 0;
      ghost var done, whole := [], Definitions(text, 0, bufsiz);
      while pos < |text|
        invariant pos <= |text| && Valid()
        invariant done + Definitions(text, pos, bufsiz) == whole
        invariant Contents() == old(Contents()) + done && added == |done|
        invariant stringSpace == old(stringSpace) || fresh(stringSpace)
        invariant added == 0 ==> table == old(table) && base == old(base) && stringSpace == old(stringSpace)
                                 && stringSpace[..] == old(stringSpace[..])
        decreases |text| - pos
      {
        var buf, next := ReadLine(text, pos, bufsiz);
        ghost var one := AsList(LineDefinition(buf));
        Regroup(done, one, Definitions(text, next, bufsiz));
        Regroup(old(Contents()), done, one);
        var n := ReadDefinition(buf);
        done := done + one;
        added := added + n;
        pos := next;
      }
    }

    /** `read_alias_file`. */
    method ReadAliasFile(dir: Bytes) returns (added: nat)
      requires Valid() && bufsiz > 1 && Ascending(stringSpace[..], base, table)
      modifies this`stringSpace, this`base, this`stringSpaceAct, this`table, this`maxmap, stringSpace
      ensures Valid() && Ascending(stringSpace[..], base, table)
      ensures multiset(Contents()) == old(multiset(Contents())) + multiset(FileDefinitions(open, dir, bufsiz))
      ensures added == |FileDefinitions(open, dir, bufsiz)|
      ensures stringSpace == old(stringSpace) || fresh(stringSpace)
    {
      var fp := open(dir);
      if fp.None? {
        return 0;
      }
      added := ReadText(fp.value);
      if added > 0 {
        table := Qsort(stringSpace[..], base, table);
      }
    }

    /** Reads on along the path until a file has added something. */
    method ReadOn() returns (added: nat)
      requires Lazy()
      modifies this, stringSpace
      ensures Lazy()
      ensures stringSpace == old(stringSpace) || fresh(stringSpace)
      ensures localeAliasPath >= old(localeAliasPath)
      ensures if added == 0 then localeAliasPath == |path| else localeAliasPath > old(localeAliasPath)
      ensures added == 0 ==> multiset(Contents()) == old(multiset(Contents()))
    {
      added := 0;
      while added == 0 && localeAliasPath < |path|
        invariant Lazy()
        invariant stringSpace == old(stringSpace) || fresh(stringSpace)
        invariant old(localeAliasPath) <= localeAliasPath
        invariant added > 0 ==> old(localeAliasPath) < localeAliasPath
        invariant added == 0 ==> multiset(Contents()) == old(multiset(Contents()))
        decreases |path| - localeAliasPath, added == 0
      {
        added := ReadNext();
      }
    }

    /** Steps over separators and reads the file of the directory after them, if there is one. */
    method ReadNext() returns (added: nat)
      requires Lazy() && localeAliasPath < |path|
      modifies this, stringSpace
      ensures Lazy()
      ensures stringSpace == old(stringSpace) || fresh(stringSpace)
      ensures localeAliasPath > old(localeAliasPath)
      ensures added == 0 ==> multiset(Contents()) == old(multiset(Contents()))
    {
      var start := SkipSeparators(path, localeAliasPath, open, bufsiz);
      var end := SkipSegment(path, start);
      added := 0;
      ghost var left := PathDefinitions(open, path, localeAliasPath, bufsiz);
      SegmentNext(open, path, start, bufsiz);
      if start < end {
        added := ReadAliasFile(path[start..end]);
      }
      localeAliasPath := end;
    }

    /** Looks in what has been read. */
    method LookUp(name: CString) returns (result: Option<Bytes>)
      requires Lazy()
      ensures result.Some? <==> Defined(Contents(), name)
      ensures result.Some? ==> Defines(PathDefinitions(open, path, 0, bufsiz), name, result.value)
    {
      var found := Bsearch(stringSpace[..], base, table, name);
      FoundMeans(stringSpace[..], base, table, name, found);
      if found < 0 {
        return None;
      }
      var d := DefinitionAt(stringSpace[..], base, table[found]);
      LoadedDefines(Contents(), PathDefinitions(open, path, localeAliasPath, bufsiz),
                    PathDefinitions(open, path, 0, bufsiz), d);
      result := Some(d.value);
    }

    /**
     * `_nl_expand_alias`: a value for a name, exactly if some file on the whole path defines
     * it. Nothing is read for a name that is known already.
     */
    method ExpandAlias(name: CString) returns (result: Option<Bytes>)
      requires Lazy()
      modifies this, stringSpace
      ensures Lazy() && (stringSpace == old(stringSpace) || fresh(stringSpace))
      ensures match result
              case Some(value) => Defines(PathDefinitions(open, path, 0, bufsiz), name, value)
              case None => !Defined(PathDefinitions(open, path, 0, bufsiz), name)
      ensures Defined(old(Contents()), name) ==>
                Contents() == old(Contents()) && localeAliasPath == old(localeAliasPath)
    {
      result := LookUp(name);
      while result.None?
        invariant Lazy() && (stringSpace == old(stringSpace) || fresh(stringSpace))
        invariant result.Some? <==> Defined(Contents(), name)
        invariant result.Some? ==> Defines(PathDefinitions(open, path, 0, bufsiz), name, result.value)
        invariant Defined(old(Contents()), name) ==>
                    result.Some? && Contents() == old(Contents()) && localeAliasPath == old(localeAliasPath)
        decreases |path| - localeAliasPath, result.None?
      {
        ghost var before := Contents();
        var added := ReadOn();
        if added == 0 {
          AllLoaded(before, Contents(), name);
          break;
        }
        result := LookUp(name);
      }
      if result.None? {
        AllLoaded(Contents(), PathDefinitions(open, path, 0, bufsiz), name);
      }
    }
  }

  lemma AllLoaded(loaded: seq<Definition>, all: seq<Definition>, name: Bytes)
    requires multiset(loaded) == multiset(all)
    ensures Defined(loaded, name) <==> Defined(all, name)
  {
    assert forall d :: d in loaded <==> multiset(loaded)[d] > 0;
    assert forall d :: d in all <==> multiset(all)[d] > 0;
  }

  method SkipSeparators(path: Bytes, pos: nat, ghost open: Bytes -> Option<CString>, ghost bufsiz: nat)
    returns (start: nat)
    requires pos <= |path| && bufsiz > 0
    ensures pos <= start <= |path| && (start < |path| ==> path[start] != PATH_SEPARATOR)
    ensures PathDefinitions(open, path, start, bufsiz) == PathDefinitions(open, path, pos, bufsiz)
  {
    start := pos;
    while start < |path| && path[start] == PATH_SEPARATOR
      invariant pos <= start <= |path|
      invariant PathDefinitions(open, path, start, bufsiz) == PathDefinitions(open, path, pos, bufsiz)
    {
      start := start + 1;
    }
  }

  method SkipSegment(path: Bytes, start: nat) returns (end: nat)
    requires start <= |path|
    ensures end == SegmentEnd(path, start)
  {
    end := start;
    while end < |path| && path[end] != PATH_SEPARATOR
      invariant start <= end <= |path|
      invariant SegmentEnd(path, end) == SegmentEnd(path, start)
    {
      end := end + 1;
    }
  }

  lemma SegmentNext(open: Bytes -> Option<CString>, path: Bytes, start: nat, bufsiz: nat)
    requires start <= |path| && bufsiz > 0 && (start < |path| ==> path[start] != PATH_SEPARATOR)
    ensures var e := SegmentEnd(path, start);
            && PathDefinitions(open, path, start, bufsiz) ==
               (if start < e then FileDefinitions(open, path[start..e], bufsiz) else [])
               + PathDefinitions(open, path, e, bufsiz)
            && (start < |path| <==> start < e)
  {
  }

  lemma FoundMeans(pool: Pool, base: int, table: seq<AliasMap>, name: Bytes, found: int)
    requires -1 <= found < |table|
    requires found >= 0 ==> SameName(NameAt(pool, base, table[found]), name)
    requires found < 0 ==> forall k :: 0 <= k < |table| ==> !SameName(NameAt(pool, base, table[k]), name)
    ensures found >= 0 ==> var d := DefinitionAt(pool, base, table[found]);
              d in Meaning(pool, base, table) && SameName(d.name, name)
    ensures found < 0 ==> !Defined(Meaning(pool, base, table), name)
  {
    if found >= 0 {
      assert Meaning(pool, base, table)[found] == DefinitionAt(pool, base, table[found]);
    }
  }

  lemma LoadedDefines(loaded: seq<Definition>, left: seq<Definition>, all: seq<Definition>, d: Definition)
    requires multiset(loaded) + multiset(left) == multiset(all) && d in loaded
    ensures d in all
  {
    assert multiset(all)[d] > 0;
  }

  lemma LineIsText(line: CString)
    ensures var d := LineDefinition(line);
            d.Some? ==> (forall c | c in d.value.name :: 1 <= c <= 255)
                        && forall c | c in d.value.value :: 1 <= c <= 255
  {
  }

  lemma BothHeld(pool: Pool, act: nat, more: Pool, moreAct: nat, base: int, e: AliasMap, alias: Bytes, value: Bytes)
    requires Held(pool, act, e.alias - base) && TextAt(pool, e.alias - base) == alias
    requires act <= moreAct <= |more| && more[..act] == pool[..act]
    requires Held(more, moreAct, e.value - base) && TextAt(more, e.value - base) == value
    ensures EntryHeld(more, moreAct, base, e)
    ensures DefinitionAt(more, base, e) == Definition(alias, value)
  {
    TextStays(pool, act, e.alias - base, more);
    HeldFurther(more, act, moreAct, e.alias - base);
  }

  lemma HeldFurther(pool: Pool, act: nat, more: nat, p: int)
    requires Held(pool, act, p) && act <= more <= |pool|
    ensures Held(pool, more, p)
  {
  }

  lemma MeaningMore(pool: Pool, act: nat, base: int, table: seq<AliasMap>, e: AliasMap)
    requires AllHeld(pool, act, base, table) && EntryHeld(pool, act, base, e)
    ensures Meaning(pool, base, table + [e]) == Meaning(pool, base, table) + [DefinitionAt(pool, base, e)]
    ensures AllHeld(pool, act, base, table + [e])
  {
  }

  lemma HeldMore(pool: Pool, act: nat, more: nat, base: int, table: seq<AliasMap>)
    requires AllHeld(pool, act, base, table) && act <= more <= |pool|
    ensures AllHeld(pool, more, base, table)
  {
    forall e | e in table ensures EntryHeld(pool, more, base, e) {
      assert EntryHeld(pool, act, base, e);
    }
  }
}
