/** Argz vectors: lists of strings, laid end to end, each with its NUL. */
module ArgzVector {
  import opened CStrings
  import opened Sequences

  /** The strings with `mark` after each of them. */
  function Marked(dirs: seq<CString>, mark: int): seq<int> {
    if dirs == [] then [] else dirs[0] + [mark] + Marked(dirs[1..], mark)
  }

  /** The bytes of an argz vector. */
  function Argz(dirs: seq<CString>): seq<int> {
    Marked(dirs, 0)
  }

  lemma {:induction false} MarkedBytes(dirs: seq<CString>, mark: int)
    ensures forall c | c in Marked(dirs, mark) :: c == mark || 1 <= c <= 255
  {
    if dirs != [] {
      MarkedBytes(dirs[1..], mark);
    }
  }

  /** The strings with `sep` between them. */
  function Join(dirs: seq<CString>, sep: int): CString
    requires dirs != [] && 1 <= sep <= 255
  {
    MarkedBytes(dirs[..|dirs| - 1], sep);
    Marked(dirs[..|dirs| - 1], sep) + dirs[|dirs| - 1]
  }

  /** Where string `i` of the vector begins. */
  function StartOf(dirs: seq<CString>, i: nat): nat
    requires i <= |dirs|
  {
    |Argz(dirs[..i])|
  }

  lemma {:induction false} MarkedSplit(a: seq<CString>, b: seq<CString>, mark: int)
    ensures Marked(a + b, mark) == Marked(a, mark) + Marked(b, mark)
  {
    if a == [] {
      assert a + b == b;
    } else {
      MarkedSplit(a[1..], b, mark);
      assert (a + b)[1..] == a[1..] + b;
      Regroup(a[0] + [mark], Marked(a[1..], mark), Marked(b, mark));
    }
  }

  lemma MarkedOne(d: CString, mark: int)
    ensures Marked([d], mark) == d + [mark]
  {
  }

  lemma MarkedNext(dirs: seq<CString>, i: nat, mark: int)
    requires i < |dirs|
    ensures Marked(dirs[..i + 1], mark) == Marked(dirs[..i], mark) + dirs[i] + [mark]
    ensures Marked(dirs[i..], mark) == dirs[i] + [mark] + Marked(dirs[i + 1..], mark)
  {
    assert dirs[..i + 1] == dirs[..i] + [dirs[i]];
    MarkedSplit(dirs[..i], [dirs[i]], mark);
    MarkedOne(dirs[i], mark);
    assert dirs[i..] == [dirs[i]] + dirs[i + 1..];
    MarkedSplit([dirs[i]], dirs[i + 1..], mark);
  }

  /** A string without others behind it is the last one. */
  lemma MarkedLast(dirs: seq<CString>, i: nat, sep: int)
    requires i < |dirs| && 1 <= sep <= 255 && Argz(dirs[i + 1..]) == []
    ensures i + 1 == |dirs| && Join(dirs, sep) == Marked(dirs[..i], sep) + dirs[i]
  {
    MarkedSize(dirs[i + 1..], 0, 0);
  }

  lemma {:induction false} MarkedSize(dirs: seq<CString>, m1: int, m2: int)
    ensures |Marked(dirs, m1)| == |Marked(dirs, m2)|
    ensures |Marked(dirs, m1)| >= |dirs|
  {
    if dirs != [] {
      MarkedSize(dirs[1..], m1, m2);
    }
  }

  lemma JoinSize(dirs: seq<CString>, sep: int)
    requires dirs != [] && 1 <= sep <= 255
    ensures |Join(dirs, sep)| + 1 == |Argz(dirs)|
  {
    var n := |dirs| - 1;
    MarkedSize(dirs[..n], sep, 0);
    MarkedNext(dirs, n, 0);
    assert dirs[..n + 1] == dirs;
  }

  /** What the bytes of the vector are from the beginning of string `i` on. */
  lemma ArgzAt(dirs: seq<CString>, i: nat)
    requires i <= |dirs|
    ensures StartOf(dirs, i) <= |Argz(dirs)|
    ensures Argz(dirs)[StartOf(dirs, i)..] == Argz(dirs[i..])
    ensures i < |dirs| ==> StartOf(dirs, i + 1) == StartOf(dirs, i) + |dirs[i]| + 1
    ensures i < |dirs| <==> StartOf(dirs, i) < |Argz(dirs)|
  {
    assert dirs == dirs[..i] + dirs[i..];
    MarkedSplit(dirs[..i], dirs[i..], 0);
    MarkedSize(dirs[i..], 0, 0);
    if i < |dirs| {
      MarkedNext(dirs, i, 0);
    } else {
      assert dirs[i..] == [];
    }
  }

  /** `strlen`, from byte `p` on. */
  method StrLen(bytes: seq<int>, p: nat, ghost d: CString, ghost tail: seq<int>) returns (n: nat)
    requires p <= |bytes| && bytes[p..] == d + [0] + tail
    ensures n == |d|
  {
    n := 0;
    ghost var rest := bytes[p..];
    assert forall k :: 0 <= k < |rest| ==> rest[k] == bytes[p + k];
    assert forall k :: 0 <= k < |d| ==> rest[k] == d[k];
    assert rest[|d|] == 0;
    while bytes[p + n] != 0
      invariant n <= |d|
      decreases |d| - n
    {
      assert bytes[p + n] == rest[n];
      n := n + 1;
    }
    assert bytes[p + n] == rest[n];
  }

  /** `__argz_count`. */
  method Count(argz: seq<int>, ghost dirs: seq<CString>) returns (count: nat)
    requires argz == Argz(dirs)
    ensures count == |dirs|
  {
    count := 0;
    var p, len := 0, |argz|;
    assert dirs[..0] == [];
    while len > 0
      invariant count <= |dirs| && p == StartOf(dirs, count)
      invariant len == |argz| - p
      decreases len
    {
      ArgzAt(dirs, count);
      MarkedNext(dirs, count, 0);
      var part := StrLen(argz, p, dirs[count], Argz(dirs[count + 1..]));
      p := p + part + 1;
      len := len - (part + 1);
      count := count + 1;
    }
    ArgzAt(dirs, count);
  }

  /** `__argz_next`: the beginning of the string after the one at `entry`, if any; -1 is NULL. */
  method Next(argz: seq<int>, entry: int, ghost dirs: seq<CString>, ghost i: nat) returns (next: int)
    requires argz == Argz(dirs)
    requires entry < 0 ==> i == 0
    requires entry >= 0 ==> 0 < i <= |dirs| && entry == StartOf(dirs, i - 1)
    ensures i < |dirs| ==> next == StartOf(dirs, i)
    ensures i == |dirs| ==> next == -1
  {
    assert dirs[..0] == [];
    ArgzAt(dirs, i);
    if entry >= 0 {
      next := entry;
      ArgzAt(dirs, i - 1);
      if entry < |argz| {
        MarkedNext(dirs, i - 1, 0);
        var part := StrLen(argz, entry, dirs[i - 1], Argz(dirs[i..]));
        next := entry + part + 1;
      }
      next := if next >= |argz| then -1 else next;
    } else if |argz| > 0 {
      next := 0;
    } else {
      next := -1;
    }
  }

  lemma StringParts(s: seq<int>, p: nat, size: nat, d: seq<int>, tail: seq<int>)
    requires p <= size <= |s| && s[p..size] == d + [0] + tail
    ensures p + |d| < size
    ensures s[..p + |d|] == s[..p] + d
    ensures s[p + |d|] == 0
    ensures s[p + |d| + 1..size] == tail
    ensures s[..size][p..] == s[p..size]
  {
    var rest := s[p..size];
    assert rest[..|d|] == d && rest[|d|] == 0 && rest[|d| + 1..] == tail;
    assert s[..p + |d|] == s[..p] + rest[..|d|];
    assert s[p + |d| + 1..size] == rest[|d| + 1..];
  }

  /** The vector of the one string at `p`: the bytes from there to the end of that string. */
  method FirstString(argz: seq<int>, p: nat, ghost dirs: seq<CString>, ghost i: nat) returns (one: seq<int>)
    requires argz == Argz(dirs) && i < |dirs| && p == StartOf(dirs, i)
    ensures one == Argz([dirs[i]])
  {
    ArgzAt(dirs, i);
    MarkedNext(dirs, i, 0);
    MarkedOne(dirs[i], 0);
    ghost var tail := Argz(dirs[i + 1..]);
    var n := StrLen(argz, p, dirs[i], tail);
    ghost var rest := argz[p..];
    assert rest[..n + 1] == dirs[i] + [0];
    assert argz[p..p + n + 1] == rest[..n + 1];
    one := argz[p..p + n + 1];
  }

  /** The length of string `i`, and what is before and after its NUL. */
  method PartAt(buf: array<int>, p: nat, size: nat, ghost dirs: seq<CString>, ghost i: nat) returns (part: nat)
    requires i < |dirs| && p <= size <= buf.Length && buf[p..size] == Argz(dirs[i..])
    ensures part == |dirs[i]| && p + part < size && buf[p + part] == 0
    ensures buf[..p + part] == buf[..p] + dirs[i]
    ensures buf[p + part + 1..size] == Argz(dirs[i + 1..])
  {
    MarkedNext(dirs, i, 0);
    assert buf[..size][p..] == buf[p..size];
    part := StrLen(buf[..size], p, dirs[i], Argz(dirs[i + 1..]));
    StringParts(buf[..], p, size, dirs[i], Argz(dirs[i + 1..]));
    assert buf[..][..p + part] == buf[..p + part] && buf[..][..p] == buf[..p];
    assert buf[..][p + part + 1..size] == buf[p + part + 1..size];
  }

  /** `__argz_stringify`: every NUL except the last becomes `sep`. */
  method Stringify(buf: array<int>, size: nat, sep: int, ghost dirs: seq<CString>)
    requires dirs != [] && 1 <= sep <= 255 && size <= buf.Length && buf[..size] == Argz(dirs)
    modifies buf
    ensures buf[..size] == Join(dirs, sep) + [0]
    ensures forall k :: size <= k < buf.Length ==> buf[k] == old(buf[k])
  {
    var p, len := 0, size;
    ghost var i := 0;
    assert dirs[0..] == dirs && dirs[..0] == [];
    while len > 0
      invariant len > 0 ==> i < |dirs| && len == size - p
      invariant len > 0 ==> buf[..p] == Marked(dirs[..i], sep) && buf[p..size] == Argz(dirs[i..])
      invariant len == 0 ==> buf[..size] == Join(dirs, sep) + [0]
      invariant forall k :: size <= k < buf.Length ==> buf[k] == old(buf[k])
      decreases len
    {
      var part := PartAt(buf, p, size, dirs, i);
      p := p + part;
      len := len - (part + 1);
      if len > 0 {
        MarkedNext(dirs, i, sep);
        assert i + 1 < |dirs| by {
          MarkedSize(dirs[i + 1..], 0, 0);
          assert |buf[p + 1..size]| > 0;
        }
        buf[p] := sep;
        p := p + 1;
        i := i + 1;
      } else {
        assert p + 1 == size;
        MarkedLast(dirs, i, sep);
        assert buf[..size] == buf[..p] + [buf[p]];
      }
    }
  }
}
