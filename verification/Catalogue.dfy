/** Finding a message in a catalogue: the hash table and the binary search. */
module Catalogue {
  import opened Arithmetic
  import opened CStrings
  import opened Options
  import opened Probe
  import opened MessageHash

  /** The values the bytes have as `char`. */
  function CharValues(signedChar: bool, s: CString): seq<int> {
    seq(|s|, i requires 0 <= i < |s| => if signedChar && s[i] >= 128 then s[i] - 256 else s[i])
  }

  /** An original string: its key up to the first NUL, and the recorded length,
      which is larger where a plural form follows the NUL. */
  datatype Entry = Entry(key: CString, length: nat)

  /** The strings in the order of the file, and the hash table: 0 for an empty
      slot, otherwise the number of a string plus one. */
  datatype Domain = Domain(signedChar: bool, entries: seq<Entry>, hashTab: seq<nat>)

  ghost predicate Sorted(entries: seq<Entry>) {
    forall i, j :: 0 <= i < j < |entries| ==> StrCmp(entries[i].key, entries[j].key) < 0
  }

  function HashVal(signedChar: bool, key: CString): nat {
    Hash(32, CharValues(signedChar, key))
  }

  function Start(size: nat, h: nat): (r: nat)
    requires size > 2
    ensures r < size
  {
    h % size
  }

  function Incr(size: nat, h: nat): (r: nat)
    requires size > 2
    ensures 0 < r < size
  {
    1 + h % (size - 2)
  }

  /** The `k`-th slot on the path of a hash value. */
  function PathSlot(size: nat, h: nat, k: nat): (s: nat)
    requires size > 2
    ensures s < size
  {
    Slot(size, Start(size, h), Incr(size, h), k)
  }

  /** Two hash values have the same path exactly if they agree modulo the size and modulo the size less two. */
  lemma SamePathExactly(size: nat, g: nat, h: nat)
    requires size > 2
    ensures (forall k: nat :: PathSlot(size, g, k) == PathSlot(size, h, k)) <==>
            g % size == h % size && g % (size - 2) == h % (size - 2)
  {
    if forall k: nat :: PathSlot(size, g, k) == PathSlot(size, h, k) {
      FirstSlots(size, g);
      FirstSlots(size, h);
      assert PathSlot(size, g, 0) == PathSlot(size, h, 0) && PathSlot(size, g, 1) == PathSlot(size, h, 1);
    }
  }

  lemma FirstSlots(size: nat, h: nat)
    requires size > 2
    ensures PathSlot(size, h, 0) == h % size
    ensures var s, i := h % size, h % (size - 2) + 1;
            PathSlot(size, h, 1) == if s + i < size then s + i else s + i - size
  {
    var s, i := Start(size, h), Incr(size, h);
    assert s + 0 * i == s && s + 1 * i == s + i;
    QuotientUnique(s, 0, s, size);
    if s + i < size {
      QuotientUnique(s + i, 0, s + i, size);
    } else {
      QuotientUnique(s + i, 1, s + i - size, size);
    }
  }

  /** What the `k`-th probe for a hash value reads. */
  function Read(tab: seq<nat>, h: nat, k: nat): nat
    requires |tab| > 2
  {
    tab[PathSlot(|tab|, h, k)]
  }

  /** String `j` is stored on the path of `h` with no empty slot before it. */
  ghost predicate Placed(tab: seq<nat>, h: nat, j: nat)
    requires |tab| > 2
  {
    exists k: nat :: k < |tab| && Read(tab, h, k) == j + 1 && Unbroken(tab, h, k)
  }

  ghost predicate Unbroken(tab: seq<nat>, h: nat, k: nat)
    requires |tab| > 2
  {
    forall i: nat :: i < k ==> Read(tab, h, i) != 0
  }

  /** A table filled along the probe sequence. */
  ghost predicate Hashed(d: Domain, hash: CString -> nat) {
    && |d.hashTab| > 2
    && Prime(|d.hashTab|)
    && (exists s :: 0 <= s < |d.hashTab| && d.hashTab[s] == 0)
    && (forall s :: 0 <= s < |d.hashTab| ==> d.hashTab[s] <= |d.entries|)
    && (forall j: nat :: j < |d.entries| ==> Placed(d.hashTab, hash(d.entries[j].key), j))
  }

  ghost predicate WellFormed(d: Domain) {
    && Sorted(d.entries)
    && (forall e | e in d.entries :: e.length >= |e.key|)
    && (|d.hashTab| > 2 ==> Hashed(d, key => HashVal(d.signedChar, key)))
  }

  /** The specification: the index of the string whose key is `msgid`. */
  function Lookup(entries: seq<Entry>, msgid: CString): (r: Option<nat>)
    ensures r.Some? ==> r.value < |entries| && entries[r.value].key == msgid
    ensures r.None? ==> forall e | e in entries :: e.key != msgid
  {
    if entries == [] then None
    else
      var n := |entries| - 1;
      if entries[n].key == msgid then Some(n) else Lookup(entries[..n], msgid)
  }

  /** In a sorted catalogue the index of a key is unique. */
  lemma LookupUnique(entries: seq<Entry>, msgid: CString, j: nat)
    requires Sorted(entries) && j < |entries| && entries[j].key == msgid
    ensures Lookup(entries, msgid) == Some(j)
  {
    var r := Lookup(entries, msgid);
    assert entries[j] in entries;
    StrCmpEqual(msgid, msgid);
  }

  // ----- The two searches -----

  /** The first `k` probes for `msgid` read other strings. */
  ghost predicate Missed(d: Domain, hash: CString -> nat, msgid: CString, k: nat)
    requires Hashed(d, hash)
  {
    var h := hash(msgid);
    forall i: nat :: i < k ==>
      Read(d.hashTab, h, i) != 0 && d.entries[Read(d.hashTab, h, i) - 1].key != msgid
  }

  lemma FirstSlot(size: nat, h: nat)
    requires size > 2
    ensures PathSlot(size, h, 0) == h % size
  {
    QuotientUnique(h % size, 0, h % size, size);
  }

  lemma FollowPath(size: nat, h: nat, k: nat)
    requires size > 2
    ensures NextIndex(size, PathSlot(size, h, k), Incr(size, h)) == PathSlot(size, h, k + 1)
  {
    NextSlot(size, Start(size, h), Incr(size, h), k);
  }

  /** Every path meets the empty slot. */
  lemma EmptySlotOnPath(tab: seq<nat>, h: nat) returns (k: nat)
    requires |tab| > 2 && Prime(|tab|) && exists s :: 0 <= s < |tab| && tab[s] == 0
    ensures k < |tab| && Read(tab, h, k) == 0
  {
    var s :| 0 <= s < |tab| && tab[s] == 0;
    k := EverySlotProbedOnce(|tab|, Start(|tab|, h), Incr(|tab|, h), s);
  }

  /** A string that is there is met before the first empty slot of its path. */
  lemma PresentOnPath(d: Domain, hash: CString -> nat, msgid: CString, k: nat, j: nat)
    requires Hashed(d, hash) && Missed(d, hash, msgid, k)
    requires j < |d.entries| && d.entries[j].key == msgid
    ensures Read(d.hashTab, hash(msgid), k) != 0
  {
    var h := hash(msgid);
    assert Placed(d.hashTab, h, j);
    var i: nat :| i < |d.hashTab| && Read(d.hashTab, h, i) == j + 1 && Unbroken(d.hashTab, h, i);
  }

  lemma AbsentOnPath(d: Domain, hash: CString -> nat, msgid: CString, k: nat)
    requires Hashed(d, hash) && Missed(d, hash, msgid, k)
    requires Read(d.hashTab, hash(msgid), k) == 0
    ensures Lookup(d.entries, msgid) == None
  {
    var r := Lookup(d.entries, msgid);
    if r.Some? {
      PresentOnPath(d, hash, msgid, k, r.value);
    }
  }

  /** The hash value as a 32-bit word. */
  method HashWord(signedChar: bool, width: nat, msgid: CString) returns (hashVal: nat)
    requires width >= 32
    ensures hashVal == HashVal(signedChar, msgid)
  {
    var h := HashString(width, CharValues(signedChar, msgid));
    HashLowWord(width, CharValues(signedChar, msgid));
    hashVal := h % WORD;
  }

  /** One comparison of the hash search. */
  method Matches(e: Entry, msgid: CString) returns (b: bool)
    requires e.length >= |e.key|
    ensures b <==> e.key == msgid
  {
    StrCmpEqual(msgid, e.key);
    b := e.length >= |msgid| && StrCmp(msgid, e.key) == 0;
  }

  /** The end of the search loop: one step along the path, without overflow. */
  method Advance(size: nat, idx0: nat, incr: nat, ghost h: nat, ghost k: nat) returns (idx: nat)
    requires size > 2 && idx0 == PathSlot(size, h, k) && incr == Incr(size, h)
    ensures idx == PathSlot(size, h, k + 1)
  {
    FollowPath(size, h, k);
    idx := idx0;
    if idx >= size - incr {
      idx := idx - (size - incr);
    } else {
      idx := idx + incr;
    }
  }

  lemma MissedNext(d: Domain, hash: CString -> nat, msgid: CString, k: nat)
    requires Hashed(d, hash) && Missed(d, hash, msgid, k)
    requires var n := Read(d.hashTab, hash(msgid), k); n != 0 && d.entries[n - 1].key != msgid
    ensures Missed(d, hash, msgid, k + 1)
  {
  }

  /** The search along the hash table, whatever the hash function that filled it. */
  method FindHashed(d: Domain, ghost hash: CString -> nat, hashVal: nat, msgid: CString) returns (act: Option<nat>)
    requires Sorted(d.entries) && (forall e | e in d.entries :: e.length >= |e.key|)
    requires Hashed(d, hash) && hashVal == hash(msgid)
    ensures act == Lookup(d.entries, msgid)
  {
    var size := |d.hashTab|;
    var idx, incr := hashVal % size, 1 + hashVal % (size - 2);
    ghost var end := EmptySlotOnPath(d.hashTab, hashVal);
    ghost var k: nat := 0;
    FirstSlot(size, hashVal);
    while true
      invariant k <= end && idx == PathSlot(size, hashVal, k)
      invariant Missed(d, hash, msgid, k)
      decreases end - k
    {
      var nstr := d.hashTab[idx];
      assert nstr == Read(d.hashTab, hashVal, k);
      if nstr == 0 {
        AbsentOnPath(d, hash, msgid, k);
        return None;
      }
      assert d.entries[nstr - 1] in d.entries;
      var found := Matches(d.entries[nstr - 1], msgid);
      if found {
        LookupUnique(d.entries, msgid, nstr - 1);
        return Some(nstr - 1);
      }
      MissedNext(d, hash, msgid, k);
      idx := Advance(size, idx, incr, hashVal, k);
      k := k + 1;
    }
  }

  /** The binary search. */
  method FindBinary(d: Domain, msgid: CString) returns (act: Option<nat>)
    requires Sorted(d.entries)
    ensures act == Lookup(d.entries, msgid)
  {
    var bottom, top := 0, |d.entries|;
    while bottom < top
      invariant 0 <= bottom <= top <= |d.entries|
      invariant forall i :: 0 <= i < bottom ==> StrCmp(d.entries[i].key, msgid) < 0
      invariant forall i :: top <= i < |d.entries| ==> StrCmp(msgid, d.entries[i].key) < 0
    {
      var i := (bottom + top) / 2;
      var cmpVal := StrCmp(msgid, d.entries[i].key);
      if cmpVal < 0 {
        forall j | i <= j < |d.entries|
          ensures StrCmp(msgid, d.entries[j].key) < 0
        {
          if i < j {
            StrCmpTransitive(msgid, d.entries[i].key, d.entries[j].key);
          }
        }
        top := i;
      } else if cmpVal > 0 {
        StrCmpAntisymmetric(d.entries[i].key, msgid);
        forall j | 0 <= j <= i
          ensures StrCmp(d.entries[j].key, msgid) < 0
        {
          if j < i {
            StrCmpTransitive(d.entries[j].key, d.entries[i].key, msgid);
          }
        }
        bottom := i + 1;
      } else {
        StrCmpEqual(msgid, d.entries[i].key);
        LookupUnique(d.entries, msgid, i);
        return Some(i);
      }
    }
    StrCmpEqual(msgid, msgid);
    return None;
  }

  /** `_nl_find_msg`, up to the index: both branches give the same answer. */
  method FindMsg(d: Domain, width: nat, msgid: CString) returns (act: Option<nat>)
    requires WellFormed(d) && width >= 32
    ensures act == Lookup(d.entries, msgid)
  {
    if |d.hashTab| > 2 {
      var hashVal := HashWord(d.signedChar, width, msgid);
      act := FindHashed(d, key => HashVal(d.signedChar, key), hashVal, msgid);
    } else {
      act := FindBinary(d, msgid);
    }
  }

  // ----- Tables made by inserting -----

  ghost predicate HasEmpty(tab: seq<nat>) {
    exists s :: 0 <= s < |tab| && tab[s] == 0
  }

  /** The first empty slot on a path. */
  lemma LeastFree(tab: seq<nat>, h: nat, k: nat) returns (w: nat)
    requires |tab| > 2 && k < |tab| && Read(tab, h, k) == 0
    ensures w <= k && Read(tab, h, w) == 0 && Unbroken(tab, h, w)
  {
    w := 0;
    while Read(tab, h, w) != 0
      invariant 0 <= w <= k && Unbroken(tab, h, w)
      decreases k - w
    {
      w := w + 1;
    }
  }

  lemma FreeOnPath(tab: seq<nat>, h: nat)
    requires |tab| > 2 && Prime(|tab|) && HasEmpty(tab)
    ensures exists w: nat :: w < |tab| && Read(tab, h, w) == 0 && Unbroken(tab, h, w)
  {
    var k := EmptySlotOnPath(tab, h);
    var w := LeastFree(tab, h, k);
  }

  /** Stores string `j` in the first empty slot of its path. */
  ghost function Insert(tab: seq<nat>, h: nat, j: nat): (t: seq<nat>)
    requires |tab| > 2 && Prime(|tab|) && HasEmpty(tab)
    ensures |t| == |tab|
  {
    FreeOnPath(tab, h);
    var w: nat :| w < |tab| && Read(tab, h, w) == 0 && Unbroken(tab, h, w);
    tab[PathSlot(|tab|, h, w) := j + 1]
  }

  lemma InsertPlaces(tab: seq<nat>, h: nat, j: nat)
    requires |tab| > 2 && Prime(|tab|) && HasEmpty(tab)
    ensures Placed(Insert(tab, h, j), h, j)
  {
    FreeOnPath(tab, h);
    var w: nat :| w < |tab| && Read(tab, h, w) == 0 && Unbroken(tab, h, w) &&
                  Insert(tab, h, j) == tab[PathSlot(|tab|, h, w) := j + 1];
    var t := Insert(tab, h, j);
    assert Read(t, h, w) == j + 1;
    assert Unbroken(t, h, w) by {
      forall i: nat | i < w
        ensures Read(t, h, i) != 0
      {
        assert Read(tab, h, i) != 0;
      }
    }
  }

  lemma InsertKeeps(tab: seq<nat>, h: nat, j: nat, h': nat, j': nat)
    requires |tab| > 2 && Prime(|tab|) && HasEmpty(tab) && Placed(tab, h', j')
    ensures Placed(Insert(tab, h, j), h', j')
  {
    var t := Insert(tab, h, j);
    var k: nat :| k < |tab| && Read(tab, h', k) == j' + 1 && Unbroken(tab, h', k);
    assert forall s :: 0 <= s < |tab| && tab[s] != 0 ==> t[s] == tab[s];
    assert Read(t, h', k) == j' + 1;
    assert Unbroken(t, h', k) by {
      forall i: nat | i < k
        ensures Read(t, h', i) != 0
      {
        assert Read(tab, h', i) != 0;
      }
    }
  }

  ghost function Used(tab: seq<nat>): set<nat> {
    set s: nat | s < |tab| && tab[s] != 0
  }

  lemma FullTable(tab: seq<nat>)
    requires !HasEmpty(tab)
    ensures |Used(tab)| == |tab|
  {
    assert Used(tab) == Below(|tab|);
  }

  lemma EmptyLeft(tab: seq<nat>)
    requires |Used(tab)| < |tab|
    ensures HasEmpty(tab)
  {
    if !HasEmpty(tab) {
      FullTable(tab);
    }
  }

  lemma InsertUses(tab: seq<nat>, h: nat, j: nat)
    requires |tab| > 2 && Prime(|tab|) && HasEmpty(tab)
    ensures |Used(Insert(tab, h, j))| <= |Used(tab)| + 1
  {
    FreeOnPath(tab, h);
    var w: nat :| w < |tab| && Read(tab, h, w) == 0 && Unbroken(tab, h, w) &&
                  Insert(tab, h, j) == tab[PathSlot(|tab|, h, w) := j + 1];
    assert Used(Insert(tab, h, j)) == Used(tab) + {PathSlot(|tab|, h, w)};
  }

  /** What holds of the table after the first `n` strings went in. */
  ghost predicate FilledWith(tab: seq<nat>, d: Domain, hash: CString -> nat, n: nat) {
    && |tab| > 2 && Prime(|tab|)
    && n <= |d.entries| < |tab|
    && |Used(tab)| <= n
    && (forall s :: 0 <= s < |tab| ==> tab[s] <= n)
    && (forall j: nat :: j < n ==> Placed(tab, hash(d.entries[j].key), j))
  }

  /** Inserting the strings in order keeps every earlier one findable, and a table
      larger than the number of strings keeps an empty slot: the search's
      requirements are what insertion establishes. */
  lemma InsertFills(tab: seq<nat>, d: Domain, hash: CString -> nat, n: nat)
    requires FilledWith(tab, d, hash, n) && n < |d.entries|
    ensures HasEmpty(tab)
    ensures FilledWith(Insert(tab, hash(d.entries[n].key), n), d, hash, n + 1)
  {
    EmptyLeft(tab);
    var h := hash(d.entries[n].key);
    InsertPlaces(tab, h, n);
    InsertUses(tab, h, n);
    forall j: nat | j < n
      ensures Placed(Insert(tab, h, n), hash(d.entries[j].key), j)
    {
      InsertKeeps(tab, h, n, hash(d.entries[j].key), j);
    }
  }

  lemma EmptyIsFilled(tab: seq<nat>, d: Domain, hash: CString -> nat)
    requires |tab| > 2 && Prime(|tab|) && |d.entries| < |tab|
    requires forall s :: 0 <= s < |tab| ==> tab[s] == 0
    ensures FilledWith(tab, d, hash, 0)
  {
    assert Used(tab) == {};
  }

  /** The table after the strings from the `n`th on went in, one after the other. */
  ghost function Fill(tab: seq<nat>, d: Domain, hash: CString -> nat, n: nat): (t: seq<nat>)
    requires FilledWith(tab, d, hash, n)
    ensures FilledWith(t, d, hash, |d.entries|)
    decreases |d.entries| - n
  {
    if n == |d.entries| then tab
    else
      InsertFills(tab, d, hash, n);
      Fill(Insert(tab, hash(d.entries[n].key), n), d, hash, n + 1)
  }

  /** An empty table of that size, with all strings inserted. */
  ghost function FillEmpty(d: Domain, hash: CString -> nat, size: nat): (t: seq<nat>)
    requires size > 2 && Prime(size) && |d.entries| < size
    ensures FilledWith(t, d, hash, |d.entries|)
  {
    var tab := seq(size, _ => 0);
    EmptyIsFilled(tab, d, hash);
    Fill(tab, d, hash, 0)
  }

  lemma FilledIsHashed(d: Domain, hash: CString -> nat)
    requires FilledWith(d.hashTab, d, hash, |d.entries|)
    ensures Hashed(d, hash)
  {
    EmptyLeft(d.hashTab);
  }

  /** Inserting all strings, in order, into an empty table makes what the hash branch requires. */
  lemma FillIsHashed(d: Domain, hash: CString -> nat, size: nat)
    requires size > 2 && Prime(size) && |d.entries| < size
    ensures Hashed(d.(hashTab := FillEmpty(d, hash, size)), hash)
  {
    var tab := FillEmpty(d, hash, size);
    assert FilledWith(tab, d.(hashTab := tab), hash, |d.entries|);
    FilledIsHashed(d.(hashTab := tab), hash);
  }
}
