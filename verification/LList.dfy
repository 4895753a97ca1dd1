/** The doubly linked list. A list is passed by its first node, NULL for the empty
    list; the ghost sequence of its nodes says what it is made of. */
module LList {
  import opened Sequences

  class Node<T> {
    var next: Node?<T>
    var prev: Node?<T>
    var data: T

    constructor (data: T)
      ensures this.data == data && next == null && prev == null
    {
      this.data, next, prev := data, null, null;
    }
  }

  ghost predicate Distinct<T>(s: seq<T>) {
    forall i, j :: 0 <= i < j < |s| ==> s[i] != s[j]
  }

  /** `next` and `prev` of the nodes run through the sequence in both directions. */
  ghost predicate Linked<T>(nodes: seq<Node<T>>)
    reads nodes
  {
    && (forall i {:trigger nodes[i].next} :: 0 <= i < |nodes| ==> nodes[i].next == After(nodes, i))
    && (forall i {:trigger nodes[i].prev} :: 0 <= i < |nodes| ==> nodes[i].prev == Before(nodes, i))
  }

  ghost function After<T>(nodes: seq<Node<T>>, i: nat): Node?<T>
    requires i < |nodes|
  {
    if i + 1 < |nodes| then nodes[i + 1] else null
  }

  ghost function Before<T>(nodes: seq<Node<T>>, i: nat): Node?<T>
    requires i < |nodes|
  {
    if i > 0 then nodes[i - 1] else null
  }

  ghost function Head<T>(nodes: seq<Node<T>>): Node?<T> {
    if nodes == [] then null else nodes[0]
  }

  ghost predicate IsList<T>(list: Node?<T>, nodes: seq<Node<T>>)
    reads nodes
  {
    list == Head(nodes) && Distinct(nodes) && Linked(nodes)
  }

  ghost function Data<T>(nodes: seq<Node<T>>): seq<T>
    reads nodes
  {
    seq(|nodes|, i requires 0 <= i < |nodes| reads nodes => nodes[i].data)
  }

  /** The last node, by walking the list. */
  method Last<T>(list: Node?<T>, ghost nodes: seq<Node<T>>) returns (last: Node?<T>)
    requires IsList(list, nodes)
    ensures last == if nodes == [] then null else nodes[|nodes| - 1]
  {
    last := null;
    var n := list;
    ghost var i := 0;
    while n != null
      invariant 0 <= i <= |nodes|
      invariant n == if i < |nodes| then nodes[i] else null
      invariant last == if i > 0 then nodes[i - 1] else null
      decreases |nodes| - i
    {
      last := n;
      n := n.next;
      i := i + 1;
    }
  }

  /** Two lists become one when the last node of the first and the first node of
      the second point to each other. */
  lemma Joined<T>(nodes: seq<Node<T>>, more: seq<Node<T>>)
    requires nodes != [] && more != []
    requires forall i {:trigger nodes[i].next} :: 0 <= i < |nodes| - 1 ==> nodes[i].next == After(nodes, i)
    requires forall i {:trigger nodes[i].prev} :: 0 <= i < |nodes| ==> nodes[i].prev == Before(nodes, i)
    requires forall i {:trigger more[i].next} :: 0 <= i < |more| ==> more[i].next == After(more, i)
    requires forall i {:trigger more[i].prev} :: 1 <= i < |more| ==> more[i].prev == Before(more, i)
    requires more[0].prev == nodes[|nodes| - 1] && nodes[|nodes| - 1].next == more[0]
    ensures Linked(nodes + more)
  {
    var all := nodes + more;
    forall i {:trigger all[i].next} | 0 <= i < |all|
      ensures all[i].next == After(all, i) && all[i].prev == Before(all, i)
    {
      assert all[i] == if i < |nodes| then nodes[i] else more[i - |nodes|];
    }
  }

  /** `l_list_append`. */
  method Append<T>(list: Node?<T>, data: T, ghost nodes: seq<Node<T>>) returns (r: Node<T>, ghost out: seq<Node<T>>)
    requires IsList(list, nodes)
    modifies nodes
    ensures IsList(r, out) && |out| == |nodes| + 1 && out[..|nodes|] == nodes && fresh(out[|nodes|])
    ensures Data(out) == old(Data(nodes)) + [data]
  {
    var newList := new Node(data);
    var attachTo := Last(list, nodes);
    out := nodes + [newList];
    if attachTo == null {
      newList.prev := null;
      r := newList;
    } else {
      newList.prev := attachTo;
      attachTo.next := newList;
      Joined(nodes, [newList]);
      r := list;
    }
  }

  /** `l_list_prepend`. */
  method Prepend<T>(list: Node?<T>, data: T, ghost nodes: seq<Node<T>>) returns (r: Node<T>, ghost out: seq<Node<T>>)
    requires IsList(list, nodes)
    modifies nodes
    ensures IsList(r, out) && fresh(r) && out == [r] + nodes
    ensures Data(out) == [data] + old(Data(nodes))
  {
    r := new Node(data);
    r.next := list;
    if list != null {
      list.prev := r;
    }
    out := [r] + nodes;
  }

  /** `l_list_concat`; the two lists share no node. */
  method Concat<T>(list: Node?<T>, add: Node?<T>, ghost nodes: seq<Node<T>>, ghost more: seq<Node<T>>)
    returns (r: Node?<T>)
    requires IsList(list, nodes) && IsList(add, more) && Distinct(nodes + more)
    modifies nodes, more
    ensures IsList(r, nodes + more)
    ensures Data(nodes + more) == old(Data(nodes)) + old(Data(more))
  {
    if list == null {
      assert nodes + more == more;
      return add;
    }
    if add == null {
      assert nodes + more == nodes;
      return list;
    }
    var l := list;
    ghost var k := 0;
    while l.next != null
      invariant 0 <= k < |nodes| && l == nodes[k]
      decreases |nodes| - k
    {
      l := l.next;
      k := k + 1;
    }
    assert forall i, j :: 0 <= i < |nodes| && 0 <= j < |more| ==> nodes[i] != more[j] by {
      Apart(nodes, more);
    }
    l.next := add;
    add.prev := l;
    Joined(nodes, more);
    r := list;
  }

  lemma Apart<T>(a: seq<T>, b: seq<T>)
    requires Distinct(a + b)
    ensures forall i, j :: 0 <= i < |a| && 0 <= j < |b| ==> a[i] != b[j]
  {
    forall i, j | 0 <= i < |a| && 0 <= j < |b|
      ensures a[i] != b[j]
    {
      assert (a + b)[i] != (a + b)[|a| + j];
    }
  }

  /** The list without entry `k`. */
  ghost function Without<T>(s: seq<T>, k: nat): (r: seq<T>)
    requires k < |s|
    ensures |r| == |s| - 1
    ensures forall i :: 0 <= i < |r| ==> r[i] == s[if i < k then i else i + 1]
  {
    s[..k] + s[k + 1..]
  }

  /** Around a bypassed node the links run through the others. */
  lemma Bypassed<T>(nodes: seq<Node<T>>, k: nat)
    requires k < |nodes|
    requires forall i {:trigger nodes[i].next} :: 0 <= i < |nodes| && i != k - 1 ==> nodes[i].next == After(nodes, i)
    requires forall i {:trigger nodes[i].prev} :: 0 <= i < |nodes| && i != k + 1 ==> nodes[i].prev == Before(nodes, i)
    requires k + 1 < |nodes| ==> nodes[k + 1].prev == Before(nodes, k)
    requires k > 0 ==> nodes[k - 1].next == After(nodes, k)
    ensures Linked(Without(nodes, k))
  {
    var out := Without(nodes, k);
    forall i {:trigger out[i].next} | 0 <= i < |out|
      ensures out[i].next == After(out, i) && out[i].prev == Before(out, i)
    {
      assert out[i] == nodes[if i < k then i else i + 1];
    }
  }

  /** `l_list_remove_link`; the link must be part of the list. It keeps its own
      pointers. */
  method RemoveLink<T>(list: Node?<T>, link: Node?<T>, ghost nodes: seq<Node<T>>, ghost k: nat) returns (r: Node?<T>)
    requires IsList(list, nodes)
    requires link != null ==> k < |nodes| && nodes[k] == link
    modifies nodes
    ensures link == null ==> r == list && IsList(r, nodes) && Data(nodes) == old(Data(nodes))
    ensures link != null ==> IsList(r, Without(nodes, k)) && Data(Without(nodes, k)) == Without(old(Data(nodes)), k)
    ensures link != null ==>
              link.next == old(link.next) && link.prev == old(link.prev) && link.data == old(link.data)
  {
    if link == null {
      return list;
    }
    assert link.next == After(nodes, k) && link.prev == Before(nodes, k);
    if link.next != null {
      link.next.prev := link.prev;
    }
    if link.prev != null {
      link.prev.next := link.next;
    }
    Bypassed(nodes, k);
    r := if link == list then link.next else list;
  }

  /** Where a value first occurs. */
  ghost function FirstIndex<T>(s: seq<T>, x: T): (k: nat)
    ensures k <= |s| && x !in s[..k] && (k < |s| ==> s[k] == x)
  {
    if s == [] || s[0] == x then 0
    else
      var k := FirstIndex(s[1..], x);
      assert s[..k + 1] == [s[0]] + s[1..][..k];
      k + 1
  }

  /** `l_list_find`: the first node with the value. */
  method Find<T(==)>(list: Node?<T>, data: T, ghost nodes: seq<Node<T>>) returns (l: Node?<T>)
    requires IsList(list, nodes)
    ensures var k := FirstIndex(Data(nodes), data); l == if k < |nodes| then nodes[k] else null
  {
    l := list;
    ghost var i := 0;
    while l != null && l.data != data
      invariant 0 <= i <= |nodes|
      invariant l == if i < |nodes| then nodes[i] else null
      invariant data !in Data(nodes)[..i]
      decreases |nodes| - i
    {
      l := l.next;
      i := i + 1;
    }
    FirstIndexIs(Data(nodes), data, i);
  }

  lemma {:induction false} FirstIndexIs<T>(s: seq<T>, x: T, k: nat)
    requires k <= |s| && x !in s[..k] && (k < |s| ==> s[k] == x)
    ensures FirstIndex(s, x) == k
  {
    if k > 0 {
      assert s[..k] == [s[0]] + s[1..][..k - 1];
      FirstIndexIs(s[1..], x, k - 1);
    }
  }

  /** `l_list_remove`: drops the first node with the value. */
  method Remove<T(==)>(list: Node?<T>, data: T, ghost nodes: seq<Node<T>>)
    returns (r: Node?<T>, ghost out: seq<Node<T>>)
    requires IsList(list, nodes)
    modifies nodes
    ensures var k := FirstIndex(old(Data(nodes)), data); out == if k < |nodes| then Without(nodes, k) else nodes
    ensures IsList(r, out)
    ensures var s := old(Data(nodes)); var k := FirstIndex(s, data);
            Data(out) == if k < |s| then Without(s, k) else s
  {
    var n := list;
    ghost var i := 0;
    while n != null
      invariant 0 <= i <= |nodes|
      invariant n == if i < |nodes| then nodes[i] else null
      invariant data !in Data(nodes)[..i]
      invariant IsList(list, nodes) && Data(nodes) == old(Data(nodes))
      decreases |nodes| - i
    {
      if n.data == data {
        FirstIndexIs(Data(nodes), data, i);
        r := RemoveLink(list, n, nodes, i);
        out := Without(nodes, i);
        return;
      }
      n := n.next;
      i := i + 1;
    }
    FirstIndexIs(Data(nodes), data, i);
    return list, nodes;
  }

  /** `l_list_length`. */
  method Length<T>(list: Node?<T>, ghost nodes: seq<Node<T>>) returns (count: nat)
    requires IsList(list, nodes)
    ensures count == |nodes|
  {
    count := 0;
    var n := list;
    while n != null
      invariant count <= |nodes| && n == if count < |nodes| then nodes[count] else null
      decreases |nodes| - count
    {
      count := count + 1;
      n := n.next;
    }
  }

  /** `l_list_nth`; a negative position runs off the end. */
  method Nth<T>(list: Node?<T>, n: int, ghost nodes: seq<Node<T>>) returns (l: Node?<T>)
    requires IsList(list, nodes)
    ensures l == if 0 <= n < |nodes| then nodes[n] else null
  {
    l := list;
    var i := n;
    ghost var k := 0;
    while l != null && i != 0
      invariant 0 <= k <= |nodes| && i == n - k && (0 <= n ==> 0 <= i)
      invariant l == if k < |nodes| then nodes[k] else null
      decreases |nodes| - k
    {
      l := l.next;
      i := i - 1;
      k := k + 1;
    }
  }

  /** `l_list_copy`: new nodes, the same data, and the original as it was. */
  method Copy<T>(list: Node?<T>, ghost nodes: seq<Node<T>>) returns (copy: Node?<T>, ghost out: seq<Node<T>>)
    requires IsList(list, nodes)
    ensures IsList(copy, out) && fresh(set x | x in out)
    ensures Data(out) == Data(nodes)
  {
    copy, out := null, [];
    var n := list;
    ghost var i := 0;
    while n != null
      invariant 0 <= i <= |nodes| && n == if i < |nodes| then nodes[i] else null
      invariant IsList(copy, out) && fresh(set x | x in out)
      invariant Data(out) == Data(nodes)[..i]
      decreases |nodes| - i
    {
      ghost var before := out;
      copy, out := Append(copy, n.data, out);
      assert forall x | x in out :: x in before || x == out[|before|];
      n := n.next;
      i := i + 1;
    }
    assert Data(nodes)[..|nodes|] == Data(nodes);
  }

  // ----- Sorted insertion -----

  /** Where `l_list_insert_sorted` puts a value: behind everything not above it. */
  function InsertAt<T>(s: seq<T>, x: T, comp: (T, T) -> int): (k: nat)
    ensures k <= |s|
    ensures forall i :: 0 <= i < k ==> comp(s[i], x) <= 0
    ensures k < |s| ==> comp(s[k], x) > 0
  {
    if s == [] || comp(s[0], x) > 0 then 0 else 1 + InsertAt(s[1..], x, comp)
  }

  function InsertSorted<T>(s: seq<T>, x: T, comp: (T, T) -> int): seq<T> {
    var k := InsertAt(s, x, comp);
    s[..k] + [x] + s[k..]
  }

  lemma {:induction false} InsertAtIs<T>(s: seq<T>, x: T, comp: (T, T) -> int, k: nat)
    requires k <= |s| && (forall i :: 0 <= i < k ==> comp(s[i], x) <= 0) && (k < |s| ==> comp(s[k], x) > 0)
    ensures InsertAt(s, x, comp) == k
  {
    if k > 0 {
      InsertAtIs(s[1..], x, comp, k - 1);
    }
  }

  /** Splicing a new node in at `k`. */
  ghost function Spliced<T>(s: seq<T>, k: nat, x: T): (r: seq<T>)
    requires k <= |s|
    ensures |r| == |s| + 1 && r[k] == x
    ensures forall i :: 0 <= i < k ==> r[i] == s[i]
    ensures forall i :: k < i < |r| ==> r[i] == s[i - 1]
  {
    s[..k] + [x] + s[k..]
  }

  /** The links around a node spliced in. */
  lemma SplicedLinked<T>(nodes: seq<Node<T>>, k: nat, n: Node<T>)
    requires k <= |nodes|
    requires forall i {:trigger nodes[i].next} :: 0 <= i < |nodes| && i != k - 1 ==> nodes[i].next == After(nodes, i)
    requires forall i {:trigger nodes[i].prev} :: 0 <= i < |nodes| && i != k ==> nodes[i].prev == Before(nodes, i)
    requires k > 0 ==> nodes[k - 1].next == n
    requires k < |nodes| ==> nodes[k].prev == n
    requires n.next == (if k < |nodes| then nodes[k] else null) && n.prev == if k > 0 then nodes[k - 1] else null
    ensures Linked(Spliced(nodes, k, n))
  {
    var out := Spliced(nodes, k, n);
    forall i {:trigger out[i].next} | 0 <= i < |out|
      ensures out[i].next == After(out, i) && out[i].prev == Before(out, i)
    {
      if i != k {
        assert out[i] == nodes[if i < k then i else i - 1];
      }
    }
  }

  /** Links the new node `n` in front of `l`, or behind `prev` at the end. */
  method LinkIn<T>(list: Node<T>, n: Node<T>, l: Node?<T>, prev: Node?<T>, ghost nodes: seq<Node<T>>, ghost k: nat)
    returns (r: Node<T>)
    requires IsList(list, nodes) && k <= |nodes| && n !in nodes
    requires l == if k < |nodes| then nodes[k] else null
    requires prev == if k > 0 then nodes[k - 1] else null
    modifies nodes, n
    ensures IsList(r, Spliced(nodes, k, n))
    ensures n.data == old(n.data) && forall i :: 0 <= i < |nodes| ==> nodes[i].data == old(nodes[i].data)
  {
    if l != null {
      n.prev := l.prev;
      l.prev := n;
    } else {
      n.prev := prev;
    }
    n.next := l;
    if n.prev != null {
      n.prev.next := n;
      r := list;
    } else {
      r := n;
    }
    SplicedLinked(nodes, k, n);
    assert Distinct(Spliced(nodes, k, n)) by {
      SplicedDistinct(nodes, k, n);
    }
  }

  lemma SplicedData<T>(nodes: seq<Node<T>>, k: nat, n: Node<T>, s: seq<T>)
    requires k <= |nodes| == |s| && forall i :: 0 <= i < |s| ==> nodes[i].data == s[i]
    ensures Data(Spliced(nodes, k, n)) == s[..k] + [n.data] + s[k..]
  {
  }

  lemma SplicedDistinct<T>(s: seq<T>, k: nat, x: T)
    requires Distinct(s) && k <= |s| && x !in s
    ensures Distinct(Spliced(s, k, x))
  {
  }

  /** `l_list_insert_sorted`: the same nodes, and a new one in its place. */
  method ListInsertSorted<T>(list: Node?<T>, data: T, comp: (T, T) -> int, ghost nodes: seq<Node<T>>)
    returns (r: Node<T>, ghost out: seq<Node<T>>)
    requires IsList(list, nodes)
    modifies nodes
    ensures var k := InsertAt(old(Data(nodes)), data, comp);
            k < |out| && fresh(out[k]) && out == Spliced(nodes, k, out[k])
    ensures IsList(r, out)
    ensures Data(out) == InsertSorted(old(Data(nodes)), data, comp)
  {
    if list == null {
      r, out := Append(list, data, nodes);
      return;
    }
    var n := new Node(data);
    var l: Node?<T> := list;
    var prev: Node?<T> := null;
    ghost var k := 0;
    while l != null && comp(l.data, n.data) <= 0
      invariant 0 <= k <= |nodes|
      invariant l == if k < |nodes| then nodes[k] else null
      invariant prev == if k > 0 then nodes[k - 1] else null
      invariant forall i :: 0 <= i < k ==> comp(Data(nodes)[i], data) <= 0
      decreases |nodes| - k
    {
      prev := l;
      l := l.next;
      k := k + 1;
    }
    InsertAtIs(Data(nodes), data, comp, k);
    r := LinkIn(list, n, l, prev, nodes, k);
    out := Spliced(nodes, k, n);
    SplicedData(nodes, k, n, old(Data(nodes)));
  }

  // ----- What repeated insertion computes -----

  /** A mark that lets transitivity be used where it is named, and only there. */
  ghost predicate Chain<T>(a: T, b: T, c: T) {
    true
  }

  ghost predicate TotalPreorder<T(!new)>(comp: (T, T) -> int) {
    && (forall a, b :: comp(a, b) <= 0 || comp(b, a) <= 0)
    && (forall a, b, c {:trigger Chain(a, b, c)} :: comp(a, b) <= 0 && comp(b, c) <= 0 ==> comp(a, c) <= 0)
  }

  ghost predicate Ascending<T>(s: seq<T>, comp: (T, T) -> int) {
    forall i, j :: 0 <= i < j < |s| ==> comp(s[i], s[j]) <= 0
  }

  predicate Same<T>(a: T, b: T, comp: (T, T) -> int) {
    comp(a, b) <= 0 && comp(b, a) <= 0
  }

  function Kept<T>(x: T, key: T, comp: (T, T) -> int): seq<T> {
    if Same(x, key, comp) then [x] else []
  }

  /** The elements in the same place of the order as `key`, in sequence order. */
  function ClassOf<T>(s: seq<T>, key: T, comp: (T, T) -> int): seq<T> {
    if s == [] then [] else Kept(s[0], key, comp) + ClassOf(s[1..], key, comp)
  }

  /** Inserting the values one after another into an empty list. */
  function InsertAll<T>(input: seq<T>, comp: (T, T) -> int): seq<T> {
    if input == [] then []
    else InsertSorted(InsertAll(input[..|input| - 1], comp), input[|input| - 1], comp)
  }

  lemma InsertKeepsAscending<T(!new)>(s: seq<T>, x: T, comp: (T, T) -> int)
    requires TotalPreorder(comp) && Ascending(s, comp)
    ensures Ascending(InsertSorted(s, x, comp), comp)
  {
    var k, r := InsertAt(s, x, comp), InsertSorted(s, x, comp);
    forall i, j | 0 <= i < j < |r|
      ensures comp(r[i], r[j]) <= 0
    {
      if j == k {
        assert r[i] == s[i];
      } else if i == k {
        assert comp(x, s[k]) <= 0 && r[j] == s[j - 1] && Chain(x, s[k], s[j - 1]);
      }
    }
  }

  lemma {:induction false} ClassOfConcat<T>(a: seq<T>, b: seq<T>, key: T, comp: (T, T) -> int)
    ensures ClassOf(a + b, key, comp) == ClassOf(a, key, comp) + ClassOf(b, key, comp)
  {
    if a == [] {
      assert a + b == b;
    } else {
      assert (a + b)[1..] == a[1..] + b;
      ClassOfConcat(a[1..], b, key, comp);
      Regroup(Kept(a[0], key, comp), ClassOf(a[1..], key, comp), ClassOf(b, key, comp));
    }
  }

  lemma ClassOfOne<T>(x: T, key: T, comp: (T, T) -> int)
    ensures ClassOf([x], key, comp) == Kept(x, key, comp)
  {
    assert [x][1..] == [];
  }

  lemma ClassOfAround<T>(a: seq<T>, x: T, b: seq<T>, key: T, comp: (T, T) -> int)
    ensures ClassOf(a + [x] + b, key, comp) == ClassOf(a, key, comp) + Kept(x, key, comp) + ClassOf(b, key, comp)
  {
    ClassOfConcat(a + [x], b, key, comp);
    ClassOfConcat(a, [x], key, comp);
    ClassOfOne(x, key, comp);
  }

  lemma {:induction false} ClassOfNone<T>(s: seq<T>, key: T, comp: (T, T) -> int)
    requires forall i :: 0 <= i < |s| ==> !Same(s[i], key, comp)
    ensures ClassOf(s, key, comp) == []
  {
    if s != [] {
      ClassOfNone(s[1..], key, comp);
    }
  }

  lemma AboveIsOther<T(!new)>(b0: T, b: T, x: T, key: T, comp: (T, T) -> int)
    requires TotalPreorder(comp) && comp(b0, x) > 0 && (b0 == b || comp(b0, b) <= 0) && Same(x, key, comp)
    ensures !Same(b, key, comp)
  {
    assert Chain(b, key, x) && Chain(b0, b, x);
  }

  lemma AboveIsOtherAll<T(!new)>(b: seq<T>, x: T, key: T, comp: (T, T) -> int)
    requires TotalPreorder(comp) && Ascending(b, comp) && Same(x, key, comp) && (b != [] ==> comp(b[0], x) > 0)
    ensures ClassOf(b, key, comp) == []
  {
    forall i | 0 <= i < |b|
      ensures !Same(b[i], key, comp)
    {
      AboveIsOther(b[0], b[i], x, key, comp);
    }
    ClassOfNone(b, key, comp);
  }

  /** A value goes behind all values of its class. */
  lemma InsertIsStable<T(!new)>(s: seq<T>, x: T, key: T, comp: (T, T) -> int)
    requires TotalPreorder(comp) && Ascending(s, comp)
    ensures ClassOf(InsertSorted(s, x, comp), key, comp) == ClassOf(s, key, comp) + Kept(x, key, comp)
  {
    var k := InsertAt(s, x, comp);
    var a, b := s[..k], s[k..];
    assert s == a + b;
    ClassOfAround(a, x, b, key, comp);
    ClassOfConcat(a, b, key, comp);
    if Same(x, key, comp) {
      NoneBehind(s, x, key, comp);
    }
    Commute(ClassOf(a, key, comp), Kept(x, key, comp), ClassOf(b, key, comp));
  }

  /** Behind the place of a value there is none of its class. */
  lemma NoneBehind<T(!new)>(s: seq<T>, x: T, key: T, comp: (T, T) -> int)
    requires TotalPreorder(comp) && Ascending(s, comp) && Same(x, key, comp)
    ensures ClassOf(s[InsertAt(s, x, comp)..], key, comp) == []
  {
    var b := s[InsertAt(s, x, comp)..];
    assert Ascending(b, comp);
    AboveIsOtherAll(b, x, key, comp);
  }

  lemma Commute<T>(a: seq<T>, b: seq<T>, c: seq<T>)
    requires b == [] || c == []
    ensures a + b + c == a + c + b
  {
  }

  /** Repeated insertion into an empty list sorts, and sorts stably: the result is an
      ascending permutation of the input in which every class of equal values keeps
      the order of the input. */
  lemma {:induction false} InsertAllSorts<T(!new)>(input: seq<T>, comp: (T, T) -> int)
    requires TotalPreorder(comp)
    ensures Ascending(InsertAll(input, comp), comp)
    ensures multiset(InsertAll(input, comp)) == multiset(input)
    ensures forall key :: ClassOf(InsertAll(input, comp), key, comp) == ClassOf(input, key, comp)
  {
    if input != [] {
      var front, x := input[..|input| - 1], input[|input| - 1];
      var s := InsertAll(front, comp);
      InsertAllSorts(front, comp);
      InsertKeepsAscending(s, x, comp);
      InsertKeepsElements(s, x, comp);
      assert input == front + [x];
      forall key
        ensures ClassOf(InsertAll(input, comp), key, comp) == ClassOf(input, key, comp)
      {
        InsertIsStable(s, x, key, comp);
        ClassOfConcat(front, [x], key, comp);
        ClassOfOne(x, key, comp);
      }
    }
  }

  /** Inserting into an empty list one by one: a list of new nodes with the values in stable ascending order. */
  method SortInto<T(!new)>(input: seq<T>, comp: (T, T) -> int) returns (r: Node?<T>, ghost out: seq<Node<T>>)
    ensures IsList(r, out) && fresh(set x | x in out)
    ensures Data(out) == InsertAll(input, comp)
    ensures TotalPreorder(comp) ==> Ascending(Data(out), comp) && multiset(Data(out)) == multiset(input)
    ensures TotalPreorder(comp) ==> forall key :: ClassOf(Data(out), key, comp) == ClassOf(input, key, comp)
  {
    r, out := null, [];
    var i := 0;
    while i < |input|
      invariant i <= |input|
      invariant IsList(r, out) && fresh(set x | x in out)
      invariant Data(out) == InsertAll(input[..i], comp)
    {
      ghost var before := out;
      r, out := ListInsertSorted(r, input[i], comp, out);
      assert forall x | x in out :: x in before || fresh(x);
      assert input[..i + 1][..i] == input[..i];
      i := i + 1;
    }
    assert input[..i] == input;
    if TotalPreorder(comp) {
      InsertAllSorts(input, comp);
    }
  }

  lemma InsertKeepsElements<T>(s: seq<T>, x: T, comp: (T, T) -> int)
    ensures multiset(InsertSorted(s, x, comp)) == multiset(s) + multiset{x}
  {
    var k := InsertAt(s, x, comp);
    assert s == s[..k] + s[k..];
  }
}
