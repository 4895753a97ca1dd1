/** What the queued requests do to the groups of an account. */
module GroupMeaning {
  import opened OfflineQueue
  import opened TextFile

  type Groups = set<Bytes>

  function Renamed(groups: Groups, oldGroup: Bytes, newGroup: Bytes): Groups {
    set g | g in groups :: if g == oldGroup then newGroup else g
  }

  /** What a request asks for: 4 adds a group, 5 removes one and 6 gives one another name. */
  function Wish(groups: Groups, r: Request): Groups {
    match r.action
    case 4 => groups + {r.newGroup}
    case 5 => groups - {r.oldGroup}
    case 6 => Renamed(groups, r.oldGroup, r.newGroup)
    case _ => groups
  }

  /** What a service does when it is called. */
  function Serve(groups: Groups, call: Call): Groups {
    match call
    case AddGroup(group) => groups + {group}
    case RenameGroup(oldGroup, newGroup) => Renamed(groups, oldGroup, newGroup)
    case DelGroup(group) => groups - {group}
  }

  function Wished(groups: Groups, rs: seq<Request>): Groups
    decreases |rs|
  {
    if rs == [] then groups else Wished(Wish(groups, rs[0]), rs[1..])
  }

  function Served(groups: Groups, calls: seq<Call>): Groups
    decreases |calls|
  {
    if calls == [] then groups else Served(Serve(groups, calls[0]), calls[1..])
  }

  lemma {:induction false} ServedJoin(groups: Groups, a: seq<Call>, b: seq<Call>)
    ensures Served(groups, a + b) == Served(Served(groups, a), b)
    decreases |a|
  {
    if a == [] {
      assert a + b == b;
    } else {
      assert (a + b)[1..] == a[1..] + b;
      ServedJoin(Serve(groups, a[0]), a[1..], b);
    }
  }

  /** The calls of one request do what it asks for. */
  lemma OneIsServed(groups: Groups, r: Request)
    ensures Served(groups, CallOf(r.action, r.oldGroup, r.newGroup)) == Wish(groups, r)
  {
    var calls := CallOf(r.action, r.oldGroup, r.newGroup);
    if calls != [] {
      assert calls[1..] == [];
    }
  }

  lemma {:induction false} AllAreServed(groups: Groups, rs: seq<Request>)
    ensures Served(groups, Calls(rs)) == Wished(groups, rs)
    decreases |rs|
  {
    if rs != [] {
      var r := rs[0];
      ServedJoin(groups, CallOf(r.action, r.oldGroup, r.newGroup), Calls(rs[1..]));
      OneIsServed(groups, r);
      AllAreServed(Wish(groups, r), rs[1..]);
    }
  }

  /** The calls that a flush makes of a line, written out. */
  lemma LineAsksFor(handle: Bytes, action: nat, o: Bytes, n: Bytes)
    requires Short(Request(handle, action, o, n))
    ensures var f := FlushText(Line(Request(handle, action, o, n)), handle);
            && f.Done? && f.kept == []
            && (action == 4 ==> f.calls == [AddGroup(n)])
            && (action == 5 ==> f.calls == [DelGroup(o)])
            && (action == 6 ==> f.calls == [RenameGroup(o, n)])
            && (action < 4 || action > 6 ==> f.calls == [])
  {
    DeliveredWhole(Request(handle, action, o, n));
  }

  /**
   * Over every interleaving of additions and flushes: once the file is flushed, the groups
   * of an account are those that its requests, one after the other, ask for.
   */
  lemma GroupsAreAsWished(ops: seq<Op>, handle: Bytes, groups: Groups)
    requires AddsShort(ops)
    ensures var f := FlushText(RunFile(ops).file, handle);
            && f.Done?
            && Served(Served(groups, CallsTo(RunFile(ops).delivered, handle)), f.calls) ==
               Wished(groups, AddedFor(ops, handle))
  {
    Conserved(ops, handle);
    var f := FlushText(RunFile(ops).file, handle);
    ServedJoin(groups, CallsTo(RunFile(ops).delivered, handle), f.calls);
    AllAreServed(groups, AddedFor(ops, handle));
  }
}
