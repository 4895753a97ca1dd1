/** Requests about groups that wait in a file until their account is connected. */
module OfflineQueue {
  import opened CharClasses
  import opened Options
  import opened Sequences
  import opened StringSplit
  import opened TextFile

  const TAB := 9
  const SEPARATOR: Bytes := [TAB]
  const LINE_FEED: Bytes := [NEWLINE]
  const MGMT_GRP_ADD := 4
  const MGMT_GRP_DEL := 5
  const MGMT_GRP_REN := 6

  /** The size of the line buffer. */
  const NAME_MAX := 255

  const NULL_TEXT: Bytes := [78, 85, 76, 76]

  /** A request as it is written: a missing group name is the text NULL. */
  datatype Request = Request(handle: Bytes, action: nat, oldGroup: Bytes, newGroup: Bytes)

  /** What the service of an account is asked to do. */
  datatype Call = AddGroup(group: Bytes) | RenameGroup(oldGroup: Bytes, newGroup: Bytes) | DelGroup(group: Bytes)

  function CallOf(action: int, oldGroup: Bytes, newGroup: Bytes): seq<Call> {
    if action == MGMT_GRP_ADD then [AddGroup(newGroup)]
    else if action == MGMT_GRP_REN then [RenameGroup(oldGroup, newGroup)]
    else if action == MGMT_GRP_DEL then [DelGroup(oldGroup)]
    else []
  }

  // ----- Numbers -----

  /** `%d`. */
  function Decimal(n: nat): Bytes {
    if n < 10 then [48 + n] else Decimal(n / 10) + [48 + n % 10]
  }

  /** The number that leading digits make, after `value`. */
  function Digits(s: Bytes, value: nat): nat {
    if s == [] || !IsDigit(s[0]) then value else Digits(s[1..], 10 * value + (s[0] - 48))
  }

  /** `atoi`. */
  function Atoi(s: Bytes): int {
    if s == [] then 0
    else if s[0] == 32 || 9 <= s[0] <= 13 then Atoi(s[1..])
    else if s[0] == 45 then 0 - Digits(s[1..], 0)
    else if s[0] == 43 then Digits(s[1..], 0)
    else Digits(s, 0)
  }

  lemma {:induction false} DigitsJoin(a: Bytes, c: int, value: nat)
    requires (forall d | d in a :: IsDigit(d)) && IsDigit(c)
    ensures Digits(a + [c], value) == 10 * Digits(a, value) + (c - 48)
    decreases |a|
  {
    if a != [] {
      assert (a + [c])[1..] == a[1..] + [c];
      assert a[0] in a;
      DigitsJoin(a[1..], c, 10 * value + (a[0] - 48));
    }
  }

  lemma {:induction false} DecimalDigits(n: nat)
    ensures Digits(Decimal(n), 0) == n
    ensures Decimal(n) != [] && forall d | d in Decimal(n) :: IsDigit(d)
  {
    if n >= 10 {
      DecimalDigits(n / 10);
      DigitsJoin(Decimal(n / 10), 48 + n % 10, 0);
    }
  }

  lemma AtoiDecimal(n: nat)
    ensures Atoi(Decimal(n)) == n
  {
    DecimalDigits(n);
    assert Decimal(n)[0] in Decimal(n);
  }

  // ----- The file -----

  /** A field that can be told from what is around it. */
  predicate Plain(s: Bytes) {
    TAB !in s && NEWLINE !in s && 0 !in s
  }

  predicate PlainRequest(r: Request) {
    Plain(r.handle) && Plain(r.oldGroup) && Plain(r.newGroup)
  }

  function FieldsOf(r: Request): seq<Bytes> {
    [r.handle, Decimal(r.action), r.oldGroup, r.newGroup + [NEWLINE]]
  }

  /** The line of a request. */
  function Line(r: Request): Bytes {
    JoinPieces(FieldsOf(r), SEPARATOR)
  }

  function File(rs: seq<Request>): Bytes {
    if rs == [] then [] else Line(rs[0]) + File(rs[1..])
  }

  /** The text up to the first newline. */
  function CutLine(s: Bytes): Bytes {
    s[..Index(s, LINE_FEED, 0)]
  }

  predicate IsFor(chunk: Bytes, handle: Bytes) {
    Tokens(chunk, SEPARATOR) != [] && Tokens(chunk, SEPARATOR)[0] == handle
  }

  /** Has the four fields that the source looks at. */
  predicate Complete(chunk: Bytes) {
    |Tokens(chunk, SEPARATOR)| >= 4
  }

  function CallsFor(chunk: Bytes): seq<Call> {
    var t := Tokens(chunk, SEPARATOR);
    if |t| < 4 then [] else CallOf(Atoi(t[1]), t[2], CutLine(t[3]))
  }

  /**
   * What a flush comes to. It is stuck at a line of the account with fewer than four fields,
   * where the source reads past its vector; the new file then never takes the place of the old.
   */
  datatype Flushed = Done(calls: seq<Call>, kept: Bytes) | Stuck(calls: seq<Call>)

  /** The same after more calls and after more that is kept. */
  function After(calls: seq<Call>, kept: Bytes, f: Flushed): Flushed {
    match f
    case Done(c, k) => Done(calls + c, kept + k)
    case Stuck(c) => Stuck(calls + c)
  }

  /** What flushing the rest of a file does, chunk by chunk. */
  function FlushText(text: Bytes, handle: Bytes): Flushed
    decreases |text|
  {
    if text == [] then Done([], [])
    else
      var e := ChunkEnd(text, 0, NAME_MAX);
      var chunk := text[..e];
      if !IsFor(chunk, handle) then After([], chunk, FlushText(text[e..], handle))
      else if !Complete(chunk) then Stuck([])
      else After(CallsFor(chunk), [], FlushText(text[e..], handle))
  }

  /** What the reads into the buffer give, one after the other. */
  function Chunks(text: Bytes): seq<Bytes>
    decreases |text|
  {
    if text == [] then []
    else
      var e := ChunkEnd(text, 0, NAME_MAX);
      [text[..e]] + Chunks(text[e..])
  }

  /** No chunk for the account is too short for the source to read. */
  predicate Readable(text: Bytes, handle: Bytes) {
    forall chunk | chunk in Chunks(text) && IsFor(chunk, handle) :: Complete(chunk)
  }

  function Own(rs: seq<Request>, handle: Bytes): seq<Request> {
    if rs == [] then []
    else (if rs[0].handle == handle then [rs[0]] else []) + Own(rs[1..], handle)
  }

  function Others(rs: seq<Request>, handle: Bytes): seq<Request> {
    if rs == [] then []
    else (if rs[0].handle == handle then [] else [rs[0]]) + Others(rs[1..], handle)
  }

  function Calls(rs: seq<Request>): seq<Call> {
    if rs == [] then []
    else CallOf(rs[0].action, rs[0].oldGroup, rs[0].newGroup) + Calls(rs[1..])
  }

  /** A request whose line fits the buffer. */
  predicate Short(r: Request) {
    PlainRequest(r) && |Line(r)| < NAME_MAX
  }

  predicate AllShort(rs: seq<Request>) {
    forall r | r in rs :: Short(r)
  }

  // ----- One line -----

  lemma LineText(r: Request)
    ensures Line(r) ==
            r.handle + [TAB] + (Decimal(r.action) + [TAB] + (r.oldGroup + [TAB] + (r.newGroup + [NEWLINE])))
  {
    var a, d, o, n := r.handle, Decimal(r.action), r.oldGroup, r.newGroup + [NEWLINE];
    JoinFirst(o, [n]);
    JoinFirst(d, [o, n]);
    JoinFirst(a, [d, o, n]);
    assert [o] + [n] == [o, n] && [d] + [o, n] == [d, o, n] && [a] + [d, o, n] == FieldsOf(r);
  }

  lemma JoinFirst(a: Bytes, rest: seq<Bytes>)
    requires rest != []
    ensures JoinPieces([a] + rest, SEPARATOR) == a + SEPARATOR + JoinPieces(rest, SEPARATOR)
  {
    assert ([a] + rest)[1..] == rest;
  }

  lemma PartsFirst(a: Bytes, rest: seq<Bytes>)
    requires TAB !in a && Parts(rest, SEPARATOR)
    ensures Parts([a] + rest, SEPARATOR)
  {
    IndexByte(a, TAB);
    assert ([a] + rest)[1..] == rest;
  }

  lemma PartsLast(a: Bytes)
    requires TAB !in a
    ensures Parts([a], SEPARATOR)
  {
    IndexByte(a, TAB);
  }

  lemma LineParts(r: Request)
    requires PlainRequest(r)
    ensures Parts(FieldsOf(r), SEPARATOR)
  {
    var a, d, o, n := r.handle, Decimal(r.action), r.oldGroup, r.newGroup + [NEWLINE];
    DecimalDigits(r.action);
    PartsLast(n);
    PartsFirst(o, [n]);
    PartsFirst(d, [o] + [n]);
    PartsFirst(a, [d] + ([o] + [n]));
    assert [a] + ([d] + ([o] + [n])) == FieldsOf(r);
  }

  lemma LineTokens(r: Request)
    requires PlainRequest(r)
    ensures Line(r) != [] && Tokens(Line(r), SEPARATOR) == FieldsOf(r)
  {
    LineText(r);
    LineParts(r);
    PiecesOfJoined(FieldsOf(r), SEPARATOR);
    AtIs(Line(r), |Line(r)| - 1, SEPARATOR);
    assert Line(r)[|Line(r)| - 1] == NEWLINE;
  }

  lemma CutsNewline(a: Bytes)
    requires NEWLINE !in a
    ensures CutLine(a + [NEWLINE]) == a
  {
    IndexByte(a, NEWLINE);
    assert (a + [NEWLINE])[..|a|] == a;
  }

  /** A line that fits does what was asked for, and for no other account. */
  lemma LineMeans(r: Request, handle: Bytes)
    requires PlainRequest(r)
    ensures Line(r) != [] && Complete(Line(r))
    ensures IsFor(Line(r), handle) <==> r.handle == handle
    ensures CallsFor(Line(r)) == CallOf(r.action, r.oldGroup, r.newGroup)
  {
    LineTokens(r);
    AtoiDecimal(r.action);
    CutsNewline(r.newGroup);
  }

  lemma {:induction false} FirstLine(a: Bytes, rest: Bytes, p: nat)
    requires NEWLINE !in a && p <= |a|
    ensures LineEnd(a + [NEWLINE] + rest, p) == |a| + 1
    decreases |a| - p
  {
    var s := a + [NEWLINE] + rest;
    if p < |a| {
      assert s[p] == a[p] && a[p] in a;
      FirstLine(a, rest, p + 1);
    } else {
      assert s[p] == NEWLINE;
    }
  }

  lemma LineEndsIt(r: Request, rest: Bytes)
    requires PlainRequest(r)
    ensures LineEnd(Line(r) + rest, 0) == |Line(r)|
  {
    LineText(r);
    DecimalDigits(r.action);
    var a := r.handle + [TAB] + (Decimal(r.action) + [TAB] + (r.oldGroup + [TAB] + r.newGroup));
    assert Line(r) == a + [NEWLINE];
    assert NEWLINE !in a;
    FirstLine(a, rest, 0);
  }

  // ----- The whole file -----

  /** Flushing a file of lines that fit delivers the account's own requests and keeps the others. */
  lemma {:induction false} FlushFile(rs: seq<Request>, handle: Bytes)
    requires AllShort(rs)
    ensures FlushText(File(rs), handle) == Done(Calls(Own(rs, handle)), File(Others(rs, handle)))
  {
    if rs != [] {
      var r, rest := rs[0], rs[1..];
      assert r in rs;
      assert AllShort(rest) by {
        forall x | x in rest ensures Short(x) {
          assert x in rs;
        }
      }
      FlushFile(rest, handle);
      FlushLine(r, File(rest), handle);
      OwnFirst(r, rest, handle);
      assert rs == [r] + rest;
    }
  }

  lemma OwnFirst(r: Request, rest: seq<Request>, handle: Bytes)
    ensures Calls(Own([r] + rest, handle)) ==
            (if r.handle == handle then CallOf(r.action, r.oldGroup, r.newGroup) else []) + Calls(Own(rest, handle))
    ensures File(Others([r] + rest, handle)) ==
            (if r.handle == handle then [] else Line(r)) + File(Others(rest, handle))
  {
    var rs := [r] + rest;
    assert rs[0] == r && rs[1..] == rest;
    var own, others := Own(rest, handle), Others(rest, handle);
    assert [] + own == own && [] + others == others;
    assert ([r] + own)[1..] == own && ([r] + others)[1..] == others;
  }

  lemma FlushLine(r: Request, rest: Bytes, handle: Bytes)
    requires Short(r)
    ensures FlushText(Line(r) + rest, handle) ==
            if r.handle == handle then After(CallOf(r.action, r.oldGroup, r.newGroup), [], FlushText(rest, handle))
            else After([], Line(r), FlushText(rest, handle))
  {
    LineMeans(r, handle);
    LineEndsIt(r, rest);
    var text := Line(r) + rest;
    assert ChunkEnd(text, 0, NAME_MAX) == |Line(r)|;
    assert text[..|Line(r)|] == Line(r) && text[|Line(r)|..] == rest;
  }

  /** A flush gets to the end exactly if every chunk for the account has its four fields. */
  lemma {:induction false} StuckExactly(text: Bytes, handle: Bytes)
    ensures FlushText(text, handle).Done? <==> Readable(text, handle)
    decreases |text|
  {
    if text != [] {
      var e := ChunkEnd(text, 0, NAME_MAX);
      StuckExactly(text[e..], handle);
      assert forall chunk :: chunk in Chunks(text) <==> chunk == text[..e] || chunk in Chunks(text[e..]);
    }
  }

  // ----- Lines that do not fit -----

  /** The text of a line before its last field. */
  function Header(r: Request): Bytes {
    r.handle + [TAB] + Decimal(r.action) + [TAB] + r.oldGroup + [TAB]
  }

  /** A first chunk without four fields is kept, or the flush is stuck at it. */
  lemma ShortChunkStays(text: Bytes, handle: Bytes)
    requires text != [] && !Complete(text[..ChunkEnd(text, 0, NAME_MAX)])
    ensures FlushText(text, handle).Done? ==> FlushText(text, handle).kept != []
  {
    var e := ChunkEnd(text, 0, NAME_MAX);
    assert text[..e][0] == text[0];
  }

  lemma FewFields(s: Bytes, rest: Bytes, v: seq<Bytes>)
    requires Parts(v, SEPARATOR) && |v| < 4 && s + rest == JoinPieces(v, SEPARATOR)
    ensures !Complete(s)
  {
    PiecesOfJoined(v, SEPARATOR);
    CountPrefix(s, rest, SEPARATOR, 0);
    CountsPieces(s, SEPARATOR, 0);
    CountsPieces(s + rest, SEPARATOR, 0);
  }

  /** A chunk that ends before the last field of a line has begun has at most three fields. */
  lemma HeaderIsShort(r: Request, e: nat)
    requires PlainRequest(r) && e < |Header(r)|
    ensures !Complete(Header(r)[..e])
  {
    var a, d, o := r.handle, Decimal(r.action), r.oldGroup;
    DecimalDigits(r.action);
    PartsLast(o);
    PartsFirst(d, [o]);
    PartsFirst(a, [d] + [o]);
    JoinFirst(d, [o]);
    JoinFirst(a, [d] + [o]);
    var h := a + SEPARATOR + (d + SEPARATOR + o);
    assert Header(r)[..e] + h[e..] == h;
    FewFields(Header(r)[..e], h[e..], [a] + ([d] + [o]));
  }

  /** The end of a line, without a tab, is not delivered. */
  lemma EndStays(text: Bytes, handle: Bytes)
    requires text != [] && TAB !in text
    ensures FlushText(text, handle).Done? ==> FlushText(text, handle).kept != []
  {
    var e := ChunkEnd(text, 0, NAME_MAX);
    PartsLast(text[..e]);
    assert text[..e] + [] == text[..e];
    FewFields(text[..e], [], [text[..e]]);
    ShortChunkStays(text, handle);
  }

  /** The first chunk of a line that does not fit. */
  lemma LongLine(r: Request)
    requires PlainRequest(r) && !Short(r)
    ensures ChunkEnd(Line(r), 0, NAME_MAX) == NAME_MAX - 1 < |Line(r)|
    ensures Line(r) == Header(r) + (r.newGroup + [NEWLINE])
  {
    LineText(r);
    LineEndsIt(r, []);
    assert Line(r) + [] == Line(r);
  }

  /** A request is delivered whole, with nothing left behind, exactly if its line fits the buffer. */
  lemma DeliveredWhole(r: Request)
    requires PlainRequest(r)
    ensures FlushText(Line(r), r.handle) == Done(CallOf(r.action, r.oldGroup, r.newGroup), []) <==> Short(r)
  {
    if Short(r) {
      FlushLine(r, [], r.handle);
      assert Line(r) + [] == Line(r);
    } else {
      LongLine(r);
      var h, e := |Header(r)|, NAME_MAX - 1;
      var n := r.newGroup + [NEWLINE];
      if e < h {
        assert Line(r)[..e] == Header(r)[..e];
        HeaderIsShort(r, e);
        ShortChunkStays(Line(r), r.handle);
      } else {
        assert Line(r)[e..] == n[e - h..];
        EndStays(n[e - h..], r.handle);
      }
    }
  }

  // ----- The queue -----

  /** The bytes that a file of lines consists of grow with every request. */
  lemma {:induction false} FileSnoc(rs: seq<Request>, r: Request)
    ensures File(rs + [r]) == File(rs) + Line(r)
  {
    if rs == [] {
      assert [r][1..] == [];
    } else {
      FileSnoc(rs[1..], r);
      assert (rs + [r])[1..] == rs[1..] + [r];
      Regroup(Line(rs[0]), File(rs[1..]), Line(r));
    }
  }

  function Text(group: Option<Bytes>): Bytes {
    match group
    case None => NULL_TEXT
    case Some(g) => g
  }

  lemma ChunkShift(text: Bytes, pos: nat)
    requires pos < |text|
    ensures ChunkEnd(text, pos, NAME_MAX) == pos + ChunkEnd(text[pos..], 0, NAME_MAX)
  {
    LineShift(text, pos, 0);
  }

  lemma {:induction false} LineShift(text: Bytes, pos: nat, p: nat)
    requires pos + p <= |text|
    ensures LineEnd(text, pos + p) == pos + LineEnd(text[pos..], p)
    decreases |text| - p
  {
    if pos + p < |text| && text[pos + p] != NEWLINE {
      LineShift(text, pos, p + 1);
    }
  }

  class GroupQueue {
    var file: Bytes
    ghost var pending: seq<Request>

    ghost predicate Valid()
      reads this
    {
      file == File(pending) && AllShort(pending)
    }

    constructor ()
      ensures Valid() && pending == []
    {
      file, pending := [], [];
    }

    /** `group_mgmt_queue_add`: one line at the end of the file. */
    method Add(handle: Bytes, oldGroup: Option<Bytes>, action: nat, newGroup: Option<Bytes>)
      modifies this
      ensures var r := Request(handle, action, Text(oldGroup), Text(newGroup));
              && file == old(file) + Line(r)
              && file == old(file) + (r.handle + [TAB] + (Decimal(r.action) + [TAB]
                                      + (r.oldGroup + [TAB] + (r.newGroup + [NEWLINE]))))
              && pending == old(pending) + [r]
              && (old(Valid()) && Short(r) ==> Valid())
    {
      ghost var r := Request(handle, action, Text(oldGroup), Text(newGroup));
      LineText(r);
      FileSnoc(pending, r);
      var groups := Text(oldGroup) + [TAB] + (Text(newGroup) + [NEWLINE]);
      file := file + (handle + [TAB] + (Decimal(action) + [TAB] + groups));
      pending := pending + [r];
    }

    /** The loop of `group_mgmt_flush`: the calls made, and what is written to the new file. */
    method ReadLines(handle: Bytes) returns (flushed: Flushed)
      ensures flushed == FlushText(file, handle)
    {
      var calls, temp := [], [];
      var pos := 0;
      assert file[0..] == file;
      AfterNothing(FlushText(file, handle));
      while pos < |file|
        invariant pos <= |file|
        invariant FlushText(file, handle) == After(calls, temp, FlushText(file[pos..], handle))
        decreases |file| - pos
      {
        ChunkShift(file, pos);
        var e := Fgets(file, pos, NAME_MAX);
        var buff := file[pos..e];
        ghost var text, f := file[pos..], FlushText(file[e..], handle);
        assert text[..e - pos] == buff && text[e - pos..] == file[e..];
        var tokens := StrSplit(buff, SEPARATOR, -1);
        if tokens != [] && tokens[0] == handle {
          if |tokens| < 4 {
            AfterStuck(calls, temp);
            return Stuck(calls);
          }
          AfterJoin(calls, temp, CallsFor(buff), [], f);
          calls := calls + CallOf(Atoi(tokens[1]), tokens[2], CutLine(tokens[3]));
        } else {
          AfterJoin(calls, temp, [], buff, f);
          temp := temp + buff;
        }
        pos := e;
      }
      AfterEnd(calls, temp);
      flushed := Done(calls, temp);
    }

    /** `group_mgmt_flush`: exactly the account's own requests, in order, and once each. */
    method Flush(handle: Bytes) returns (flushed: Flushed)
      modifies this
      ensures flushed == FlushText(old(file), handle)
      ensures match flushed
              case Done(_, kept) => file == kept && pending == Others(old(pending), handle)
              case Stuck(_) => file == old(file) && pending == old(pending)
      ensures old(Valid()) ==> Valid() && flushed.Done? && flushed.calls == Calls(Own(old(pending), handle))
    {
      if file == File(pending) && AllShort(pending) {
        FlushFile(pending, handle);
        OthersShort(pending, handle);
      }
      flushed := ReadLines(handle);
      if flushed.Done? {
        file := flushed.kept;
        pending := Others(pending, handle);
      }
    }
  }

  lemma AfterNothing(f: Flushed)
    ensures After([], [], f) == f
  {
    match f {
      case Done(c, k) => assert [] + c == c && [] + k == k;
      case Stuck(c) => assert [] + c == c;
    }
  }

  lemma AfterStuck(calls: seq<Call>, kept: Bytes)
    ensures After(calls, kept, Stuck([])) == Stuck(calls)
  {
    assert calls + [] == calls;
  }

  lemma AfterEnd(calls: seq<Call>, kept: Bytes)
    ensures After(calls, kept, Done([], [])) == Done(calls, kept)
  {
    assert calls + [] == calls && kept + [] == kept;
  }

  lemma AfterJoin(calls: seq<Call>, kept: Bytes, c: seq<Call>, k: Bytes, f: Flushed)
    ensures After(calls, kept, After(c, k, f)) == After(calls + c, kept + k, f)
    ensures calls + [] == calls && kept + [] == kept
  {
    Regroup(calls, c, f.calls);
    if f.Done? {
      Regroup(kept, k, f.kept);
    }
  }

  /** A queue of requests that fit can be flushed for any account. */
  lemma ValidIsReadable(queue: GroupQueue, handle: Bytes)
    requires queue.Valid()
    ensures Readable(queue.file, handle)
  {
    FlushFile(queue.pending, handle);
    StuckExactly(queue.file, handle);
  }

  lemma {:induction false} OthersShort(rs: seq<Request>, handle: Bytes)
    requires AllShort(rs)
    ensures AllShort(Others(rs, handle))
    ensures forall r | r in Others(rs, handle) :: r in rs
  {
    if rs != [] {
      assert AllShort(rs[1..]) by {
        forall x | x in rs[1..] ensures Short(x) {
          assert x in rs;
        }
      }
      OthersShort(rs[1..], handle);
      assert rs[0] in rs;
      assert forall x :: x in rs[1..] ==> x in rs;
    }
  }

  // ----- Histories -----

  datatype Op = Add(request: Request) | Flush(handle: Bytes)

  datatype Delivery = Delivery(handle: Bytes, call: Call)

  datatype History = History(pending: seq<Request>, delivered: seq<Delivery>)

  function Deliver(handle: Bytes, calls: seq<Call>): seq<Delivery> {
    if calls == [] then [] else [Delivery(handle, calls[0])] + Deliver(handle, calls[1..])
  }

  /** What the two operations do, one after the other. */
  function Run(ops: seq<Op>): History {
    if ops == [] then History([], [])
    else
      var before := Run(ops[..|ops| - 1]);
      match ops[|ops| - 1]
      case Add(r) => before.(pending := before.pending + [r])
      case Flush(h) =>
        History(Others(before.pending, h), before.delivered + Deliver(h, Calls(Own(before.pending, h))))
  }

  function CallTo(d: Delivery, handle: Bytes): seq<Call> {
    if d.handle == handle then [d.call] else []
  }

  function CallsTo(delivered: seq<Delivery>, handle: Bytes): seq<Call> {
    if delivered == [] then []
    else CallTo(delivered[0], handle) + CallsTo(delivered[1..], handle)
  }

  /** The requests added for an account, in order. */
  function AddedFor(ops: seq<Op>, handle: Bytes): seq<Request> {
    if ops == [] then []
    else
      AddedFor(ops[..|ops| - 1], handle)
      + match ops[|ops| - 1]
        case Add(r) => if r.handle == handle then [r] else []
        case Flush(_) => []
  }

  lemma {:induction false} OwnSnoc(rs: seq<Request>, r: Request, handle: Bytes)
    ensures Own(rs + [r], handle) == Own(rs, handle) + if r.handle == handle then [r] else []
  {
    if rs == [] {
      assert rs + [r] == [r];
    } else {
      OwnSnoc(rs[1..], r, handle);
      assert (rs + [r])[1..] == rs[1..] + [r];
    }
  }

  lemma {:induction false} CallsJoin(a: seq<Request>, b: seq<Request>)
    ensures Calls(a + b) == Calls(a) + Calls(b)
  {
    if a == [] {
      assert a + b == b;
    } else {
      CallsJoin(a[1..], b);
      assert (a + b)[1..] == a[1..] + b;
      Regroup(CallOf(a[0].action, a[0].oldGroup, a[0].newGroup), Calls(a[1..]), Calls(b));
    }
  }

  lemma {:induction false} CallsToJoin(a: seq<Delivery>, b: seq<Delivery>, handle: Bytes)
    ensures CallsTo(a + b, handle) == CallsTo(a, handle) + CallsTo(b, handle)
  {
    if a == [] {
      assert a + b == b;
    } else {
      CallsToJoin(a[1..], b, handle);
      assert (a + b)[1..] == a[1..] + b;
      Regroup(CallTo(a[0], handle), CallsTo(a[1..], handle), CallsTo(b, handle));
    }
  }

  lemma {:induction false} DeliveredTo(handle: Bytes, calls: seq<Call>, other: Bytes)
    ensures CallsTo(Deliver(handle, calls), other) == if handle == other then calls else []
  {
    if calls != [] {
      DeliveredTo(handle, calls[1..], other);
      assert Deliver(handle, calls)[1..] == Deliver(handle, calls[1..]);
    }
  }

  /** Flushing one account takes all of its requests and leaves those of any other as they are. */
  lemma {:induction false} OwnOfOthers(rs: seq<Request>, handle: Bytes, other: Bytes)
    ensures Own(Others(rs, handle), other) == if handle == other then [] else Own(rs, other)
  {
    if rs != [] {
      OwnOfOthers(rs[1..], handle, other);
      var rest := Others(rs[1..], handle);
      assert ([rs[0]] + rest)[1..] == rest;
      assert [] + rest == rest;
    }
  }

  lemma AddConserves(h: History, r: Request, handle: Bytes, added: seq<Request>)
    requires CallsTo(h.delivered, handle) + Calls(Own(h.pending, handle)) == Calls(added)
    ensures CallsTo(h.delivered, handle) + Calls(Own(h.pending + [r], handle)) ==
            Calls(added + if r.handle == handle then [r] else [])
  {
    var one := if r.handle == handle then [r] else [];
    OwnSnoc(h.pending, r, handle);
    CallsJoin(Own(h.pending, handle), one);
    CallsJoin(added, one);
    Regroup(CallsTo(h.delivered, handle), Calls(Own(h.pending, handle)), Calls(one));
  }

  lemma FlushConserves(h: History, flushed: Bytes, handle: Bytes)
    ensures CallsTo(h.delivered + Deliver(flushed, Calls(Own(h.pending, flushed))), handle)
            + Calls(Own(Others(h.pending, flushed), handle)) ==
            CallsTo(h.delivered, handle) + Calls(Own(h.pending, handle))
  {
    var calls := Calls(Own(h.pending, flushed));
    CallsToJoin(h.delivered, Deliver(flushed, calls), handle);
    DeliveredTo(flushed, calls, handle);
    OwnOfOthers(h.pending, flushed, handle);
    var d := CallsTo(h.delivered, handle);
    if flushed == handle {
      NothingMore(d + calls);
    } else {
      NothingMore(d);
    }
  }

  lemma NothingMore(calls: seq<Call>)
    ensures calls + [] == calls && Calls([]) == []
  {
  }

  /** Of requests: what an account's service has received and what still waits is what was asked for. */
  lemma {:induction false} HistoryConserves(ops: seq<Op>, handle: Bytes)
    ensures CallsTo(Run(ops).delivered, handle) + Calls(Own(Run(ops).pending, handle)) ==
            Calls(AddedFor(ops, handle))
  {
    if ops != [] {
      var front := ops[..|ops| - 1];
      HistoryConserves(front, handle);
      match ops[|ops| - 1] {
        case Add(r) => AddConserves(Run(front), r, handle, AddedFor(front, handle));
        case Flush(h) =>
          FlushConserves(Run(front), h, handle);
          assert AddedFor(front, handle) + [] == AddedFor(front, handle);
      }
    }
  }

  // ----- Histories of the file -----

  datatype Store = Store(file: Bytes, delivered: seq<Delivery>)

  /** The file and the calls. A flush that is stuck has made calls and leaves the file as it was. */
  function RunFile(ops: seq<Op>): Store {
    if ops == [] then Store([], [])
    else
      var before := RunFile(ops[..|ops| - 1]);
      match ops[|ops| - 1]
      case Add(r) => before.(file := before.file + Line(r))
      case Flush(h) =>
        var f := FlushText(before.file, h);
        Store(if f.Done? then f.kept else before.file, before.delivered + Deliver(h, f.calls))
  }

  /** Every request that is added fits the line buffer. */
  predicate AddsShort(ops: seq<Op>) {
    forall i :: 0 <= i < |ops| && ops[i].Add? ==> Short(ops[i].request)
  }

  /** The file holds the lines of the requests that wait, and the calls are those of the requests. */
  lemma {:induction false} FileFollows(ops: seq<Op>)
    requires AddsShort(ops)
    ensures RunFile(ops) == Store(File(Run(ops).pending), Run(ops).delivered) && AllShort(Run(ops).pending)
  {
    if ops != [] {
      var front := ops[..|ops| - 1];
      FileFollows(front);
      var pending := Run(front).pending;
      match ops[|ops| - 1] {
        case Add(r) => FileSnoc(pending, r);
        case Flush(h) =>
          FlushFile(pending, h);
          OthersShort(pending, h);
      }
    }
  }

  /**
   * Conservation over every interleaving: the calls an account's service has received and
   * those that flushing the file now would make are together what was asked for, in order.
   */
  lemma Conserved(ops: seq<Op>, handle: Bytes)
    requires AddsShort(ops)
    ensures var f := FlushText(RunFile(ops).file, handle);
            f.Done? && CallsTo(RunFile(ops).delivered, handle) + f.calls == Calls(AddedFor(ops, handle))
  {
    FileFollows(ops);
    FlushFile(Run(ops).pending, handle);
    HistoryConserves(ops, handle);
  }
}
