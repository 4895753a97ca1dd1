/** The global state of the message lookup: default domain, bindings, change
    counter and the cache of known translations. Locale settings and the files on
    disk are fixed: the search through the catalogues is a function of the domain,
    its binding, the category and the message. */
module GettextState {
  import opened Options
  import opened CStrings
  import opened PluralEval

  datatype Binding = Binding(domainname: CString, dirname: CString, codesetCntr: nat, codeset: Option<CString>)

  /** A pointer argument of `set_binding_values`: absent, pointing to NULL, or
      pointing to a value. */
  datatype Arg = Absent | Query | Set(value: CString)

  /** What a full search finds: a catalogue and the translation in it. */
  datatype Found = Found(catalogue: nat, translation: Translation)

  type Search = (CString, Option<Binding>, int, CString) -> Option<Found>

  datatype Key = Key(msgid: CString, domainname: CString, category: int)

  datatype Known = Known(counter: int, found: Found)

  datatype State = State(
    defaultDomain: CString,
    bindings: seq<Binding>,
    counter: int,
    cache: map<Key, Known>)

  ghost predicate SortedBindings(bs: seq<Binding>) {
    forall i, j :: 0 <= i < j < |bs| ==> StrCmp(bs[i].domainname, bs[j].domainname) < 0
  }

  function BindingOf(bs: seq<Binding>, name: CString): (b: Option<Binding>)
    ensures b.Some? ==> b.value in bs && b.value.domainname == name
    ensures b.None? ==> forall x | x in bs :: x.domainname != name
  {
    if bs == [] then None
    else if bs[0].domainname == name then Some(bs[0])
    else BindingOf(bs[1..], name)
  }

  /** The binding of `name` after `set_binding_values`. */
  function Rebound(bound: Option<Binding>, name: CString, dir: Arg, cs: Arg, defaultDir: CString): Option<Binding> {
    match bound
    case None =>
      if !dir.Set? && !cs.Set? then None
      else Some(Binding(name, if dir.Set? then dir.value else defaultDir,
                        if cs.Set? then 1 else 0, if cs.Set? then Some(cs.value) else None))
    case Some(b) =>
      var b' := if dir.Set? then b.(dirname := dir.value) else b;
      if cs.Set? && b.codeset != Some(cs.value)
      then Some(b'.(codeset := Some(cs.value), codesetCntr := b.codesetCntr + 1)) else Some(b')
  }

  function DirectoryOf(b: Option<Binding>, defaultDir: CString): CString {
    if b.Some? then b.value.dirname else defaultDir
  }

  function CodesetOf(b: Option<Binding>): Option<CString> {
    if b.Some? then b.value.codeset else None
  }

  function CodesetChanges(b: Option<Binding>): nat {
    if b.Some? then b.value.codesetCntr else 0
  }

  /** What a caller may expect of the binding of `name` after a call that sets one attribute, both or none. */
  predicate Honours(before: Option<Binding>, after: Option<Binding>, name: CString, dir: Arg, cs: Arg, defaultDir: CString) {
    && (after.Some? ==> after.value.domainname == name)
    && (after.Some? <==> before.Some? || dir.Set? || cs.Set?)
    && DirectoryOf(after, defaultDir) == (if dir.Set? then dir.value else DirectoryOf(before, defaultDir))
    && CodesetOf(after) == (if cs.Set? then Some(cs.value) else CodesetOf(before))
    && CodesetChanges(after) == CodesetChanges(before) + (if CodesetOf(after) == CodesetOf(before) then 0 else 1)
  }

  /** These expectations are met, and nothing else meets them. */
  lemma ReboundExactly(before: Option<Binding>, after: Option<Binding>, name: CString, dir: Arg, cs: Arg,
      defaultDir: CString)
    requires before.Some? ==> before.value.domainname == name
    ensures after == Rebound(before, name, dir, cs, defaultDir) <==> Honours(before, after, name, dir, cs, defaultDir)
  {
  }

  // ----- One operation, as a relation between states -----

  datatype Op =
    | TextDomain(name: Option<CString>)
    | Bind(domainname: Option<CString>, dir: Arg, cs: Arg)
    | Translate(domainname: Option<CString>, msgid: CString, category: int)

  ghost predicate BindStep(s: State, t: State, domainname: Option<CString>, dir: Arg, cs: Arg, defaultDir: CString) {
    && SortedBindings(t.bindings)
    && t.defaultDomain == s.defaultDomain && t.cache == s.cache
    && t.counter == s.counter + (if t.bindings == s.bindings then 0 else 1)
    && if domainname.None? || domainname.value == [] then t.bindings == s.bindings
       else forall n :: BindingOf(t.bindings, n) ==
              if n == domainname.value then Rebound(BindingOf(s.bindings, n), n, dir, cs, defaultDir)
              else BindingOf(s.bindings, n)
  }

  ghost predicate TranslateStep(search: Search, s: State, t: State, key: Key) {
    && t.defaultDomain == s.defaultDomain && t.bindings == s.bindings && t.counter == s.counter
    && if key in s.cache && s.cache[key].counter == s.counter then t.cache == s.cache
       else
         match FullSearch(search, s, key)
         case None => t.cache == s.cache
         case Some(f) => t.cache == s.cache[key := Known(s.counter, f)]
  }

  ghost predicate Step(search: Search, defaultDir: CString, s: State, op: Op, t: State) {
    match op
    case TextDomain(name) =>
      if name.None? then t == s
      else t == s.(defaultDomain := if name.value == [] then Messages() else name.value, counter := s.counter + 1)
    case Bind(d, dir, cs) => BindStep(s, t, d, dir, cs, defaultDir)
    case Translate(d, msgid, category) => TranslateStep(search, s, t, KeyOf(s, d, msgid, category))
  }

  /** "messages" */
  function Messages(): CString {
    [109, 101, 115, 115, 97, 103, 101, 115]
  }

  function KeyOf(s: State, domainname: Option<CString>, msgid: CString, category: int): Key {
    Key(msgid, if domainname.None? then s.defaultDomain else domainname.value, category)
  }

  /** What the search through the catalogues finds in a state. */
  function FullSearch(search: Search, s: State, key: Key): Option<Found> {
    search(key.domainname, BindingOf(s.bindings, key.domainname), key.category, key.msgid)
  }

  // ----- Coherence -----

  /** Every cached translation whose counter is current is what a full search
      would find now; no counter is from the future. */
  ghost predicate Coherent(search: Search, s: State) {
    && SortedBindings(s.bindings)
    && forall k :: k in s.cache ==>
         && s.cache[k].counter <= s.counter
         && (s.cache[k].counter == s.counter ==> FullSearch(search, s, k) == Some(s.cache[k].found))
  }

  /** A run: each state follows from the one before by some operation. */
  ghost predicate Run(search: Search, defaultDir: CString, states: seq<State>, ops: seq<Op>) {
    && |states| == |ops| + 1
    && forall i :: 0 <= i < |ops| ==> Step(search, defaultDir, states[i], ops[i], states[i + 1])
  }

  lemma StepKeepsCoherent(search: Search, defaultDir: CString, s: State, op: Op, t: State)
    requires Coherent(search, s) && Step(search, defaultDir, s, op, t)
    ensures Coherent(search, t)
  {
    forall k | k in t.cache
      ensures t.cache[k].counter <= t.counter
      ensures t.cache[k].counter == t.counter ==> FullSearch(search, t, k) == Some(t.cache[k].found)
    {
      if k in s.cache && s.cache[k] == t.cache[k] {
        assert s.cache[k].counter <= s.counter;
      }
    }
  }

  /** An operation never turns the counter back, and leaves it alone only if it
      changes neither the bindings nor the default domain. */
  lemma StepCounter(search: Search, defaultDir: CString, s: State, op: Op, t: State)
    requires Step(search, defaultDir, s, op, t)
    ensures s.counter <= t.counter
    ensures s.counter == t.counter ==> s.bindings == t.bindings && s.defaultDomain == t.defaultDomain
  {
  }

  lemma {:induction false} CounterMonotonic(search: Search, defaultDir: CString, states: seq<State>,
      ops: seq<Op>, i: nat, j: nat)
    requires Run(search, defaultDir, states, ops) && i <= j < |states|
    ensures states[i].counter <= states[j].counter
    decreases j - i
  {
    if i < j {
      StepCounter(search, defaultDir, states[j - 1], ops[j - 1], states[j]);
      CounterMonotonic(search, defaultDir, states, ops, i, j - 1);
    }
  }

  /** Between two moments with the same counter nothing a search depends on has
      changed, whatever was called in between. */
  lemma {:induction false} SameCounterSameBindings(search: Search, defaultDir: CString, states: seq<State>,
      ops: seq<Op>, i: nat, j: nat)
    requires Run(search, defaultDir, states, ops) && i <= j < |states|
    requires states[i].counter == states[j].counter
    ensures states[i].bindings == states[j].bindings && states[i].defaultDomain == states[j].defaultDomain
    decreases j - i
  {
    if i < j {
      StepCounter(search, defaultDir, states[j - 1], ops[j - 1], states[j]);
      CounterMonotonic(search, defaultDir, states, ops, i, j - 1);
      SameCounterSameBindings(search, defaultDir, states, ops, i, j - 1);
    }
  }

  /** In every history the cache stays coherent. */
  lemma {:induction false} HistoryCoherent(search: Search, defaultDir: CString, states: seq<State>,
      ops: seq<Op>, j: nat)
    requires Run(search, defaultDir, states, ops) && j < |states| && Coherent(search, states[0])
    ensures Coherent(search, states[j])
  {
    if j > 0 {
      HistoryCoherent(search, defaultDir, states, ops, j - 1);
      StepKeepsCoherent(search, defaultDir, states[j - 1], ops[j - 1], states[j]);
    }
  }

  // ----- Which directory is searched -----

  /** The operation sets the directory of the domain. */
  predicate SetsDirectory(op: Op, name: CString) {
    op.Bind? && op.domainname == Some(name) && op.dir.Set?
  }

  lemma StepKeepsDirectory(search: Search, defaultDir: CString, s: State, op: Op, t: State, name: CString)
    requires Step(search, defaultDir, s, op, t) && name != []
    ensures var b, c := BindingOf(s.bindings, name), BindingOf(t.bindings, name);
            if SetsDirectory(op, name) then c.Some? && c.value.dirname == op.dir.value
            else (b.Some? ==> c.Some?) && DirectoryOf(c, defaultDir) == DirectoryOf(b, defaultDir)
  {
    if op.Bind? && op.domainname == Some(name) {
      var b := BindingOf(s.bindings, name);
      ReboundExactly(b, Rebound(b, name, op.dir, op.cs, defaultDir), name, op.dir, op.cs, defaultDir);
    }
  }

  /** Since the directory of a domain was last set, every search of the domain has used it. */
  lemma {:induction false} SearchesLastDirectory(search: Search, defaultDir: CString, states: seq<State>, ops: seq<Op>,
      i: nat, j: nat, name: CString)
    requires Run(search, defaultDir, states, ops) && name != [] && i < j < |states|
    requires SetsDirectory(ops[i], name) && forall k :: i < k < j ==> !SetsDirectory(ops[k], name)
    ensures var b := BindingOf(states[j].bindings, name);
            && b.Some? && b.value.domainname == name && b.value.dirname == ops[i].dir.value
            && forall category, msgid :: FullSearch(search, states[j], Key(msgid, name, category)) ==
                                         search(name, b, category, msgid)
    decreases j
  {
    StepKeepsDirectory(search, defaultDir, states[j - 1], ops[j - 1], states[j], name);
    if i < j - 1 {
      SearchesLastDirectory(search, defaultDir, states, ops, i, j - 1, name);
    }
  }
}
