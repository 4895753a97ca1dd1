/** The library's entry points that read and write the global state. */
module Gettext {
  import opened Options
  import opened CStrings
  import opened GettextState
  import opened PluralEval
  import opened PluralLexer

  /** A message itself, or a place in a translation. There is no place if selecting the plural
      form divides by zero. */
  datatype Answer = Untranslated(text: CString) | Translated(found: Found, start: Option<nat>)

  // ----- Lemmas on the sorted list of bindings -----

  lemma NamesDistinct(bs: seq<Binding>, i: nat, j: nat)
    requires SortedBindings(bs) && i < |bs| && j < |bs| && bs[i].domainname == bs[j].domainname
    ensures i == j
  {
    StrCmpEqual(bs[i].domainname, bs[j].domainname);
  }

  lemma BindingOfIs(bs: seq<Binding>, name: CString, r: Option<Binding>)
    requires SortedBindings(bs)
    requires r.Some? ==> r.value in bs && r.value.domainname == name
    requires r.None? ==> forall x | x in bs :: x.domainname != name
    ensures BindingOf(bs, name) == r
  {
    var b := BindingOf(bs, name);
    if r.Some? && b.Some? {
      var i :| 0 <= i < |bs| && bs[i] == r.value;
      var j :| 0 <= j < |bs| && bs[j] == b.value;
      NamesDistinct(bs, i, j);
    }
  }

  /** Replacing entry `i` by another binding of the same domain. */
  lemma ReplaceBinding(bs: seq<Binding>, i: nat, b: Binding)
    requires SortedBindings(bs) && i < |bs| && bs[i].domainname == b.domainname
    ensures SortedBindings(bs[i := b])
    ensures forall n :: BindingOf(bs[i := b], n) == if n == b.domainname then Some(b) else BindingOf(bs, n)
  {
    var t := bs[i := b];
    forall n
      ensures BindingOf(t, n) == if n == b.domainname then Some(b) else BindingOf(bs, n)
    {
      if n == b.domainname {
        assert t[i] == b;
        BindingOfIs(t, n, Some(b));
      } else {
        var r := BindingOf(bs, n);
        if r.Some? {
          var j :| 0 <= j < |bs| && bs[j] == r.value;
          assert t[j] == r.value;
        }
        BindingOfIs(t, n, r);
      }
    }
  }

  function Inserted(bs: seq<Binding>, i: nat, b: Binding): (t: seq<Binding>)
    requires i <= |bs|
    ensures |t| == |bs| + 1 && t[i] == b
    ensures forall k :: 0 <= k < i ==> t[k] == bs[k]
    ensures forall k :: i < k < |t| ==> t[k] == bs[k - 1]
  {
    bs[..i] + [b] + bs[i..]
  }

  /** Inserting a binding of a new domain where it belongs. */
  lemma InsertBinding(bs: seq<Binding>, i: nat, b: Binding)
    requires SortedBindings(bs) && i <= |bs|
    requires forall k :: 0 <= k < i ==> StrCmp(bs[k].domainname, b.domainname) < 0
    requires forall k :: i <= k < |bs| ==> StrCmp(b.domainname, bs[k].domainname) < 0
    ensures SortedBindings(Inserted(bs, i, b))
    ensures forall n :: BindingOf(Inserted(bs, i, b), n) == if n == b.domainname then Some(b) else BindingOf(bs, n)
  {
    InsertSorted(bs, i, b);
    forall n
      ensures BindingOf(Inserted(bs, i, b), n) == if n == b.domainname then Some(b) else BindingOf(bs, n)
    {
      InsertedBinding(bs, i, b, n);
    }
  }

  lemma InsertSorted(bs: seq<Binding>, i: nat, b: Binding)
    requires SortedBindings(bs) && i <= |bs|
    requires forall k :: 0 <= k < i ==> StrCmp(bs[k].domainname, b.domainname) < 0
    requires forall k :: i <= k < |bs| ==> StrCmp(b.domainname, bs[k].domainname) < 0
    ensures SortedBindings(Inserted(bs, i, b))
  {
    var t := Inserted(bs, i, b);
    forall j, k | 0 <= j < k < |t|
      ensures StrCmp(t[j].domainname, t[k].domainname) < 0
    {
      var j', k' := if j < i then j else j - 1, if k < i then k else k - 1;
      if j != i && k != i {
        assert t[j] == bs[j'] && t[k] == bs[k'];
      }
    }
  }

  lemma InsertedMembers(bs: seq<Binding>, i: nat, b: Binding, x: Binding)
    requires i <= |bs|
    ensures x in Inserted(bs, i, b) <==> x == b || x in bs
  {
    assert bs == bs[..i] + bs[i..];
  }

  lemma InsertedBinding(bs: seq<Binding>, i: nat, b: Binding, n: CString)
    requires SortedBindings(bs) && i <= |bs| && SortedBindings(Inserted(bs, i, b))
    ensures BindingOf(Inserted(bs, i, b), n) == if n == b.domainname then Some(b) else BindingOf(bs, n)
  {
    var t := Inserted(bs, i, b);
    var r := if n == b.domainname then Some(b) else BindingOf(bs, n);
    if r.Some? {
      InsertedMembers(bs, i, b, r.value);
    } else {
      forall x | x in t
        ensures x.domainname != n
      {
        InsertedMembers(bs, i, b, x);
      }
    }
    BindingOfIs(t, n, r);
  }

  class Library {
    const search: Search
    const rules: nat -> Rule
    const defaultDir: CString

    var currentDefaultDomain: CString
    var domainBindings: seq<Binding>
    var msgCatCntr: int
    var root: map<Key, Known>

    function Value(): State
      reads this
    {
      State(currentDefaultDomain, domainBindings, msgCatCntr, root)
    }

    ghost predicate Valid()
      reads this
    {
      Coherent(search, Value())
    }

    constructor (search: Search, rules: nat -> Rule, defaultDir: CString)
      ensures Valid() && Value() == State(Messages(), [], 0, map[])
      ensures this.search == search && this.rules == rules && this.defaultDir == defaultDir
    {
      this.search, this.rules, this.defaultDir := search, rules, defaultDir;
      currentDefaultDomain, domainBindings, msgCatCntr, root := Messages(), [], 0, map[];
    }

    /** The loop both `set_binding_values` and `dcigettext` use: the position of the
        binding, or its absence as soon as the names are past it. */
    method FindBinding(name: CString) returns (found: bool, i: nat)
      requires SortedBindings(domainBindings)
      ensures found ==> i < |domainBindings| && domainBindings[i].domainname == name
                        && BindingOf(domainBindings, name) == Some(domainBindings[i])
      ensures !found ==> BindingOf(domainBindings, name) == None
    {
      i := 0;
      while i < |domainBindings|
        invariant 0 <= i <= |domainBindings|
        invariant forall k :: 0 <= k < i ==> domainBindings[k].domainname != name
      {
        var compare := StrCmp(name, domainBindings[i].domainname);
        StrCmpEqual(name, domainBindings[i].domainname);
        if compare == 0 {
          BindingOfIs(domainBindings, name, Some(domainBindings[i]));
          return true, i;
        }
        if compare < 0 {
          forall k | i < k < |domainBindings|
            ensures domainBindings[k].domainname != name
          {
            StrCmpTransitive(name, domainBindings[i].domainname, domainBindings[k].domainname);
            StrCmpEqual(name, domainBindings[k].domainname);
          }
          break;
        }
        i := i + 1;
      }
      BindingOfIs(domainBindings, name, None);
      return false, i;
    }

    /** `textdomain`. */
    method TextDomain(name: Option<CString>) returns (r: CString)
      requires Valid()
      modifies this
      ensures Valid()
      ensures Step(search, defaultDir, old(Value()), Op.TextDomain(name), Value())
      ensures r == currentDefaultDomain
      ensures match name
              case None => currentDefaultDomain == old(currentDefaultDomain) && msgCatCntr == old(msgCatCntr)
              case Some(d) =>
                && currentDefaultDomain == (if d == [] then Messages() else d)
                && msgCatCntr == old(msgCatCntr) + 1
    {
      if name.None? {
        return currentDefaultDomain;
      }
      ghost var before := Value();
      if name.value == [] || StrCmp(name.value, Messages()) == 0 {
        StrCmpEqual(name.value, Messages());
        currentDefaultDomain := Messages();
      } else if StrCmp(name.value, currentDefaultDomain) == 0 {
        StrCmpEqual(name.value, currentDefaultDomain);
      } else {
        currentDefaultDomain := name.value;
      }
      r := currentDefaultDomain;
      msgCatCntr := msgCatCntr + 1;
      StepKeepsCoherent(search, defaultDir, before, Op.TextDomain(name), Value());
    }

    /** The part of `set_binding_values` that changes an existing binding. */
    method Update(b0: Binding, dir: Arg, cs: Arg)
      returns (b: Binding, dirOut: Option<CString>, csOut: Option<CString>, modified: bool)
      ensures Some(b) == Rebound(Some(b0), b0.domainname, dir, cs, defaultDir)
      ensures modified <==> b != b0
      ensures !dir.Absent? ==> dirOut == Some(b.dirname)
      ensures !cs.Absent? ==> csOut == b.codeset
    {
      RebindCases(b0, dir, cs);
      b, dirOut, csOut, modified := b0, None, None, false;
      if !dir.Absent? {
        if dir.Set? && StrCmp(dir.value, b.dirname) != 0 {
          b := b.(dirname := dir.value);
          modified := true;
        }
        dirOut := Some(b.dirname);
      }
      if !cs.Absent? {
        if cs.Set? && (b.codeset.None? || StrCmp(cs.value, b.codeset.value) != 0) {
          b := b.(codeset := Some(cs.value), codesetCntr := b.codesetCntr + 1);
          modified := true;
        }
        csOut := b.codeset;
      }
    }

    static lemma RebindCases(b: Binding, dir: Arg, cs: Arg)
      ensures dir.Set? ==> (StrCmp(dir.value, b.dirname) == 0 <==> dir.value == b.dirname)
      ensures cs.Set? && b.codeset.Some? ==> (StrCmp(cs.value, b.codeset.value) == 0 <==> cs.value == b.codeset.value)
    {
      if dir.Set? {
        StrCmpEqual(dir.value, b.dirname);
      }
      if cs.Set? && b.codeset.Some? {
        StrCmpEqual(cs.value, b.codeset.value);
      }
    }

    /** Where a new binding is enqueued: in front, or behind the last smaller one. */
    method Enqueue(b: Binding)
      requires SortedBindings(domainBindings) && BindingOf(domainBindings, b.domainname) == None
      modifies `domainBindings
      ensures SortedBindings(domainBindings) && |domainBindings| == |old(domainBindings)| + 1
      ensures forall n :: BindingOf(domainBindings, n) ==
                if n == b.domainname then Some(b) else BindingOf(old(domainBindings), n)
    {
      var i, bs := 0, domainBindings;
      NotBound(bs, b.domainname);
      if bs != [] && StrCmp(b.domainname, bs[0].domainname) >= 0 {
        i := 1;
        while i < |bs| && StrCmp(b.domainname, bs[i].domainname) > 0
          invariant 1 <= i <= |bs|
          invariant forall k :: 0 <= k < i ==> StrCmp(bs[k].domainname, b.domainname) < 0
        {
          i := i + 1;
        }
      }
      forall k | i <= k < |bs|
        ensures StrCmp(b.domainname, bs[k].domainname) < 0
      {
        if i < k {
          StrCmpTransitive(b.domainname, bs[i].domainname, bs[k].domainname);
        }
      }
      InsertBinding(bs, i, b);
      domainBindings := bs[..i] + [b] + bs[i..];
    }

    static lemma NotBound(bs: seq<Binding>, name: CString)
      requires BindingOf(bs, name) == None
      ensures forall k :: 0 <= k < |bs| ==>
                StrCmp(name, bs[k].domainname) != 0
                && (StrCmp(name, bs[k].domainname) > 0 ==> StrCmp(bs[k].domainname, name) < 0)
    {
      forall k | 0 <= k < |bs|
        ensures StrCmp(name, bs[k].domainname) != 0
        ensures StrCmp(name, bs[k].domainname) > 0 ==> StrCmp(bs[k].domainname, name) < 0
      {
        assert bs[k] in bs;
        StrCmpEqual(name, bs[k].domainname);
        StrCmpAntisymmetric(bs[k].domainname, name);
      }
    }

    /** Finds the binding and changes or creates it. */
    method ChangeBinding(name: CString, dir: Arg, cs: Arg)
      returns (dirOut: Option<CString>, csOut: Option<CString>, modified: bool)
      requires SortedBindings(domainBindings)
      modifies `domainBindings
      ensures SortedBindings(domainBindings)
      ensures modified <==> domainBindings != old(domainBindings)
      ensures forall n :: BindingOf(domainBindings, n) ==
                if n == name then Rebound(BindingOf(old(domainBindings), n), n, dir, cs, defaultDir)
                else BindingOf(old(domainBindings), n)
      ensures var b := BindingOf(domainBindings, name);
              && (!dir.Absent? ==> dirOut == Some(if b.None? then defaultDir else b.value.dirname))
              && (!cs.Absent? ==> csOut == if b.None? then None else b.value.codeset)
    {
      var bs := domainBindings;
      var found, i := FindBinding(name);
      if found {
        var b;
        b, dirOut, csOut, modified := Update(bs[i], dir, cs);
        ReplaceBinding(bs, i, b);
        domainBindings := bs[i := b];
      } else if !dir.Set? && !cs.Set? {
        dirOut, csOut, modified := Some(defaultDir), None, false;
      } else {
        var b := Binding(name, if dir.Set? then dir.value else defaultDir,
                         if cs.Set? then 1 else 0, if cs.Set? then Some(cs.value) else None);
        dirOut, csOut, modified := Some(b.dirname), b.codeset, true;
        Enqueue(b);
      }
    }

    /** `set_binding_values`: `bindtextdomain` and `bind_textdomain_codeset` call it
        with the other attribute absent. The counter moves exactly when some binding
        does. */
    method SetBindingValues(name: Option<CString>, dir: Arg, cs: Arg)
      returns (dirOut: Option<CString>, csOut: Option<CString>)
      requires Valid()
      modifies this
      ensures Valid()
      ensures Step(search, defaultDir, old(Value()), Bind(name, dir, cs), Value())
      ensures name.None? || name.value == [] ==> dirOut == None && csOut == None
      ensures name.Some? && name.value != [] ==>
                Honours(BindingOf(old(domainBindings), name.value), BindingOf(domainBindings, name.value),
                        name.value, dir, cs, defaultDir)
      ensures name.Some? && name.value != [] && dir.Set? ==> dirOut == Some(dir.value)
      ensures name.Some? && name.value != [] && cs.Set? ==> csOut == Some(cs.value)
      ensures name.Some? && name.value != [] ==>
                var b := BindingOf(domainBindings, name.value);
                && (!dir.Absent? ==> dirOut == Some(if b.None? then defaultDir else b.value.dirname))
                && (!cs.Absent? ==> csOut == if b.None? then None else b.value.codeset)
    {
      ghost var before := Value();
      if name.None? || name.value == [] {
        return None, None;
      }
      var modified;
      dirOut, csOut, modified := ChangeBinding(name.value, dir, cs);
      ReboundExactly(BindingOf(before.bindings, name.value), BindingOf(domainBindings, name.value), name.value, dir, cs,
                     defaultDir);
      if modified {
        msgCatCntr := msgCatCntr + 1;
      }
      StepKeepsCoherent(search, defaultDir, before, Bind(name, dir, cs), Value());
    }

    /** Where the answer begins in the translation found. */
    ghost function Start(f: Found, plural: bool, n: nat): Option<nat>
      requires n < ULONG_MODULUS
    {
      SplitBlock(f.translation);
      if plural then VariantStart(rules(f.catalogue), n, f.translation) else Some(0)
    }

    /** The answer from a translation: of its variants, the one for `n`. */
    method Deal(f: Found, plural: bool, n: nat) returns (answer: Answer)
      requires n < ULONG_MODULUS
      ensures answer == Translated(f, Start(f, plural, n))
    {
      SplitBlock(f.translation);
      var start := Some(0);
      if plural {
        var rule := rules(f.catalogue);
        start := PluralLookup(rule.plural, rule.nplurals, n, f.translation, Split(f.translation));
      }
      answer := Translated(f, start);
    }

    /** `dcigettext`: through the cache or not, the answer is the one a full search
        gives in the present state, and of a plural message the variant for `n`. */
    method DCIGetText(domainname: Option<CString>, msgid1: CString, msgid2: CString, plural: bool, n: nat,
                      category: int) returns (answer: Answer)
      requires Valid() && n < ULONG_MODULUS
      modifies `root
      ensures Valid()
      ensures Step(search, defaultDir, old(Value()), Translate(domainname, msgid1, category), Value())
      ensures var d := if domainname.None? then currentDefaultDomain else domainname.value;
              match search(d, BindingOf(domainBindings, d), category, msgid1)
              case Some(f) => answer == Translated(f, Start(f, plural, n))
              case None => answer == Untranslated(if plural && n != 1 then msgid2 else msgid1)
    {
      ghost var before := Value();
      var key := KeyOf(Value(), domainname, msgid1, category);
      if key in root && root[key].counter == msgCatCntr {
        answer := Deal(root[key].found, plural, n);
        return;
      }
      var bound, i := FindBinding(key.domainname);
      var binding := if bound then Some(domainBindings[i]) else None;
      match search(key.domainname, binding, category, msgid1) {
        case None =>
          answer := Untranslated(if !plural || n == 1 then msgid1 else msgid2);
        case Some(f) =>
          root := root[key := Known(msgCatCntr, f)];
          answer := Deal(f, plural, n);
      }
      StepKeepsCoherent(search, defaultDir, before, Translate(domainname, msgid1, category), Value());
    }
  }
}
