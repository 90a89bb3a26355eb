/** The variable environment: a hash table of all scopes, an undo log, and a
    summary of the types of each name. */
module Venvs {
  import opened Options
  import opened Types
  import opened CoreVenvs
  import opened Scopes

  /* The type of a name, overloaded only if there are at least two. */

  datatype Summary = NoType | Single(t: Ty) | Overloaded(sub: seq<Ty>)

  datatype NameValue = NameValue(maxFormals: nat, t: Summary)

  const NO_VALUE := NameValue(0, NoType)

  function List(s: Summary): seq<Ty> {
    match s
    case NoType => []
    case Single(t) => [t]
    case Overloaded(sub) => sub
  }

  predicate RightKind(s: Summary) {
    s.Overloaded? ==> |s.sub| > 1
  }

  // Open signatures are equivalent whatever their formals, so replacing one
  // tells nothing about the number of its formals.
  predicate BoundedBy(t: Ty, n: nat) {
    NumFormals(t) <= n || (t.Function? && t.sig.isOpen)
  }

  // A summary that lists l and bounds the number of formals of its members.
  ghost predicate Summarizes(nv: NameValue, l: seq<Ty>) {
    RightKind(nv.t) && List(nv.t) == l && forall i :: 0 <= i < |l| ==> BoundedBy(l[i], nv.maxFormals)
  }

  function AddType(nv: NameValue, s: Ty): NameValue {
    if nv.t.NoType? then NameValue(NumFormals(s), Single(s))
    else NameValue(if NumFormals(s) > nv.maxFormals then NumFormals(s) else nv.maxFormals, Overloaded(List(nv.t) + [s]))
  }

  lemma AddTypeSummarizes(nv: NameValue, l: seq<Ty>, s: Ty)
    requires Summarizes(nv, l)
    ensures Summarizes(AddType(nv, s), l + [s])
  {
  }

  // Replaces the first type equivalent to the old one; none is the unreachable
  // case of the original.
  method ReplaceFirst(l: seq<Ty>, new_t: Ty, old_t: Ty) returns (r: Option<seq<Ty>>)
    ensures r.Some? <==> exists i :: 0 <= i < |l| && Equivalent(old_t, l[i])
    ensures r.Some? ==> exists i :: 0 <= i < |l| && Equivalent(old_t, l[i]) && r.value == l[i := new_t]
  {
    var i := 0;
    while i < |l|
      invariant 0 <= i <= |l|
      invariant forall j :: 0 <= j < i ==> !Equivalent(old_t, l[j])
    {
      if Equivalent(old_t, l[i]) {
        return Some(l[i := new_t]);
      }
      i := i + 1;
    }
    return None;
  }

  // Replacing the type equivalent to an entry's is replacing the type of its key.
  lemma ReplaceIsSwap(c: map<Key, VarEntry>, name: Symbol, l: seq<Ty>, new_t: Ty, i: nat)
    requires Listed(c, name, l) && CanonKey(name, new_t) in c
    requires i < |l| && Equivalent(c[CanonKey(name, new_t)].t, l[i])
    ensures l[i := new_t] == Swap(l, name, CanonKey(name, new_t), new_t)
    ensures CanonKey(name, l[i]) == CanonKey(name, new_t)
  {
    var k := CanonKey(name, new_t);
    KeyName(name, new_t);
    EquivalentSameKey(name, c[k].t, l[i]);
    hide CanonKey;
    assert HasKey(l, name, k);
    var j :| 0 <= j < |l| && CanonKey(name, l[j]) == k;
    assert c[k].t == l[j];
    assert CanonKey(name, l[i]) == k;
    forall p | 0 <= p < |l|
      ensures l[i := new_t][p] == Swap(l, name, k, new_t)[p]
    {
    }
  }

  lemma EntryIsListed(c: map<Key, VarEntry>, name: Symbol, l: seq<Ty>, t: Ty)
    requires Listed(c, name, l) && CanonKey(name, t) in c
    ensures exists i :: 0 <= i < |l| && Equivalent(c[CanonKey(name, t)].t, l[i])
  {
    KeyName(name, t);
    hide CanonKey;
    assert HasKey(l, name, CanonKey(name, t));
    var i :| 0 <= i < |l| && CanonKey(name, l[i]) == CanonKey(name, t);
    EquivalenceRelation(l[i], l[i], l[i]);
  }

  // Types of the same key have as many formals.
  lemma SameKeyBounded(name: Symbol, a: Ty, b: Ty, n: nat)
    requires CanonKey(name, a) == CanonKey(name, b) && BoundedBy(a, n)
    ensures BoundedBy(b, n)
  {
    if b.Function? && !b.sig.isOpen {
      assert a.Function? && CanonSig(a.sig) == CanonSig(b.sig);
      assert |CanonSig(b.sig).formals| == |b.sig.formals|;
      assert !a.sig.isOpen ==> |CanonSig(a.sig).formals| == |a.sig.formals|;
    }
  }

  lemma SwapSummarizes(nv: NameValue, nv': NameValue, l: seq<Ty>, name: Symbol, t: Ty, i: nat)
    requires Summarizes(nv, l) && i < |l| && CanonKey(name, l[i]) == CanonKey(name, t)
    requires nv'.maxFormals == nv.maxFormals && List(nv'.t) == l[i := t] && RightKind(nv'.t)
    ensures Summarizes(nv', l[i := t])
  {
    SameKeyBounded(name, l[i], t, nv.maxFormals);
  }

  /** replaceType: an entry of the same key gets a new type. */
  method ReplaceType(nv: NameValue, new_t: Ty, old_t: Ty, ghost c: map<Key, VarEntry>, ghost name: Symbol) returns (r: NameValue)
    requires Summarizes(nv, List(nv.t)) && Listed(c, name, List(nv.t))
    requires CanonKey(name, new_t) in c && c[CanonKey(name, new_t)].t == old_t
    ensures Summarizes(r, Swap(List(nv.t), name, CanonKey(name, new_t), new_t)) && r.maxFormals == nv.maxFormals
  {
    ghost var l := List(nv.t);
    EntryIsListed(c, name, l, new_t);
    hide CanonKey, Listed, Swap;
    if nv.t.Overloaded? {
      var replaced := ReplaceFirst(nv.t.sub, new_t, old_t);
      r := nv.(t := Overloaded(replaced.value));
      ghost var i :| 0 <= i < |l| && Equivalent(old_t, l[i]) && replaced.value == l[i := new_t];
      ReplaceIsSwap(c, name, l, new_t, i);
      SwapSummarizes(nv, r, l, name, new_t, i);
    } else {
      ghost var i :| 0 <= i < |l| && Equivalent(old_t, l[i]);
      r := nv.(t := Single(new_t));
      ReplaceIsSwap(c, name, l, new_t, i);
      assert l[i := new_t] == [new_t];
      SwapSummarizes(nv, r, l, name, new_t, i);
    }
  }

  /** popType: the last type added goes, and so does overloading if it can. */
  method PopType(nv: NameValue) returns (r: NameValue)
    requires Summarizes(nv, List(nv.t)) && !nv.t.NoType?
    ensures var l := List(nv.t); Summarizes(r, l[..|l| - 1])
  {
    if nv.t.Overloaded? {
      var sub := nv.t.sub[..|nv.t.sub| - 1];
      r := nv.(t := if |sub| == 1 then Single(sub[0]) else Overloaded(sub));
      assert List(r.t) == sub;
    } else {
      r := nv.(t := NoType);
    }
  }

  function ValueOf(names: map<Symbol, NameValue>, name: Symbol): NameValue {
    if name in names then names[name] else NO_VALUE
  }

  function TypesIn(names: map<Symbol, NameValue>): map<Symbol, seq<Ty>> {
    map n | n in names && List(names[n].t) != [] :: List(names[n].t)
  }

  // No bound on formals grows, but that of a name to the formals of a new type.
  ghost predicate BoundsKept(names: map<Symbol, NameValue>, names': map<Symbol, NameValue>, name: Symbol, t: Ty) {
    forall n :: ValueOf(names', n).maxFormals <= ValueOf(names, n).maxFormals
                || (n == name && ValueOf(names', n).maxFormals == NumFormals(t))
  }

  ghost predicate AllSummarized(names: map<Symbol, NameValue>) {
    forall n :: n in names ==> Summarizes(names[n], List(names[n].t))
  }

  lemma TypesInUpdate(names: map<Symbol, NameValue>, name: Symbol, nv: NameValue)
    ensures TypesIn(names[name := nv]) ==
            if List(nv.t) != [] then TypesIn(names)[name := List(nv.t)] else TypesIn(names) - {name}
  {
  }

  lemma TypesInOf(c: map<Key, VarEntry>, names: map<Symbol, NameValue>, name: Symbol)
    ensures Scope(c, TypesIn(names)).TypesOf(name) == List(ValueOf(names, name).t)
  {
  }

  lemma NoValueSummarizes(names: map<Symbol, NameValue>, name: Symbol)
    requires AllSummarized(names)
    ensures Summarizes(ValueOf(names, name), List(ValueOf(names, name).t))
  {
  }

  lemma SummaryLists(nv: NameValue)
    ensures forall l :: Summarizes(nv, l) ==> l == List(nv.t)
  {
  }

  // Whether ending the scope clears the table.
  predicate Clears(m: Stack) {
    m.saved != [] && m.saved[|m.saved| - 1] == NOTHING && m.current.contents != map[]
  }

  // Neither entries nor tombs.
  ghost predicate NoneFilled(t: seq<Cell>) {
    forall p :: 0 <= p < |t| ==> t[p].Empty()
  }

  class Venv {
    const core: CoreVenv
    var additions: seq<Addition>
    var scopesizes: seq<nat>
    var names: map<Symbol, NameValue>
    var empty_scopes: nat
    ghost var saved: seq<Scope>

    ghost function Current(): Scope
      reads this, core
    {
      Scope(core.contents, TypesIn(names))
    }

    // The stack of scopes that this environment stands for.
    ghost function Abstract(): Stack
      reads this, core
    {
      Stack(Current(), saved)
    }

    ghost predicate Valid()
      reads this, core, core.table
    {
      core.Valid() && AllSummarized(names) && LogOk(Current(), additions, scopesizes, empty_scopes, saved)
    }

    constructor (hash: Hash)
      ensures Valid() && fresh(core) && fresh(core.table) && Abstract() == Stack(NOTHING, [])
      ensures core.hash == hash && core.capacity == 4 && NoneFilled(core.table[..])
      ensures Used(core.table[..]) == 0 && HasEmpty(core.table[..])
    {
      core := new CoreVenv(4, hash);
      additions, scopesizes, names, empty_scopes := [], [], map[], 0;
      saved := [];
      new;
      assert TypesIn(names) == map[];
      ScopeAlone(NOTHING, []);
      NoneUsed(core.table[..]);
      UsedRoom(core.table[..]);
    }

    lemma ValidScope()
      requires Valid()
      ensures ScopeOk(Current())
    {
      LogScope(Current(), additions, scopesizes, empty_scopes, saved);
    }

    // The part of enter that updates the summary of the name.
    method Summarize(name: Symbol, v: VarEntry, shadowed: Option<VarEntry>, ghost sc: Scope)
      requires AllSummarized(names) && sc.types == TypesIn(names) && ScopeOk(sc)
      requires shadowed == if CanonKey(name, v.t) in sc.contents then Some(sc.contents[CanonKey(name, v.t)]) else None
      modifies this`names
      ensures AllSummarized(names) && TypesIn(names) == Entered(sc, name, v).types
      ensures BoundsKept(old(names), names, name, v.t)
    {
      hide CanonKey, Summarizes, Listed, Swap;
      var nv := ValueOf(names, name);
      ghost var l := List(nv.t);
      TypesInOf(sc.contents, names, name);
      NoValueSummarizes(names, name);
      assert Listed(sc.contents, name, l);
      if shadowed.Some? {
        nv := ReplaceType(nv, v.t, shadowed.value.t, sc.contents, name);
        KeyName(name, v.t);
        KnownNonempty(sc.contents, name, l, CanonKey(name, v.t));
        SwapLength(l, name, CanonKey(name, v.t), v.t);
      } else {
        AddTypeSummarizes(nv, l, v.t);
        nv := AddType(nv, v.t);
      }
      SummaryLists(nv);
      TypesInUpdate(names, name, nv);
      names := names[name := nv];
    }

    // Record the addition, so that it can be undone.
    method LogAddition(a: Addition)
      modifies this`additions
      ensures additions == if scopesizes == [] then old(additions) else old(additions) + [a]
    {
      if scopesizes != [] {
        additions := additions + [a];
      }
    }

    /** Binding a name: a new entry, or a new one in place of the entry of the
        same key; open scopes keep what they were. */
    method Enter(name: Symbol, v: VarEntry)
      requires Valid() && (CanonKey(name, v.t) in core.contents || HasEmpty(core.table[..]))
      modifies this`additions, this`names, core, core.table
      ensures Valid() && (core.table == old(core.table) || fresh(core.table))
      ensures Some(Abstract()) == Step(old(Abstract()), Op.Enter(name, v))
      ensures Stored(old(core.table[..]), core.table[..], core.hash, old(core.contents), name, v)
      ensures Used(core.table[..]) <= Used(old(core.table[..])) + if CanonKey(name, v.t) in old(core.contents) then 0 else 1
      ensures core.table.Length >= old(core.table.Length)
      ensures BoundsKept(old(names), names, name, v.t)
    {
      hide BoundsKept, Used, LogOk, ScopeOk, Listed, CanonKey, AllSummarized, Summarizes, WellFormedTable, HasEmpty, TypesIn, Stored, Swap, CoreVenv.Valid;
      ValidScope();
      ghost var sc := Current();
      LogEntered(sc, additions, scopesizes, empty_scopes, saved, name, v);
      ghost var t, whole := core.table[..], core.contents;
      core.TableRepresents();
      var shadowed := core.Store(name, v);
      core.TableRepresents();
      StoredUsesOne(t, core.table[..], core.hash, whole, name, v);
      assert shadowed == Recorded(sc, name, v).shadowed;
      assert core.contents == Entered(sc, name, v).contents;
      LogAddition(Addition(name, v.t, shadowed));
      Summarize(name, v, shadowed, sc);
    }

    // The part of remove that updates the summary of the name.
    method Unsummarize(a: Addition, popped: Option<Ty>, ghost sc: Scope)
      requires AllSummarized(names) && sc.types == TypesIn(names) && ScopeOk(sc) && Undoable(sc, a)
      requires a.shadowed.Some? ==> popped == Some(sc.contents[a.AddedKey()].t)
      modifies this`names
      ensures AllSummarized(names) && TypesIn(names) == Undone(sc, a).types
    {
      hide CanonKey, Summarizes, Listed, Swap;
      var nv := ValueOf(names, a.name);
      ghost var l := List(nv.t);
      TypesInOf(sc.contents, names, a.name);
      NoValueSummarizes(names, a.name);
      assert Listed(sc.contents, a.name, l);
      KeyName(a.name, a.t);
      if a.shadowed.Some? {
        nv := ReplaceType(nv, a.shadowed.value.t, popped.value, sc.contents, a.name);
        KnownNonempty(sc.contents, a.name, l, a.AddedKey());
        SwapLength(l, a.name, a.AddedKey(), a.shadowed.value.t);
      } else {
        nv := PopType(nv);
      }
      SummaryLists(nv);
      TypesInUpdate(names, a.name, nv);
      names := names[a.name := nv];
    }

    /** Taking back one addition.  Neither the store nor the removal can miss. */
    method Remove(a: Addition)
      requires core.Valid() && AllSummarized(names) && ScopeOk(Current()) && Undoable(Current(), a)
      modifies this`names, core, core.table
      ensures core.Valid() && AllSummarized(names) && (core.table == old(core.table) || fresh(core.table))
      ensures Current() == Undone(old(Current()), a) && SameEmpty(old(core.table[..]), core.table[..])
    {
      hide SameEmpty, ScopeOk, Listed, CanonKey, Canonical, AllSummarized, Summarizes, WellFormedTable, HasEmpty, TypesIn, Stored, Swap, CoreVenv.Valid;
      ghost var sc := Current();
      if a.shadowed.Some? {
        ghost var t, whole := core.table[..], core.contents;
        core.TableRepresents();
        var popEnt := core.Store(a.name, a.shadowed.value);
        StoredKnown(t, core.table[..], core.hash, whole, a.name, a.shadowed.value);
        Unsummarize(a, Some(popEnt.value.t), sc);
      } else {
        CanonKeyIs(a.name, a.t);
        core.Remove(KeyFor(a.name, a.t));
        Unsummarize(a, None, sc);
      }
    }

    method BeginScope()
      requires Valid()
      modifies this`scopesizes, this`empty_scopes, this`saved
      ensures Valid() && Some(Abstract()) == Step(old(Abstract()), Begin)
    {
      hide LogOk, ScopeOk, AllSummarized, WellFormedTable, TypesIn;
      ValidScope();
      LogBegun(Current(), additions, scopesizes, empty_scopes, saved);
      saved := saved + [Current()];
      if core.size == 0 {
        assert scopesizes == [];
        empty_scopes := empty_scopes + 1;
      } else {
        scopesizes := scopesizes + [|additions|];
      }
    }

    // The loop of endScope.
    method UndoAdditions(scopesize: nat)
      requires Valid() && scopesizes != [] && scopesize == scopesizes[|scopesizes| - 1]
      modifies this`additions, this`names, core, core.table
      ensures Valid() && |additions| == scopesize && (core.table == old(core.table) || fresh(core.table))
      ensures SameEmpty(old(core.table[..]), core.table[..])
    {
      hide LogOk, ScopeOk, AllSummarized, WellFormedTable, TypesIn, Undone, Undoable, CoreVenv.Valid;
      LogSizes(Current(), additions, scopesizes, empty_scopes, saved);
      while |additions| > scopesize
        invariant Valid() && |additions| >= scopesize
        invariant core.table == old(core.table) || fresh(core.table)
        invariant SameEmpty(old(core.table[..]), core.table[..])
      {
        LogUndone(Current(), additions, scopesizes, empty_scopes, saved);
        Remove(additions[|additions| - 1]);
        additions := additions[..|additions| - 1];
      }
    }

    /** Ending a scope restores every entry and the order of every list of types
        as they were when the scope was begun. */
    method EndScope()
      requires Valid() && saved != []
      modifies this`additions, this`names, this`scopesizes, this`empty_scopes, this`saved, core, core.table
      ensures Valid() && (core.table == old(core.table) || fresh(core.table))
      ensures Some(Abstract()) == Step(old(Abstract()), End)
      ensures if Clears(old(Abstract())) then |core.table[..]| == |old(core.table[..])| && NoneFilled(core.table[..])
              else SameEmpty(old(core.table[..]), core.table[..])
      ensures Used(core.table[..]) <= Used(old(core.table[..])) && core.table.Length == old(core.table.Length)
    {
      hide Used, LogOk, ScopeOk, WellFormedTable, CoreVenv.Valid;
      ghost var t := core.table[..];
      if scopesizes == [] {
        LogCleared(Current(), additions, empty_scopes, saved);
        core.Clear();
        if t != core.table[..] {
          NoneUsed(core.table[..]);
        }
        names := map[];
        assert Current() == NOTHING;
        empty_scopes := empty_scopes - 1;
      } else {
        var scopesize := scopesizes[|scopesizes| - 1];
        UndoAdditions(scopesize);
        SameUsed(t, core.table[..]);
        LogEnded(Current(), additions, scopesizes, empty_scopes, saved);
        NeverEmptyAbove(Current(), additions, scopesizes, empty_scopes, saved);
        LogCollapsed(Current(), additions, scopesizes, empty_scopes, saved);
        scopesizes := scopesizes[..|scopesizes| - 1];
      }
      saved := saved[..|saved| - 1];
    }

    /** Collapsing a scope merges it into the one below. */
    method CollapseScope()
      requires Valid() && saved != []
      modifies this`scopesizes, this`empty_scopes, this`saved
      ensures Valid() && Some(Abstract()) == Step(old(Abstract()), Collapse)
    {
      hide LogOk, ScopeOk, AllSummarized, WellFormedTable, TypesIn;
      ValidScope();
      LogCollapsed(Current(), additions, scopesizes, empty_scopes, saved);
      if scopesizes == [] {
        empty_scopes := empty_scopes - 1;
      } else {
        scopesizes := scopesizes[..|scopesizes| - 1];
      }
      saved := saved[..|saved| - 1];
    }

    method LookByType(name: Symbol, t: Ty) returns (ent: Option<VarEntry>)
      requires Valid() && (CanonKey(name, t) in core.contents || HasEmpty(core.table[..]))
      ensures ent == if CanonKey(name, t) in Current().contents then Some(Current().contents[CanonKey(name, t)]) else None
    {
      ent := core.Lookup(KeyFor(name, t));
    }

    method GetType(name: Symbol) returns (t: Summary)
      requires Valid()
      ensures RightKind(t) && List(t) == Current().TypesOf(name)
    {
      TypesInOf(core.contents, names, name);
      NoValueSummarizes(names, name);
      return ValueOf(names, name).t;
    }

    /** Guesses the entry that a call with these arguments would resolve to. */
    method LookBySignature(name: Symbol, sig: Signature) returns (ve: Option<VarEntry>)
      requires Valid()
      requires Searched(names, name, sig) ==>
                 Canonical(Key(name, BySig(Some(sig)))) in core.contents || HasEmpty(core.table[..])
      modifies this`names
      ensures Valid() && Current() == old(Current())
      ensures ve.Some? ==> Guessed(Current(), name, sig, ve.value)
      ensures ve.None? ==>
                || !Searched(old(names), name, sig)
                || Canonical(Key(name, BySig(Some(sig)))) !in Current().contents
                || NumKeywordOnly(Current().contents[Canonical(Key(name, BySig(Some(sig))))].t) > 0
    {
      hide LogOk, WellFormedTable, ScopeOk, AllSummarized, TypesIn, Listed;
      if sig.HasRest() {
        return None;
      }
      if name.special {
        return None;
      }
      // Indexing the dictionary makes an entry for the name.
      EnsureName(name);
      var nv := names[name];
      if nv.maxFormals != sig.NumFormals() {
        return None;
      }
      ve := core.Lookup(Key(name, BySig(Some(sig))));
      if ve.None? {
        return None;
      }
      FoundBounded(name, sig);
      if ve.value.t.sig.numKeywordOnly > 0 {
        return None;
      }
    }

    // An entry found by a signature is a function, and the summary of its name
    // bounds the number of formals of its overloads.
    lemma FoundBounded(name: Symbol, sig: Signature)
      requires Valid() && !name.special && name in names
      requires Canonical(Key(name, BySig(Some(sig)))) in core.contents
      ensures core.contents[Canonical(Key(name, BySig(Some(sig))))].t.Function?
      ensures var l := Current().TypesOf(name); forall i :: 0 <= i < |l| ==> BoundedBy(l[i], names[name].maxFormals)
    {
      hide LogOk, WellFormedTable;
      ValidScope();
      assert Listed(core.contents, name, Current().TypesOf(name));
      TypesInOf(core.contents, names, name);
      FoundIsFunction(core.contents, name, Current().TypesOf(name), sig);
    }

    method EnsureName(name: Symbol)
      requires Valid()
      modifies this`names
      ensures Valid() && Current() == old(Current())
      ensures name in names && names[name] == ValueOf(old(names), name)
    {
      hide LogOk, WellFormedTable;
      if name !in names {
        TypesInUpdate(names, name, NO_VALUE);
        assert TypesIn(names) - {name} == TypesIn(names);
        names := names[name := NO_VALUE];
      }
    }
  }

  // The conditions under which the table is searched for a signature.
  predicate Searched(names: map<Symbol, NameValue>, name: Symbol, sig: Signature) {
    sig.rest.None? && !name.special && ValueOf(names, name).maxFormals == sig.NumFormals()
  }

  function NumKeywordOnly(t: Ty): nat {
    if t.Function? then t.sig.numKeywordOnly else 0
  }

  // What is known of an entry found by its signature.
  ghost predicate Guessed(sc: Scope, name: Symbol, sig: Signature, ve: VarEntry) {
    && !name.special && sig.rest.None?
    && Canonical(Key(name, BySig(Some(sig)))) in sc.contents
    && sc.contents[Canonical(Key(name, BySig(Some(sig))))] == ve
    && ve.t.Function? && ve.t.sig.numKeywordOnly == 0
    && forall i :: 0 <= i < |sc.TypesOf(name)| ==> BoundedBy(sc.TypesOf(name)[i], |sig.formals|)
  }

  lemma FoundIsFunction(c: map<Key, VarEntry>, name: Symbol, l: seq<Ty>, sig: Signature)
    requires Listed(c, name, l) && !name.special && Canonical(Key(name, BySig(Some(sig)))) in c
    ensures c[Canonical(Key(name, BySig(Some(sig))))].t.Function?
  {
    assert HasKey(l, name, Canonical(Key(name, BySig(Some(sig)))));
  }
}
