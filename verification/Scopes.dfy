/** What the variable environment means: a stack of scopes, each a finite map
    from keys to entries together with the types of every name in the order in
    which they were added. */
module Scopes {
  import opened Options
  import opened Types
  import opened CoreVenvs

  datatype Scope = Scope(contents: map<Key, VarEntry>, types: map<Symbol, seq<Ty>>)
  {
    function TypesOf(name: Symbol): seq<Ty> { if name in types then types[name] else [] }
  }

  const NOTHING := Scope(map[], map[])

  function Swap(l: seq<Ty>, name: Symbol, k: Key, t: Ty): seq<Ty> {
    seq(|l|, i requires 0 <= i < |l| => if CanonKey(name, l[i]) == k then t else l[i])
  }

  // The scope after name is bound to ent.
  function Entered(sc: Scope, name: Symbol, ent: VarEntry): Scope {
    var k := CanonKey(name, ent.t);
    Scope(sc.contents[k := ent],
          sc.types[name := if k in sc.contents then Swap(sc.TypesOf(name), name, k, ent.t) else sc.TypesOf(name) + [ent.t]])
  }

  datatype Addition = Addition(name: Symbol, t: Ty, shadowed: Option<VarEntry>)
  {
    function AddedKey(): Key { CanonKey(name, t) }
  }

  function ButLast(types: map<Symbol, seq<Ty>>, name: Symbol, l: seq<Ty>): map<Symbol, seq<Ty>> {
    if |l| <= 1 then types - {name} else types[name := l[..|l| - 1]]
  }

  // The scope with an addition taken back.
  function Undone(sc: Scope, a: Addition): Scope {
    if a.shadowed.Some?
    then Scope(sc.contents[a.AddedKey() := a.shadowed.value],
               sc.types[a.name := Swap(sc.TypesOf(a.name), a.name, a.AddedKey(), a.shadowed.value.t)])
    else Scope(sc.contents - {a.AddedKey()}, ButLast(sc.types, a.name, sc.TypesOf(a.name)))
  }

  predicate HasKey(l: seq<Ty>, name: Symbol, k: Key) {
    exists i :: 0 <= i < |l| && CanonKey(name, l[i]) == k
  }

  /** The summary of a name lists exactly the entries of that name, once each. */
  ghost predicate Listed(contents: map<Key, VarEntry>, name: Symbol, l: seq<Ty>) {
    && (forall i :: 0 <= i < |l| ==> CanonKey(name, l[i]) in contents && contents[CanonKey(name, l[i])].t == l[i])
    && (forall i, j :: 0 <= i < j < |l| ==> CanonKey(name, l[i]) != CanonKey(name, l[j]))
    && (forall k :: k in contents && k.name == name ==> HasKey(l, name, k))
  }

  ghost predicate ScopeOk(sc: Scope) {
    && (forall name :: Listed(sc.contents, name, sc.TypesOf(name)))
    && (forall name :: name in sc.types ==> sc.types[name] != [])
  }

  lemma KeyName(name: Symbol, t: Ty)
    ensures CanonKey(name, t).name == name
  {
  }

  lemma EquivalentSameKey(name: Symbol, a: Ty, b: Ty)
    requires Equivalent(a, b)
    ensures CanonKey(name, a) == CanonKey(name, b)
  {
    EquivalentIffCanon(a, b);
    OptSigEquivalentIffCanon(a.GetSignature(), b.GetSignature());
  }

  lemma OtherNamesListed(c: map<Key, VarEntry>, c': map<Key, VarEntry>, name: Symbol, l: seq<Ty>)
    requires Listed(c, name, l)
    requires forall k: Key :: k.name == name ==> (k in c <==> k in c') && (k in c ==> c[k] == c'[k])
    ensures Listed(c', name, l)
  {
    forall i | 0 <= i < |l|
      ensures CanonKey(name, l[i]) in c' && c'[CanonKey(name, l[i])].t == l[i]
    {
      KeyName(name, l[i]);
    }
  }

  lemma AppendListed(c: map<Key, VarEntry>, name: Symbol, l: seq<Ty>, ent: VarEntry)
    requires Listed(c, name, l) && CanonKey(name, ent.t) !in c
    ensures Listed(c[CanonKey(name, ent.t) := ent], name, l + [ent.t])
  {
    hide CanonKey;
    var c', l' := c[CanonKey(name, ent.t) := ent], l + [ent.t];
    assert forall i :: 0 <= i < |l| ==> l'[i] == l[i];
    assert l'[|l|] == ent.t;
    forall k | k in c' && k.name == name
      ensures HasKey(l', name, k)
    {
      if k in c {
        var i :| 0 <= i < |l| && CanonKey(name, l[i]) == k;
        assert CanonKey(name, l'[i]) == k;
      }
    }
  }

  lemma SwapKeys(l: seq<Ty>, name: Symbol, t: Ty)
    ensures var l' := Swap(l, name, CanonKey(name, t), t);
            forall i :: 0 <= i < |l| ==> CanonKey(name, l'[i]) == CanonKey(name, l[i])
  {
  }

  lemma SwapListed(c: map<Key, VarEntry>, name: Symbol, l: seq<Ty>, ent: VarEntry)
    requires Listed(c, name, l) && CanonKey(name, ent.t) in c
    ensures Listed(c[CanonKey(name, ent.t) := ent], name, Swap(l, name, CanonKey(name, ent.t), ent.t))
  {
    SwapKeys(l, name, ent.t);
    hide CanonKey;
    var key := CanonKey(name, ent.t);
    var c', l' := c[key := ent], Swap(l, name, key, ent.t);
    forall k | k in c' && k.name == name
      ensures HasKey(l', name, k)
    {
      var i :| 0 <= i < |l| && CanonKey(name, l[i]) == k;
      assert CanonKey(name, l'[i]) == k;
    }
  }

  lemma EnteredOk(sc: Scope, name: Symbol, ent: VarEntry)
    requires ScopeOk(sc)
    ensures ScopeOk(Entered(sc, name, ent))
  {
    KeyName(name, ent.t);
    var k, r, l := CanonKey(name, ent.t), Entered(sc, name, ent), sc.TypesOf(name);
    assert Listed(sc.contents, name, l);
    hide CanonKey, Listed, Swap;
    if k in sc.contents {
      SwapListed(sc.contents, name, l, ent);
      SwapLength(l, name, k, ent.t);
      KnownNonempty(sc.contents, name, l, k);
    } else {
      AppendListed(sc.contents, name, l, ent);
    }
    forall other
      ensures Listed(r.contents, other, r.TypesOf(other))
    {
      if other != name {
        assert Listed(sc.contents, other, sc.TypesOf(other));
        OtherNamesListed(sc.contents, r.contents, other, sc.TypesOf(other));
      }
    }
  }

  /** Entering a name binds its key, and adds a type to the end of the list of the
      name, or takes the place of the one type of the same key. */
  lemma EnteredMeans(sc: Scope, name: Symbol, ent: VarEntry)
    requires ScopeOk(sc)
    ensures var r, k, l := Entered(sc, name, ent), CanonKey(name, ent.t), sc.TypesOf(name);
            && r.contents == sc.contents[k := ent]
            && (forall other :: other != name ==> r.TypesOf(other) == sc.TypesOf(other))
            && (k !in sc.contents ==> r.TypesOf(name) == l + [ent.t])
            && (k in sc.contents ==>
                  exists i :: 0 <= i < |l| && l[i] == sc.contents[k].t && r.TypesOf(name) == l[i := ent.t])
  {
    var k, l := CanonKey(name, ent.t), sc.TypesOf(name);
    KeyName(name, ent.t);
    assert Listed(sc.contents, name, l);
    hide CanonKey;
    if k in sc.contents {
      assert HasKey(l, name, k);
      var i :| 0 <= i < |l| && CanonKey(name, l[i]) == k;
      assert Swap(l, name, k, ent.t) == l[i := ent.t];
    }
  }

  lemma SwapLength(l: seq<Ty>, name: Symbol, k: Key, t: Ty)
    ensures |Swap(l, name, k, t)| == |l|
  {
  }

  lemma KnownNonempty(c: map<Key, VarEntry>, name: Symbol, l: seq<Ty>, k: Key)
    requires Listed(c, name, l) && k in c && k.name == name
    ensures l != []
  {
    assert HasKey(l, name, k);
  }

  lemma SwapBack(c: map<Key, VarEntry>, name: Symbol, l: seq<Ty>, t: Ty)
    requires Listed(c, name, l) && CanonKey(name, t) in c
    ensures var k := CanonKey(name, t); Swap(Swap(l, name, k, t), name, k, c[k].t) == l
  {
    hide CanonKey;
  }

  // The addition that records the binding of name to ent.
  function Recorded(sc: Scope, name: Symbol, ent: VarEntry): Addition {
    var k := CanonKey(name, ent.t);
    Addition(name, ent.t, if k in sc.contents then Some(sc.contents[k]) else None)
  }

  /** Taking back an addition restores the scope, to the order of every list. */
  lemma UndoneEntered(sc: Scope, name: Symbol, ent: VarEntry)
    requires ScopeOk(sc)
    ensures Undone(Entered(sc, name, ent), Recorded(sc, name, ent)) == sc
  {
    hide CanonKey, Swap, Listed;
    var k, l := CanonKey(name, ent.t), sc.TypesOf(name);
    KeyName(name, ent.t);
    if k in sc.contents {
      SwapBack(sc.contents, name, l, ent.t);
      KnownNonempty(sc.contents, name, l, k);
    } else {
      ButLastAppended(sc.types, name, l, ent.t);
    }
  }

  lemma ButLastAppended(types: map<Symbol, seq<Ty>>, name: Symbol, l: seq<Ty>, t: Ty)
    requires l == if name in types then types[name] else []
    requires name in types ==> types[name] != []
    ensures ButLast(types[name := l + [t]], name, l + [t]) == types
  {
    assert (l + [t])[..|l|] == l;
  }

  /* What the undo log needs in order to be taken back. */

  ghost predicate Undoable(sc: Scope, a: Addition) {
    var l := sc.TypesOf(a.name);
    && a.AddedKey() in sc.contents
    && (a.shadowed.Some? ==> CanonKey(a.name, a.shadowed.value.t) == a.AddedKey())
    && (a.shadowed.None? ==> l != [] && CanonKey(a.name, l[|l| - 1]) == a.AddedKey())
  }

  // The scope after the additions beyond the first n are taken back.
  ghost function UndoTo(sc: Scope, additions: seq<Addition>, n: nat): Scope
    requires n <= |additions|
    decreases |additions|
  {
    if n == |additions| then sc
    else UndoTo(Undone(sc, additions[|additions| - 1]), additions[..|additions| - 1], n)
  }

  ghost predicate UndoOk(sc: Scope, additions: seq<Addition>, n: nat)
    requires n <= |additions|
    decreases |additions|
  {
    && ScopeOk(sc)
    && (n < |additions| ==>
          var a := additions[|additions| - 1];
          Undoable(sc, a) && UndoOk(Undone(sc, a), additions[..|additions| - 1], n))
  }

  lemma RecordedUndoable(sc: Scope, name: Symbol, ent: VarEntry)
    requires ScopeOk(sc)
    ensures Undoable(Entered(sc, name, ent), Recorded(sc, name, ent))
  {
    var k, l := CanonKey(name, ent.t), sc.TypesOf(name);
    KeyName(name, ent.t);
    assert Listed(sc.contents, name, l);
    hide CanonKey;
    if k in sc.contents {
      assert HasKey(l, name, k);
      var i :| 0 <= i < |l| && CanonKey(name, l[i]) == k;
      assert sc.contents[k].t == l[i];
    }
  }

  /** Logging a binding leaves what is below it in the log unchanged. */
  lemma LogGrows(sc: Scope, additions: seq<Addition>, n: nat, name: Symbol, ent: VarEntry)
    requires n <= |additions| && ScopeOk(sc)
    ensures var sc', log := Entered(sc, name, ent), additions + [Recorded(sc, name, ent)];
            && UndoTo(sc', log, n) == UndoTo(sc, additions, n)
            && (UndoOk(sc, additions, n) ==> UndoOk(sc', log, n))
  {
    var log := additions + [Recorded(sc, name, ent)];
    assert log[..|log| - 1] == additions;
    UndoneEntered(sc, name, ent);
    EnteredOk(sc, name, ent);
    RecordedUndoable(sc, name, ent);
    hide Entered, Undone, Undoable, ScopeOk;
  }

  // Nothing is unbound by additions, so nothing is bound by undoing them.
  lemma {:induction false} UndoKeys(sc: Scope, additions: seq<Addition>, n: nat)
    requires n <= |additions| && UndoOk(sc, additions, n)
    ensures UndoTo(sc, additions, n).contents.Keys <= sc.contents.Keys
    decreases |additions|
  {
    if n < |additions| {
      UndoKeys(Undone(sc, additions[|additions| - 1]), additions[..|additions| - 1], n);
    }
  }

  // A scope without entries has no types either.
  lemma EmptyScope(sc: Scope)
    requires ScopeOk(sc) && sc.contents == map[]
    ensures sc == NOTHING
  {
    forall name
      ensures name !in sc.types
    {
      NothingListed(name, sc.TypesOf(name));
    }
    assert sc.types == map[];
  }

  lemma NothingListed(name: Symbol, l: seq<Ty>)
    ensures Listed(map[], name, l) ==> l == []
  {
    if |l| > 0 {
      var k := CanonKey(name, l[0]);
    }
  }

  /* The log of the open scopes.  A scope begun while there were no entries is
     only counted; any other is recorded by the length of the undo log at that
     time.  The scopes only counted lie below all others. */

  function Base(additions: seq<Addition>, sizes: seq<nat>): nat {
    if sizes == [] then |additions| else sizes[0]
  }

  ghost predicate Increasing(sizes: seq<nat>, n: nat) {
    forall i, j :: 0 <= i <= j < |sizes| ==> sizes[i] <= sizes[j] <= n
  }

  ghost predicate SavedBy(sc: Scope, additions: seq<Addition>, sizes: seq<nat>, empties: nat, saved: seq<Scope>)
    requires Increasing(sizes, |additions|)
  {
    && |saved| == empties + |sizes|
    && (forall j :: 0 <= j < empties ==> saved[j] == NOTHING)
    && (forall j :: 0 <= j < |sizes| ==> saved[empties + j] == UndoTo(sc, additions, sizes[j]))
    && (sizes != [] ==> saved[empties].contents != map[])
  }

  /** The log restores every open scope as it was when the scope was begun. */
  ghost predicate LogOk(sc: Scope, additions: seq<Addition>, sizes: seq<nat>, empties: nat, saved: seq<Scope>) {
    && Increasing(sizes, |additions|)
    && UndoOk(sc, additions, Base(additions, sizes))
    && SavedBy(sc, additions, sizes, empties, saved)
  }

  lemma LogEntered(sc: Scope, additions: seq<Addition>, sizes: seq<nat>, empties: nat, saved: seq<Scope>, name: Symbol, ent: VarEntry)
    requires LogOk(sc, additions, sizes, empties, saved) && ScopeOk(sc)
    ensures LogOk(Entered(sc, name, ent), if sizes == [] then additions else additions + [Recorded(sc, name, ent)], sizes, empties, saved)
  {
    hide Entered, Recorded, ScopeOk;
    EnteredOk(sc, name, ent);
    if sizes == [] {
      ScopeAlone(Entered(sc, name, ent), additions);
    } else {
      LogGrows(sc, additions, sizes[0], name, ent);
      forall j | 0 <= j < |sizes|
        ensures UndoTo(Entered(sc, name, ent), additions + [Recorded(sc, name, ent)], sizes[j]) == UndoTo(sc, additions, sizes[j])
      {
        LogGrows(sc, additions, sizes[j], name, ent);
      }
    }
  }

  lemma ScopeAlone(sc: Scope, additions: seq<Addition>)
    ensures UndoOk(sc, additions, |additions|) <==> ScopeOk(sc)
  {
  }

  /** With a scope recorded in the log the environment is never empty. */
  lemma NeverEmptyAbove(sc: Scope, additions: seq<Addition>, sizes: seq<nat>, empties: nat, saved: seq<Scope>)
    requires LogOk(sc, additions, sizes, empties, saved) && sizes != []
    ensures sc.contents != map[]
  {
    UndoKeys(sc, additions, sizes[0]);
    var first := saved[empties + 0];
    var k :| k in first.contents;
    assert k in sc.contents.Keys;
  }

  lemma LogBegun(sc: Scope, additions: seq<Addition>, sizes: seq<nat>, empties: nat, saved: seq<Scope>)
    requires LogOk(sc, additions, sizes, empties, saved) && ScopeOk(sc)
    ensures sc.contents == map[] ==> sizes == [] && LogOk(sc, additions, sizes, empties + 1, saved + [sc])
    ensures sc.contents != map[] ==> LogOk(sc, additions, sizes + [|additions|], empties, saved + [sc])
  {
    hide ScopeOk;
    if sc.contents == map[] {
      EmptyScope(sc);
      if sizes != [] {
        NeverEmptyAbove(sc, additions, sizes, empties, saved);
      }
    } else if sizes == [] {
      ScopeAlone(sc, additions);
    } else {
      assert (sizes + [|additions|])[0] == sizes[0];
      assert UndoTo(sc, additions, |additions|) == sc;
    }
  }

  lemma LogCollapsed(sc: Scope, additions: seq<Addition>, sizes: seq<nat>, empties: nat, saved: seq<Scope>)
    requires LogOk(sc, additions, sizes, empties, saved) && ScopeOk(sc) && saved != []
    ensures sizes == [] ==> empties > 0 && LogOk(sc, additions, sizes, empties - 1, saved[..|saved| - 1])
    ensures sizes != [] ==> LogOk(sc, additions, sizes[..|sizes| - 1], empties, saved[..|saved| - 1])
  {
    hide ScopeOk;
    if |sizes| == 1 {
      ScopeAlone(sc, additions);
    }
  }

  lemma LogUndone(sc: Scope, additions: seq<Addition>, sizes: seq<nat>, empties: nat, saved: seq<Scope>)
    requires LogOk(sc, additions, sizes, empties, saved)
    requires sizes != [] && |additions| > sizes[|sizes| - 1]
    ensures ScopeOk(sc) && Undoable(sc, additions[|additions| - 1])
    ensures LogOk(Undone(sc, additions[|additions| - 1]), additions[..|additions| - 1], sizes, empties, saved)
  {
    hide ScopeOk, Undoable, Undone;
    forall j | 0 <= j < |sizes|
      ensures sizes[j] < |additions|
    {
      assert sizes[j] <= sizes[|sizes| - 1];
    }
  }

  lemma LogEnded(sc: Scope, additions: seq<Addition>, sizes: seq<nat>, empties: nat, saved: seq<Scope>)
    requires LogOk(sc, additions, sizes, empties, saved)
    requires sizes != [] && |additions| == sizes[|sizes| - 1]
    ensures saved != [] && saved[|saved| - 1] == sc && ScopeOk(sc)
  {
    assert saved[empties + (|sizes| - 1)] == UndoTo(sc, additions, sizes[|sizes| - 1]);
  }

  lemma LogCleared(sc: Scope, additions: seq<Addition>, empties: nat, saved: seq<Scope>)
    requires LogOk(sc, additions, [], empties, saved) && saved != []
    ensures empties > 0 && saved[|saved| - 1] == NOTHING
    ensures LogOk(NOTHING, additions, [], empties - 1, saved[..|saved| - 1])
  {
    ScopeAlone(NOTHING, additions);
  }

  lemma LogScope(sc: Scope, additions: seq<Addition>, sizes: seq<nat>, empties: nat, saved: seq<Scope>)
    requires LogOk(sc, additions, sizes, empties, saved)
    ensures ScopeOk(sc)
  {
  }

  lemma LogSizes(sc: Scope, additions: seq<Addition>, sizes: seq<nat>, empties: nat, saved: seq<Scope>)
    requires LogOk(sc, additions, sizes, empties, saved)
    ensures |saved| == empties + |sizes| && forall j :: 0 <= j < |sizes| ==> sizes[j] <= |additions|
  {
  }

  /* The environment as a machine: a current scope over a stack of saved ones. */

  datatype Op = Enter(name: Symbol, ent: VarEntry) | Begin | End | Collapse

  datatype Stack = Stack(current: Scope, saved: seq<Scope>)

  // None when a scope is closed that was never begun.
  function Step(m: Stack, op: Op): Option<Stack> {
    match op
    case Enter(name, ent) => Some(Stack(Entered(m.current, name, ent), m.saved))
    case Begin => Some(Stack(m.current, m.saved + [m.current]))
    case End => if m.saved == [] then None else Some(Stack(m.saved[|m.saved| - 1], m.saved[..|m.saved| - 1]))
    case Collapse => if m.saved == [] then None else Some(Stack(m.current, m.saved[..|m.saved| - 1]))
  }

  function Run(m: Stack, ops: seq<Op>): Option<Stack> {
    if ops == [] then Some(m)
    else
      var r := Run(m, ops[..|ops| - 1]);
      if r.None? then None else Step(r.value, ops[|ops| - 1])
  }

  // How many scopes a run leaves open, when it closes no more than it begins.
  function Depth(ops: seq<Op>): int {
    if ops == [] then 0
    else Depth(ops[..|ops| - 1]) + match ops[|ops| - 1] case Begin => 1 case Enter(_, _) => 0 case _ => -1
  }

  predicate NeverBelow(ops: seq<Op>) {
    forall n :: 0 <= n <= |ops| ==> Depth(ops[..n]) >= 0
  }

  predicate WellNested(ops: seq<Op>) {
    NeverBelow(ops) && Depth(ops) == 0
  }

  lemma {:induction false} RunKeepsBelow(m: Stack, ops: seq<Op>)
    requires NeverBelow(ops)
    ensures Run(m, ops).Some?
    ensures var r := Run(m, ops).value; |r.saved| == |m.saved| + Depth(ops) && m.saved <= r.saved
  {
    if ops != [] {
      var init := ops[..|ops| - 1];
      assert Depth(ops[..|ops|]) >= 0 && ops[..|ops|] == ops;
      assert forall n :: 0 <= n <= |init| ==> init[..n] == ops[..n];
      RunKeepsBelow(m, init);
    }
  }

  lemma {:induction false} RunConcat(m: Stack, a: seq<Op>, b: seq<Op>)
    ensures Run(m, a + b) == var r := Run(m, a); if r.None? then None else Run(r.value, b)
  {
    if b == [] {
      assert a + b == a;
    } else {
      assert (a + b)[..|a + b| - 1] == a + b[..|b| - 1];
      RunConcat(m, a, b[..|b| - 1]);
    }
  }

  /** Ending a scope restores the environment as it was when the scope was
      begun, after any well-nested run in between. */
  lemma EndRestores(m: Stack, ops: seq<Op>)
    requires WellNested(ops)
    ensures Run(m, [Begin] + ops + [End]) == Some(m)
  {
    var b := Stack(m.current, m.saved + [m.current]);
    RunOne(m, Begin);
    RunKeepsBelow(b, ops);
    var r := Run(b, ops).value;
    assert r.saved == b.saved;
    RunOne(r, End);
    RunConcat(m, [Begin], ops);
    RunConcat(m, [Begin] + ops, [End]);
    assert b.saved[..|m.saved|] == m.saved;
  }

  /** Collapsing it instead keeps what was entered and forgets the scope. */
  lemma CollapseMerges(m: Stack, ops: seq<Op>)
    requires WellNested(ops)
    ensures Run(m, [Begin] + ops + [Collapse]).Some? && Run(Stack(m.current, m.saved + [m.current]), ops).Some?
    ensures Run(m, [Begin] + ops + [Collapse]).value ==
            Stack(Run(Stack(m.current, m.saved + [m.current]), ops).value.current, m.saved)
  {
    var b := Stack(m.current, m.saved + [m.current]);
    RunOne(m, Begin);
    RunKeepsBelow(b, ops);
    var r := Run(b, ops).value;
    assert r.saved == b.saved;
    RunOne(r, Collapse);
    RunConcat(m, [Begin], ops);
    RunConcat(m, [Begin] + ops, [Collapse]);
    assert b.saved[..|m.saved|] == m.saved;
  }

  lemma RunOne(m: Stack, op: Op)
    ensures Run(m, [op]) == Step(m, op)
  {
    assert [op][..0] == [];
  }
}
