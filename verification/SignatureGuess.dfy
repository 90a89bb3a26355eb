/** Looking up a function by the signature of its arguments agrees with overload
    resolution. */
module SignatureGuess {
  import opened Options
  import opened Types
  import opened Applications
  import opened Lists
  import opened Multimatch
  import opened MultimatchProofs
  import opened CoreVenvs
  import opened Scopes
  import opened Venvs

  // Arguments of the formals' own types, given in order, match exactly.
  lemma {:induction false} PlainRun(env: Env, sig: Signature, call: Call, i: nat, s: AppState)
    requires WellFormed(sig) && Shape(sig, s) && Fresh(s) && call.Valid() && i <= |call.source.formals|
    requires !NamedFormals(call.source) && NoErrors(env, sig) && sig.numKeywordOnly == 0
    requires |sig.formals| == |call.source.formals| && s.index == i && AllExact(s.scores)
    requires forall j :: 0 <= j < |sig.formals| ==> env.equivalent(sig.formals[j].t, call.source.formals[j].t)
    ensures var u := MatchUnnamed(env, sig, call, i, s);
            u.Some? && AllExact(u.value.scores) && u.value.index == |sig.formals|
    decreases |call.source.formals| - i
  {
    if i < |call.source.formals| {
      var source := call.source.formals[i];
      var r := Place(sig, s, i, call.al.args[i], call.EvalIndex(i), EXACT);
      assert CastScore(env, sig.formals[i], source) == EXACT && Fits(env, sig, i, source);
      assert r.index == i + 1;
      PlainRun(env, sig, call, i + 1, r);
    }
  }

  lemma EquivalentMatchesExactly(env: Env, fn: Ty, call: Call)
    requires MatchableFn(fn) && call.Valid() && !NamedFormals(call.source) && NoErrors(env, fn.sig)
    requires !fn.sig.isOpen && fn.sig.numKeywordOnly == 0 && call.source.rest.None?
    requires |fn.sig.formals| == |call.source.formals|
    requires forall j :: 0 <= j < |fn.sig.formals| ==> env.equivalent(fn.sig.formals[j].t, call.source.formals[j].t)
    ensures Match(env, fn, call).Some? && Match(env, fn, call).value.fn == fn && Exact(Match(env, fn, call).value)
  {
    hide MatchUnnamed, MatchNamed;
    NoNamesPass(env, fn.sig, call, 0, Blank(fn.sig));
    PlainRun(env, fn.sig, call, 0, Blank(fn.sig));
  }

  // A walk uses up a formal for each argument, and with none to spare it pairs
  // them off.
  lemma {:induction false} WalkNeedsFormals(env: Env, formals: seq<Formal>, args: seq<Formal>, fi: nat, ai: nat)
    requires fi <= |formals| && ai <= |args| && ExactWalk(env, formals, args, fi, ai)
    ensures |args| - ai <= |formals| - fi
    decreases |formals| - fi
  {
    if fi < |formals| {
      if ai < |args| && env.equivalent(formals[fi].t, args[ai].t) {
        WalkNeedsFormals(env, formals, args, fi + 1, ai + 1);
      } else {
        WalkNeedsFormals(env, formals, args, fi + 1, ai);
      }
    }
  }

  lemma {:induction false} WalkPairs(env: Env, formals: seq<Formal>, args: seq<Formal>, i: nat)
    requires i <= |formals| == |args| && ExactWalk(env, formals, args, i, i)
    ensures forall j :: i <= j < |formals| ==> env.equivalent(formals[j].t, args[j].t)
    decreases |formals| - i
  {
    if i < |formals| {
      if env.equivalent(formals[i].t, args[i].t) {
        WalkPairs(env, formals, args, i + 1);
      } else {
        WalkNeedsFormals(env, formals, args, i + 1, i);
      }
    }
  }

  predicate SameEquivalence(env: Env, a: Ty, b: Ty) {
    env.equivalent(a, b) == Equivalent(a, b)
  }

  ghost predicate UsesEquivalent(env: Env) {
    forall a, b :: SameEquivalence(env, a, b)
  }

  // No other function with as few formals matches exactly.
  lemma ExactHasSameKey(env: Env, fn: Ty, call: Call, name: Symbol)
    requires MatchableFn(fn) && call.Valid() && !NamedFormals(call.source) && NoErrors(env, fn.sig)
    requires UsesEquivalent(env) && Symmetric(env)
    requires !call.source.isOpen && call.source.rest.None? && !name.special
    requires BoundedBy(fn, |call.source.formals|)
    requires Match(env, fn, call).Some? && Exact(Match(env, fn, call).value)
    ensures CanonKey(name, fn) == Canonical(Key(name, BySig(Some(call.source))))
  {
    hide Match, ExactWalk;
    ExactMightMatchComplete(env, fn, call);
    OpenNotExact(env, fn, call);
    WalkNeedsFormals(env, fn.sig.formals, call.source.formals, 0, 0);
    WalkPairs(env, fn.sig.formals, call.source.formals, 0);
    forall j | 0 <= j < |fn.sig.formals|
      ensures Equivalent(fn.sig.formals[j].t, call.source.formals[j].t)
    {
      assert SameEquivalence(env, fn.sig.formals[j].t, call.source.formals[j].t);
    }
    SigEquivalentIffCanon(fn.sig, call.source);
  }

  lemma OpenNotExact(env: Env, fn: Ty, call: Call)
    requires MatchableFn(fn) && call.Valid() && Match(env, fn, call).Some? && Exact(Match(env, fn, call).value)
    ensures !fn.sig.isOpen
  {
    hide MatchSignature, MatchOpen;
  }

  // The setting in which a signature is looked up: a call without names, rest
  // or overloaded arguments, in an environment without error types.
  ghost predicate Searchable(env: Env, sc: Scope, name: Symbol, call: Call) {
    && ScopeOk(sc)
    && call.Valid() && !NamedFormals(call.source) && !call.source.isOpen
    && UsesEquivalent(env) && SoundTypes(env, sc.TypesOf(name))
  }

  // The guess is the entry of some overload, ...
  lemma GuessIsListed(sc: Scope, name: Symbol, sig: Signature, ve: VarEntry) returns (i: nat)
    requires ScopeOk(sc) && Guessed(sc, name, sig, ve)
    ensures i < |sc.TypesOf(name)| && sc.TypesOf(name)[i] == ve.t
    ensures CanonKey(name, ve.t) == Canonical(Key(name, BySig(Some(sig))))
    ensures forall j :: 0 <= j < |sc.TypesOf(name)| && j != i ==> CanonKey(name, sc.TypesOf(name)[j]) != CanonKey(name, ve.t)
  {
    var l, k := sc.TypesOf(name), Canonical(Key(name, BySig(Some(sig))));
    assert Listed(sc.contents, name, l) && k.name == name;
    hide CanonKey, Canonical;
    assert HasKey(l, name, k);
    i :| 0 <= i < |l| && CanonKey(name, l[i]) == k;
  }

  // ... which matches exactly ...
  lemma GuessMatches(env: Env, sc: Scope, name: Symbol, call: Call, ve: VarEntry)
    requires Searchable(env, sc, name, call) && Guessed(sc, name, call.source, ve)
    ensures MatchableFn(ve.t) && !ve.t.sig.isOpen
    ensures Match(env, ve.t, call).Some? && Match(env, ve.t, call).value.fn == ve.t && Exact(Match(env, ve.t, call).value)
  {
    hide Match;
    var i := GuessIsListed(sc, name, call.source, ve);
    assert ve.t in sc.TypesOf(name);
    assert CanonSig(ve.t.sig) == CanonSig(call.source);
    SigEquivalentIffCanon(ve.t.sig, call.source);
    forall j | 0 <= j < |ve.t.sig.formals|
      ensures env.equivalent(ve.t.sig.formals[j].t, call.source.formals[j].t)
    {
      assert SameEquivalence(env, ve.t.sig.formals[j].t, call.source.formals[j].t);
    }
    EquivalentMatchesExactly(env, ve.t, call);
  }

  // ... and is the only one to do so.
  lemma {:induction false} OnlyGuessExact(env: Env, sc: Scope, name: Symbol, call: Call, ve: VarEntry, i: nat, l: seq<Ty>)
    requires Searchable(env, sc, name, call) && Guessed(sc, name, call.source, ve)
    requires i < |sc.TypesOf(name)| && sc.TypesOf(name)[i] == ve.t
    requires CanonKey(name, ve.t) == Canonical(Key(name, BySig(Some(call.source))))
    requires forall j :: 0 <= j < |sc.TypesOf(name)| && j != i ==> CanonKey(name, sc.TypesOf(name)[j]) != CanonKey(name, ve.t)
    requires l <= sc.TypesOf(name)
    requires MatchableFn(ve.t) && Match(env, ve.t, call).Some?
    ensures ValidOverloads(l)
    ensures ExactCandidates(env, l, call) == if i < |l| then [Match(env, ve.t, call).value] else []
  {
    hide Match, CanonKey, Canonical, ExactMightMatch, ScopeOk;
    if l != [] {
      var init, fn, m := l[..|l| - 1], l[|l| - 1], |l| - 1;
      OnlyGuessExact(env, sc, name, call, ve, i, init);
      assert fn == sc.TypesOf(name)[m] && fn in sc.TypesOf(name);
      GuessMatches(env, sc, name, call, ve);
      if m == i {
        ExactMightMatchComplete(env, fn, call);
        assert ExactCandidate(env, fn, call) == [Match(env, ve.t, call).value];
      } else {
        OtherNotExact(env, sc, name, call, ve, m);
        assert ExactCandidate(env, fn, call) == [];
      }
    }
  }

  lemma OtherNotExact(env: Env, sc: Scope, name: Symbol, call: Call, ve: VarEntry, m: nat)
    requires Searchable(env, sc, name, call) && Guessed(sc, name, call.source, ve) && m < |sc.TypesOf(name)|
    requires CanonKey(name, sc.TypesOf(name)[m]) != Canonical(Key(name, BySig(Some(call.source))))
    ensures var fn := sc.TypesOf(name)[m];
            fn.Function? ==> MatchableFn(fn) && (Match(env, fn, call).Some? ==> !Exact(Match(env, fn, call).value))
  {
    hide Match, CanonKey, Canonical, ExactMightMatch, ScopeOk;
    var fn := sc.TypesOf(name)[m];
    assert fn in sc.TypesOf(name);
    if fn.Function? && Match(env, fn, call).Some? {
      ExactSameKeyUnless(env, fn, call, name);
    }
  }

  lemma ExactSameKeyUnless(env: Env, fn: Ty, call: Call, name: Symbol)
    requires MatchableFn(fn) && call.Valid() && !NamedFormals(call.source) && NoErrors(env, fn.sig)
    requires UsesEquivalent(env) && Symmetric(env)
    requires !call.source.isOpen && call.source.rest.None? && !name.special
    requires BoundedBy(fn, |call.source.formals|) && Match(env, fn, call).Some?
    ensures Exact(Match(env, fn, call).value) ==> CanonKey(name, fn) == Canonical(Key(name, BySig(Some(call.source))))
  {
    if Exact(Match(env, fn, call).value) {
      ExactHasSameKey(env, fn, call, name);
    }
  }

  /** When the guess is not null, resolving the call among all overloads of the
      name, by the general method or by the fast ones, gives one application,
      and it is of the guessed function. */
  lemma GuessIsResolution(env: Env, sc: Scope, name: Symbol, call: Call, ve: VarEntry)
    requires Searchable(env, sc, name, call) && Guessed(sc, name, call.source, ve)
    ensures MatchableFn(ve.t) && Match(env, ve.t, call).Some? && Match(env, ve.t, call).value.fn == ve.t
    ensures Resolve(env, sc.TypesOf(name), call) == [Match(env, ve.t, call).value]
    ensures MultimatchResult(env, sc.TypesOf(name), call) == [Match(env, ve.t, call).value]
  {
    hide Match, CanonKey, Canonical, ScopeOk, Guessed;
    GuessMatches(env, sc, name, call, ve);
    var i := GuessIsListed(sc, name, call.source, ve);
    var l := sc.TypesOf(name);
    OnlyGuessExact(env, sc, name, call, ve, i, l);
    ExactFastPath(env, l, call);
    ReverseOne(Match(env, ve.t, call).value);
  }
}
