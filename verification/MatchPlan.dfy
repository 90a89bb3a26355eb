/** When a call matches a function, and where its arguments go, formal by formal: a
    formal is taken by name, or by the next unnamed argument if that fits, or else
    by its default; what is left is packed. */
module MatchPlans {
  import opened Options
  import opened Types
  import opened Applications

  // The argument for each formal, none for a default, and those packed.
  datatype Plan = Plan(slots: seq<Option<nat>>, packed: seq<nat>)

  // An argument of type t' converts to type t.
  predicate Converts(env: Env, t: Ty, explicit: bool, t': Ty) {
    env.equivalent(t, t') || (!explicit && env.fastCastable(t, t'))
  }

  // Better without a cast.
  function Score(env: Env, t: Ty, t': Ty): nat {
    if env.equivalent(t, t') then 1 else 2
  }

  // Formal k takes the argument; the last ones may be given by name only.
  predicate Takes(env: Env, sig: Signature, k: nat, arg: Formal)
    requires k < |sig.formals|
  {
    && !env.isError(sig.formals[k].t) && Converts(env, sig.formals[k].t, sig.formals[k].explicit, arg.t)
    && (k + sig.numKeywordOnly < |sig.formals| || arg.name.Some?)
  }

  lemma TakesIffFits(env: Env, sig: Signature, k: nat, arg: Formal)
    requires k < |sig.formals|
    ensures Takes(env, sig, k, arg) <==> Fits(env, sig, k, arg)
    ensures Takes(env, sig, k, arg) ==> CastScore(env, sig.formals[k], arg) == Score(env, sig.formals[k].t, arg.t)
  {
  }

  predicate Unnamed(source: Signature, a: nat) {
    a < |source.formals| && source.formals[a].name.None?
  }

  predicate NamedBefore(source: Signature, slot: Option<nat>, bound: nat) {
    slot.Some? && slot.value < bound && slot.value < |source.formals| && source.formals[slot.value].name.Some?
  }

  // Formal k has the name of argument a, and earlier arguments of that name have all
  // formals of that name before it.
  ghost predicate ByName(sig: Signature, source: Signature, slots: seq<Option<nat>>, a: nat, k: nat)
    requires |slots| == |sig.formals|
  {
    && a < |source.formals| && k < |slots| && source.formals[a].name.Some?
    && sig.formals[k].name == source.formals[a].name
    && forall j :: 0 <= j < k && sig.formals[j].name == source.formals[a].name ==> NamedBefore(source, slots[j], a)
  }

  // Argument a is the first unnamed one that no formal before k has.
  ghost predicate NextFor(source: Signature, slots: seq<Option<nat>>, k: nat, a: nat)
    requires k <= |slots|
  {
    && Unnamed(source, a) && Some(a) !in slots[..k]
    && forall b: nat :: b < a && Unnamed(source, b) ==> Some(b) in slots[..k]
  }

  ghost predicate SlotPlanned(env: Env, sig: Signature, source: Signature, slots: seq<Option<nat>>, k: nat)
    requires |slots| == |sig.formals| && k < |slots|
  {
    match slots[k]
    case None =>
      && sig.formals[k].defval
      && forall a: nat :: NextFor(source, slots, k, a) ==> !Takes(env, sig, k, source.formals[a])
    case Some(a) =>
      && a < |source.formals| && Takes(env, sig, k, source.formals[a])
      && if Unnamed(source, a) then NextFor(source, slots, k, a) else ByName(sig, source, slots, a, k)
  }

  // The unnamed arguments before bound that no formal has, in order.
  ghost predicate LeftOver(source: Signature, slots: seq<Option<nat>>, packed: seq<nat>, bound: nat) {
    && (forall i, j :: 0 <= i < j < |packed| ==> packed[i] < packed[j])
    && (forall i :: 0 <= i < |packed| ==> packed[i] < bound && Unnamed(source, packed[i]) && Some(packed[i]) !in slots)
    && (forall a: nat :: a < bound && Unnamed(source, a) && Some(a) !in slots ==> a in packed)
  }

  predicate Packs(env: Env, sig: Signature, source: Signature, packed: seq<nat>)
    requires WellFormed(sig)
  {
    forall i :: 0 <= i < |packed| ==>
      packed[i] < |source.formals| && sig.rest.Some?
      && Converts(env, sig.rest.value.t.cell, sig.rest.value.explicit, source.formals[packed[i]].t)
  }

  predicate RestFits(env: Env, sig: Signature, source: Signature) {
    source.rest.Some? ==>
      sig.rest.Some? && Converts(env, sig.rest.value.t, sig.rest.value.explicit, source.rest.value.t)
  }

  /** The plan matches the call to the signature. */
  ghost predicate IsPlan(env: Env, sig: Signature, source: Signature, p: Plan)
    requires WellFormed(sig)
  {
    && |p.slots| == |sig.formals|
    && (forall k :: 0 <= k < |p.slots| ==> SlotPlanned(env, sig, source, p.slots, k))
    && (forall a: nat :: a < |source.formals| && !Unnamed(source, a) ==> Some(a) in p.slots)
    && LeftOver(source, p.slots, p.packed, |source.formals|) && Packs(env, sig, source, p.packed)
    && RestFits(env, sig, source)
  }

  /* What a plan says of an application. */

  function ArgFor(sig: Signature, call: Call, k: nat, a: nat): Arg
    requires call.Valid() && k < |sig.formals| && a < |call.al.args|
  {
    Sequenced(call.al.args[a], sig.formals[k].t, call.EvalIndex(a))
  }

  // The argument in slot k when the formals before index are decided.
  predicate Shown(sig: Signature, call: Call, slots: seq<Option<nat>>, args: seq<Option<Arg>>, k: nat, index: nat, bound: nat)
    requires call.Valid() && |slots| == |sig.formals| == |args| && k < |slots|
  {
    match slots[k]
    case None => args[k] == if k < index then Some(DefaultArg(sig.formals[k].t)) else None
    case Some(a) =>
      && a < |call.al.args|
      && args[k] == if k < index || NamedBefore(call.source, slots[k], bound) then Some(ArgFor(sig, call, k, a)) else None
  }

  // The first arguments packed.
  predicate ShownPacked(sig: Signature, call: Call, packed: seq<nat>, inits: seq<Arg>)
    requires call.Valid() && WellFormed(sig)
  {
    && |inits| <= |packed|
    && forall j :: 0 <= j < |inits| ==>
         packed[j] < |call.al.args| && sig.rest.Some?
         && inits[j] == Sequenced(call.al.args[packed[j]], sig.rest.value.t.cell, call.EvalIndex(packed[j]))
  }

  function ShownRest(sig: Signature, call: Call): Option<Arg>
    requires call.Valid()
  {
    if call.source.rest.Some? && sig.rest.Some? then Some(Sequenced(call.al.rest.value, sig.rest.value.t, call.RestIndex()))
    else None
  }

  // The score of argument a under the plan.
  ghost function ScoreOf(env: Env, sig: Signature, source: Signature, p: Plan, a: nat): nat
    requires WellFormed(sig) && |p.slots| == |sig.formals| && a < |source.formals|
  {
    if Some(a) in p.slots then
      var k :| 0 <= k < |p.slots| && p.slots[k] == Some(a);
      Score(env, sig.formals[k].t, source.formals[a].t)
    else if sig.rest.Some? then Score(env, sig.rest.value.t.cell, source.formals[a].t) + 2
    else 0
  }

  // The scores of the arguments before n, of those with or those without names.
  ghost function Scores(env: Env, sig: Signature, source: Signature, p: Plan, named: bool, n: nat): seq<nat>
    requires WellFormed(sig) && |p.slots| == |sig.formals| && n <= |source.formals|
  {
    if n == 0 then []
    else
      Scores(env, sig, source, p, named, n - 1)
      + if named != Unnamed(source, n - 1) then [ScoreOf(env, sig, source, p, n - 1)] else []
  }

  function RestScore(env: Env, sig: Signature, source: Signature): seq<nat> {
    if source.rest.Some? && sig.rest.Some? then [Score(env, sig.rest.value.t, source.rest.value.t)] else []
  }

  /** The application holds the arguments that the plan says, with their scores:
      those of the named arguments first, that of the rest argument last. */
  ghost predicate Follows(env: Env, sig: Signature, call: Call, p: Plan, s: AppState)
    requires WellFormed(sig) && call.Valid()
  {
    var n := |call.source.formals|;
    && |p.slots| == |sig.formals| && |s.args| == |sig.formals|
    && (forall k :: 0 <= k < |s.args| ==> Shown(sig, call, p.slots, s.args, k, |sig.formals|, n))
    && |s.inits| == |p.packed| && ShownPacked(sig, call, p.packed, s.inits)
    && s.restArg == ShownRest(sig, call)
    && s.scores == Scores(env, sig, call.source, p, true, n) + Scores(env, sig, call.source, p, false, n)
                   + RestScore(env, sig, call.source)
  }

  /* The states on the way, for any plan. */

  // Index is the first unfilled formal, and the formals hold what the plan says:
  // before it everything, from it on the named arguments before bound.
  ghost predicate Filled(sig: Signature, call: Call, p: Plan, bound: nat, s: AppState)
    requires call.Valid()
  {
    && Shape(sig, s) && |p.slots| == |sig.formals|
    && (forall k :: 0 <= k < s.index ==> s.args[k].Some?)
    && (s.index < |s.args| ==> s.args[s.index].None?)
    && (forall k :: 0 <= k < |s.args| ==> Shown(sig, call, p.slots, s.args, k, s.index, bound))
    && s.restArg.None?
  }

  // So far only named arguments, those before bound, have been placed.
  ghost predicate NamedPhase(call: Call, p: Plan, bound: nat, s: AppState) {
    && s.index <= |p.slots| && s.inits == []
    && forall k :: 0 <= k < s.index ==> NamedBefore(call.source, p.slots[k], bound)
  }

  // The unnamed arguments before i have been placed too.
  ghost predicate UnnamedPhase(sig: Signature, call: Call, p: Plan, i: nat, s: AppState)
    requires call.Valid() && WellFormed(sig)
  {
    && s.index <= |p.slots|
    && (forall a: nat :: Some(a) in p.slots[..s.index] && Unnamed(call.source, a) ==> a < i)
    && (s.index < |p.slots| ==> s.inits == [] && forall a: nat :: a < i && Unnamed(call.source, a) ==> Some(a) in p.slots[..s.index])
    && ShownPacked(sig, call, p.packed, s.inits)
    && (forall j :: 0 <= j < |p.packed| ==> (j < |s.inits| <==> p.packed[j] < i))
  }

  /* A call that has a plan matches by it. */

  lemma OneSlot(env: Env, sig: Signature, source: Signature, p: Plan, a: nat, j: nat, k: nat)
    requires WellFormed(sig) && IsPlan(env, sig, source, p)
    requires j < |p.slots| && k < |p.slots| && p.slots[j] == p.slots[k] == Some(a)
    ensures j == k
  {
    assert SlotPlanned(env, sig, source, p.slots, j);
    assert SlotPlanned(env, sig, source, p.slots, k);
  }

  lemma ScoreIs(env: Env, sig: Signature, source: Signature, p: Plan, a: nat, k: nat)
    requires WellFormed(sig) && IsPlan(env, sig, source, p)
    requires a < |source.formals| && k < |p.slots| && p.slots[k] == Some(a)
    ensures ScoreOf(env, sig, source, p, a) == Score(env, sig.formals[k].t, source.formals[a].t)
  {
    var j :| 0 <= j < |p.slots| && p.slots[j] == Some(a)
      && ScoreOf(env, sig, source, p, a) == Score(env, sig.formals[j].t, source.formals[a].t);
    OneSlot(env, sig, source, p, a, j, k);
  }

  // The formal that a named argument has in the plan is the one found for it.
  lemma FindsPlanned(env: Env, sig: Signature, call: Call, p: Plan, i: nat, s: AppState, k: nat)
    requires WellFormed(sig) && call.Valid() && IsPlan(env, sig, call.source, p)
    requires Filled(sig, call, p, i, s) && NamedPhase(call, p, i, s)
    requires i < |call.source.formals| && call.source.formals[i].name.Some?
    requires k < |p.slots| && p.slots[k] == Some(i)
    ensures FindSpot(sig, s.args, call.source.formals[i].name.value, s.index) == Some(k)
    ensures Takes(env, sig, k, call.source.formals[i])
  {
    hide Takes, FindSpot;
    assert SlotPlanned(env, sig, call.source, p.slots, k);
    assert Shown(sig, call, p.slots, s.args, k, s.index, i);
    var r := FindSpot(sig, s.args, call.source.formals[i].name.value, s.index);
    assert s.index <= k;
    forall j | s.index <= j < k && sig.formals[j].name == call.source.formals[i].name
      ensures s.args[j].Some?
    {
      assert Shown(sig, call, p.slots, s.args, j, s.index, i);
    }
  }

  lemma PlacesNamed(env: Env, sig: Signature, call: Call, p: Plan, i: nat, s: AppState, k: nat)
    requires WellFormed(sig) && call.Valid() && IsPlan(env, sig, call.source, p)
    requires Filled(sig, call, p, i, s) && NamedPhase(call, p, i, s)
    requires i < |call.source.formals| && call.source.formals[i].name.Some?
    requires s.index <= k < |p.slots| && p.slots[k] == Some(i)
    ensures var r := Place(sig, s, k, call.al.args[i], call.EvalIndex(i), CastScore(env, sig.formals[k], call.source.formals[i]));
            Filled(sig, call, p, i + 1, r) && NamedPhase(call, p, i + 1, r)
  {
    var r := Place(sig, s, k, call.al.args[i], call.EvalIndex(i), CastScore(env, sig.formals[k], call.source.formals[i]));
    forall j | 0 <= j < |r.args|
      ensures Shown(sig, call, p.slots, r.args, j, r.index, i + 1)
      ensures j < r.index ==> NamedBefore(call.source, p.slots[j], i + 1)
    {
      assert Shown(sig, call, p.slots, s.args, j, s.index, i);
      if p.slots[j] == Some(i) {
        OneSlot(env, sig, call.source, p, i, j, k);
      }
    }
  }

  lemma {:induction false} NamedPassPlanned(env: Env, sig: Signature, call: Call, p: Plan, i: nat, s: AppState)
    requires WellFormed(sig) && call.Valid() && IsPlan(env, sig, call.source, p) && i <= |call.source.formals|
    requires Filled(sig, call, p, i, s) && NamedPhase(call, p, i, s)
    requires s.scores == Scores(env, sig, call.source, p, true, i)
    ensures var r, n := MatchNamed(env, sig, call, i, s), |call.source.formals|;
            r.Some? && Filled(sig, call, p, n, r.value) && NamedPhase(call, p, n, r.value)
            && r.value.scores == Scores(env, sig, call.source, p, true, n)
    decreases |call.source.formals| - i
  {
    hide IsPlan, Shown, NamedPhase, ScoreOf, Takes, Fits, CastScore;
    if i < |call.source.formals| {
      if Unnamed(call.source, i) {
        SkipsUnnamed(env, sig, call, p, i, s);
        NamedPassPlanned(env, sig, call, p, i + 1, s);
      } else {
        var k := PlannedSlot(env, sig, call.source, p, i);
        FindsPlanned(env, sig, call, p, i, s, k);
        TakesIffFits(env, sig, k, call.source.formals[i]);
        PlacesNamed(env, sig, call, p, i, s, k);
        ScoreIs(env, sig, call.source, p, i, k);
        NamedPassPlanned(env, sig, call, p, i + 1,
                         MatchNamedArgument(env, sig, s, call.source.formals[i], call.al.args[i], call.EvalIndex(i)).value);
      }
    }
  }

  lemma SkipsUnnamed(env: Env, sig: Signature, call: Call, p: Plan, i: nat, s: AppState)
    requires call.Valid() && Filled(sig, call, p, i, s) && NamedPhase(call, p, i, s) && Unnamed(call.source, i)
    ensures Filled(sig, call, p, i + 1, s) && NamedPhase(call, p, i + 1, s)
  {
    var next := i + 1;
    forall k | 0 <= k < |s.args|
      ensures Shown(sig, call, p.slots, s.args, k, s.index, next)
    {
      assert Shown(sig, call, p.slots, s.args, k, s.index, i);
    }
  }

  lemma PlannedSlot(env: Env, sig: Signature, source: Signature, p: Plan, a: nat) returns (k: nat)
    requires WellFormed(sig) && IsPlan(env, sig, source, p) && a < |source.formals| && !Unnamed(source, a)
    ensures k < |p.slots| && p.slots[k] == Some(a)
  {
    assert Some(a) in p.slots;
    k :| 0 <= k < |p.slots| && p.slots[k] == Some(a);
  }

  // At the first unfilled formal, argument i is the next one.
  lemma IsNext(env: Env, sig: Signature, call: Call, p: Plan, i: nat, s: AppState)
    requires WellFormed(sig) && call.Valid() && IsPlan(env, sig, call.source, p) && Unnamed(call.source, i)
    requires Filled(sig, call, p, |call.source.formals|, s) && UnnamedPhase(sig, call, p, i, s) && s.index < |s.args|
    ensures NextFor(call.source, p.slots, s.index, i)
    ensures p.slots[s.index] in {None, Some(i)}
    ensures p.slots[s.index] == Some(i) <==> Takes(env, sig, s.index, call.source.formals[i])
    ensures p.slots[s.index].None? ==> sig.formals[s.index].defval
  {
    hide Takes;
    var k := s.index;
    assert SlotPlanned(env, sig, call.source, p.slots, k);
    assert Shown(sig, call, p.slots, s.args, k, k, |call.source.formals|);
    assert NextFor(call.source, p.slots, k, i);
  }

  lemma DefaultPlanned(env: Env, sig: Signature, call: Call, p: Plan, i: nat, s: AppState)
    requires WellFormed(sig) && call.Valid() && IsPlan(env, sig, call.source, p)
    requires Filled(sig, call, p, |call.source.formals|, s) && UnnamedPhase(sig, call, p, i, s) && s.index < |s.args|
    requires p.slots[s.index].None?
    ensures var r := FillDefault(sig, s);
            r.Some? && Filled(sig, call, p, |call.source.formals|, r.value) && UnnamedPhase(sig, call, p, i, r.value)
            && r.value.index > s.index && r.value.scores == s.scores
  {
    assert SlotPlanned(env, sig, call.source, p.slots, s.index);
    var r := FillDefault(sig, s).value;
    DecidedGrow(sig, call, p, s, r, i);
  }

  // The index passes over formals taken by name.
  lemma DecidedGrow(sig: Signature, call: Call, p: Plan, s: AppState, r: AppState, i: nat)
    requires WellFormed(sig) && call.Valid() && Filled(sig, call, p, |call.source.formals|, s) && UnnamedPhase(sig, call, p, i, s)
    requires s.index < |s.args| && p.slots[s.index].None?
    requires r.args == s.args[s.index := Some(DefaultArg(sig.formals[s.index].t))] && r.index == FirstUnfilled(r.args, s.index + 1)
    requires r.inits == s.inits && r.restArg == s.restArg
    ensures Filled(sig, call, p, |call.source.formals|, r) && UnnamedPhase(sig, call, p, i, r)
  {
    var n := |call.source.formals|;
    forall k | 0 <= k < |r.args|
      ensures Shown(sig, call, p.slots, r.args, k, r.index, n)
    {
      assert Shown(sig, call, p.slots, s.args, k, s.index, n);
    }
    forall k | s.index < k < r.index
      ensures NamedBefore(call.source, p.slots[k], n)
    {
      assert r.args[k] == s.args[k] && r.args[k].Some?;
      assert Shown(sig, call, p.slots, s.args, k, s.index, n);
    }
    assert p.slots[..s.index] <= p.slots[..r.index];
  }

  lemma PlaceNext(env: Env, sig: Signature, call: Call, p: Plan, i: nat, s: AppState)
    requires WellFormed(sig) && call.Valid() && Unnamed(call.source, i)
    requires forall j :: 0 <= j < |p.packed| ==> Some(p.packed[j]) !in p.slots
    requires Filled(sig, call, p, |call.source.formals|, s) && UnnamedPhase(sig, call, p, i, s) && s.index < |s.args|
    requires p.slots[s.index] == Some(i)
    ensures var r := Place(sig, s, s.index, call.al.args[i], call.EvalIndex(i), CastScore(env, sig.formals[s.index], call.source.formals[i]));
            Filled(sig, call, p, |call.source.formals|, r) && UnnamedPhase(sig, call, p, i + 1, r)
  {
    hide Takes;
    var n := |call.source.formals|;
    var r := Place(sig, s, s.index, call.al.args[i], call.EvalIndex(i), CastScore(env, sig.formals[s.index], call.source.formals[i]));
    forall k | 0 <= k < |r.args|
      ensures Shown(sig, call, p.slots, r.args, k, r.index, n)
      ensures s.index < k < r.index ==> NamedBefore(call.source, p.slots[k], n)
    {
      assert Shown(sig, call, p.slots, s.args, k, s.index, n);
    }
    assert p.slots[..s.index] <= p.slots[..r.index];
    assert p.slots[..r.index][s.index] == Some(i);
    forall j | 0 <= j < |p.packed|
      ensures p.packed[j] != i
    {
      assert Some(i) in p.slots;
    }
  }

  lemma PackedElsewhere(env: Env, sig: Signature, source: Signature, p: Plan)
    requires WellFormed(sig) && IsPlan(env, sig, source, p)
    ensures forall j :: 0 <= j < |p.packed| ==> Some(p.packed[j]) !in p.slots
  {
    hide SlotPlanned;
  }

  lemma PackNext(env: Env, sig: Signature, call: Call, p: Plan, i: nat, s: AppState)
    requires WellFormed(sig) && call.Valid() && IsPlan(env, sig, call.source, p) && Unnamed(call.source, i)
    requires Filled(sig, call, p, |call.source.formals|, s) && UnnamedPhase(sig, call, p, i, s) && s.index == |s.args|
    ensures var r := PackIntoRest(env, sig, s, call.source.formals[i], call.al.args[i], call.EvalIndex(i));
            r.Some? && Filled(sig, call, p, |call.source.formals|, r.value) && UnnamedPhase(sig, call, p, i + 1, r.value)
            && r.value.scores == s.scores + [ScoreOf(env, sig, call.source, p, i)]
  {
    hide SlotPlanned, Register;
    assert p.slots[..s.index] == p.slots;
    assert i in p.packed;
    var j, m :| 0 <= j < |p.packed| && p.packed[j] == i && m == |s.inits|;
    assert p.packed[m] <= i;
    var r := PackIntoRest(env, sig, s, call.source.formals[i], call.al.args[i], call.EvalIndex(i)).value;
    forall k | 0 <= k < |r.args|
      ensures Shown(sig, call, p.slots, r.args, k, r.index, |call.source.formals|)
    {
      assert Shown(sig, call, p.slots, s.args, k, s.index, |call.source.formals|);
    }
  }

  /** The plan says where an unnamed argument goes. */
  lemma {:induction false} ArgumentPlanned(env: Env, sig: Signature, call: Call, p: Plan, i: nat, s: AppState)
    requires WellFormed(sig) && call.Valid() && IsPlan(env, sig, call.source, p) && Unnamed(call.source, i)
    requires Filled(sig, call, p, |call.source.formals|, s) && UnnamedPhase(sig, call, p, i, s)
    ensures var r := MatchArgument(env, sig, s, call.source.formals[i], call.al.args[i], call.EvalIndex(i));
            r.Some? && Filled(sig, call, p, |call.source.formals|, r.value) && UnnamedPhase(sig, call, p, i + 1, r.value)
            && r.value.scores == s.scores + [ScoreOf(env, sig, call.source, p, i)]
    decreases |s.args| - s.index
  {
    hide IsPlan, UnnamedPhase, Shown, ScoreOf, Takes, Fits, CastScore, PackIntoRest, NextFor, FillDefault;
    if s.index == |s.args| {
      PackNext(env, sig, call, p, i, s);
    } else {
      IsNext(env, sig, call, p, i, s);
      TakesIffFits(env, sig, s.index, call.source.formals[i]);
      if p.slots[s.index] == Some(i) {
        PackedElsewhere(env, sig, call.source, p);
        PlaceNext(env, sig, call, p, i, s);
        ScoreIs(env, sig, call.source, p, i, s.index);
      } else {
        DefaultPlanned(env, sig, call, p, i, s);
        ArgumentPlanned(env, sig, call, p, i, FillDefault(sig, s).value);
      }
    }
  }

  lemma {:induction false} UnnamedPassPlanned(env: Env, sig: Signature, call: Call, p: Plan, i: nat, s: AppState)
    requires WellFormed(sig) && call.Valid() && IsPlan(env, sig, call.source, p) && i <= |call.source.formals|
    requires Filled(sig, call, p, |call.source.formals|, s) && UnnamedPhase(sig, call, p, i, s)
    requires s.scores == Scores(env, sig, call.source, p, true, |call.source.formals|) + Scores(env, sig, call.source, p, false, i)
    ensures var r, n := MatchUnnamed(env, sig, call, i, s), |call.source.formals|;
            r.Some? && Filled(sig, call, p, n, r.value) && UnnamedPhase(sig, call, p, n, r.value)
            && r.value.scores == Scores(env, sig, call.source, p, true, n) + Scores(env, sig, call.source, p, false, n)
    decreases |call.source.formals| - i
  {
    hide IsPlan, Shown, ScoreOf, MatchArgument;
    if i < |call.source.formals| {
      if Unnamed(call.source, i) {
        ArgumentPlanned(env, sig, call, p, i, s);
        hide UnnamedPhase;
        var r := MatchArgument(env, sig, s, call.source.formals[i], call.al.args[i], call.EvalIndex(i)).value;
        UnnamedPassPlanned(env, sig, call, p, i + 1, r);
      } else {
        SkipsNamed(env, sig, call, p, i, s);
        UnnamedPassPlanned(env, sig, call, p, i + 1, s);
      }
    }
  }

  lemma SkipsNamed(env: Env, sig: Signature, call: Call, p: Plan, i: nat, s: AppState)
    requires WellFormed(sig) && call.Valid() && IsPlan(env, sig, call.source, p)
    requires i < |call.source.formals| && !Unnamed(call.source, i) && UnnamedPhase(sig, call, p, i, s)
    ensures UnnamedPhase(sig, call, p, i + 1, s)
  {
    hide SlotPlanned, Packs;
  }

  // Once all arguments are placed, the formals left take their defaults.
  lemma {:induction false} CompletePlanned(env: Env, sig: Signature, call: Call, p: Plan, s: AppState)
    requires WellFormed(sig) && call.Valid() && IsPlan(env, sig, call.source, p)
    requires Filled(sig, call, p, |call.source.formals|, s) && UnnamedPhase(sig, call, p, |call.source.formals|, s)
    ensures var r, n := Complete(sig, s), |call.source.formals|;
            r.Some? && Filled(sig, call, p, n, r.value) && UnnamedPhase(sig, call, p, n, r.value)
            && r.value.index == |sig.formals| && r.value.scores == s.scores
    decreases |s.args| - s.index
  {
    hide IsPlan, UnnamedPhase, FillDefault;
    if s.index < |s.args| {
      NoneNext(env, sig, call, p, s);
      DefaultPlanned(env, sig, call, p, |call.source.formals|, s);
      CompletePlanned(env, sig, call, p, FillDefault(sig, s).value);
    }
  }

  lemma NoneNext(env: Env, sig: Signature, call: Call, p: Plan, s: AppState)
    requires WellFormed(sig) && call.Valid() && IsPlan(env, sig, call.source, p)
    requires Filled(sig, call, p, |call.source.formals|, s) && UnnamedPhase(sig, call, p, |call.source.formals|, s)
    requires s.index < |s.args|
    ensures p.slots[s.index].None?
  {
    assert SlotPlanned(env, sig, call.source, p.slots, s.index);
    assert Shown(sig, call, p.slots, s.args, s.index, s.index, |call.source.formals|);
  }

  /** A call with a plan matches, and its application follows the plan. */
  lemma PlanMatches(env: Env, fn: Ty, call: Call, p: Plan)
    requires MatchableFn(fn) && !fn.sig.isOpen && call.Valid() && IsPlan(env, fn.sig, call.source, p)
    ensures var a := Match(env, fn, call); a.Some? && Follows(env, fn.sig, call, p, a.value.st)
  {
    hide IsPlan, UnnamedPhase, Scores, MatchNamed, MatchUnnamed, Complete;
    var sig, n, s := fn.sig, |call.source.formals|, Blank(fn.sig);
    BlankPlanned(env, sig, call, p);
    NamedPassPlanned(env, sig, call, p, 0, s);
    var named := MatchNamed(env, sig, call, 0, s).value;
    NamedIsUnnamed(env, sig, call, p, named);
    UnnamedPassPlanned(env, sig, call, p, 0, named);
    var placed := MatchUnnamed(env, sig, call, 0, named).value;
    CompletePlanned(env, sig, call, p, placed);
    var done := Complete(sig, placed).value;
    CompletePlanned(env, sig, call, p, done);
    FullyShown(env, sig, call, p, done);
    assert RestFits(env, sig, call.source) by { PlanRest(env, sig, call.source, p); }
    assert Complete(sig, done) == Some(done) by { CompleteFull(sig, done); }
    if call.source.rest.Some? {
      var arg := Sequenced(call.al.rest.value, sig.rest.value.t, call.RestIndex());
      var r := done.(restArg := Some(arg), sequencer := Register(done.sequencer, call.RestIndex(), arg),
                     scores := done.scores + [CastScore(env, sig.rest.value, call.source.rest.value)]);
      assert MatchRestOfCall(env, sig, call, placed) == Some(r);
      CompleteFull(sig, r);
    }
  }

  lemma CompleteFull(sig: Signature, s: AppState)
    requires Shape(sig, s) && s.index == |s.args|
    ensures Complete(sig, s) == Some(s)
  {
  }

  lemma PlanRest(env: Env, sig: Signature, source: Signature, p: Plan)
    requires WellFormed(sig) && IsPlan(env, sig, source, p)
    ensures RestFits(env, sig, source)
  {
  }

  lemma BlankPlanned(env: Env, sig: Signature, call: Call, p: Plan)
    requires WellFormed(sig) && call.Valid() && IsPlan(env, sig, call.source, p)
    ensures Filled(sig, call, p, 0, Blank(sig)) && NamedPhase(call, p, 0, Blank(sig))
    ensures Blank(sig).scores == Scores(env, sig, call.source, p, true, 0)
    ensures Scores(env, sig, call.source, p, false, 0) == []
  {
    forall k | 0 <= k < |p.slots|
      ensures Shown(sig, call, p.slots, Blank(sig).args, k, 0, 0)
    {
      assert SlotPlanned(env, sig, call.source, p.slots, k);
    }
  }

  // Between the passes.
  lemma NamedIsUnnamed(env: Env, sig: Signature, call: Call, p: Plan, s: AppState)
    requires WellFormed(sig) && call.Valid() && IsPlan(env, sig, call.source, p)
    requires Filled(sig, call, p, |call.source.formals|, s) && NamedPhase(call, p, |call.source.formals|, s)
    ensures UnnamedPhase(sig, call, p, 0, s)
    ensures s.scores + Scores(env, sig, call.source, p, false, 0) == s.scores
  {
  }

  lemma FullyShown(env: Env, sig: Signature, call: Call, p: Plan, s: AppState)
    requires WellFormed(sig) && call.Valid() && IsPlan(env, sig, call.source, p)
    requires UnnamedPhase(sig, call, p, |call.source.formals|, s)
    ensures |s.inits| == |p.packed| && ShownPacked(sig, call, p.packed, s.inits)
  {
    hide SlotPlanned, Packs;
    if p.packed != [] {
      assert p.packed[|p.packed| - 1] < |call.source.formals|;
    }
  }

  /* A call that matches has a plan. */

  // Formal k is taken by a named argument before bound.
  ghost predicate NamedSlot(env: Env, sig: Signature, source: Signature, slots: seq<Option<nat>>, k: nat, bound: nat)
    requires |slots| == |sig.formals| && k < |slots|
  {
    && NamedBefore(source, slots[k], bound) && Takes(env, sig, k, source.formals[slots[k].value])
    && ByName(sig, source, slots, slots[k].value, k)
  }

  // A plan of the named arguments before i.
  ghost predicate NamedPlan(env: Env, sig: Signature, source: Signature, p: Plan, i: nat) {
    && |p.slots| == |sig.formals| && p.packed == []
    && (forall k :: 0 <= k < |p.slots| && p.slots[k].Some? ==> NamedSlot(env, sig, source, p.slots, k, i))
    && forall a: nat :: a < i && a < |source.formals| && !Unnamed(source, a) ==> Some(a) in p.slots
  }

  // A plan of all named arguments and the unnamed ones before i, for the formals
  // before index.
  ghost predicate PartPlan(env: Env, sig: Signature, source: Signature, p: Plan, i: nat, index: nat)
    requires WellFormed(sig)
  {
    && |p.slots| == |sig.formals| && index <= |p.slots|
    && (forall k :: 0 <= k < index ==> SlotPlanned(env, sig, source, p.slots, k))
    && (forall k :: index <= k < |p.slots| && p.slots[k].Some? ==> NamedSlot(env, sig, source, p.slots, k, |source.formals|))
    && (forall a: nat :: a < |source.formals| && !Unnamed(source, a) ==> Some(a) in p.slots)
    && LeftOver(source, p.slots, p.packed, i) && Packs(env, sig, source, p.packed)
    && (index < |p.slots| ==> p.packed == [])
  }

  // The formal found is the first of its name that no earlier argument has.
  lemma SpotByName(env: Env, sig: Signature, call: Call, p: Plan, i: nat, s: AppState, spot: nat)
    requires WellFormed(sig) && call.Valid() && NamedPlan(env, sig, call.source, p, i)
    requires Filled(sig, call, p, i, s) && NamedPhase(call, p, i, s)
    requires i < |call.source.formals| && call.source.formals[i].name.Some?
    requires FindSpot(sig, s.args, call.source.formals[i].name.value, s.index) == Some(spot)
    ensures p.slots[spot].None? && ByName(sig, call.source, p.slots[spot := Some(i)], i, spot)
  {
    hide Takes, FindSpot, NamedSlot;
    assert Shown(sig, call, p.slots, s.args, spot, s.index, i);
    assert p.slots[spot].None? by {
      if p.slots[spot].Some? {
        assert NamedSlot(env, sig, call.source, p.slots, spot, i);
        NamedSlotBefore(env, sig, call.source, p.slots, spot, i);
        assert false;
      }
    }
    forall j | 0 <= j < spot && sig.formals[j].name == call.source.formals[i].name
      ensures NamedBefore(call.source, p.slots[j], i)
    {
      assert Shown(sig, call, p.slots, s.args, j, s.index, i);
    }
  }

  lemma NamedSlotBefore(env: Env, sig: Signature, source: Signature, slots: seq<Option<nat>>, k: nat, bound: nat)
    requires |slots| == |sig.formals| && k < |slots| && NamedSlot(env, sig, source, slots, k, bound)
    ensures NamedBefore(source, slots[k], bound)
  {
  }

  // Filling another formal leaves those taken by name as they are.
  lemma StaysNamed(env: Env, sig: Signature, source: Signature, slots: seq<Option<nat>>, k: nat, spot: nat, i: nat, bound: nat, next: nat)
    requires |slots| == |sig.formals| && k < |slots| && spot < |slots| && k != spot && slots[spot].None? && bound <= next
    requires NamedSlot(env, sig, source, slots, k, bound)
    ensures NamedSlot(env, sig, source, slots[spot := Some(i)], k, next)
  {
    hide Takes;
  }

  lemma TakenPlan(env: Env, sig: Signature, source: Signature, p: Plan, i: nat, spot: nat)
    requires NamedPlan(env, sig, source, p, i) && i < |source.formals| && source.formals[i].name.Some? && spot < |p.slots|
    requires p.slots[spot].None? && Takes(env, sig, spot, source.formals[i])
    requires ByName(sig, source, p.slots[spot := Some(i)], i, spot)
    ensures NamedPlan(env, sig, source, p.(slots := p.slots[spot := Some(i)]), i + 1)
  {
    hide Takes, ByName;
    var q, next := p.(slots := p.slots[spot := Some(i)]), i + 1;
    assert NamedSlot(env, sig, source, q.slots, spot, next);
    hide NamedSlot;
    forall k | 0 <= k < |q.slots| && q.slots[k].Some?
      ensures NamedSlot(env, sig, source, q.slots, k, next)
    {
      if k != spot {
        StaysNamed(env, sig, source, p.slots, k, spot, i, i, next);
      }
    }
    forall a: nat | a < next && !Unnamed(source, a)
      ensures Some(a) in q.slots
    {
      if a == i {
        assert q.slots[spot] == Some(i);
      } else {
        var k :| 0 <= k < |p.slots| && p.slots[k] == Some(a);
        assert q.slots[k] == Some(a);
      }
    }
  }

  lemma TakenByName(env: Env, sig: Signature, call: Call, p: Plan, i: nat, s: AppState) returns (q: Plan)
    requires WellFormed(sig) && call.Valid() && NamedPlan(env, sig, call.source, p, i)
    requires Filled(sig, call, p, i, s) && NamedPhase(call, p, i, s)
    requires i < |call.source.formals| && call.source.formals[i].name.Some?
    requires MatchNamedArgument(env, sig, s, call.source.formals[i], call.al.args[i], call.EvalIndex(i)).Some?
    ensures var r := MatchNamedArgument(env, sig, s, call.source.formals[i], call.al.args[i], call.EvalIndex(i)).value;
            && NamedPlan(env, sig, call.source, q, i + 1)
            && Filled(sig, call, q, i + 1, r) && NamedPhase(call, q, i + 1, r)
  {
    hide Takes, Fits, FindSpot, NamedSlot, ByName, Register;
    var spot := FindSpot(sig, s.args, call.source.formals[i].name.value, s.index).value;
    TakesIffFits(env, sig, spot, call.source.formals[i]);
    q := p.(slots := p.slots[spot := Some(i)]);
    var r := MatchNamedArgument(env, sig, s, call.source.formals[i], call.al.args[i], call.EvalIndex(i)).value;
    SpotByName(env, sig, call, p, i, s, spot);
    TakenPlan(env, sig, call.source, p, i, spot);
    var next := i + 1;
    forall k | 0 <= k < |q.slots|
      ensures Shown(sig, call, q.slots, r.args, k, r.index, next)
      ensures k < r.index ==> NamedBefore(call.source, q.slots[k], next)
    {
      assert Shown(sig, call, p.slots, s.args, k, s.index, i);
      if p.slots[k].Some? {
        NamedSlotBefore(env, sig, call.source, p.slots, k, i);
      }
    }
  }

  // Only one argument is the next one.
  lemma NextUnique(source: Signature, slots: seq<Option<nat>>, k: nat, a: nat, b: nat)
    requires k <= |slots| && NextFor(source, slots, k, a) && NextFor(source, slots, k, b)
    ensures a == b
  {
  }

  lemma NamedIsPlanned(env: Env, sig: Signature, source: Signature, slots: seq<Option<nat>>, k: nat)
    requires |slots| == |sig.formals| && k < |slots| && NamedSlot(env, sig, source, slots, k, |source.formals|)
    ensures SlotPlanned(env, sig, source, slots, k)
  {
  }

  // The first unfilled formal has no argument yet.
  lemma NoneYet(env: Env, sig: Signature, call: Call, p: Plan, i: nat, s: AppState)
    requires WellFormed(sig) && call.Valid() && PartPlan(env, sig, call.source, p, i, s.index)
    requires Filled(sig, call, p, |call.source.formals|, s) && s.index < |s.args|
    ensures p.slots[s.index].None?
  {
    hide SlotPlanned, LeftOver, Packs, Takes, ByName;
    assert Shown(sig, call, p.slots, s.args, s.index, s.index, |call.source.formals|);
  }

  // The plan is extended to the next unfilled formal when one takes its default.
  lemma DefaultExtends(env: Env, sig: Signature, call: Call, p: Plan, i: nat, s: AppState)
    requires WellFormed(sig) && call.Valid() && PartPlan(env, sig, call.source, p, i, s.index)
    requires Filled(sig, call, p, |call.source.formals|, s) && UnnamedPhase(sig, call, p, i, s) && s.index < |s.args|
    requires forall a: nat :: NextFor(call.source, p.slots, s.index, a) ==> !Takes(env, sig, s.index, call.source.formals[a])
    requires FillDefault(sig, s).Some?
    ensures var r := FillDefault(sig, s).value;
            && r.index > s.index && Filled(sig, call, p, |call.source.formals|, r) && UnnamedPhase(sig, call, p, i, r)
            && PartPlan(env, sig, call.source, p, i, r.index)
  {
    hide Takes, LeftOver, Packs;
    NoneYet(env, sig, call, p, i, s);
    var r := FillDefault(sig, s).value;
    DecidedGrow(sig, call, p, s, r, i);
    forall k | 0 <= k < r.index
      ensures SlotPlanned(env, sig, call.source, p.slots, k)
    {
      assert Shown(sig, call, p.slots, s.args, k, s.index, |call.source.formals|);
      if k > s.index {
        assert s.args[k] == r.args[k] && r.args[k].Some?;
        NamedIsPlanned(env, sig, call.source, p.slots, k);
      }
    }
  }

  // The slots up to k decide whether slot k is as planned.
  lemma SamePrefix(env: Env, sig: Signature, source: Signature, slots: seq<Option<nat>>, slots': seq<Option<nat>>, k: nat)
    requires |slots| == |slots'| == |sig.formals| && k < |slots| && slots[..k + 1] == slots'[..k + 1]
    requires SlotPlanned(env, sig, source, slots, k)
    ensures SlotPlanned(env, sig, source, slots', k)
  {
    hide Takes;
    assert slots[..k] == slots[..k + 1][..k] == slots'[..k + 1][..k] == slots'[..k];
    assert forall j :: 0 <= j <= k ==> slots[j] == slots[..k + 1][j] && slots'[j] == slots'[..k + 1][j];
  }

  lemma PlaceExtends(env: Env, sig: Signature, call: Call, p: Plan, i: nat, s: AppState) returns (q: Plan)
    requires WellFormed(sig) && call.Valid() && PartPlan(env, sig, call.source, p, i, s.index) && Unnamed(call.source, i)
    requires Filled(sig, call, p, |call.source.formals|, s) && UnnamedPhase(sig, call, p, i, s) && s.index < |s.args|
    requires Takes(env, sig, s.index, call.source.formals[i])
    ensures var r := Place(sig, s, s.index, call.al.args[i], call.EvalIndex(i), CastScore(env, sig.formals[s.index], call.source.formals[i]));
            && Filled(sig, call, q, |call.source.formals|, r) && UnnamedPhase(sig, call, q, i + 1, r)
            && PartPlan(env, sig, call.source, q, i + 1, r.index)
  {
    hide Takes;
    var n, x := |call.source.formals|, s.index;
    q := p.(slots := p.slots[x := Some(i)]);
    NoneYet(env, sig, call, p, i, s);
    assert q.slots[..x] == p.slots[..x];
    forall k | 0 <= k < |s.args|
      ensures Shown(sig, call, q.slots, s.args, k, x, n)
    {
      assert Shown(sig, call, p.slots, s.args, k, x, n);
    }
    PlaceNext(env, sig, call, q, i, s);
    var r := Place(sig, s, x, call.al.args[i], call.EvalIndex(i), CastScore(env, sig.formals[x], call.source.formals[i]));
    PlacedPlan(env, sig, call.source, p, i, x);
    forall k | x < k < r.index
      ensures SlotPlanned(env, sig, call.source, q.slots, k)
    {
      assert s.args[k] == r.args[k] && r.args[k].Some?;
      assert Shown(sig, call, q.slots, s.args, k, x, n);
      NamedIsPlanned(env, sig, call.source, q.slots, k);
    }
  }

  lemma PlacedPlan(env: Env, sig: Signature, source: Signature, p: Plan, i: nat, x: nat)
    requires WellFormed(sig) && PartPlan(env, sig, source, p, i, x) && x < |p.slots| && p.slots[x].None?
    requires NextFor(source, p.slots, x, i) && Takes(env, sig, x, source.formals[i])
    ensures PartPlan(env, sig, source, p.(slots := p.slots[x := Some(i)]), i + 1, x + 1)
  {
    hide Takes;
    var q := p.(slots := p.slots[x := Some(i)]);
    assert q.slots[..x] == p.slots[..x];
    forall k | 0 <= k < x
      ensures SlotPlanned(env, sig, source, q.slots, k)
    {
      assert q.slots[..k + 1] == p.slots[..k + 1];
      SamePrefix(env, sig, source, p.slots, q.slots, k);
    }
    assert SlotPlanned(env, sig, source, q.slots, x);
    forall k | x < k < |q.slots| && q.slots[k].Some?
      ensures NamedSlot(env, sig, source, q.slots, k, |source.formals|)
    {
      StaysNamed(env, sig, source, p.slots, k, x, i, |source.formals|, |source.formals|);
    }
    forall a: nat | Some(a) in p.slots
      ensures Some(a) in q.slots
    {
      var k :| 0 <= k < |p.slots| && p.slots[k] == Some(a);
      assert q.slots[k] == Some(a);
    }
    assert q.slots[x] == Some(i);
  }

  lemma PackExtends(env: Env, sig: Signature, call: Call, p: Plan, i: nat, s: AppState) returns (q: Plan)
    requires WellFormed(sig) && call.Valid() && PartPlan(env, sig, call.source, p, i, s.index) && Unnamed(call.source, i)
    requires Filled(sig, call, p, |call.source.formals|, s) && UnnamedPhase(sig, call, p, i, s) && s.index == |s.args|
    requires PackIntoRest(env, sig, s, call.source.formals[i], call.al.args[i], call.EvalIndex(i)).Some?
    ensures var r := PackIntoRest(env, sig, s, call.source.formals[i], call.al.args[i], call.EvalIndex(i)).value;
            && Filled(sig, call, q, |call.source.formals|, r) && UnnamedPhase(sig, call, q, i + 1, r)
            && PartPlan(env, sig, call.source, q, i + 1, r.index)
  {
    hide SlotPlanned, NamedSlot, Register;
    q := p.(packed := p.packed + [i]);
    assert p.slots[..s.index] == p.slots;
    var r := PackIntoRest(env, sig, s, call.source.formals[i], call.al.args[i], call.EvalIndex(i)).value;
    assert |s.inits| == |p.packed| by {
      assert forall j :: 0 <= j < |p.packed| ==> p.packed[j] < i;
      if p.packed != [] {
        assert p.packed[|p.packed| - 1] < i;
      }
    }
    forall k | 0 <= k < |r.args|
      ensures Shown(sig, call, q.slots, r.args, k, r.index, |call.source.formals|)
    {
      assert Shown(sig, call, p.slots, s.args, k, s.index, |call.source.formals|);
    }
    forall a: nat | a < i + 1 && Unnamed(call.source, a) && Some(a) !in q.slots
      ensures a in q.packed
    {
      assert a < i ==> a in p.packed;
    }
  }

  /** A plan so far is extended by each unnamed argument that matches. */
  lemma {:induction false} ArgumentExtends(env: Env, sig: Signature, call: Call, p: Plan, i: nat, s: AppState) returns (q: Plan)
    requires WellFormed(sig) && call.Valid() && PartPlan(env, sig, call.source, p, i, s.index) && Unnamed(call.source, i)
    requires Filled(sig, call, p, |call.source.formals|, s) && UnnamedPhase(sig, call, p, i, s)
    requires MatchArgument(env, sig, s, call.source.formals[i], call.al.args[i], call.EvalIndex(i)).Some?
    ensures var r := MatchArgument(env, sig, s, call.source.formals[i], call.al.args[i], call.EvalIndex(i)).value;
            && Filled(sig, call, q, |call.source.formals|, r) && UnnamedPhase(sig, call, q, i + 1, r)
            && PartPlan(env, sig, call.source, q, i + 1, r.index)
    decreases |s.args| - s.index
  {
    hide PartPlan, Shown, Takes, Fits, PackIntoRest, FillDefault;
    if s.index == |s.args| {
      q := PackExtends(env, sig, call, p, i, s);
    } else if Takes(env, sig, s.index, call.source.formals[i]) {
      TakesIffFits(env, sig, s.index, call.source.formals[i]);
      q := PlaceExtends(env, sig, call, p, i, s);
    } else {
      TakesIffFits(env, sig, s.index, call.source.formals[i]);
      assert NextFor(call.source, p.slots, s.index, i);
      forall a: nat | NextFor(call.source, p.slots, s.index, a)
        ensures !Takes(env, sig, s.index, call.source.formals[a])
      {
        NextUnique(call.source, p.slots, s.index, a, i);
      }
      DefaultExtends(env, sig, call, p, i, s);
      q := ArgumentExtends(env, sig, call, p, i, FillDefault(sig, s).value);
    }
  }

  lemma {:induction false} NamedPassExtends(env: Env, sig: Signature, call: Call, p: Plan, i: nat, s: AppState) returns (q: Plan)
    requires WellFormed(sig) && call.Valid() && NamedPlan(env, sig, call.source, p, i) && i <= |call.source.formals|
    requires Filled(sig, call, p, i, s) && NamedPhase(call, p, i, s) && MatchNamed(env, sig, call, i, s).Some?
    ensures var r, n := MatchNamed(env, sig, call, i, s).value, |call.source.formals|;
            NamedPlan(env, sig, call.source, q, n) && Filled(sig, call, q, n, r) && NamedPhase(call, q, n, r)
    decreases |call.source.formals| - i
  {
    hide NamedPhase, NamedSlot, Shown;
    if i == |call.source.formals| {
      q := p;
    } else if Unnamed(call.source, i) {
      SkipsUnnamed(env, sig, call, p, i, s);
      StillNamed(env, sig, call.source, p, i);
      q := NamedPassExtends(env, sig, call, p, i + 1, s);
    } else {
      var next := TakenByName(env, sig, call, p, i, s);
      q := NamedPassExtends(env, sig, call, next, i + 1,
                            MatchNamedArgument(env, sig, s, call.source.formals[i], call.al.args[i], call.EvalIndex(i)).value);
    }
  }

  lemma StillNamed(env: Env, sig: Signature, source: Signature, p: Plan, i: nat)
    requires NamedPlan(env, sig, source, p, i) && Unnamed(source, i)
    ensures NamedPlan(env, sig, source, p, i + 1)
  {
    hide Takes;
    var next := i + 1;
    forall k | 0 <= k < |p.slots| && p.slots[k].Some?
      ensures NamedSlot(env, sig, source, p.slots, k, next)
    {
      assert NamedSlot(env, sig, source, p.slots, k, i);
    }
  }

  lemma {:induction false} UnnamedPassExtends(env: Env, sig: Signature, call: Call, p: Plan, i: nat, s: AppState) returns (q: Plan)
    requires WellFormed(sig) && call.Valid() && PartPlan(env, sig, call.source, p, i, s.index) && i <= |call.source.formals|
    requires Filled(sig, call, p, |call.source.formals|, s) && UnnamedPhase(sig, call, p, i, s)
    requires MatchUnnamed(env, sig, call, i, s).Some?
    ensures var r, n := MatchUnnamed(env, sig, call, i, s).value, |call.source.formals|;
            Filled(sig, call, q, n, r) && UnnamedPhase(sig, call, q, n, r) && PartPlan(env, sig, call.source, q, n, r.index)
    decreases |call.source.formals| - i
  {
    hide UnnamedPhase, PartPlan, Shown, MatchArgument;
    if i == |call.source.formals| {
      q := p;
    } else if Unnamed(call.source, i) {
      var next := ArgumentExtends(env, sig, call, p, i, s);
      q := UnnamedPassExtends(env, sig, call, next, i + 1,
                              MatchArgument(env, sig, s, call.source.formals[i], call.al.args[i], call.EvalIndex(i)).value);
    } else {
      SkipsNamedPart(env, sig, call, p, i, s);
      q := UnnamedPassExtends(env, sig, call, p, i + 1, s);
    }
  }

  lemma SkipsNamedPart(env: Env, sig: Signature, call: Call, p: Plan, i: nat, s: AppState)
    requires WellFormed(sig) && call.Valid() && PartPlan(env, sig, call.source, p, i, s.index)
    requires i < |call.source.formals| && !Unnamed(call.source, i) && UnnamedPhase(sig, call, p, i, s)
    ensures PartPlan(env, sig, call.source, p, i + 1, s.index) && UnnamedPhase(sig, call, p, i + 1, s)
  {
    hide SlotPlanned, NamedSlot, Packs;
  }

  lemma {:induction false} CompleteExtends(env: Env, sig: Signature, call: Call, p: Plan, s: AppState)
    requires WellFormed(sig) && call.Valid() && PartPlan(env, sig, call.source, p, |call.source.formals|, s.index)
    requires Filled(sig, call, p, |call.source.formals|, s) && UnnamedPhase(sig, call, p, |call.source.formals|, s)
    requires Complete(sig, s).Some?
    ensures PartPlan(env, sig, call.source, p, |call.source.formals|, |sig.formals|)
    decreases |s.args| - s.index
  {
    hide PartPlan, Shown, Takes, FillDefault;
    if s.index < |s.args| {
      DefaultExtends(env, sig, call, p, |call.source.formals|, s);
      CompleteExtends(env, sig, call, p, FillDefault(sig, s).value);
    }
  }

  lemma BlankNamed(env: Env, sig: Signature, call: Call) returns (p: Plan)
    requires WellFormed(sig) && call.Valid()
    ensures NamedPlan(env, sig, call.source, p, 0) && Filled(sig, call, p, 0, Blank(sig)) && NamedPhase(call, p, 0, Blank(sig))
  {
    p := Plan(seq(|sig.formals|, _ => None), []);
    forall k | 0 <= k < |p.slots|
      ensures Shown(sig, call, p.slots, Blank(sig).args, k, 0, 0)
    {
    }
  }

  // Between the passes.
  lemma NamedIsPart(env: Env, sig: Signature, call: Call, p: Plan, s: AppState)
    requires WellFormed(sig) && call.Valid() && NamedPlan(env, sig, call.source, p, |call.source.formals|)
    requires Filled(sig, call, p, |call.source.formals|, s) && NamedPhase(call, p, |call.source.formals|, s)
    ensures PartPlan(env, sig, call.source, p, 0, s.index) && UnnamedPhase(sig, call, p, 0, s)
  {
    forall k | 0 <= k < s.index
      ensures SlotPlanned(env, sig, call.source, p.slots, k)
    {
      NamedIsPlanned(env, sig, call.source, p.slots, k);
    }
  }

  /** A call that matches has a plan. */
  lemma MatchPlans(env: Env, fn: Ty, call: Call) returns (p: Plan)
    requires MatchableFn(fn) && !fn.sig.isOpen && call.Valid() && Match(env, fn, call).Some?
    ensures IsPlan(env, fn.sig, call.source, p)
  {
    hide PartPlan, Filled, UnnamedPhase, NamedPlan, NamedPhase, MatchNamed, MatchUnnamed, Complete, IsPlan;
    var sig, n := fn.sig, |call.source.formals|;
    p := BlankNamed(env, sig, call);
    p := NamedPassExtends(env, sig, call, p, 0, Blank(sig));
    var named := MatchNamed(env, sig, call, 0, Blank(sig)).value;
    NamedIsPart(env, sig, call, p, named);
    p := UnnamedPassExtends(env, sig, call, p, 0, named);
    var placed := MatchUnnamed(env, sig, call, 0, named).value;
    CompleteExtends(env, sig, call, p, placed);
    assert RestFits(env, sig, call.source);
    WholePlan(env, sig, call.source, p);
  }

  lemma WholePlan(env: Env, sig: Signature, source: Signature, p: Plan)
    requires WellFormed(sig) && PartPlan(env, sig, source, p, |source.formals|, |sig.formals|) && RestFits(env, sig, source)
    ensures IsPlan(env, sig, source, p)
  {
  }

  /** A call, with or without names and a rest argument, matches a function exactly
      when it has a plan; the plan then tells the argument of every formal, what is
      packed, and the scores. */
  lemma MatchIffPlan(env: Env, fn: Ty, call: Call)
    requires MatchableFn(fn) && !fn.sig.isOpen && call.Valid()
    ensures Match(env, fn, call).Some? <==> exists p :: IsPlan(env, fn.sig, call.source, p)
    ensures forall p :: IsPlan(env, fn.sig, call.source, p) ==>
              Match(env, fn, call).Some? && Follows(env, fn.sig, call, p, Match(env, fn, call).value.st)
  {
    hide Match, IsPlan, Follows;
    forall p | IsPlan(env, fn.sig, call.source, p)
      ensures Match(env, fn, call).Some? && Follows(env, fn.sig, call, p, Match(env, fn, call).value.st)
    {
      PlanMatches(env, fn, call, p);
    }
    if Match(env, fn, call).Some? {
      var p := MatchPlans(env, fn, call);
    }
  }
}
