/** What a successful match promises: every formal is filled, every argument of
    the call is used exactly once and where it fits, and unnamed arguments keep
    their order. */
module MatchProofs {
  import opened Options
  import opened Types
  import opened Lists
  import opened Applications

  // The slots in the order they are translated: formals, packed, rest.
  function Slots(s: AppState): seq<Option<Arg>> {
    s.args + seq(|s.inits|, i requires 0 <= i < |s.inits| => Some(s.inits[i]))
    + if s.restArg.Some? then [s.restArg] else []
  }

  predicate Given(slot: Option<Arg>) {
    slot.Some? && slot.value.Sequenced?
  }

  ghost function Evals(l: seq<Option<Arg>>): set<nat> {
    set k | 0 <= k < |l| && Given(l[k]) :: l[k].value.evalIndex
  }

  ghost predicate Distinct(l: seq<Option<Arg>>) {
    forall j, k :: 0 <= j < k < |l| && Given(l[j]) && Given(l[k]) ==> l[j].value.evalIndex != l[k].value.evalIndex
  }

  lemma FillSlot(l: seq<Option<Arg>>, k: nat, a: Arg)
    requires k < |l| && !Given(l[k]) && Distinct(l)
    requires a.Sequenced? ==> a.evalIndex !in Evals(l)
    ensures Distinct(l[k := Some(a)])
    ensures Evals(l[k := Some(a)]) == Evals(l) + if a.Sequenced? then {a.evalIndex} else {}
  {
    var m := l[k := Some(a)];
    forall e | e in Evals(l)
      ensures e in Evals(m)
    {
      var j :| 0 <= j < |l| && Given(l[j]) && l[j].value.evalIndex == e;
      assert m[j] == l[j];
    }
    assert a.Sequenced? ==> Given(m[k]);
    forall e | e in Evals(m)
      ensures e in Evals(l) || (a.Sequenced? && e == a.evalIndex)
    {
      var j :| 0 <= j < |m| && Given(m[j]) && m[j].value.evalIndex == e;
      assert j != k ==> m[j] == l[j];
    }
  }

  lemma AppendNone(l: seq<Option<Arg>>)
    ensures Evals(l + [None]) == Evals(l)
  {
    var l' := l + [None];
    forall e | e in Evals(l)
      ensures e in Evals(l')
    {
      var j :| 0 <= j < |l| && Given(l[j]) && l[j].value.evalIndex == e;
      assert l'[j] == l[j];
    }
  }

  lemma AppendSlot(l: seq<Option<Arg>>, a: Arg)
    requires a.Sequenced? && Distinct(l) && a.evalIndex !in Evals(l)
    ensures Distinct(l + [Some(a)])
    ensures Evals(l + [Some(a)]) == Evals(l) + {a.evalIndex}
  {
    var l' := l + [None];
    AppendNone(l);
    FillSlot(l', |l|, a);
    assert l'[|l| := Some(a)] == l + [Some(a)];
  }

  /* Where an argument may be. */

  ghost predicate FitsFormal(env: Env, sig: Signature, call: Call, k: nat, a: Arg)
    requires call.Valid() && k < |sig.formals|
  {
    && a.Sequenced?
    && var i := call.SourceOf(a.evalIndex);
    && 0 <= i < |call.source.formals|
    && a.evalIndex == call.EvalIndex(i)
    && a.val == call.al.args[i]
    && a.t == sig.formals[k].t
    && Fits(env, sig, k, call.source.formals[i])
    && (call.source.formals[i].name.Some? ==> sig.formals[k].name == call.source.formals[i].name)
  }

  ghost predicate FitsPack(env: Env, sig: Signature, call: Call, a: Arg)
    requires call.Valid() && WellFormed(sig)
  {
    && sig.rest.Some?
    && a.Sequenced?
    && var i := call.SourceOf(a.evalIndex);
    && 0 <= i < |call.source.formals|
    && a.evalIndex == call.EvalIndex(i)
    && a.val == call.al.args[i]
    && a.t == sig.rest.value.t.cell
    && call.source.formals[i].name.None?
    && CastScore(env, RestTarget(sig), call.source.formals[i]) != FAIL
  }

  ghost predicate FitsRest(env: Env, sig: Signature, call: Call, a: Arg)
    requires call.Valid()
  {
    && call.source.rest.Some? && sig.rest.Some?
    && a == Sequenced(call.al.rest.value, sig.rest.value.t, call.RestIndex())
    && CastScore(env, sig.rest.value, call.source.rest.value) != FAIL
  }

  ghost predicate SlotOk(env: Env, sig: Signature, call: Call, s: AppState, k: nat)
    requires call.Valid() && Shape(sig, s) && k < |s.args|
  {
    match s.args[k]
    case None => true
    case Some(DefaultArg(t)) => k < s.index && sig.formals[k].defval && t == sig.formals[k].t
    case Some(a) => FitsFormal(env, sig, call, k, a)
  }

  // The first unfilled formal.
  ghost predicate IndexOk(s: AppState) {
    && s.index <= |s.args|
    && (forall k :: 0 <= k < s.index ==> s.args[k].Some?)
    && (s.index < |s.args| ==> s.args[s.index].None?)
  }

  // The sequencer knows exactly the arguments placed.
  ghost predicate Registered(l: seq<Option<Arg>>, sequencer: seq<Option<Arg>>) {
    && (forall k :: 0 <= k < |l| && Given(l[k]) ==>
          l[k].value.evalIndex < |sequencer| && sequencer[l[k].value.evalIndex] == l[k])
    && (forall e :: 0 <= e < |sequencer| && sequencer[e].Some? ==> e in Evals(l))
  }

  ghost predicate Scored(l: seq<Option<Arg>>, scores: seq<nat>) {
    |scores| == |Evals(l)| && forall j :: 0 <= j < |scores| ==> scores[j] >= EXACT
  }

  // Every argument placed so far fits where it is.
  ghost predicate Fitting(env: Env, sig: Signature, call: Call, s: AppState)
    requires WellFormed(sig) && call.Valid() && Shape(sig, s)
  {
    && IndexOk(s)
    && (forall k :: 0 <= k < |s.args| ==> SlotOk(env, sig, call, s, k))
    && (forall j :: 0 <= j < |s.inits| ==> FitsPack(env, sig, call, s.inits[j]))
    && (s.inits != [] ==> s.index == |s.args|)
    && (s.restArg.Some? ==> FitsRest(env, sig, call, s.restArg.value))
  }

  // No argument is placed twice, and each was scored once.
  ghost predicate Accounted(s: AppState) {
    Distinct(Slots(s)) && Registered(Slots(s), s.sequencer) && Scored(Slots(s), s.scores)
  }

  /** The invariant of the whole match. */
  ghost predicate Inv(env: Env, sig: Signature, call: Call, s: AppState)
    requires WellFormed(sig) && call.Valid() && Shape(sig, s)
  {
    Fitting(env, sig, call, s) && Accounted(s)
  }

  ghost predicate UnnamedSlot(call: Call, slot: Option<Arg>) {
    && Given(slot)
    && slot.value.evalIndex != call.RestIndex()
    && 0 <= call.SourceOf(slot.value.evalIndex) < |call.source.formals|
    && call.source.formals[call.SourceOf(slot.value.evalIndex)].name.None?
  }

  // Unnamed arguments are in increasing order, all given before time bound,
  // and none lies beyond the first unfilled formal.
  ghost predicate Ordered(call: Call, s: AppState, bound: nat) {
    var l := Slots(s);
    && (forall p, q :: 0 <= p < q < |l| && UnnamedSlot(call, l[p]) && UnnamedSlot(call, l[q]) ==>
          l[p].value.evalIndex < l[q].value.evalIndex)
    && (forall p :: 0 <= p < |l| && UnnamedSlot(call, l[p]) ==>
          l[p].value.evalIndex < bound && (p < s.index || p >= |s.args|))
  }

  lemma EvalIndexInverse(call: Call, i: nat)
    ensures call.SourceOf(call.EvalIndex(i)) == i
    ensures call.EvalIndex(i) != call.RestIndex()
  {
  }

  lemma OrderedUpTo(call: Call, s: AppState, bound: nat, bound': nat)
    requires Ordered(call, s, bound) && bound <= bound'
    ensures Ordered(call, s, bound')
  {
  }

  lemma FillDefaultSlots(sig: Signature, s: AppState)
    requires Shape(sig, s) && FillDefault(sig, s).Some?
    ensures Slots(FillDefault(sig, s).value) == Slots(s)[s.index := Some(DefaultArg(sig.formals[s.index].t))]
  {
  }

  lemma FillDefaultFits(env: Env, sig: Signature, call: Call, s: AppState)
    requires WellFormed(sig) && call.Valid() && Shape(sig, s)
    requires Fitting(env, sig, call, s) && FillDefault(sig, s).Some?
    ensures Fitting(env, sig, call, FillDefault(sig, s).value)
  {
    var r := FillDefault(sig, s).value;
    forall k | 0 <= k < |r.args|
      ensures SlotOk(env, sig, call, r, k)
    {
      assert SlotOk(env, sig, call, s, k);
    }
  }

  // Filling a slot that held no argument.
  lemma FillRegisters(l: seq<Option<Arg>>, sequencer: seq<Option<Arg>>, k: nat, a: Arg)
    requires a.Sequenced? && k < |l| && Registered(l, sequencer) && a.evalIndex !in Evals(l)
    requires Evals(l[k := Some(a)]) == Evals(l) + {a.evalIndex}
    ensures Registered(l[k := Some(a)], Register(sequencer, a.evalIndex, a))
  {
    var l' := l[k := Some(a)];
    forall j | 0 <= j < |l'| && Given(l'[j]) && j != k
      ensures l[j].value.evalIndex != a.evalIndex
    {
      assert l[j].value.evalIndex in Evals(l);
    }
  }

  lemma FillDefaultOrders(sig: Signature, call: Call, s: AppState, bound: nat)
    requires Shape(sig, s) && FillDefault(sig, s).Some? && Ordered(call, s, bound)
    ensures Ordered(call, FillDefault(sig, s).value, bound)
  {
    FillDefaultSlots(sig, s);
    var l, l' := Slots(s), Slots(FillDefault(sig, s).value);
    assert forall p :: 0 <= p < |l| && p != s.index ==> l'[p] == l[p];
  }

  lemma NextUnfilled(env: Env, sig: Signature, call: Call, s: AppState)
    requires WellFormed(sig) && call.Valid() && Shape(sig, s)
    requires Fitting(env, sig, call, s) && s.index < |s.args|
    ensures !Given(Slots(s)[s.index])
  {
  }

  lemma FillDefaultKeeps(env: Env, sig: Signature, call: Call, s: AppState, bound: nat)
    requires WellFormed(sig) && call.Valid() && Shape(sig, s)
    requires Inv(env, sig, call, s) && FillDefault(sig, s).Some?
    requires Ordered(call, s, bound)
    ensures var r := FillDefault(sig, s).value;
            Inv(env, sig, call, r) && Evals(Slots(r)) == Evals(Slots(s)) && Ordered(call, r, bound)
  {
    hide Fitting, Evals, Ordered;
    FillDefaultSlots(sig, s);
    NextUnfilled(env, sig, call, s);
    FillDefaultFits(env, sig, call, s);
    FillSlot(Slots(s), s.index, DefaultArg(sig.formals[s.index].t));
    FillDefaultOrders(sig, call, s, bound);
  }

  // The facts about argument i and formal spot under which it is placed there.
  ghost predicate Placeable(env: Env, sig: Signature, call: Call, s: AppState, spot: nat, i: nat) {
    && WellFormed(sig) && call.Valid() && Shape(sig, s)
    && spot < |s.args| && s.args[spot].None? && s.index <= spot
    && i < |call.source.formals|
    && Fits(env, sig, spot, call.source.formals[i])
    && (call.source.formals[i].name.Some? ==> sig.formals[spot].name == call.source.formals[i].name)
    && (call.source.formals[i].name.None? ==> spot == s.index)
    && s.restArg.None?
  }

  function PlaceAt(env: Env, sig: Signature, call: Call, s: AppState, spot: nat, i: nat): (r: AppState)
    requires Placeable(env, sig, call, s, spot, i)
    ensures Shape(sig, r)
  {
    Place(sig, s, spot, call.al.args[i], call.EvalIndex(i), CastScore(env, sig.formals[spot], call.source.formals[i]))
  }

  lemma PlaceSlots(env: Env, sig: Signature, call: Call, s: AppState, spot: nat, i: nat)
    requires Placeable(env, sig, call, s, spot, i)
    ensures Slots(PlaceAt(env, sig, call, s, spot, i)) ==
            Slots(s)[spot := Some(Sequenced(call.al.args[i], sig.formals[spot].t, call.EvalIndex(i)))]
  {
  }

  lemma PlaceFits(env: Env, sig: Signature, call: Call, s: AppState, spot: nat, i: nat)
    requires Placeable(env, sig, call, s, spot, i) && Fitting(env, sig, call, s)
    ensures Fitting(env, sig, call, PlaceAt(env, sig, call, s, spot, i))
  {
    var r := PlaceAt(env, sig, call, s, spot, i);
    EvalIndexInverse(call, i);
    forall k | 0 <= k < |r.args|
      ensures SlotOk(env, sig, call, r, k)
    {
      assert SlotOk(env, sig, call, s, k);
    }
  }

  lemma PlaceAccounts(env: Env, sig: Signature, call: Call, s: AppState, spot: nat, i: nat)
    requires Placeable(env, sig, call, s, spot, i) && Accounted(s)
    requires call.EvalIndex(i) !in Evals(Slots(s))
    ensures var r := PlaceAt(env, sig, call, s, spot, i);
            Accounted(r) && Evals(Slots(r)) == Evals(Slots(s)) + {call.EvalIndex(i)}
  {
    var a := Sequenced(call.al.args[i], sig.formals[spot].t, call.EvalIndex(i));
    PlaceSlots(env, sig, call, s, spot, i);
    hide Slots, Placeable, Fits;
    FillSlot(Slots(s), spot, a);
    FillRegisters(Slots(s), s.sequencer, spot, a);
  }

  lemma PlaceOrders(env: Env, sig: Signature, call: Call, s: AppState, spot: nat, i: nat, bound: nat)
    requires Placeable(env, sig, call, s, spot, i) && Fitting(env, sig, call, s)
    requires Ordered(call, s, bound) && bound <= call.EvalIndex(i)
    ensures Ordered(call, PlaceAt(env, sig, call, s, spot, i),
                    if call.source.formals[i].name.None? then call.EvalIndex(i) + 1 else bound)
  {
    hide SlotOk, FitsPack, FitsRest;
    PlaceSlots(env, sig, call, s, spot, i);
    EvalIndexInverse(call, i);
    var l, l' := Slots(s), Slots(PlaceAt(env, sig, call, s, spot, i));
    assert forall p :: 0 <= p < |l| && p != spot ==> l'[p] == l[p];
    assert spot < |s.args|;
    assert s.index < |s.args| ==> s.inits == [];
  }

  lemma PlaceKeeps(env: Env, sig: Signature, call: Call, s: AppState, spot: nat, i: nat, bound: nat)
    requires Placeable(env, sig, call, s, spot, i) && Inv(env, sig, call, s)
    requires call.EvalIndex(i) !in Evals(Slots(s))
    requires Ordered(call, s, bound) && bound <= call.EvalIndex(i)
    ensures var r := PlaceAt(env, sig, call, s, spot, i);
            && Inv(env, sig, call, r) && Evals(Slots(r)) == Evals(Slots(s)) + {call.EvalIndex(i)}
            && Ordered(call, r, if call.source.formals[i].name.None? then call.EvalIndex(i) + 1 else bound)
  {
    hide Fitting, Accounted, Ordered, Evals, Slots;
    PlaceFits(env, sig, call, s, spot, i);
    PlaceAccounts(env, sig, call, s, spot, i);
    PlaceOrders(env, sig, call, s, spot, i, bound);
  }

  ghost predicate Packable(env: Env, sig: Signature, call: Call, s: AppState, i: nat) {
    && WellFormed(sig) && call.Valid() && Shape(sig, s)
    && s.index == |s.args| && s.restArg.None?
    && i < |call.source.formals| && call.source.formals[i].name.None?
    && PackIntoRest(env, sig, s, call.source.formals[i], call.al.args[i], call.EvalIndex(i)).Some?
  }

  function PackArg(env: Env, sig: Signature, call: Call, s: AppState, i: nat): (r: AppState)
    requires Packable(env, sig, call, s, i)
    ensures Shape(sig, r)
    ensures Slots(r) == Slots(s) + [Some(Sequenced(call.al.args[i], RestTarget(sig).t, call.EvalIndex(i)))]
  {
    PackIntoRest(env, sig, s, call.source.formals[i], call.al.args[i], call.EvalIndex(i)).value
  }

  lemma PackFits(env: Env, sig: Signature, call: Call, s: AppState, i: nat)
    requires Packable(env, sig, call, s, i) && Fitting(env, sig, call, s)
    ensures Fitting(env, sig, call, PackArg(env, sig, call, s, i))
  {
    var r := PackArg(env, sig, call, s, i);
    EvalIndexInverse(call, i);
    forall k | 0 <= k < |r.args|
      ensures SlotOk(env, sig, call, r, k)
    {
      assert SlotOk(env, sig, call, s, k);
    }
    forall j | 0 <= j < |r.inits|
      ensures FitsPack(env, sig, call, r.inits[j])
    {
      assert j < |s.inits| ==> r.inits[j] == s.inits[j];
    }
  }

  lemma AppendAccounts(s: AppState, r: AppState, a: Arg, score: nat)
    requires a.Sequenced? && Accounted(s) && a.evalIndex !in Evals(Slots(s)) && score >= EXACT
    requires Slots(r) == Slots(s) + [Some(a)]
    requires r.sequencer == Register(s.sequencer, a.evalIndex, a) && r.scores == s.scores + [score]
    ensures Accounted(r) && Evals(Slots(r)) == Evals(Slots(s)) + {a.evalIndex}
  {
    var l := Slots(s);
    hide Slots, Evals;
    AppendSlot(l, a);
    var l0 := l + [None];
    assert l0[|l| := Some(a)] == l + [Some(a)];
    AppendNone(l);
    assert Registered(l0, s.sequencer);
    FillRegisters(l0, s.sequencer, |l|, a);
  }

  lemma PackOrders(env: Env, sig: Signature, call: Call, s: AppState, i: nat, bound: nat)
    requires Packable(env, sig, call, s, i)
    requires Ordered(call, s, bound) && bound <= call.EvalIndex(i)
    ensures Ordered(call, PackArg(env, sig, call, s, i), call.EvalIndex(i) + 1)
  {
    var l, l' := Slots(s), Slots(PackArg(env, sig, call, s, i));
    assert forall p :: 0 <= p < |l| ==> l'[p] == l[p];
  }

  lemma PackKeeps(env: Env, sig: Signature, call: Call, s: AppState, i: nat, bound: nat)
    requires Packable(env, sig, call, s, i) && Inv(env, sig, call, s)
    requires call.EvalIndex(i) !in Evals(Slots(s))
    requires Ordered(call, s, bound) && bound <= call.EvalIndex(i)
    ensures var r := PackArg(env, sig, call, s, i);
            && Inv(env, sig, call, r) && Evals(Slots(r)) == Evals(Slots(s)) + {call.EvalIndex(i)}
            && Ordered(call, r, call.EvalIndex(i) + 1)
  {
    hide Fitting, Accounted, Ordered, Evals, Slots;
    PackFits(env, sig, call, s, i);
    AppendAccounts(s, PackArg(env, sig, call, s, i), Sequenced(call.al.args[i], RestTarget(sig).t, call.EvalIndex(i)),
                   CastScore(env, RestTarget(sig), call.source.formals[i]) + PACKED);
    PackOrders(env, sig, call, s, i, bound);
  }

  lemma {:induction false} MatchArgumentKeeps(env: Env, sig: Signature, call: Call, s: AppState, i: nat, bound: nat)
    requires WellFormed(sig) && call.Valid() && Shape(sig, s)
    requires Inv(env, sig, call, s) && s.restArg.None?
    requires i < |call.source.formals| && call.source.formals[i].name.None?
    requires call.EvalIndex(i) !in Evals(Slots(s))
    requires Ordered(call, s, bound) && bound <= call.EvalIndex(i)
    ensures var m := MatchArgument(env, sig, s, call.source.formals[i], call.al.args[i], call.EvalIndex(i));
            m.Some? ==>
              && Inv(env, sig, call, m.value) && m.value.restArg.None?
              && Evals(Slots(m.value)) == Evals(Slots(s)) + {call.EvalIndex(i)}
              && Ordered(call, m.value, call.EvalIndex(i) + 1)
    decreases |s.args| - s.index
  {
    var source, a, e := call.source.formals[i], call.al.args[i], call.EvalIndex(i);
    if s.index == |s.args| {
      if PackIntoRest(env, sig, s, source, a, e).Some? {
        PackKeeps(env, sig, call, s, i, bound);
      }
    } else if Fits(env, sig, s.index, source) {
      PlaceKeeps(env, sig, call, s, s.index, i, bound);
    } else if FillDefault(sig, s).Some? {
      FillDefaultKeeps(env, sig, call, s, bound);
      MatchArgumentKeeps(env, sig, call, FillDefault(sig, s).value, i, bound);
    }
  }

  lemma {:induction false} CompleteKeeps(env: Env, sig: Signature, call: Call, s: AppState, bound: nat)
    requires WellFormed(sig) && call.Valid() && Shape(sig, s)
    requires Inv(env, sig, call, s) && Ordered(call, s, bound)
    ensures var m := Complete(sig, s);
            m.Some? ==>
              && Inv(env, sig, call, m.value) && Evals(Slots(m.value)) == Evals(Slots(s))
              && Ordered(call, m.value, bound) && m.value.index == |m.value.args|
              && m.value.restArg == s.restArg && m.value.inits == s.inits && m.value.scores == s.scores
    decreases |s.args| - s.index
  {
    if s.index < |s.args| && FillDefault(sig, s).Some? {
      FillDefaultKeeps(env, sig, call, s, bound);
      CompleteKeeps(env, sig, call, FillDefault(sig, s).value, bound);
    }
  }

  /* The times of the first n arguments with, or without, a name. */
  ghost function TimesOf(call: Call, n: nat, named: bool): set<nat>
    requires n <= |call.source.formals|
  {
    set j: nat | j < n && call.source.formals[j].name.Some? == named :: call.EvalIndex(j)
  }

  lemma TimesOfStep(call: Call, n: nat, named: bool)
    requires n < |call.source.formals|
    ensures TimesOf(call, n + 1, named) ==
            TimesOf(call, n, named) + if call.source.formals[n].name.Some? == named then {call.EvalIndex(n)} else {}
    ensures call.EvalIndex(n) !in TimesOf(call, n, named)
    ensures call.RestIndex() !in TimesOf(call, n, named)
    ensures call.source.formals[n].name.Some? != named ==> call.EvalIndex(n) !in TimesOf(call, |call.source.formals|, named)
  {
    forall e | e in TimesOf(call, n, named)
      ensures e in TimesOf(call, n + 1, named)
    {
      var j: nat :| j < n && call.source.formals[j].name.Some? == named && call.EvalIndex(j) == e;
      assert j < n + 1;
    }
    forall e | e in TimesOf(call, n + 1, named) && e != call.EvalIndex(n)
      ensures e in TimesOf(call, n, named)
    {
      var j: nat :| j < n + 1 && call.source.formals[j].name.Some? == named && call.EvalIndex(j) == e;
      assert j != n;
    }
  }

  lemma {:induction false} MatchNamedKeeps(env: Env, sig: Signature, call: Call, i: nat, s: AppState)
    requires WellFormed(sig) && call.Valid() && Shape(sig, s)
    requires Inv(env, sig, call, s) && s.restArg.None? && s.inits == [] && i <= |call.source.formals|
    requires Evals(Slots(s)) == TimesOf(call, i, true) && Ordered(call, s, 0)
    ensures var m := MatchNamed(env, sig, call, i, s);
            m.Some? ==>
              && Inv(env, sig, call, m.value) && m.value.restArg.None? && m.value.inits == []
              && Evals(Slots(m.value)) == TimesOf(call, |call.source.formals|, true)
              && Ordered(call, m.value, 0)
    decreases |call.source.formals| - i
  {
    hide Inv, Evals, Slots, TimesOf, Ordered;
    if i < |call.source.formals| {
      TimesOfStep(call, i, true);
      var f := call.source.formals[i];
      if f.name.None? {
        MatchNamedKeeps(env, sig, call, i + 1, s);
      } else {
        var next := MatchNamedArgument(env, sig, s, f, call.al.args[i], call.EvalIndex(i));
        if next.Some? {
          var spot := FindSpot(sig, s.args, f.name.value, s.index).value;
          PlaceKeeps(env, sig, call, s, spot, i, 0);
          EvalIndexInverse(call, i);
          MatchNamedKeeps(env, sig, call, i + 1, next.value);
        }
      }
    }
  }

  lemma {:induction false} MatchUnnamedKeeps(env: Env, sig: Signature, call: Call, i: nat, s: AppState)
    requires WellFormed(sig) && call.Valid() && Shape(sig, s)
    requires Inv(env, sig, call, s) && s.restArg.None? && i <= |call.source.formals|
    requires Evals(Slots(s)) == TimesOf(call, |call.source.formals|, true) + TimesOf(call, i, false)
    requires Ordered(call, s, call.EvalIndex(i))
    ensures var m := MatchUnnamed(env, sig, call, i, s);
            m.Some? ==>
              && Inv(env, sig, call, m.value) && m.value.restArg.None?
              && Evals(Slots(m.value)) ==
                 TimesOf(call, |call.source.formals|, true) + TimesOf(call, |call.source.formals|, false)
              && Ordered(call, m.value, call.EvalIndex(|call.source.formals|))
    decreases |call.source.formals| - i
  {
    hide Inv, Evals, Slots, TimesOf, Ordered, MatchArgument;
    if i < |call.source.formals| {
      TimesOfStep(call, i, false);
      TimesOfStep(call, i, true);
      var f := call.source.formals[i];
      if f.name.Some? {
        OrderedUpTo(call, s, call.EvalIndex(i), call.EvalIndex(i + 1));
        MatchUnnamedKeeps(env, sig, call, i + 1, s);
      } else {
        MatchArgumentKeeps(env, sig, call, s, i, call.EvalIndex(i));
        var next := MatchArgument(env, sig, s, f, call.al.args[i], call.EvalIndex(i));
        if next.Some? {
          assert Evals(Slots(next.value)) == TimesOf(call, |call.source.formals|, true) + TimesOf(call, i + 1, false);
          OrderedUpTo(call, next.value, call.EvalIndex(i) + 1, call.EvalIndex(i + 1));
          MatchUnnamedKeeps(env, sig, call, i + 1, next.value);
        }
      }
    }
  }

  lemma BlankInv(env: Env, sig: Signature, call: Call)
    requires WellFormed(sig) && call.Valid()
    ensures Inv(env, sig, call, Blank(sig)) && Evals(Slots(Blank(sig))) == {} && Ordered(call, Blank(sig), 0)
  {
  }

  // Every time at which an argument of the call is due.
  ghost function DueTimes(call: Call): set<nat> {
    TimesOf(call, |call.source.formals|, true) + TimesOf(call, |call.source.formals|, false)
    + if call.source.rest.Some? then {call.RestIndex()} else {}
  }

  // What MatchRest does to the completed state t.
  function RestPlaced(sig: Signature, call: Call, t: AppState, score: nat): (r: AppState)
    requires Shape(sig, t) && call.Valid() && call.source.rest.Some? && sig.rest.Some? && t.restArg.None?
    ensures Shape(sig, r) && Slots(r) == Slots(t) + [r.restArg]
  {
    var arg := Sequenced(call.al.rest.value, sig.rest.value.t, call.RestIndex());
    t.(restArg := Some(arg), sequencer := Register(t.sequencer, call.RestIndex(), arg), scores := t.scores + [score])
  }

  lemma RestFits(env: Env, sig: Signature, call: Call, t: AppState, score: nat)
    requires WellFormed(sig) && call.Valid() && Shape(sig, t) && Fitting(env, sig, call, t)
    requires call.source.rest.Some? && sig.rest.Some? && t.restArg.None?
    requires CastScore(env, sig.rest.value, call.source.rest.value) != FAIL
    ensures Fitting(env, sig, call, RestPlaced(sig, call, t, score))
  {
    var r := RestPlaced(sig, call, t, score);
    forall k | 0 <= k < |r.args|
      ensures SlotOk(env, sig, call, r, k)
    {
      assert SlotOk(env, sig, call, t, k);
    }
  }

  lemma RestOrders(sig: Signature, call: Call, t: AppState, score: nat, bound: nat)
    requires call.Valid() && Shape(sig, t) && Ordered(call, t, bound)
    requires call.source.rest.Some? && sig.rest.Some? && t.restArg.None?
    ensures Ordered(call, RestPlaced(sig, call, t, score), bound)
  {
    var l, l' := Slots(t), Slots(RestPlaced(sig, call, t, score));
    assert forall p :: 0 <= p < |l| ==> l'[p] == l[p];
  }

  lemma MatchRestKeeps(env: Env, sig: Signature, call: Call, s: AppState, bound: nat)
    requires WellFormed(sig) && call.Valid() && Shape(sig, s)
    requires Inv(env, sig, call, s) && s.restArg.None? && call.source.rest.Some?
    requires call.RestIndex() !in Evals(Slots(s)) && Ordered(call, s, bound)
    ensures var m := MatchRestOfCall(env, sig, call, s);
            m.Some? ==>
              && Inv(env, sig, call, m.value)
              && Evals(Slots(m.value)) == Evals(Slots(s)) + {call.RestIndex()}
              && Ordered(call, m.value, bound)
  {
    hide Fitting, Accounted, Ordered, Evals, Slots;
    CompleteKeeps(env, sig, call, s, bound);
    if MatchRestOfCall(env, sig, call, s).Some? {
      var t := Complete(sig, s).value;
      var score := CastScore(env, sig.rest.value, call.source.rest.value);
      var r := RestPlaced(sig, call, t, score);
      RestFits(env, sig, call, t, score);
      AppendAccounts(t, r, r.restArg.value, score);
      RestOrders(sig, call, t, score, bound);
    }
  }

  lemma AllFilledInv(env: Env, sig: Signature, call: Call, s: AppState)
    requires WellFormed(sig) && call.Valid() && Shape(sig, s) && Inv(env, sig, call, s)
    requires s.index == |s.args|
    ensures forall k :: 0 <= k < |sig.formals| ==> s.args[k].Some?
  {
  }

  // The due time of the rest argument is nobody else's.
  lemma RestTimeFree(call: Call)
    ensures var n := |call.source.formals|; call.RestIndex() !in TimesOf(call, n, true) + TimesOf(call, n, false)
  {
  }

  // What MatchSignature does once the unnamed arguments are placed.
  function Finish(env: Env, sig: Signature, call: Call, u: AppState): Option<AppState>
    requires Shape(sig, u) && call.Valid()
  {
    var rest := MatchRestOfCall(env, sig, call, u);
    if rest.None? then None else Complete(sig, rest.value)
  }

  ghost predicate Sound(env: Env, sig: Signature, call: Call, s: AppState)
    requires WellFormed(sig) && call.Valid()
  {
    && Shape(sig, s)
    && Inv(env, sig, call, s)
    && (forall k :: 0 <= k < |sig.formals| ==> s.args[k].Some?)
    && Evals(Slots(s)) == DueTimes(call)
    && Ordered(call, s, call.EvalIndex(|call.source.formals|))
  }

  lemma FinishKeeps(env: Env, sig: Signature, call: Call, u: AppState)
    requires WellFormed(sig) && call.Valid() && Shape(sig, u) && Inv(env, sig, call, u) && u.restArg.None?
    requires var n := |call.source.formals|; Evals(Slots(u)) == TimesOf(call, n, true) + TimesOf(call, n, false)
    requires Ordered(call, u, call.EvalIndex(|call.source.formals|))
    ensures var m := Finish(env, sig, call, u); m.Some? ==> Sound(env, sig, call, m.value)
  {
    hide Inv, Evals, Ordered, Slots, TimesOf;
    if call.source.rest.Some? {
      RestTimeFree(call);
      MatchRestKeeps(env, sig, call, u, call.EvalIndex(|call.source.formals|));
    }
    var rest := MatchRestOfCall(env, sig, call, u);
    if rest.Some? {
      CompleteKeeps(env, sig, call, rest.value, call.EvalIndex(|call.source.formals|));
      if Complete(sig, rest.value).Some? {
        AllFilledInv(env, sig, call, Complete(sig, rest.value).value);
      }
    }
  }

  /** A successful match fills every formal, with an argument that fits it or
      with its own default; uses every argument of the call exactly once; keeps
      the order of the unnamed arguments; and scores each argument once. */
  lemma MatchSignatureSound(env: Env, sig: Signature, call: Call)
    requires WellFormed(sig) && call.Valid()
    ensures var m := MatchSignature(env, sig, call); m.Some? ==> Sound(env, sig, call, m.value)
  {
    BlankInv(env, sig, call);
    assert TimesOf(call, 0, true) == {} && TimesOf(call, 0, false) == {};
    hide Inv, Evals, Ordered, Slots, TimesOf, Sound;
    MatchNamedKeeps(env, sig, call, 0, Blank(sig));
    var named := MatchNamed(env, sig, call, 0, Blank(sig));
    if named.Some? {
      OrderedUpTo(call, named.value, 0, call.EvalIndex(0));
      MatchUnnamedKeeps(env, sig, call, 0, named.value);
      var unnamed := MatchUnnamed(env, sig, call, 0, named.value);
      if unnamed.Some? {
        FinishKeeps(env, sig, call, unnamed.value);
      }
    }
  }

  ghost function Times(call: Call, n: nat): set<nat> {
    set j: nat | j < n :: call.EvalIndex(j)
  }

  lemma TimesOfAll(call: Call)
    requires call.Valid()
    ensures var n := |call.source.formals|; TimesOf(call, n, true) + TimesOf(call, n, false) == Times(call, n)
  {
    var n := |call.source.formals|;
    forall e | e in Times(call, n)
      ensures e in TimesOf(call, n, true) + TimesOf(call, n, false)
    {
      var j: nat :| j < n && call.EvalIndex(j) == e;
      assert e in TimesOf(call, n, call.source.formals[j].name.Some?);
    }
  }

  lemma {:induction false} TimesSize(call: Call, n: nat)
    ensures |Times(call, n)| == n && call.RestIndex() !in Times(call, n)
  {
    if n == 0 {
      assert Times(call, n) == {};
    } else {
      TimesSize(call, n - 1);
      assert call.EvalIndex(n - 1) !in Times(call, n - 1);
      assert Times(call, n) == Times(call, n - 1) + {call.EvalIndex(n - 1)} by {
        forall e | e in Times(call, n) && e != call.EvalIndex(n - 1)
          ensures e in Times(call, n - 1)
        {
          var j: nat :| j < n && call.EvalIndex(j) == e;
          assert j < n - 1;
        }
      }
    }
  }

  lemma DueTimesAre(call: Call)
    requires call.Valid()
    ensures DueTimes(call) == Times(call, |call.source.formals|) + if call.al.rest.Some? then {call.RestIndex()} else {}
  {
    TimesOfAll(call);
  }

  lemma DueTime(call: Call, e: nat)
    requires call.Valid() && e < call.Count()
    requires call.al.rest.Some? ==> call.al.restPosition <= |call.al.args|
    ensures e in DueTimes(call)
  {
    DueTimesAre(call);
    hide DueTimes;
    if e != call.RestIndex() {
      var j: nat := if e < call.RestIndex() then e else e - 1;
      assert j < |call.source.formals| && call.EvalIndex(j) == e;
    }
  }

  /** The times of a call's arguments are 0, 1, ..., n - 1, each used once,
      exactly when its rest argument is not placed past the end of the list. */
  lemma DueTimesExact(call: Call)
    requires call.Valid()
    ensures |DueTimes(call)| == call.Count()
    ensures (forall e: nat :: e in DueTimes(call) <==> e < call.Count()) <==>
            (call.al.rest.Some? ==> call.al.restPosition <= |call.al.args|)
  {
    DueTimesAre(call);
    TimesSize(call, |call.source.formals|);
    hide DueTimes, Times;
    if call.al.rest.Some? ==> call.al.restPosition <= |call.al.args| {
      forall e: nat
        ensures e in DueTimes(call) <==> e < call.Count()
      {
        if e < call.Count() {
          DueTime(call, e);
        }
      }
    } else {
      assert call.RestIndex() in DueTimes(call) && call.RestIndex() >= call.Count();
    }
  }

  lemma {:induction false} EvalsBound(l: seq<Option<Arg>>)
    ensures |Evals(l)| <= |l|
  {
    if l != [] {
      var m, e := l[..|l| - 1], Evals(l[..|l| - 1]);
      EvalsBound(m);
      var last := if Given(l[|l| - 1]) then {l[|l| - 1].value.evalIndex} else {};
      forall x | x in Evals(l)
        ensures x in e + last
      {
        var k :| 0 <= k < |l| && Given(l[k]) && l[k].value.evalIndex == x;
        assert k < |m| ==> m[k] == l[k];
      }
      assert Evals(l) <= e + last;
      SubsetCard(Evals(l), e + last);
    } else {
      assert Evals(l) == {};
    }
  }
}
