/** Left-to-right evaluation of arguments, whatever order they end up in. */
module SequencerProofs {
  import opened Options
  import opened Types
  import opened Applications
  import opened Sequencers
  import opened MatchProofs
  import M = Machine

  // The table holds arguments 0, 1, ..., n - 1.
  predicate Full(table: seq<Option<Arg>>, n: nat) {
    n <= |table| && forall e :: 0 <= e < n ==> table[e].Some? && table[e].value.Sequenced?
  }

  // The first k expressions in the order of the call.
  function Order(table: seq<Option<Arg>>, n: nat, k: nat): seq<Exp>
    requires Full(table, n) && k <= n
  {
    seq(k, e requires 0 <= e < k => table[e].value.val)
  }

  // The value of argument e when the arguments are evaluated in order.
  function ValueAt(table: seq<Option<Arg>>, n: nat, o: M.Oracle, trace: seq<nat>, e: nat): M.Value
    requires Full(table, n) && e < n
  {
    o(trace + Order(table, n, e), table[e].value.val)
  }

  // The value that a slot should hold.
  function SlotValue(table: seq<Option<Arg>>, n: nat, o: M.Oracle, trace: seq<nat>, a: Arg): M.Value
    requires Full(table, n)
  {
    if a.Sequenced? && a.evalIndex < n then ValueAt(table, n, o, trace, a.evalIndex) else M.Default
  }

  function SlotValues(table: seq<Option<Arg>>, n: nat, o: M.Oracle, trace: seq<nat>, slots: seq<Arg>): seq<M.Value>
    requires Full(table, n)
  {
    seq(|slots|, k requires 0 <= k < |slots| => SlotValue(table, n, o, trace, slots[k]))
  }

  predicate UsedIn(slots: seq<Arg>, e: nat) {
    exists k :: 0 <= k < |slots| && slots[k].Sequenced? && slots[k].evalIndex == e
  }

  // The invariant of temp_vector: the side effects of the first |temps|
  // arguments have happened, and those not yet used are in temporaries.
  ghost predicate TempsOk(t: Tr, n: nat, used: seq<Arg>, next: nat)
  {
    && Full(t.table, n) && |t.temps| <= n && next <= t.next
    && (forall e :: 0 <= e < |t.temps| && t.temps[e].None? ==> UsedIn(used, e))
    && (forall e :: 0 <= e < |t.temps| && t.temps[e].Some? ==> next <= t.temps[e].value < t.next)
    && (forall k :: 0 <= k < |used| && used[k].Sequenced? ==> used[k].evalIndex < |t.temps|)
  }

  // The state r after running the code of t from s.
  ghost predicate RunOk(t: Tr, n: nat, o: M.Oracle, s: M.State, next: nat, stack: seq<M.Value>, r: M.State)
    requires Full(t.table, n) && |t.temps| <= n
  {
    && r.stack == stack
    && r.trace == s.trace + Order(t.table, n, |t.temps|)
    && r.active == s.active && s.active in s.heap && s.active in r.heap
    && r.heap == s.heap[s.active := r.heap[s.active]]
    && (forall i :: i < next ==> ((i in r.heap[s.active]) == (i in s.heap[s.active])))
    && (forall i :: i < next && i in s.heap[s.active] ==> r.heap[s.active][i] == s.heap[s.active][i])
    && (forall e :: 0 <= e < |t.temps| && t.temps[e].Some? ==>
          var local: int := t.temps[e].value;
          local in r.heap[s.active] && r.heap[s.active][local] == ValueAt(t.table, n, o, s.trace, e))
  }

  ghost predicate Inv(t: Tr, n: nat, used: seq<Arg>, o: M.Oracle, s: M.State, next: nat, stack: seq<M.Value>) {
    && TempsOk(t, n, used, next)
    && M.Exec(t.code, o, s).Some?
    && RunOk(t, n, o, s, next, stack, M.Exec(t.code, o, s).value)
  }

  lemma OrderStep(table: seq<Option<Arg>>, n: nat, k: nat)
    requires Full(table, n) && k < n
    ensures Order(table, n, k + 1) == Order(table, n, k) + [table[k].value.val]
  {
  }

  // Evaluating into a local variable leaves the stack as it was.
  function Aliased(o: M.Oracle, r: M.State, id: nat, local: nat): M.State
    requires r.active in r.heap
  {
    M.State(r.pc + 3, r.stack, r.heap[r.active := r.heap[r.active][local := o(r.trace, id)]], r.active, r.trace + [id])
  }

  lemma ExecThree(a: M.Instr, b: M.Instr, c: M.Instr, o: M.Oracle, r: M.State, r1: M.State, r2: M.State)
    requires M.Do(a, o, r) == Some(r1) && M.Do(b, o, r1) == Some(r2)
    ensures M.Exec([a, b, c], o, r) == M.Do(c, o, r2)
  {
    hide M.Do, M.Exec;
    M.ExecOne(a, o, r);
    M.ExecOne(b, o, r1);
    M.ExecOne(c, o, r2);
    assert [a, b, c] == [a] + [b] + [c];
    M.ExecConcat([a], [b], o, r);
    M.ExecConcat([a] + [b], [c], o, r);
  }

  lemma AliasSteps(o: M.Oracle, r: M.State, id: nat, local: nat) returns (r1: M.State, r2: M.State)
    requires r.active in r.heap
    ensures M.Do(M.Eval(id), o, r) == Some(r1)
    ensures M.Do(M.VarSave(local), o, r1) == Some(r2)
    ensures M.Do(M.Pop, o, r2) == Some(Aliased(o, r, id, local))
  {
    r1 := M.Do(M.Eval(id), o, r).value;
    r2 := M.Do(M.VarSave(local), o, r1).value;
    assert M.Below(r2) == r.stack;
  }

  lemma ExecAlias(o: M.Oracle, r: M.State, id: nat, local: nat)
    requires r.active in r.heap
    ensures M.Exec([M.Eval(id), M.VarSave(local), M.Pop], o, r) == Some(Aliased(o, r, id, local))
  {
    hide M.Exec, M.Do, Aliased;
    var r1, r2 := AliasSteps(o, r, id, local);
    ExecThree(M.Eval(id), M.VarSave(local), M.Pop, o, r, r1, r2);
  }

  lemma AliasTemps(t: Tr, n: nat, used: seq<Arg>, next: nat)
    requires TempsOk(t, n, used, next) && |t.temps| < n
    ensures Alias(t).Some? && TempsOk(Alias(t).value, n, used, next)
  {
  }

  lemma AliasRuns(t: Tr, n: nat, used: seq<Arg>, o: M.Oracle, s: M.State, next: nat, stack: seq<M.Value>, r: M.State)
    requires TempsOk(t, n, used, next) && |t.temps| < n && RunOk(t, n, o, s, next, stack, r)
    ensures RunOk(Alias(t).value, n, o, s, next, stack, Aliased(o, r, t.table[|t.temps|].value.val, t.next))
  {
    OrderStep(t.table, n, |t.temps|);
    hide UsedIn;
    var r', u := Aliased(o, r, t.table[|t.temps|].value.val, t.next), Alias(t).value;
    assert r'.heap[s.active] == r.heap[s.active][t.next := ValueAt(t.table, n, o, s.trace, |t.temps|)];
    hide Order, ValueAt, Full;
    forall e | 0 <= e < |u.temps| && u.temps[e].Some?
      ensures u.temps[e].value in r'.heap[s.active]
      ensures r'.heap[s.active][u.temps[e].value] == ValueAt(t.table, n, o, s.trace, e)
    {
      if e < |t.temps| {
        assert u.temps[e] == t.temps[e];
      }
    }
  }

  lemma AliasKeeps(t: Tr, n: nat, used: seq<Arg>, o: M.Oracle, s: M.State, next: nat, stack: seq<M.Value>)
    requires Inv(t, n, used, o, s, next, stack) && |t.temps| < n
    ensures Alias(t).Some? && Inv(Alias(t).value, n, used, o, s, next, stack)
  {
    var r, id := M.Exec(t.code, o, s).value, t.table[|t.temps|].value.val;
    AliasTemps(t, n, used, next);
    AliasRuns(t, n, used, o, s, next, stack, r);
    hide M.Exec;
    M.ExecConcat(t.code, [M.Eval(id), M.VarSave(t.next), M.Pop], o, s);
    ExecAlias(o, r, id, t.next);
  }

  lemma {:induction false} AdvanceKeeps(t: Tr, i: nat, n: nat, used: seq<Arg>, o: M.Oracle, s: M.State, next: nat, stack: seq<M.Value>)
    requires Inv(t, n, used, o, s, next, stack) && |t.temps| <= i < n
    ensures var u := Advance(t, i); u.Some? && |u.value.temps| == i && Inv(u.value, n, used, o, s, next, stack)
    decreases i - |t.temps|
  {
    hide Inv;
    if |t.temps| < i {
      InvBounds(t, n, used, o, s, next, stack);
      AliasKeeps(t, n, used, o, s, next, stack);
      AdvanceKeeps(Alias(t).value, i, n, used, o, s, next, stack);
    }
  }

  lemma InvBounds(t: Tr, n: nat, used: seq<Arg>, o: M.Oracle, s: M.State, next: nat, stack: seq<M.Value>)
    requires Inv(t, n, used, o, s, next, stack)
    ensures Full(t.table, n) && |t.temps| <= n
  {
  }

  // An argument that comes too late to be evaluated in place is in a temporary.
  lemma ReadKeeps(t: Tr, a: Arg, n: nat, used: seq<Arg>, o: M.Oracle, s: M.State, next: nat, stack: seq<M.Value>)
    requires Inv(t, n, used, o, s, next, stack)
    requires a.Sequenced? && a.evalIndex < |t.temps| && !UsedIn(used, a.evalIndex)
    ensures var u := TransSlot(t, a);
            u.Some? && Inv(u.value, n, used + [a], o, s, next, stack + [ValueAt(t.table, n, o, s.trace, a.evalIndex)])
  {
    var u := TransSlot(t, a).value;
    var i := M.VarPush(t.temps[a.evalIndex].value);
    M.ExecConcat(t.code, [i], o, s);
    M.ExecOne(i, o, M.Exec(t.code, o, s).value);
    hide M.Exec;
    UsedGrows(used, a);
    assert TempsOk(u, n, used + [a], next);
  }

  lemma UsedGrows(used: seq<Arg>, a: Arg)
    ensures forall e :: UsedIn(used, e) ==> UsedIn(used + [a], e)
    ensures a.Sequenced? ==> UsedIn(used + [a], a.evalIndex)
  {
    var l := used + [a];
    assert l[|used|] == a;
    forall e | UsedIn(used, e)
      ensures UsedIn(l, e)
    {
      var k :| 0 <= k < |used| && used[k].Sequenced? && used[k].evalIndex == e;
      assert l[k] == used[k];
    }
  }

  // An argument that is next in line is evaluated in place.
  lemma InPlaceKeeps(t: Tr, a: Arg, n: nat, used: seq<Arg>, o: M.Oracle, s: M.State, next: nat, stack: seq<M.Value>)
    requires Inv(t, n, used, o, s, next, stack)
    requires a.Sequenced? && a.evalIndex == |t.temps| < n
    ensures var u := TransSlot(t, a);
            u.Some? && Inv(u.value, n, used + [a], o, s, next, stack + [ValueAt(t.table, n, o, s.trace, a.evalIndex)])
  {
    var u := TransSlot(t, a).value;
    var i := M.Eval(t.table[a.evalIndex].value.val);
    M.ExecConcat(t.code, [i], o, s);
    M.ExecOne(i, o, M.Exec(t.code, o, s).value);
    OrderStep(t.table, n, a.evalIndex);
    hide M.Exec;
    UsedGrows(used, a);
    assert TempsOk(u, n, used + [a], next);
  }

  lemma DefaultKeeps(t: Tr, a: Arg, n: nat, used: seq<Arg>, o: M.Oracle, s: M.State, next: nat, stack: seq<M.Value>)
    requires Inv(t, n, used, o, s, next, stack) && a.DefaultArg?
    ensures var u := TransSlot(t, a); u.Some? && Inv(u.value, n, used + [a], o, s, next, stack + [M.Default])
  {
    var u := TransSlot(t, a).value;
    M.ExecConcat(t.code, [M.PushDefault], o, s);
    M.ExecOne(M.PushDefault, o, M.Exec(t.code, o, s).value);
    hide M.Exec;
    UsedGrows(used, a);
    assert TempsOk(u, n, used + [a], next);
  }

  // Slots that use n different arguments at most once each.
  ghost predicate ProperSlots(slots: seq<Arg>, n: nat) {
    && (forall k :: 0 <= k < |slots| ==> !slots[k].Plain? && (slots[k].Sequenced? ==> slots[k].evalIndex < n))
    && (forall j, k :: 0 <= j < k < |slots| && slots[j].Sequenced? && slots[k].Sequenced? ==>
          slots[j].evalIndex != slots[k].evalIndex)
  }

  lemma SlotKeeps(t: Tr, a: Arg, n: nat, used: seq<Arg>, o: M.Oracle, s: M.State, next: nat, stack: seq<M.Value>)
    requires Inv(t, n, used, o, s, next, stack)
    requires !a.Plain? && (a.Sequenced? ==> a.evalIndex < n && !UsedIn(used, a.evalIndex))
    ensures Full(t.table, n)
    ensures var u := TransSlot(t, a);
            u.Some? && Inv(u.value, n, used + [a], o, s, next, stack + [SlotValue(t.table, n, o, s.trace, a)])
  {
    hide Inv;
    InvBounds(t, n, used, o, s, next, stack);
    if a.DefaultArg? {
      DefaultKeeps(t, a, n, used, o, s, next, stack);
    } else if a.evalIndex < |t.temps| {
      ReadKeeps(t, a, n, used, o, s, next, stack);
    } else {
      AdvanceKeeps(t, a.evalIndex, n, used, o, s, next, stack);
      var u := Advance(t, a.evalIndex).value;
      InPlaceKeeps(u, a, n, used, o, s, next, stack);
      assert TransSlot(u, a) == TransSlot(t, a);
    }
  }

  lemma {:induction false} SlotsKeep(t: Tr, slots: seq<Arg>, n: nat, o: M.Oracle, s: M.State, next: nat)
    requires Inv(t, n, [], o, s, next, s.stack) && ProperSlots(slots, n)
    ensures Full(t.table, n)
    ensures var u := TransSlots(t, slots);
            u.Some? && Inv(u.value, n, slots, o, s, next, s.stack + SlotValues(t.table, n, o, s.trace, slots))
  {
    hide Inv;
    InvBounds(t, n, [], o, s, next, s.stack);
    if slots == [] {
      assert s.stack + SlotValues(t.table, n, o, s.trace, slots) == s.stack;
    } else {
      var init, a := slots[..|slots| - 1], slots[|slots| - 1];
      SlotsKeep(t, init, n, o, s, next);
      var u := TransSlots(t, init).value;
      SlotKeeps(u, a, n, init, o, s, next, s.stack + SlotValues(t.table, n, o, s.trace, init));
      assert init + [a] == slots;
      assert s.stack + SlotValues(t.table, n, o, s.trace, init) + [SlotValue(t.table, n, o, s.trace, a)]
             == s.stack + SlotValues(t.table, n, o, s.trace, slots);
    }
  }

  /* The whole argument list of a matched call. */

  // The slots that ArgList lists are those that matching filled.
  lemma ArgListIsSlots(s: AppState)
    requires forall k :: 0 <= k < |s.args| ==> s.args[k].Some?
    ensures |ArgList(s)| == |Slots(s)|
    ensures forall k :: 0 <= k < |ArgList(s)| ==> Slots(s)[k] == Some(ArgList(s)[k])
  {
  }

  // The arguments as the call wrote them, with the rest argument in its place.
  function CallOrder(call: Call): seq<Exp>
    requires call.Valid()
  {
    seq(call.Count(), e requires 0 <= e < call.Count() =>
      if call.al.rest.Some? && e == call.al.restPosition then call.al.rest.value
      else if 0 <= call.SourceOf(e) < |call.al.args| then call.al.args[call.SourceOf(e)]
      else 0)
  }

  // A filled slot holds a default or an argument of the call.
  ghost predicate HoldsArgument(call: Call, slot: Option<Arg>)
    requires call.Valid()
  {
    && slot.Some? && !slot.value.Plain?
    && (Given(slot) && slot.value.evalIndex < call.Count() ==> slot.value.val == CallOrder(call)[slot.value.evalIndex])
  }

  lemma FormalHolds(env: Env, sig: Signature, call: Call, k: nat, s: AppState)
    requires call.Valid() && Shape(sig, s) && k < |s.args| && s.args[k].Some? && SlotOk(env, sig, call, s, k)
    ensures HoldsArgument(call, s.args[k])
  {
  }

  lemma PackHolds(env: Env, sig: Signature, call: Call, a: Arg)
    requires call.Valid() && WellFormed(sig) && FitsPack(env, sig, call, a)
    ensures HoldsArgument(call, Some(a))
  {
  }

  lemma RestHolds(env: Env, sig: Signature, call: Call, a: Arg)
    requires call.Valid() && FitsRest(env, sig, call, a)
    ensures HoldsArgument(call, Some(a))
  {
  }

  lemma SlotHolds(env: Env, sig: Signature, call: Call, s: AppState, k: nat)
    requires WellFormed(sig) && call.Valid() && Shape(sig, s) && Fitting(env, sig, call, s)
    requires forall j :: 0 <= j < |s.args| ==> s.args[j].Some?
    requires k < |Slots(s)|
    ensures HoldsArgument(call, Slots(s)[k])
  {
    hide HoldsArgument, SlotOk, FitsPack, FitsRest, IndexOk;
    if k < |s.args| {
      FormalHolds(env, sig, call, k, s);
    } else if k < |s.args| + |s.inits| {
      PackHolds(env, sig, call, s.inits[k - |s.args|]);
    } else {
      RestHolds(env, sig, call, s.restArg.value);
    }
  }

  // What the translation relies on: a list of slots holding n arguments once
  // each, and the table that tells where they came from.
  ghost predicate Slotted(call: Call, l: seq<Option<Arg>>, table: seq<Option<Arg>>)
    requires call.Valid()
  {
    && (forall k :: 0 <= k < |l| ==> HoldsArgument(call, l[k]))
    && Distinct(l)
    && Registered(l, table)
    && (forall e: nat :: e in Evals(l) <==> e < call.Count())
  }

  lemma SoundHolds(env: Env, sig: Signature, call: Call, s: AppState)
    requires WellFormed(sig) && call.Valid() && Sound(env, sig, call, s)
    ensures forall k :: 0 <= k < |Slots(s)| ==> HoldsArgument(call, Slots(s)[k])
  {
    hide Ordered, DueTimes, HoldsArgument, Slots, Accounted, SlotOk, FitsPack, FitsRest, IndexOk;
    forall k | 0 <= k < |Slots(s)|
      ensures HoldsArgument(call, Slots(s)[k])
    {
      SlotHolds(env, sig, call, s, k);
    }
  }

  lemma SoundIsSlotted(env: Env, sig: Signature, call: Call, s: AppState)
    requires WellFormed(sig) && call.Valid() && Sound(env, sig, call, s)
    requires call.al.rest.Some? ==> call.al.restPosition <= |call.al.args|
    ensures Slotted(call, Slots(s), s.sequencer)
  {
    DueTimesExact(call);
    SoundHolds(env, sig, call, s);
    hide Fitting, Ordered, DueTimes, HoldsArgument, Slots, Distinct, Registered, Evals, MatchProofs.Scored;
  }

  lemma SlotOfTime(call: Call, l: seq<Option<Arg>>, table: seq<Option<Arg>>, e: nat) returns (k: nat)
    requires call.Valid() && Slotted(call, l, table) && e < call.Count()
    ensures k < |l| && Given(l[k]) && l[k].value.evalIndex == e
    ensures e < |table| && table[e] == l[k] && l[k].value.val == CallOrder(call)[e]
  {
    assert e in Evals(l);
    k :| 0 <= k < |l| && Given(l[k]) && l[k].value.evalIndex == e;
  }

  lemma SlottedTable(call: Call, l: seq<Option<Arg>>, table: seq<Option<Arg>>)
    requires call.Valid() && Slotted(call, l, table)
    ensures Full(table, call.Count())
    ensures Order(table, call.Count(), call.Count()) == CallOrder(call)
  {
    hide Slotted;
    forall e: nat | e < call.Count()
      ensures e < |table| && table[e].Some? && table[e].value.Sequenced? && table[e].value.val == CallOrder(call)[e]
    {
      var k := SlotOfTime(call, l, table, e);
    }
    if call.Count() > 0 {
      var k := SlotOfTime(call, l, table, call.Count() - 1);
    }
  }

  lemma SlottedProper(call: Call, l: seq<Option<Arg>>, table: seq<Option<Arg>>, slots: seq<Arg>)
    requires call.Valid() && Slotted(call, l, table)
    requires |l| == |slots| && forall k :: 0 <= k < |l| ==> l[k] == Some(slots[k])
    ensures ProperSlots(slots, call.Count())
  {
    forall k | 0 <= k < |slots| && slots[k].Sequenced?
      ensures slots[k].evalIndex < call.Count()
    {
      assert Given(l[k]) && l[k].value.evalIndex in Evals(l);
    }
    assert forall k :: 0 <= k < |slots| && slots[k].Sequenced? ==> Given(l[k]) && l[k].value.evalIndex == slots[k].evalIndex;
    assert forall k :: 0 <= k < |slots| ==> HoldsArgument(call, l[k]);
  }

  lemma AllEvaluated(t: Tr, n: nat, slots: seq<Arg>, next: nat, l: seq<Option<Arg>>)
    requires TempsOk(t, n, slots, next)
    requires |l| == |slots| && forall k :: 0 <= k < |l| ==> l[k] == Some(slots[k])
    requires forall e: nat :: e < n ==> e in Evals(l)
    ensures |t.temps| == n
  {
    if n > 0 {
      assert n - 1 in Evals(l);
      var k :| 0 <= k < |l| && Given(l[k]) && l[k].value.evalIndex == n - 1;
      assert slots[k].Sequenced?;
    }
  }

  // Two states that differ only in the active frame's variables from next on.
  ghost predicate OnlyNewLocals(s: M.State, r: M.State, next: nat) {
    && r.active == s.active && s.active in s.heap && s.active in r.heap
    && r.heap == s.heap[s.active := r.heap[s.active]]
    && (forall i :: i < next ==> ((i in r.heap[s.active]) == (i in s.heap[s.active])))
    && (forall i :: i < next && i in s.heap[s.active] ==> r.heap[s.active][i] == s.heap[s.active][i])
  }

  // What the slots leave on the stack and in the trace, before the rest array
  // is made.
  ghost predicate Translated(call: Call, slots: seq<Arg>, table: seq<Option<Arg>>, next: nat, o: M.Oracle, s: M.State, t: Tr)
    requires call.Valid() && Full(table, call.Count())
  {
    && M.Exec(t.code, o, s).Some?
    && var r := M.Exec(t.code, o, s).value;
    && r.trace == s.trace + CallOrder(call)
    && r.stack == s.stack + SlotValues(table, call.Count(), o, s.trace, slots)
    && OnlyNewLocals(s, r, next)
  }

  lemma StartInv(table: seq<Option<Arg>>, n: nat, next: nat, o: M.Oracle, s: M.State)
    requires Full(table, n) && s.active in s.heap
    ensures Inv(Tr(table, [], [], next), n, [], o, s, next, s.stack)
  {
    assert s.trace + Order(table, n, 0) == s.trace;
    assert s.heap == s.heap[s.active := s.heap[s.active]];
  }

  lemma InvTranslates(call: Call, slots: seq<Arg>, table: seq<Option<Arg>>, next: nat, o: M.Oracle, s: M.State, t: Tr)
    requires call.Valid() && Full(table, call.Count()) && t.table == table && |t.temps| == call.Count()
    requires Order(table, call.Count(), call.Count()) == CallOrder(call)
    requires Inv(t, call.Count(), slots, o, s, next, s.stack + SlotValues(table, call.Count(), o, s.trace, slots))
    ensures Translated(call, slots, table, next, o, s, t)
  {
  }

  lemma SlotsTranslated(call: Call, slots: seq<Arg>, l: seq<Option<Arg>>, table: seq<Option<Arg>>, next: nat, o: M.Oracle, s: M.State)
    requires call.Valid() && Slotted(call, l, table)
    requires |l| == |slots| && forall k :: 0 <= k < |l| ==> l[k] == Some(slots[k])
    requires s.active in s.heap
    ensures Full(table, call.Count())
    ensures var t := TransSlots(Tr(table, [], [], next), slots);
            t.Some? && Translated(call, slots, table, next, o, s, t.value)
  {
    var n := call.Count();
    SlottedTable(call, l, table);
    SlottedProper(call, l, table, slots);
    StartInv(table, n, next, o, s);
    hide Full, Order, ProperSlots, CallOrder, HoldsArgument, Distinct, Registered, Evals, Translated, TransSlots, M.Exec, SlotValues, RunOk;
    SlotsKeep(Tr(table, [], [], next), slots, n, o, s, next);
    var t := TransSlots(Tr(table, [], [], next), slots).value;
    AllEvaluated(t, n, slots, next, l);
    InvTranslates(call, slots, table, next, o, s, t);
  }

  // The arguments as the callee finds them: formals in their order, then the
  // array of packed arguments with the rest argument appended.
  function Passed(call: Call, app: App, o: M.Oracle, trace: seq<nat>): seq<M.Value>
    requires call.Valid() && Full(app.st.sequencer, call.Count()) && app.fn.Function?
    requires forall k :: 0 <= k < |app.st.args| ==> app.st.args[k].Some?
    requires app.st.restArg.Some? ==> SlotValue(app.st.sequencer, call.Count(), o, trace, app.st.restArg.value).Array?
  {
    var n, table := call.Count(), app.st.sequencer;
    SlotValues(table, n, o, trace, FormalArgs(app.st))
    + if app.fn.sig.rest.None? then []
      else [M.Array(SlotValues(table, n, o, trace, app.st.inits)
                    + if app.st.restArg.None? then [] else SlotValue(table, n, o, trace, app.st.restArg.value).elems)]
  }

  // Making the array of n packed cells, and of the tail if there is one.
  lemma ExecMakeRest(st: AppState, o: M.Oracle, r: M.State, base: seq<M.Value>, cells: seq<M.Value>, tail: Option<M.Value>)
    requires |cells| == |st.inits| && (tail.Some? <==> st.restArg.Some?) && (tail.Some? ==> tail.value.Array?)
    requires r.stack == base + cells + if tail.Some? then [tail.value] else []
    ensures var t := M.Exec(MakeRest(st), o, r);
            && t.Some? && t.value.trace == r.trace && t.value.heap == r.heap && t.value.active == r.active
            && t.value.stack == base + [M.Array(cells + if tail.Some? then tail.value.elems else [])]
  {
    var a, b := MakeRest(st)[0], MakeRest(st)[1];
    assert MakeRest(st) == [a] + [b];
    M.ExecConcat([a], [b], o, r);
    M.ExecOne(a, o, r);
    var r1 := M.Do(a, o, r).value;
    M.ExecOne(b, o, r1);
    hide M.Exec;
    assert M.Top(r1) == M.Int(|st.inits|);
    assert r1.stack[|base|..|base| + |cells|] == cells;
    assert r1.stack[..|base|] == base;
    assert tail.Some? ==> r1.stack[|base| + |cells|] == tail.value;
    assert cells + [] == cells;
  }

  lemma SlotValuesConcat(table: seq<Option<Arg>>, n: nat, o: M.Oracle, trace: seq<nat>, xs: seq<Arg>, ys: seq<Arg>)
    requires Full(table, n)
    ensures SlotValues(table, n, o, trace, xs + ys) == SlotValues(table, n, o, trace, xs) + SlotValues(table, n, o, trace, ys)
  {
  }

  lemma SlotValuesOne(table: seq<Option<Arg>>, n: nat, o: M.Oracle, trace: seq<nat>, a: Arg)
    requires Full(table, n)
    ensures SlotValues(table, n, o, trace, [a]) == [SlotValue(table, n, o, trace, a)]
  {
  }

  // A matched call whose rest argument stands where the call says it does.
  predicate ProperlyMatched(env: Env, fn: Ty, call: Call, app: App) {
    && MatchableFn(fn) && call.Valid() && !fn.sig.isOpen && Match(env, fn, call) == Some(app)
    && (call.al.rest.Some? ==> call.al.restPosition <= |call.al.args|)
  }

  lemma MatchedIsSlotted(env: Env, fn: Ty, call: Call, app: App)
    requires ProperlyMatched(env, fn, call, app)
    ensures app.fn == fn && (forall k :: 0 <= k < |app.st.args| ==> app.st.args[k].Some?)
    ensures Slotted(call, Slots(app.st), app.st.sequencer)
    ensures app.st.inits != [] || app.st.restArg.Some? ==> fn.sig.rest.Some?
    ensures Full(app.st.sequencer, call.Count())
    ensures Order(app.st.sequencer, call.Count(), call.Count()) == CallOrder(call)
  {
    MatchSignatureSound(env, fn.sig, call);
    SoundIsSlotted(env, fn.sig, call, app.st);
    assert app.st.inits != [] ==> FitsPack(env, fn.sig, call, app.st.inits[0]);
    hide Slotted, Slots, MatchSignature;
    SlottedTable(call, Slots(app.st), app.st.sequencer);
  }

  // From the slots to the arguments as passed.
  lemma FinishTranslation(call: Call, app: App, next: nat, o: M.Oracle, s: M.State, t: Tr)
    requires call.Valid() && Full(app.st.sequencer, call.Count()) && app.fn.Function?
    requires forall k :: 0 <= k < |app.st.args| ==> app.st.args[k].Some?
    requires app.st.inits != [] || app.st.restArg.Some? ==> app.fn.sig.rest.Some?
    requires app.st.restArg.Some? ==> SlotValue(app.st.sequencer, call.Count(), o, s.trace, app.st.restArg.value).Array?
    requires Translated(call, ArgList(app.st), app.st.sequencer, next, o, s, t)
    ensures var r := M.Exec(t.code + if app.fn.sig.rest.Some? then MakeRest(app.st) else [], o, s);
            && r.Some? && r.value.trace == s.trace + CallOrder(call)
            && r.value.stack == s.stack + Passed(call, app, o, s.trace)
            && OnlyNewLocals(s, r.value, next)
  {
    var st, table, n := app.st, app.st.sequencer, call.Count();
    var rest := if st.restArg.Some? then [st.restArg.value] else [];
    var formals, cells := SlotValues(table, n, o, s.trace, FormalArgs(st)), SlotValues(table, n, o, s.trace, st.inits);
    var tail := if st.restArg.Some? then Some(SlotValue(table, n, o, s.trace, st.restArg.value)) else None;
    hide Full, CallOrder, M.Exec, FormalArgs;
    SlotValuesConcat(table, n, o, s.trace, FormalArgs(st), st.inits);
    SlotValuesConcat(table, n, o, s.trace, FormalArgs(st) + st.inits, rest);
    if st.restArg.Some? {
      SlotValuesOne(table, n, o, s.trace, st.restArg.value);
    }
    assert |cells| == |st.inits| && (rest == [] ==> SlotValues(table, n, o, s.trace, rest) == []);
    hide SlotValues, SlotValue, OnlyNewLocals;
    var r := M.Exec(t.code, o, s).value;
    assert r.stack == (s.stack + formals) + cells + if tail.Some? then [tail.value] else [];
    if app.fn.sig.rest.Some? {
      M.ExecConcat(t.code, MakeRest(st), o, s);
      ExecMakeRest(st, o, r, s.stack + formals, cells, tail);
      StillOnlyNewLocals(s, r, M.Exec(MakeRest(st), o, r).value, next);
    } else {
      assert t.code + [] == t.code;
    }
  }

  lemma StillOnlyNewLocals(s: M.State, r: M.State, r': M.State, next: nat)
    requires OnlyNewLocals(s, r, next) && r'.heap == r.heap && r'.active == r.active
    ensures OnlyNewLocals(s, r', next)
  {
  }

  /** The code for the arguments of a matched call evaluates each argument once,
      in the order in which the call wrote them, leaves their values where the
      formals expect them, and changes no variable but new temporaries. */
  lemma TransArgsCorrect(env: Env, fn: Ty, call: Call, app: App, next: nat, o: M.Oracle, s: M.State)
    requires ProperlyMatched(env, fn, call, app) && s.active in s.heap
    requires app.st.restArg.Some? && Full(app.st.sequencer, call.Count()) ==>
               SlotValue(app.st.sequencer, call.Count(), o, s.trace, app.st.restArg.value).Array?
    ensures app.fn == fn && (forall k :: 0 <= k < |app.st.args| ==> app.st.args[k].Some?)
    ensures Full(app.st.sequencer, call.Count())
    ensures Order(app.st.sequencer, call.Count(), call.Count()) == CallOrder(call)
    ensures TransArgs(app, next).Some? && M.Exec(TransArgs(app, next).value, o, s).Some?
    ensures var r := M.Exec(TransArgs(app, next).value, o, s).value;
            && r.trace == s.trace + CallOrder(call)
            && r.stack == s.stack + Passed(call, app, o, s.trace)
            && OnlyNewLocals(s, r, next)
  {
    MatchedIsSlotted(env, fn, call, app);
    ArgListIsSlots(app.st);
    hide Match, Slotted, Slots, Full, Order, CallOrder, Translated, TransSlots, ArgList, SlotValue, OnlyNewLocals, Passed;
    SlotsTranslated(call, ArgList(app.st), Slots(app.st), app.st.sequencer, next, o, s);
    FinishTranslation(call, app, next, o, s, TransSlots(Tr(app.st.sequencer, [], [], next), ArgList(app.st)).value);
  }

  /* In the running program. */

  lemma {:induction false} AdvanceStraight(t: Tr, i: nat)
    requires M.Straight(t.code)
    ensures var u := Advance(t, i); u.Some? ==> M.Straight(u.value.code)
    decreases i - |t.temps|
  {
    if |t.temps| < i && Alias(t).Some? {
      AdvanceStraight(Alias(t).value, i);
    }
  }

  lemma {:induction false} SlotsStraight(t: Tr, slots: seq<Arg>)
    requires M.Straight(t.code)
    ensures var u := TransSlots(t, slots); u.Some? ==> M.Straight(u.value.code)
  {
    if slots != [] {
      SlotsStraight(t, slots[..|slots| - 1]);
      var init, a := TransSlots(t, slots[..|slots| - 1]), slots[|slots| - 1];
      if init.Some? && a.Sequenced? {
        AdvanceStraight(init.value, a.evalIndex);
      }
    }
  }

  lemma TransArgsStraight(app: App, next: nat)
    requires app.fn.Function? && forall k :: 0 <= k < |app.st.args| ==> app.st.args[k].Some?
    requires TransArgs(app, next).Some?
    ensures M.Straight(TransArgs(app, next).value)
  {
    hide TransSlots;
    SlotsStraight(Tr(app.st.sequencer, [], [], next), ArgList(app.st));
  }

  /** The same of the running machine: from where the code stands in a program to
      just after it. */
  lemma TransArgsRuns(env: Env, fn: Ty, call: Call, app: App, next: nat, o: M.Oracle, s: M.State, p: seq<M.Instr>) returns (r: M.State)
    requires ProperlyMatched(env, fn, call, app) && s.active in s.heap
    requires app.st.restArg.Some? && Full(app.st.sequencer, call.Count()) ==>
               SlotValue(app.st.sequencer, call.Count(), o, s.trace, app.st.restArg.value).Array?
    requires app.fn == fn && forall k :: 0 <= k < |app.st.args| ==> app.st.args[k].Some?
    requires TransArgs(app, next).Some? ==>
               var code := TransArgs(app, next).value; s.pc + |code| <= |p| && p[s.pc..s.pc + |code|] == code
    ensures TransArgs(app, next).Some? && Full(app.st.sequencer, call.Count())
    ensures M.Reaches(p, o, s, r) && r.pc == s.pc + |TransArgs(app, next).value|
    ensures r.trace == s.trace + CallOrder(call) && r.stack == s.stack + Passed(call, app, o, s.trace)
    ensures OnlyNewLocals(s, r, next)
  {
    hide ProperlyMatched, Full, Order, CallOrder, TransArgs, OnlyNewLocals, Passed, SlotValue, M.Exec, M.Reaches;
    TransArgsCorrect(env, fn, call, app, next, o, s);
    MatchedFunction(env, fn, call, app);
    var code := TransArgs(app, next).value;
    TransArgsStraight(app, next);
    M.ExecRuns(p, o, s, code);
    r := M.Exec(code, o, s).value;
  }

  lemma MatchedFunction(env: Env, fn: Ty, call: Call, app: App)
    requires ProperlyMatched(env, fn, call, app)
    ensures fn.Function?
  {
  }

  /* The one way in which translation can fail. */

  lemma {:induction false} AdvanceStuck(t: Tr, i: nat, n: nat)
    requires |t.temps| <= n < i && !(n < |t.table| && t.table[n].Some?)
    ensures Advance(t, i).None?
    decreases i - |t.temps|
  {
    if Alias(t).Some? {
      AdvanceStuck(Alias(t).value, i, n);
    }
  }

  lemma {:induction false} AdvanceBound(t: Tr, i: nat)
    ensures var u := Advance(t, i); u.Some? ==> |u.value.temps| == if |t.temps| < i then i else |t.temps|
    decreases i - |t.temps|
  {
    if |t.temps| < i && Alias(t).Some? {
      AdvanceBound(Alias(t).value, i);
    }
  }

  lemma {:induction false} TempsBound(t: Tr, slots: seq<Arg>, n: nat)
    requires |t.temps| <= n
    requires forall k :: 0 <= k < |slots| && slots[k].Sequenced? ==> slots[k].evalIndex < n
    ensures var u := TransSlots(t, slots); u.Some? ==> |u.value.temps| <= n
  {
    if slots != [] {
      TempsBound(t, slots[..|slots| - 1], n);
      var u, a := TransSlots(t, slots[..|slots| - 1]), slots[|slots| - 1];
      if u.Some? && a.Sequenced? {
        AdvanceBound(u.value, a.evalIndex);
      }
    }
  }

  lemma MisplacedSlots(env: Env, fn: Ty, call: Call, app: App)
    requires MatchableFn(fn) && call.Valid() && !fn.sig.isOpen && Match(env, fn, call) == Some(app)
    requires call.al.rest.Some? && call.al.restPosition > |call.al.args|
    ensures forall k :: 0 <= k < |app.st.args| ==> app.st.args[k].Some?
    ensures var slots, n, table := ArgList(app.st), |call.al.args|, app.st.sequencer;
            && slots != []
            && slots[|slots| - 1].Sequenced? && slots[|slots| - 1].evalIndex == call.al.restPosition
            && (forall k :: 0 <= k < |slots| - 1 && slots[k].Sequenced? ==> slots[k].evalIndex < n)
            && !(n < |table| && table[n].Some?)
  {
    MatchSignatureSound(env, fn.sig, call);
    RestIsLast(env, fn.sig, call, app.st);
    DueTimesAre(call);
    ArgListIsSlots(app.st);
    hide Fitting, Ordered, MatchSignature, MatchProofs.Scored, DueTimes, Distinct, Registered, Evals, Slots, ArgList;
    MisplacedLast(call, Slots(app.st), app.st.sequencer, ArgList(app.st));
  }

  lemma MisplacedLast(call: Call, l: seq<Option<Arg>>, table: seq<Option<Arg>>, slots: seq<Arg>)
    requires call.Valid() && call.al.rest.Some? && call.al.restPosition > |call.al.args|
    requires Distinct(l) && Registered(l, table)
    requires Evals(l) == Times(call, |call.al.args|) + {call.al.restPosition}
    requires |l| == |slots| > 0 && forall k :: 0 <= k < |l| ==> l[k] == Some(slots[k])
    requires slots[|slots| - 1].Sequenced? && slots[|slots| - 1].evalIndex == call.al.restPosition
    ensures forall k :: 0 <= k < |slots| - 1 && slots[k].Sequenced? ==> slots[k].evalIndex < |call.al.args|
    ensures !(|call.al.args| < |table| && table[|call.al.args|].Some?)
  {
    forall k | 0 <= k < |slots| - 1 && slots[k].Sequenced?
      ensures slots[k].evalIndex < |call.al.args|
    {
      assert Given(l[k]) && l[k].value.evalIndex in Evals(l);
      assert Given(l[|l| - 1]);
    }
  }

  lemma RestIsLast(env: Env, sig: Signature, call: Call, s: AppState)
    requires WellFormed(sig) && call.Valid() && Sound(env, sig, call, s) && call.source.rest.Some?
    ensures ArgList(s) != []
    ensures s.restArg.Some? && s.restArg.value.Sequenced? && s.restArg.value.evalIndex == call.RestIndex()
    ensures ArgList(s)[|ArgList(s)| - 1] == s.restArg.value
  {
    hide Ordered, Accounted;
    assert call.RestIndex() in Evals(Slots(s));
    var k :| 0 <= k < |Slots(s)| && Given(Slots(s)[k]) && Slots(s)[k].value.evalIndex == call.RestIndex();
    if k < |s.args| {
      assert SlotOk(env, sig, call, s, k);
      EvalIndexInverse(call, call.SourceOf(call.RestIndex()));
    } else if k < |s.args| + |s.inits| {
      assert FitsPack(env, sig, call, s.inits[k - |s.args|]);
      EvalIndexInverse(call, call.SourceOf(call.RestIndex()));
    }
  }

  /** The assertions of the sequencer hold exactly when the rest argument is not
      placed past the end of the argument list. */
  lemma TransArgsSucceedsIff(env: Env, fn: Ty, call: Call, app: App, next: nat)
    requires MatchableFn(fn) && call.Valid() && !fn.sig.isOpen && Match(env, fn, call) == Some(app)
    ensures forall k :: 0 <= k < |app.st.args| ==> app.st.args[k].Some?
    ensures app.fn == fn
    ensures TransArgs(app, next).Some? <==> (call.al.rest.Some? ==> call.al.restPosition <= |call.al.args|)
  {
    var slots := ArgListOf(env, fn, call, app);
    var n, t0 := |call.al.args|, Tr(app.st.sequencer, [], [], next);
    if call.al.rest.Some? ==> call.al.restPosition <= n {
      MatchedIsSlotted(env, fn, call, app);
      ArgListIsSlots(app.st);
      var s := M.State(0, [], map[0 := map[]], 0, []);
      SlotsTranslated(call, slots, Slots(app.st), app.st.sequencer, next, (tr, i) => M.Null, s);
    } else {
      MisplacedSlots(env, fn, call, app);
      hide Match;
      TempsBound(t0, slots[..|slots| - 1], n);
      if TransSlots(t0, slots[..|slots| - 1]).Some? {
        AdvanceStuck(TransSlots(t0, slots[..|slots| - 1]).value, call.al.restPosition, n);
      }
    }
  }

  lemma ArgListOf(env: Env, fn: Ty, call: Call, app: App) returns (slots: seq<Arg>)
    requires MatchableFn(fn) && call.Valid() && !fn.sig.isOpen && Match(env, fn, call) == Some(app)
    ensures app.fn == fn
    ensures forall k :: 0 <= k < |app.st.args| ==> app.st.args[k].Some?
    ensures slots == ArgList(app.st)
  {
    MatchSignatureSound(env, fn.sig, call);
    slots := ArgList(app.st);
  }

  /* f(KEY="k" ... a), once the key is removed from the arguments: the rest
     argument alone, at the position it was written at. */

  const REST_TYPE := Array(Primitive(0))
  const REST_ONLY := Function(Primitive(0), Signature([], 0, Some(Formal(REST_TYPE, None, false, false)), false, false))
  const KEY_REMOVED := Call(Signature([], 0, Some(Formal(REST_TYPE, None, false, false)), false, false), Arglist([], Some(0), 1))
  const NO_CASTS := Env(Equivalent, (target, source) => false, t => false)

  /** A call that matches but whose arguments cannot be translated: the sequencer
      waits for an argument that is not there. */
  lemma KeyRemovedFails(next: nat)
    ensures KEY_REMOVED.Valid() && MatchableFn(REST_ONLY)
    ensures Match(NO_CASTS, REST_ONLY, KEY_REMOVED).Some?
    ensures var app := Match(NO_CASTS, REST_ONLY, KEY_REMOVED).value;
            app.fn.Function? && app.st.args == [] && TransArgs(app, next).None?
  {
    EquivalenceRelation(REST_TYPE, REST_TYPE, REST_TYPE);
    var app := Match(NO_CASTS, REST_ONLY, KEY_REMOVED).value;
    TransArgsSucceedsIff(NO_CASTS, REST_ONLY, KEY_REMOVED, app, next);
  }
}
