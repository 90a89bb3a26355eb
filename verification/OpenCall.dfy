/** Calls of open functions, which take any arguments as one array. */
module OpenCalls {
  import opened Options
  import opened Types
  import opened Applications
  import opened Sequencers
  import SequencerProofs
  import M = Machine

  predicate NamesArguments(source: Signature) {
    exists i :: 0 <= i < |source.formals| && source.formals[i].name.Some?
  }

  // Argument i of the call as an open function takes it: as it is.
  function AsGiven(call: Call, i: nat): Arg
    requires call.Valid() && i < |call.al.args|
  {
    Sequenced(call.al.args[i], call.source.formals[i].t, i)
  }

  // The first i arguments have been packed.
  predicate PackedUpTo(sig: Signature, call: Call, i: nat, s: AppState)
    requires call.Valid()
  {
    && |s.inits| == |s.sequencer| == i <= |call.al.args|
    && s.args == Blank(sig).args && s.scores == [] && s.restArg.None?
    && forall k :: 0 <= k < i ==> s.inits[k] == AsGiven(call, k) && s.sequencer[k] == Some(AsGiven(call, k))
  }

  /** Everything is packed in the order of the call, the rest argument follows, and
      no score is given; names are refused unless the function takes them. */
  lemma {:induction false} OpenMatches(sig: Signature, call: Call, i: nat, s: AppState)
    requires call.Valid() && PackedUpTo(sig, call, i, s)
    ensures var r, n, f := MatchOpen(sig, call, i, s), |call.al.args|, call.source.formals;
            && (r.Some? <==> sig.openTakesNames || forall k :: i <= k < n ==> f[k].name.None?)
            && (r.Some? ==>
                  && PackedUpTo(sig, call, n, r.value.(restArg := None))
                  && r.value.restArg == if call.al.rest.None? then None
                                        else Some(Plain(call.al.rest.value, call.source.rest.value.t)))
    decreases |call.al.args| - i
  {
    if i < |call.al.args| && (sig.openTakesNames || call.source.formals[i].name.None?) {
      var arg := AsGiven(call, i);
      OpenMatches(sig, call, i + 1, s.(inits := s.inits + [arg], sequencer := Register(s.sequencer, i, arg)));
    }
  }

  /** An open function matches every call, unless it names arguments and the
      function does not take names. */
  lemma OpenMatchIff(env: Env, fn: Ty, call: Call)
    requires MatchableFn(fn) && fn.sig.isOpen && call.Valid()
    ensures Match(env, fn, call).Some? <==> fn.sig.openTakesNames || !NamesArguments(call.source)
  {
    OpenMatches(fn.sig, call, 0, Blank(fn.sig));
  }

  // The expressions in the order in which an open call evaluates them.
  function Given(call: Call): seq<Exp> {
    call.al.args + if call.al.rest.Some? then [call.al.rest.value] else []
  }

  function Evals(exps: seq<Exp>): (code: seq<M.Instr>)
    ensures |code| == |exps|
  {
    seq(|exps|, k requires 0 <= k < |exps| => M.Eval(exps[k]))
  }

  // Their values, each depending on those evaluated before.
  function Values(o: M.Oracle, trace: seq<nat>, exps: seq<Exp>): (v: seq<M.Value>)
    ensures |v| == |exps|
  {
    seq(|exps|, k requires 0 <= k < |exps| => o(trace + exps[..k], exps[k]))
  }

  lemma {:induction false} EvalsRun(exps: seq<Exp>, o: M.Oracle, s: M.State)
    ensures M.Exec(Evals(exps), o, s) ==
            Some(M.State(s.pc + |exps|, s.stack + Values(o, s.trace, exps), s.heap, s.active, s.trace + exps))
  {
    if exps == [] {
      assert s.stack + Values(o, s.trace, exps) == s.stack && s.trace + exps == s.trace;
    } else {
      var n := |exps| - 1;
      EvalsRun(exps[..n], o, s);
      assert Evals(exps)[..n] == Evals(exps[..n]);
      assert s.stack + Values(o, s.trace, exps)
             == s.stack + Values(o, s.trace, exps[..n]) + [o(s.trace + exps[..n], exps[n])] by {
        assert forall k :: 0 <= k < n ==> exps[..n][..k] == exps[..k];
      }
      assert s.trace + exps == s.trace + exps[..n] + [exps[n]];
    }
  }

  // The record of k arguments evaluated without temporaries.
  function InPlace(k: nat): (temps: seq<Option<nat>>)
    ensures |temps| == k
  {
    seq(k, _ => None)
  }

  lemma OneInOrder(t: Tr, a: Arg)
    requires a.Sequenced? && a.evalIndex == |t.temps| < |t.table| && t.table[a.evalIndex] == Some(a)
    ensures TransSlot(t, a) == Some(t.(code := t.code + [M.Eval(a.val)], temps := t.temps + [None]))
  {
  }

  // Arguments taken in the order of the call need no temporaries.
  lemma {:induction false} SlotsInOrder(call: Call, table: seq<Option<Arg>>, slots: seq<Arg>, k: nat, next: nat)
    requires call.Valid() && k <= |slots| == |table| == |call.al.args|
    requires forall i :: 0 <= i < |slots| ==> slots[i] == AsGiven(call, i) && table[i] == Some(slots[i])
    ensures TransSlots(Tr(table, [], [], next), slots[..k]) ==
            Some(Tr(table, InPlace(k), Evals(call.al.args[..k]), next))
  {
    if k > 0 {
      hide TransSlot;
      SlotsInOrder(call, table, slots, k - 1, next);
      assert slots[..k][..k - 1] == slots[..k - 1];
      OneInOrder(Tr(table, InPlace(k - 1), Evals(call.al.args[..k - 1]), next), slots[k - 1]);
      assert Evals(call.al.args[..k]) == Evals(call.al.args[..k - 1]) + [M.Eval(call.al.args[k - 1])];
      assert InPlace(k) == InPlace(k - 1) + [None];
    }
  }

  // An open function without formals, as its signature is made.
  predicate OpenMatched(env: Env, fn: Ty, call: Call, app: App) {
    && MatchableFn(fn) && fn.sig.isOpen && fn.sig.formals == [] && call.Valid() && Match(env, fn, call) == Some(app)
  }

  lemma OpenMatchedIs(env: Env, fn: Ty, call: Call, app: App)
    requires OpenMatched(env, fn, call, app)
    ensures app.fn == fn && app.st.args == []
    ensures PackedUpTo(fn.sig, call, |call.al.args|, app.st.(restArg := None))
    ensures app.st.restArg == if call.al.rest.None? then None else Some(Plain(call.al.rest.value, call.source.rest.value.t))
  {
    hide MatchOpen;
    OpenMatches(fn.sig, call, 0, Blank(fn.sig));
  }

  lemma OpenSlots(env: Env, fn: Ty, call: Call, app: App, next: nat)
    requires OpenMatched(env, fn, call, app)
    ensures app.st.args == []
    ensures TransSlots(Tr(app.st.sequencer, [], [], next), ArgList(app.st)) ==
            Some(Tr(app.st.sequencer, InPlace(|call.al.args|), Evals(Given(call)), next))
  {
    OpenMatchedIs(env, fn, call, app);
    hide Match, TransSlots;
    var st, args := app.st, call.al.args;
    SlotsInOrder(call, st.sequencer, st.inits, |args|, next);
    assert st.inits[..|args|] == st.inits && args[..|args|] == args;
    assert FormalArgs(st) == [];
    if call.al.rest.Some? {
      var start := Tr(st.sequencer, [], [], next);
      assert ArgList(st) == st.inits + [st.restArg.value];
      PlainLast(start, st.inits, st.restArg.value);
      assert Evals(Given(call)) == Evals(args) + [M.Eval(call.al.rest.value)];
    } else {
      assert ArgList(st) == st.inits;
      assert Given(call) == args;
    }
  }

  lemma PlainLast(t: Tr, slots: seq<Arg>, a: Arg)
    requires a.Plain? && TransSlots(t, slots).Some?
    ensures var u := TransSlots(t, slots).value; TransSlots(t, slots + [a]) == Some(u.(code := u.code + [M.Eval(a.val)]))
  {
    assert (slots + [a])[..|slots|] == slots;
  }

  lemma OpenCode(env: Env, fn: Ty, call: Call, app: App, next: nat)
    requires OpenMatched(env, fn, call, app)
    ensures app.fn == fn && app.st.args == []
    ensures TransArgs(app, next) ==
            Some(Evals(Given(call)) + [M.IntPush(|call.al.args|),
                                       M.Call(if call.al.rest.Some? then M.NewAppendedArray else M.NewInitializedArray)])
  {
    hide Match, TransSlots, ArgList, Given;
    OpenMatchedIs(env, fn, call, app);
    OpenSlots(env, fn, call, app, next);
  }

  // What the rest argument adds to the array.
  function RestElems(call: Call, o: M.Oracle, trace: seq<nat>): (v: seq<M.Value>) {
    if call.al.rest.None? then []
    else
      var v := o(trace + call.al.args, call.al.rest.value);
      if v.Array? then v.elems else []
  }

  /** The code for the arguments of an open function evaluates them once each, in
      order and the rest argument last, and leaves exactly one array: their values in
      that order, then the elements of the rest argument.  No variable changes. */
  lemma OpenArgsCorrect(env: Env, fn: Ty, call: Call, app: App, next: nat, o: M.Oracle, s: M.State)
    requires OpenMatched(env, fn, call, app)
    requires call.al.rest.Some? ==> o(s.trace + call.al.args, call.al.rest.value).Array?
    ensures app.fn == fn && app.st.args == []
    ensures TransArgs(app, next).Some? && M.Exec(TransArgs(app, next).value, o, s).Some?
    ensures var r := M.Exec(TransArgs(app, next).value, o, s).value;
            && r.trace == s.trace + Given(call)
            && r.stack == s.stack + [M.Array(Values(o, s.trace, call.al.args) + RestElems(call, o, s.trace))]
            && r.heap == s.heap && r.active == s.active
  {
    OpenCode(env, fn, call, app, next);
    hide Match, TransArgs, M.Exec, M.Do;
    var n, given := |call.al.args|, Given(call);
    var maker := if call.al.rest.Some? then M.NewAppendedArray else M.NewInitializedArray;
    EvalsRun(given, o, s);
    var r := M.Exec(Evals(given), o, s).value;
    M.ExecConcat(Evals(given), [M.IntPush(n), M.Call(maker)], o, s);
    GivenValues(call, o, s.trace);
    MakesArray(o, r, s.stack, Values(o, s.trace, call.al.args),
               if call.al.rest.Some? then Some(o(s.trace + call.al.args, call.al.rest.value)) else None);
  }

  lemma GivenValues(call: Call, o: M.Oracle, trace: seq<nat>)
    ensures Values(o, trace, Given(call)) == Values(o, trace, call.al.args)
            + if call.al.rest.Some? then [o(trace + call.al.args, call.al.rest.value)] else []
  {
    var given, n := Given(call), |call.al.args|;
    assert forall k :: 0 <= k <= n ==> given[..k] == call.al.args[..k];
    assert call.al.args[..n] == call.al.args;
  }

  lemma MakesArray(o: M.Oracle, r: M.State, base: seq<M.Value>, cells: seq<M.Value>, tail: Option<M.Value>)
    requires tail.Some? ==> tail.value.Array?
    requires r.stack == base + (cells + if tail.Some? then [tail.value] else [])
    ensures M.Exec([M.IntPush(|cells|), M.Call(if tail.Some? then M.NewAppendedArray else M.NewInitializedArray)], o, r)
            == Some(r.(pc := r.pc + 2, stack := base + [M.Array(cells + if tail.Some? then tail.value.elems else [])]))
  {
    var push, call := M.IntPush(|cells|), M.Call(if tail.Some? then M.NewAppendedArray else M.NewInitializedArray);
    M.ExecOne(push, o, r);
    var r1 := M.Do(push, o, r).value;
    M.ExecOne(call, o, r1);
    assert [push, call] == [push] + [call];
    M.ExecConcat([push], [call], o, r);
    assert r1.stack[|base|..|base| + |cells|] == cells && r1.stack[..|base|] == base;
  }

  /** With the rest argument last, as it is when nothing is named, the order is that
      of the call. */
  lemma GivenIsCallOrder(call: Call)
    requires call.Valid() && (call.al.rest.Some? ==> call.al.restPosition == |call.al.args|)
    ensures Given(call) == SequencerProofs.CallOrder(call)
  {
  }
}
