/** Matching the arguments of a call to the formals of one function: the
    fields and methods of the class `application`, each method proved against
    a function on the value of those fields. */
module Applications {
  import opened Options
  import opened Types

  const FAIL: nat := 0
  const EXACT: nat := 1
  const CAST: nat := 2
  const PACKED: nat := 2

  /** The part of the type environment that matching consults.  The relations
      are arbitrary, so an argument may well have an overloaded type. */
  datatype Env = Env(equivalent: (Ty, Ty) -> bool, fastCastable: (Ty, Ty) -> bool, isError: Ty -> bool)

  // A handle for the abstract syntax of an argument.
  type Exp = nat

  // rest is written at restPosition; named arguments may follow it.
  datatype Arglist = Arglist(args: seq<Exp>, rest: Option<Exp>, restPosition: nat)

  /** A call: the types and names of its arguments, and the arguments. */
  datatype Call = Call(source: Signature, al: Arglist)
  {
    predicate Valid() {
      && |al.args| == |source.formals|
      && (al.rest.Some? <==> source.rest.Some?)
    }

    function RestIndex(): nat { if al.rest.Some? then al.restPosition else |source.formals| }

    // When argument i is to be evaluated.
    function EvalIndex(i: nat): nat { AdjustIndex(i, RestIndex()) }

    // The argument evaluated at time e.
    function SourceOf(e: nat): int { if e < RestIndex() then e else e - 1 }

    // The number of arguments given, including the rest argument.
    function Count(): nat { |source.formals| + if source.rest.Some? then 1 else 0 }
  }

  function AdjustIndex(i: nat, ri: nat): nat {
    if i < ri then i else i + 1
  }

  datatype Arg =
    | Sequenced(val: Exp, t: Ty, evalIndex: nat)
    | DefaultArg(t: Ty)
    | Plain(val: Exp, t: Ty)

  /** The fields of an application that matching updates: the argument chosen
      for each formal, the first unfilled formal, the scores so far, the rest
      argument under construction, and the sequencer's table. */
  datatype AppState = AppState(args: seq<Option<Arg>>, index: nat, scores: seq<nat>,
                               inits: seq<Arg>, restArg: Option<Arg>, sequencer: seq<Option<Arg>>)

  datatype App = App(fn: Ty, st: AppState)
  {
    predicate IsOpen() { fn.Function? && fn.sig.isOpen }
  }

  predicate WellFormed(sig: Signature) {
    && sig.numKeywordOnly <= |sig.formals|
    && (sig.rest.Some? ==> sig.rest.value.t.Array?)
  }

  // The target for arguments packed into the rest array.
  function RestTarget(sig: Signature): Formal
    requires sig.rest.Some? && WellFormed(sig)
  {
    Formal(sig.rest.value.t.cell, None, false, sig.rest.value.explicit)
  }

  predicate Shape(sig: Signature, s: AppState) {
    |s.args| == |sig.formals| && s.index <= |s.args|
  }

  function CastScore(env: Env, target: Formal, source: Formal): nat {
    if env.equivalent(target.t, source.t) then EXACT
    else if !target.explicit && env.fastCastable(target.t, source.t) then CAST
    else FAIL
  }

  /* The sequencer's table, grown on demand. */
  function Register(table: seq<Option<Arg>>, i: nat, a: Arg): (r: seq<Option<Arg>>)
    ensures i < |r| && r[i] == Some(a) && |table| <= |r|
    ensures forall j :: 0 <= j < |r| && j != i ==> r[j] == if j < |table| then table[j] else None
  {
    (if |table| <= i then table + seq(i + 1 - |table|, _ => None) else table)[i := Some(a)]
  }

  function FirstUnfilled(args: seq<Option<Arg>>, i: nat): (r: nat)
    requires i <= |args|
    ensures i <= r <= |args|
    ensures forall k :: i <= k < r ==> args[k].Some?
    ensures r < |args| ==> args[r].None?
    decreases |args| - i
  {
    if i < |args| && args[i].Some? then FirstUnfilled(args, i + 1) else i
  }

  function FindSpot(sig: Signature, args: seq<Option<Arg>>, name: Symbol, i: nat): (r: Option<nat>)
    requires |args| == |sig.formals| && i <= |args|
    ensures r.Some? ==> i <= r.value < |args| && args[r.value].None? && sig.formals[r.value].name == Some(name)
    ensures forall k :: i <= k < (if r.Some? then r.value else |args|) ==> args[k].Some? || sig.formals[k].name != Some(name)
    decreases |args| - i
  {
    if i == |args| then None
    else if sig.formals[i].name == Some(name) && args[i].None? then Some(i)
    else FindSpot(sig, args, name, i + 1)
  }

  function FillDefault(sig: Signature, s: AppState): Option<AppState>
    requires Shape(sig, s)
  {
    if s.index == |s.args| || !sig.formals[s.index].defval then None
    else
      var args := s.args[s.index := Some(DefaultArg(sig.formals[s.index].t))];
      Some(s.(args := args, index := FirstUnfilled(args, s.index + 1)))
  }

  function PackIntoRest(env: Env, sig: Signature, s: AppState, source: Formal, a: Exp, e: nat): Option<AppState>
    requires WellFormed(sig)
  {
    if sig.rest.None? then None
    else
      var score := CastScore(env, RestTarget(sig), source);
      if score == FAIL then None
      else
        var arg := Sequenced(a, RestTarget(sig).t, e);
        Some(s.(inits := s.inits + [arg], sequencer := Register(s.sequencer, e, arg), scores := s.scores + [score + PACKED]))
  }

  // What MatchAtSpot does once the argument is known to fit.
  function Place(sig: Signature, s: AppState, spot: nat, a: Exp, e: nat, score: nat): AppState
    requires Shape(sig, s) && spot < |s.args|
  {
    var arg := Sequenced(a, sig.formals[spot].t, e);
    var args := s.args[spot := Some(arg)];
    s.(args := args,
       index := if spot == s.index then FirstUnfilled(args, s.index + 1) else s.index,
       sequencer := Register(s.sequencer, e, arg),
       scores := s.scores + [score])
  }

  predicate Fits(env: Env, sig: Signature, spot: nat, source: Formal)
    requires spot < |sig.formals|
  {
    && !env.isError(sig.formals[spot].t)
    && CastScore(env, sig.formals[spot], source) != FAIL
    && !(sig.KeywordOnly(spot) && source.name.None?)
  }

  function MatchAtSpot(env: Env, sig: Signature, s: AppState, spot: nat, source: Formal, a: Exp, e: nat): Option<AppState>
    requires Shape(sig, s) && spot < |s.args|
  {
    if Fits(env, sig, spot, source)
    then Some(Place(sig, s, spot, a, e, CastScore(env, sig.formals[spot], source)))
    else None
  }

  function MatchArgument(env: Env, sig: Signature, s: AppState, source: Formal, a: Exp, e: nat): (r: Option<AppState>)
    requires WellFormed(sig) && Shape(sig, s)
    ensures r.Some? ==> Shape(sig, r.value)
    decreases |s.args| - s.index
  {
    if s.index == |s.args| then PackIntoRest(env, sig, s, source, a, e)
    else
      var here := MatchAtSpot(env, sig, s, s.index, source, a, e);
      if here.Some? then here
      else
        var next := FillDefault(sig, s);
        if next.None? then None else MatchArgument(env, sig, next.value, source, a, e)
  }

  function MatchNamedArgument(env: Env, sig: Signature, s: AppState, source: Formal, a: Exp, e: nat): (r: Option<AppState>)
    requires Shape(sig, s) && source.name.Some?
    ensures r.Some? ==> Shape(sig, r.value)
  {
    var spot := FindSpot(sig, s.args, source.name.value, s.index);
    if spot.None? then None else MatchAtSpot(env, sig, s, spot.value, source, a, e)
  }

  function Complete(sig: Signature, s: AppState): (r: Option<AppState>)
    requires Shape(sig, s)
    ensures r.Some? ==> Shape(sig, r.value) && r.value.index == |sig.formals|
    decreases |s.args| - s.index
  {
    if s.index == |s.args| then Some(s)
    else
      var next := FillDefault(sig, s);
      if next.None? then None else Complete(sig, next.value)
  }

  function MatchRest(env: Env, sig: Signature, s: AppState, source: Formal, a: Exp, e: nat): (r: Option<AppState>)
    requires Shape(sig, s)
    ensures r.Some? ==> Shape(sig, r.value)
  {
    var done := Complete(sig, s);
    if done.None? || sig.rest.None? then None
    else
      var score := CastScore(env, sig.rest.value, source);
      if score == FAIL then None
      else
        var arg := Sequenced(a, sig.rest.value.t, e);
        Some(done.value.(restArg := Some(arg), sequencer := Register(done.value.sequencer, e, arg),
                         scores := done.value.scores + [score]))
  }

  function MatchNamed(env: Env, sig: Signature, call: Call, i: nat, s: AppState): (r: Option<AppState>)
    requires Shape(sig, s) && call.Valid() && i <= |call.source.formals|
    ensures r.Some? ==> Shape(sig, r.value)
    decreases |call.source.formals| - i
  {
    if i == |call.source.formals| then Some(s)
    else if call.source.formals[i].name.None? then MatchNamed(env, sig, call, i + 1, s)
    else
      var next := MatchNamedArgument(env, sig, s, call.source.formals[i], call.al.args[i], call.EvalIndex(i));
      if next.None? then None else MatchNamed(env, sig, call, i + 1, next.value)
  }

  function MatchUnnamed(env: Env, sig: Signature, call: Call, i: nat, s: AppState): (r: Option<AppState>)
    requires WellFormed(sig) && Shape(sig, s) && call.Valid() && i <= |call.source.formals|
    ensures r.Some? ==> Shape(sig, r.value)
    decreases |call.source.formals| - i
  {
    if i == |call.source.formals| then Some(s)
    else if call.source.formals[i].name.Some? then MatchUnnamed(env, sig, call, i + 1, s)
    else
      var next := MatchArgument(env, sig, s, call.source.formals[i], call.al.args[i], call.EvalIndex(i));
      if next.None? then None else MatchUnnamed(env, sig, call, i + 1, next.value)
  }

  function MatchRestOfCall(env: Env, sig: Signature, call: Call, s: AppState): (r: Option<AppState>)
    requires Shape(sig, s) && call.Valid()
    ensures r.Some? ==> Shape(sig, r.value)
  {
    if call.source.rest.None? then Some(s)
    else MatchRest(env, sig, s, call.source.rest.value, call.al.rest.value, call.RestIndex())
  }

  function Blank(sig: Signature): (s: AppState)
    ensures Shape(sig, s)
  {
    AppState(seq(|sig.formals|, _ => None), 0, [], [], None, [])
  }

  function MatchSignature(env: Env, sig: Signature, call: Call): (r: Option<AppState>)
    requires WellFormed(sig) && call.Valid()
    ensures r.Some? ==> Shape(sig, r.value)
  {
    var named := MatchNamed(env, sig, call, 0, Blank(sig));
    if named.None? then None
    else
      var unnamed := MatchUnnamed(env, sig, call, 0, named.value);
      if unnamed.None? then None
      else
        var rest := MatchRestOfCall(env, sig, call, unnamed.value);
        if rest.None? then None else Complete(sig, rest.value)
  }

  // Open signatures take any sequence of arguments, packed into the rest.
  function MatchOpen(sig: Signature, call: Call, i: nat, s: AppState): Option<AppState>
    requires call.Valid() && i <= |call.source.formals|
    decreases |call.source.formals| - i
  {
    if i == |call.source.formals| then
      Some(if call.source.rest.None? then s
           else s.(restArg := Some(Plain(call.al.rest.value, call.source.rest.value.t))))
    else if call.source.formals[i].name.Some? && !sig.openTakesNames then None
    else
      var arg := Sequenced(call.al.args[i], call.source.formals[i].t, i);
      MatchOpen(sig, call, i + 1, s.(inits := s.inits + [arg], sequencer := Register(s.sequencer, i, arg)))
  }

  predicate MatchableFn(fn: Ty) {
    fn.Function? && WellFormed(fn.sig)
  }

  function Match(env: Env, fn: Ty, call: Call): Option<App>
    requires MatchableFn(fn) && call.Valid()
  {
    var st := if fn.sig.isOpen then MatchOpen(fn.sig, call, 0, Blank(fn.sig)) else MatchSignature(env, fn.sig, call);
    if st.None? then None else Some(App(fn, st.value))
  }

  class Application {
    const fn: Ty
    const sig: Signature
    var args: seq<Option<Arg>>
    var index: nat
    var scores: seq<nat>
    var inits: seq<Arg>
    var restArg: Option<Arg>
    var sequencer: seq<Option<Arg>>

    ghost predicate Valid()
      reads this
    {
      WellFormed(sig) && Shape(sig, State())
    }

    function State(): AppState
      reads this
    {
      AppState(args, index, scores, inits, restArg, sequencer)
    }

    constructor (fn: Ty)
      requires MatchableFn(fn)
      ensures Valid() && this.fn == fn && sig == fn.sig
      ensures State() == Blank(sig)
    {
      this.fn := fn;
      sig := fn.sig;
      args := seq(|fn.sig.formals|, _ => None);
      index := 0;
      scores := [];
      inits := [];
      restArg := None;
      sequencer := [];
    }

    // sequencer::addArg
    method AddArg(a: Exp, t: Ty, e: nat) returns (arg: Arg)
      modifies this`sequencer
      ensures arg == Sequenced(a, t, e)
      ensures sequencer == Register(old(sequencer), e, arg)
    {
      arg := Sequenced(a, t, e);
      if |sequencer| <= e {
        sequencer := sequencer + seq(e + 1 - |sequencer|, _ => None);
      }
      sequencer := sequencer[e := Some(arg)];
    }

    method AdvanceIndex()
      requires index < |args|
      modifies this`index
      ensures index == FirstUnfilled(args, old(index) + 1)
    {
      index := index + 1;
      while index < |args| && args[index].Some?
        invariant old(index) < index <= |args|
        invariant FirstUnfilled(args, index) == FirstUnfilled(args, old(index) + 1)
        decreases |args| - index
      {
        index := index + 1;
      }
    }

    method Find(name: Symbol) returns (spot: Option<nat>)
      requires Valid()
      ensures spot == FindSpot(sig, args, name, index)
    {
      var i := index;
      while i < |sig.formals|
        invariant index <= i <= |sig.formals|
        invariant FindSpot(sig, args, name, i) == FindSpot(sig, args, name, index)
      {
        if sig.formals[i].name == Some(name) && args[i].None? {
          return Some(i);
        }
        i := i + 1;
      }
      return None;
    }

    method TryDefault() returns (ok: bool)
      requires Valid()
      modifies this
      ensures Valid()
      ensures var r := FillDefault(sig, old(State())); ok == r.Some? && State() == if ok then r.value else old(State())
    {
      if index == |args| {
        return false;
      }
      var target := sig.formals[index];
      if target.defval {
        args := args[index := Some(DefaultArg(target.t))];
        AdvanceIndex();
        return true;
      }
      return false;
    }

    method TryRestPacking(env: Env, source: Formal, a: Exp, e: nat) returns (ok: bool)
      requires Valid()
      modifies this
      ensures Valid()
      ensures var r := PackIntoRest(env, sig, old(State()), source, a, e);
              ok == r.Some? && State() == if ok then r.value else old(State())
    {
      if sig.rest.Some? {
        var s := CastScore(env, RestTarget(sig), source);
        if s != FAIL {
          var arg := AddArg(a, RestTarget(sig).t, e);
          inits := inits + [arg];
          scores := scores + [s + PACKED];
          return true;
        }
      }
      return false;
    }

    method TrySpot(spot: nat, env: Env, source: Formal, a: Exp, e: nat) returns (ok: bool)
      requires Valid() && spot < |args|
      modifies this
      ensures Valid()
      ensures var r := MatchAtSpot(env, sig, old(State()), spot, source, a, e);
              ok == r.Some? && State() == if ok then r.value else old(State())
    {
      var target := sig.formals[spot];
      if env.isError(target.t) {
        return false;
      }
      var s := CastScore(env, target, source);
      if s == FAIL {
        return false;
      } else if sig.KeywordOnly(spot) && source.name.None? {
        return false;
      }
      var arg := AddArg(a, target.t, e);
      args := args[spot := Some(arg)];
      if spot == index {
        AdvanceIndex();
      }
      scores := scores + [s];
      return true;
    }

    // When the match fails, some formals may already hold their defaults.
    method TryArgument(env: Env, source: Formal, a: Exp, e: nat) returns (ok: bool)
      requires Valid()
      modifies this
      ensures Valid()
      ensures var r := MatchArgument(env, sig, old(State()), source, a, e);
              ok == r.Some? && (ok ==> State() == r.value)
      decreases |args| - index
    {
      if index == |args| {
        ok := TryRestPacking(env, source, a, e);
        return;
      }
      ok := TrySpot(index, env, source, a, e);
      if !ok {
        ok := TryDefault();
        if ok {
          ok := TryArgument(env, source, a, e);
        }
      }
    }

    method TryNamedArgument(env: Env, source: Formal, a: Exp, e: nat) returns (ok: bool)
      requires Valid() && source.name.Some?
      modifies this
      ensures Valid()
      ensures var r := MatchNamedArgument(env, sig, old(State()), source, a, e);
              ok == r.Some? && (ok ==> State() == r.value)
    {
      var spot := Find(source.name.value);
      if spot.None? {
        return false;
      }
      ok := TrySpot(spot.value, env, source, a, e);
    }

    method TryComplete() returns (ok: bool)
      requires Valid()
      modifies this
      ensures Valid()
      ensures var r := Complete(sig, old(State())); ok == r.Some? && (ok ==> State() == r.value)
      decreases |args| - index
    {
      if index == |args| {
        return true;
      }
      ok := TryDefault();
      if ok {
        ok := TryComplete();
      }
    }

    method TryRest(env: Env, source: Formal, a: Exp, e: nat) returns (ok: bool)
      requires Valid()
      modifies this
      ensures Valid()
      ensures var r := MatchRest(env, sig, old(State()), source, a, e);
              ok == r.Some? && (ok ==> State() == r.value)
    {
      ok := TryComplete();
      if ok && sig.rest.Some? {
        var target := sig.rest.value;
        var s := CastScore(env, target, source);
        if s != FAIL {
          var arg := AddArg(a, target.t, e);
          restArg := Some(arg);
          scores := scores + [s];
          return true;
        }
      }
      return false;
    }

    // The two passes of matchSignature over the arguments of the call.
    method TryNamedPass(env: Env, call: Call) returns (ok: bool)
      requires Valid() && call.Valid()
      modifies this
      ensures Valid()
      ensures var r := MatchNamed(env, sig, call, 0, old(State())); ok == r.Some? && (ok ==> State() == r.value)
    {
      var f := call.source.formals;
      var i := 0;
      while i < |f|
        invariant 0 <= i <= |f| && Valid()
        invariant MatchNamed(env, sig, call, 0, old(State())) == MatchNamed(env, sig, call, i, State())
      {
        if f[i].name.Some? {
          var matched := TryNamedArgument(env, f[i], call.al.args[i], call.EvalIndex(i));
          if !matched {
            return false;
          }
        }
        i := i + 1;
      }
      return true;
    }

    method TryUnnamedPass(env: Env, call: Call) returns (ok: bool)
      requires Valid() && call.Valid()
      modifies this
      ensures Valid()
      ensures var r := MatchUnnamed(env, sig, call, 0, old(State())); ok == r.Some? && (ok ==> State() == r.value)
    {
      var f := call.source.formals;
      var i := 0;
      while i < |f|
        invariant 0 <= i <= |f| && Valid()
        invariant MatchUnnamed(env, sig, call, 0, old(State())) == MatchUnnamed(env, sig, call, i, State())
      {
        if f[i].name.None? {
          var matched := TryArgument(env, f[i], call.al.args[i], call.EvalIndex(i));
          if !matched {
            return false;
          }
        }
        i := i + 1;
      }
      return true;
    }

    method TrySignature(env: Env, call: Call) returns (ok: bool)
      requires Valid() && call.Valid() && State() == Blank(sig)
      modifies this
      ensures Valid()
      ensures var r := MatchSignature(env, sig, call); ok == r.Some? && (ok ==> State() == r.value)
    {
      ok := TryNamedPass(env, call);
      if ok {
        ok := TryUnnamedPass(env, call);
        if ok {
          if call.source.rest.Some? {
            ok := TryRest(env, call.source.rest.value, call.al.rest.value, call.RestIndex());
          }
          if ok {
            ok := TryComplete();
          }
        }
      }
    }

    method TryOpen(call: Call) returns (ok: bool)
      requires Valid() && call.Valid() && State() == Blank(sig)
      modifies this
      ensures var r := MatchOpen(sig, call, 0, Blank(sig)); ok == r.Some? && (ok ==> State() == r.value)
    {
      var f := call.source.formals;
      var i := 0;
      while i < |f|
        invariant 0 <= i <= |f|
        invariant MatchOpen(sig, call, 0, Blank(sig)) == MatchOpen(sig, call, i, State())
      {
        if f[i].name.Some? && !sig.openTakesNames {
          return false;
        }
        var arg := AddArg(call.al.args[i], f[i].t, i);
        inits := inits + [arg];
        i := i + 1;
      }
      if call.source.rest.Some? {
        restArg := Some(Plain(call.al.rest.value, call.source.rest.value.t));
      }
      return true;
    }
  }

  /** application::match */
  method MatchCall(env: Env, fn: Ty, call: Call) returns (r: Option<App>)
    requires MatchableFn(fn) && call.Valid()
    ensures r == Match(env, fn, call)
  {
    var app := new Application(fn);
    var success;
    if fn.sig.isOpen {
      success := app.TryOpen(call);
    } else {
      success := app.TrySignature(env, call);
    }
    if success {
      return Some(App(fn, app.State()));
    }
    return None;
  }
}
