/** Overload resolution: the general method, which matches every overload and
    keeps the most specific, and the two fast paths tried before it. */
module Multimatch {
  import opened Options
  import opened Types
  import opened Applications
  import opened Maximizers

  predicate AllExact(scores: seq<nat>) {
    forall i :: 0 <= i < |scores| ==> scores[i] == EXACT
  }

  predicate Exact(a: App) {
    !a.IsOpen() && AllExact(a.st.scores)
  }

  predicate HalfExact(a: App) {
    && !a.IsOpen()
    && |a.st.scores| == 2
    && (a.st.scores == [EXACT, CAST] || a.st.scores == [CAST, EXACT])
  }

  predicate NamedFormals(sig: Signature) {
    exists i :: 0 <= i < |sig.formals| && sig.formals[i].name.Some?
  }

  // Walks the formals and the arguments together, without any casts.
  predicate ExactWalk(env: Env, formals: seq<Formal>, args: seq<Formal>, fi: nat, ai: nat)
    requires fi <= |formals| && ai <= |args|
    decreases |formals| - fi
  {
    if fi == |formals| then ai == |args|
    else if ai < |args| && env.equivalent(formals[fi].t, args[ai].t) then ExactWalk(env, formals, args, fi + 1, ai + 1)
    else formals[fi].defval && ExactWalk(env, formals, args, fi + 1, ai)
  }

  predicate ExactMightMatch(env: Env, target: Signature, source: Signature) {
    && !target.isOpen
    && ExactWalk(env, target.formals, source.formals, 0, 0)
    && (source.rest.Some? ==> target.rest.Some? && env.equivalent(source.rest.value.t, target.rest.value.t))
  }

  predicate HalfExactMightMatch(env: Env, target: Signature, t1: Ty, t2: Ty) {
    if |target.formals| < 2 then false
    else if |target.formals| > 2 then true
    else if env.equivalent(target.formals[0].t, t1) then env.fastCastable(target.formals[1].t, t2)
    else env.equivalent(target.formals[1].t, t2) && env.fastCastable(target.formals[0].t, t1)
  }

  predicate TooManyArgs(target: Signature, source: Signature) {
    source.NumFormals() > target.NumFormals() && !target.HasRest() && !target.isOpen
  }

  // An overload set; the members that are not functions are passed over.
  predicate ValidOverloads(o: seq<Ty>) {
    forall t :: t in o && t.Function? ==> WellFormed(t.sig)
  }

  /* One overload's contribution to each of the three candidate lists. */

  function Candidate(env: Env, fn: Ty, call: Call): seq<App>
    requires (fn.Function? ==> WellFormed(fn.sig)) && call.Valid()
  {
    if !fn.Function? || TooManyArgs(fn.sig, call.source) then []
    else
      var a := Match(env, fn, call);
      if a.Some? then [a.value] else []
  }

  function ExactCandidate(env: Env, fn: Ty, call: Call): seq<App>
    requires (fn.Function? ==> WellFormed(fn.sig)) && call.Valid()
  {
    if !fn.Function? || !ExactMightMatch(env, fn.sig, call.source) then []
    else
      var a := Match(env, fn, call);
      if a.Some? && Exact(a.value) then [a.value] else []
  }

  function HalfExactCandidate(env: Env, fn: Ty, call: Call): seq<App>
    requires (fn.Function? ==> WellFormed(fn.sig)) && call.Valid() && |call.source.formals| == 2
  {
    if !fn.Function? || !HalfExactMightMatch(env, fn.sig, call.source.formals[0].t, call.source.formals[1].t) then []
    else
      var a := Match(env, fn, call);
      if a.Some? && HalfExact(a.value) then [a.value] else []
  }

  function Candidates(env: Env, o: seq<Ty>, call: Call): seq<App>
    requires ValidOverloads(o) && call.Valid()
  {
    if o == [] then []
    else Candidates(env, o[..|o| - 1], call) + Candidate(env, o[|o| - 1], call)
  }

  function ExactCandidates(env: Env, o: seq<Ty>, call: Call): seq<App>
    requires ValidOverloads(o) && call.Valid()
  {
    if o == [] then []
    else ExactCandidates(env, o[..|o| - 1], call) + ExactCandidate(env, o[|o| - 1], call)
  }

  function HalfExactCandidates(env: Env, o: seq<Ty>, call: Call): seq<App>
    requires ValidOverloads(o) && call.Valid() && |call.source.formals| == 2
  {
    if o == [] then []
    else HalfExactCandidates(env, o[..|o| - 1], call) + HalfExactCandidate(env, o[|o| - 1], call)
  }

  function ExactMatches(env: Env, o: seq<Ty>, call: Call): seq<App>
    requires ValidOverloads(o) && call.Valid()
  {
    if NamedFormals(call.source) then [] else ExactCandidates(env, o, call)
  }

  function HalfExactMatches(env: Env, o: seq<Ty>, call: Call): seq<App>
    requires ValidOverloads(o) && call.Valid()
  {
    if |call.source.formals| != 2 || call.source.rest.Some? || NamedFormals(call.source) then []
    else HalfExactCandidates(env, o, call)
  }

  // The specification of resolution: the most specific of all matches.
  function Resolve(env: Env, o: seq<Ty>, call: Call): seq<App>
    requires ValidOverloads(o) && call.Valid()
  {
    var l := Candidates(env, o, call);
    if |l| > 1 then Unbeaten(l) else l
  }

  function MultimatchResult(env: Env, o: seq<Ty>, call: Call): seq<App>
    requires ValidOverloads(o) && call.Valid()
  {
    var exact := ExactMatches(env, o, call);
    if exact != [] then exact
    else
      var half := HalfExactMatches(env, o, call);
      if half != [] then half else Resolve(env, o, call)
  }

  /* The loops of the original. */

  method TestExactMightMatch(env: Env, target: Signature, source: Signature) returns (r: bool)
    ensures r == ExactMightMatch(env, target, source)
  {
    if target.isOpen {
      return false;
    }
    var formals, args := target.formals, source.formals;
    var fi, ai := 0, 0;
    while fi < |formals| && ai < |args|
      invariant 0 <= fi <= |formals| && 0 <= ai <= |args|
      invariant ExactWalk(env, formals, args, 0, 0) == ExactWalk(env, formals, args, fi, ai)
      decreases |formals| - fi
    {
      if env.equivalent(formals[fi].t, args[ai].t) {
        fi, ai := fi + 1, ai + 1;
      } else if formals[fi].defval {
        fi := fi + 1;
      } else {
        return false;
      }
    }
    if ai < |args| {
      return false;
    }
    while fi < |formals|
      invariant 0 <= fi <= |formals|
      invariant ExactWalk(env, formals, args, 0, 0) == ExactWalk(env, formals, args, fi, ai)
    {
      if formals[fi].defval {
        fi := fi + 1;
      } else {
        return false;
      }
    }
    if source.rest.Some? {
      if target.rest.None? {
        return false;
      }
      if !env.equivalent(source.rest.value.t, target.rest.value.t) {
        return false;
      }
    }
    return true;
  }

  method ExactMultimatch(env: Env, o: seq<Ty>, call: Call) returns (l: seq<App>)
    requires ValidOverloads(o) && call.Valid()
    ensures l == ExactMatches(env, o, call)
  {
    l := [];
    if NamedFormals(call.source) {
      return;
    }
    var i := 0;
    while i < |o|
      invariant 0 <= i <= |o|
      invariant l == ExactCandidates(env, o[..i], call)
    {
      assert o[..i + 1][..i] == o[..i];
      if o[i].Function? {
        var might := TestExactMightMatch(env, o[i].sig, call.source);
        if might {
          var a := MatchCall(env, o[i], call);
          if a.Some? && Exact(a.value) {
            l := l + [a.value];
          }
        }
      }
      i := i + 1;
    }
    assert o[..i] == o;
  }

  method HalfExactMultimatch(env: Env, o: seq<Ty>, call: Call) returns (l: seq<App>)
    requires ValidOverloads(o) && call.Valid()
    ensures l == HalfExactMatches(env, o, call)
  {
    l := [];
    if |call.source.formals| != 2 || call.source.rest.Some? || NamedFormals(call.source) {
      return;
    }
    var i := 0;
    while i < |o|
      invariant 0 <= i <= |o|
      invariant l == HalfExactCandidates(env, o[..i], call)
    {
      assert o[..i + 1][..i] == o[..i];
      if o[i].Function? && HalfExactMightMatch(env, o[i].sig, call.source.formals[0].t, call.source.formals[1].t) {
        var a := MatchCall(env, o[i], call);
        if a.Some? && HalfExact(a.value) {
          l := l + [a.value];
        }
      }
      i := i + 1;
    }
    assert o[..i] == o;
  }
}
