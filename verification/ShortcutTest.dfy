/** When the half-exact shortcut misleads, told from the signatures of the
    overloads and the types of the arguments, without matching anything. */
module ShortcutTests {
  import opened Options
  import opened Types
  import opened Applications
  import opened Lists
  import opened Maximizers
  import opened Multimatch
  import opened MultimatchProofs

  // The first formal from fi on that takes the argument, passing over defaults,
  // or else the rest: the formal after it, and the score.
  function Spot(env: Env, sig: Signature, arg: Formal, fi: nat): (r: Option<(nat, nat)>)
    requires WellFormed(sig) && fi <= |sig.formals|
    ensures r.Some? ==> r.value.0 <= |sig.formals|
    decreases |sig.formals| - fi
  {
    if fi == |sig.formals| then
      if sig.rest.None? || CastScore(env, RestTarget(sig), arg) == FAIL then None
      else Some((fi, CastScore(env, RestTarget(sig), arg) + PACKED))
    else if Fits(env, sig, fi, arg) then Some((fi + 1, CastScore(env, sig.formals[fi], arg)))
    else if sig.formals[fi].defval then Spot(env, sig, arg, fi + 1)
    else None
  }

  /** The scores of the arguments from ai on, given to the formals from fi on. */
  function ScoreWalk(env: Env, sig: Signature, args: seq<Formal>, ai: nat, fi: nat): Option<seq<nat>>
    requires WellFormed(sig) && ai <= |args| && fi <= |sig.formals|
    decreases |args| - ai
  {
    if ai == |args| then
      if DefaultsFrom(sig, fi) then Some([]) else None
    else
      var spot := Spot(env, sig, args[ai], fi);
      if spot.None? then None
      else
        var others := ScoreWalk(env, sig, args, ai + 1, spot.value.0);
        if others.None? then None else Some([spot.value.1] + others.value)
  }

  predicate DefaultsFrom(sig: Signature, fi: nat) {
    forall k :: fi <= k < |sig.formals| ==> sig.formals[k].defval
  }

  lemma {:induction false} ArgumentIsSpot(env: Env, sig: Signature, s: AppState, source: Formal, a: Exp, e: nat)
    requires WellFormed(sig) && Shape(sig, s) && Fresh(s)
    ensures var m, p := MatchArgument(env, sig, s, source, a, e), Spot(env, sig, source, s.index);
            && (m.Some? <==> p.Some?)
            && (m.Some? ==> Fresh(m.value) && m.value.index == p.value.0 && m.value.scores == s.scores + [p.value.1])
    decreases |s.args| - s.index
  {
    if s.index < |s.args| && !Fits(env, sig, s.index, source) && FillDefault(sig, s).Some? {
      ArgumentIsSpot(env, sig, FillDefault(sig, s).value, source, a, e);
    }
  }

  lemma {:induction false} CompleteIff(sig: Signature, s: AppState)
    requires Shape(sig, s) && Fresh(s)
    ensures Complete(sig, s).Some? <==> DefaultsFrom(sig, s.index)
    decreases |s.args| - s.index
  {
    if s.index < |s.args| && sig.formals[s.index].defval {
      var next := FillDefault(sig, s).value;
      assert next.index == s.index + 1;
      CompleteIff(sig, next);
    }
  }

  lemma {:induction false} UnnamedIsWalk(env: Env, sig: Signature, call: Call, i: nat, s: AppState)
    requires WellFormed(sig) && Shape(sig, s) && Fresh(s) && call.Valid() && i <= |call.source.formals|
    requires !NamedFormals(call.source)
    ensures var u, w := MatchUnnamed(env, sig, call, i, s), ScoreWalk(env, sig, call.source.formals, i, s.index);
            && (w.Some? <==> u.Some? && Complete(sig, u.value).Some?)
            && (w.Some? ==> u.value.scores == s.scores + w.value)
    decreases |call.source.formals| - i
  {
    hide MatchArgument, Spot, Complete, DefaultsFrom;
    if i == |call.source.formals| {
      CompleteIff(sig, s);
    } else {
      ArgumentIsSpot(env, sig, s, call.source.formals[i], call.al.args[i], call.EvalIndex(i));
      var m := MatchArgument(env, sig, s, call.source.formals[i], call.al.args[i], call.EvalIndex(i));
      if m.Some? {
        UnnamedIsWalk(env, sig, call, i + 1, m.value);
      }
    }
  }

  // The score of the rest argument, if there is one; None if it does not fit.
  function RestWalk(env: Env, sig: Signature, source: Signature): Option<seq<nat>> {
    if source.rest.None? then Some([])
    else if sig.rest.None? || CastScore(env, sig.rest.value, source.rest.value) == FAIL then None
    else Some([CastScore(env, sig.rest.value, source.rest.value)])
  }

  lemma {:induction false} CompletesFull(sig: Signature, s: AppState)
    requires Shape(sig, s)
    ensures var c := Complete(sig, s);
            c.Some? ==> Complete(sig, c.value) == c && c.value.scores == s.scores
    decreases |s.args| - s.index
  {
    if s.index < |s.args| && FillDefault(sig, s).Some? {
      CompletesFull(sig, FillDefault(sig, s).value);
    }
  }

  /** A call of plain arguments matches exactly when the walk succeeds and the rest
      argument, if there is one, fits; it then has the scores of both. */
  lemma MatchIsWalkThenRest(env: Env, fn: Ty, call: Call)
    requires MatchableFn(fn) && !fn.sig.isOpen && call.Valid() && !NamedFormals(call.source)
    ensures var a, w, r := Match(env, fn, call), ScoreWalk(env, fn.sig, call.source.formals, 0, 0), RestWalk(env, fn.sig, call.source);
            (a.Some? <==> w.Some? && r.Some?) && (a.Some? ==> a.value.st.scores == w.value + r.value)
  {
    hide MatchUnnamed, MatchNamed, Complete, ScoreWalk;
    var sig, s := fn.sig, Blank(fn.sig);
    NoNamesPass(env, sig, call, 0, s);
    UnnamedIsWalk(env, sig, call, 0, s);
    var u := MatchUnnamed(env, sig, call, 0, s);
    if u.Some? {
      CompletesFull(sig, u.value);
      var c := Complete(sig, u.value);
      if c.Some? && call.source.rest.Some? {
        var m := MatchRestOfCall(env, sig, call, u.value);
        if m.Some? {
          FullStays(sig, c.value, m.value);
        }
      }
    }
  }

  lemma FullStays(sig: Signature, s: AppState, r: AppState)
    requires Shape(sig, s) && Shape(sig, r) && s.index == r.index == |s.args|
    ensures Complete(sig, r) == Some(r)
  {
  }

  lemma MatchIsWalk(env: Env, fn: Ty, call: Call)
    requires MatchableFn(fn) && !fn.sig.isOpen && call.Valid() && !NamedFormals(call.source) && call.source.rest.None?
    ensures var a, w := Match(env, fn, call), ScoreWalk(env, fn.sig, call.source.formals, 0, 0);
            (a.Some? <==> w.Some?) && (a.Some? ==> a.value.st.scores == w.value)
  {
    hide Match, ScoreWalk;
    MatchIsWalkThenRest(env, fn, call);
    var w := ScoreWalk(env, fn.sig, call.source.formals, 0, 0);
    assert w.Some? ==> w.value + [] == w.value;
  }

  /* What the quick test for exact matches decides. */

  // No argument is cast, and no formal has an error type.
  function NoCasts(env: Env): Env {
    Env(env.equivalent, (target, source) => false, t => false)
  }

  // No formal is for names only.
  function Positional(fn: Ty): Ty
    requires fn.Function?
  {
    Function(fn.result, fn.sig.(numKeywordOnly := 0))
  }

  lemma {:induction false} ExactWalkIsWalk(env: Env, sig: Signature, args: seq<Formal>, fi: nat, ai: nat)
    requires WellFormed(sig) && sig.numKeywordOnly == 0 && fi <= |sig.formals| && ai <= |args|
    ensures var w := ScoreWalk(NoCasts(env), sig, args, ai, fi);
            ExactWalk(env, sig.formals, args, fi, ai) <==> w.Some? && AllExact(w.value)
    decreases |sig.formals| - fi
  {
    if fi < |sig.formals| {
      if ai < |args| && env.equivalent(sig.formals[fi].t, args[ai].t) {
        ExactWalkIsWalk(env, sig, args, fi + 1, ai + 1);
        var others := ScoreWalk(NoCasts(env), sig, args, ai + 1, fi + 1);
        if others.Some? {
          ExactFirst(EXACT, others.value);
        }
      } else if sig.formals[fi].defval {
        ExactWalkIsWalk(env, sig, args, fi + 1, ai);
      }
    } else if ai < |args| {
      var others := ScoreWalk(NoCasts(env), sig, args, ai + 1, fi);
      var spot := Spot(NoCasts(env), sig, args[ai], fi);
      if spot.Some? && others.Some? {
        ExactFirst(spot.value.1, others.value);
      }
    }
  }

  lemma ExactFirst(score: nat, scores: seq<nat>)
    ensures AllExact([score] + scores) <==> score == EXACT && AllExact(scores)
  {
    var l := [score] + scores;
    assert l[0] == score && l[1..] == scores;
    assert forall i :: 0 <= i < |scores| ==> scores[i] == l[i + 1];
  }

  /** The quick test decides whether the call would match exactly if nothing could be
      cast, formals for names only and error types aside. */
  lemma ExactMightMatchIff(env: Env, fn: Ty, call: Call)
    requires MatchableFn(fn) && call.Valid() && !NamedFormals(call.source) && Symmetric(env)
    ensures ExactMightMatch(env, fn.sig, call.source) <==>
            !fn.sig.isOpen && var a := Match(NoCasts(env), Positional(fn), call); a.Some? && Exact(a.value)
  {
    hide Match, ExactWalk, ScoreWalk, AllExact;
    var f := Positional(fn);
    if !fn.sig.isOpen {
      ExactWalkIsWalk(env, f.sig, call.source.formals, 0, 0);
      MatchIsWalkThenRest(NoCasts(env), f, call);
      var a, w, r := Match(NoCasts(env), f, call), ScoreWalk(NoCasts(env), f.sig, call.source.formals, 0, 0),
                     RestWalk(NoCasts(env), f.sig, call.source);
      MatchesOwn(NoCasts(env), f, call);
      if w.Some? && r.Some? {
        ExactBoth(w.value, r.value);
      }
    }
  }

  lemma ExactBoth(a: seq<nat>, b: seq<nat>)
    ensures AllExact(a + b) <==> AllExact(a) && AllExact(b)
    ensures |b| == 1 && b[0] == EXACT ==> AllExact(b)
    ensures b == [] ==> AllExact(b)
  {
    var l := a + b;
    assert forall i :: 0 <= i < |a| ==> a[i] == l[i];
    assert forall i :: 0 <= i < |b| ==> b[i] == l[|a| + i];
  }

  // Some overload takes the arguments with these scores.
  ghost predicate Offers(env: Env, o: seq<Ty>, args: seq<Formal>, scores: seq<nat>)
    requires ValidOverloads(o)
  {
    exists fn :: fn in o && fn.Function? && !fn.sig.isOpen && ScoreWalk(env, fn.sig, args, 0, 0) == Some(scores)
  }

  lemma {:induction false} CandidatesHave(env: Env, o: seq<Ty>, call: Call, fn: Ty)
    requires ValidOverloads(o) && call.Valid() && fn in o && fn.Function? && Match(env, fn, call).Some?
    ensures Match(env, fn, call).value in Candidates(env, o, call)
  {
    hide Match;
    var init, last := o[..|o| - 1], o[|o| - 1];
    if fn in init {
      CandidatesHave(env, init, call, fn);
    } else {
      MatchedNotTooMany(env, fn, call);
    }
  }

  // What is offered is what the candidates have.
  lemma OffersIff(env: Env, o: seq<Ty>, call: Call, scores: seq<nat>)
    requires ValidOverloads(o) && call.Valid() && !NamedFormals(call.source) && call.source.rest.None?
    ensures Offers(env, o, call.source.formals, scores) <==>
            exists a :: a in Candidates(env, o, call) && !a.IsOpen() && a.st.scores == scores
  {
    hide Candidates, ScoreWalk;
    if Offers(env, o, call.source.formals, scores) {
      var fn :| fn in o && fn.Function? && !fn.sig.isOpen
                && ScoreWalk(env, fn.sig, call.source.formals, 0, 0) == Some(scores);
      MatchIsWalk(env, fn, call);
      CandidatesHave(env, o, call, fn);
      assert !Match(env, fn, call).value.IsOpen();
    }
    hide Match;
    CandidatesScored(env, o, call);
    if a :| a in Candidates(env, o, call) && !a.IsOpen() && a.st.scores == scores {
      MatchIsWalk(env, a.fn, call);
    }
  }

  // A packed argument is scored in one of two ways.
  lemma {:induction false} SpotScores(env: Env, sig: Signature, arg: Formal, fi: nat)
    requires WellFormed(sig) && fi <= |sig.formals|
    ensures var r := Spot(env, sig, arg, fi); r.Some? ==> r.value.1 in {EXACT, CAST, EXACT + PACKED, CAST + PACKED}
    decreases |sig.formals| - fi
  {
    if fi < |sig.formals| && !Fits(env, sig, fi, arg) && sig.formals[fi].defval {
      SpotScores(env, sig, arg, fi + 1);
    }
  }

  lemma WalkScores(env: Env, sig: Signature, args: seq<Formal>)
    requires WellFormed(sig) && |args| == 2
    ensures var w := ScoreWalk(env, sig, args, 0, 0);
            w.Some? ==> |w.value| == 2 && w.value[1] in {EXACT, CAST, EXACT + PACKED, CAST + PACKED}
  {
    hide Spot;
    var first := Spot(env, sig, args[0], 0);
    if first.Some? {
      SpotScores(env, sig, args[1], first.value.0);
      var second := Spot(env, sig, args[1], first.value.0);
      if second.Some? {
        assert ScoreWalk(env, sig, args, 2, second.value.0).Some? ==>
                 ScoreWalk(env, sig, args, 2, second.value.0) == Some([]);
      }
    }
  }

  /** Two plain arguments; no overload takes both exactly or only casts the
      second; one casts only the first; and one takes the first exactly and packs
      the second. */
  ghost predicate Misleading(env: Env, o: seq<Ty>, source: Signature)
    requires ValidOverloads(o)
  {
    var args := source.formals;
    && |args| == 2 && source.rest.None? && !NamedFormals(source)
    && !Offers(env, o, args, [EXACT, EXACT]) && !Offers(env, o, args, [EXACT, CAST])
    && Offers(env, o, args, [CAST, EXACT])
    && (Offers(env, o, args, [EXACT, EXACT + PACKED]) || Offers(env, o, args, [EXACT, CAST + PACKED]))
  }

  // Which scores of two arguments are of which kind.
  lemma TwoScores(a: App)
    requires |a.st.scores| == 2
    ensures Exact(a) <==> !a.IsOpen() && a.st.scores == [EXACT, EXACT]
  {
    assert a.st.scores == [a.st.scores[0], a.st.scores[1]];
  }

  lemma ExactIffOffered(env: Env, o: seq<Ty>, call: Call)
    requires SoundTypes(env, o) && call.Valid() && !NamedFormals(call.source)
    requires |call.source.formals| == 2 && call.source.rest.None?
    ensures ExactMatches(env, o, call) != [] <==> Offers(env, o, call.source.formals, [EXACT, EXACT])
  {
    hide Symmetric, NoErrors, Candidates, Filter, ExactCandidates, Exact, Offers;
    var c := Candidates(env, o, call);
    ExactSelects(env, o, call);
    FilterMembers(c, Exact);
    CandidatesScored(env, o, call);
    OffersIff(env, o, call, [EXACT, EXACT]);
    forall a | a in c && !a.IsOpen()
      ensures Exact(a) <==> a.st.scores == [EXACT, EXACT]
    {
      TwoScores(a);
    }
    if ExactMatches(env, o, call) != [] {
      var a := ExactMatches(env, o, call)[0];
      assert a in Filter(c, Exact);
      OpenIsNotExact(a);
    }
    if a :| a in c && !a.IsOpen() && a.st.scores == [EXACT, EXACT] {
      assert a in Filter(c, Exact);
    }
  }

  lemma OpenIsNotExact(a: App)
    requires Exact(a)
    ensures !a.IsOpen()
  {
  }

  lemma HalfExactIffOffered(env: Env, o: seq<Ty>, call: Call)
    requires ValidOverloads(o) && call.Valid() && !NamedFormals(call.source)
    requires |call.source.formals| == 2 && call.source.rest.None?
    ensures HalfExactMatches(env, o, call) != [] <==>
            Offers(env, o, call.source.formals, [EXACT, CAST]) || Offers(env, o, call.source.formals, [CAST, EXACT])
  {
    hide Candidates, Filter, HalfExactCandidates, Offers;
    var c := Candidates(env, o, call);
    HalfExactSelects(env, o, call);
    FilterMembers(c, HalfExact);
    OffersIff(env, o, call, [EXACT, CAST]);
    OffersIff(env, o, call, [CAST, EXACT]);
    if HalfExactMatches(env, o, call) != [] {
      var a := HalfExactMatches(env, o, call)[0];
      assert a in Filter(c, HalfExact);
    }
    if a :| a in c && HalfExact(a) {
      assert a in Filter(c, HalfExact);
    }
  }

  lemma EscapesIffOffered(env: Env, o: seq<Ty>, call: Call)
    requires ValidOverloads(o) && call.Valid() && !NamedFormals(call.source)
    requires |call.source.formals| == 2 && call.source.rest.None?
    ensures PackingEscapes(Candidates(env, o, call)) <==>
            && !Offers(env, o, call.source.formals, [EXACT, CAST])
            && (Offers(env, o, call.source.formals, [EXACT, EXACT + PACKED])
                || Offers(env, o, call.source.formals, [EXACT, CAST + PACKED]))
  {
    hide Candidates, Offers, Match, ScoreWalk;
    var c := Candidates(env, o, call);
    OffersIff(env, o, call, [EXACT, CAST]);
    OffersIff(env, o, call, [EXACT, EXACT + PACKED]);
    OffersIff(env, o, call, [EXACT, CAST + PACKED]);
    CandidatesScored(env, o, call);
    if x :| x in c && PacksSecond(x) {
      MatchIsWalk(env, x.fn, call);
      WalkScores(env, x.fn.sig, call.source.formals);
      assert x.st.scores == [x.st.scores[0], x.st.scores[1]];
    }
    if x :| x in c && !x.IsOpen() && x.st.scores == [EXACT, EXACT + PACKED] {
      assert PacksSecond(x);
    }
    if x :| x in c && !x.IsOpen() && x.st.scores == [EXACT, CAST + PACKED] {
      assert PacksSecond(x);
    }
  }

  /** The shortcuts mislead exactly for these signatures and argument types. */
  lemma MisledIff(env: Env, o: seq<Ty>, call: Call)
    requires SoundTypes(env, o) && call.Valid()
    ensures FastPathMisled(env, o, call) <==> Misleading(env, o, call.source)
  {
    hide Candidates, Offers, PackingEscapes, Symmetric, NoErrors, HalfExactCandidates, ExactCandidates;
    if |call.source.formals| == 2 && call.source.rest.None? && !NamedFormals(call.source) {
      ExactIffOffered(env, o, call);
      HalfExactIffOffered(env, o, call);
      EscapesIffOffered(env, o, call);
    }
  }

  /** Resolution with its shortcuts agrees with the general method for exactly the
      calls that are not of this kind. */
  lemma AgreesIffNotMisleading(env: Env, o: seq<Ty>, call: Call)
    requires SoundTypes(env, o) && call.Valid()
    ensures multiset(MultimatchResult(env, o, call)) == multiset(Resolve(env, o, call))
            <==> !Misleading(env, o, call.source)
  {
    hide Misleading, FastPathMisled, MultimatchResult, Resolve, SoundTypes;
    MultimatchAgreesIff(env, o, call);
    MisledIff(env, o, call);
  }
}
