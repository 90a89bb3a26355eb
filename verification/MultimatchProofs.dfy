/** The fast paths of overload resolution against the general method. */
module MultimatchProofs {
  import opened Options
  import opened Types
  import opened Applications
  import opened MatchProofs
  import opened Lists
  import opened Maximizers
  import opened Multimatch

  /** Every match of a call has one score for each argument, so score vectors
      can always be compared. */
  lemma MatchScores(env: Env, fn: Ty, call: Call)
    requires MatchableFn(fn) && call.Valid() && !fn.sig.isOpen
    ensures var a := Match(env, fn, call);
            a.Some? ==>
              && |a.value.st.scores| == call.Count()
              && forall i :: 0 <= i < |a.value.st.scores| ==> a.value.st.scores[i] >= EXACT
  {
    hide Fitting, Ordered, Slots;
    MatchSignatureSound(env, fn.sig, call);
    DueTimesExact(call);
  }

  /** A call that matches never has too many arguments. */
  lemma MatchedNotTooMany(env: Env, fn: Ty, call: Call)
    requires MatchableFn(fn) && call.Valid() && Match(env, fn, call).Some?
    ensures !TooManyArgs(fn.sig, call.source)
  {
    if !fn.sig.isOpen && fn.sig.rest.None? {
      var s := MatchSignature(env, fn.sig, call).value;
      MatchSignatureSound(env, fn.sig, call);
      DueTimesExact(call);
      EvalsBound(Slots(s));
      hide Ordered, Accounted, SlotOk;
      assert s.inits == [] by {
        assert s.inits != [] ==> FitsPack(env, fn.sig, call, s.inits[0]);
      }
    }
  }

  /* Calls without names, and the state between their arguments. */

  predicate NoErrors(env: Env, sig: Signature) {
    forall i :: 0 <= i < |sig.formals| ==> !env.isError(sig.formals[i].t)
  }

  predicate Fresh(s: AppState) {
    forall k :: s.index <= k < |s.args| ==> s.args[k].None?
  }

  predicate NoPacking(scores: seq<nat>) {
    forall i :: 0 <= i < |scores| ==> scores[i] <= CAST
  }

  lemma {:induction false} NoNamesPass(env: Env, sig: Signature, call: Call, i: nat, s: AppState)
    requires Shape(sig, s) && call.Valid() && i <= |call.source.formals| && !NamedFormals(call.source)
    ensures MatchNamed(env, sig, call, i, s) == Some(s)
    decreases |call.source.formals| - i
  {
    if i < |call.source.formals| {
      NoNamesPass(env, sig, call, i + 1, s);
    }
  }

  // Where an unnamed argument lands, unless it is packed.
  ghost predicate Lands(env: Env, sig: Signature, call: Call, s: AppState, i: nat, r: AppState, k: nat)
    requires WellFormed(sig) && Shape(sig, s) && i < |call.source.formals|
  {
    && s.index <= k < |sig.formals|
    && Shape(sig, r) && r.index == k + 1 && Fresh(r)
    && Fits(env, sig, k, call.source.formals[i])
    && r.scores == s.scores + [CastScore(env, sig.formals[k], call.source.formals[i])]
    && forall m :: s.index <= m < k ==> sig.formals[m].defval && !Fits(env, sig, m, call.source.formals[i])
  }

  lemma PackingShows(env: Env, sig: Signature, s: AppState, source: Formal, a: Exp, e: nat)
    requires WellFormed(sig)
    ensures var r := PackIntoRest(env, sig, s, source, a, e); r.Some? ==> !NoPacking(r.value.scores)
  {
    var r := PackIntoRest(env, sig, s, source, a, e);
    if r.Some? {
      assert r.value.scores[|s.scores|] > CAST;
    }
  }

  lemma {:induction false} ArgumentLands(env: Env, sig: Signature, call: Call, s: AppState, i: nat) returns (k: nat)
    requires WellFormed(sig) && Shape(sig, s) && Fresh(s) && call.Valid() && i < |call.source.formals|
    requires MatchArgument(env, sig, s, call.source.formals[i], call.al.args[i], call.EvalIndex(i)).Some?
    requires NoPacking(MatchArgument(env, sig, s, call.source.formals[i], call.al.args[i], call.EvalIndex(i)).value.scores)
    ensures Lands(env, sig, call, s, i,
                  MatchArgument(env, sig, s, call.source.formals[i], call.al.args[i], call.EvalIndex(i)).value, k)
    decreases |s.args| - s.index
  {
    var source, a, e := call.source.formals[i], call.al.args[i], call.EvalIndex(i);
    k := s.index;
    if s.index == |s.args| {
      PackingShows(env, sig, s, source, a, e);
    } else if Fits(env, sig, s.index, source) {
    } else {
      k := ArgumentLands(env, sig, call, FillDefault(sig, s).value, i);
    }
  }

  lemma {:induction false} ScoresGrow(env: Env, sig: Signature, call: Call, i: nat, s: AppState)
    requires WellFormed(sig) && Shape(sig, s) && call.Valid() && i <= |call.source.formals| && !NamedFormals(call.source)
    ensures var u := MatchUnnamed(env, sig, call, i, s); u.Some? ==> s.scores <= u.value.scores
    decreases |call.source.formals| - i
  {
    if i < |call.source.formals| {
      var source, a, e := call.source.formals[i], call.al.args[i], call.EvalIndex(i);
      var next := MatchArgument(env, sig, s, source, a, e);
      if next.Some? {
        ArgumentScoresGrow(env, sig, s, source, a, e);
        ScoresGrow(env, sig, call, i + 1, next.value);
      }
    }
  }

  lemma {:induction false} ArgumentScoresGrow(env: Env, sig: Signature, s: AppState, source: Formal, a: Exp, e: nat)
    requires WellFormed(sig) && Shape(sig, s)
    ensures var r := MatchArgument(env, sig, s, source, a, e); r.Some? ==> s.scores <= r.value.scores
    decreases |s.args| - s.index
  {
    if s.index < |s.args| && !Fits(env, sig, s.index, source) && FillDefault(sig, s).Some? {
      ArgumentScoresGrow(env, sig, FillDefault(sig, s).value, source, a, e);
    }
  }

  // The walk steps over defaults that do not fit.
  lemma {:induction false} WalkOver(env: Env, sig: Signature, args: seq<Formal>, m: nat, k: nat, i: nat)
    requires m <= k < |sig.formals| && i < |args|
    requires forall j :: m <= j < k ==> sig.formals[j].defval && !env.equivalent(sig.formals[j].t, args[i].t)
    ensures ExactWalk(env, sig.formals, args, m, i) == ExactWalk(env, sig.formals, args, k, i)
    decreases k - m
  {
    if m < k {
      WalkOver(env, sig, args, m + 1, k, i);
    }
  }

  lemma {:induction false} WalkToEnd(env: Env, sig: Signature, args: seq<Formal>, s: AppState)
    requires Shape(sig, s) && Fresh(s) && Complete(sig, s).Some?
    ensures ExactWalk(env, sig.formals, args, s.index, |args|)
    decreases |s.args| - s.index
  {
    if s.index < |s.args| {
      WalkToEnd(env, sig, args, FillDefault(sig, s).value);
    }
  }

  // The walk takes an exactly matching argument to the formal where it lands.
  lemma WalkStep(env: Env, sig: Signature, call: Call, s: AppState, i: nat, r: AppState, k: nat)
    requires WellFormed(sig) && Shape(sig, s) && call.Valid() && i < |call.source.formals|
    requires !NamedFormals(call.source) && NoErrors(env, sig)
    requires Lands(env, sig, call, s, i, r, k) && AllExact(r.scores)
    requires ExactWalk(env, sig.formals, call.source.formals, k + 1, i + 1)
    ensures ExactWalk(env, sig.formals, call.source.formals, s.index, i)
  {
    assert r.scores[|s.scores|] == EXACT;
    WalkOver(env, sig, call.source.formals, s.index, k, i);
  }

  // If all arguments match exactly, the walk takes the same path.
  lemma {:induction false} ExactRun(env: Env, sig: Signature, call: Call, i: nat, s: AppState)
    requires WellFormed(sig) && Shape(sig, s) && Fresh(s) && call.Valid() && i <= |call.source.formals|
    requires !NamedFormals(call.source) && NoErrors(env, sig)
    requires MatchUnnamed(env, sig, call, i, s).Some?
    requires AllExact(MatchUnnamed(env, sig, call, i, s).value.scores)
    requires Complete(sig, MatchUnnamed(env, sig, call, i, s).value).Some?
    ensures ExactWalk(env, sig.formals, call.source.formals, s.index, i)
    decreases |call.source.formals| - i
  {
    hide MatchArgument, Complete, ExactWalk, Fits, CastScore;
    var args := call.source.formals;
    if i == |args| {
      WalkToEnd(env, sig, args, s);
    } else {
      var r := MatchArgument(env, sig, s, args[i], call.al.args[i], call.EvalIndex(i)).value;
      ScoresGrow(env, sig, call, i + 1, r);
      var u := MatchUnnamed(env, sig, call, i + 1, r).value;
      assert forall j :: 0 <= j < |r.scores| ==> r.scores[j] == u.scores[j];
      var k := ArgumentLands(env, sig, call, s, i);
      ExactRun(env, sig, call, i + 1, r);
      WalkStep(env, sig, call, s, i, r, k);
    }
  }

  // Arguments that are not packed each take a formal of their own.
  lemma {:induction false} EnoughFormals(env: Env, sig: Signature, call: Call, i: nat, s: AppState)
    requires WellFormed(sig) && Shape(sig, s) && Fresh(s) && call.Valid() && i <= |call.source.formals|
    requires !NamedFormals(call.source)
    requires MatchUnnamed(env, sig, call, i, s).Some?
    requires NoPacking(MatchUnnamed(env, sig, call, i, s).value.scores)
    ensures |call.source.formals| - i <= |sig.formals| - s.index
    decreases |call.source.formals| - i
  {
    hide MatchArgument, Fits, CastScore;
    if i < |call.source.formals| {
      var r := MatchArgument(env, sig, s, call.source.formals[i], call.al.args[i], call.EvalIndex(i)).value;
      ScoresGrow(env, sig, call, i + 1, r);
      var u := MatchUnnamed(env, sig, call, i + 1, r).value;
      assert forall j :: 0 <= j < |r.scores| ==> r.scores[j] == u.scores[j];
      var k := ArgumentLands(env, sig, call, s, i);
      EnoughFormals(env, sig, call, i + 1, r);
    }
  }

  // With no formals to spare, they take the formals in turn.
  lemma {:induction false} TightRun(env: Env, sig: Signature, call: Call, i: nat, s: AppState)
    requires WellFormed(sig) && Shape(sig, s) && Fresh(s) && call.Valid() && i <= |call.source.formals|
    requires !NamedFormals(call.source) && |sig.formals| == |call.source.formals|
    requires s.index == i == |s.scores|
    requires MatchUnnamed(env, sig, call, i, s).Some?
    requires NoPacking(MatchUnnamed(env, sig, call, i, s).value.scores)
    ensures var u := MatchUnnamed(env, sig, call, i, s).value;
            && |u.scores| == |call.source.formals|
            && forall j :: i <= j < |u.scores| ==>
                 u.scores[j] == CastScore(env, sig.formals[j], call.source.formals[j])
    decreases |call.source.formals| - i
  {
    hide MatchArgument, Fits, CastScore;
    if i < |call.source.formals| {
      var r := MatchArgument(env, sig, s, call.source.formals[i], call.al.args[i], call.EvalIndex(i)).value;
      ScoresGrow(env, sig, call, i + 1, r);
      var u := MatchUnnamed(env, sig, call, i + 1, r).value;
      assert forall j :: 0 <= j < |r.scores| ==> r.scores[j] == u.scores[j];
      var k := ArgumentLands(env, sig, call, s, i);
      EnoughFormals(env, sig, call, i + 1, r);
      TightRun(env, sig, call, i + 1, r);
    }
  }

  lemma MatchesOwn(env: Env, fn: Ty, call: Call)
    requires MatchableFn(fn) && call.Valid()
    ensures var m := Match(env, fn, call); m.Some? ==> m.value.fn == fn
  {
  }

  lemma {:induction false} CompleteScores(sig: Signature, s: AppState)
    requires Shape(sig, s)
    ensures var r := Complete(sig, s); r.Some? ==> r.value.scores == s.scores
    decreases |s.args| - s.index
  {
    if s.index < |s.args| && FillDefault(sig, s).Some? {
      CompleteScores(sig, FillDefault(sig, s).value);
    }
  }

  // A match of a call without names, taken apart.
  lemma MatchSteps(env: Env, sig: Signature, call: Call) returns (u: AppState)
    requires WellFormed(sig) && call.Valid() && !NamedFormals(call.source)
    requires MatchSignature(env, sig, call).Some?
    ensures MatchUnnamed(env, sig, call, 0, Blank(sig)) == Some(u)
    ensures Shape(sig, u) && Complete(sig, u).Some?
    ensures var scores := MatchSignature(env, sig, call).value.scores;
            if call.source.rest.None? then scores == u.scores
            else sig.rest.Some? && scores == u.scores + [CastScore(env, sig.rest.value, call.source.rest.value)]
  {
    NoNamesPass(env, sig, call, 0, Blank(sig));
    u := MatchUnnamed(env, sig, call, 0, Blank(sig)).value;
    CompleteScores(sig, u);
    var r := MatchRestOfCall(env, sig, call, u).value;
    CompleteScores(sig, r);
  }

  ghost predicate Symmetric(env: Env) {
    forall a, b :: env.equivalent(a, b) ==> env.equivalent(b, a)
  }

  /** The quick test never turns away a function that matches exactly. */
  lemma ExactMightMatchComplete(env: Env, fn: Ty, call: Call)
    requires MatchableFn(fn) && call.Valid() && !NamedFormals(call.source)
    requires NoErrors(env, fn.sig) && Symmetric(env)
    requires Match(env, fn, call).Some? && Exact(Match(env, fn, call).value)
    ensures ExactMightMatch(env, fn.sig, call.source)
  {
    var u := MatchSteps(env, fn.sig, call);
    var scores := MatchSignature(env, fn.sig, call).value.scores;
    assert AllExact(u.scores) by {
      assert forall i :: 0 <= i < |u.scores| ==> u.scores[i] == scores[i];
    }
    ExactRun(env, fn.sig, call, 0, Blank(fn.sig));
    if call.source.rest.Some? {
      assert scores[|u.scores|] == EXACT;
    }
  }

  /** Nor does the half-exact test, for calls with two plain arguments. */
  lemma HalfExactMightMatchComplete(env: Env, fn: Ty, call: Call)
    requires MatchableFn(fn) && call.Valid() && !NamedFormals(call.source)
    requires |call.source.formals| == 2 && call.source.rest.None?
    requires Match(env, fn, call).Some? && HalfExact(Match(env, fn, call).value)
    ensures HalfExactMightMatch(env, fn.sig, call.source.formals[0].t, call.source.formals[1].t)
  {
    var u := MatchSteps(env, fn.sig, call);
    EnoughFormals(env, fn.sig, call, 0, Blank(fn.sig));
    if |fn.sig.formals| == 2 {
      TightRun(env, fn.sig, call, 0, Blank(fn.sig));
      assert u.scores[0] == CastScore(env, fn.sig.formals[0], call.source.formals[0]);
      assert u.scores[1] == CastScore(env, fn.sig.formals[1], call.source.formals[1]);
    }
  }

  /* Both fast lists select from the general list of candidates. */

  ghost predicate SoundTypes(env: Env, o: seq<Ty>) {
    && ValidOverloads(o)
    && Symmetric(env)
    && forall t :: t in o && t.Function? ==> NoErrors(env, t.sig)
  }

  lemma {:induction false} ExactSelects(env: Env, o: seq<Ty>, call: Call)
    requires SoundTypes(env, o) && call.Valid() && !NamedFormals(call.source)
    ensures ExactCandidates(env, o, call) == Filter(Candidates(env, o, call), Exact)
  {
    if o != [] {
      var init, fn := o[..|o| - 1], o[|o| - 1];
      ExactSelects(env, init, call);
      FilterConcat(Candidates(env, init, call), Candidate(env, fn, call), Exact);
      assert ExactCandidate(env, fn, call) == Filter(Candidate(env, fn, call), Exact) by {
        hide MatchSignature, MatchOpen, ExactWalk;
        if fn.Function? && Match(env, fn, call).Some? {
          MatchedNotTooMany(env, fn, call);
          FilterOne(Match(env, fn, call).value, Exact);
          if Exact(Match(env, fn, call).value) {
            ExactMightMatchComplete(env, fn, call);
          }
        }
      }
    }
  }

  lemma {:induction false} HalfExactSelects(env: Env, o: seq<Ty>, call: Call)
    requires ValidOverloads(o) && call.Valid() && !NamedFormals(call.source)
    requires |call.source.formals| == 2 && call.source.rest.None?
    ensures HalfExactCandidates(env, o, call) == Filter(Candidates(env, o, call), HalfExact)
  {
    if o != [] {
      var init, fn := o[..|o| - 1], o[|o| - 1];
      HalfExactSelects(env, init, call);
      FilterConcat(Candidates(env, init, call), Candidate(env, fn, call), HalfExact);
      assert HalfExactCandidate(env, fn, call) == Filter(Candidate(env, fn, call), HalfExact) by {
        hide MatchSignature, MatchOpen, HalfExactMightMatch;
        if fn.Function? && Match(env, fn, call).Some? {
          MatchedNotTooMany(env, fn, call);
          FilterOne(Match(env, fn, call).value, HalfExact);
          if HalfExact(Match(env, fn, call).value) {
            HalfExactMightMatchComplete(env, fn, call);
          }
        }
      }
    }
  }

  // All candidates have n scores, each at least EXACT.
  ghost predicate Scored(c: seq<App>, n: nat) {
    forall a :: a in c && !a.IsOpen() ==> |a.st.scores| == n && forall i :: 0 <= i < n ==> a.st.scores[i] >= EXACT
  }

  lemma {:induction false} CandidatesScored(env: Env, o: seq<Ty>, call: Call)
    requires ValidOverloads(o) && call.Valid()
    ensures Scored(Candidates(env, o, call), call.Count())
    ensures forall a :: a in Candidates(env, o, call) ==> a.fn in o && a.fn.Function? && Match(env, a.fn, call) == Some(a)
  {
    hide MatchSignature, MatchOpen;
    if o != [] {
      var init, fn := o[..|o| - 1], o[|o| - 1];
      CandidatesScored(env, init, call);
      if fn.Function? && !fn.sig.isOpen {
        MatchScores(env, fn, call);
      }
    }
  }

  lemma ExactBeatsAllOthers(c: seq<App>, n: nat, e: App, x: App)
    requires Scored(c, n) && e in c && Exact(e) && x in c
    ensures Beaten(x, c) <==> !Exact(x)
  {
    if Exact(x) {
      if Beaten(x, c) {
        var y :| y in c && Better(y, x);
        assert AsGood(x, y);
      }
    } else {
      assert AsGood(e, x);
      if !x.IsOpen() {
        var i :| 0 <= i < n && x.st.scores[i] != EXACT;
        assert e.st.scores[i] == EXACT;
      }
      assert Better(e, x);
    }
  }

  // If what is selected by p is what nothing beats, resolution selects by p.
  lemma ResolveSelects(env: Env, o: seq<Ty>, call: Call, p: App -> bool)
    requires ValidOverloads(o) && call.Valid()
    requires forall x :: x in Candidates(env, o, call) ==> (p(x) <==> !Beaten(x, Candidates(env, o, call)))
    ensures Resolve(env, o, call) == Reverse(Filter(Candidates(env, o, call), p))
  {
    var c := Candidates(env, o, call);
    hide Candidates;
    FilterAgrees(c, p, NotBeatenIn(c));
    if |c| == 1 {
      BetterIsStrictPartialOrder(c[0], c[0], c[0]);
      assert c == [c[0]];
      FilterOne(c[0], p);
      ReverseOne(c[0]);
    }
  }

  /** The exact fast path returns what the general method returns, in the
      opposite order. */
  lemma ExactFastPath(env: Env, o: seq<Ty>, call: Call)
    requires SoundTypes(env, o) && call.Valid() && ExactMatches(env, o, call) != []
    ensures Resolve(env, o, call) == Reverse(ExactMatches(env, o, call))
  {
    var c := Candidates(env, o, call);
    CandidatesScored(env, o, call);
    ExactSelects(env, o, call);
    FilterMembers(c, Exact);
    var e := ExactMatches(env, o, call)[0];
    assert e in ExactMatches(env, o, call);
    forall x | x in c
      ensures Exact(x) <==> !Beaten(x, c)
    {
      ExactBeatsAllOthers(c, call.Count(), e, x);
    }
    ResolveSelects(env, o, call, Exact);
  }

  /* Half-exact matching. */

  lemma {:induction false} ArgumentScore(env: Env, sig: Signature, s: AppState, source: Formal, a: Exp, e: nat)
    requires WellFormed(sig) && Shape(sig, s)
    ensures var m := MatchArgument(env, sig, s, source, a, e);
            m.Some? ==>
              && |m.value.scores| == |s.scores| + 1
              && (m.value.scores[|s.scores|] > CAST ==> m.value.index == |sig.formals| && sig.rest.Some?)
              && (s.index == |sig.formals| ==> m.value.scores[|s.scores|] > CAST)
    decreases |s.args| - s.index
  {
    if s.index < |s.args| && !Fits(env, sig, s.index, source) && FillDefault(sig, s).Some? {
      ArgumentScore(env, sig, FillDefault(sig, s).value, source, a, e);
    }
  }

  // After one argument has been packed, so is the next; and nothing is packed
  // without a rest formal.
  lemma TwoArguments(env: Env, fn: Ty, call: Call)
    requires MatchableFn(fn) && call.Valid() && !NamedFormals(call.source) && !fn.sig.isOpen
    requires |call.source.formals| == 2 && call.source.rest.None?
    requires Match(env, fn, call).Some?
    ensures var scores := Match(env, fn, call).value.st.scores;
            && |scores| == 2
            && (scores[0] > CAST ==> scores[1] > CAST)
            && (scores[1] > CAST ==> fn.sig.rest.Some?)
  {
    var u := MatchSteps(env, fn.sig, call);
    hide MatchArgument, CastScore, MatchSignature;
    var f, s := call.source.formals, Blank(fn.sig);
    ArgumentScore(env, fn.sig, s, f[0], call.al.args[0], call.EvalIndex(0));
    var r := MatchArgument(env, fn.sig, s, f[0], call.al.args[0], call.EvalIndex(0)).value;
    ArgumentScore(env, fn.sig, r, f[1], call.al.args[1], call.EvalIndex(1));
    ScoresGrow(env, fn.sig, call, 1, r);
    assert u.scores[0] == r.scores[0];
    assert MatchUnnamed(env, fn.sig, call, 1, r) ==
           MatchArgument(env, fn.sig, r, f[1], call.al.args[1], call.EvalIndex(1));
  }

  // A candidate that takes the first argument exactly and packs the second.
  predicate PacksSecond(a: App) {
    !a.IsOpen() && |a.st.scores| == 2 && a.st.scores[0] == EXACT && a.st.scores[1] > CAST
  }

  // Packing the second argument is incomparable with casting the first, so a
  // candidate that does so escapes unless another only casts the second.
  predicate PackingEscapes(c: seq<App>) {
    && (exists x :: x in c && PacksSecond(x))
    && !(exists y :: y in c && !y.IsOpen() && y.st.scores == [EXACT, CAST])
  }

  // Two-argument candidates of which none is exact.
  ghost predicate HalfExactField(c: seq<App>) {
    && Scored(c, 2)
    && (forall a :: a in c ==> !Exact(a))
    && (forall a :: a in c && !a.IsOpen() && a.st.scores[0] > CAST ==> a.st.scores[1] > CAST)
  }

  lemma HalfExactUnbeaten(c: seq<App>, x: App)
    requires HalfExactField(c) && x in c && HalfExact(x)
    ensures !Beaten(x, c)
  {
    forall y | y in c
      ensures !Better(y, x)
    {
      if !y.IsOpen() && AsGood(y, x) {
        assert y.st.scores == [y.st.scores[0], y.st.scores[1]];
        assert AsGood(x, y);
      }
    }
  }

  lemma OthersBeaten(c: seq<App>, h: App, x: App)
    requires HalfExactField(c) && h in c && HalfExact(h) && x in c && !HalfExact(x)
    requires !PackingEscapes(c) || !PacksSecond(x)
    ensures Beaten(x, c)
  {
    if x.IsOpen() {
      assert Better(h, x);
    } else {
      assert x.st.scores == [x.st.scores[0], x.st.scores[1]];
      if x.st.scores[0] == EXACT {
        assert PacksSecond(x);
        var y :| y in c && !y.IsOpen() && y.st.scores == [EXACT, CAST];
        assert Better(y, x);
      } else {
        assert Better(h, x);
      }
    }
  }

  lemma EscapeeOnlyBeatenBySame(c: seq<App>, z: App, x: App)
    requires HalfExactField(c) && PackingEscapes(c) && z in c && PacksSecond(x) && Better(z, x)
    ensures !HalfExact(z)
  {
    assert z.st.scores[0] == EXACT;
  }

  lemma EscapeShows(c: seq<App>)
    requires HalfExactField(c) && PackingEscapes(c)
    ensures exists z :: z in Unbeaten(c) && !HalfExact(z)
  {
    UnbeatenMembers(c);
    var x :| x in c && PacksSecond(x);
    hide Unbeaten, Better;
    if Beaten(x, c) {
      BeatenByUnbeaten(c, x);
      var z :| z in Unbeaten(c) && Better(z, x);
      EscapeeOnlyBeatenBySame(c, z, x);
    } else {
      assert x in Unbeaten(c) && !HalfExact(x);
    }
  }

  lemma HalfExactFieldOf(env: Env, o: seq<Ty>, call: Call)
    requires SoundTypes(env, o) && call.Valid() && !NamedFormals(call.source)
    requires |call.source.formals| == 2 && call.source.rest.None?
    requires ExactMatches(env, o, call) == []
    ensures HalfExactField(Candidates(env, o, call))
  {
    var c := Candidates(env, o, call);
    CandidatesScored(env, o, call);
    ExactSelects(env, o, call);
    FilterMembers(c, Exact);
    assert Filter(c, Exact) == [];
    forall a | a in c
      ensures !Exact(a)
    {
      assert a !in Filter(c, Exact);
    }
    forall a | a in c && !a.IsOpen()
      ensures a.st.scores[0] > CAST ==> a.st.scores[1] > CAST
    {
      TwoArguments(env, a.fn, call);
    }
  }

  // The half-exact list, as a selection from the candidates.
  lemma HalfExactSituation(env: Env, o: seq<Ty>, call: Call) returns (h: App)
    requires SoundTypes(env, o) && call.Valid()
    requires ExactMatches(env, o, call) == [] && HalfExactMatches(env, o, call) != []
    ensures HalfExactField(Candidates(env, o, call))
    ensures HalfExactMatches(env, o, call) == Filter(Candidates(env, o, call), HalfExact)
    ensures h in Candidates(env, o, call) && HalfExact(h)
  {
    hide Filter, ExactMatches, Candidates, HalfExactCandidates, HalfExactField, Symmetric, NoErrors;
    HalfExactSelects(env, o, call);
    HalfExactFieldOf(env, o, call);
    FilterMembers(Candidates(env, o, call), HalfExact);
    h := HalfExactMatches(env, o, call)[0];
    assert h in HalfExactMatches(env, o, call);
  }

  /** When the half-exact fast path is taken, it returns what the general
      method returns, in the opposite order, ... */
  lemma HalfExactFastPath(env: Env, o: seq<Ty>, call: Call)
    requires SoundTypes(env, o) && call.Valid()
    requires ExactMatches(env, o, call) == [] && HalfExactMatches(env, o, call) != []
    requires !PackingEscapes(Candidates(env, o, call))
    ensures Resolve(env, o, call) == Reverse(HalfExactMatches(env, o, call))
  {
    var c := Candidates(env, o, call);
    var h := HalfExactSituation(env, o, call);
    hide SoundTypes, Filter, ExactMatches, HalfExactMatches, HalfExactField, PackingEscapes, Beaten, Candidates, Resolve;
    forall x | x in c
      ensures HalfExact(x) <==> !Beaten(x, c)
    {
      if HalfExact(x) {
        HalfExactUnbeaten(c, x);
      } else {
        OthersBeaten(c, h, x);
      }
    }
    ResolveSelects(env, o, call, HalfExact);
  }

  /** ... unless a candidate that packs its second argument escapes. */
  lemma HalfExactEscape(env: Env, o: seq<Ty>, call: Call)
    requires SoundTypes(env, o) && call.Valid()
    requires ExactMatches(env, o, call) == [] && HalfExactMatches(env, o, call) != []
    requires PackingEscapes(Candidates(env, o, call))
    ensures exists z :: z in Resolve(env, o, call) && z !in HalfExactMatches(env, o, call)
  {
    var c := Candidates(env, o, call);
    var h := HalfExactSituation(env, o, call);
    var x :| x in c && PacksSecond(x);
    var i, j :| 0 <= i < |c| && 0 <= j < |c| && c[i] == h && c[j] == x;
    assert i != j;
    hide SoundTypes, Filter, ExactMatches, HalfExactMatches, HalfExactField, PackingEscapes, Candidates, Unbeaten;
    EscapeShows(c);
    FilterMembers(c, HalfExact);
  }

  // The one situation in which the fast paths mislead.
  ghost predicate FastPathMisled(env: Env, o: seq<Ty>, call: Call)
    requires ValidOverloads(o) && call.Valid()
  {
    && ExactMatches(env, o, call) == []
    && HalfExactMatches(env, o, call) != []
    && PackingEscapes(Candidates(env, o, call))
  }

  /** Resolution with its fast paths returns the same applications as the
      general method exactly when no packing candidate escapes the half-exact
      path. */
  lemma MultimatchAgreesIff(env: Env, o: seq<Ty>, call: Call)
    requires SoundTypes(env, o) && call.Valid()
    ensures multiset(MultimatchResult(env, o, call)) == multiset(Resolve(env, o, call))
            <==> !FastPathMisled(env, o, call)
  {
    hide ExactMatches, HalfExactMatches, Resolve, Candidates, PackingEscapes;
    var exact, half := ExactMatches(env, o, call), HalfExactMatches(env, o, call);
    if exact != [] {
      ExactFastPath(env, o, call);
      ReverseMultiset(exact);
    } else if half != [] {
      if !FastPathMisled(env, o, call) {
        HalfExactFastPath(env, o, call);
        ReverseMultiset(half);
      } else {
        HalfExactEscape(env, o, call);
        var z :| z in Resolve(env, o, call) && z !in half;
        assert z in multiset(Resolve(env, o, call)) && z !in multiset(half);
      }
    }
  }

  /** Without rest formals the fast paths never mislead. */
  lemma NoRestNeverMisled(env: Env, o: seq<Ty>, call: Call)
    requires SoundTypes(env, o) && call.Valid()
    requires forall t :: t in o && t.Function? ==> t.sig.rest.None?
    ensures !FastPathMisled(env, o, call)
  {
    hide Resolve, ExactMatches;
    if HalfExactMatches(env, o, call) != [] && PackingEscapes(Candidates(env, o, call)) {
      CandidatesScored(env, o, call);
      var x :| x in Candidates(env, o, call) && PacksSecond(x);
      TwoArguments(env, x.fn, call);
    }
  }

  method InexactMultimatch(env: Env, o: seq<Ty>, call: Call) returns (l: seq<App>)
    requires ValidOverloads(o) && call.Valid()
    ensures l == Resolve(env, o, call)
  {
    hide Match, Unbeaten;
    l := [];
    var i := 0;
    while i < |o|
      invariant 0 <= i <= |o|
      invariant l == Candidates(env, o[..i], call)
    {
      assert o[..i + 1][..i] == o[..i];
      if o[i].Function? && !TooManyArgs(o[i].sig, call.source) {
        var a := MatchCall(env, o[i], call);
        if a.Some? {
          l := l + [a.value];
        }
      }
      i := i + 1;
    }
    assert o[..i] == o;
    hide Candidates;
    if |l| > 1 {
      CandidatesScored(env, o, call);
      l := Maximize(l);
    }
  }

  /** multimatch */
  method ResolveCall(env: Env, o: seq<Ty>, call: Call) returns (l: seq<App>)
    requires SoundTypes(env, o) && call.Valid()
    ensures !FastPathMisled(env, o, call) ==> multiset(l) == multiset(Resolve(env, o, call))
    ensures l == MultimatchResult(env, o, call)
  {
    MultimatchAgreesIff(env, o, call);
    hide Resolve, ExactMatches, HalfExactMatches, FastPathMisled;
    l := ExactMultimatch(env, o, call);
    if l != [] {
      return;
    }
    l := HalfExactMultimatch(env, o, call);
    if l != [] {
      return;
    }
    l := InexactMultimatch(env, o, call);
  }

  /* A set of overloads on which the half-exact path misleads: the call f(1, 2)
     against f(real, int) and f(int ... int[]). */

  const INT := Primitive(0)
  const REAL := Primitive(1)

  function Plainly(t: Ty): Formal { Formal(t, None, false, false) }

  const CAST_FIRST := Function(INT, Signature([Plainly(REAL), Plainly(INT)], 0, None, false, false))
  const PACK_SECOND := Function(INT, Signature([Plainly(INT)], 0, Some(Plainly(Array(INT))), false, false))
  const INTS_TO_REALS := Env(Equivalent, (target, source) => target == REAL && source == INT, t => false)
  const TWO_INTS := Call(Signature([Plainly(INT), Plainly(INT)], 0, None, false, false), Arglist([0, 1], None, 9999))

  lemma CastFirstMatches()
    ensures Match(INTS_TO_REALS, CAST_FIRST, TWO_INTS).Some?
    ensures Match(INTS_TO_REALS, CAST_FIRST, TWO_INTS).value.st.scores == [CAST, EXACT]
  {
    var env, sig, call := INTS_TO_REALS, CAST_FIRST.sig, TWO_INTS;
    NoNamesPass(env, sig, call, 0, Blank(sig));
    var s1 := Place(sig, Blank(sig), 0, 0, 0, CAST);
    assert MatchArgument(env, sig, Blank(sig), call.source.formals[0], 0, 0) == Some(s1);
    var s2 := Place(sig, s1, 1, 1, 1, EXACT);
    assert s1.index == 1;
    assert MatchArgument(env, sig, s1, call.source.formals[1], 1, 1) == Some(s2);
    assert MatchUnnamed(env, sig, call, 2, s2) == Some(s2);
    assert MatchUnnamed(env, sig, call, 1, s1) == Some(s2);
  }

  lemma PackSecondMatches()
    ensures Match(INTS_TO_REALS, PACK_SECOND, TWO_INTS).Some?
    ensures Match(INTS_TO_REALS, PACK_SECOND, TWO_INTS).value.st.scores == [EXACT, EXACT + PACKED]
  {
    var env, sig, call := INTS_TO_REALS, PACK_SECOND.sig, TWO_INTS;
    NoNamesPass(env, sig, call, 0, Blank(sig));
    var s1 := Place(sig, Blank(sig), 0, 0, 0, EXACT);
    assert MatchArgument(env, sig, Blank(sig), call.source.formals[0], 0, 0) == Some(s1);
    var s2 := PackIntoRest(env, sig, s1, call.source.formals[1], 1, 1).value;
    assert MatchArgument(env, sig, s1, call.source.formals[1], 1, 1) == Some(s2);
    assert MatchUnnamed(env, sig, call, 2, s2) == Some(s2);
    assert MatchUnnamed(env, sig, call, 1, s1) == Some(s2);
  }

  lemma MisleadingCandidates() returns (a: App, b: App)
    ensures SoundTypes(INTS_TO_REALS, [CAST_FIRST, PACK_SECOND]) && TWO_INTS.Valid()
    ensures Candidates(INTS_TO_REALS, [CAST_FIRST, PACK_SECOND], TWO_INTS) == [a, b]
    ensures !a.IsOpen() && a.st.scores == [CAST, EXACT]
    ensures !b.IsOpen() && b.st.scores == [EXACT, EXACT + PACKED]
  {
    var env, one, o, call := INTS_TO_REALS, [CAST_FIRST], [CAST_FIRST, PACK_SECOND], TWO_INTS;
    assert o[..1] == one && one[..0] == [];
    forall t, u | Equivalent(t, u)
      ensures Equivalent(u, t)
    {
      EquivalenceRelation(t, u, u);
    }
    CastFirstMatches();
    PackSecondMatches();
    a, b := Match(env, CAST_FIRST, call).value, Match(env, PACK_SECOND, call).value;
    hide MatchSignature;
    assert Candidates(env, one[..0], call) == [];
    assert Candidate(env, CAST_FIRST, call) == [a];
    assert Candidates(env, one, call) == [a];
    assert Candidate(env, PACK_SECOND, call) == [b];
  }

  /** For this call the fast path settles on f(real, int), although the general
      method finds it ambiguous with f(int ... int[]). */
  lemma HalfExactCanMislead()
    ensures SoundTypes(INTS_TO_REALS, [CAST_FIRST, PACK_SECOND]) && TWO_INTS.Valid()
    ensures FastPathMisled(INTS_TO_REALS, [CAST_FIRST, PACK_SECOND], TWO_INTS)
  {
    var env, o, call := INTS_TO_REALS, [CAST_FIRST, PACK_SECOND], TWO_INTS;
    var a, b := MisleadingCandidates();
    hide Candidates, ExactCandidates, HalfExactCandidates, SoundTypes;
    ExactSelects(env, o, call);
    FilterMembers([a, b], Exact);
    HalfExactSelects(env, o, call);
    FilterMembers([a, b], HalfExact);
    hide Filter;
    assert a in HalfExactMatches(env, o, call);
    assert PacksSecond(b) && b in [a, b];
    assert PackingEscapes([a, b]);
    assert Filter([a, b], Exact) == [] by {
      assert a.st.scores[0] == CAST && b.st.scores[1] == EXACT + PACKED;
      assert !Exact(a) && !Exact(b);
      HeadMember(Filter([a, b], Exact));
    }
  }
}
