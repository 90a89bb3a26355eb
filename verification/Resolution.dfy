/** Overload resolution, told overload by overload: what is left are the matches
    that no other match beats, score by score. */
module Resolutions {
  import opened Options
  import opened Types
  import opened Applications
  import opened Lists
  import opened Maximizers
  import opened Multimatch
  import opened MultimatchProofs

  // x matches a normal signature, and y an open one or, score by score, no better
  // and somewhere worse.
  predicate Cheaper(x: App, y: App) {
    && !x.IsOpen()
    && (y.IsOpen() ||
        (&& |x.st.scores| == |y.st.scores|
         && (forall i :: 0 <= i < |x.st.scores| ==> x.st.scores[i] <= y.st.scores[i])
         && exists i :: 0 <= i < |x.st.scores| && x.st.scores[i] < y.st.scores[i]))
  }

  lemma BetterIff(x: App, y: App)
    ensures Better(x, y) <==> Cheaper(x, y)
  {
  }

  predicate IsMatch(env: Env, o: seq<Ty>, call: Call, a: App)
    requires ValidOverloads(o) && call.Valid()
  {
    a.fn in o && a.fn.Function? && Match(env, a.fn, call) == Some(a)
  }

  /** The candidates are the matches, each as often as its overload is listed. */
  lemma {:induction false} CandidateCounts(env: Env, o: seq<Ty>, call: Call, a: App)
    requires ValidOverloads(o) && call.Valid()
    ensures multiset(Candidates(env, o, call))[a] == if IsMatch(env, o, call, a) then multiset(o)[a.fn] else 0
  {
    hide Match, TooManyArgs;
    if o != [] {
      var init, fn := o[..|o| - 1], o[|o| - 1];
      assert o == init + [fn];
      CandidateCounts(env, init, call, a);
      if fn.Function? {
        MatchesOwn(env, fn, call);
        if TooManyArgs(fn.sig, call.source) && Match(env, fn, call).Some? {
          MatchedNotTooMany(env, fn, call);
        }
      }
    }
  }

  // Some match is cheaper.
  ghost predicate Dominated(env: Env, o: seq<Ty>, call: Call, a: App)
    requires ValidOverloads(o) && call.Valid()
  {
    exists fn :: fn in o && fn.Function? && Match(env, fn, call).Some? && Cheaper(Match(env, fn, call).value, a)
  }

  lemma BeatenIffDominated(env: Env, o: seq<Ty>, call: Call, a: App)
    requires ValidOverloads(o) && call.Valid()
    ensures Beaten(a, Candidates(env, o, call)) <==> Dominated(env, o, call, a)
  {
    hide Match, Candidates, Better, Cheaper;
    var c := Candidates(env, o, call);
    if Beaten(a, c) {
      var y :| y in c && Better(y, a);
      BetterIff(y, a);
      CandidateCounts(env, o, call, y);
      assert y in multiset(c);
    }
    if Dominated(env, o, call, a) {
      var fn :| fn in o && fn.Function? && Match(env, fn, call).Some? && Cheaper(Match(env, fn, call).value, a);
      var y := Match(env, fn, call).value;
      MatchesOwn(env, fn, call);
      BetterIff(y, a);
      CandidateCounts(env, o, call, y);
      assert fn in multiset(o);
      assert y in multiset(c);
    }
  }

  /** Full resolution, exactly: each match that no match is cheaper than, as often as
      its overload is listed, and nothing else. */
  lemma ResolveCounts(env: Env, o: seq<Ty>, call: Call, a: App)
    requires ValidOverloads(o) && call.Valid()
    ensures multiset(Resolve(env, o, call))[a] ==
            if IsMatch(env, o, call, a) && !Dominated(env, o, call, a) then multiset(o)[a.fn] else 0
  {
    hide IsMatch, Dominated, Candidates, Filter, Reverse, Better;
    var c := Candidates(env, o, call);
    CandidateCounts(env, o, call, a);
    BeatenIffDominated(env, o, call, a);
    if |c| > 1 {
      FilterCounts(c, NotBeatenIn(c), a);
      ReverseMultiset(Filter(c, NotBeatenIn(c)));
    } else if Beaten(a, c) && a in c {
      BetterIsStrictPartialOrder(a, a, a);
      assert false;
    }
  }

  /** So is the result of the shortcuts, for every call that does not mislead them. */
  lemma ResultCounts(env: Env, o: seq<Ty>, call: Call, a: App)
    requires SoundTypes(env, o) && call.Valid() && !FastPathMisled(env, o, call)
    ensures multiset(MultimatchResult(env, o, call))[a] ==
            if IsMatch(env, o, call, a) && !Dominated(env, o, call, a) then multiset(o)[a.fn] else 0
  {
    hide IsMatch, Dominated, Resolve, MultimatchResult, FastPathMisled;
    MultimatchAgreesIff(env, o, call);
    ResolveCounts(env, o, call, a);
  }
}
