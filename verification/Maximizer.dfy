/** Choosing the most specific applications by comparing scores pointwise. */
module Maximizers {
  import opened Applications
  import opened Lists

  // Score by score, x costs no more than y; matches to open signatures come last
  // and are all alike.
  predicate AsGood(x: App, y: App) {
    if x.IsOpen() then y.IsOpen()
    else if y.IsOpen() then true
    else
      && |x.st.scores| == |y.st.scores|
      && forall i :: 0 <= i < |x.st.scores| ==> x.st.scores[i] <= y.st.scores[i]
  }

  predicate Better(x: App, y: App) {
    AsGood(x, y) && !AsGood(y, x)
  }

  // The assertion made before two score vectors are compared.
  predicate Comparable(x: App, y: App) {
    x.IsOpen() || y.IsOpen() || |x.st.scores| == |y.st.scores|
  }

  lemma AsGoodIsPreorder(x: App, y: App, z: App)
    ensures AsGood(x, x)
    ensures AsGood(x, y) && AsGood(y, z) ==> AsGood(x, z)
  {
    if AsGood(x, y) && AsGood(y, z) && !z.IsOpen() {
      forall i | 0 <= i < |x.st.scores|
        ensures x.st.scores[i] <= z.st.scores[i]
      {
        assert x.st.scores[i] <= y.st.scores[i] <= z.st.scores[i];
      }
    }
  }

  lemma BetterIsStrictPartialOrder(x: App, y: App, z: App)
    ensures !Better(x, x)
    ensures Better(x, y) ==> !Better(y, x)
    ensures Better(x, y) && Better(y, z) ==> Better(x, z)
  {
    hide AsGood;
    AsGoodIsPreorder(x, y, z);
    AsGoodIsPreorder(z, x, y);
  }

  predicate Beaten(x: App, pool: seq<App>) {
    exists y :: y in pool && Better(y, x)
  }

  function NotBeatenIn(pool: seq<App>): App -> bool {
    x => !Beaten(x, pool)
  }

  function NotBeatenBy(z: App): App -> bool {
    x => !Better(z, x)
  }

  // The members of the pool that no member beats, latest first.
  function Unbeaten(pool: seq<App>): seq<App> {
    Reverse(Filter(pool, NotBeatenIn(pool)))
  }

  lemma UnbeatenMembers(pool: seq<App>)
    ensures forall x :: x in Unbeaten(pool) <==> x in pool && !Beaten(x, pool)
  {
    ReverseMembers(Filter(pool, NotBeatenIn(pool)));
    FilterMembers(pool, NotBeatenIn(pool));
  }

  lemma BeatenByOneMore(x: App, pool: seq<App>, z: App)
    ensures Beaten(x, pool + [z]) <==> Beaten(x, pool) || Better(z, x)
  {
    if Beaten(x, pool) {
      var y :| y in pool && Better(y, x);
      assert y in pool + [z];
    }
    assert z in pool + [z];
  }

  // A newcomer that somebody beats changes nothing ...
  lemma UnbeatenIgnores(pool: seq<App>, z: App)
    requires Beaten(z, pool)
    ensures Unbeaten(pool + [z]) == Unbeaten(pool)
  {
    var p, p' := NotBeatenIn(pool), NotBeatenIn(pool + [z]);
    forall x
      ensures p(x) == p'(x)
    {
      BeatenByOneMore(x, pool, z);
      if Better(z, x) {
        var y :| y in pool && Better(y, z);
        BetterIsStrictPartialOrder(y, z, x);
      }
    }
    FilterConcat(pool, [z], p');
    FilterAgrees(pool, p, p');
    assert Filter([z], p') == [];
    assert Filter(pool, p') + [] == Filter(pool, p');
  }

  lemma NotBeatenGains(pool: seq<App>, z: App)
    requires !Beaten(z, pool)
    ensures Filter(pool + [z], NotBeatenIn(pool + [z])) ==
            Filter(Filter(pool, NotBeatenIn(pool)), NotBeatenBy(z)) + [z]
  {
    hide Filter;
    var p, p', q := NotBeatenIn(pool), NotBeatenIn(pool + [z]), NotBeatenBy(z);
    BeatenByOneMore(z, pool, z);
    BetterIsStrictPartialOrder(z, z, z);
    FilterConcat(pool, [z], p');
    FilterOne(z, p');
    forall x | x in pool
      ensures p'(x) == (p(x) && q(x))
    {
      BeatenByOneMore(x, pool, z);
    }
    hide Beaten, Better;
    FilterTwice(pool, p, q);
    FilterAgrees(pool, p', Both(p, q));
  }

  // ... and otherwise it drives out what it beats and comes first.
  lemma UnbeatenGains(pool: seq<App>, z: App)
    requires !Beaten(z, pool)
    ensures Unbeaten(pool + [z]) == [z] + Filter(Unbeaten(pool), NotBeatenBy(z))
  {
    hide Filter, Reverse, NotBeatenIn, NotBeatenBy, Beaten, Better;
    var survivors := Filter(pool, NotBeatenIn(pool));
    NotBeatenGains(pool, z);
    FilterReverse(survivors, NotBeatenBy(z));
    ReverseConcat(Filter(survivors, NotBeatenBy(z)), [z]);
    ReverseOne(z);
  }

  lemma {:induction false} BeatenByUnbeaten(pool: seq<App>, x: App)
    requires Beaten(x, pool)
    ensures Beaten(x, Unbeaten(pool))
    decreases |pool|
  {
    var init, z := pool[..|pool| - 1], pool[|pool| - 1];
    assert pool == init + [z];
    BeatenByOneMore(x, init, z);
    UnbeatenMembers(pool);
    if Beaten(z, init) {
      UnbeatenIgnores(init, z);
      if !Beaten(x, init) {
        var y :| y in init && Better(y, z);
        BetterIsStrictPartialOrder(y, z, x);
      }
      BeatenByUnbeaten(init, x);
    } else {
      UnbeatenGains(init, z);
      if Beaten(x, init) {
        BeatenByUnbeaten(init, x);
        var y :| y in Unbeaten(init) && Better(y, x);
        BetterIsStrictPartialOrder(z, y, x);
        FilterMembers(Unbeaten(init), NotBeatenBy(z));
      }
    }
  }

  /** Whatever is compared only with the survivors so far could as well have
      been compared with everything seen. */
  lemma SurvivorsDecide(pool: seq<App>, x: App)
    ensures Beaten(x, Unbeaten(pool)) <==> Beaten(x, pool)
  {
    UnbeatenMembers(pool);
    if Beaten(x, pool) {
      BeatenByUnbeaten(pool, x);
    }
  }

  class Maximizer {
    var l: seq<App>
    ghost var seen: seq<App>

    // The list holds exactly the candidates that no candidate seen beats.
    ghost predicate Valid()
      reads this
    {
      l == Unbeaten(seen)
    }

    constructor ()
      ensures Valid() && seen == []
    {
      l := [];
      seen := [];
    }

    method Maximal(x: App) returns (r: bool)
      requires Valid() && forall y :: y in seen ==> Comparable(y, x)
      ensures r == !Beaten(x, seen)
    {
      SurvivorsDecide(seen, x);
      UnbeatenMembers(seen);
      hide Unbeaten, Better;
      var i := 0;
      while i < |l|
        invariant 0 <= i <= |l|
        invariant forall j :: 0 <= j < i ==> !Better(l[j], x)
      {
        assert l[i] in l && Comparable(l[i], x);
        if Better(l[i], x) {
          return false;
        }
        i := i + 1;
      }
      return true;
    }

    // Erase from the list what x beats.
    method RemoveBeaten(x: App)
      modifies this`l
      ensures l == Filter(old(l), NotBeatenBy(x))
    {
      var y := 0;
      ghost var keep := NotBeatenBy(x);
      assert l[..y] == [] && l[y..] == l;
      while y < |l|
        invariant 0 <= y <= |l|
        invariant Filter(old(l), keep) == l[..y] + Filter(l[y..], keep)
        decreases |l| - y
      {
        var rest := l[y + 1..];
        assert l[y..] == [l[y]] + rest;
        FilterConcat([l[y]], rest, keep);
        FilterOne(l[y], keep);
        hide Filter, Better;
        if Better(x, l[y]) {
          ghost var kept := l[..y];
          l := l[..y] + rest;
          assert l[y..] == rest && l[..y] == kept;
        } else {
          assert l[..y + 1] == l[..y] + [l[y]];
          y := y + 1;
        }
      }
      assert l[..y] == l && l[y..] == [];
    }

    method AddMaximal(x: App)
      requires Valid() && !Beaten(x, seen)
      modifies this
      ensures Valid() && seen == old(seen) + [x]
    {
      RemoveBeaten(x);
      UnbeatenGains(seen, x);
      l := [x] + l;
      seen := seen + [x];
    }

    method Add(x: App)
      requires Valid() && forall y :: y in seen ==> Comparable(y, x)
      modifies this
      ensures Valid() && seen == old(seen) + [x]
    {
      var maximal := Maximal(x);
      if maximal {
        AddMaximal(x);
      } else {
        UnbeatenIgnores(seen, x);
        seen := seen + [x];
      }
    }
  }

  /** For any order of insertion, what is left are the candidates that no
      candidate beats. */
  method Maximize(xs: seq<App>) returns (r: seq<App>)
    requires forall x, y :: x in xs && y in xs ==> Comparable(x, y)
    ensures r == Unbeaten(xs)
  {
    var m := new Maximizer();
    var i := 0;
    while i < |xs|
      invariant 0 <= i <= |xs| && m.Valid() && m.seen == xs[..i]
    {
      m.Add(xs[i]);
      i := i + 1;
    }
    assert xs[..i] == xs;
    r := m.l;
  }
}
