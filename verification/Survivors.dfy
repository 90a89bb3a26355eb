/** Which triangles a point drives out of the mesh, which it adds, and which marks
    are set: exact counts, whatever the geometric tests answer. */
module Survivors {
  import opened Delaunay

  // The triangles of a mesh with their marks.
  function Pairs(m: Mesh): (r: seq<(Triangle, bool)>)
    requires m.Valid()
    ensures |r| == |m.tris|
  {
    seq(|m.tris|, k requires 0 <= k < |m.tris| => (m.tris[k], m.done[k]))
  }

  // How often t has mark d after the scan, of what is still to be scanned.
  function Kept(ps: multiset<(Triangle, bool)>, i: nat, o: Oracle, t: Triangle, d: bool): nat {
    if o.inside(t, i) then (if d then ps[(t, true)] else 0)
    else if o.finished(t, i) then (if d then ps[(t, true)] + ps[(t, false)] else 0)
    else ps[(t, d)]
  }

  lemma KeptOne(p: (Triangle, bool), ps: multiset<(Triangle, bool)>, i: nat, o: Oracle, t: Triangle, d: bool)
    ensures Kept(multiset{p} + ps, i, o, t, d) == Kept(multiset{p}, i, o, t, d) + Kept(ps, i, o, t, d)
  {
  }

  // The sequence with its last element at position j.
  function Swapped(ps: seq<(Triangle, bool)>, j: nat): (r: seq<(Triangle, bool)>)
    requires j < |ps|
    ensures |r| == |ps| - 1
  {
    ps[j := ps[|ps| - 1]][..|ps| - 1]
  }

  lemma SwapDeletePairs(m: Mesh, j: nat)
    requires m.Valid() && j < |m.tris|
    ensures Pairs(SwapDelete(m, j)) == Swapped(Pairs(m), j)
  {
  }

  // What is left from j on is what was after j, the last element first.
  lemma SwappedTail(ps: seq<(Triangle, bool)>, j: nat)
    requires j < |ps|
    ensures Swapped(ps, j)[..j] == ps[..j]
    ensures multiset(Swapped(ps, j)[j..]) == multiset(ps[j + 1..])
    ensures j + 1 < |ps| ==> Swapped(ps, j)[j..] == [ps[|ps| - 1]] + ps[j + 1..|ps| - 1]
    ensures j + 1 == |ps| ==> Swapped(ps, j)[j..] == []
  {
    var r, n := Swapped(ps, j), |ps| - 1;
    if j < n {
      assert r[j..] == [ps[n]] + ps[j + 1..n];
      assert ps[j + 1..] == ps[j + 1..n] + [ps[n]];
    } else {
      assert ps[j + 1..] == [];
    }
  }

  lemma MarkPairs(m: Mesh, j: nat, b: bool)
    requires m.Valid() && j < |m.tris|
    ensures Pairs(m.(done := m.done[j := b])) == Pairs(m)[j := (m.tris[j], b)]
  {
  }

  // What is counted of ps when positions before j are scanned and the others are not.
  function Midway(ps: seq<(Triangle, bool)>, j: nat, i: nat, o: Oracle, t: Triangle, d: bool): nat
    requires j <= |ps|
  {
    multiset(ps[..j])[(t, d)] + Kept(multiset(ps[j..]), i, o, t, d)
  }

  lemma KeptSingle(p: (Triangle, bool), i: nat, o: Oracle, t: Triangle, d: bool)
    ensures Kept(multiset{p}, i, o, t, d) ==
            if p.1 then multiset{p}[(t, d)]
            else if o.inside(p.0, i) then 0
            else multiset{(p.0, o.finished(p.0, i))}[(t, d)]
  {
  }

  // Position j is scanned, and marked or not.
  lemma MidwayStep(ps: seq<(Triangle, bool)>, j: nat, b: bool, i: nat, o: Oracle, t: Triangle, d: bool)
    requires j < |ps|
    requires ps[j].1 || !o.inside(ps[j].0, i)
    requires b == (ps[j].1 || o.finished(ps[j].0, i))
    ensures Midway(ps[j := (ps[j].0, b)], j + 1, i, o, t, d) == Midway(ps, j, i, o, t, d)
  {
    hide Kept;
    var p, r := ps[j], ps[j := (ps[j].0, b)];
    assert ps[j..] == [p] + ps[j + 1..];
    assert r[..j + 1] == ps[..j] + [r[j]] && r[j + 1..] == ps[j + 1..];
    KeptOne(p, multiset(ps[j + 1..]), i, o, t, d);
    KeptSingle(p, i, o, t, d);
  }

  // Position j is deleted.
  lemma MidwayDelete(ps: seq<(Triangle, bool)>, j: nat, i: nat, o: Oracle, t: Triangle, d: bool)
    requires j < |ps| && !ps[j].1 && o.inside(ps[j].0, i)
    ensures Midway(Swapped(ps, j), j, i, o, t, d) == Midway(ps, j, i, o, t, d)
  {
    hide Kept, Swapped;
    SwappedTail(ps, j);
    assert ps[j..] == [ps[j]] + ps[j + 1..];
    KeptOne(ps[j], multiset(ps[j + 1..]), i, o, t, d);
    KeptSingle(ps[j], i, o, t, d);
  }

  /** The scan from triangle j on keeps a triangle that is marked complete or does
      not hold point i as often as it was there, and no other; it leaves the mark
      where there was one, and sets it where no later point can be inside. */
  lemma {:induction false} ScanCounts(m: Mesh, j: nat, i: nat, o: Oracle, t: Triangle, d: bool)
    requires m.Valid() && j <= |m.tris|
    ensures multiset(Pairs(Scan(m, j, i, o).0))[(t, d)] == Midway(Pairs(m), j, i, o, t, d)
    decreases |m.tris| - j
  {
    hide SwapDelete, EdgesOf, Midway, Swapped;
    var ps := Pairs(m);
    if j == |m.tris| {
      AllScanned(ps, i, o, t, d);
    } else if m.done[j] {
      ScanCounts(m, j + 1, i, o, t, d);
      MidwayStep(ps, j, true, i, o, t, d);
      assert ps[j := (ps[j].0, true)] == ps;
    } else if o.inside(m.tris[j], i) {
      ScanCounts(SwapDelete(m, j), j, i, o, t, d);
      MidwayDelete(ps, j, i, o, t, d);
      SwapDeletePairs(m, j);
    } else {
      var b := o.finished(m.tris[j], i);
      ScanCounts(m.(done := m.done[j := b]), j + 1, i, o, t, d);
      MidwayStep(ps, j, b, i, o, t, d);
      MarkPairs(m, j, b);
    }
  }

  lemma AllScanned(ps: seq<(Triangle, bool)>, i: nat, o: Oracle, t: Triangle, d: bool)
    ensures Midway(ps, |ps|, i, o, t, d) == multiset(ps)[(t, d)]
    ensures Midway(ps, 0, i, o, t, d) == Kept(multiset(ps), i, o, t, d)
  {
    assert ps[..|ps|] == ps && ps[|ps|..] == [] && ps[..0] == [] && ps[0..] == ps;
  }

  // How often the triangle runs from p to q along a side.
  function Sides(t: Triangle, p: int, q: int): nat {
    (if t.p1 == p && t.p2 == q then 1 else 0) + (if t.p2 == p && t.p3 == q then 1 else 0)
    + (if t.p3 == p && t.p1 == q then 1 else 0)
  }

  // How often the triangles that point i drives out do.
  function Driven(ps: seq<(Triangle, bool)>, i: nat, o: Oracle, p: int, q: int): nat {
    if ps == [] then 0
    else (if !ps[0].1 && o.inside(ps[0].0, i) then Sides(ps[0].0, p, q) else 0) + Driven(ps[1..], i, o, p, q)
  }

  lemma {:induction false} DrivenConcat(a: seq<(Triangle, bool)>, b: seq<(Triangle, bool)>, i: nat, o: Oracle, p: int, q: int)
    ensures Driven(a + b, i, o, p, q) == Driven(a, i, o, p, q) + Driven(b, i, o, p, q)
  {
    if a == [] {
      assert a + b == b;
    } else {
      assert (a + b)[1..] == a[1..] + b;
      DrivenConcat(a[1..], b, i, o, p, q);
    }
  }

  lemma DrivenSwapped(m: Mesh, j: nat, i: nat, o: Oracle, p: int, q: int)
    requires m.Valid() && j < |m.tris|
    ensures Driven(Pairs(SwapDelete(m, j))[j..], i, o, p, q) == Driven(Pairs(m)[j + 1..], i, o, p, q)
  {
    hide SwapDelete, Driven, Swapped;
    var ps := Pairs(m);
    SwapDeletePairs(m, j);
    SwappedTail(ps, j);
    if j + 1 < |ps| {
      var mid, last := ps[j + 1..|ps| - 1], [ps[|ps| - 1]];
      assert ps[j + 1..] == mid + last;
      DrivenConcat(mid, last, i, o, p, q);
      DrivenConcat(last, mid, i, o, p, q);
    } else {
      assert ps[j + 1..] == [];
    }
  }

  /** The edge buffer holds the sides of the triangles driven out. */
  lemma {:induction false} ScanEdges(m: Mesh, j: nat, i: nat, o: Oracle, p: int, q: int)
    requires m.Valid() && j <= |m.tris|
    ensures multiset(Scan(m, j, i, o).1)[Edge(p, q)] == Driven(Pairs(m)[j..], i, o, p, q)
    decreases |m.tris| - j
  {
    hide SwapDelete;
    var ps := Pairs(m);
    if j < |m.tris| {
      assert ps[j..][1..] == ps[j + 1..];
      if m.done[j] {
        ScanEdges(m, j + 1, i, o, p, q);
      } else if o.inside(m.tris[j], i) {
        ScanEdges(SwapDelete(m, j), j, i, o, p, q);
        DrivenSwapped(m, j, i, o, p, q);
        assert multiset(EdgesOf(m.tris[j]))[Edge(p, q)] == Sides(m.tris[j], p, q);
      } else {
        var b := o.finished(m.tris[j], i);
        ScanEdges(m.(done := m.done[j := b]), j + 1, i, o, p, q);
        MarkPairs(m, j, b);
        assert ps[j := (m.tris[j], b)][j + 1..] == ps[j + 1..];
      }
    }
  }

  lemma {:induction false} SignedIsCounts(es: seq<Edge>, p: int, q: int)
    requires p != q
    ensures Signed(es, p, q) + multiset(es)[Edge(q, p)] == multiset(es)[Edge(p, q)]
  {
    if es != [] {
      var init, last := es[..|es| - 1], es[|es| - 1];
      assert es == init + [last];
      SignedIsCounts(init, p, q);
    }
  }

  function Excess(a: nat, b: nat): nat {
    if a > b then a - b else 0
  }

  /** After cancelling, an edge is left as often as it occurred more often than its
      reverse. */
  lemma TagCounts(es: seq<Edge>, p: int, q: int)
    requires ProperOrTag(es) && 0 <= p && 0 <= q && p != q
    ensures multiset(TagFrom(es, 0))[Edge(p, q)] == Excess(multiset(es)[Edge(p, q)], multiset(es)[Edge(q, p)])
  {
    var r, e, f := TagFrom(es, 0), Edge(p, q), Edge(q, p);
    TagConserves(es, 0, p, q, p);
    TagCancels(es, 0);
    SignedIsCounts(es, p, q);
    SignedIsCounts(r, p, q);
    if e in r && f in r {
      var j, k :| 0 <= j < |r| && 0 <= k < |r| && r[j] == e && r[k] == f;
      assert Opposite(r[j], r[k]) && Opposite(r[k], r[j]);
      assert false;
    }
    assert e in multiset(r) <==> e in r;
    assert f in multiset(r) <==> f in r;
  }

  /** The fan holds one triangle to point i for each edge that is left. */
  lemma {:induction false} FanCounts(es: seq<Edge>, i: nat, t: Triangle)
    ensures multiset(Fan(es, i))[t] ==
            if t.p3 == i && t.p1 >= 0 && t.p2 >= 0 then multiset(es)[Edge(t.p1, t.p2)] else 0
  {
    if es != [] {
      var init, last := es[..|es| - 1], es[|es| - 1];
      assert es == init + [last];
      FanCounts(init, i, t);
    }
  }

  // How often point i makes t: as often as the triangles driven out have its first
  // side more often than the reverse.
  function Made(ps: seq<(Triangle, bool)>, i: nat, o: Oracle, t: Triangle): nat {
    if t.p3 != i then 0 else Excess(Driven(ps, i, o, t.p1, t.p2), Driven(ps, i, o, t.p2, t.p1))
  }

  lemma {:induction false} DrivenProper(tris: seq<Triangle>, ps: seq<(Triangle, bool)>, i: nat, o: Oracle, nv: nat, n: nat, p: int, q: int)
    requires ProperMesh(tris, nv, n) && forall k :: 0 <= k < |ps| ==> ps[k].0 in tris
    ensures Driven(ps, i, o, p, q) > 0 ==> 0 <= p && 0 <= q && p != q
  {
    if ps != [] {
      assert ProperTriangle(ps[0].0, nv, n);
      DrivenProper(tris, ps[1..], i, o, nv, n, p, q);
    }
  }

  lemma AppendedFan(kept: Mesh, fan: seq<Triangle>, t: Triangle, d: bool)
    requires kept.Valid()
    ensures multiset(Pairs(Mesh(kept.tris + fan, kept.done + seq(|fan|, _ => false))))[(t, d)]
            == multiset(Pairs(kept))[(t, d)] + if d then 0 else multiset(fan)[t]
  {
    var m := Mesh(kept.tris + fan, kept.done + seq(|fan|, _ => false));
    var tail := seq(|fan|, k requires 0 <= k < |fan| => (fan[k], false));
    assert Pairs(m) == Pairs(kept) + tail;
    Unmarked(fan, t, d);
  }

  lemma {:induction false} Unmarked(fan: seq<Triangle>, t: Triangle, d: bool)
    ensures multiset(seq(|fan|, k requires 0 <= k < |fan| => (fan[k], false)))[(t, d)] == if d then 0 else multiset(fan)[t]
  {
    if fan != [] {
      var init, last := fan[..|fan| - 1], fan[|fan| - 1];
      var a := seq(|fan|, k requires 0 <= k < |fan| => (fan[k], false));
      var b := seq(|init|, k requires 0 <= k < |init| => (init[k], false));
      assert a == b + [(last, false)] && fan == init + [last];
      Unmarked(init, t, d);
    }
  }

  /** Inserting point i, exactly: a triangle that is complete or does not hold the
      point stays as often as it was there; of the others nothing stays; and for
      each side left over of those there is one new triangle to the point. */
  lemma InsertCounts(m: Mesh, i: nat, o: Oracle, nv: nat, t: Triangle, d: bool)
    requires m.Valid() && ProperMesh(m.tris, nv, i)
    ensures multiset(Pairs(Insert(m, i, o)))[(t, d)] ==
            Kept(multiset(Pairs(m)), i, o, t, d) + if d then 0 else Made(Pairs(m), i, o, t)
  {
    hide Scan, TagFrom, Fan, Kept;
    var ps := Pairs(m);
    var (kept, edges) := Scan(m, 0, i, o);
    var tagged := TagFrom(edges, 0);
    ScanCounts(m, 0, i, o, t, d);
    AllScanned(ps, i, o, t, d);
    AppendedFan(kept, Fan(tagged, i), t, d);
    FanCounts(tagged, i, t);
    NewTriangles(m, i, o, nv, t.p1, t.p2);
  }

  // The edges left over, in terms of the triangles driven out.
  lemma NewTriangles(m: Mesh, i: nat, o: Oracle, nv: nat, p: int, q: int)
    requires m.Valid() && ProperMesh(m.tris, nv, i)
    ensures (if p >= 0 && q >= 0 then multiset(TagFrom(Scan(m, 0, i, o).1, 0))[Edge(p, q)] else 0)
            == Excess(Driven(Pairs(m), i, o, p, q), Driven(Pairs(m), i, o, q, p))
  {
    hide Scan, TagFrom;
    var ps := Pairs(m);
    var edges := Scan(m, 0, i, o).1;
    assert ps[0..] == ps;
    ScanEdges(m, 0, i, o, p, q);
    ScanEdges(m, 0, i, o, q, p);
    DrivenProper(m.tris, ps, i, o, nv, i, p, q);
    ScanProperMesh(m, 0, i, o, nv, i);
    if p >= 0 && q >= 0 {
      if p != q {
        TagCounts(edges, p, q);
      } else {
        TagProperEdges(edges, 0, nv, i);
        assert Edge(p, q) !in TagFrom(edges, 0);
      }
    }
  }

  /* The history of a triangle. */

  // The first point that is tested against the triangle.
  function FirstTest(t: Triangle, nv: nat): int {
    if t.p3 < nv then t.p3 + 1 else 0
  }

  // Some point before n was outside the circumcircle, and found to have no later
  // point inside.
  predicate Finished(t: Triangle, nv: nat, n: nat, o: Oracle) {
    exists i: nat :: FirstTest(t, nv) <= i < n && !o.inside(t, i) && o.finished(t, i)
  }

  // The mark of the triangle says so, once the points before n have been tested.
  predicate RightMark(t: Triangle, done: bool, nv: nat, n: nat, o: Oracle) {
    FirstTest(t, nv) <= n && (done <==> Finished(t, nv, n, o))
  }

  // The marks are right from triangle a on and before b.
  predicate RightMarks(m: Mesh, a: nat, b: nat, nv: nat, n: nat, o: Oracle)
    requires m.Valid() && b <= |m.tris|
  {
    forall k :: a <= k < b ==> RightMark(m.tris[k], m.done[k], nv, n, o)
  }

  lemma NextMark(t: Triangle, done: bool, nv: nat, i: nat, o: Oracle)
    requires RightMark(t, done, nv, i, o)
    ensures done ==> RightMark(t, true, nv, i + 1, o)
    ensures !done && !o.inside(t, i) ==> RightMark(t, o.finished(t, i), nv, i + 1, o)
  {
  }

  lemma {:induction false} ScanMarks(m: Mesh, j: nat, i: nat, o: Oracle, nv: nat)
    requires m.Valid() && j <= |m.tris| && RightMarks(m, 0, j, nv, i + 1, o) && RightMarks(m, j, |m.tris|, nv, i, o)
    ensures var r := Scan(m, j, i, o).0; RightMarks(r, 0, |r.tris|, nv, i + 1, o)
    decreases |m.tris| - j
  {
    hide RightMark;
    if j < |m.tris| {
      NextMark(m.tris[j], m.done[j], nv, i, o);
      if m.done[j] {
        ScanMarks(m, j + 1, i, o, nv);
      } else if o.inside(m.tris[j], i) {
        ScanMarks(SwapDelete(m, j), j, i, o, nv);
      } else {
        ScanMarks(m.(done := m.done[j := o.finished(m.tris[j], i)]), j + 1, i, o, nv);
      }
    }
  }

  /** After n points a triangle is marked complete exactly when a point tested
      against it was outside and finished it. */
  lemma {:induction false} BuildMarks(nv: nat, n: nat, o: Oracle)
    requires n <= nv
    ensures var m := Build(nv, n, o); RightMarks(m, 0, |m.tris|, nv, n, o)
  {
    hide Scan, TagFrom, Fan;
    if n > 0 {
      var m, i := Build(nv, n - 1, o), n - 1;
      BuildMarks(nv, i, o);
      ScanMarks(m, 0, i, o, nv);
      var (kept, edges) := Scan(m, 0, i, o);
      var fan := Fan(TagFrom(edges, 0), i);
      forall k | 0 <= k < |fan|
        ensures RightMark(fan[k], false, nv, n, o)
      {
        FanCounts(TagFrom(edges, 0), i, fan[k]);
        assert fan[k] in multiset(fan);
      }
    }
  }

  // How often the triangles among tris that point n drives out have the side from
  // p to q.
  function DrivenSides(tris: seq<Triangle>, nv: nat, n: nat, o: Oracle, p: int, q: int): nat {
    if tris == [] then 0
    else
      (if o.inside(tris[0], n) && !Finished(tris[0], nv, n, o) then Sides(tris[0], p, q) else 0)
      + DrivenSides(tris[1..], nv, n, o, p, q)
  }

  lemma {:induction false} DrivenIsSides(m: Mesh, j: nat, nv: nat, n: nat, o: Oracle, p: int, q: int)
    requires m.Valid() && j <= |m.tris| && RightMarks(m, 0, |m.tris|, nv, n, o)
    ensures Driven(Pairs(m)[j..], n, o, p, q) == DrivenSides(m.tris[j..], nv, n, o, p, q)
    decreases |m.tris| - j
  {
    hide Finished, Sides;
    if j < |m.tris| {
      DrivenIsSides(m, j + 1, nv, n, o, p, q);
      assert Pairs(m)[j..][1..] == Pairs(m)[j + 1..] && m.tris[j..][1..] == m.tris[j + 1..];
      assert RightMark(m.tris[j], m.done[j], nv, n, o);
    }
  }

  lemma {:induction false} CountMarked(ps: seq<(Triangle, bool)>, tris: seq<Triangle>, t: Triangle)
    requires |ps| == |tris| && forall k :: 0 <= k < |ps| ==> ps[k].0 == tris[k]
    ensures multiset(tris)[t] == multiset(ps)[(t, true)] + multiset(ps)[(t, false)]
  {
    if ps != [] {
      var n := |ps| - 1;
      CountMarked(ps[..n], tris[..n], t);
      assert tris == tris[..n] + [tris[n]];
      match ps[n] {
        case (u, marked) =>
          assert u == tris[n];
          assert ps == ps[..n] + [(u, marked)];
      }
    }
  }

  lemma WrongMark(m: Mesh, nv: nat, n: nat, o: Oracle, t: Triangle)
    requires m.Valid() && RightMarks(m, 0, |m.tris|, nv, n, o)
    ensures multiset(Pairs(m))[(t, !Finished(t, nv, n, o))] == 0
  {
    hide Finished;
    assert (t, !Finished(t, nv, n, o)) !in Pairs(m);
  }

  /** The mesh after point n, triangle by triangle: an old one is there as often as
      before if point n is outside its circumcircle or an earlier point finished it,
      and not at all otherwise; a new one joins point n to a side that the triangles
      driven out have more often than its reverse, as often as that. */
  lemma BuildClears(nv: nat, n: nat, o: Oracle, t: Triangle)
    requires n < nv
    ensures var before, after := Build(nv, n, o).tris, Build(nv, n + 1, o).tris;
            multiset(after)[t] ==
            if t.p3 == n then
              Excess(DrivenSides(before, nv, n, o, t.p1, t.p2), DrivenSides(before, nv, n, o, t.p2, t.p1))
            else if !o.inside(t, n) || Finished(t, nv, n, o) then multiset(before)[t]
            else 0
  {
    hide Insert, Finished, Driven, DrivenSides;
    var m, next := Build(nv, n, o), Build(nv, n + 1, o);
    BuildProper(nv, n, o);
    BuildMarks(nv, n, o);
    InsertCounts(m, n, o, nv, t, true);
    InsertCounts(m, n, o, nv, t, false);
    CountMarked(Pairs(m), m.tris, t);
    CountMarked(Pairs(next), next.tris, t);
    WrongMark(m, nv, n, o, t);
    DrivenIsSides(m, 0, nv, n, o, t.p1, t.p2);
    DrivenIsSides(m, 0, nv, n, o, t.p2, t.p1);
    assert Pairs(m)[0..] == Pairs(m) && m.tris[0..] == m.tris;
    assert t.p3 == n ==> t !in m.tris;
  }
}
