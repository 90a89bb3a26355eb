/** Incremental triangulation as an update of a mesh of oriented triangles.  The
    geometric tests are an arbitrary oracle. */
module Delaunay {

  datatype Triangle = Triangle(p1: int, p2: int, p3: int)

  datatype Edge = Edge(p1: int, p2: int)

  const TAG := Edge(-1, -1)

  /** The answers of the geometric tests for a triangle and point i: whether the
      point is inside or on the circumcircle and, if not, whether no later point
      can be. */
  datatype Oracle = Oracle(inside: (Triangle, nat) -> bool, finished: (Triangle, nat) -> bool)

  datatype Mesh = Mesh(tris: seq<Triangle>, done: seq<bool>)
  {
    predicate Valid() { |tris| == |done| }
  }

  function EdgesOf(t: Triangle): seq<Edge> {
    [Edge(t.p1, t.p2), Edge(t.p2, t.p3), Edge(t.p3, t.p1)]
  }

  /* The algorithm on values. */

  // The last triangle takes the place of triangle j.
  function SwapDelete(m: Mesh, j: nat): (r: Mesh)
    requires m.Valid() && j < |m.tris|
    ensures r.Valid() && |r.tris| == |m.tris| - 1
  {
    var n := |m.tris| - 1;
    Mesh(m.tris[j := m.tris[n]][..n], m.done[j := m.done[n]][..n])
  }

  // From triangle j on, remove every triangle whose circumcircle holds point i,
  // and collect its edges.
  function Scan(m: Mesh, j: nat, i: nat, o: Oracle): (r: (Mesh, seq<Edge>))
    requires m.Valid() && j <= |m.tris|
    ensures r.0.Valid()
    decreases |m.tris| - j
  {
    if j == |m.tris| then (m, [])
    else if m.done[j] then Scan(m, j + 1, i, o)
    else if o.inside(m.tris[j], i) then
      var (r, edges) := Scan(SwapDelete(m, j), j, i, o);
      (r, EdgesOf(m.tris[j]) + edges)
    else Scan(m.(done := m.done[j := o.finished(m.tris[j], i)]), j + 1, i, o)
  }

  predicate Opposite(e: Edge, f: Edge) {
    e.p1 == f.p2 && e.p2 == f.p1
  }

  // Edge j against the edges from k on.
  function TagRow(es: seq<Edge>, j: nat, k: nat): (r: seq<Edge>)
    requires j < k <= |es|
    ensures |r| == |es|
    decreases |es| - k
  {
    if k == |es| then es
    else TagRow(if Opposite(es[j], es[k]) then es[j := TAG][k := TAG] else es, j, k + 1)
  }

  // Cancel opposite edges, from edge j on.
  function TagFrom(es: seq<Edge>, j: nat): (r: seq<Edge>)
    requires j <= |es|
    ensures |r| == |es|
    decreases |es| - j
  {
    if j + 1 >= |es| then es else TagFrom(TagRow(es, j, j + 1), j + 1)
  }

  predicate Tagged(e: Edge) {
    e.p1 < 0 || e.p2 < 0
  }

  // A triangle to point i for each edge that is left.
  function Fan(es: seq<Edge>, i: nat): seq<Triangle> {
    if es == [] then []
    else
      var e := es[|es| - 1];
      Fan(es[..|es| - 1], i) + if Tagged(e) then [] else [Triangle(e.p1, e.p2, i)]
  }

  function Insert(m: Mesh, i: nat, o: Oracle): (r: Mesh)
    requires m.Valid()
    ensures r.Valid()
  {
    var (kept, edges) := Scan(m, 0, i, o);
    var fan := Fan(TagFrom(edges, 0), i);
    Mesh(kept.tris + fan, kept.done + seq(|fan|, _ => false))
  }

  function Super(nv: nat): Triangle { Triangle(nv, nv + 1, nv + 2) }

  // The mesh after the first n points.
  function Build(nv: nat, n: nat, o: Oracle): (m: Mesh)
    ensures m.Valid()
  {
    if n == 0 then Mesh([Super(nv)], [false]) else Insert(Build(nv, n - 1, o), n - 1, o)
  }

  // Swap-delete the triangles with a vertex of the supertriangle.
  function Strip(tris: seq<Triangle>, j: nat, nv: nat): seq<Triangle>
    requires j <= |tris|
    decreases |tris| - j
  {
    if j == |tris| then tris
    else if OnSuper(tris[j], nv) then Strip(tris[j := tris[|tris| - 1]][..|tris| - 1], j, nv)
    else Strip(tris, j + 1, nv)
  }

  predicate OnSuper(t: Triangle, nv: nat) {
    t.p1 >= nv || t.p2 >= nv || t.p3 >= nv
  }

  /* The oriented boundary: how often an edge occurs, less how often its reverse
     does. */

  function Sign(e: Edge, p: int, q: int): int {
    (if e == Edge(p, q) then 1 else 0) - (if e == Edge(q, p) then 1 else 0)
  }

  function Signed(es: seq<Edge>, p: int, q: int): int {
    if es == [] then 0 else Signed(es[..|es| - 1], p, q) + Sign(es[|es| - 1], p, q)
  }

  // Edges into x less edges out of x.
  function Flux(es: seq<Edge>, x: int): int {
    if es == [] then 0
    else Flux(es[..|es| - 1], x) + (if es[|es| - 1].p2 == x then 1 else 0) - (if es[|es| - 1].p1 == x then 1 else 0)
  }

  function Boundary(tris: seq<Triangle>, p: int, q: int): int {
    if tris == [] then 0 else Boundary(tris[..|tris| - 1], p, q) + Signed(EdgesOf(tris[|tris| - 1]), p, q)
  }

  lemma {:induction false} SignedConcat(a: seq<Edge>, b: seq<Edge>, p: int, q: int)
    ensures Signed(a + b, p, q) == Signed(a, p, q) + Signed(b, p, q)
  {
    if b == [] {
      assert a + b == a;
    } else {
      assert (a + b)[..|a + b| - 1] == a + b[..|b| - 1];
      SignedConcat(a, b[..|b| - 1], p, q);
    }
  }

  lemma {:induction false} FluxConcat(a: seq<Edge>, b: seq<Edge>, x: int)
    ensures Flux(a + b, x) == Flux(a, x) + Flux(b, x)
  {
    if b == [] {
      assert a + b == a;
    } else {
      assert (a + b)[..|a + b| - 1] == a + b[..|b| - 1];
      FluxConcat(a, b[..|b| - 1], x);
    }
  }

  lemma {:induction false} BoundaryConcat(a: seq<Triangle>, b: seq<Triangle>, p: int, q: int)
    ensures Boundary(a + b, p, q) == Boundary(a, p, q) + Boundary(b, p, q)
  {
    if b == [] {
      assert a + b == a;
    } else {
      assert (a + b)[..|a + b| - 1] == a + b[..|b| - 1];
      BoundaryConcat(a, b[..|b| - 1], p, q);
    }
  }

  lemma OneEdge(e: Edge, p: int, q: int, x: int)
    ensures Signed([e], p, q) == Sign(e, p, q)
    ensures Flux([e], x) == (if e.p2 == x then 1 else 0) - (if e.p1 == x then 1 else 0)
  {
    assert [e][..0] == [];
  }

  // A triangle is a closed cycle of three edges.
  lemma TriangleEdges(t: Triangle, p: int, q: int, x: int)
    ensures Signed(EdgesOf(t), p, q) == Sign(Edge(t.p1, t.p2), p, q) + Sign(Edge(t.p2, t.p3), p, q) + Sign(Edge(t.p3, t.p1), p, q)
    ensures Flux(EdgesOf(t), x) == 0
  {
    var a, b, c := Edge(t.p1, t.p2), Edge(t.p2, t.p3), Edge(t.p3, t.p1);
    assert EdgesOf(t) == [a] + [b] + [c];
    OneEdge(a, p, q, x);
    OneEdge(b, p, q, x);
    OneEdge(c, p, q, x);
    SignedConcat([a], [b], p, q);
    SignedConcat([a] + [b], [c], p, q);
    FluxConcat([a], [b], x);
    FluxConcat([a] + [b], [c], x);
  }

  lemma BoundaryOne(t: Triangle, p: int, q: int)
    ensures Boundary([t], p, q) == Signed(EdgesOf(t), p, q)
  {
    assert [t][..0] == [];
  }

  // The two parts of a sequence around position j.
  lemma BoundaryUpdate(s: seq<Triangle>, j: nat, t: Triangle, p: int, q: int)
    requires j < |s|
    ensures Boundary(s[j := t], p, q) == Boundary(s, p, q) - Signed(EdgesOf(s[j]), p, q) + Signed(EdgesOf(t), p, q)
  {
    var a, b := s[..j], s[j + 1..];
    assert s == a + [s[j]] + b && s[j := t] == a + [t] + b;
    BoundaryConcat(a, [s[j]], p, q);
    BoundaryConcat(a + [s[j]], b, p, q);
    BoundaryConcat(a, [t], p, q);
    BoundaryConcat(a + [t], b, p, q);
    BoundaryOne(t, p, q);
    BoundaryOne(s[j], p, q);
  }

  lemma SwapDeleteBoundary(s: seq<Triangle>, j: nat, p: int, q: int)
    requires j < |s|
    ensures Boundary(s[j := s[|s| - 1]][..|s| - 1], p, q) == Boundary(s, p, q) - Signed(EdgesOf(s[j]), p, q)
  {
    var last := s[|s| - 1];
    var u := s[j := last];
    BoundaryUpdate(s, j, last, p, q);
    assert u[|u| - 1] == last;
  }

  /** Scanning moves the boundary of the triangles removed into the edge buffer. */
  lemma {:induction false} ScanConserves(m: Mesh, j: nat, i: nat, o: Oracle, p: int, q: int)
    requires m.Valid() && j <= |m.tris|
    ensures var r := Scan(m, j, i, o); Boundary(r.0.tris, p, q) + Signed(r.1, p, q) == Boundary(m.tris, p, q)
    decreases |m.tris| - j
  {
    if j < |m.tris| {
      if m.done[j] {
        ScanConserves(m, j + 1, i, o, p, q);
      } else if o.inside(m.tris[j], i) {
        ScanConserves(SwapDelete(m, j), j, i, o, p, q);
        SwapDeleteBoundary(m.tris, j, p, q);
        SignedConcat(EdgesOf(m.tris[j]), Scan(SwapDelete(m, j), j, i, o).1, p, q);
      } else {
        ScanConserves(m.(done := m.done[j := o.finished(m.tris[j], i)]), j + 1, i, o, p, q);
      }
    }
  }

  /** The edge buffer is a union of cycles. */
  lemma {:induction false} ScanCycles(m: Mesh, j: nat, i: nat, o: Oracle, x: int)
    requires m.Valid() && j <= |m.tris|
    ensures Flux(Scan(m, j, i, o).1, x) == 0
    decreases |m.tris| - j
  {
    if j < |m.tris| {
      if m.done[j] {
        ScanCycles(m, j + 1, i, o, x);
      } else if o.inside(m.tris[j], i) {
        ScanCycles(SwapDelete(m, j), j, i, o, x);
        TriangleEdges(m.tris[j], 0, 0, x);
        FluxConcat(EdgesOf(m.tris[j]), Scan(SwapDelete(m, j), j, i, o).1, x);
      } else {
        ScanCycles(m.(done := m.done[j := o.finished(m.tris[j], i)]), j + 1, i, o, x);
      }
    }
  }

  lemma EdgeUpdate(es: seq<Edge>, j: nat, e: Edge, p: int, q: int, x: int)
    requires j < |es|
    ensures Signed(es[j := e], p, q) == Signed(es, p, q) - Sign(es[j], p, q) + Sign(e, p, q)
    ensures Flux(es[j := e], x) == Flux(es, x) - Flux([es[j]], x) + Flux([e], x)
  {
    var a, b := es[..j], es[j + 1..];
    assert es == a + [es[j]] + b && es[j := e] == a + [e] + b;
    SignedConcat(a, [es[j]], p, q);
    SignedConcat(a + [es[j]], b, p, q);
    SignedConcat(a, [e], p, q);
    SignedConcat(a + [e], b, p, q);
    FluxConcat(a, [es[j]], x);
    FluxConcat(a + [es[j]], b, x);
    FluxConcat(a, [e], x);
    FluxConcat(a + [e], b, x);
    OneEdge(e, p, q, x);
    OneEdge(es[j], p, q, x);
  }

  lemma CancelConserves(es: seq<Edge>, j: nat, k: nat, p: int, q: int, x: int)
    requires j < k < |es| && Opposite(es[j], es[k])
    ensures var r := es[j := TAG][k := TAG]; Signed(r, p, q) == Signed(es, p, q) && Flux(r, x) == Flux(es, x)
  {
    EdgeUpdate(es, j, TAG, p, q, x);
    EdgeUpdate(es[j := TAG], k, TAG, p, q, x);
    OneEdge(es[j], p, q, x);
    OneEdge(es[k], p, q, x);
    OneEdge(TAG, p, q, x);
  }

  lemma {:induction false} TagRowConserves(es: seq<Edge>, j: nat, k: nat, p: int, q: int, x: int)
    requires j < k <= |es|
    ensures var r := TagRow(es, j, k); Signed(r, p, q) == Signed(es, p, q) && Flux(r, x) == Flux(es, x)
    decreases |es| - k
  {
    if k < |es| {
      if Opposite(es[j], es[k]) {
        CancelConserves(es, j, k, p, q, x);
      }
      TagRowConserves(if Opposite(es[j], es[k]) then es[j := TAG][k := TAG] else es, j, k + 1, p, q, x);
    }
  }

  /** Cancelling opposite edges changes neither the signed count of any edge nor
      the flux through any vertex. */
  lemma {:induction false} TagConserves(es: seq<Edge>, j: nat, p: int, q: int, x: int)
    requires j <= |es|
    ensures var r := TagFrom(es, j); Signed(r, p, q) == Signed(es, p, q) && Flux(r, x) == Flux(es, x)
    decreases |es| - j
  {
    if j + 1 < |es| {
      TagRowConserves(es, j, j + 1, p, q, x);
      TagConserves(TagRow(es, j, j + 1), j + 1, p, q, x);
    }
  }

  // Every edge is a proper one or the tag.
  predicate ProperOrTag(es: seq<Edge>) {
    forall k :: 0 <= k < |es| ==> es[k] == TAG || !Tagged(es[k])
  }

  /** The boundary of the fan: the edges themselves, and the flux through their
      ends along the spokes. */
  lemma {:induction false} FanBoundary(es: seq<Edge>, i: nat, p: int, q: int)
    requires ProperOrTag(es)
    ensures Boundary(Fan(es, i), p, q) ==
            Signed(es, p, q) + (if q == i then Flux(es, p) else 0) - (if p == i then Flux(es, q) else 0)
  {
    if es != [] {
      var init, e := es[..|es| - 1], es[|es| - 1];
      FanBoundary(init, i, p, q);
      if !Tagged(e) {
        BoundaryConcat(Fan(init, i), [Triangle(e.p1, e.p2, i)], p, q);
        BoundaryOne(Triangle(e.p1, e.p2, i), p, q);
        TriangleEdges(Triangle(e.p1, e.p2, i), p, q, 0);
      } else {
        assert Fan(init, i) + [] == Fan(init, i);
      }
    }
  }

  predicate NonNegative(tris: seq<Triangle>) {
    forall k :: 0 <= k < |tris| ==> tris[k].p1 >= 0 && tris[k].p2 >= 0 && tris[k].p3 >= 0
  }

  lemma {:induction false} ScanProper(m: Mesh, j: nat, i: nat, o: Oracle)
    requires m.Valid() && j <= |m.tris| && NonNegative(m.tris)
    ensures var r := Scan(m, j, i, o); NonNegative(r.0.tris) && ProperOrTag(r.1)
    decreases |m.tris| - j
  {
    if j < |m.tris| {
      if m.done[j] {
        ScanProper(m, j + 1, i, o);
      } else if o.inside(m.tris[j], i) {
        ScanProper(SwapDelete(m, j), j, i, o);
      } else {
        ScanProper(m.(done := m.done[j := o.finished(m.tris[j], i)]), j + 1, i, o);
      }
    }
  }

  lemma {:induction false} TagRowProper(es: seq<Edge>, j: nat, k: nat)
    requires j < k <= |es| && ProperOrTag(es)
    ensures ProperOrTag(TagRow(es, j, k))
    decreases |es| - k
  {
    if k < |es| {
      TagRowProper(if Opposite(es[j], es[k]) then es[j := TAG][k := TAG] else es, j, k + 1);
    }
  }

  lemma {:induction false} TagProper(es: seq<Edge>, j: nat)
    requires j <= |es| && ProperOrTag(es)
    ensures ProperOrTag(TagFrom(es, j))
    decreases |es| - j
  {
    if j + 1 < |es| {
      TagRowProper(es, j, j + 1);
      TagProper(TagRow(es, j, j + 1), j + 1);
    }
  }

  lemma {:induction false} FanNonNegative(es: seq<Edge>, i: nat)
    ensures NonNegative(Fan(es, i))
  {
    if es != [] {
      FanNonNegative(es[..|es| - 1], i);
    }
  }

  /** Inserting a point keeps the signed count of every directed edge, whatever
      the geometric tests answer. */
  lemma InsertConserves(m: Mesh, i: nat, o: Oracle, p: int, q: int)
    requires m.Valid() && NonNegative(m.tris)
    ensures Boundary(Insert(m, i, o).tris, p, q) == Boundary(m.tris, p, q)
    ensures NonNegative(Insert(m, i, o).tris)
  {
    var (kept, edges) := Scan(m, 0, i, o);
    var tagged := TagFrom(edges, 0);
    ScanConserves(m, 0, i, o, p, q);
    ScanCycles(m, 0, i, o, p);
    ScanCycles(m, 0, i, o, q);
    ScanProper(m, 0, i, o);
    TagConserves(edges, 0, p, q, p);
    TagConserves(edges, 0, p, q, q);
    TagProper(edges, 0);
    FanBoundary(tagged, i, p, q);
    FanNonNegative(tagged, i);
    BoundaryConcat(kept.tris, Fan(tagged, i), p, q);
  }

  /** After any number of points the mesh has the boundary of the supertriangle. */
  lemma {:induction false} BuildConserves(nv: nat, n: nat, o: Oracle, p: int, q: int)
    ensures Boundary(Build(nv, n, o).tris, p, q) == Boundary([Super(nv)], p, q)
    ensures NonNegative(Build(nv, n, o).tris)
  {
    if n > 0 {
      BuildConserves(nv, n - 1, o, p, q);
      InsertConserves(Build(nv, n - 1, o), n - 1, o, p, q);
    }
  }

  /* Which triangles there are. */

  // Vertices are points inserted so far or those of the supertriangle.
  predicate Vertex(p: int, nv: nat, n: nat) {
    0 <= p < n || nv <= p < nv + 3
  }

  predicate ProperEdge(e: Edge, nv: nat, n: nat) {
    Vertex(e.p1, nv, n) && Vertex(e.p2, nv, n) && e.p1 != e.p2
  }

  predicate ProperTriangle(t: Triangle, nv: nat, n: nat) {
    ProperEdge(Edge(t.p1, t.p2), nv, n) && ProperEdge(Edge(t.p2, t.p3), nv, n) && ProperEdge(Edge(t.p3, t.p1), nv, n)
  }

  predicate ProperMesh(tris: seq<Triangle>, nv: nat, n: nat) {
    forall k :: 0 <= k < |tris| ==> ProperTriangle(tris[k], nv, n)
  }

  predicate ProperEdges(es: seq<Edge>, nv: nat, n: nat) {
    forall k :: 0 <= k < |es| ==> es[k] == TAG || ProperEdge(es[k], nv, n)
  }

  lemma {:induction false} ScanProperMesh(m: Mesh, j: nat, i: nat, o: Oracle, nv: nat, n: nat)
    requires m.Valid() && j <= |m.tris| && ProperMesh(m.tris, nv, n)
    ensures var r := Scan(m, j, i, o); ProperMesh(r.0.tris, nv, n) && ProperEdges(r.1, nv, n)
    decreases |m.tris| - j
  {
    hide Vertex;
    if j < |m.tris| {
      if m.done[j] {
        ScanProperMesh(m, j + 1, i, o, nv, n);
      } else if o.inside(m.tris[j], i) {
        ScanProperMesh(SwapDelete(m, j), j, i, o, nv, n);
      } else {
        ScanProperMesh(m.(done := m.done[j := o.finished(m.tris[j], i)]), j + 1, i, o, nv, n);
      }
    }
  }

  lemma {:induction false} TagRowProperEdges(es: seq<Edge>, j: nat, k: nat, nv: nat, n: nat)
    requires j < k <= |es| && ProperEdges(es, nv, n)
    ensures ProperEdges(TagRow(es, j, k), nv, n)
    decreases |es| - k
  {
    if k < |es| {
      TagRowProperEdges(if Opposite(es[j], es[k]) then es[j := TAG][k := TAG] else es, j, k + 1, nv, n);
    }
  }

  lemma {:induction false} TagProperEdges(es: seq<Edge>, j: nat, nv: nat, n: nat)
    requires j <= |es| && ProperEdges(es, nv, n)
    ensures ProperEdges(TagFrom(es, j), nv, n)
    decreases |es| - j
  {
    if j + 1 < |es| {
      TagRowProperEdges(es, j, j + 1, nv, n);
      TagProperEdges(TagRow(es, j, j + 1), j + 1, nv, n);
    }
  }

  lemma {:induction false} FanProper(es: seq<Edge>, i: nat, nv: nat)
    requires ProperEdges(es, nv, i) && i < nv
    ensures ProperMesh(Fan(es, i), nv, i + 1)
  {
    if es != [] {
      FanProper(es[..|es| - 1], i, nv);
    }
  }

  /** Every triangle has three different vertices, all of them inserted. */
  lemma {:induction false} BuildProper(nv: nat, n: nat, o: Oracle)
    requires n <= nv
    ensures ProperMesh(Build(nv, n, o).tris, nv, n)
  {
    if n > 0 {
      var m, i := Build(nv, n - 1, o), n - 1;
      BuildProper(nv, i, o);
      ScanProperMesh(m, 0, i, o, nv, i);
      var (kept, edges) := Scan(m, 0, i, o);
      TagProperEdges(edges, 0, nv, i);
      FanProper(TagFrom(edges, 0), i, nv);
    }
  }

  // No two edges are left that cancel, comparing edges before a with all later
  // ones and edge a with those before b.
  predicate Cancelled(es: seq<Edge>, a: nat, b: nat) {
    forall j, k :: 0 <= j < k < |es| && (j < a || (j == a && k < b)) && Opposite(es[j], es[k]) ==> es[j] == TAG
  }

  lemma {:induction false} TagRowCancels(es: seq<Edge>, j: nat, k: nat)
    requires j < k <= |es| && ProperOrTag(es) && Cancelled(es, j, k)
    ensures Cancelled(TagRow(es, j, k), j + 1, 0)
    decreases |es| - k
  {
    if k < |es| {
      TagRowCancels(if Opposite(es[j], es[k]) then es[j := TAG][k := TAG] else es, j, k + 1);
    }
  }

  /** After cancelling, no edge and its reverse are both left. */
  lemma {:induction false} TagCancels(es: seq<Edge>, j: nat)
    requires j <= |es| && ProperOrTag(es) && Cancelled(es, j, 0)
    ensures Cancelled(TagFrom(es, j), |es|, 0)
    decreases |es| - j
  {
    if j + 1 < |es| {
      TagRowCancels(es, j, j + 1);
      TagRowProper(es, j, j + 1);
      TagCancels(TagRow(es, j, j + 1), j + 1);
    }
  }

  lemma SwapDeleteMultiset(s: seq<Triangle>, j: nat)
    requires j < |s|
    ensures multiset(s[j := s[|s| - 1]][..|s| - 1]) + multiset{s[j]} == multiset(s)
  {
    var last := s[|s| - 1];
    var u := s[j := last];
    assert u == u[..|s| - 1] + [last];
    assert multiset(u) == multiset(s) - multiset{s[j]} + multiset{last};
  }

  /** Stripping keeps exactly the triangles without a supertriangle vertex, each
      as often as it occurred. */
  lemma {:induction false} StripKeeps(tris: seq<Triangle>, j: nat, nv: nat, t: Triangle)
    requires j <= |tris| && forall k :: 0 <= k < j ==> !OnSuper(tris[k], nv)
    ensures multiset(Strip(tris, j, nv))[t] == if OnSuper(t, nv) then 0 else multiset(tris)[t]
    decreases |tris| - j
  {
    if j == |tris| {
      assert OnSuper(t, nv) ==> t !in tris;
    } else if OnSuper(tris[j], nv) {
      SwapDeleteMultiset(tris, j);
      StripKeeps(tris[j := tris[|tris| - 1]][..|tris| - 1], j, nv, t);
    } else {
      StripKeeps(tris, j + 1, nv, t);
    }
  }

  /* The algorithm in place. */

  // The first n triangles of the buffers.
  ghost function MeshOf(v: array<Triangle>, complete: array<bool>, n: nat): Mesh
    requires n <= v.Length && n <= complete.Length
    reads v, complete
  {
    Mesh(v[..n], complete[..n])
  }

  // A larger edge buffer with the same edges.
  method Grow(edges: array<Edge>, nedge: nat, emax: nat) returns (r: array<Edge>)
    requires nedge <= edges.Length && nedge <= emax
    ensures fresh(r) && r.Length == emax && r[..nedge] == edges[..nedge]
  {
    r := new Edge[emax](_ => TAG);
    var k := 0;
    while k < nedge
      invariant 0 <= k <= nedge && r[..k] == edges[..k]
    {
      r[k] := edges[k];
      k := k + 1;
    }
  }

  // Append the three edges of a triangle.
  method PutEdges(edges: array<Edge>, nedge: nat, t: Triangle)
    requires nedge + 3 <= edges.Length
    modifies edges
    ensures edges[..nedge + 3] == old(edges[..nedge]) + EdgesOf(t)
  {
    edges[nedge] := Edge(t.p1, t.p2);
    edges[nedge + 1] := Edge(t.p2, t.p3);
    edges[nedge + 2] := Edge(t.p3, t.p1);
    assert edges[..nedge] == old(edges[..nedge]);
  }

  method SwapDeleteInPlace(v: array<Triangle>, complete: array<bool>, n: nat, j: nat)
    requires j < n <= v.Length && n <= complete.Length
    modifies v, complete
    ensures MeshOf(v, complete, n - 1) == SwapDelete(old(MeshOf(v, complete, n)), j)
  {
    v[j] := v[n - 1];
    complete[j] := complete[n - 1];
  }

  method ScanInPlace(v: array<Triangle>, complete: array<bool>, n: nat, edges0: array<Edge>, i: nat, o: Oracle)
      returns (ntri: nat, nedge: nat, edges: array<Edge>)
    requires n <= v.Length && n <= complete.Length && edges0.Length >= 200
    modifies v, complete, edges0
    ensures ntri <= n && nedge <= edges.Length && edges.Length >= 200 && (edges == edges0 || fresh(edges))
    ensures Scan(old(MeshOf(v, complete, n)), 0, i, o) == (MeshOf(v, complete, ntri), edges[..nedge])
  {
    hide SwapDelete, EdgesOf;
    ghost var start := MeshOf(v, complete, n);
    ntri, nedge, edges := n, 0, edges0;
    NothingYet(start, 0, i, o);
    var j := 0;
    while j < ntri
      invariant 0 <= j <= ntri <= n && nedge <= edges.Length && edges.Length >= 200
      invariant edges == edges0 || fresh(edges)
      invariant ScannedTo(start, i, o, MeshOf(v, complete, ntri), j, edges[..nedge])
      decreases ntri - j
    {
      ghost var m, acc := MeshOf(v, complete, ntri), edges[..nedge];
      if complete[j] {
        j := j + 1;
      } else if o.inside(v[j], i) {
        if nedge + 3 >= edges.Length {
          edges := Grow(edges, nedge, edges.Length + 100);
        }
        PutEdges(edges, nedge, v[j]);
        nedge := nedge + 3;
        SwapDeleteInPlace(v, complete, ntri, j);
        ntri := ntri - 1;
        ScannedOne(start, i, o, m, j, acc);
      } else {
        complete[j] := o.finished(v[j], i);
        assert MeshOf(v, complete, ntri) == m.(done := m.done[j := o.finished(m.tris[j], i)]);
        j := j + 1;
      }
    }
    assert edges[..nedge] + [] == edges[..nedge];
  }

  // The scan from the start, once triangle j of m is reached with these edges.
  ghost predicate ScannedTo(start: Mesh, i: nat, o: Oracle, m: Mesh, j: nat, acc: seq<Edge>) {
    && start.Valid() && m.Valid() && j <= |m.tris|
    && Scan(start, 0, i, o) == (Scan(m, j, i, o).0, acc + Scan(m, j, i, o).1)
  }

  lemma NothingYet(start: Mesh, j: nat, i: nat, o: Oracle)
    requires start.Valid()
    ensures ScannedTo(start, i, o, start, 0, [])
  {
    assert [] + Scan(start, 0, i, o).1 == Scan(start, 0, i, o).1;
  }

  lemma ScannedOne(start: Mesh, i: nat, o: Oracle, m: Mesh, j: nat, acc: seq<Edge>)
    requires ScannedTo(start, i, o, m, j, acc) && j < |m.tris| && !m.done[j] && o.inside(m.tris[j], i)
    ensures ScannedTo(start, i, o, SwapDelete(m, j), j, acc + EdgesOf(m.tris[j]))
  {
    var r := Scan(SwapDelete(m, j), j, i, o);
    assert acc + (EdgesOf(m.tris[j]) + r.1) == (acc + EdgesOf(m.tris[j])) + r.1;
  }

  method TagInPlace(edges: array<Edge>, nedge: nat)
    requires nedge <= edges.Length
    modifies edges
    ensures edges[..nedge] == TagFrom(old(edges[..nedge]), 0)
  {
    var j := 0;
    while j + 1 < nedge
      invariant 0 <= j && (j == 0 || j < nedge)
      invariant TagFrom(old(edges[..nedge]), 0) == TagFrom(edges[..nedge], j)
      decreases nedge - j
    {
      ghost var row := edges[..nedge];
      var k := j + 1;
      while k < nedge
        invariant j < k <= nedge
        invariant TagRow(row, j, j + 1) == TagRow(edges[..nedge], j, k)
      {
        ghost var es := edges[..nedge];
        if Opposite(edges[j], edges[k]) {
          edges[j] := TAG;
          edges[k] := TAG;
          assert edges[..nedge] == es[j := TAG][k := TAG];
        }
        k := k + 1;
      }
      j := j + 1;
    }
  }

  // ok is false when the assertion that there is room for triangles fails.
  method FanInPlace(v: array<Triangle>, complete: array<bool>, n: nat, edges: array<Edge>, nedge: nat, i: nat)
      returns (ok: bool, ntri: nat)
    requires n < v.Length == complete.Length && nedge <= edges.Length
    modifies v, complete
    ensures ok <==> n + |Fan(edges[..nedge], i)| < v.Length
    ensures ok ==> ntri == n + |Fan(edges[..nedge], i)| < v.Length
    ensures ok ==> v[..ntri] == old(v[..n]) + Fan(edges[..nedge], i)
    ensures ok ==> complete[..ntri] == old(complete[..n]) + seq(|Fan(edges[..nedge], i)|, _ => false)
  {
    ghost var es := edges[..nedge];
    ntri := n;
    var j := 0;
    while j < nedge
      invariant 0 <= j <= nedge && edges[..nedge] == es
      invariant ntri == n + |Fan(es[..j], i)| < v.Length
      invariant v[..ntri] == old(v[..n]) + Fan(es[..j], i)
      invariant complete[..n] == old(complete[..n]) && forall k :: n <= k < ntri ==> !complete[k]
    {
      assert es[..j + 1][..j] == es[..j] && es[j] == edges[j];
      if !Tagged(edges[j]) {
        v[ntri] := Triangle(edges[j].p1, edges[j].p2, i);
        complete[ntri] := false;
        ntri := ntri + 1;
        if ntri >= v.Length {
          FanGrows(es, j + 1, i);
          return false, ntri;
        }
      }
      j := j + 1;
    }
    assert es[..j] == es;
    return true, ntri;
  }

  lemma {:induction false} FanGrows(es: seq<Edge>, j: nat, i: nat)
    requires j <= |es|
    ensures |Fan(es[..j], i)| <= |Fan(es, i)|
  {
    if j == |es| {
      assert es[..j] == es;
    } else {
      var init := es[..|es| - 1];
      assert init[..j] == es[..j];
      FanGrows(init, j, i);
    }
  }

  method StripInPlace(v: array<Triangle>, n: nat, nv: nat) returns (ntri: nat)
    requires n <= v.Length
    modifies v
    ensures ntri <= n && v[..ntri] == Strip(old(v[..n]), 0, nv)
  {
    ntri := n;
    var i := 0;
    while i < ntri
      invariant 0 <= i <= ntri <= n
      invariant Strip(old(v[..n]), 0, nv) == Strip(v[..ntri], i, nv)
      decreases ntri - i
    {
      ghost var s := v[..ntri];
      if OnSuper(v[i], nv) {
        ntri := ntri - 1;
        v[i] := v[ntri];
        assert v[..ntri] == s[i := s[|s| - 1]][..|s| - 1];
      } else {
        i := i + 1;
      }
    }
  }

  // One turn of the main loop.
  method InsertInPlace(v: array<Triangle>, complete: array<bool>, n: nat, edges0: array<Edge>, i: nat, o: Oracle)
      returns (ok: bool, ntri: nat, edges: array<Edge>)
    requires n < v.Length == complete.Length && edges0.Length >= 200
    modifies v, complete, edges0
    ensures edges.Length >= 200 && (edges == edges0 || fresh(edges))
    ensures ok <==> |Insert(old(MeshOf(v, complete, n)), i, o).tris| < v.Length
    ensures ok ==> ntri < v.Length && MeshOf(v, complete, ntri) == Insert(old(MeshOf(v, complete, n)), i, o)
  {
    hide Scan, TagFrom, Fan;
    var nedge;
    ntri, nedge, edges := ScanInPlace(v, complete, n, edges0, i, o);
    TagInPlace(edges, nedge);
    ok, ntri := FanInPlace(v, complete, ntri, edges, nedge, i);
  }

  /** Triangulate, with the points sorted and the tests answered by o: the mesh
      of all points, without the triangles of the supertriangle; it fails only
      when the triangle buffer does not suffice. */
  method Triangulate(nv: nat, v: array<Triangle>, o: Oracle) returns (ok: bool, ntri: nat)
    requires 0 < nv && v.Length == 4 * nv
    modifies v
    ensures ok ==> ntri <= v.Length && v[..ntri] == Strip(Build(nv, nv, o).tris, 0, nv)
    ensures ok <==> forall n :: 0 < n <= nv ==> FitsAfter(nv, n, o)
  {
    hide Insert;
    var trimax := 4 * nv;
    var complete := new bool[trimax](_ => false);
    var edges := new Edge[200](_ => TAG);
    v[0] := Super(nv);
    complete[0] := false;
    ntri := 1;
    assert MeshOf(v, complete, 1) == Build(nv, 0, o);
    var i := 0;
    while i < nv
      invariant 0 <= i <= nv && ntri < trimax && edges.Length >= 200 && fresh(edges)
      invariant MeshOf(v, complete, ntri) == Build(nv, i, o)
      invariant forall n :: 0 < n <= i ==> FitsAfter(nv, n, o)
    {
      ok, ntri, edges := InsertInPlace(v, complete, ntri, edges, i, o);
      if !ok {
        assert !FitsAfter(nv, i + 1, o);
        return;
      }
      assert FitsAfter(nv, i + 1, o);
      i := i + 1;
    }
    ntri := StripInPlace(v, ntri, nv);
    return true, ntri;
  }

  // The assertion of the original after point n - 1, when there are triangles to add.
  predicate FitsAfter(nv: nat, n: nat, o: Oracle) {
    |Build(nv, n, o).tris| < 4 * nv
  }

  // The triangles that stripping removes, in the order of removal.
  function Stripped(tris: seq<Triangle>, j: nat, nv: nat): seq<Triangle>
    requires j <= |tris|
    decreases |tris| - j
  {
    if j == |tris| then []
    else if OnSuper(tris[j], nv) then
      [tris[j]] + Stripped(tris[j := tris[|tris| - 1]][..|tris| - 1], j, nv)
    else Stripped(tris, j + 1, nv)
  }

  lemma {:induction false} StripConserves(tris: seq<Triangle>, j: nat, nv: nat, p: int, q: int)
    requires j <= |tris|
    ensures Boundary(Strip(tris, j, nv), p, q) + Boundary(Stripped(tris, j, nv), p, q) == Boundary(tris, p, q)
    ensures forall t <- Stripped(tris, j, nv) :: OnSuper(t, nv)
    decreases |tris| - j
  {
    hide OnSuper;
    if j < |tris| {
      if OnSuper(tris[j], nv) {
        var rest := tris[j := tris[|tris| - 1]][..|tris| - 1];
        StripConserves(rest, j, nv, p, q);
        SwapDeleteBoundary(tris, j, p, q);
        BoundaryConcat([tris[j]], Stripped(rest, j, nv), p, q);
        BoundaryOne(tris[j], p, q);
      } else {
        StripConserves(tris, j + 1, nv, p, q);
      }
    }
  }

  /** What Triangulate returns: triangles of points only.  Together with the
      triangles stripped, each of which touches the supertriangle, they have
      the boundary of the supertriangle. */
  lemma TriangulationSound(nv: nat, o: Oracle, p: int, q: int)
    ensures var all := Build(nv, nv, o).tris; var r := Strip(all, 0, nv);
            && (forall t <- r :: ProperTriangle(t, nv, nv) && !OnSuper(t, nv))
            && (forall t <- Stripped(all, 0, nv) :: OnSuper(t, nv))
            && Boundary(r, p, q) + Boundary(Stripped(all, 0, nv), p, q) == Signed(EdgesOf(Triangle(nv, nv + 1, nv + 2)), p, q)
  {
    var all := Build(nv, nv, o).tris;
    var r := Strip(all, 0, nv);
    BuildProper(nv, nv, o);
    BuildConserves(nv, nv, o, p, q);
    StripConserves(all, 0, nv, p, q);
    forall t | t in r
      ensures !OnSuper(t, nv) && ProperTriangle(t, nv, nv)
    {
      StripKeeps(all, 0, nv, t);
      assert t in multiset(r);
      assert t in multiset(all);
      assert t in all;
    }
  }
}
