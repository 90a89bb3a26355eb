/** Bounding a Bezier patch by subdivision, over exact reals. */
module Bounds {

  /* The routine. */

  // The function m of the original: largest or smallest.
  datatype Side = Max | Min

  function Pick(m: Side, x: real, y: real): real {
    match m
    case Max => if x < y then y else x
    case Min => if x < y then x else y
  }

  // One row of four control values.
  datatype Row = Row(z0: real, c0: real, c1: real, z1: real)

  // Control values 4*i .. 4*i + 3 are row i.
  datatype Patch = Patch(r0: Row, r1: Row, r2: Row, r3: Row)

  datatype Split = Split(m0: real, m1: real, m2: real, m3: real, m4: real, m5: real)

  function Mid(x: real, y: real): real { 0.5 * (x + y) }

  function SplitOf(z0: real, c0: real, c1: real, z1: real): Split {
    var m0, m1, m2 := Mid(z0, c0), Mid(c0, c1), Mid(c1, z1);
    var m3, m4 := Mid(m0, m1), Mid(m1, m2);
    Split(m0, m1, m2, m3, m4, Mid(m3, m4))
  }

  function SplitRow(r: Row): Split { SplitOf(r.z0, r.c0, r.c1, r.z1) }

  function CornerBound(p: Patch, m: Side): real {
    Pick(m, Pick(m, Pick(m, p.r0.z0, p.r0.z1), p.r3.z0), p.r3.z1)
  }

  function ControlBound(p: Patch, m: Side): real {
    var b := Pick(m, p.r0.c0, p.r0.c1);
    var b := Pick(m, Pick(m, Pick(m, Pick(m, b, p.r1.z0), p.r1.c0), p.r1.c1), p.r1.z1);
    var b := Pick(m, Pick(m, Pick(m, Pick(m, b, p.r2.z0), p.r2.c0), p.r2.c1), p.r2.z1);
    Pick(m, Pick(m, b, p.r3.c0), p.r3.c1)
  }

  datatype Quarters = Quarters(s0: Patch, s1: Patch, s2: Patch, s3: Patch)

  function Quarter(p: Patch): Quarters {
    var c0, c1, c2, c3 := SplitRow(p.r0), SplitRow(p.r1), SplitRow(p.r2), SplitRow(p.r3);
    var c4 := SplitOf(p.r3.z0, p.r2.z0, p.r1.z0, p.r0.z0);
    var c5 := SplitOf(c3.m0, c2.m0, c1.m0, c0.m0);
    var c6 := SplitOf(c3.m3, c2.m3, c1.m3, c0.m3);
    var c7 := SplitOf(c3.m5, c2.m5, c1.m5, c0.m5);
    var c8 := SplitOf(c3.m4, c2.m4, c1.m4, c0.m4);
    var c9 := SplitOf(c3.m2, c2.m2, c1.m2, c0.m2);
    var c10 := SplitOf(p.r3.z1, p.r2.z1, p.r1.z1, p.r0.z1);
    Quarters(
      Patch(Row(c4.m5, c5.m5, c6.m5, c7.m5), Row(c4.m3, c5.m3, c6.m3, c7.m3),
            Row(c4.m0, c5.m0, c6.m0, c7.m0), Row(p.r3.z0, c3.m0, c3.m3, c3.m5)),
      Patch(Row(p.r0.z0, c0.m0, c0.m3, c0.m5), Row(c4.m2, c5.m2, c6.m2, c7.m2),
            Row(c4.m4, c5.m4, c6.m4, c7.m4), Row(c4.m5, c5.m5, c6.m5, c7.m5)),
      Patch(Row(c0.m5, c0.m4, c0.m2, p.r0.z1), Row(c7.m2, c8.m2, c9.m2, c10.m2),
            Row(c7.m4, c8.m4, c9.m4, c10.m4), Row(c7.m5, c8.m5, c9.m5, c10.m5)),
      Patch(Row(c7.m5, c8.m5, c9.m5, c10.m5), Row(c7.m3, c8.m3, c9.m3, c10.m3),
            Row(c7.m0, c8.m0, c9.m0, c10.m0), Row(c3.m5, c3.m4, c3.m2, p.r3.z1)))
  }

  // The control values do not exceed the bound by more than fuzz.
  predicate Stops(p: Patch, m: Side, b: real, fuzz: real) {
    Pick(m, -1.0, 1.0) * (b - ControlBound(p, m)) >= -fuzz
  }

  function Bound(p: Patch, m: Side, b: real, fuzz: real, depth: nat): real
    decreases depth
  {
    var b := Pick(m, b, CornerBound(p, m));
    if Stops(p, m, b, fuzz) || depth == 0 then b
    else
      var s := Quarter(p);
      var b := Bound(s.s0, m, b, 2.0 * fuzz, depth - 1);
      var b := Bound(s.s1, m, b, 2.0 * fuzz, depth - 1);
      var b := Bound(s.s2, m, b, 2.0 * fuzz, depth - 1);
      Bound(s.s3, m, b, 2.0 * fuzz, depth - 1)
  }

  /* The surface. */

  function Lerp(x: real, y: real, t: real): real { (1.0 - t) * x + t * y }

  // The blossom of a cubic: its value at t is the one at (t, t, t).
  function Blossom(r: Row, t: real, u: real, v: real): real {
    var x, y, z := Lerp(r.z0, r.c0, t), Lerp(r.c0, r.c1, t), Lerp(r.c1, r.z1, t);
    Lerp(Lerp(x, y, u), Lerp(y, z, u), v)
  }

  function Curve(r: Row, t: real): real { Blossom(r, t, t, t) }

  // Parameter s runs along the rows, t across them.
  function Surface(p: Patch, s: real, t: real): real {
    Curve(Across(p, s), t)
  }

  function Across(p: Patch, s: real): Row {
    Row(Curve(p.r0, s), Curve(p.r1, s), Curve(p.r2, s), Curve(p.r3, s))
  }

  predicate Unit(t: real) { 0.0 <= t <= 1.0 }

  /* Halving. */

  datatype Half = Low | High

  // The parameter of the whole for parameter t of a half.
  function InWhole(h: Half, t: real): real {
    match h
    case Low => 0.5 * t
    case High => 0.5 * (1.0 + t)
  }

  function HalfRow(r: Row, h: Half): Row {
    var s := SplitRow(r);
    match h
    case Low => Row(r.z0, s.m0, s.m3, s.m5)
    case High => Row(s.m5, s.m4, s.m2, r.z1)
  }

  function HalfRows(p: Patch, h: Half): Patch {
    Patch(HalfRow(p.r0, h), HalfRow(p.r1, h), HalfRow(p.r2, h), HalfRow(p.r3, h))
  }

  function Transposed(p: Patch): Patch {
    Patch(Row(p.r0.z0, p.r1.z0, p.r2.z0, p.r3.z0), Row(p.r0.c0, p.r1.c0, p.r2.c0, p.r3.c0),
          Row(p.r0.c1, p.r1.c1, p.r2.c1, p.r3.c1), Row(p.r0.z1, p.r1.z1, p.r2.z1, p.r3.z1))
  }

  function HalfColumns(p: Patch, h: Half): Patch {
    Transposed(HalfRows(Transposed(p), h))
  }

  /** The control values of a half are the blossom at the ends of the half. */
  lemma HalfIsBlossom(r: Row, h: Half)
    ensures var a, b := InWhole(h, 0.0), InWhole(h, 1.0);
            HalfRow(r, h) == Row(Blossom(r, a, a, a), Blossom(r, a, a, b), Blossom(r, a, b, b), Blossom(r, b, b, b))
  {
  }

  lemma LerpHalf(x: real, y: real, t: real)
    ensures Lerp(x, Mid(x, y), t) == Lerp(x, y, InWhole(Low, t))
    ensures Lerp(Mid(x, y), y, t) == Lerp(x, y, InWhole(High, t))
  {
  }

  lemma LerpMid(x: real, y: real, z: real, w: real, t: real)
    ensures Lerp(Mid(x, z), Mid(y, w), t) == Mid(Lerp(x, y, t), Lerp(z, w, t))
  {
  }

  /** A half evaluates to the original on its half of the parameters. */
  lemma HalfCurve(r: Row, h: Half, t: real)
    ensures Curve(HalfRow(r, h), t) == Curve(r, InWhole(h, t))
  {
    hide Lerp, Mid, InWhole;
    var u, s := InWhole(h, t), SplitRow(r);
    var x, y, z := Lerp(r.z0, r.c0, u), Lerp(r.c0, r.c1, u), Lerp(r.c1, r.z1, u);
    LerpMid(r.z0, r.c0, r.c0, r.c1, u);
    LerpMid(r.c0, r.c1, r.c1, r.z1, u);
    LerpMid(s.m0, s.m1, s.m1, s.m2, u);
    LerpMid(x, y, y, z, u);
    LerpHalf(s.m3, s.m4, t);
    LerpHalf(x, y, t);
    LerpHalf(y, z, t);
    LerpHalf(Mid(x, y), Mid(y, z), t);
    LerpHalf(Lerp(x, y, u), Lerp(y, z, u), t);
    if h == Low {
      LerpHalf(r.z0, r.c0, t);
      LerpHalf(s.m0, s.m1, t);
    } else {
      LerpHalf(s.m1, s.m2, t);
      LerpHalf(r.c1, r.z1, t);
    }
  }

  lemma AcrossHalfColumns(p: Patch, h: Half, s: real)
    ensures Across(HalfColumns(p, h), s) == HalfRow(Across(p, s), h)
  {
    hide Curve;
    var q := HalfColumns(p, h);
    var r0, r1, r2, r3 := p.r0, p.r1, p.r2, p.r3;
    var m0, m1, m2 := MidRow(r0, r1), MidRow(r1, r2), MidRow(r2, r3);
    var m3, m4 := MidRow(m0, m1), MidRow(m1, m2);
    var m5 := MidRow(m3, m4);
    CurveMidRow(r0, r1, s);
    CurveMidRow(r1, r2, s);
    CurveMidRow(r2, r3, s);
    CurveMidRow(m0, m1, s);
    CurveMidRow(m1, m2, s);
    CurveMidRow(m3, m4, s);
    assert h == Low ==> q == Patch(r0, m0, m3, m5);
    assert h == High ==> q == Patch(m5, m4, m2, r3);
  }

  function MidRow(q: Row, r: Row): Row {
    Row(Mid(q.z0, r.z0), Mid(q.c0, r.c0), Mid(q.c1, r.c1), Mid(q.z1, r.z1))
  }

  lemma CurveMidRow(q: Row, r: Row, t: real)
    ensures Curve(MidRow(q, r), t) == Mid(Curve(q, t), Curve(r, t))
  {
    hide Lerp, Mid;
    LerpMid(q.z0, q.c0, r.z0, r.c0, t);
    LerpMid(q.c0, q.c1, r.c0, r.c1, t);
    LerpMid(q.c1, q.z1, r.c1, r.z1, t);
    var x, y, z := Lerp(q.z0, q.c0, t), Lerp(q.c0, q.c1, t), Lerp(q.c1, q.z1, t);
    var u, v, w := Lerp(r.z0, r.c0, t), Lerp(r.c0, r.c1, t), Lerp(r.c1, r.z1, t);
    LerpMid(x, y, u, v, t);
    LerpMid(y, z, v, w, t);
    LerpMid(Lerp(x, y, t), Lerp(y, z, t), Lerp(u, v, t), Lerp(v, w, t), t);
  }

  /** The quarters of the original are halves of halves, low columns first in
      s0 and s1, low rows first in s1 and s2. */
  lemma QuarterIsHalves(p: Patch)
    ensures Quarter(p) == Quarters(HalfColumns(HalfRows(p, Low), High), HalfColumns(HalfRows(p, Low), Low),
                                   HalfColumns(HalfRows(p, High), Low), HalfColumns(HalfRows(p, High), High))
  {
  }

  function QuarterOf(p: Patch, h: Half, k: Half): Patch {
    var s := Quarter(p);
    if h == Low then (if k == High then s.s0 else s.s1) else if k == Low then s.s2 else s.s3
  }

  /** Each quarter evaluates to the original on its quarter of the square. */
  lemma QuarterSurface(p: Patch, h: Half, k: Half, s: real, t: real)
    ensures Surface(QuarterOf(p, h, k), s, t) == Surface(p, InWhole(h, s), InWhole(k, t))
  {
    hide Quarter, HalfRow, Curve, HalfColumns, InWhole;
    QuarterIsHalves(p);
    var q := HalfRows(p, h);
    assert QuarterOf(p, h, k) == HalfColumns(q, k);
    AcrossHalfColumns(q, k, s);
    HalfCurve(p.r0, h, s);
    HalfCurve(p.r1, h, s);
    HalfCurve(p.r2, h, s);
    HalfCurve(p.r3, h, s);
    assert Across(q, s) == Across(p, InWhole(h, s));
    HalfCurve(Across(q, s), k, t);
  }

  /* Ranges and differences of control values. */

  predicate RowAtMost(r: Row, x: real) { r.z0 <= x && r.c0 <= x && r.c1 <= x && r.z1 <= x }

  predicate AtMost(p: Patch, x: real) {
    RowAtMost(p.r0, x) && RowAtMost(p.r1, x) && RowAtMost(p.r2, x) && RowAtMost(p.r3, x)
  }

  predicate RowAtLeast(r: Row, x: real) { r.z0 >= x && r.c0 >= x && r.c1 >= x && r.z1 >= x }

  predicate AtLeast(p: Patch, x: real) {
    RowAtLeast(p.r0, x) && RowAtLeast(p.r1, x) && RowAtLeast(p.r2, x) && RowAtLeast(p.r3, x)
  }

  lemma HalfRowsRange(p: Patch, h: Half, l: real, u: real)
    requires AtLeast(p, l) && AtMost(p, u)
    ensures AtLeast(HalfRows(p, h), l) && AtMost(HalfRows(p, h), u)
    ensures AtLeast(HalfColumns(p, h), l) && AtMost(HalfColumns(p, h), u)
  {
    hide HalfRow;
    HalfRange(p.r0, h, l, u);
    HalfRange(p.r1, h, l, u);
    HalfRange(p.r2, h, l, u);
    HalfRange(p.r3, h, l, u);
    var q := Transposed(p);
    HalfRange(q.r0, h, l, u);
    HalfRange(q.r1, h, l, u);
    HalfRange(q.r2, h, l, u);
    HalfRange(q.r3, h, l, u);
  }

  lemma HalfRange(r: Row, h: Half, l: real, u: real)
    requires RowAtLeast(r, l) && RowAtMost(r, u)
    ensures RowAtLeast(HalfRow(r, h), l) && RowAtMost(HalfRow(r, h), u)
  {
  }

  /** The control values of each quarter stay in the range of the original's. */
  lemma QuarterRange(p: Patch, h: Half, k: Half, l: real, u: real)
    requires AtLeast(p, l) && AtMost(p, u)
    ensures AtLeast(QuarterOf(p, h, k), l) && AtMost(QuarterOf(p, h, k), u)
  {
    hide Quarter, HalfRows, HalfColumns, AtLeast, AtMost;
    QuarterIsHalves(p);
    HalfRowsRange(p, h, l, u);
    HalfRowsRange(HalfRows(p, h), k, l, u);
  }

  lemma LerpAtMost(x: real, y: real, t: real, u: real)
    requires Unit(t) && x <= u && y <= u
    ensures Lerp(x, y, t) <= u
  {
    assert (1.0 - t) * x <= (1.0 - t) * u;
    assert t * y <= t * u;
  }

  lemma CurveAtMost(r: Row, t: real, u: real)
    requires Unit(t) && RowAtMost(r, u)
    ensures Curve(r, t) <= u
  {
    var x, y, z := Lerp(r.z0, r.c0, t), Lerp(r.c0, r.c1, t), Lerp(r.c1, r.z1, t);
    LerpAtMost(r.z0, r.c0, t, u);
    LerpAtMost(r.c0, r.c1, t, u);
    LerpAtMost(r.c1, r.z1, t, u);
    LerpAtMost(x, y, t, u);
    LerpAtMost(y, z, t, u);
    LerpAtMost(Lerp(x, y, t), Lerp(y, z, t), t, u);
  }

  /** On the unit square the surface stays below its control values. */
  lemma SurfaceAtMost(p: Patch, s: real, t: real, u: real)
    requires Unit(s) && Unit(t) && AtMost(p, u)
    ensures Surface(p, s, t) <= u
  {
    hide Curve;
    CurveAtMost(p.r0, s, u);
    CurveAtMost(p.r1, s, u);
    CurveAtMost(p.r2, s, u);
    CurveAtMost(p.r3, s, u);
    CurveAtMost(Across(p, s), t, u);
  }

  predicate Near(x: real, y: real, d: real) { -d <= x - y <= d }

  // Neighbours in a row differ by at most d.
  predicate RowSteps(r: Row, d: real) { Near(r.z0, r.c0, d) && Near(r.c0, r.c1, d) && Near(r.c1, r.z1, d) }

  predicate RowsSteps(p: Patch, d: real) {
    RowSteps(p.r0, d) && RowSteps(p.r1, d) && RowSteps(p.r2, d) && RowSteps(p.r3, d)
  }

  /** Adjacent control values, in rows and columns, differ by at most d. */
  predicate Steps(p: Patch, d: real) { RowsSteps(p, d) && RowsSteps(Transposed(p), d) }

  lemma HalfSteps(r: Row, h: Half, d: real)
    requires RowSteps(r, d)
    ensures RowSteps(HalfRow(r, h), 0.5 * d)
  {
  }

  // Halving rows does not spread two rows further apart.
  lemma HalfNear(q: Row, r: Row, h: Half, d: real)
    requires Near(q.z0, r.z0, d) && Near(q.c0, r.c0, d) && Near(q.c1, r.c1, d) && Near(q.z1, r.z1, d)
    ensures var x, y := HalfRow(q, h), HalfRow(r, h);
            Near(x.z0, y.z0, d) && Near(x.c0, y.c0, d) && Near(x.c1, y.c1, d) && Near(x.z1, y.z1, d)
  {
  }

  lemma HalfRowsSteps(p: Patch, h: Half, d: real, e: real)
    requires RowsSteps(p, d) && RowsSteps(Transposed(p), e)
    ensures RowsSteps(HalfRows(p, h), 0.5 * d) && RowsSteps(Transposed(HalfRows(p, h)), e)
  {
    hide HalfRow, Near;
    HalfSteps(p.r0, h, d);
    HalfSteps(p.r1, h, d);
    HalfSteps(p.r2, h, d);
    HalfSteps(p.r3, h, d);
    HalfNear(p.r0, p.r1, h, e);
    HalfNear(p.r1, p.r2, h, e);
    HalfNear(p.r2, p.r3, h, e);
  }

  /** In each quarter the differences are halved. */
  lemma QuarterSteps(p: Patch, h: Half, k: Half, d: real)
    requires Steps(p, d)
    ensures Steps(QuarterOf(p, h, k), 0.5 * d)
  {
    hide Quarter, HalfRows, RowsSteps;
    QuarterIsHalves(p);
    var q := HalfRows(p, h);
    HalfRowsSteps(p, h, d, d);
    assert Transposed(Transposed(q)) == q;
    HalfRowsSteps(Transposed(q), k, d, 0.5 * d);
    var w := HalfRows(Transposed(q), k);
    assert Transposed(Transposed(w)) == w;
  }

  /** No control value is more than two steps above the corners. */
  lemma CornersClose(p: Patch, d: real, u: real)
    requires Steps(p, d) && CornerBound(p, Max) <= u
    ensures AtMost(p, u + 2.0 * d)
  {
  }

  /* The bound. */

  lemma CornerBoundMax(p: Patch)
    ensures var c := CornerBound(p, Max); p.r0.z0 <= c && p.r0.z1 <= c && p.r3.z0 <= c && p.r3.z1 <= c
    ensures CornerBound(p, Max) in {p.r0.z0, p.r0.z1, p.r3.z0, p.r3.z1}
  {
  }

  lemma AllControls(p: Patch, u: real)
    requires CornerBound(p, Max) <= u && ControlBound(p, Max) <= u
    ensures AtMost(p, u)
  {
  }

  lemma SurfaceCorners(p: Patch)
    ensures Surface(p, 0.0, 0.0) == p.r0.z0 && Surface(p, 1.0, 0.0) == p.r0.z1
    ensures Surface(p, 0.0, 1.0) == p.r3.z0 && Surface(p, 1.0, 1.0) == p.r3.z1
  {
  }

  // A value the surface takes on the unit square.
  ghost predicate Taken(p: Patch, x: real) {
    exists s, t :: Unit(s) && Unit(t) && Surface(p, s, t) == x
  }

  lemma CornerTaken(p: Patch)
    ensures Taken(p, CornerBound(p, Max))
  {
    hide Surface, CornerBound;
    SurfaceCorners(p);
    CornerBoundMax(p);
    assert Unit(0.0) && Unit(1.0);
  }

  lemma QuarterTaken(p: Patch, h: Half, k: Half, x: real)
    requires Taken(QuarterOf(p, h, k), x)
    ensures Taken(p, x)
  {
    hide Surface, QuarterOf;
    var s, t :| Unit(s) && Unit(t) && Surface(QuarterOf(p, h, k), s, t) == x;
    QuarterSurface(p, h, k, s, t);
    assert Unit(InWhole(h, s)) && Unit(InWhole(k, t));
  }

  /** The bound is the old bound or a value of the surface, whichever is larger:
      it never overshoots. */
  lemma {:induction false} BoundTaken(p: Patch, b: real, fuzz: real, depth: nat)
    ensures var r := Bound(p, Max, b, fuzz, depth); b <= r && (r == b || Taken(p, r))
    decreases depth
  {
    hide Taken, Quarter, CornerBound, Stops, Bound;
    BoundUnfolds(p, Max, b, fuzz, depth);
    CornerTaken(p);
    var b0 := Pick(Max, b, CornerBound(p, Max));
    if !Stops(p, Max, b0, fuzz) && depth != 0 {
      var s := Quarter(p);
      BoundTaken(s.s0, b0, 2.0 * fuzz, depth - 1);
      var b1 := Bound(s.s0, Max, b0, 2.0 * fuzz, depth - 1);
      BoundTaken(s.s1, b1, 2.0 * fuzz, depth - 1);
      var b2 := Bound(s.s1, Max, b1, 2.0 * fuzz, depth - 1);
      BoundTaken(s.s2, b2, 2.0 * fuzz, depth - 1);
      var b3 := Bound(s.s2, Max, b2, 2.0 * fuzz, depth - 1);
      BoundTaken(s.s3, b3, 2.0 * fuzz, depth - 1);
      AnyQuarterTaken(p, Bound(s.s3, Max, b3, 2.0 * fuzz, depth - 1));
      AnyQuarterTaken(p, b3);
      AnyQuarterTaken(p, b2);
      AnyQuarterTaken(p, b1);
    }
  }

  lemma AnyQuarterTaken(p: Patch, x: real)
    ensures var s := Quarter(p); Taken(s.s0, x) || Taken(s.s1, x) || Taken(s.s2, x) || Taken(s.s3, x) ==> Taken(p, x)
  {
    hide Taken, Quarter;
    forall h, k | Taken(QuarterOf(p, h, k), x)
      ensures Taken(p, x)
    {
      QuarterTaken(p, h, k, x);
    }
    assert QuarterOf(p, Low, High) == Quarter(p).s0 && QuarterOf(p, Low, Low) == Quarter(p).s1;
    assert QuarterOf(p, High, Low) == Quarter(p).s2 && QuarterOf(p, High, High) == Quarter(p).s3;
  }

  lemma BoundUnfolds(p: Patch, m: Side, b: real, fuzz: real, depth: nat)
    ensures var b0 := Pick(m, b, CornerBound(p, m));
            Stops(p, m, b0, fuzz) || depth == 0 ==> Bound(p, m, b, fuzz, depth) == b0
    ensures var b0 := Pick(m, b, CornerBound(p, m));
            !Stops(p, m, b0, fuzz) && depth != 0 ==>
              var s := Quarter(p);
              var b1 := Bound(s.s0, m, b0, 2.0 * fuzz, depth - 1);
              var b2 := Bound(s.s1, m, b1, 2.0 * fuzz, depth - 1);
              var b3 := Bound(s.s2, m, b2, 2.0 * fuzz, depth - 1);
              Bound(p, m, b, fuzz, depth) == Bound(s.s3, m, b3, 2.0 * fuzz, depth - 1)
  {
    hide Quarter, CornerBound, Stops;
  }

  function Pow2(n: nat): (r: real)
    ensures r >= 1.0
  {
    if n == 0 then 1.0 else 2.0 * Pow2(n - 1)
  }

  // What the bound may miss of a patch with differences up to d.
  function Slack(fuzz: real, d: real, depth: nat): real {
    Pick(Max, fuzz * Pow2(depth), 2.0 * d / Pow2(depth))
  }

  lemma SlackHalves(fuzz: real, d: real, depth: nat)
    requires depth > 0
    ensures Slack(2.0 * fuzz, 0.5 * d, depth - 1) == Slack(fuzz, d, depth)
  {
    var x := Pow2(depth - 1);
    assert fuzz * (2.0 * x) == 2.0 * fuzz * x;
    assert 2.0 * d / (2.0 * x) == d / x;
  }

  lemma SlackBig(fuzz: real, d: real, depth: nat)
    requires d >= 0.0
    ensures Slack(fuzz, d, depth) >= 0.0 && Slack(fuzz, d, depth) >= fuzz
    ensures depth == 0 ==> Slack(fuzz, d, depth) >= 2.0 * d
  {
    var x := Pow2(depth);
    assert 2.0 * d / x >= 0.0;
    if fuzz >= 0.0 {
      assert fuzz * x >= fuzz * 1.0;
    }
  }

  // The bound with which a quarter is entered, when the patch starts with b.
  function Start(p: Patch, b: real, fuzz: real, depth: nat, h: Half, k: Half): real
    requires depth > 0
  {
    var s := Quarter(p);
    var b1 := Bound(s.s0, Max, b, 2.0 * fuzz, depth - 1);
    var b2 := Bound(s.s1, Max, b1, 2.0 * fuzz, depth - 1);
    var b3 := Bound(s.s2, Max, b2, 2.0 * fuzz, depth - 1);
    if h == Low then (if k == High then b else b1) else if k == Low then b2 else b3
  }

  // The result is at least that of each quarter.
  lemma QuarterCounts(p: Patch, b: real, fuzz: real, depth: nat, h: Half, k: Half)
    requires depth > 0 && !Stops(p, Max, Pick(Max, b, CornerBound(p, Max)), fuzz)
    ensures var x := Start(p, Pick(Max, b, CornerBound(p, Max)), fuzz, depth, h, k);
            Bound(QuarterOf(p, h, k), Max, x, 2.0 * fuzz, depth - 1) <= Bound(p, Max, b, fuzz, depth)
  {
    hide Quarter, CornerBound, Stops, Bound, Taken;
    var s := Quarter(p);
    var b0 := Pick(Max, b, CornerBound(p, Max));
    var b1 := Bound(s.s0, Max, b0, 2.0 * fuzz, depth - 1);
    var b2 := Bound(s.s1, Max, b1, 2.0 * fuzz, depth - 1);
    var b3 := Bound(s.s2, Max, b2, 2.0 * fuzz, depth - 1);
    BoundUnfolds(p, Max, b, fuzz, depth);
    BoundTaken(s.s1, b1, 2.0 * fuzz, depth - 1);
    BoundTaken(s.s2, b2, 2.0 * fuzz, depth - 1);
    BoundTaken(s.s3, b3, 2.0 * fuzz, depth - 1);
  }

  lemma StepsPositive(p: Patch, d: real)
    requires Steps(p, d)
    ensures d >= 0.0
  {
  }

  // The half of the unit interval a parameter is in.
  function HalfOf(t: real): Half { if t <= 0.5 then Low else High }

  function InHalf(t: real): real { if t <= 0.5 then 2.0 * t else 2.0 * t - 1.0 }

  /** The bound is at least every value of the surface, less the slack: fuzz
      doubled at each level, or twice the largest difference halved at each. */
  lemma {:induction false} BoundCovers(p: Patch, b: real, fuzz: real, depth: nat, d: real, s: real, t: real)
    requires Steps(p, d) && Unit(s) && Unit(t)
    ensures Surface(p, s, t) <= Bound(p, Max, b, fuzz, depth) + Slack(fuzz, d, depth)
    decreases depth
  {
    hide Quarter, CornerBound, ControlBound, Surface, Slack, Steps, Bound, Start;
    BoundUnfolds(p, Max, b, fuzz, depth);
    var b0 := Pick(Max, b, CornerBound(p, Max));
    StepsPositive(p, d);
    SlackBig(fuzz, d, depth);
    if Stops(p, Max, b0, fuzz) {
      var u := Pick(Max, b0, b0 + fuzz);
      AllControls(p, u);
      SurfaceAtMost(p, s, t, u);
    } else if depth == 0 {
      CornersClose(p, d, b0);
      SurfaceAtMost(p, s, t, b0 + 2.0 * d);
    } else {
      var h, k := HalfOf(s), HalfOf(t);
      QuarterCounts(p, b, fuzz, depth, h, k);
      QuarterSteps(p, h, k, d);
      QuarterSurface(p, h, k, InHalf(s), InHalf(t));
      SlackHalves(fuzz, d, depth);
      var x := Start(p, b0, fuzz, depth, h, k);
      BoundCovers(QuarterOf(p, h, k), x, 2.0 * fuzz, depth - 1, 0.5 * d, InHalf(s), InHalf(t));
    }
  }

  /* The smallest value. */

  function NegRow(r: Row): Row { Row(-r.z0, -r.c0, -r.c1, -r.z1) }

  function Neg(p: Patch): Patch { Patch(NegRow(p.r0), NegRow(p.r1), NegRow(p.r2), NegRow(p.r3)) }

  lemma NegMid(x: real, y: real)
    ensures Mid(-x, -y) == -Mid(x, y)
  {
  }

  lemma NegSplit(z0: real, c0: real, c1: real, z1: real)
    ensures var s := SplitOf(z0, c0, c1, z1);
            SplitOf(-z0, -c0, -c1, -z1) == Split(-s.m0, -s.m1, -s.m2, -s.m3, -s.m4, -s.m5)
  {
    hide Mid;
    var s := SplitOf(z0, c0, c1, z1);
    NegMid(z0, c0);
    NegMid(c0, c1);
    NegMid(c1, z1);
    NegMid(s.m0, s.m1);
    NegMid(s.m1, s.m2);
    NegMid(s.m3, s.m4);
  }

  lemma NegHalf(r: Row, h: Half)
    ensures HalfRow(NegRow(r), h) == NegRow(HalfRow(r, h))
  {
    hide SplitOf;
    NegSplit(r.z0, r.c0, r.c1, r.z1);
  }

  lemma NegHalfRows(p: Patch, h: Half)
    ensures HalfRows(Neg(p), h) == Neg(HalfRows(p, h))
    ensures HalfColumns(Neg(p), h) == Neg(HalfColumns(p, h))
  {
    hide HalfRow;
    NegHalf(p.r0, h);
    NegHalf(p.r1, h);
    NegHalf(p.r2, h);
    NegHalf(p.r3, h);
    var q := Transposed(p);
    NegHalf(q.r0, h);
    NegHalf(q.r1, h);
    NegHalf(q.r2, h);
    NegHalf(q.r3, h);
  }

  lemma NegQuarter(p: Patch)
    ensures var s, n := Quarter(p), Quarter(Neg(p));
            n.s0 == Neg(s.s0) && n.s1 == Neg(s.s1) && n.s2 == Neg(s.s2) && n.s3 == Neg(s.s3)
  {
    hide Quarter, Neg, HalfRows, HalfColumns;
    QuarterIsHalves(p);
    QuarterIsHalves(Neg(p));
    NegHalfRows(p, Low);
    NegHalfRows(p, High);
    NegHalfRows(HalfRows(p, Low), Low);
    NegHalfRows(HalfRows(p, Low), High);
    NegHalfRows(HalfRows(p, High), Low);
    NegHalfRows(HalfRows(p, High), High);
  }

  lemma NegPick(x: real, y: real)
    ensures Pick(Min, x, y) == -Pick(Max, -x, -y)
  {
  }

  lemma NegCorner(p: Patch)
    ensures CornerBound(p, Min) == -CornerBound(Neg(p), Max)
  {
  }

  lemma NegControl(p: Patch)
    ensures ControlBound(p, Min) == -ControlBound(Neg(p), Max)
  {
    hide Pick;
    forall x, y {
      NegPick(x, y);
    }
  }

  /** The lower bound is the upper bound of the mirrored patch, mirrored. */
  lemma {:induction false} MinMirrorsMax(p: Patch, b: real, fuzz: real, depth: nat)
    ensures Bound(p, Min, b, fuzz, depth) == -Bound(Neg(p), Max, -b, fuzz, depth)
    decreases depth
  {
    hide Quarter, CornerBound, Stops, Bound, Neg;
    NegCorner(p);
    NegQuarter(p);
    BoundUnfolds(p, Min, b, fuzz, depth);
    BoundUnfolds(Neg(p), Max, -b, fuzz, depth);
    var b0 := Pick(Min, b, CornerBound(p, Min));
    NegStops(p, b0, fuzz);
    if depth != 0 {
      var s := Quarter(p);
      var b1 := Bound(s.s0, Min, b0, 2.0 * fuzz, depth - 1);
      var b2 := Bound(s.s1, Min, b1, 2.0 * fuzz, depth - 1);
      var b3 := Bound(s.s2, Min, b2, 2.0 * fuzz, depth - 1);
      MinMirrorsMax(s.s0, b0, 2.0 * fuzz, depth - 1);
      MinMirrorsMax(s.s1, b1, 2.0 * fuzz, depth - 1);
      MinMirrorsMax(s.s2, b2, 2.0 * fuzz, depth - 1);
      MinMirrorsMax(s.s3, b3, 2.0 * fuzz, depth - 1);
    }
  }

  lemma NegStops(p: Patch, b: real, fuzz: real)
    ensures Stops(p, Min, b, fuzz) == Stops(Neg(p), Max, -b, fuzz)
  {
    hide ControlBound, Neg;
    NegControl(p);
  }

  lemma NegSurface(p: Patch, s: real, t: real)
    ensures Surface(Neg(p), s, t) == -Surface(p, s, t)
  {
    hide Curve;
    NegCurve(p.r0, s);
    NegCurve(p.r1, s);
    NegCurve(p.r2, s);
    NegCurve(p.r3, s);
    NegCurve(Across(p, s), t);
  }

  lemma NegCurve(r: Row, t: real)
    ensures Curve(NegRow(r), t) == -Curve(r, t)
  {
  }

  /** The upper bound: at least the old one, attained by it or by the surface,
      hence below every common bound of the old one and the control values, and
      above the surface up to the slack. */
  lemma UpperBound(p: Patch, b: real, fuzz: real, depth: nat, d: real, u: real, s: real, t: real)
    requires Steps(p, d) && Unit(s) && Unit(t)
    requires b <= u && AtMost(p, u)
    ensures var r := Bound(p, Max, b, fuzz, depth);
            && b <= r <= u && (r == b || Taken(p, r))
            && Surface(p, s, t) <= r + Slack(fuzz, d, depth)
  {
    hide Bound, Surface, Slack, Steps, AtMost;
    BoundTaken(p, b, fuzz, depth);
    BoundCovers(p, b, fuzz, depth, d, s, t);
    var r := Bound(p, Max, b, fuzz, depth);
    if r != b {
      var x, y :| Unit(x) && Unit(y) && Surface(p, x, y) == r;
      SurfaceAtMost(p, x, y, u);
    }
  }

  lemma NegAtMost(p: Patch, l: real)
    ensures AtLeast(p, l) <==> AtMost(Neg(p), -l)
  {
  }

  /** The lower bound: at most the old one, attained by it or by the surface,
      hence above every common lower bound of the old one and the control
      values, and below the surface up to the slack. */
  lemma LowerBound(p: Patch, b: real, fuzz: real, depth: nat, d: real, l: real, s: real, t: real)
    requires Steps(p, d) && Unit(s) && Unit(t)
    requires l <= b && AtLeast(p, l)
    ensures var r := Bound(p, Min, b, fuzz, depth);
            && l <= r <= b && (r == b || Taken(p, r))
            && r - Slack(fuzz, d, depth) <= Surface(p, s, t)
  {
    hide Bound, Surface, Slack, Neg, AtMost, AtLeast;
    MinMirrorsMax(p, b, fuzz, depth);
    NegSteps(p, d);
    NegAtMost(p, l);
    UpperBound(Neg(p), -b, fuzz, depth, d, -l, s, t);
    NegSurface(p, s, t);
    var r := Bound(p, Min, b, fuzz, depth);
    if r != b {
      var u, v :| Unit(u) && Unit(v) && Surface(Neg(p), u, v) == -r;
      NegSurface(p, u, v);
    }
  }

  lemma NegSteps(p: Patch, d: real)
    requires Steps(p, d)
    ensures Steps(Neg(p), d)
  {
    assert forall x, y :: Near(x, y, d) ==> Near(-x, -y, d);
    hide Near;
  }
}
