/** Bounding a cubic Bezier triangle by subdivision, over exact reals. */
module BoundTris {
  import opened Bounds

  /* The routine. */

  // The ten control values in the order of the original: bIJK has weights I, J, K
  // on the corners x, y, z.
  datatype Tri = Tri(b003: real, b102: real, b012: real, b201: real, b111: real,
                     b021: real, b300: real, b210: real, b120: real, b030: real)

  function CornerBoundTri(p: Tri, m: Side): real {
    Pick(m, Pick(m, p.b003, p.b300), p.b030)
  }

  function ControlBoundTri(p: Tri, m: Side): real {
    var b := Pick(m, Pick(m, Pick(m, Pick(m, p.b102, p.b012), p.b201), p.b111), p.b021);
    Pick(m, Pick(m, b, p.b210), p.b120)
  }

  datatype Parts = Parts(left: Tri, right: Tri, up: Tri, center: Tri)

  function SplitTri(p: Tri): Parts {
    var u021, u120 := Mid(p.b030, p.b021), Mid(p.b030, p.b120);
    var p033, p231, p330 := Mid(p.b021, p.b012), Mid(p.b120, p.b111), Mid(p.b120, p.b210);
    var p123 := Mid(p.b012, p.b111);
    var l012, p312, r210 := Mid(p.b012, p.b003), Mid(p.b111, p.b201), Mid(p.b210, p.b300);
    var l102, p303, r201 := Mid(p.b003, p.b102), Mid(p.b102, p.b201), Mid(p.b201, p.b300);
    var u012, u210 := Mid(u021, p033), Mid(u120, p330);
    var l021, p4xx := Mid(p033, l012), 0.5 * p231 + 0.25 * (p.b111 + p.b102);
    var r120, px4x := Mid(p330, r210), 0.5 * p123 + 0.25 * (p.b111 + p.b210);
    var pxx4 := 0.25 * (p.b021 + p.b111) + 0.5 * p312;
    var l201, r102 := Mid(l102, p303), Mid(p303, r201);
    var l210, r012, l300 := Mid(px4x, l201), Mid(px4x, r102), Mid(l201, r102);
    var r021, u201, r030 := Mid(pxx4, r120), Mid(u210, pxx4), Mid(u210, r120);
    var u102, l120, l030 := Mid(u012, p4xx), Mid(l021, p4xx), Mid(u012, l021);
    var l111, r111 := Mid(p123, l102), Mid(p312, r210);
    var u111, c111 := Mid(u021, p231), 0.25 * (p033 + p330 + p303 + p.b111);
    Parts(
      Tri(p.b003, l102, l012, l201, l111, l021, l300, l210, l120, l030),
      Tri(l300, r102, r012, r201, r111, r021, p.b300, r210, r120, r030),
      Tri(l030, u102, u012, u201, u111, u021, r030, u210, u120, p.b030),
      Tri(r030, u201, r021, u102, c111, r012, l030, l120, l210, l300))
  }

  // The control values do not exceed the bound by more than fuzz.
  predicate StopsTri(p: Tri, m: Side, b: real, fuzz: real) {
    Pick(m, -1.0, 1.0) * (b - ControlBoundTri(p, m)) >= -fuzz
  }

  function BoundTri(p: Tri, m: Side, b: real, fuzz: real, depth: nat): real
    decreases depth
  {
    var b := Pick(m, b, CornerBoundTri(p, m));
    if StopsTri(p, m, b, fuzz) || depth == 0 then b
    else
      var s := SplitTri(p);
      var b := BoundTri(s.left, m, b, 2.0 * fuzz, depth - 1);
      var b := BoundTri(s.right, m, b, 2.0 * fuzz, depth - 1);
      var b := BoundTri(s.up, m, b, 2.0 * fuzz, depth - 1);
      BoundTri(s.center, m, b, 2.0 * fuzz, depth - 1)
  }

  /* The surface. */

  // Barycentric weights of the corners x, y, z.
  datatype Weights = Weights(x: real, y: real, z: real)

  predicate Inside(w: Weights) { w.x >= 0.0 && w.y >= 0.0 && w.z >= 0.0 && w.x + w.y + w.z == 1.0 }

  function Mix(a: real, b: real, c: real, w: Weights): real { w.x * a + w.y * b + w.z * c }

  // One step of de Casteljau's algorithm takes ten values to six, and six to three.
  datatype Six = Six(q002: real, q101: real, q011: real, q200: real, q110: real, q020: real)

  datatype Three = Three(x: real, y: real, z: real)

  function ToSix(p: Tri, w: Weights): Six {
    Six(Mix(p.b102, p.b012, p.b003, w), Mix(p.b201, p.b111, p.b102, w), Mix(p.b111, p.b021, p.b012, w),
        Mix(p.b300, p.b210, p.b201, w), Mix(p.b210, p.b120, p.b111, w), Mix(p.b120, p.b030, p.b021, w))
  }

  function ToThree(q: Six, w: Weights): Three {
    Three(Mix(q.q200, q.q110, q.q101, w), Mix(q.q110, q.q020, q.q011, w), Mix(q.q101, q.q011, q.q002, w))
  }

  function ToOne(l: Three, w: Weights): real { Mix(l.x, l.y, l.z, w) }

  // The blossom of the triangle: its value at w is the one at (w, w, w).
  function BlossomTri(p: Tri, u: Weights, v: Weights, w: Weights): real {
    ToOne(ToThree(ToSix(p, u), v), w)
  }

  function SurfaceTri(p: Tri, w: Weights): real { BlossomTri(p, w, w, w) }

  /* Subdivision. */

  // Where the corners of a part are.
  datatype Corners = Corners(x: Weights, y: Weights, z: Weights)

  const X := Weights(1.0, 0.0, 0.0)
  const Y := Weights(0.0, 1.0, 0.0)
  const Z := Weights(0.0, 0.0, 1.0)
  const XY := Weights(0.5, 0.5, 0.0)
  const YZ := Weights(0.0, 0.5, 0.5)
  const XZ := Weights(0.5, 0.0, 0.5)

  datatype Part = Left | Right | Up | Center

  function CornersOf(k: Part): Corners {
    match k
    case Left => Corners(XZ, YZ, Z)
    case Right => Corners(X, XY, XZ)
    case Up => Corners(XY, Y, YZ)
    case Center => Corners(YZ, XZ, XY)
  }

  function PartOf(p: Tri, k: Part): Tri {
    match k
    case Left => SplitTri(p).left
    case Right => SplitTri(p).right
    case Up => SplitTri(p).up
    case Center => SplitTri(p).center
  }

  // The weights in the whole for weights w in a part.
  function InTri(c: Corners, w: Weights): Weights {
    Weights(Mix(c.x.x, c.y.x, c.z.x, w), Mix(c.x.y, c.y.y, c.z.y, w), Mix(c.x.z, c.y.z, c.z.z, w))
  }

  // The triangle whose control values are the blossom at the corners.
  function SubTri(p: Tri, c: Corners): Tri {
    Tri(BlossomTri(p, c.z, c.z, c.z), BlossomTri(p, c.x, c.z, c.z), BlossomTri(p, c.y, c.z, c.z),
        BlossomTri(p, c.x, c.x, c.z), BlossomTri(p, c.x, c.y, c.z), BlossomTri(p, c.y, c.y, c.z),
        BlossomTri(p, c.x, c.x, c.x), BlossomTri(p, c.x, c.x, c.y), BlossomTri(p, c.x, c.y, c.y),
        BlossomTri(p, c.y, c.y, c.y))
  }

  /** The control values of each part are the blossom at the corners of the part. */
  lemma PartIsBlossom(p: Tri, k: Part)
    ensures PartOf(p, k) == SubTri(p, CornersOf(k))
  {
  }

  // Mixing rows then columns is mixing columns then rows.
  lemma MixCommutes(q: Six, u: Weights, v: Weights)
    ensures ToOne(ToThree(q, u), v) == ToOne(ToThree(q, v), u)
  {
  }

  lemma StepsCommute(p: Tri, u: Weights, v: Weights)
    ensures ToThree(ToSix(p, u), v) == ToThree(ToSix(p, v), u)
  {
    hide Mix;
    MixCommutes(Six(p.b102, p.b201, p.b111, p.b300, p.b210, p.b120), u, v);
    MixCommutes(Six(p.b012, p.b111, p.b021, p.b210, p.b120, p.b030), u, v);
    MixCommutes(Six(p.b003, p.b102, p.b012, p.b201, p.b111, p.b021), u, v);
  }

  /** The blossom does not depend on the order of its arguments. */
  lemma BlossomSymmetric(p: Tri, u: Weights, v: Weights, w: Weights)
    ensures BlossomTri(p, u, v, w) == BlossomTri(p, v, u, w) == BlossomTri(p, u, w, v)
  {
    hide ToSix, ToThree, ToOne;
    StepsCommute(p, u, v);
    MixCommutes(ToSix(p, u), v, w);
  }

  lemma OneInTri(l: Three, c: Corners, w: Weights)
    ensures ToOne(l, InTri(c, w)) == Mix(ToOne(l, c.x), ToOne(l, c.y), ToOne(l, c.z), w)
  {
  }

  // The blossom is affine in its last argument.
  lemma BlossomInTri(p: Tri, u: Weights, v: Weights, c: Corners, w: Weights)
    ensures BlossomTri(p, u, v, InTri(c, w))
            == Mix(BlossomTri(p, u, v, c.x), BlossomTri(p, u, v, c.y), BlossomTri(p, u, v, c.z), w)
  {
    hide ToSix, ToThree, ToOne, Mix, InTri;
    OneInTri(ToThree(ToSix(p, u), v), c, w);
  }

  // De Casteljau's steps in a part are blossoms of the whole.
  lemma SixInPart(p: Tri, c: Corners, u: Weights)
    ensures var v := InTri(c, u);
            ToSix(SubTri(p, c), u) ==
            Six(BlossomTri(p, c.z, c.z, v), BlossomTri(p, c.x, c.z, v), BlossomTri(p, c.y, c.z, v),
                BlossomTri(p, c.x, c.x, v), BlossomTri(p, c.x, c.y, v), BlossomTri(p, c.y, c.y, v))
  {
    hide BlossomTri, Mix, InTri;
    var x, y, z := c.x, c.y, c.z;
    BlossomInTri(p, z, z, c, u);
    BlossomInTri(p, x, z, c, u);
    BlossomInTri(p, y, z, c, u);
    BlossomInTri(p, x, x, c, u);
    BlossomInTri(p, x, y, c, u);
    BlossomInTri(p, y, y, c, u);
    Rotate(p, z, z, x);
    Rotate(p, z, z, y);
    Rotate(p, x, z, x);
    Rotate(p, x, z, y);
    Rotate(p, y, z, x);
    Rotate(p, y, z, y);
    Rotate(p, x, y, x);
    Rotate(p, y, y, x);
  }

  // All orders of three arguments.
  lemma Rotate(p: Tri, u: Weights, v: Weights, w: Weights)
    ensures BlossomTri(p, u, v, w) == BlossomTri(p, v, u, w) == BlossomTri(p, u, w, v)
    ensures BlossomTri(p, u, v, w) == BlossomTri(p, w, u, v) == BlossomTri(p, v, w, u) == BlossomTri(p, w, v, u)
  {
    hide BlossomTri;
    BlossomSymmetric(p, u, v, w);
    BlossomSymmetric(p, u, w, v);
    BlossomSymmetric(p, v, u, w);
    BlossomSymmetric(p, w, u, v);
  }

  lemma ThreeInPart(p: Tri, c: Corners, u: Weights, v: Weights)
    ensures var a, b := InTri(c, u), InTri(c, v);
            ToThree(ToSix(SubTri(p, c), u), v) == Three(BlossomTri(p, c.x, a, b), BlossomTri(p, c.y, a, b), BlossomTri(p, c.z, a, b))
  {
    hide BlossomTri, Mix, InTri, ToSix, SubTri;
    SixInPart(p, c, u);
    var x, y, z, a := c.x, c.y, c.z, InTri(c, u);
    BlossomInTri(p, x, a, c, v);
    BlossomInTri(p, y, a, c, v);
    BlossomInTri(p, z, a, c, v);
    Rotate(p, x, x, a);
    Rotate(p, x, y, a);
    Rotate(p, x, z, a);
    Rotate(p, y, y, a);
    Rotate(p, y, z, a);
    Rotate(p, z, z, a);
  }

  /** The blossom of the triangle between any three corners is that of the whole. */
  lemma BlossomInPart(p: Tri, c: Corners, u: Weights, v: Weights, w: Weights)
    ensures BlossomTri(SubTri(p, c), u, v, w) == BlossomTri(p, InTri(c, u), InTri(c, v), InTri(c, w))
  {
    hide Mix, InTri, ToSix, ToThree, SubTri;
    var a, b := InTri(c, u), InTri(c, v);
    ThreeInPart(p, c, u, v);
    BlossomInTri(p, a, b, c, w);
    Rotate(p, c.x, a, b);
    Rotate(p, c.y, a, b);
    Rotate(p, c.z, a, b);
  }

  /** Each part evaluates to the original on its part of the triangle. */
  lemma PartSurface(p: Tri, k: Part, w: Weights)
    ensures SurfaceTri(PartOf(p, k), w) == SurfaceTri(p, InTri(CornersOf(k), w))
  {
    hide BlossomTri, PartOf, SubTri, CornersOf, InTri;
    PartIsBlossom(p, k);
    BlossomInPart(p, CornersOf(k), w, w, w);
  }

  /* Ranges and differences of control values. */

  predicate AtMostTri(p: Tri, u: real) {
    && p.b003 <= u && p.b102 <= u && p.b012 <= u && p.b201 <= u && p.b111 <= u
    && p.b021 <= u && p.b300 <= u && p.b210 <= u && p.b120 <= u && p.b030 <= u
  }

  predicate AtLeastTri(p: Tri, l: real) {
    && p.b003 >= l && p.b102 >= l && p.b012 >= l && p.b201 >= l && p.b111 >= l
    && p.b021 >= l && p.b300 >= l && p.b210 >= l && p.b120 >= l && p.b030 >= l
  }

  lemma ScaledAtMost(x: real, a: real, u: real) returns (rest: real)
    requires x >= 0.0 && a <= u
    ensures x * a + rest == x * u && rest >= 0.0
  {
    rest := x * (u - a);
  }

  lemma MixAtMost(a: real, b: real, c: real, w: Weights, u: real)
    requires Inside(w) && a <= u && b <= u && c <= u
    ensures Mix(a, b, c, w) <= u
  {
    var r := ScaledAtMost(w.x, a, u);
    var s := ScaledAtMost(w.y, b, u);
    var t := ScaledAtMost(w.z, c, u);
    assert w.z == 1.0 - w.x - w.y;
    assert w.x * u + w.y * u + (1.0 - w.x - w.y) * u == u;
  }

  lemma BlossomAtMost(p: Tri, u: Weights, v: Weights, w: Weights, x: real)
    requires Inside(u) && Inside(v) && Inside(w) && AtMostTri(p, x)
    ensures BlossomTri(p, u, v, w) <= x
  {
    hide Mix, Inside;
    var q := ToSix(p, u);
    MixAtMost(p.b102, p.b012, p.b003, u, x);
    MixAtMost(p.b201, p.b111, p.b102, u, x);
    MixAtMost(p.b111, p.b021, p.b012, u, x);
    MixAtMost(p.b300, p.b210, p.b201, u, x);
    MixAtMost(p.b210, p.b120, p.b111, u, x);
    MixAtMost(p.b120, p.b030, p.b021, u, x);
    MixAtMost(q.q200, q.q110, q.q101, v, x);
    MixAtMost(q.q110, q.q020, q.q011, v, x);
    MixAtMost(q.q101, q.q011, q.q002, v, x);
    var l := ToThree(q, v);
    MixAtMost(l.x, l.y, l.z, w, x);
  }

  /** On the triangle the surface stays below its control values. */
  lemma SurfaceTriAtMost(p: Tri, w: Weights, u: real)
    requires Inside(w) && AtMostTri(p, u)
    ensures SurfaceTri(p, w) <= u
  {
    hide BlossomTri;
    BlossomAtMost(p, w, w, w, u);
  }

  lemma PartAtMost(p: Tri, k: Part, u: real)
    requires AtMostTri(p, u)
    ensures AtMostTri(PartOf(p, k), u)
  {
    hide BlossomTri, CornersOf, Inside, PartOf;
    PartIsBlossom(p, k);
    CornersInside(k);
    var c := CornersOf(k);
    BlossomAtMost(p, c.z, c.z, c.z, u);
    BlossomAtMost(p, c.x, c.z, c.z, u);
    BlossomAtMost(p, c.y, c.z, c.z, u);
    BlossomAtMost(p, c.x, c.x, c.z, u);
    BlossomAtMost(p, c.x, c.y, c.z, u);
    BlossomAtMost(p, c.y, c.y, c.z, u);
    BlossomAtMost(p, c.x, c.x, c.x, u);
    BlossomAtMost(p, c.x, c.x, c.y, u);
    BlossomAtMost(p, c.x, c.y, c.y, u);
    BlossomAtMost(p, c.y, c.y, c.y, u);
  }

  predicate Trio(x: real, y: real, z: real, d: real) { Near(x, y, d) && Near(y, z, d) && Near(x, z, d) }

  /** Adjacent control values differ by at most d. */
  predicate StepsTri(p: Tri, d: real) {
    && Trio(p.b102, p.b012, p.b003, d) && Trio(p.b201, p.b111, p.b102, d) && Trio(p.b111, p.b021, p.b012, d)
    && Trio(p.b300, p.b210, p.b201, d) && Trio(p.b210, p.b120, p.b111, d) && Trio(p.b120, p.b030, p.b021, d)
  }

  lemma MixNear(a: real, b: real, c: real, x: real, y: real, z: real, w: Weights, d: real)
    requires Inside(w) && Near(a, x, d) && Near(b, y, d) && Near(c, z, d)
    ensures Near(Mix(a, b, c, w), Mix(x, y, z, w), d)
  {
    MixAtMost(a - x, b - y, c - z, w, d);
    MixAtMost(x - a, y - b, z - c, w, d);
  }

  lemma MixTrio(a: Three, b: Three, c: Three, w: Weights, d: real)
    requires Inside(w) && Trio(a.x, b.x, c.x, d) && Trio(a.y, b.y, c.y, d) && Trio(a.z, b.z, c.z, d)
    ensures Trio(ToOne(a, w), ToOne(b, w), ToOne(c, w), d)
  {
    hide Near, Mix;
    MixNear(a.x, a.y, a.z, b.x, b.y, b.z, w, d);
    MixNear(b.x, b.y, b.z, c.x, c.y, c.z, w, d);
    MixNear(a.x, a.y, a.z, c.x, c.y, c.z, w, d);
  }

  // Mixing keeps neighbours near.
  lemma ThreeSteps(p: Tri, u: Weights, v: Weights, d: real)
    requires StepsTri(p, d) && Inside(u) && Inside(v)
    ensures var l := ToThree(ToSix(p, u), v); Trio(l.x, l.y, l.z, d)
  {
    hide Trio, Mix;
    var q := ToSix(p, u);
    var a := Three(p.b300, p.b210, p.b201);
    var b := Three(p.b210, p.b120, p.b111);
    var c := Three(p.b201, p.b111, p.b102);
    MixTrio(a, b, c, u, d);
    var e := Three(p.b120, p.b030, p.b021);
    var f := Three(p.b111, p.b021, p.b012);
    MixTrio(b, e, f, u, d);
    var g := Three(p.b102, p.b012, p.b003);
    MixTrio(c, f, g, u, d);
    MixTrio(Three(q.q200, q.q110, q.q101), Three(q.q110, q.q020, q.q011), Three(q.q101, q.q011, q.q002), v, d);
  }

  // The corners of a part are half as far apart as those of the whole.
  lemma CornersHalve(l: Three, k: Part, d: real)
    requires Trio(l.x, l.y, l.z, d)
    ensures var c := CornersOf(k); Trio(ToOne(l, c.x), ToOne(l, c.y), ToOne(l, c.z), 0.5 * d)
  {
  }

  lemma BlossomSteps(p: Tri, k: Part, u: Weights, v: Weights, d: real)
    requires StepsTri(p, d) && Inside(u) && Inside(v)
    ensures var c := CornersOf(k);
            Trio(BlossomTri(p, c.x, u, v), BlossomTri(p, c.y, u, v), BlossomTri(p, c.z, u, v), 0.5 * d)
  {
    hide Trio, ToSix, ToThree, ToOne;
    var c := CornersOf(k);
    ThreeSteps(p, u, v, d);
    CornersHalve(ToThree(ToSix(p, u), v), k, d);
    Rotate(p, c.x, u, v);
    Rotate(p, c.y, u, v);
    Rotate(p, c.z, u, v);
  }

  lemma CornersInside(k: Part)
    ensures var c := CornersOf(k); Inside(c.x) && Inside(c.y) && Inside(c.z)
  {
  }

  /** In each part the differences are halved. */
  lemma PartSteps(p: Tri, k: Part, d: real)
    requires StepsTri(p, d)
    ensures StepsTri(PartOf(p, k), 0.5 * d)
  {
    hide BlossomTri, Trio, CornersOf, Inside, PartOf;
    PartIsBlossom(p, k);
    CornersInside(k);
    var c := CornersOf(k);
    BlossomSteps(p, k, c.z, c.z, d);
    BlossomSteps(p, k, c.x, c.z, d);
    BlossomSteps(p, k, c.y, c.z, d);
    BlossomSteps(p, k, c.x, c.x, d);
    BlossomSteps(p, k, c.x, c.y, d);
    BlossomSteps(p, k, c.y, c.y, d);
    Rotate(p, c.x, c.y, c.z);
    Rotate(p, c.x, c.x, c.y);
    Rotate(p, c.x, c.x, c.z);
    Rotate(p, c.y, c.y, c.x);
    Rotate(p, c.y, c.y, c.z);
    Rotate(p, c.z, c.z, c.x);
    Rotate(p, c.z, c.z, c.y);
  }

  /** No control value is more than two steps above the corners. */
  lemma CornersCloseTri(p: Tri, d: real, u: real)
    requires StepsTri(p, d) && CornerBoundTri(p, Max) <= u
    ensures AtMostTri(p, u + 2.0 * d) && d >= 0.0
  {
  }

  lemma AllControlsTri(p: Tri, u: real)
    requires CornerBoundTri(p, Max) <= u && ControlBoundTri(p, Max) <= u
    ensures AtMostTri(p, u)
  {
  }

  /* The bound. */

  lemma BoundTriUnfolds(p: Tri, m: Side, b: real, fuzz: real, depth: nat)
    ensures var b0 := Pick(m, b, CornerBoundTri(p, m));
            StopsTri(p, m, b0, fuzz) || depth == 0 ==> BoundTri(p, m, b, fuzz, depth) == b0
    ensures var b0 := Pick(m, b, CornerBoundTri(p, m));
            !StopsTri(p, m, b0, fuzz) && depth != 0 ==>
              BoundTri(p, m, b, fuzz, depth) == After(p, m, b0, fuzz, depth, Center)
  {
    hide SplitTri, CornerBoundTri, StopsTri;
  }

  // The bound after the parts up to k, when the parts are begun with b.
  function After(p: Tri, m: Side, b: real, fuzz: real, depth: nat, k: Part): real
    requires depth > 0
  {
    BoundTri(PartOf(p, k), m, Before(p, m, b, fuzz, depth, k), 2.0 * fuzz, depth - 1)
  }

  function Before(p: Tri, m: Side, b: real, fuzz: real, depth: nat, k: Part): real
    requires depth > 0
    decreases match k case Left => 0 case Right => 1 case Up => 2 case Center => 3
  {
    match k
    case Left => b
    case Right => BoundTri(PartOf(p, Left), m, Before(p, m, b, fuzz, depth, Left), 2.0 * fuzz, depth - 1)
    case Up => BoundTri(PartOf(p, Right), m, Before(p, m, b, fuzz, depth, Right), 2.0 * fuzz, depth - 1)
    case Center => BoundTri(PartOf(p, Up), m, Before(p, m, b, fuzz, depth, Up), 2.0 * fuzz, depth - 1)
  }

  // A value the surface takes on the triangle.
  ghost predicate TakenTri(p: Tri, x: real) {
    exists w :: Inside(w) && SurfaceTri(p, w) == x
  }

  lemma MixCorner(a: real, b: real, c: real)
    ensures Mix(a, b, c, X) == a && Mix(a, b, c, Y) == b && Mix(a, b, c, Z) == c
  {
  }

  lemma SurfaceCornersTri(p: Tri)
    ensures SurfaceTri(p, X) == p.b300 && SurfaceTri(p, Y) == p.b030 && SurfaceTri(p, Z) == p.b003
  {
    hide Mix;
    MixCorner(p.b300, p.b210, p.b201);
    MixCorner(p.b210, p.b120, p.b111);
    MixCorner(p.b201, p.b111, p.b102);
    MixCorner(p.b120, p.b030, p.b021);
    MixCorner(p.b111, p.b021, p.b012);
    MixCorner(p.b102, p.b012, p.b003);
  }

  lemma CornerTakenTri(p: Tri)
    ensures TakenTri(p, CornerBoundTri(p, Max))
  {
    hide *;
    SurfaceCornersTri(p);
    AnyCornerTri(p);
    assert TakenTri(p, p.b300) && TakenTri(p, p.b030) && TakenTri(p, p.b003) by {
      Attained(p, X);
      Attained(p, Y);
      Attained(p, Z);
    }
  }

  lemma AnyCornerTri(p: Tri)
    ensures CornerBoundTri(p, Max) in {p.b300, p.b030, p.b003}
    ensures Inside(X) && Inside(Y) && Inside(Z)
  {
  }

  lemma Attained(p: Tri, w: Weights)
    requires Inside(w)
    ensures TakenTri(p, SurfaceTri(p, w))
  {
    hide SurfaceTri, Inside;
  }

  lemma InTriInside(k: Part, w: Weights)
    requires Inside(w)
    ensures Inside(InTri(CornersOf(k), w))
  {
  }

  lemma PartTaken(p: Tri, k: Part, x: real)
    requires TakenTri(PartOf(p, k), x)
    ensures TakenTri(p, x)
  {
    hide SurfaceTri, PartOf, Inside, InTri;
    var w :| Inside(w) && SurfaceTri(PartOf(p, k), w) == x;
    PartSurface(p, k, w);
    InTriInside(k, w);
  }

  /** The bound is the old bound or a value of the surface, whichever is larger. */
  lemma {:induction false} BoundTriTaken(p: Tri, b: real, fuzz: real, depth: nat)
    ensures var r := BoundTri(p, Max, b, fuzz, depth); b <= r && (r == b || TakenTri(p, r))
    decreases depth, 4
  {
    hide TakenTri, CornerBoundTri, StopsTri, BoundTri, After;
    BoundTriUnfolds(p, Max, b, fuzz, depth);
    CornerTakenTri(p);
    var b0 := Pick(Max, b, CornerBoundTri(p, Max));
    if depth != 0 {
      AfterTaken(p, b0, fuzz, depth, Center);
    }
  }

  lemma {:induction false} AfterTaken(p: Tri, b: real, fuzz: real, depth: nat, k: Part)
    requires depth > 0
    ensures var x, r := Before(p, Max, b, fuzz, depth, k), After(p, Max, b, fuzz, depth, k);
            b <= x <= r && (r == b || TakenTri(p, r))
    decreases depth, match k case Left => 0 case Right => 1 case Up => 2 case Center => 3
  {
    hide TakenTri, PartOf, BoundTri;
    var x, r := Before(p, Max, b, fuzz, depth, k), After(p, Max, b, fuzz, depth, k);
    BoundTriTaken(PartOf(p, k), x, 2.0 * fuzz, depth - 1);
    if TakenTri(PartOf(p, k), r) {
      PartTaken(p, k, r);
    }
    match k
    case Left =>
    case Right => AfterTaken(p, b, fuzz, depth, Left);
    case Up => AfterTaken(p, b, fuzz, depth, Right);
    case Center => AfterTaken(p, b, fuzz, depth, Up);
  }

  // The last part's result is at least that of each part.
  lemma PartCounts(p: Tri, b: real, fuzz: real, depth: nat, k: Part)
    requires depth > 0
    ensures After(p, Max, b, fuzz, depth, k) <= After(p, Max, b, fuzz, depth, Center)
  {
    hide TakenTri, PartOf, BoundTri;
    AfterTaken(p, b, fuzz, depth, Center);
    AfterTaken(p, b, fuzz, depth, Up);
    AfterTaken(p, b, fuzz, depth, Right);
  }

  // The part that the point with weights w is in, and its weights there.
  function PartAt(w: Weights): Part {
    if w.z >= 0.5 then Left else if w.x >= 0.5 then Right else if w.y >= 0.5 then Up else Center
  }

  function WeightsIn(w: Weights): Weights {
    match PartAt(w)
    case Left => Weights(2.0 * w.x, 2.0 * w.y, 2.0 * w.z - 1.0)
    case Right => Weights(2.0 * w.x - 1.0, 2.0 * w.y, 2.0 * w.z)
    case Up => Weights(2.0 * w.x, 2.0 * w.y - 1.0, 2.0 * w.z)
    case Center => Weights(1.0 - 2.0 * w.x, 1.0 - 2.0 * w.y, 1.0 - 2.0 * w.z)
  }

  /** The four parts cover the triangle. */
  lemma PartsCover(w: Weights)
    requires Inside(w)
    ensures Inside(WeightsIn(w)) && InTri(CornersOf(PartAt(w)), WeightsIn(w)) == w
  {
  }

  /** The bound is at least every value of the surface, less the slack. */
  lemma {:induction false} BoundTriCovers(p: Tri, b: real, fuzz: real, depth: nat, d: real, w: Weights)
    requires StepsTri(p, d) && Inside(w)
    ensures SurfaceTri(p, w) <= BoundTri(p, Max, b, fuzz, depth) + Slack(fuzz, d, depth)
    decreases depth
  {
    hide PartOf, CornerBoundTri, ControlBoundTri, SurfaceTri, Slack, StepsTri, BoundTri, InTri, CornersOf;
    hide Inside, AtMostTri, WeightsIn, PartAt, Before;
    BoundTriUnfolds(p, Max, b, fuzz, depth);
    var b0 := Pick(Max, b, CornerBoundTri(p, Max));
    CornersCloseTri(p, d, b0);
    SlackBig(fuzz, d, depth);
    if StopsTri(p, Max, b0, fuzz) {
      var u := Pick(Max, b0, b0 + fuzz);
      AllControlsTri(p, u);
      SurfaceTriAtMost(p, w, u);
    } else if depth == 0 {
      SurfaceTriAtMost(p, w, b0 + 2.0 * d);
    } else {
      var k := PartAt(w);
      PartsCover(w);
      PartCounts(p, b0, fuzz, depth, k);
      PartSteps(p, k, d);
      PartSurface(p, k, WeightsIn(w));
      SlackHalves(fuzz, d, depth);
      BoundTriCovers(PartOf(p, k), Before(p, Max, b0, fuzz, depth, k), 2.0 * fuzz, depth - 1, 0.5 * d, WeightsIn(w));
    }
  }

  /** The upper bound: at least the old one, attained by it or by the surface,
      hence below every common bound of the old one and the control values, and
      above the surface up to the slack. */
  lemma UpperBoundTri(p: Tri, b: real, fuzz: real, depth: nat, d: real, u: real, w: Weights)
    requires StepsTri(p, d) && Inside(w)
    requires b <= u && AtMostTri(p, u)
    ensures var r := BoundTri(p, Max, b, fuzz, depth);
            && b <= r <= u && (r == b || TakenTri(p, r))
            && SurfaceTri(p, w) <= r + Slack(fuzz, d, depth)
  {
    hide BoundTri, SurfaceTri, Slack, StepsTri, AtMostTri, Inside;
    BoundTriTaken(p, b, fuzz, depth);
    BoundTriCovers(p, b, fuzz, depth, d, w);
    var r := BoundTri(p, Max, b, fuzz, depth);
    if r != b {
      var v :| Inside(v) && SurfaceTri(p, v) == r;
      SurfaceTriAtMost(p, v, u);
    }
  }

  /* The smallest value. */

  function NegTri(p: Tri): Tri {
    Tri(-p.b003, -p.b102, -p.b012, -p.b201, -p.b111, -p.b021, -p.b300, -p.b210, -p.b120, -p.b030)
  }

  lemma NegSurfaceTri(p: Tri, w: Weights)
    ensures SurfaceTri(NegTri(p), w) == -SurfaceTri(p, w)
  {
    NegBlossom(p, w, w, w);
  }

  lemma NegMix(a: real, b: real, c: real, w: Weights)
    ensures Mix(-a, -b, -c, w) == -Mix(a, b, c, w)
  {
  }

  lemma NegBlossom(p: Tri, u: Weights, v: Weights, w: Weights)
    ensures BlossomTri(NegTri(p), u, v, w) == -BlossomTri(p, u, v, w)
  {
    hide Mix;
    var q := ToSix(p, u);
    NegMix(p.b102, p.b012, p.b003, u);
    NegMix(p.b201, p.b111, p.b102, u);
    NegMix(p.b111, p.b021, p.b012, u);
    NegMix(p.b300, p.b210, p.b201, u);
    NegMix(p.b210, p.b120, p.b111, u);
    NegMix(p.b120, p.b030, p.b021, u);
    NegMix(q.q200, q.q110, q.q101, v);
    NegMix(q.q110, q.q020, q.q011, v);
    NegMix(q.q101, q.q011, q.q002, v);
    var l := ToThree(q, v);
    NegMix(l.x, l.y, l.z, w);
  }

  lemma NegPart(p: Tri, k: Part)
    ensures PartOf(NegTri(p), k) == NegTri(PartOf(p, k))
  {
    hide BlossomTri, PartOf, NegTri, CornersOf;
    PartIsBlossom(p, k);
    PartIsBlossom(NegTri(p), k);
    NegSub(p, CornersOf(k));
  }

  lemma NegSub(p: Tri, c: Corners)
    ensures SubTri(NegTri(p), c) == NegTri(SubTri(p, c))
  {
    hide BlossomTri;
    var x, y, z := c.x, c.y, c.z;
    NegBlossom(p, z, z, z);
    NegBlossom(p, x, z, z);
    NegBlossom(p, y, z, z);
    NegBlossom(p, x, x, z);
    NegBlossom(p, x, y, z);
    NegBlossom(p, y, y, z);
    NegBlossom(p, x, x, x);
    NegBlossom(p, x, x, y);
    NegBlossom(p, x, y, y);
    NegBlossom(p, y, y, y);
  }

  lemma NegStopsTri(p: Tri, b: real, fuzz: real)
    ensures CornerBoundTri(p, Min) == -CornerBoundTri(NegTri(p), Max)
    ensures StopsTri(p, Min, b, fuzz) == StopsTri(NegTri(p), Max, -b, fuzz)
  {
    assert ControlBoundTri(p, Min) == -ControlBoundTri(NegTri(p), Max);
  }

  /** The lower bound is the upper bound of the mirrored triangle, mirrored. */
  lemma {:induction false} MinMirrorsMaxTri(p: Tri, b: real, fuzz: real, depth: nat)
    ensures BoundTri(p, Min, b, fuzz, depth) == -BoundTri(NegTri(p), Max, -b, fuzz, depth)
    decreases depth, 4
  {
    hide CornerBoundTri, StopsTri, BoundTri, NegTri, After;
    BoundTriUnfolds(p, Min, b, fuzz, depth);
    BoundTriUnfolds(NegTri(p), Max, -b, fuzz, depth);
    var b0 := Pick(Min, b, CornerBoundTri(p, Min));
    NegStopsTri(p, b0, fuzz);
    if depth != 0 {
      AfterMirrors(p, b0, fuzz, depth, Center);
    }
  }

  lemma {:induction false} AfterMirrors(p: Tri, b: real, fuzz: real, depth: nat, k: Part)
    requires depth > 0
    ensures After(p, Min, b, fuzz, depth, k) == -After(NegTri(p), Max, -b, fuzz, depth, k)
    decreases depth, match k case Left => 0 case Right => 1 case Up => 2 case Center => 3
  {
    hide BoundTri, NegTri, PartOf;
    NegPart(p, k);
    match k {
      case Left =>
      case Right => AfterMirrors(p, b, fuzz, depth, Left);
      case Up => AfterMirrors(p, b, fuzz, depth, Right);
      case Center => AfterMirrors(p, b, fuzz, depth, Up);
    }
    MinMirrorsMaxTri(PartOf(p, k), Before(p, Min, b, fuzz, depth, k), 2.0 * fuzz, depth - 1);
  }

  lemma NegStepsTri(p: Tri, d: real)
    requires StepsTri(p, d)
    ensures StepsTri(NegTri(p), d)
  {
    assert forall x, y :: Near(x, y, d) ==> Near(-x, -y, d);
    hide Near;
  }

  lemma NegAtMostTri(p: Tri, l: real)
    ensures AtLeastTri(p, l) <==> AtMostTri(NegTri(p), -l)
  {
  }

  /** The control values of each part stay in the range of the original's. */
  lemma PartRange(p: Tri, k: Part, l: real, u: real)
    requires AtLeastTri(p, l) && AtMostTri(p, u)
    ensures AtLeastTri(PartOf(p, k), l) && AtMostTri(PartOf(p, k), u)
  {
    hide AtMostTri, AtLeastTri, PartOf, NegTri;
    PartAtMost(p, k, u);
    NegAtMostTri(p, l);
    PartAtMost(NegTri(p), k, -l);
    NegPart(p, k);
    NegAtMostTri(PartOf(p, k), l);
  }

  /** The lower bound: at most the old one, attained by it or by the surface,
      hence above every common lower bound of the old one and the control
      values, and below the surface up to the slack. */
  lemma LowerBoundTri(p: Tri, b: real, fuzz: real, depth: nat, d: real, l: real, w: Weights)
    requires StepsTri(p, d) && Inside(w)
    requires l <= b && AtLeastTri(p, l)
    ensures var r := BoundTri(p, Min, b, fuzz, depth);
            && l <= r <= b && (r == b || TakenTri(p, r))
            && r - Slack(fuzz, d, depth) <= SurfaceTri(p, w)
  {
    hide BoundTri, SurfaceTri, Slack, NegTri, Inside, StepsTri, AtMostTri, AtLeastTri;
    MinMirrorsMaxTri(p, b, fuzz, depth);
    NegStepsTri(p, d);
    NegAtMostTri(p, l);
    UpperBoundTri(NegTri(p), -b, fuzz, depth, d, -l, w);
    NegSurfaceTri(p, w);
    var r := BoundTri(p, Min, b, fuzz, depth);
    if r != b {
      var v :| Inside(v) && SurfaceTri(NegTri(p), v) == -r;
      NegSurfaceTri(p, v);
    }
  }
}
