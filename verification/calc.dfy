/** The geometry helpers of the triangle viewer: the fit-to-viewport transform,
    side lengths, shoelace area and perimeter of a triangle.

    The program computes in `f32`; this model computes in exact `real`
    arithmetic. The square root is a parameter `sqrt` (the foreign `f32::sqrt`),
    and the properties that need it to behave as a square root assume so only
    at the three squared side lengths of the triangle at hand (`RootsAt`).
 */
module Calc {

  datatype Point = Point(x: real, y: real)

  /** A triangle with vertices A, B, C in entry order (nannou's `Tri<Vec2>`). */
  datatype Tri = Tri(a: Point, b: Point, c: Point)

  /** An axis-aligned rectangle, seen through nannou's accessors `x()`, `y()`
      (the centre) and `w()`, `h()` (the size). */
  datatype Rect = Rect(x: real, y: real, w: real, h: real)

  datatype Vec3 = Vec3(x: real, y: real, z: real)

  /** What `view_transform` returns: a translation and a uniform scale. */
  datatype Transform = Transform(translate: Vec3, scale: real)

  /** The six orders in which the three vertices can be listed. */
  datatype Perm = ABC | ACB | BAC | BCA | CAB | CBA

  function Permute(t: Tri, p: Perm): (r: Tri)
    ensures multiset{r.a, r.b, r.c} == multiset{t.a, t.b, t.c}
  {
    match p
    case ABC => t
    case ACB => Tri(t.a, t.c, t.b)
    case BAC => Tri(t.b, t.a, t.c)
    case BCA => Tri(t.b, t.c, t.a)
    case CAB => Tri(t.c, t.a, t.b)
    case CBA => Tri(t.c, t.b, t.a)
  }

  /** All three vertices are the same point. */
  predicate AllCoincide(t: Tri) {
    t.a == t.b && t.b == t.c
  }

  // ---------------------------------------------------------------------------
  // Real arithmetic helpers. Products are passed in by name (`p == a * b`) so
  // that callers reason about the named value rather than about the product.

  function Abs(x: real): (r: real)
    ensures r >= 0.0
    ensures r == x || r == -x
  {
    if x < 0.0 then -x else x
  }

  function Min(x: real, y: real): real {
    if x <= y then x else y
  }

  /** `f32::max` on operands that are not NaN. */
  function Max(x: real, y: real): real {
    if x >= y then x else y
  }

  function Min3(x: real, y: real, z: real): real {
    Min(Min(x, y), z)
  }

  function Max3(x: real, y: real, z: real): real {
    Max(Max(x, y), z)
  }

  /** The sign of a product follows from the signs of its factors. */
  lemma ProdSign(a: real, b: real, p: real)
    requires p == a * b
    ensures (a > 0.0 && b > 0.0) || (a < 0.0 && b < 0.0) ==> p > 0.0
    ensures (a > 0.0 && b < 0.0) || (a < 0.0 && b > 0.0) ==> p < 0.0
    ensures a == 0.0 || b == 0.0 ==> p == 0.0
  {
  }

  /** Scaling two ordered values by the same non-negative factor keeps their
      order. */
  lemma ProdMono(a: real, b: real, s: real, p: real, q: real)
    requires a <= b && s >= 0.0 && p == a * s && q == b * s
    ensures p <= q
  {
    var d := (b - a) * s;
    assert d == q - p;
    ProdSign(b - a, s, d);
  }

  /** A quotient times its divisor gives back the dividend. */
  lemma DivMul(a: real, v: real, x: real)
    requires v != 0.0 && x == a / v
    ensures x * v == a
  {
  }

  // ---------------------------------------------------------------------------
  // Bounding rectangle (nannou `Tri::bounding_rect`)

  function Left(r: Rect): real { r.x - r.w / 2.0 }
  function Right(r: Rect): real { r.x + r.w / 2.0 }
  function Bottom(r: Rect): real { r.y - r.h / 2.0 }
  function Top(r: Rect): real { r.y + r.h / 2.0 }

  predicate InRect(p: Point, r: Rect) {
    Left(r) <= p.x <= Right(r) && Bottom(r) <= p.y <= Top(r)
  }

  /** The smallest axis-aligned rectangle holding the three vertices: it holds
      them all, and each of its four edges passes through one of them. */
  function BoundingRect(t: Tri): (r: Rect)
    ensures r.w >= 0.0 && r.h >= 0.0
    ensures InRect(t.a, r) && InRect(t.b, r) && InRect(t.c, r)
    ensures Left(r) in {t.a.x, t.b.x, t.c.x} && Right(r) in {t.a.x, t.b.x, t.c.x}
    ensures Bottom(r) in {t.a.y, t.b.y, t.c.y} && Top(r) in {t.a.y, t.b.y, t.c.y}
  {
    var x0 := Min3(t.a.x, t.b.x, t.c.x);
    var x1 := Max3(t.a.x, t.b.x, t.c.x);
    var y0 := Min3(t.a.y, t.b.y, t.c.y);
    var y1 := Max3(t.a.y, t.b.y, t.c.y);
    Rect((x0 + x1) / 2.0, (y0 + y1) / 2.0, x1 - x0, y1 - y0)
  }

  /** A bounding box of zero width and zero height belongs to a triangle whose
      vertices all coincide, and only to such a triangle. */
  lemma PointBoxIffCoincide(t: Tri)
    ensures var bb := BoundingRect(t); (bb.w == 0.0 && bb.h == 0.0) <==> AllCoincide(t)
  {
    var bb := BoundingRect(t);
    if bb.w == 0.0 && bb.h == 0.0 {
      assert t.a.x == t.b.x == t.c.x && t.a.y == t.b.y == t.c.y;
    }
  }

  // ---------------------------------------------------------------------------
  // view_transform

  /** Maps a point into view space the way the renderer does:
      `point * scale + translate.xy()`. */
  function Apply(tr: Transform, p: Point): Point {
    Point(p.x * tr.scale + tr.translate.x, p.y * tr.scale + tr.translate.y)
  }

  /** Along one axis: a box of extent `b` whose ratio `b / v` to the view's
      extent `v` is at most `m` fits into the view once scaled by `1 / m`,
      and fills it when that ratio is `m` itself. */
  lemma AxisFits(b: real, v: real, m: real, s: real)
    requires b >= 0.0 && v > 0.0 && m > 0.0 && b / v <= m && s == 1.0 / m
    ensures b * s <= v
    ensures b / v == m ==> b * s == v
  {
    var ratio := b / v;
    DivMul(b, v, ratio);
    DivMul(1.0, m, s);
    var p := b * s;
    var q := (m * v) * s;
    assert p == ratio * (v * s);
    assert q == m * (v * s);
    ProdSign(v, s, v * s);
    ProdMono(ratio, m, v * s, p, q);
    assert q == (m * s) * v;
  }

  /** `tr` fits the box `bb` into `view` preserving its aspect ratio: the
      scale is positive, the box's centre lands on the view's centre, the
      translation has no depth, the scaled box fits inside the view, and it
      fills the view along the axis whose ratio to the view is larger. */
  predicate FitsBox(bb: Rect, view: Rect, tr: Transform)
    requires view.w > 0.0 && view.h > 0.0
  {
    && tr.scale > 0.0
    && bb.x * tr.scale + tr.translate.x == view.x
    && bb.y * tr.scale + tr.translate.y == view.y
    && tr.translate.z == 0.0
    && bb.w * tr.scale <= view.w
    && bb.h * tr.scale <= view.h
    && (bb.w / view.w >= bb.h / view.h ==> bb.w * tr.scale == view.w)
    && (bb.h / view.h >= bb.w / view.w ==> bb.h * tr.scale == view.h)
  }

  /** Scaling by one over the larger ratio and moving the box's centre onto
      the view's centre fits the box into the view. */
  lemma FitsBoxByRatio(bb: Rect, view: Rect, maxRatio: real, scale: real, tr: Transform)
    requires bb.w >= 0.0 && bb.h >= 0.0 && view.w > 0.0 && view.h > 0.0
    requires maxRatio == Max(bb.w / view.w, bb.h / view.h) && maxRatio > 0.0
    requires scale == 1.0 / maxRatio
    requires tr == Transform(Vec3(view.x - bb.x * scale, view.y - bb.y * scale, 0.0), scale)
    ensures FitsBox(bb, view, tr)
  {
    AxisFits(bb.w, view.w, maxRatio, scale);
    AxisFits(bb.h, view.h, maxRatio, scale);
  }

  /** The arithmetic of `view_transform` once the bounding box `bb` is known:
      scale by one over the larger of the width and height ratios, then move
      the box's centre onto the view's centre. */
  function Fit(bb: Rect, view: Rect): (r: Transform)
    requires bb.w >= 0.0 && bb.h >= 0.0 && (bb.w > 0.0 || bb.h > 0.0)
    requires view.w > 0.0 && view.h > 0.0
    ensures FitsBox(bb, view, r)
  {
    var wRatio := bb.w / view.w;
    var hRatio := bb.h / view.h;
    var maxRatio := Max(wRatio, hRatio);
    assert maxRatio > 0.0;
    var scale := 1.0 / maxRatio;
    var xOffset := view.x - bb.x * scale;
    var yOffset := view.y - bb.y * scale;
    var r := Transform(Vec3(xOffset, yOffset, 0.0), scale);
    FitsBoxByRatio(bb, view, maxRatio, scale, r);
    r
  }

  /** Fits the bounding box of `t` into `view`, preserving aspect ratio: the
      box is scaled by whichever of its width or height ratio to the view is
      larger, its centre lands on the view's centre, it fits inside the view,
      and it fills the view along the axis of the larger ratio. */
  function ViewTransform(t: Tri, view: Rect): (r: Transform)
    requires view.w > 0.0 && view.h > 0.0
    requires !AllCoincide(t)
    ensures FitsBox(BoundingRect(t), view, r)
  {
    var bb := BoundingRect(t);
    PointBoxIffCoincide(t);
    Fit(bb, view)
  }

  /** Along one axis: a coordinate `p` inside a box centred at `c` of extent
      `w` lands, as `q`, within half the view's extent `vw` of the view's
      centre `vc`. */
  lemma AxisInView(p: real, c: real, w: real, s: real, vc: real, vw: real, q: real)
    requires c - w / 2.0 <= p <= c + w / 2.0
    requires s > 0.0 && w * s <= vw
    requires q == p * s + (vc - c * s)
    ensures vc - vw / 2.0 <= q <= vc + vw / 2.0
  {
    var lo, mid, hi := (c - w / 2.0) * s, p * s, (c + w / 2.0) * s;
    ProdMono(c - w / 2.0, p, s, lo, mid);
    ProdMono(p, c + w / 2.0, s, mid, hi);
    var ws := w * s;
    assert lo == c * s - ws / 2.0;
    assert hi == c * s + ws / 2.0;
  }

  /** A transform that fits `bb` into the view takes every point of `bb`
      into the view. */
  lemma PointInView(p: Point, bb: Rect, view: Rect, tr: Transform)
    requires view.w > 0.0 && view.h > 0.0
    requires InRect(p, bb) && FitsBox(bb, view, tr)
    ensures InRect(Apply(tr, p), view)
  {
    var s := tr.scale;
    AxisInView(p.x, bb.x, bb.w, s, view.x, view.w, Apply(tr, p).x);
    AxisInView(p.y, bb.y, bb.h, s, view.y, view.h, Apply(tr, p).y);
  }

  /** After the transform all three vertices lie inside the view. */
  lemma TransformKeepsVerticesInView(t: Tri, view: Rect)
    requires view.w > 0.0 && view.h > 0.0
    requires !AllCoincide(t)
    ensures var tr := ViewTransform(t, view);
            InRect(Apply(tr, t.a), view) && InRect(Apply(tr, t.b), view) && InRect(Apply(tr, t.c), view)
  {
    var tr := ViewTransform(t, view);
    var bb := BoundingRect(t);
    PointInView(t.a, bb, view, tr);
    PointInView(t.b, bb, view, tr);
    PointInView(t.c, bb, view, tr);
  }

  /** If `b * scale` already fills `v`, a strictly larger scale overflows it. */
  lemma LargerScaleOverflows(b: real, v: real, scale: real, s: real)
    requires v > 0.0 && scale > 0.0 && b * scale == v && s > scale
    ensures b * s > v
  {
    ProdSign(b, scale, v);
    var d := b * (s - scale);
    assert d == b * s - v;
    ProdSign(b, s - scale, d);
  }

  /** No larger uniform scale than that of a fitting transform keeps the box
      inside the view. */
  lemma ScaleIsLargest(bb: Rect, view: Rect, tr: Transform, s: real)
    requires view.w > 0.0 && view.h > 0.0
    requires FitsBox(bb, view, tr)
    requires bb.w * s <= view.w && bb.h * s <= view.h
    ensures s <= tr.scale
  {
    if s > tr.scale {
      if bb.w / view.w >= bb.h / view.h {
        LargerScaleOverflows(bb.w, view.w, tr.scale, s);
      } else {
        LargerScaleOverflows(bb.h, view.h, tr.scale, s);
      }
    }
  }

  /** No larger uniform scale fits the bounding box of `t` into the view. */
  lemma ScaleIsLargestFit(t: Tri, view: Rect, s: real)
    requires view.w > 0.0 && view.h > 0.0
    requires !AllCoincide(t)
    requires BoundingRect(t).w * s <= view.w && BoundingRect(t).h * s <= view.h
    ensures s <= ViewTransform(t, view).scale
  {
    ScaleIsLargest(BoundingRect(t), view, ViewTransform(t, view), s);
  }

  // ---------------------------------------------------------------------------
  // area

  /** Twice the signed area of `t`: the shoelace sum. */
  function Cross(t: Tri): real {
    t.a.x * (t.b.y - t.c.y) + t.b.x * (t.c.y - t.a.y) + t.c.x * (t.a.y - t.b.y)
  }

  /** The shoelace sum multiplied out into its six products. */
  lemma CrossTerms(t: Tri)
    ensures Cross(t) == t.a.x * t.b.y - t.a.x * t.c.y + t.b.x * t.c.y - t.b.x * t.a.y + t.c.x * t.a.y - t.c.x * t.b.y
  {
  }

  function Area(t: Tri): (r: real)
    ensures r >= 0.0
  {
    Abs(Cross(t) / 2.0)
  }

  /** `c` is the point `a + k * (b - a)` of the line through `a` and `b`. */
  ghost predicate OnLineAt(a: Point, b: Point, c: Point, k: real) {
    c.x == a.x + k * (b.x - a.x) && c.y == a.y + k * (b.y - a.y)
  }

  /** The three points lie on one line; any `c` does when `a` and `b` coincide. */
  ghost predicate Collinear(a: Point, b: Point, c: Point) {
    a == b || exists k :: OnLineAt(a, b, c, k)
  }

  /** The shoelace sum, written relative to vertex `a`. */
  lemma CrossFromA(t: Tri)
    ensures Cross(t) == (t.b.x - t.a.x) * (t.c.y - t.a.y) - (t.c.x - t.a.x) * (t.b.y - t.a.y)
  {
  }

  /** The shoelace sum as the difference of two named products of the edge
      vectors from `a`. */
  lemma CrossAt(t: Tri, dx: real, dy: real, ex: real, ey: real, p: real, q: real)
    requires dx == t.b.x - t.a.x && dy == t.b.y - t.a.y && ex == t.c.x - t.a.x && ey == t.c.y - t.a.y
    requires p == dx * ey && q == ex * dy
    ensures Cross(t) == p - q
  {
    CrossFromA(t);
  }

  /** The area is zero exactly when the three vertices are collinear,
      coincident vertices included. */
  lemma {:induction false} AreaZeroIffCollinear(t: Tri)
    ensures Area(t) == 0.0 <==> Collinear(t.a, t.b, t.c)
  {
    var a, b, c := t.a, t.b, t.c;
    var dx, dy := b.x - a.x, b.y - a.y;
    var ex, ey := c.x - a.x, c.y - a.y;
    var p, q := dx * ey, ex * dy;
    CrossAt(t, dx, dy, ex, ey, p, q);
    if Area(t) == 0.0 && a != b {
      assert p == q;
      if dx != 0.0 {
        var k := ex / dx;
        DivMul(ex, dx, k);
        var r := dx * (ey - k * dy);
        assert r == p - dx * (k * dy);
        assert dx * (k * dy) == (k * dx) * dy;
        ProdSign(dx, ey - k * dy, r);
        assert OnLineAt(a, b, c, k);
      } else {
        assert dy != 0.0;
        var k := ey / dy;
        DivMul(ey, dy, k);
        ProdSign(ex, dy, q);
        assert OnLineAt(a, b, c, k);
      }
    }
    if Collinear(a, b, c) {
      if a == b {
        ProdSign(dx, ey, p);
        ProdSign(ex, dy, q);
      } else {
        var k :| OnLineAt(a, b, c, k);
        assert p == dx * (k * dy);
        assert q == (k * dx) * dy;
      }
    }
  }

  /** Swapping the last two vertices flips the sign of the shoelace sum. */
  lemma CrossSwap(a: Point, b: Point, c: Point)
    ensures Cross(Tri(a, c, b)) == -Cross(Tri(a, b, c))
  {
    CrossFromA(Tri(a, b, c));
    CrossFromA(Tri(a, c, b));
  }

  /** Rotating the vertices keeps the shoelace sum. */
  lemma CrossRotate(a: Point, b: Point, c: Point)
    ensures Cross(Tri(b, c, a)) == Cross(Tri(a, b, c))
  {
    CrossTerms(Tri(a, b, c));
    CrossTerms(Tri(b, c, a));
  }

  /** Reordering the vertices only flips the sign of the shoelace sum, so the
      area does not change. */
  lemma {:induction false} AreaPermutationInvariant(t: Tri, p: Perm)
    ensures Area(Permute(t, p)) == Area(t)
  {
    var a, b, c := t.a, t.b, t.c;
    match p
    case ABC =>
    case ACB =>
      CrossSwap(a, b, c);
    case BAC =>
      CrossSwap(b, c, a);
      CrossRotate(a, b, c);
    case BCA =>
      CrossRotate(a, b, c);
    case CAB =>
      CrossRotate(b, c, a);
      CrossRotate(a, b, c);
    case CBA =>
      CrossSwap(c, a, b);
      CrossRotate(b, c, a);
      CrossRotate(a, b, c);
  }

  // ---------------------------------------------------------------------------
  // line_segments and perimeter

  /** Squared Euclidean distance, `(px - qx)^2 + (py - qy)^2`: never negative,
      and zero exactly when the points coincide. */
  function SqDist(p: Point, q: Point): (r: real)
    ensures r >= 0.0
    ensures r == 0.0 <==> p == q
  {
    var dx, dy := p.x - q.x, p.y - q.y;
    var sx, sy := dx * dx, dy * dy;
    ProdSign(dx, dx, sx);
    ProdSign(dy, dy, sy);
    sx + sy
  }

  lemma SqDistSymmetric(p: Point, q: Point)
    ensures SqDist(p, q) == SqDist(q, p)
  {
    assert (p.x - q.x) * (p.x - q.x) == (q.x - p.x) * (q.x - p.x);
    assert (p.y - q.y) * (p.y - q.y) == (q.y - p.y) * (q.y - p.y);
  }

  /** The length of the side from `p` to `q`. */
  function Side(p: Point, q: Point, sqrt: real -> real): real {
    sqrt(SqDist(p, q))
  }

  lemma SideSymmetric(p: Point, q: Point, sqrt: real -> real)
    ensures Side(p, q, sqrt) == Side(q, p, sqrt)
  {
    SqDistSymmetric(p, q);
  }

  /** `r` is the non-negative square root of `d`. */
  predicate IsRoot(r: real, d: real) {
    r >= 0.0 && r * r == d
  }

  /** `sqrt` is the square root at the three squared side lengths of `t`. */
  predicate RootsAt(sqrt: real -> real, t: Tri) {
    && IsRoot(sqrt(SqDist(t.a, t.b)), SqDist(t.a, t.b))
    && IsRoot(sqrt(SqDist(t.b, t.c)), SqDist(t.b, t.c))
    && IsRoot(sqrt(SqDist(t.c, t.a)), SqDist(t.c, t.a))
  }

  lemma RootZeroIff(r: real, d: real)
    requires IsRoot(r, d)
    ensures r == 0.0 <==> d == 0.0
  {
    ProdSign(r, r, d);
  }

  /** The lengths of sides AB, BC and CA, in that order. When `sqrt` is the
      square root at the three squared lengths, every side is non-negative and
      zero exactly when its two endpoints coincide. */
  function LineSegments(t: Tri, sqrt: real -> real): (r: (real, real, real))
    ensures RootsAt(sqrt, t) ==>
              && r.0 >= 0.0 && r.1 >= 0.0 && r.2 >= 0.0
              && (r.0 == 0.0 <==> t.a == t.b)
              && (r.1 == 0.0 <==> t.b == t.c)
              && (r.2 == 0.0 <==> t.c == t.a)
  {
    var ab, bc, ca := Side(t.a, t.b, sqrt), Side(t.b, t.c, sqrt), Side(t.c, t.a, sqrt);
    assert RootsAt(sqrt, t) ==> (ab == 0.0 <==> t.a == t.b) && (bc == 0.0 <==> t.b == t.c) && (ca == 0.0 <==> t.c == t.a) by {
      if RootsAt(sqrt, t) {
        RootZeroIff(ab, SqDist(t.a, t.b));
        RootZeroIff(bc, SqDist(t.b, t.c));
        RootZeroIff(ca, SqDist(t.c, t.a));
      }
    }
    (ab, bc, ca)
  }

  /** The sum of the three side lengths. When `sqrt` is the square root at
      the three squared lengths, it is non-negative and zero exactly when all
      three vertices coincide. */
  function Perimeter(t: Tri, sqrt: real -> real): (r: real)
    ensures RootsAt(sqrt, t) ==> r >= 0.0 && (r == 0.0 <==> AllCoincide(t))
  {
    var (ab, bc, ca) := LineSegments(t, sqrt);
    ab + bc + ca
  }

  /** The three values of a triple, counted with multiplicity. */
  function Values(s: (real, real, real)): multiset<real> {
    multiset{s.0, s.1, s.2}
  }

  /** The triple of side lengths of a triangle whose vertices are listed in
      the order `p`, in terms of the sides AB, BC, CA of the original. */
  function Reorder(s: (real, real, real), p: Perm): (real, real, real) {
    match p
    case ABC => s
    case ACB => (s.2, s.1, s.0)
    case BAC => (s.0, s.2, s.1)
    case BCA => (s.1, s.2, s.0)
    case CAB => (s.2, s.0, s.1)
    case CBA => (s.1, s.0, s.2)
  }

  lemma ReorderValues(s: (real, real, real), p: Perm)
    ensures Values(Reorder(s, p)) == Values(s)
  {
  }

  /** Side lengths of a reordered triangle are the reordered side lengths,
      whatever square-root function computes them. */
  lemma {:induction false} PermutedSides(t: Tri, p: Perm, sqrt: real -> real)
    ensures LineSegments(Permute(t, p), sqrt) == Reorder(LineSegments(t, sqrt), p)
  {
    match p
    case ABC =>
    case ACB =>
      SideSymmetric(t.a, t.b, sqrt);
      SideSymmetric(t.b, t.c, sqrt);
      SideSymmetric(t.c, t.a, sqrt);
    case BAC =>
      SideSymmetric(t.a, t.b, sqrt);
      SideSymmetric(t.b, t.c, sqrt);
      SideSymmetric(t.c, t.a, sqrt);
    case BCA =>
    case CAB =>
    case CBA =>
      SideSymmetric(t.a, t.b, sqrt);
      SideSymmetric(t.b, t.c, sqrt);
      SideSymmetric(t.c, t.a, sqrt);
  }

  /** Reordering the vertices reorders the three side lengths: the same
      lengths occur, each as often. */
  lemma SegmentsPermutation(t: Tri, p: Perm, sqrt: real -> real)
    ensures Values(LineSegments(Permute(t, p), sqrt)) == Values(LineSegments(t, sqrt))
  {
    PermutedSides(t, p, sqrt);
    ReorderValues(LineSegments(t, sqrt), p);
  }

  lemma {:induction false} PerimeterPermutationInvariant(t: Tri, p: Perm, sqrt: real -> real)
    ensures Perimeter(Permute(t, p), sqrt) == Perimeter(t, sqrt)
  {
    SqDistSymmetric(t.a, t.b);
    SqDistSymmetric(t.b, t.c);
    SqDistSymmetric(t.c, t.a);
  }

  // ---------------------------------------------------------------------------
  // Worked examples

  /** A non-negative square root of `q * q`, for `q >= 0`, is `q`. */
  lemma RootOfSquare(r: real, q: real)
    requires q >= 0.0 && IsRoot(r, q * q)
    ensures r == q
  {
    var d := (r - q) * (r + q);
    assert d == r * r - q * q;
    ProdSign(r - q, r + q, d);
  }

  /** The 3-4-5 right triangle (0,0), (4,0), (0,3). */
  lemma RightTriangleExample(sqrt: real -> real)
    requires RootsAt(sqrt, Tri(Point(0.0, 0.0), Point(4.0, 0.0), Point(0.0, 3.0)))
    ensures LineSegments(Tri(Point(0.0, 0.0), Point(4.0, 0.0), Point(0.0, 3.0)), sqrt) == (4.0, 5.0, 3.0)
    ensures Perimeter(Tri(Point(0.0, 0.0), Point(4.0, 0.0), Point(0.0, 3.0)), sqrt) == 12.0
    ensures Area(Tri(Point(0.0, 0.0), Point(4.0, 0.0), Point(0.0, 3.0))) == 6.0
  {
    var t := Tri(Point(0.0, 0.0), Point(4.0, 0.0), Point(0.0, 3.0));
    assert SqDist(t.a, t.b) == 4.0 * 4.0;
    assert SqDist(t.b, t.c) == 5.0 * 5.0;
    assert SqDist(t.c, t.a) == 3.0 * 3.0;
    RootOfSquare(sqrt(SqDist(t.a, t.b)), 4.0);
    RootOfSquare(sqrt(SqDist(t.b, t.c)), 5.0);
    RootOfSquare(sqrt(SqDist(t.c, t.a)), 3.0);
  }

  /** A triangle spanning 10 by 5 has the bounding box of that size centred
      at (5, 2.5). */
  lemma BoundingRectExample()
    ensures BoundingRect(Tri(Point(0.0, 0.0), Point(10.0, 0.0), Point(0.0, 5.0))) == Rect(5.0, 2.5, 10.0, 5.0)
  {
  }

  /** A box 10 wide and 5 high fitted into a 100 by 50 view centred at the
      origin is scaled by 10 and its centre moved onto the origin. */
  lemma FitExample()
    ensures Fit(Rect(5.0, 2.5, 10.0, 5.0), Rect(0.0, 0.0, 100.0, 50.0)) == Transform(Vec3(-50.0, -25.0, 0.0), 10.0)
  {
    assert Max(10.0 / 100.0, 5.0 / 50.0) == 0.1;
  }

  /** The two examples above, composed as `view_transform` composes them. */
  lemma ViewTransformExample()
    ensures ViewTransform(Tri(Point(0.0, 0.0), Point(10.0, 0.0), Point(0.0, 5.0)), Rect(0.0, 0.0, 100.0, 50.0))
         == Transform(Vec3(-50.0, -25.0, 0.0), 10.0)
  {
    BoundingRectExample();
    FitExample();
  }
}
