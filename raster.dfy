/** The per-triangle arithmetic of the rasteriser (src/xgl_draw.c): the edge
    function, perspective-correct interpolation, the setup of
    `_xgl_draw_triangle` and what it computes for one pixel. */
module Raster {
  import Utils
  import V2
  import V3
  import V4
  import Mat4
  import Shader
  import Color
  import opened Wrappers

  /** The 2D cross product of two points. */
  function Wedge(a: V3.V3, b: V3.V3): real
  {
    a.x * b.y - a.y * b.x
  }

  /** `edge_fn(a, b, c)`: twice the signed area of the triangle `(a, b, c)`
      in the x/y plane (the shoelace sum), positive when it runs
      counter-clockwise. */
  function EdgeFn(a: V3.V3, b: V3.V3, c: V3.V3): real
  {
    (a.x - c.x) * (b.y - c.y) - (a.y - c.y) * (b.x - c.x)
  }

  /** The edge function is the shoelace sum of the triangle's corners. */
  lemma EdgeShoelace(a: V3.V3, b: V3.V3, c: V3.V3)
    ensures EdgeFn(a, b, c) == Wedge(a, b) + Wedge(b, c) + Wedge(c, a)
  {
    assert (a.x - c.x) * (b.y - c.y) == a.x * b.y - a.x * c.y - c.x * b.y + c.x * c.y;
    assert (a.y - c.y) * (b.x - c.x) == a.y * b.x - a.y * c.x - c.y * b.x + c.y * c.x;
  }

  /** The three edge values of a point `p` add up to the triangle's own
      edge value, so the normalised weights of `_xgl_draw_triangle` sum to
      one. */
  lemma EdgeSum(a: V3.V3, b: V3.V3, c: V3.V3, p: V3.V3)
    ensures EdgeFn(b, c, p) + EdgeFn(c, a, p) + EdgeFn(a, b, p) == EdgeFn(a, b, c)
  {
    EdgeShoelace(b, c, p);
    EdgeShoelace(c, a, p);
    EdgeShoelace(a, b, p);
    EdgeShoelace(a, b, c);
    WedgeAnti(c, p);
    WedgeAnti(a, p);
    WedgeAnti(b, p);
  }

  lemma WedgeAnti(a: V3.V3, b: V3.V3)
    ensures Wedge(a, b) == -Wedge(b, a)
  {
  }

  // Perspective-correct interpolation. `pint_*` divides the per-vertex
  // attributes by the vertex depths, `int_*` blends them with the
  // barycentric weights `w` and multiplies by `z`, the reciprocal of the
  // blended reciprocal depth.

  /** `pint_v1`. */
  function PintV1(a0: real, a1: real, a2: real, z0: real, z1: real, z2: real): (r: (real, real, real))
    ensures z0 != 0.0 ==> r.0 * z0 == a0
    ensures z1 != 0.0 ==> r.1 * z1 == a1
    ensures z2 != 0.0 ==> r.2 * z2 == a2
  {
    (Utils.Div(a0, z0), Utils.Div(a1, z1), Utils.Div(a2, z2))
  }

  /** `pint_v2`: both components of each texture coordinate. */
  function PintV2(t0: V2.V2, t1: V2.V2, t2: V2.V2, z0: real, z1: real, z2: real): (r: (V2.V2, V2.V2, V2.V2))
    ensures var x := PintV1(t0.x, t1.x, t2.x, z0, z1, z2);
            r.0.x == x.0 && r.1.x == x.1 && r.2.x == x.2
    ensures var y := PintV1(t0.y, t1.y, t2.y, z0, z1, z2);
            r.0.y == y.0 && r.1.y == y.1 && r.2.y == y.2
  {
    (V2.V2(Utils.Div(t0.x, z0), Utils.Div(t0.y, z0)),
     V2.V2(Utils.Div(t1.x, z1), Utils.Div(t1.y, z1)),
     V2.V2(Utils.Div(t2.x, z2), Utils.Div(t2.y, z2)))
  }

  /** `pint_v3` as written: only `x` and `y` of each normal are divided; `z`
      is left as it was. */
  function PintV3AsWritten(n0: V3.V3, n1: V3.V3, n2: V3.V3, z0: real, z1: real, z2: real): (r: (V3.V3, V3.V3, V3.V3))
    ensures r.0.z == n0.z && r.1.z == n1.z && r.2.z == n2.z
    ensures var x := PintV1(n0.x, n1.x, n2.x, z0, z1, z2);
            r.0.x == x.0 && r.1.x == x.1 && r.2.x == x.2
    ensures var y := PintV1(n0.y, n1.y, n2.y, z0, z1, z2);
            r.0.y == y.0 && r.1.y == y.1 && r.2.y == y.2
  {
    (V3.V3(Utils.Div(n0.x, z0), Utils.Div(n0.y, z0), n0.z),
     V3.V3(Utils.Div(n1.x, z1), Utils.Div(n1.y, z1), n1.z),
     V3.V3(Utils.Div(n2.x, z2), Utils.Div(n2.y, z2), n2.z))
  }

  /** `pint_v3` as its comment describes it: every component divided. */
  function PintV3(n0: V3.V3, n1: V3.V3, n2: V3.V3, z0: real, z1: real, z2: real): (r: (V3.V3, V3.V3, V3.V3))
    ensures var x := PintV1(n0.x, n1.x, n2.x, z0, z1, z2);
            r.0.x == x.0 && r.1.x == x.1 && r.2.x == x.2
    ensures var y := PintV1(n0.y, n1.y, n2.y, z0, z1, z2);
            r.0.y == y.0 && r.1.y == y.1 && r.2.y == y.2
    ensures var z := PintV1(n0.z, n1.z, n2.z, z0, z1, z2);
            r.0.z == z.0 && r.1.z == z.1 && r.2.z == z.2
  {
    (V3.Div(n0, z0), V3.Div(n1, z1), V3.Div(n2, z2))
  }

  /** `int_v1`. Blending one value with weights that sum to one gives that
      value back, scaled by `z`. */
  function IntV1(a0: real, a1: real, a2: real, w: V3.V3, z: real): (r: real)
    ensures w.x + w.y + w.z == 1.0 && a0 == a1 == a2 ==> r == a0 * z
  {
    (w.x * a0 + w.y * a1 + w.z * a2) * z
  }

  /** `int_v2`: `int_v1` on each component. */
  function IntV2(t0: V2.V2, t1: V2.V2, t2: V2.V2, w: V3.V3, z: real): (r: V2.V2)
    ensures r.x == IntV1(t0.x, t1.x, t2.x, w, z) && r.y == IntV1(t0.y, t1.y, t2.y, w, z)
  {
    V2.V2((w.x * t0.x + w.y * t1.x + w.z * t2.x) * z,
          (w.x * t0.y + w.y * t1.y + w.z * t2.y) * z)
  }

  /** `int_v3`: `int_v1` on each component. */
  function IntV3(n0: V3.V3, n1: V3.V3, n2: V3.V3, w: V3.V3, z: real): (r: V3.V3)
    ensures r.x == IntV1(n0.x, n1.x, n2.x, w, z)
    ensures r.y == IntV1(n0.y, n1.y, n2.y, w, z)
    ensures r.z == IntV1(n0.z, n1.z, n2.z, w, z)
  {
    V3.V3((w.x * n0.x + w.y * n1.x + w.z * n2.x) * z,
          (w.x * n0.y + w.y * n1.y + w.z * n2.y) * z,
          (w.x * n0.z + w.y * n1.z + w.z * n2.z) * z)
  }

  /** The blended reciprocal depth `w0 / z0 + w1 / z1 + w2 / z2`. */
  function BlendedInverse(w: V3.V3, z0: real, z1: real, z2: real): real
  {
    w.x * Utils.Div(1.0, z0) + w.y * Utils.Div(1.0, z1) + w.z * Utils.Div(1.0, z2)
  }

  /** Perspective-correct interpolation is exact on a constant attribute:
      with positive depths and convex weights, dividing by the depths,
      blending and multiplying by the reciprocal of the blended reciprocal
      depth gives the attribute back. */
  lemma {:induction false} PerspectiveConstant(c: real, w: V3.V3, z0: real, z1: real, z2: real)
    requires z0 > 0.0 && z1 > 0.0 && z2 > 0.0
    requires w.x >= 0.0 && w.y >= 0.0 && w.z >= 0.0 && w.x + w.y + w.z == 1.0
    ensures var p := PintV1(c, c, c, z0, z1, z2);
            IntV1(p.0, p.1, p.2, w, Utils.Div(1.0, BlendedInverse(w, z0, z1, z2))) == c
  {
    var q := BlendedInverse(w, z0, z1, z2);
    var p := PintV1(c, c, c, z0, z1, z2);
    assert p.0 == c * (1.0 / z0) && p.1 == c * (1.0 / z1) && p.2 == c * (1.0 / z2);
    assert w.x * p.0 + w.y * p.1 + w.z * p.2 == c * q by {
      assert w.x * (c * (1.0 / z0)) == c * (w.x * (1.0 / z0));
      assert w.y * (c * (1.0 / z1)) == c * (w.y * (1.0 / z1));
      assert w.z * (c * (1.0 / z2)) == c * (w.z * (1.0 / z2));
    }
    PositiveBlend(w, z0, z1, z2);
    assert (c * q) * (1.0 / q) == c;
  }

  /** With positive depths and convex weights the blended reciprocal depth is
      positive. */
  lemma PositiveBlend(w: V3.V3, z0: real, z1: real, z2: real)
    requires z0 > 0.0 && z1 > 0.0 && z2 > 0.0
    requires w.x >= 0.0 && w.y >= 0.0 && w.z >= 0.0 && w.x + w.y + w.z == 1.0
    ensures BlendedInverse(w, z0, z1, z2) > 0.0
  {
    var q0, q1, q2 := Utils.Div(1.0, z0), Utils.Div(1.0, z1), Utils.Div(1.0, z2);
    Reciprocal(z0);
    Reciprocal(z1);
    Reciprocal(z2);
    var p0, p1, p2 := w.x * q0, w.y * q1, w.z * q2;
    assert BlendedInverse(w, z0, z1, z2) == p0 + p1 + p2;
    NonNegativeProduct(w.x, q0);
    NonNegativeProduct(w.y, q1);
    NonNegativeProduct(w.z, q2);
    if w.x > 0.0 {
      V3.MulPositive(w.x, q0);
      assert p0 > 0.0;
    } else if w.y > 0.0 {
      V3.MulPositive(w.y, q1);
      assert p1 > 0.0;
    } else {
      assert w.z > 0.0;
      V3.MulPositive(w.z, q2);
      assert p2 > 0.0;
    }
  }

  lemma NonNegativeProduct(a: real, b: real)
    requires a >= 0.0 && b >= 0.0
    ensures a * b >= 0.0
  {
    if a > 0.0 && b > 0.0 {
      V3.MulPositive(a, b);
    }
  }

  /** `pint_v3` as written does not reproduce a constant normal: its `z`
      component comes back multiplied by the interpolated depth. */
  lemma PintV3AsWrittenSkewsConstant()
    ensures var n := V3.V3(0.0, 0.0, 1.0);
            var w := V3.V3(1.0, 0.0, 0.0);
            var p := PintV3AsWritten(n, n, n, 2.0, 2.0, 2.0);
            IntV3(p.0, p.1, p.2, w, Utils.Div(1.0, BlendedInverse(w, 2.0, 2.0, 2.0))) == V3.V3(0.0, 0.0, 2.0)
  {
    var w := V3.V3(1.0, 0.0, 0.0);
    assert BlendedInverse(w, 2.0, 2.0, 2.0) == 0.5;
  }

  /** The corrected `pint_v3` reproduces a constant normal exactly. */
  lemma PintV3Constant(n: V3.V3, w: V3.V3, z0: real, z1: real, z2: real)
    requires z0 > 0.0 && z1 > 0.0 && z2 > 0.0
    requires w.x >= 0.0 && w.y >= 0.0 && w.z >= 0.0 && w.x + w.y + w.z == 1.0
    ensures var p := PintV3(n, n, n, z0, z1, z2);
            IntV3(p.0, p.1, p.2, w, Utils.Div(1.0, BlendedInverse(w, z0, z1, z2))) == n
  {
    PerspectiveConstant(n.x, w, z0, z1, z2);
    PerspectiveConstant(n.y, w, z0, z1, z2);
    PerspectiveConstant(n.z, w, z0, z1, z2);
  }

  /** `pint_v2` followed by `int_v2` reproduces a constant texture coordinate. */
  lemma PintV2Constant(t: V2.V2, w: V3.V3, z0: real, z1: real, z2: real)
    requires z0 > 0.0 && z1 > 0.0 && z2 > 0.0
    requires w.x >= 0.0 && w.y >= 0.0 && w.z >= 0.0 && w.x + w.y + w.z == 1.0
    ensures var p := PintV2(t, t, t, z0, z1, z2);
            IntV2(p.0, p.1, p.2, w, Utils.Div(1.0, BlendedInverse(w, z0, z1, z2))) == t
  {
    PerspectiveConstant(t.x, w, z0, z1, z2);
    PerspectiveConstant(t.y, w, z0, z1, z2);
  }

  // The setup of `_xgl_draw_triangle`.

  /** The arguments of `_xgl_draw_triangle`: clip-space vertices, texture
      coordinates and object-space normals. */
  datatype Triangle = Triangle(
    v0: V3.V3, v1: V3.V3, v2: V3.V3,
    t0: V2.V2, t1: V2.V2, t2: V2.V2,
    n0: V3.V3, n1: V3.V3, n2: V3.V3)

  /** An inclusive rectangle of pixels. */
  datatype Box = Box(minX: int, maxX: int, minY: int, maxY: int)

  predicate InBox(b: Box, i: int, j: int)
  {
    b.minX <= i <= b.maxX && b.minY <= j <= b.maxY
  }

  /** What the pixel loops of `_xgl_draw_triangle` work from: the raster
      vertices (their `z` is the reciprocal depth), the attributes already
      divided by the depths, and the clipped box. */
  datatype Prepared = Prepared(
    s0: V3.V3, s1: V3.V3, s2: V3.V3,
    t0: V2.V2, t1: V2.V2, t2: V2.V2,
    n0: V3.V3, n1: V3.V3, n2: V3.V3,
    box: Box)

  /** `area`: the signed area term of the raster triangle. */
  function Area(r: Prepared): real
  {
    EdgeFn(r.s0, r.s1, r.s2)
  }

  /** The near-plane test: a vertex closer than 0.1 rejects the triangle. */
  predicate NearClipped(tri: Triangle)
  {
    tri.v0.z < 0.1 || tri.v1.z < 0.1 || tri.v2.z < 0.1
  }

  /** From normalised device coordinates `[-1, 1]` to `[0, size]`. */
  function ToRaster(t: real, size: real): (r: real)
    ensures t == -1.0 ==> r == 0.0
    ensures t == 1.0 ==> r == size
  {
    (1.0 + t) * 0.5 * size
  }

  function RasterVertex(v: V3.V3, width: nat, height: nat): (r: V3.V3)
    ensures r.z == v.z
  {
    V3.V3(ToRaster(v.x, width as real), ToRaster(v.y, height as real), v.z)
  }

  /** The bounding box, each bound truncated to an `int` as the assignments
      to `min_x`, `max_x`, `min_y` and `max_y` do. */
  function BoundingBox(p0: V3.V3, p1: V3.V3, p2: V3.V3): (b: Box)
    ensures b.minX <= b.maxX && b.minY <= b.maxY
  {
    var lx, hx := Utils.Min3f(p0.x, p1.x, p2.x), Utils.Max3f(p0.x, p1.x, p2.x);
    var ly, hy := Utils.Min3f(p0.y, p1.y, p2.y), Utils.Max3f(p0.y, p1.y, p2.y);
    Utils.TruncMonotone(lx, hx);
    Utils.TruncMonotone(ly, hy);
    Box(Utils.Trunc(lx), Utils.Trunc(hx), Utils.Trunc(ly), Utils.Trunc(hy))
  }

  predicate OffScreen(b: Box, width: int, height: int)
  {
    b.minX >= width || b.minY >= height || b.maxX < 0 || b.maxY < 0
  }

  /** The box clamped to the screen: exactly the on-screen pixels of `b`. */
  function Clip(b: Box, width: nat, height: nat): (c: Box)
    ensures forall i, j :: InBox(c, i, j) <==> InBox(b, i, j) && 0 <= i < width && 0 <= j < height
    ensures b.minX <= b.maxX && b.minY <= b.maxY && !OffScreen(b, width, height) ==>
              c.minX <= c.maxX + 1 && c.minY <= c.maxY + 1
  {
    var c := Box(Utils.MaxI2(b.minX, 0), Utils.MinI2(b.maxX, width - 1),
                 Utils.MaxI2(b.minY, 0), Utils.MinI2(b.maxY, height - 1));
    c
  }

  /** The bounding box of the triangle's raster vertices. */
  function TriangleBox(tri: Triangle, width: nat, height: nat): Box
  {
    BoundingBox(RasterVertex(tri.v0, width, height), RasterVertex(tri.v1, width, height),
                RasterVertex(tri.v2, width, height))
  }

  /** Everything `_xgl_draw_triangle` does before its pixel loops. It gives
      up exactly when a vertex is in front of the near plane or the box
      misses the screen, and otherwise loops over a box inside the screen. */
  function Prepare(width: nat, height: nat, model: Mat4.Mat4, tri: Triangle): (r: Option<Prepared>)
    ensures r.None? <==> NearClipped(tri) || OffScreen(TriangleBox(tri, width, height), width, height)
    ensures r.Some? ==> var b := r.value.box;
              0 <= b.minX && b.maxX < width && 0 <= b.minY && b.maxY < height
              && b.minX <= b.maxX + 1 && b.minY <= b.maxY + 1
    ensures r.Some? ==> forall i, j :: InBox(r.value.box, i, j) <==>
              InBox(TriangleBox(tri, width, height), i, j) && 0 <= i < width && 0 <= j < height
  {
    var n0 := Mat4.MultiplyV3(model, tri.n0);
    var n1 := Mat4.MultiplyV3(model, tri.n1);
    var n2 := Mat4.MultiplyV3(model, tri.n2);
    if NearClipped(tri) then None
    else
      var p0 := RasterVertex(tri.v0, width, height);
      var p1 := RasterVertex(tri.v1, width, height);
      var p2 := RasterVertex(tri.v2, width, height);
      var b := BoundingBox(p0, p1, p2);
      if OffScreen(b, width, height) then None
      else
        var t := PintV2(tri.t0, tri.t1, tri.t2, p0.z, p1.z, p2.z);
        var n := PintV3(n0, n1, n2, p0.z, p1.z, p2.z);
        var s0 := p0.(z := Utils.Div(1.0, p0.z));
        var s1 := p1.(z := Utils.Div(1.0, p1.z));
        var s2 := p2.(z := Utils.Div(1.0, p2.z));
        Some(Prepared(s0, s1, s2, t.0, t.1, t.2, n.0, n.1, n.2, Clip(b, width, height)))
  }

  // One pixel of the loops of `_xgl_draw_triangle`.

  /** The sample point of pixel `(i, j)`: its centre. */
  function Centre(i: int, j: int): V3.V3
  {
    V3.V3(i as real + 0.5, j as real + 0.5, 0.0)
  }

  /** The three edge values `w0`, `w1`, `w2` of a point. */
  function EdgeValues(r: Prepared, p: V3.V3): V3.V3
  {
    V3.V3(EdgeFn(r.s1, r.s2, p), EdgeFn(r.s2, r.s0, p), EdgeFn(r.s0, r.s1, p))
  }

  /** The coverage test: the point is on the inner side of all three edges. */
  predicate Covers(r: Prepared, p: V3.V3)
  {
    var e := EdgeValues(r, p);
    e.x >= 0.0 && e.y >= 0.0 && e.z >= 0.0
  }

  /** The edge values divided by the area: barycentric weights that sum to
      one, and are convex for a covered point of a counter-clockwise
      triangle. */
  function Barycentric(r: Prepared, p: V3.V3): (b: V3.V3)
    ensures Area(r) != 0.0 ==> b.x + b.y + b.z == 1.0
    ensures Area(r) > 0.0 && Covers(r, p) ==> b.x >= 0.0 && b.y >= 0.0 && b.z >= 0.0
  {
    var e := EdgeValues(r, p);
    EdgeSum(r.s0, r.s1, r.s2, p);
    Normalise(e, Area(r));
    V3.V3(Utils.Div(e.x, Area(r)), Utils.Div(e.y, Area(r)), Utils.Div(e.z, Area(r)))
  }

  lemma Normalise(e: V3.V3, a: real)
    ensures a != 0.0 ==> Utils.Div(e.x, a) + Utils.Div(e.y, a) + Utils.Div(e.z, a) == (e.x + e.y + e.z) / a
    ensures a > 0.0 && e.x >= 0.0 && e.y >= 0.0 && e.z >= 0.0 ==>
              Utils.Div(e.x, a) >= 0.0 && Utils.Div(e.y, a) >= 0.0 && Utils.Div(e.z, a) >= 0.0
  {
    if a > 0.0 && e.x >= 0.0 && e.y >= 0.0 && e.z >= 0.0 {
      NonNegativeProduct(e.x, 1.0 / a);
      NonNegativeProduct(e.y, 1.0 / a);
      NonNegativeProduct(e.z, 1.0 / a);
    }
  }

  /** The blended reciprocal depth `z` at weights `b`. */
  function InverseDepth(r: Prepared, b: V3.V3): real
  {
    b.x * r.s0.z + b.y * r.s1.z + b.z * r.s2.z
  }

  function TexCoordAt(r: Prepared, b: V3.V3): V2.V2
  {
    IntV2(r.t0, r.t1, r.t2, b, Utils.Div(1.0, InverseDepth(r, b)))
  }

  function NormalAt(r: Prepared, b: V3.V3): V3.V3
  {
    IntV3(r.n0, r.n1, r.n2, b, Utils.Div(1.0, InverseDepth(r, b)))
  }

  /** What one pixel receives: its depth `1 - z` and its packed colour. */
  datatype Fragment = Fragment(depth: real, color: int)

  /** The body of the inner loop, before the depth test: a fragment exactly
      for the pixels of the box whose centre the triangle covers. */
  function Shade(r: Prepared, i: int, j: int): (f: Option<Fragment>)
    ensures f.Some? <==> InBox(r.box, i, j) && Covers(r, Centre(i, j))
    ensures f.Some? ==> 0 <= f.value.color < 0x1_0000_0000
  {
    if InBox(r.box, i, j) && Covers(r, Centre(i, j)) then
      var b := Barycentric(r, Centre(i, j));
      var z := InverseDepth(r, b);
      Some(Fragment(1.0 - z, Color.Pack(Shader.Fragment(TexCoordAt(r, b), NormalAt(r, b)))))
    else
      None
  }

  /** What `_xgl_draw_triangle` offers pixel `(i, j)`. */
  function TriangleFragment(width: nat, height: nat, model: Mat4.Mat4, tri: Triangle, i: int, j: int): Option<Fragment>
  {
    match Prepare(width, height, model, tri)
    case None => None
    case Some(r) => Shade(r, i, j)
  }

  // What the pixel loops guarantee.

  /** A clockwise raster triangle covers no point: its three edge values sum
      to its negative area, so one of them is negative. */
  lemma ClockwiseCoversNothing(r: Prepared, p: V3.V3)
    requires Area(r) < 0.0
    ensures !Covers(r, p)
  {
    EdgeSum(r.s0, r.s1, r.s2, p);
  }

  /** How the fields of a prepared triangle derive from the triangle: raster
      vertices whose `z` is the reciprocal depth, and attributes divided by
      the depths (normals after the model transform). */
  ghost predicate DerivedFrom(r: Prepared, width: nat, height: nat, model: Mat4.Mat4, tri: Triangle)
  {
    RasterFrom(r, width, height, tri)
    && (r.t0, r.t1, r.t2) == PintV2(tri.t0, tri.t1, tri.t2, tri.v0.z, tri.v1.z, tri.v2.z)
    && (r.n0, r.n1, r.n2) == PintV3(Mat4.MultiplyV3(model, tri.n0), Mat4.MultiplyV3(model, tri.n1),
                                    Mat4.MultiplyV3(model, tri.n2), tri.v0.z, tri.v1.z, tri.v2.z)
  }

  ghost predicate RasterFrom(r: Prepared, width: nat, height: nat, tri: Triangle)
  {
    DepthsFrom(r, tri) && PositionsFrom(r, width, height, tri)
  }

  /** The vertex depths passed the near-plane test, and the raster vertices
      carry their (positive) reciprocals. */
  ghost predicate DepthsFrom(r: Prepared, tri: Triangle)
  {
    tri.v0.z >= 0.1 && tri.v1.z >= 0.1 && tri.v2.z >= 0.1
    && r.s0.z == 1.0 / tri.v0.z && r.s1.z == 1.0 / tri.v1.z && r.s2.z == 1.0 / tri.v2.z
    && r.s0.z > 0.0 && r.s1.z > 0.0 && r.s2.z > 0.0
  }

  ghost predicate PositionsFrom(r: Prepared, width: nat, height: nat, tri: Triangle)
  {
    r.s0.x == ToRaster(tri.v0.x, width as real) && r.s0.y == ToRaster(tri.v0.y, height as real)
    && r.s1.x == ToRaster(tri.v1.x, width as real) && r.s1.y == ToRaster(tri.v1.y, height as real)
    && r.s2.x == ToRaster(tri.v2.x, width as real) && r.s2.y == ToRaster(tri.v2.y, height as real)
  }

  lemma PrepareFacts(width: nat, height: nat, model: Mat4.Mat4, tri: Triangle)
    requires Prepare(width, height, model, tri).Some?
    ensures DerivedFrom(Prepare(width, height, model, tri).value, width, height, model, tri)
  {
    Reciprocal(tri.v0.z);
    Reciprocal(tri.v1.z);
    Reciprocal(tri.v2.z);
  }

  /** Perspective-correct interpolation at work: a triangle whose three
      corners carry the same texture coordinate and the same normal hands
      exactly those (the normal after the model transform) to the shader
      at every covered pixel. */
  lemma ConstantAttributes(r: Prepared, width: nat, height: nat, model: Mat4.Mat4, tri: Triangle, i: int, j: int)
    requires DerivedFrom(r, width, height, model, tri)
    requires tri.t0 == tri.t1 == tri.t2 && tri.n0 == tri.n1 == tri.n2
    requires Area(r) > 0.0 && Covers(r, Centre(i, j))
    ensures var b := Barycentric(r, Centre(i, j));
            TexCoordAt(r, b) == tri.t0 && NormalAt(r, b) == Mat4.MultiplyV3(model, tri.n0)
  {
    var b := Barycentric(r, Centre(i, j));
    assert InverseDepth(r, b) == BlendedInverse(b, tri.v0.z, tri.v1.z, tri.v2.z);
    PintV2Constant(tri.t0, b, tri.v0.z, tri.v1.z, tri.v2.z);
    PintV3Constant(Mat4.MultiplyV3(model, tri.n0), b, tri.v0.z, tri.v1.z, tri.v2.z);
  }

  /** The shader reads only the `x` of the interpolated normal, so two
      prepared triangles that differ at most in the `y` and `z` of their
      normals shade every pixel alike. */
  lemma ShadeIgnoresNormalYZ(r: Prepared, r': Prepared, i: int, j: int)
    requires r'.s0 == r.s0 && r'.s1 == r.s1 && r'.s2 == r.s2 && r'.box == r.box
    requires r'.t0 == r.t0 && r'.t1 == r.t1 && r'.t2 == r.t2
    requires r'.n0.x == r.n0.x && r'.n1.x == r.n1.x && r'.n2.x == r.n2.x
    ensures Shade(r', i, j) == Shade(r, i, j)
  {
    var p := Centre(i, j);
    assert EdgeValues(r', p) == EdgeValues(r, p);
    assert Area(r') == Area(r);
    assert Covers(r', p) == Covers(r, p);
    var b := Barycentric(r, p);
    assert Barycentric(r', p) == b;
    assert InverseDepth(r', b) == InverseDepth(r, b);
    var z := Utils.Div(1.0, InverseDepth(r, b));
    assert TexCoordAt(r', b) == TexCoordAt(r, b);
    assert NormalAt(r', b).x == IntV1(r.n0.x, r.n1.x, r.n2.x, b, z) == NormalAt(r, b).x;
    Shader.FragmentDependsOnNormalXOnly(TexCoordAt(r, b), NormalAt(r, b), TexCoordAt(r', b), NormalAt(r', b));
  }

  /** The setup as written, whose `pint_v3` leaves the normals' `z`
      undivided, differs from `Prepare` in the normals' `z` alone, and so
      produces the same fragment at every pixel. */
  lemma PintV3AsWrittenSameImage(width: nat, height: nat, model: Mat4.Mat4, tri: Triangle, i: int, j: int)
    requires Prepare(width, height, model, tri).Some?
    ensures var r := Prepare(width, height, model, tri).value;
            var n := PintV3AsWritten(Mat4.MultiplyV3(model, tri.n0), Mat4.MultiplyV3(model, tri.n1),
                                     Mat4.MultiplyV3(model, tri.n2), tri.v0.z, tri.v1.z, tri.v2.z);
            Shade(r.(n0 := n.0, n1 := n.1, n2 := n.2), i, j) == Shade(r, i, j)
  {
    var r := Prepare(width, height, model, tri).value;
    var n := PintV3AsWritten(Mat4.MultiplyV3(model, tri.n0), Mat4.MultiplyV3(model, tri.n1),
                             Mat4.MultiplyV3(model, tri.n2), tri.v0.z, tri.v1.z, tri.v2.z);
    PrepareFacts(width, height, model, tri);
    ShadeIgnoresNormalYZ(r, r.(n0 := n.0, n1 := n.1, n2 := n.2), i, j);
  }

  /** A convex combination lies between the smallest and largest value. */
  lemma ConvexBounds(b: V3.V3, x0: real, x1: real, x2: real)
    requires b.x >= 0.0 && b.y >= 0.0 && b.z >= 0.0 && b.x + b.y + b.z == 1.0
    ensures var c := b.x * x0 + b.y * x1 + b.z * x2;
            Utils.Min3f(x0, x1, x2) <= c <= Utils.Max3f(x0, x1, x2)
  {
    var lo, hi := Utils.Min3f(x0, x1, x2), Utils.Max3f(x0, x1, x2);
    NonNegativeProduct(b.x, x0 - lo);
    NonNegativeProduct(b.y, x1 - lo);
    NonNegativeProduct(b.z, x2 - lo);
    NonNegativeProduct(b.x, hi - x0);
    NonNegativeProduct(b.y, hi - x1);
    NonNegativeProduct(b.z, hi - x2);
    assert b.x * lo + b.y * lo + b.z * lo == lo;
    assert b.x * hi + b.y * hi + b.z * hi == hi;
  }

  /** The depth a counter-clockwise triangle writes lies between one minus
      the largest and one minus the smallest reciprocal vertex depth, and is
      below 1, the value `xgl_clear` leaves: on a cleared buffer every
      covered pixel passes the depth test. */
  lemma FragmentDepth(r: Prepared, tri: Triangle, i: int, j: int)
    requires DepthsFrom(r, tri)
    requires Area(r) > 0.0 && Shade(r, i, j).Some?
    ensures var d := Shade(r, i, j).value.depth;
            1.0 - Utils.Max3f(r.s0.z, r.s1.z, r.s2.z) <= d <= 1.0 - Utils.Min3f(r.s0.z, r.s1.z, r.s2.z)
            && d < 1.0
  {
    ShadeDepth(r, i, j);
    WeightedDepth(r, Barycentric(r, Centre(i, j)));
  }

  /** The depth of a fragment: one minus the reciprocal depth blended with
      convex weights. */
  lemma ShadeDepth(r: Prepared, i: int, j: int)
    requires Area(r) > 0.0 && Shade(r, i, j).Some?
    ensures var b := Barycentric(r, Centre(i, j));
            b.x >= 0.0 && b.y >= 0.0 && b.z >= 0.0 && b.x + b.y + b.z == 1.0
            && Shade(r, i, j).value.depth == 1.0 - InverseDepth(r, b)
  {
    assert Covers(r, Centre(i, j));
  }

  lemma WeightedDepth(r: Prepared, b: V3.V3)
    requires r.s0.z > 0.0 && r.s1.z > 0.0 && r.s2.z > 0.0
    requires b.x >= 0.0 && b.y >= 0.0 && b.z >= 0.0 && b.x + b.y + b.z == 1.0
    ensures var d := 1.0 - InverseDepth(r, b);
            1.0 - Utils.Max3f(r.s0.z, r.s1.z, r.s2.z) <= d <= 1.0 - Utils.Min3f(r.s0.z, r.s1.z, r.s2.z)
            && d < 1.0
  {
    ConvexBounds(b, r.s0.z, r.s1.z, r.s2.z);
  }

  /** The reciprocal depth `1 / z` of xgl_draw.c:144 at a positive depth,
      a helper of `PositiveBlend` and `PrepareFacts`. */
  lemma Reciprocal(z: real)
    requires z > 0.0
    ensures 1.0 / z > 0.0 && Utils.Div(1.0, z) == 1.0 / z
  {
  }

  /** An affine map of the plane scales the signed area by the product of
      its scale factors. */
  lemma EdgeScale(a: V3.V3, b: V3.V3, c: V3.V3, a': V3.V3, b': V3.V3, c': V3.V3, kx: real, ky: real)
    requires a'.x - c'.x == kx * (a.x - c.x) && b'.x - c'.x == kx * (b.x - c.x)
    requires a'.y - c'.y == ky * (a.y - c.y) && b'.y - c'.y == ky * (b.y - c.y)
    ensures EdgeFn(a', b', c') == kx * ky * EdgeFn(a, b, c)
  {
    var dx0, dy0, dx1, dy1 := a.x - c.x, a.y - c.y, b.x - c.x, b.y - c.y;
    assert EdgeFn(a, b, c) == dx0 * dy1 - dy0 * dx1;
    assert EdgeFn(a', b', c') == (kx * dx0) * (ky * dy1) - (ky * dy0) * (kx * dx1);
    assert (kx * dx0) * (ky * dy1) == kx * ky * (dx0 * dy1);
    assert (ky * dy0) * (kx * dx1) == kx * ky * (dy0 * dx1);
  }

  lemma RasterDifference(s: real, t: real, size: real)
    ensures ToRaster(s, size) - ToRaster(t, size) == (0.5 * size) * (s - t)
  {
  }

  /** The raster area is the clip-space edge value scaled by a quarter of
      the screen area, so it has the same sign on a non-empty screen. */
  lemma RasterArea(r: Prepared, width: nat, height: nat, tri: Triangle)
    requires PositionsFrom(r, width, height, tri)
    ensures Area(r) == (0.5 * width as real) * (0.5 * height as real) * EdgeFn(tri.v0, tri.v1, tri.v2)
  {
    var w, h := width as real, height as real;
    RasterDifference(tri.v0.x, tri.v2.x, w);
    RasterDifference(tri.v1.x, tri.v2.x, w);
    RasterDifference(tri.v0.y, tri.v2.y, h);
    RasterDifference(tri.v1.y, tri.v2.y, h);
    assert r.s0.x - r.s2.x == (0.5 * w) * (tri.v0.x - tri.v2.x);
    assert r.s1.x - r.s2.x == (0.5 * w) * (tri.v1.x - tri.v2.x);
    assert r.s0.y - r.s2.y == (0.5 * h) * (tri.v0.y - tri.v2.y);
    assert r.s1.y - r.s2.y == (0.5 * h) * (tri.v1.y - tri.v2.y);
    EdgeScale(tri.v0, tri.v1, tri.v2, r.s0, r.s1, r.s2, 0.5 * w, 0.5 * h);
  }
}
