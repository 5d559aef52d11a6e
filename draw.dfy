/** Drawing into the context's framebuffer (src/xgl_draw.c): the depth test,
    `_xgl_draw_triangle`'s pixel loops, and `xgl_draw`'s loop over the faces
    of a mesh with back-face culling. */
module Draw {
  import Utils
  import V2
  import V3
  import Mat4
  import Mesh
  import Raster
  import Context
  import opened Wrappers

  /** The two planes of one framebuffer cell. */
  datatype Pixel = Pixel(depth: real, color: int)

  /** The depth test of `_xgl_draw_triangle`: a fragment replaces the pixel
      unless it lies farther away (ties are written). The resulting depth is
      the smaller of the two, and the pixel is either kept or replaced by the
      fragment. */
  function DepthTest(f: Option<Raster.Fragment>, p: Pixel): (q: Pixel)
    ensures q.depth <= p.depth
    ensures f.Some? ==> q.depth <= f.value.depth
    ensures q == p || (f.Some? && q == Pixel(f.value.depth, f.value.color))
  {
    if f.Some? && !(f.value.depth > p.depth) then Pixel(f.value.depth, f.value.color) else p
  }

  /** The buffer index of pixel `(i, j)`: row `j` counts from the bottom of
      the screen, the buffer's rows from the top. */
  function Index(width: nat, height: nat, i: int, j: int): int
  {
    i + (height - j - 1) * width
  }

  /** Every on-screen pixel has a cell in the buffer. */
  lemma IndexInRange(width: nat, height: nat, i: int, j: int)
    requires 0 <= i < width && 0 <= j < height
    ensures 0 <= Index(width, height, i, j) < width * height
  {
    var row := height - j - 1;
    assert 0 <= row < height;
    assert row * width <= (height - 1) * width by {
      MulMonotone(row, height - 1, width);
    }
    assert (height - 1) * width + width == height * width;
  }

  lemma MulMonotone(a: int, b: int, c: nat)
    requires a <= b
    ensures a * c <= b * c
  {
    assert b * c - a * c == (b - a) * c;
  }

  /** Distinct on-screen pixels have distinct cells. */
  lemma IndexInjective(width: nat, height: nat, i: int, j: int, i': int, j': int)
    requires 0 <= i < width && 0 <= j < height
    requires 0 <= i' < width && 0 <= j' < height
    requires Index(width, height, i, j) == Index(width, height, i', j')
    ensures i == i' && j == j'
  {
    assert i - i' == (j - j') * width by {
      assert (height - j - 1) * width - (height - j' - 1) * width == (j' - j) * width;
    }
    if j < j' {
      MulMonotone(1, j' - j, width);
    } else if j > j' {
      MulMonotone(1, j - j', width);
    }
  }

  /** Every cell belongs to an on-screen pixel. */
  lemma IndexOnto(width: nat, height: nat, k: int)
    requires 0 <= k < width * height
    ensures exists i, j :: 0 <= i < width && 0 <= j < height && Index(width, height, i, j) == k
  {
    var i, row := k % width, k / width;
    assert k == row * width + i;
    assert row < height by {
      if row >= height {
        MulMonotone(height, row, width);
      }
    }
    var j := height - 1 - row;
    assert Index(width, height, i, j) == k;
  }

  /** The cell of pixel `(i, j)`. */
  ghost function PixelAt(ctx: Context.Context, i: int, j: int): Pixel
    requires ctx.Valid() && 0 <= i < ctx.width && 0 <= j < ctx.height
    reads ctx.depthBuffer, ctx.colorBuffer
  {
    IndexInRange(ctx.width, ctx.height, i, j);
    var k := Index(ctx.width, ctx.height, i, j);
    Pixel(ctx.depthBuffer[k], ctx.colorBuffer[k])
  }

  /** `_xgl_draw_triangle`: every on-screen pixel ends up as the depth test
      of the triangle's fragment for it against what it held before; pixels
      the triangle does not reach keep their value, and so does the image
      memory past the last pixel. */
  method DrawTriangle(ctx: Context.Context, tri: Raster.Triangle)
    requires ctx.Valid()
    modifies ctx.depthBuffer, ctx.colorBuffer
    ensures forall i, j | 0 <= i < ctx.width && 0 <= j < ctx.height ::
              PixelAt(ctx, i, j)
                == DepthTest(Raster.TriangleFragment(ctx.width, ctx.height, ctx.model, tri, i, j), old(PixelAt(ctx, i, j)))
    ensures forall k | ctx.width * ctx.height <= k < ctx.colorBuffer.Length ::
              ctx.colorBuffer[k] == old(ctx.colorBuffer[k])
  {
    var width, height := ctx.width, ctx.height;
    var prepared := Raster.Prepare(width, height, ctx.model, tri);
    if prepared.None? {
      return;
    }
    var r := prepared.value;
    var j := r.box.minY;
    while j <= r.box.maxY
      invariant r.box.minY <= j <= r.box.maxY + 1
      invariant forall x, y | 0 <= x < width && 0 <= y < height ::
                  PixelAt(ctx, x, y) == if y < j then DepthTest(Raster.Shade(r, x, y), old(PixelAt(ctx, x, y)))
                                        else old(PixelAt(ctx, x, y))
      invariant forall k | width * height <= k < ctx.colorBuffer.Length :: ctx.colorBuffer[k] == old(ctx.colorBuffer[k])
    {
      var i := r.box.minX;
      while i <= r.box.maxX
        invariant r.box.minX <= i <= r.box.maxX + 1
        invariant forall x, y | 0 <= x < width && 0 <= y < height ::
                    PixelAt(ctx, x, y) == if y < j || (y == j && x < i) then DepthTest(Raster.Shade(r, x, y), old(PixelAt(ctx, x, y)))
                                          else old(PixelAt(ctx, x, y))
        invariant forall k | width * height <= k < ctx.colorBuffer.Length :: ctx.colorBuffer[k] == old(ctx.colorBuffer[k])
      {
        ShadePixel(ctx, r, i, j);
        i := i + 1;
      }
      j := j + 1;
    }
  }

  /** One iteration of the inner loop of `_xgl_draw_triangle`: the coverage
      test, the depth test and the two writes, at pixel `(i, j)` only. */
  method ShadePixel(ctx: Context.Context, r: Raster.Prepared, i: int, j: int)
    requires ctx.Valid() && 0 <= i < ctx.width && 0 <= j < ctx.height
    modifies ctx.depthBuffer, ctx.colorBuffer
    ensures PixelAt(ctx, i, j) == DepthTest(Raster.Shade(r, i, j), old(PixelAt(ctx, i, j)))
    ensures forall x, y | 0 <= x < ctx.width && 0 <= y < ctx.height && (x != i || y != j) ::
              PixelAt(ctx, x, y) == old(PixelAt(ctx, x, y))
    ensures forall k | ctx.width * ctx.height <= k < ctx.colorBuffer.Length ::
              ctx.colorBuffer[k] == old(ctx.colorBuffer[k])
  {
    var f := Raster.Shade(r, i, j);
    if f.Some? {
      IndexInRange(ctx.width, ctx.height, i, j);
      var index := Index(ctx.width, ctx.height, i, j);
      if !(f.value.depth > ctx.depthBuffer[index]) {
        ctx.colorBuffer[index] := f.value.color;
        ctx.depthBuffer[index] := f.value.depth;
      }
      forall x, y | 0 <= x < ctx.width && 0 <= y < ctx.height && (x != i || y != j)
        ensures PixelAt(ctx, x, y) == old(PixelAt(ctx, x, y))
      {
        IndexInRange(ctx.width, ctx.height, x, y);
        if Index(ctx.width, ctx.height, x, y) == index {
          IndexInjective(ctx.width, ctx.height, x, y, i, j);
        }
      }
    }
  }

  // `xgl_draw`.

  /** The culling test of `xgl_draw`: the cross product of the normalised
      edges `v1 - v0` and `v2 - v1` of the transformed face points away from
      the viewer (`+Z`). `normalize` stands for `v3_norm`. */
  predicate BackFacing(normalize: V3.V3 -> V3.V3, p0: V3.V3, p1: V3.V3, p2: V3.V3)
  {
    var edge1 := normalize(V3.Sub(p1, p0));
    var edge2 := normalize(V3.Sub(p2, p1));
    V3.Dot(V3.Cross(edge1, edge2), V3.V3(0.0, 0.0, 1.0)) < 0.0
  }

  /** The triangle `xgl_draw` hands to `_xgl_draw_triangle` for face `f`, or
      `None` when the face is culled. Without normals in the mesh, each
      corner's normal is its normalised object-space position. */
  function FaceTriangle(mvp: Mat4.Mat4, mesh: Mesh.Mesh, normalize: V3.V3 -> V3.V3, f: Mesh.Face): (r: Option<Raster.Triangle>)
    requires Mesh.FaceInRange(mesh, f)
    ensures r.Some? ==> r.value.v0 == Mat4.MultiplyV3(mvp, mesh.vertices[f.c0.v])
                        && r.value.v1 == Mat4.MultiplyV3(mvp, mesh.vertices[f.c1.v])
                        && r.value.v2 == Mat4.MultiplyV3(mvp, mesh.vertices[f.c2.v])
    ensures r.None? <==> BackFacing(normalize, Mat4.MultiplyV3(mvp, mesh.vertices[f.c0.v]),
                                    Mat4.MultiplyV3(mvp, mesh.vertices[f.c1.v]), Mat4.MultiplyV3(mvp, mesh.vertices[f.c2.v]))
    ensures r.Some? ==> r.value.t0 == mesh.texCoords[f.c0.t] && r.value.t1 == mesh.texCoords[f.c1.t]
                        && r.value.t2 == mesh.texCoords[f.c2.t]
    ensures r.Some? ==> r.value.n0 == (if mesh.normalCount == 0 then normalize(mesh.vertices[f.c0.v]) else mesh.normals[f.c0.n])
                        && r.value.n1 == (if mesh.normalCount == 0 then normalize(mesh.vertices[f.c1.v]) else mesh.normals[f.c1.n])
                        && r.value.n2 == (if mesh.normalCount == 0 then normalize(mesh.vertices[f.c2.v]) else mesh.normals[f.c2.n])
  {
    var v0, v1, v2 := mesh.vertices[f.c0.v], mesh.vertices[f.c1.v], mesh.vertices[f.c2.v];
    var t0, t1, t2 := mesh.texCoords[f.c0.t], mesh.texCoords[f.c1.t], mesh.texCoords[f.c2.t];
    var n0 := if mesh.normalCount == 0 then normalize(v0) else mesh.normals[f.c0.n];
    var n1 := if mesh.normalCount == 0 then normalize(v1) else mesh.normals[f.c1.n];
    var n2 := if mesh.normalCount == 0 then normalize(v2) else mesh.normals[f.c2.n];
    var p0, p1, p2 := Mat4.MultiplyV3(mvp, v0), Mat4.MultiplyV3(mvp, v1), Mat4.MultiplyV3(mvp, v2);
    if BackFacing(normalize, p0, p1, p2) then None
    else Some(Raster.Triangle(p0, p1, p2, t0, t1, t2, n0, n1, n2))
  }

  /** The cross product of the edges `v1 - v0` and `v2 - v1` has the signed
      area of the triangle as its `z` component. */
  lemma EdgeCross(p0: V3.V3, p1: V3.V3, p2: V3.V3)
    ensures V3.Cross(V3.Sub(p1, p0), V3.Sub(p2, p1)).z == Raster.EdgeFn(p0, p1, p2)
  {
    var e1, e2 := V3.Sub(p1, p0), V3.Sub(p2, p1);
    assert V3.Cross(e1, e2).z == e1.x * e2.y - e1.y * e2.x;
    assert e1.x * e2.y == p1.x * p2.y - p1.x * p1.y - p0.x * p2.y + p0.x * p1.y;
    assert e1.y * e2.x == p1.y * p2.x - p1.y * p1.x - p0.y * p2.x + p0.y * p1.x;
  }

  /** When `normalize` scales each edge by a positive factor (as `v3_norm`
      does to any non-zero vector), a face is culled exactly when its
      transformed vertices wind clockwise. */
  lemma CullIsClockwise(normalize: V3.V3 -> V3.V3, p0: V3.V3, p1: V3.V3, p2: V3.V3, k1: real, k2: real)
    requires k1 > 0.0 && k2 > 0.0
    requires normalize(V3.Sub(p1, p0)) == V3.Scale(V3.Sub(p1, p0), k1)
    requires normalize(V3.Sub(p2, p1)) == V3.Scale(V3.Sub(p2, p1), k2)
    ensures BackFacing(normalize, p0, p1, p2) <==> Raster.EdgeFn(p0, p1, p2) < 0.0
  {
    var e1, e2 := V3.Sub(p1, p0), V3.Sub(p2, p1);
    var z := V3.Cross(V3.Scale(e1, k1), V3.Scale(e2, k2)).z;
    assert BackFacing(normalize, p0, p1, p2) <==> z < 0.0 by {
      BackFacingByZ(normalize, p0, p1, p2, V3.Scale(e1, k1), V3.Scale(e2, k2));
    }
    var x := V3.Cross(e1, e2).z;
    var k := k1 * k2;
    assert z == k * x by {
      ScaledCross(e1, e2, k1, k2);
    }
    assert x == Raster.EdgeFn(p0, p1, p2) by {
      EdgeCross(p0, p1, p2);
    }
    assert k * x < 0.0 <==> x < 0.0 by {
      V3.MulPositive(k1, k2);
      SignOfProduct(k, x);
    }
  }

  /** Culling looks only at the `z` component of the cross product of the
      normalised edges. */
  lemma BackFacingByZ(normalize: V3.V3 -> V3.V3, p0: V3.V3, p1: V3.V3, p2: V3.V3, n1: V3.V3, n2: V3.V3)
    requires normalize(V3.Sub(p1, p0)) == n1 && normalize(V3.Sub(p2, p1)) == n2
    ensures BackFacing(normalize, p0, p1, p2) <==> V3.Cross(n1, n2).z < 0.0
  {
    DotUnitZ(V3.Cross(n1, n2));
  }

  lemma DotUnitZ(c: V3.V3)
    ensures V3.Dot(c, V3.V3(0.0, 0.0, 1.0)) == c.z
  {
  }

  lemma ScaledCross(a: V3.V3, b: V3.V3, ka: real, kb: real)
    ensures V3.Cross(V3.Scale(a, ka), V3.Scale(b, kb)).z == (ka * kb) * V3.Cross(a, b).z
  {
    var a', b' := V3.Scale(a, ka), V3.Scale(b, kb);
    assert a'.x * b'.y == (ka * kb) * (a.x * b.y);
    assert a'.y * b'.x == (ka * kb) * (a.y * b.x);
  }

  lemma SignOfProduct(k: real, e: real)
    requires k > 0.0
    ensures k * e < 0.0 <==> e < 0.0
  {
    if e < 0.0 {
      V3.MulPositive(k, -e);
    } else if e > 0.0 {
      V3.MulPositive(k, e);
    }
  }

  /** A face that survives culling draws nothing unless it is
      counter-clockwise on screen too: the raster area has the sign of the
      clip-space winding. */
  lemma VisibleFacesWindCounterClockwise(r: Raster.Prepared, width: nat, height: nat, tri: Raster.Triangle)
    requires Raster.PositionsFrom(r, width, height, tri)
    requires Raster.EdgeFn(tri.v0, tri.v1, tri.v2) >= 0.0
    ensures Raster.Area(r) >= 0.0
  {
    Raster.RasterArea(r, width, height, tri);
    var k := (0.5 * width as real) * (0.5 * height as real);
    Raster.NonNegativeProduct(0.5 * width as real, 0.5 * height as real);
    Raster.NonNegativeProduct(k, Raster.EdgeFn(tri.v0, tri.v1, tri.v2));
  }

  /** What face `f` offers pixel `(i, j)`. */
  function FaceFragment(width: nat, height: nat, model: Mat4.Mat4, mvp: Mat4.Mat4, mesh: Mesh.Mesh,
                        normalize: V3.V3 -> V3.V3, f: Mesh.Face, i: int, j: int): Option<Raster.Fragment>
    requires Mesh.FaceInRange(mesh, f)
  {
    match FaceTriangle(mvp, mesh, normalize, f)
    case None => None
    case Some(tri) => Raster.TriangleFragment(width, height, model, tri, i, j)
  }

  /** The fragments the first `k` faces offer pixel `(i, j)`, in face order. */
  function Fragments(width: nat, height: nat, model: Mat4.Mat4, mvp: Mat4.Mat4, mesh: Mesh.Mesh,
                     normalize: V3.V3 -> V3.V3, k: nat, i: int, j: int): (fs: seq<Option<Raster.Fragment>>)
    requires Mesh.Valid(mesh) && k <= |mesh.faces|
    ensures |fs| == k
    decreases k
  {
    if k == 0 then []
    else Fragments(width, height, model, mvp, mesh, normalize, k - 1, i, j)
         + [FaceFragment(width, height, model, mvp, mesh, normalize, mesh.faces[k - 1], i, j)]
  }

  /** Drawing one more face is one more depth test. */
  lemma CompositeStep(width: nat, height: nat, model: Mat4.Mat4, mvp: Mat4.Mat4, mesh: Mesh.Mesh,
                      normalize: V3.V3 -> V3.V3, k: nat, i: int, j: int, p: Pixel)
    requires Mesh.Valid(mesh) && k < |mesh.faces|
    ensures Composite(Fragments(width, height, model, mvp, mesh, normalize, k + 1, i, j), p)
              == DepthTest(FaceFragment(width, height, model, mvp, mesh, normalize, mesh.faces[k], i, j),
                           Composite(Fragments(width, height, model, mvp, mesh, normalize, k, i, j), p))
  {
    var fs := Fragments(width, height, model, mvp, mesh, normalize, k + 1, i, j);
    assert fs[..k] == Fragments(width, height, model, mvp, mesh, normalize, k, i, j);
  }

  /** A pixel after the depth tests of a sequence of fragments, in order. */
  function Composite(fs: seq<Option<Raster.Fragment>>, p: Pixel): Pixel
    decreases |fs|
  {
    if |fs| == 0 then p else DepthTest(fs[|fs| - 1], Composite(fs[..|fs| - 1], p))
  }

  /** After any sequence of fragments a pixel holds the nearest depth seen:
      no deeper than its start or any fragment, and either its start value
      or one of the fragments. */
  lemma {:induction false} CompositeNearest(fs: seq<Option<Raster.Fragment>>, p: Pixel)
    ensures Composite(fs, p).depth <= p.depth
    ensures forall m | 0 <= m < |fs| && fs[m].Some? :: Composite(fs, p).depth <= fs[m].value.depth
    ensures Composite(fs, p) == p
            || exists m | 0 <= m < |fs| && fs[m].Some? :: Composite(fs, p) == Pixel(fs[m].value.depth, fs[m].value.color)
    decreases |fs|
  {
    if |fs| > 0 {
      var init := fs[..|fs| - 1];
      CompositeNearest(init, p);
      assert forall m | 0 <= m < |init| :: init[m] == fs[m];
      var c := Composite(init, p);
      if Composite(fs, p) != c {
        assert Composite(fs, p) == Pixel(fs[|fs| - 1].value.depth, fs[|fs| - 1].value.color);
      } else if c != p {
        var m :| 0 <= m < |init| && init[m].Some? && c == Pixel(init[m].value.depth, init[m].value.color);
        assert fs[m] == init[m];
      }
    }
  }

  /** The depth a pixel ends with does not depend on the order in which the
      faces are drawn. */
  lemma CompositeDepthOrderIndependent(a: seq<Option<Raster.Fragment>>, b: seq<Option<Raster.Fragment>>, p: Pixel)
    requires multiset(a) == multiset(b)
    ensures Composite(a, p).depth == Composite(b, p).depth
  {
    CompositeNearest(a, p);
    CompositeNearest(b, p);
    NearestBelow(a, b, p);
    NearestBelow(b, a, p);
  }

  /** The final depth of `a` is reached by `b` too, so `b` ends no deeper. */
  lemma NearestBelow(a: seq<Option<Raster.Fragment>>, b: seq<Option<Raster.Fragment>>, p: Pixel)
    requires multiset(a) == multiset(b)
    ensures Composite(b, p).depth <= Composite(a, p).depth
  {
    CompositeNearest(a, p);
    CompositeNearest(b, p);
    var c := Composite(a, p);
    if c != p {
      var m :| 0 <= m < |a| && a[m].Some? && c == Pixel(a[m].value.depth, a[m].value.color);
      assert a[m] in multiset(b);
      var n :| 0 <= n < |b| && b[n] == a[m];
    }
  }

  /** `xgl_draw`: every on-screen pixel ends up as the depth tests of the
      faces' fragments, in face order, applied to what it held before. */
  method Draw(ctx: Context.Context, mesh: Mesh.Mesh, normalize: V3.V3 -> V3.V3)
    requires ctx.Valid() && Mesh.Valid(mesh)
    modifies ctx.depthBuffer, ctx.colorBuffer
    ensures forall i, j | 0 <= i < ctx.width && 0 <= j < ctx.height ::
              PixelAt(ctx, i, j)
                == Composite(Fragments(ctx.width, ctx.height, ctx.model, ctx.mvp, mesh, normalize, |mesh.faces|, i, j),
                             PixelIn(ctx, old(ctx.depthBuffer[..]), old(ctx.colorBuffer[..]), i, j))
    ensures forall q | ctx.width * ctx.height <= q < ctx.colorBuffer.Length ::
              ctx.colorBuffer[q] == old(ctx.colorBuffer[q])
  {
    ghost var depth0, color0 := ctx.depthBuffer[..], ctx.colorBuffer[..];
    NothingDrawn(ctx, mesh, normalize);
    var k := 0;
    while k < |mesh.faces|
      invariant 0 <= k <= |mesh.faces|
      invariant FacesDrawn(ctx, mesh, normalize, k, depth0, color0)
      invariant TailKept(ctx, color0)
    {
      DrawNext(ctx, mesh, normalize, k, depth0, color0);
      k := k + 1;
    }
  }

  /** The image memory past the last pixel still holds `color`. */
  ghost predicate TailKept(ctx: Context.Context, color: seq<int>)
    requires ctx.Valid()
    reads ctx.colorBuffer
  {
    |color| == ctx.colorBuffer.Length
    && forall q | ctx.width * ctx.height <= q < ctx.colorBuffer.Length :: ctx.colorBuffer[q] == color[q]
  }

  /** Before the loop no face has been drawn. */
  lemma NothingDrawn(ctx: Context.Context, mesh: Mesh.Mesh, normalize: V3.V3 -> V3.V3)
    requires ctx.Valid() && Mesh.Valid(mesh)
    ensures FacesDrawn(ctx, mesh, normalize, 0, ctx.depthBuffer[..], ctx.colorBuffer[..])
  {
    forall i, j | 0 <= i < ctx.width && 0 <= j < ctx.height
      ensures PixelAt(ctx, i, j)
                == Composite(Fragments(ctx.width, ctx.height, ctx.model, ctx.mvp, mesh, normalize, 0, i, j),
                             PixelIn(ctx, ctx.depthBuffer[..], ctx.colorBuffer[..], i, j))
    {
      assert Fragments(ctx.width, ctx.height, ctx.model, ctx.mvp, mesh, normalize, 0, i, j) == [];
    }
  }

  /** The body of `xgl_draw`'s loop: face `k` is drawn on top of the first
      `k`. */
  method DrawNext(ctx: Context.Context, mesh: Mesh.Mesh, normalize: V3.V3 -> V3.V3, k: nat,
                  ghost depth0: seq<real>, ghost color0: seq<int>)
    requires ctx.Valid() && Mesh.Valid(mesh) && k < |mesh.faces|
    requires FacesDrawn(ctx, mesh, normalize, k, depth0, color0) && TailKept(ctx, color0)
    modifies ctx.depthBuffer, ctx.colorBuffer
    ensures FacesDrawn(ctx, mesh, normalize, k + 1, depth0, color0) && TailKept(ctx, color0)
  {
    DrawFace(ctx, mesh, normalize, mesh.faces[k]);
    forall i, j | 0 <= i < ctx.width && 0 <= j < ctx.height
      ensures PixelAt(ctx, i, j)
                == Composite(Fragments(ctx.width, ctx.height, ctx.model, ctx.mvp, mesh, normalize, k + 1, i, j),
                             PixelIn(ctx, depth0, color0, i, j))
    {
      CompositeStep(ctx.width, ctx.height, ctx.model, ctx.mvp, mesh, normalize, k, i, j, PixelIn(ctx, depth0, color0, i, j));
    }
  }

  /** Pixel `(i, j)` of a snapshot of the two planes. */
  ghost function PixelIn(ctx: Context.Context, depth: seq<real>, color: seq<int>, i: int, j: int): Pixel
    requires |depth| == ctx.width * ctx.height <= |color|
    requires 0 <= i < ctx.width && 0 <= j < ctx.height
  {
    IndexInRange(ctx.width, ctx.height, i, j);
    var k := Index(ctx.width, ctx.height, i, j);
    Pixel(depth[k], color[k])
  }

  /** The first `k` faces have been drawn over the snapshot `depth`,
      `color`. */
  ghost predicate FacesDrawn(ctx: Context.Context, mesh: Mesh.Mesh, normalize: V3.V3 -> V3.V3, k: nat,
                             depth: seq<real>, color: seq<int>)
    requires ctx.Valid() && Mesh.Valid(mesh) && k <= |mesh.faces|
    reads ctx, ctx.depthBuffer, ctx.colorBuffer
  {
    |depth| == ctx.width * ctx.height <= |color|
    && forall i, j | 0 <= i < ctx.width && 0 <= j < ctx.height ::
         PixelAt(ctx, i, j)
           == Composite(Fragments(ctx.width, ctx.height, ctx.model, ctx.mvp, mesh, normalize, k, i, j),
                        PixelIn(ctx, depth, color, i, j))
  }

  /** One iteration of `xgl_draw`'s loop: gather face `f`, cull it or draw
      it. */
  method DrawFace(ctx: Context.Context, mesh: Mesh.Mesh, normalize: V3.V3 -> V3.V3, f: Mesh.Face)
    requires ctx.Valid() && Mesh.FaceInRange(mesh, f)
    modifies ctx.depthBuffer, ctx.colorBuffer
    ensures forall i, j | 0 <= i < ctx.width && 0 <= j < ctx.height ::
              PixelAt(ctx, i, j)
                == DepthTest(FaceFragment(ctx.width, ctx.height, ctx.model, ctx.mvp, mesh, normalize, f, i, j),
                             old(PixelAt(ctx, i, j)))
    ensures forall q | ctx.width * ctx.height <= q < ctx.colorBuffer.Length ::
              ctx.colorBuffer[q] == old(ctx.colorBuffer[q])
  {
    var tri := FaceTriangle(ctx.mvp, mesh, normalize, f);
    if tri.Some? {
      DrawTriangle(ctx, tri.value);
    }
  }
}
