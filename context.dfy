/** The rendering context (src/xgl_context.c, src/xgl.h): the transform state
    and the two framebuffer planes. The window, image and display handles of
    `xgl_context_t` are not part of this model. */
module Context {
  import Mat4

  class Context {
    const width: nat
    const height: nat
    /** One depth value per pixel. */
    const depthBuffer: array<real>
    /** The packed colour of each pixel (`uint32_t`). It is the pixel memory
        of the window image, so it may be longer than `width * height`. */
    const colorBuffer: array<int>

    var model: Mat4.Mat4
    var view: Mat4.Mat4
    var proj: Mat4.Mat4
    var mvp: Mat4.Mat4

    ghost predicate Valid()
    {
      depthBuffer.Length == width * height && colorBuffer.Length >= width * height
    }

    /** The invariant every matrix setter re-establishes. */
    ghost predicate Composed()
      reads this
    {
      mvp == Mat4.Mul(Mat4.Mul(proj, view), model)
    }

    /** Allocates zeroed planes of `width * height` pixels, as
        `xgl_create_context` does for the depth plane. The source leaves the
        matrices unset until the setters run; here they start at zero, and
        `Composed()` holds once a setter has run. */
    constructor (width: nat, height: nat)
      ensures this.width == width && this.height == height
      ensures Valid()
      ensures fresh(depthBuffer) && fresh(colorBuffer)
      ensures colorBuffer.Length == width * height
      ensures forall k | 0 <= k < width * height :: depthBuffer[k] == 0.0 && colorBuffer[k] == 0
    {
      this.width := width;
      this.height := height;
      depthBuffer := new real[width * height](_ => 0.0);
      colorBuffer := new int[width * height](_ => 0);
      model, view, proj, mvp := Mat4.Zero, Mat4.Zero, Mat4.Zero, Mat4.Zero;
    }

    /** `xgl_load_model_matrix`. */
    method LoadModelMatrix(m: Mat4.Mat4)
      modifies this
      ensures model == m && view == old(view) && proj == old(proj)
      ensures Composed()
    {
      model := m;
      mvp := Mat4.Mul(Mat4.Mul(proj, view), model);
    }

    /** `xgl_load_view_matrix`. */
    method LoadViewMatrix(m: Mat4.Mat4)
      modifies this
      ensures view == m && model == old(model) && proj == old(proj)
      ensures Composed()
    {
      view := m;
      mvp := Mat4.Mul(Mat4.Mul(proj, view), model);
    }

    /** `xgl_load_proj_matrix`. */
    method LoadProjMatrix(m: Mat4.Mat4)
      modifies this
      ensures proj == m && model == old(model) && view == old(view)
      ensures Composed()
    {
      proj := m;
      mvp := Mat4.Mul(Mat4.Mul(proj, view), model);
    }

    /** `xgl_clear`: depth 1.0 and colour 0 at every index below
        `width * height`; nothing else changes. */
    method Clear()
      requires Valid()
      modifies depthBuffer, colorBuffer
      ensures forall k | 0 <= k < width * height :: depthBuffer[k] == 1.0 && colorBuffer[k] == 0
      ensures forall k | width * height <= k < colorBuffer.Length :: colorBuffer[k] == old(colorBuffer[k])
      ensures model == old(model) && view == old(view) && proj == old(proj) && mvp == old(mvp)
    {
      var i := 0;
      while i < width * height
        invariant 0 <= i <= width * height
        invariant forall k | 0 <= k < i :: depthBuffer[k] == 1.0 && colorBuffer[k] == 0
        invariant forall k | width * height <= k < colorBuffer.Length :: colorBuffer[k] == old(colorBuffer[k])
      {
        depthBuffer[i] := 1.0;
        colorBuffer[i] := 0;
        i := i + 1;
      }
    }
  }

  /** Whatever order the three setters run in, the final `mvp` is the
      composition of the last matrices loaded. */
  method SetterOrderIrrelevant(a: Context, b: Context, m: Mat4.Mat4, v: Mat4.Mat4, p: Mat4.Mat4)
    requires a != b
    modifies a, b
    ensures a.mvp == b.mvp == Mat4.Mul(Mat4.Mul(p, v), m)
  {
    a.LoadModelMatrix(m);
    a.LoadViewMatrix(v);
    a.LoadProjMatrix(p);
    b.LoadProjMatrix(p);
    b.LoadViewMatrix(v);
    b.LoadModelMatrix(m);
  }
}
