/** The fragment shader (src/xgl_shader.h): one directional light along -X
    and a white base colour. */
module Shader {
  import Utils
  import V2
  import V3
  import V4

  const LightDirection := V3.V3(-1.0, 0.0, 0.0)

  /** `xgl_fragment(uv, n)`. The light term `dot(light_direction, -n)` is
      `n.x`; it is clamped to `[0.05, 1]`, and `v4_scale` scales the alpha
      component as well, so all four components equal the brightness. The
      normal is used as given, without renormalisation. */
  function Fragment(uv: V2.V2, n: V3.V3): (c: V4.V4)
    ensures c == V4.V4(Utils.Clampf(n.x, 0.05, 1.0), Utils.Clampf(n.x, 0.05, 1.0),
                       Utils.Clampf(n.x, 0.05, 1.0), Utils.Clampf(n.x, 0.05, 1.0))
    ensures 0.05 <= c.x <= 1.0 && 0.05 <= c.y <= 1.0 && 0.05 <= c.z <= 1.0 && 0.05 <= c.w <= 1.0
  {
    LightTerm(n);
    var brightness := Utils.Clampf(V3.Dot(LightDirection, V3.Scale(n, -1.0)), 0.05, 1.0);
    var color := V3.V3(1.0, 1.0, 1.0);
    V4.Scale(V4.FromV3(color, 1.0), brightness)
  }

  /** Lighting a normal `n` from `-X` yields its `x` component. */
  lemma LightTerm(n: V3.V3)
    ensures V3.Dot(LightDirection, V3.Scale(n, -1.0)) == n.x
  {
    var m := V3.Scale(n, -1.0);
    assert LightDirection == V3.V3(-1.0, 0.0, 0.0);
    assert m == V3.V3(n.x * -1.0, n.y * -1.0, n.z * -1.0);
    assert V3.Dot(LightDirection, m) == -1.0 * m.x + 0.0 * m.y + 0.0 * m.z;
  }

  /** The texture coordinate is ignored, and of the normal only `x` matters. */
  lemma FragmentDependsOnNormalXOnly(uv: V2.V2, n: V3.V3, uv': V2.V2, n': V3.V3)
    requires n.x == n'.x
    ensures Fragment(uv, n) == Fragment(uv', n')
  {
  }
}
