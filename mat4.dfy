/** 4x4 float matrices (src/math/mat4.h). The source overlays `d[4][4]`, a
    flat `r[16]` and named fields `m00`..`m33` on the same memory; field `mij`
    is `d[i][j]`. The first index selects a column: `mat4_multiply_v3` reads
    `d[3][0..2]` as the translation and `d[0..3][3]` as the row producing `w`. */
module Mat4 {
  import Utils
  import V3

  datatype Mat4 = Mat4(
    m00: real, m01: real, m02: real, m03: real,
    m10: real, m11: real, m12: real, m13: real,
    m20: real, m21: real, m22: real, m23: real,
    m30: real, m31: real, m32: real, m33: real)
  {
    /** `d[i][j]` of the source. */
    function D(i: int, j: int): real
      requires 0 <= i < 4 && 0 <= j < 4
    {
      if i == 0 then (if j == 0 then m00 else if j == 1 then m01 else if j == 2 then m02 else m03)
      else if i == 1 then (if j == 0 then m10 else if j == 1 then m11 else if j == 2 then m12 else m13)
      else if i == 2 then (if j == 0 then m20 else if j == 1 then m21 else if j == 2 then m22 else m23)
      else (if j == 0 then m30 else if j == 1 then m31 else if j == 2 then m32 else m33)
    }
  }

  const Zero := Mat4(0.0, 0.0, 0.0, 0.0, 0.0, 0.0, 0.0, 0.0,
                     0.0, 0.0, 0.0, 0.0, 0.0, 0.0, 0.0, 0.0)

  /** `mat4_mul_mat4(a, b)`: entry `d[i][j]` is the sum over `k` of
      `a.d[k][j] * b.d[i][k]`, so `b` is applied to a point first. Each entry
      below expands to the source's line for that entry, e.g. `m01` is
      `a.m01 * b.m00 + a.m11 * b.m01 + a.m21 * b.m02 + a.m31 * b.m03`. */
  function Mul(a: Mat4, b: Mat4): (m: Mat4)
    ensures forall i, j | 0 <= i < 4 && 0 <= j < 4 :: m.D(i, j) == Dot4(Col(a, j), Row(b, i))
  {
    var m := Mat4(
      Dot4(Col(a, 0), Row(b, 0)), Dot4(Col(a, 1), Row(b, 0)), Dot4(Col(a, 2), Row(b, 0)), Dot4(Col(a, 3), Row(b, 0)),
      Dot4(Col(a, 0), Row(b, 1)), Dot4(Col(a, 1), Row(b, 1)), Dot4(Col(a, 2), Row(b, 1)), Dot4(Col(a, 3), Row(b, 1)),
      Dot4(Col(a, 0), Row(b, 2)), Dot4(Col(a, 1), Row(b, 2)), Dot4(Col(a, 2), Row(b, 2)), Dot4(Col(a, 3), Row(b, 2)),
      Dot4(Col(a, 0), Row(b, 3)), Dot4(Col(a, 1), Row(b, 3)), Dot4(Col(a, 2), Row(b, 3)), Dot4(Col(a, 3), Row(b, 3)));
    m
  }

  /** A row of four reals, the unit of the entry-wise proofs below. */
  datatype R4 = R4(a: real, b: real, c: real, d: real)

  function Dot4(p: R4, q: R4): real
  {
    p.a * q.a + p.b * q.b + p.c * q.c + p.d * q.d
  }

  function Scale4(p: R4, s: real): R4
  {
    R4(p.a * s, p.b * s, p.c * s, p.d * s)
  }

  function Add4(p: R4, q: R4): R4
  {
    R4(p.a + q.a, p.b + q.b, p.c + q.c, p.d + q.d)
  }

  /** `d[0][j] .. d[3][j]`. */
  function Col(m: Mat4, j: int): (c: R4)
    requires 0 <= j < 4
    ensures c == R4(m.D(0, j), m.D(1, j), m.D(2, j), m.D(3, j))
  {
    if j == 0 then R4(m.m00, m.m10, m.m20, m.m30)
    else if j == 1 then R4(m.m01, m.m11, m.m21, m.m31)
    else if j == 2 then R4(m.m02, m.m12, m.m22, m.m32)
    else R4(m.m03, m.m13, m.m23, m.m33)
  }

  /** `d[i][0] .. d[i][3]`. */
  function Row(m: Mat4, i: int): (r: R4)
    requires 0 <= i < 4
    ensures r == R4(m.D(i, 0), m.D(i, 1), m.D(i, 2), m.D(i, 3))
  {
    if i == 0 then R4(m.m00, m.m01, m.m02, m.m03)
    else if i == 1 then R4(m.m10, m.m11, m.m12, m.m13)
    else if i == 2 then R4(m.m20, m.m21, m.m22, m.m23)
    else R4(m.m30, m.m31, m.m32, m.m33)
  }

  lemma DotScale(x: R4, y: R4, s: real)
    ensures Dot4(x, y) * s == Dot4(x, Scale4(y, s))
  {
    calc {
      Dot4(x, y) * s;
      (x.a * y.a) * s + (x.b * y.b) * s + (x.c * y.c) * s + (x.d * y.d) * s;
      { assert (x.a * y.a) * s == x.a * (y.a * s);
        assert (x.b * y.b) * s == x.b * (y.b * s);
        assert (x.c * y.c) * s == x.c * (y.c * s);
        assert (x.d * y.d) * s == x.d * (y.d * s); }
      x.a * (y.a * s) + x.b * (y.b * s) + x.c * (y.c * s) + x.d * (y.d * s);
    }
  }

  lemma DotAdd(x: R4, p: R4, q: R4)
    ensures Dot4(x, p) + Dot4(x, q) == Dot4(x, Add4(p, q))
  {
    assert x.a * (p.a + q.a) == x.a * p.a + x.a * q.a;
    assert x.b * (p.b + q.b) == x.b * p.b + x.b * q.b;
    assert x.c * (p.c + q.c) == x.c * p.c + x.c * q.c;
    assert x.d * (p.d + q.d) == x.d * p.d + x.d * q.d;
  }

  /** Regrouping a double sum: the algebraic core of associativity. */
  lemma Regroup(x: R4, r0: R4, r1: R4, r2: R4, r3: R4, z: R4)
    ensures Dot4(R4(Dot4(x, r0), Dot4(x, r1), Dot4(x, r2), Dot4(x, r3)), z)
         == Dot4(x, R4(Dot4(R4(r0.a, r1.a, r2.a, r3.a), z), Dot4(R4(r0.b, r1.b, r2.b, r3.b), z),
                       Dot4(R4(r0.c, r1.c, r2.c, r3.c), z), Dot4(R4(r0.d, r1.d, r2.d, r3.d), z)))
  {
    var s0, s1, s2, s3 := Scale4(r0, z.a), Scale4(r1, z.b), Scale4(r2, z.c), Scale4(r3, z.d);
    DotScale(x, r0, z.a);
    DotScale(x, r1, z.b);
    DotScale(x, r2, z.c);
    DotScale(x, r3, z.d);
    DotAdd(x, s0, s1);
    DotAdd(x, Add4(s0, s1), s2);
    DotAdd(x, Add4(Add4(s0, s1), s2), s3);
  }

  lemma MulAssociativeAt(a: Mat4, b: Mat4, c: Mat4, i: int, j: int)
    requires 0 <= i < 4 && 0 <= j < 4
    ensures Mul(Mul(a, b), c).D(i, j) == Mul(a, Mul(b, c)).D(i, j)
  {
    var x, z := Col(a, j), Row(c, i);
    var ab, bc := Mul(a, b), Mul(b, c);
    var r0, r1, r2, r3 := Row(b, 0), Row(b, 1), Row(b, 2), Row(b, 3);
    assert Col(ab, j) == R4(Dot4(x, r0), Dot4(x, r1), Dot4(x, r2), Dot4(x, r3));
    assert Col(b, 0) == R4(r0.a, r1.a, r2.a, r3.a);
    assert Col(b, 1) == R4(r0.b, r1.b, r2.b, r3.b);
    assert Col(b, 2) == R4(r0.c, r1.c, r2.c, r3.c);
    assert Col(b, 3) == R4(r0.d, r1.d, r2.d, r3.d);
    assert Row(bc, i) == R4(Dot4(Col(b, 0), z), Dot4(Col(b, 1), z), Dot4(Col(b, 2), z), Dot4(Col(b, 3), z));
    Regroup(x, r0, r1, r2, r3, z);
  }

  /** Matrix composition is associative (exactly, over the reals). */
  lemma MulAssociative(a: Mat4, b: Mat4, c: Mat4)
    ensures Mul(Mul(a, b), c) == Mul(a, Mul(b, c))
  {
    var l, r := Mul(Mul(a, b), c), Mul(a, Mul(b, c));
    forall i, j | 0 <= i < 4 && 0 <= j < 4
      ensures l.D(i, j) == r.D(i, j)
    {
      MulAssociativeAt(a, b, c, i, j);
    }
    EqualEntries(l, r);
  }

  lemma EqualEntries(l: Mat4, r: Mat4)
    requires forall i, j | 0 <= i < 4 && 0 <= j < 4 :: l.D(i, j) == r.D(i, j)
    ensures l == r
  {
    assert l.D(0, 0) == r.D(0, 0) && l.D(0, 1) == r.D(0, 1) && l.D(0, 2) == r.D(0, 2) && l.D(0, 3) == r.D(0, 3);
    assert l.D(1, 0) == r.D(1, 0) && l.D(1, 1) == r.D(1, 1) && l.D(1, 2) == r.D(1, 2) && l.D(1, 3) == r.D(1, 3);
    assert l.D(2, 0) == r.D(2, 0) && l.D(2, 1) == r.D(2, 1) && l.D(2, 2) == r.D(2, 2) && l.D(2, 3) == r.D(2, 3);
    assert l.D(3, 0) == r.D(3, 0) && l.D(3, 1) == r.D(3, 1) && l.D(3, 2) == r.D(3, 2) && l.D(3, 3) == r.D(3, 3);
  }

  /** `mat4_identity` as written: it stores 1 on the diagonal of an
      uninitialised local and returns it, so every off-diagonal entry is
      whatever `uninit` held. */
  function IdentityAsWritten(uninit: Mat4): (m: Mat4)
    ensures forall k | 0 <= k < 4 :: m.D(k, k) == 1.0
    ensures forall i, j | 0 <= i < 4 && 0 <= j < 4 && i != j :: m.D(i, j) == uninit.D(i, j)
  {
    uninit.(m00 := 1.0, m11 := 1.0, m22 := 1.0, m33 := 1.0)
  }

  /** The identity `mat4_identity` is meant to build: the local is zeroed
      first, as `mat4_translation` and `mat4_projection` do. */
  function Identity(): (m: Mat4)
    ensures forall i, j | 0 <= i < 4 && 0 <= j < 4 :: m.D(i, j) == if i == j then 1.0 else 0.0
  {
    IdentityAsWritten(Zero)
  }

  lemma IdentityNeutral(m: Mat4)
    ensures Mul(Identity(), m) == m && Mul(m, Identity()) == m
  {
  }

  /** With a non-zero entry left off the diagonal, the matrix built by
      `mat4_identity` is not neutral for composition. */
  lemma IdentityAsWrittenNotNeutral(uninit: Mat4)
    requires uninit.m01 != 0.0
    ensures Mul(IdentityAsWritten(uninit), Identity()) != Identity()
  {
    var x := IdentityAsWritten(uninit);
    IdentityNeutral(x);
    assert x.m01 != Identity().m01;
  }

  /** `mat4_translation(pos)`: identity with `pos` in `d[3][0..2]`. */
  function Translation(pos: V3.V3): (m: Mat4)
    ensures m == Identity().(m30 := pos.x, m31 := pos.y, m32 := pos.z)
  {
    Zero.(m00 := 1.0, m11 := 1.0, m22 := 1.0, m33 := 1.0, m30 := pos.x, m31 := pos.y, m32 := pos.z)
  }

  /** `mat4_projection(fov, w, h, near, far)`. The source computes
      `fov_rad = 1 / tan(deg2rad(fov * 0.5))` with the C library's `tan`;
      the model takes that value as the parameter `fovRad`. */
  function Projection(fovRad: real, w: int, h: int, near: real, far: real): (m: Mat4)
    ensures w != 0 ==> m.m00 * (w as real) == (h as real) * fovRad
    ensures m.m11 == fovRad
    ensures far != near ==> m.m22 * (far - near) == -(far + near)
    ensures m.m23 == -1.0
    ensures far != near ==> m.m32 * (far - near) == -2.0 * far * near
    ensures m == Zero.(m00 := m.m00, m11 := m.m11, m22 := m.m22, m23 := m.m23, m32 := m.m32)
  {
    var aspect := Utils.Div(h as real, w as real);
    assert w != 0 ==> aspect * fovRad * (w as real) == aspect * (w as real) * fovRad;
    Zero.(m00 := aspect * fovRad, m11 := fovRad,
          m22 := Utils.Div(-(far + near), far - near), m23 := -1.0,
          m32 := Utils.Div(-2.0 * far * near, far - near))
  }

  /** The four outputs of the product in `mat4_multiply_v3`, before any
      division: `r.x`, `r.y`, `r.z` and `w`. */
  function Homogeneous(m: Mat4, v: V3.V3): R4
  {
    R4(m.m00 * v.x + m.m10 * v.y + m.m20 * v.z + m.m30,
       m.m01 * v.x + m.m11 * v.y + m.m21 * v.z + m.m31,
       m.m02 * v.x + m.m12 * v.y + m.m22 * v.z + m.m32,
       m.m03 * v.x + m.m13 * v.y + m.m23 * v.z + m.m33)
  }

  /** `mat4_multiply_v3(m, v)`: x and y are divided by `w` only when
      `w != 1`, and z is never divided. */
  function MultiplyV3(m: Mat4, v: V3.V3): (r: V3.V3)
    ensures r.z == Homogeneous(m, v).c
    ensures Homogeneous(m, v).d == 1.0 ==> r == V3.V3(Homogeneous(m, v).a, Homogeneous(m, v).b, Homogeneous(m, v).c)
    ensures Homogeneous(m, v).d != 0.0 ==>
      r.x * Homogeneous(m, v).d == Homogeneous(m, v).a && r.y * Homogeneous(m, v).d == Homogeneous(m, v).b
  {
    var h := Homogeneous(m, v);
    if h.d != 1.0 then V3.V3(Utils.Div(h.a, h.d), Utils.Div(h.b, h.d), h.c)
    else V3.V3(h.a, h.b, h.c)
  }

  /** A translation moves a point by exactly the translation vector. */
  lemma TranslationShifts(pos: V3.V3, v: V3.V3)
    ensures MultiplyV3(Translation(pos), v) == V3.Add(v, pos)
  {
  }

  /** The `w` of a projected point is the negated input depth. */
  lemma ProjectionW(fovRad: real, w: int, h: int, near: real, far: real, v: V3.V3)
    ensures Homogeneous(Projection(fovRad, w, h, near, far), v).d == -v.z
    ensures MultiplyV3(Projection(fovRad, w, h, near, far), v).z
         == Projection(fovRad, w, h, near, far).m22 * v.z + Projection(fovRad, w, h, near, far).m32
  {
  }

  /** The matrix leaves `w` at 1 (its `d[0..2][3]` are 0 and `d[3][3]` is 1). */
  predicate Affine(b: Mat4)
  {
    b.m03 == 0.0 && b.m13 == 0.0 && b.m23 == 0.0 && b.m33 == 1.0
  }

  function Point(v: V3.V3): R4
  {
    R4(v.x, v.y, v.z, 1.0)
  }

  /** The homogeneous product, column by column. */
  function Apply4(m: Mat4, q: R4): R4
  {
    R4(Dot4(Col(m, 0), q), Dot4(Col(m, 1), q), Dot4(Col(m, 2), q), Dot4(Col(m, 3), q))
  }

  lemma HomogeneousIsApply(m: Mat4, v: V3.V3)
    ensures Homogeneous(m, v) == Apply4(m, Point(v))
  {
  }

  lemma Apply4Mul(a: Mat4, b: Mat4, q: R4)
    ensures Apply4(Mul(a, b), q) == Apply4(a, Apply4(b, q))
  {
    var ab := Mul(a, b);
    var r0, r1, r2, r3 := Row(b, 0), Row(b, 1), Row(b, 2), Row(b, 3);
    assert Apply4(b, q) == R4(Dot4(R4(r0.a, r1.a, r2.a, r3.a), q), Dot4(R4(r0.b, r1.b, r2.b, r3.b), q),
                              Dot4(R4(r0.c, r1.c, r2.c, r3.c), q), Dot4(R4(r0.d, r1.d, r2.d, r3.d), q));
    forall j | 0 <= j < 4
      ensures Dot4(Col(ab, j), q) == Dot4(Col(a, j), Apply4(b, q))
    {
      var x := Col(a, j);
      assert Col(ab, j) == R4(Dot4(x, r0), Dot4(x, r1), Dot4(x, r2), Dot4(x, r3));
      Regroup(x, r0, r1, r2, r3, q);
    }
  }

  /** Composing with an affine `b` applies `b` first, then `a`. */
  lemma MulAppliesRightFirst(a: Mat4, b: Mat4, v: V3.V3)
    requires Affine(b)
    ensures MultiplyV3(Mul(a, b), v) == MultiplyV3(a, MultiplyV3(b, v))
  {
    var u := MultiplyV3(b, v);
    HomogeneousIsApply(b, v);
    HomogeneousIsApply(a, u);
    HomogeneousIsApply(Mul(a, b), v);
    assert Apply4(b, Point(v)) == Point(u);
    Apply4Mul(a, b, Point(v));
  }

  /** `mat4_model(translation, rotation)`. `mat4_rotation` is declared in the
      source but not defined there, so the rotation matrix is a parameter. */
  function Model(translation: V3.V3, rotation: Mat4): (m: Mat4)
    ensures Affine(rotation) ==> forall v :: MultiplyV3(m, v) == V3.Add(MultiplyV3(rotation, v), translation)
  {
    var m := Mul(Translation(translation), rotation);
    forall v | Affine(rotation)
      ensures MultiplyV3(m, v) == V3.Add(MultiplyV3(rotation, v), translation)
    {
      MulAppliesRightFirst(Translation(translation), rotation, v);
      TranslationShifts(translation, MultiplyV3(rotation, v));
    }
    m
  }
}
