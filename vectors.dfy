/** Two-component float vectors (src/math/v2.h). */
module V2 {
  import Utils

  datatype V2 = V2(x: real, y: real)

  function Add(a: V2, b: V2): (r: V2)
    ensures Sub(r, b) == a
    ensures r == V2(b.x + a.x, b.y + a.y)
  {
    V2(a.x + b.x, a.y + b.y)
  }

  function Sub(a: V2, b: V2): (r: V2)
    ensures r.x + b.x == a.x && r.y + b.y == a.y
  {
    V2(a.x - b.x, a.y - b.y)
  }

  function Scale(v: V2, s: real): (r: V2)
    ensures s == 1.0 ==> r == v
    ensures s == 0.0 ==> r == V2(0.0, 0.0)
  {
    V2(v.x * s, v.y * s)
  }

  function Div(v: V2, f: real): (r: V2)
    ensures f != 0.0 ==> r == Scale(v, 1.0 / f)
  {
    V2(Utils.Div(v.x, f), Utils.Div(v.y, f))
  }
}

/** Two-component integer vectors (src/math/v2i.h). C `int` overflow is
    undefined behaviour; the model's integers are unbounded. */
module V2i {
  datatype V2i = V2i(x: int, y: int)

  function Add(a: V2i, b: V2i): (r: V2i)
    ensures Sub(r, b) == a
    ensures r == V2i(b.x + a.x, b.y + a.y)
  {
    V2i(a.x + b.x, a.y + b.y)
  }

  function Sub(a: V2i, b: V2i): (r: V2i)
    ensures a == b ==> r == V2i(0, 0)
    ensures r.x + b.x == a.x && r.y + b.y == a.y
  {
    V2i(a.x - b.x, a.y - b.y)
  }
}

/** Three-component float vectors (src/math/v3.h). */
module V3 {
  import Utils
  import V2

  datatype V3 = V3(x: real, y: real, z: real)

  function ToV2(v: V3): (r: V2.V2)
    ensures r.x == v.x && r.y == v.y
  {
    V2.V2(v.x, v.y)
  }

  function Add(a: V3, b: V3): (r: V3)
    ensures Sub(r, b) == a
    ensures r == V3(b.x + a.x, b.y + a.y, b.z + a.z)
  {
    V3(a.x + b.x, a.y + b.y, a.z + b.z)
  }

  function Sub(a: V3, b: V3): (r: V3)
    ensures r.x + b.x == a.x && r.y + b.y == a.y && r.z + b.z == a.z
    ensures a == b ==> IsZero(r)
  {
    V3(a.x - b.x, a.y - b.y, a.z - b.z)
  }

  function Scale(v: V3, s: real): (r: V3)
    ensures s == 1.0 ==> r == v
    ensures s == 0.0 ==> IsZero(r)
  {
    V3(v.x * s, v.y * s, v.z * s)
  }

  function Div(v: V3, s: real): (r: V3)
    ensures s != 0.0 ==> r == Scale(v, 1.0 / s)
  {
    V3(Utils.Div(v.x, s), Utils.Div(v.y, s), Utils.Div(v.z, s))
  }

  predicate IsZero(v: V3)
  {
    v.x == 0.0 && v.y == 0.0 && v.z == 0.0
  }

  lemma IsZeroIff(v: V3)
    ensures IsZero(v) <==> v == V3(0.0, 0.0, 0.0)
  {
  }

  function Cross(a: V3, b: V3): V3
  {
    V3(a.y * b.z - a.z * b.y, a.z * b.x - a.x * b.z, a.x * b.y - a.y * b.x)
  }

  /** The cross product is orthogonal to both operands. */
  lemma CrossOrthogonal(a: V3, b: V3)
    ensures Dot(Cross(a, b), a) == 0.0 && Dot(Cross(a, b), b) == 0.0
  {
  }

  /** Swapping the operands negates the cross product. */
  lemma CrossAnticommutes(a: V3, b: V3)
    ensures Cross(a, b) == Scale(Cross(b, a), -1.0)
  {
  }

  function LengthSquared(v: V3): (r: real)
    ensures r == Dot(v, v)
    ensures r >= 0.0
  {
    Square(v.x);
    Square(v.y);
    Square(v.z);
    v.x * v.x + v.y * v.y + v.z * v.z
  }

  lemma Square(t: real)
    ensures t * t >= 0.0
  {
    if t > 0.0 {
      MulPositive(t, t);
    } else if t < 0.0 {
      MulPositive(-t, -t);
      assert t * t == (-t) * (-t);
    }
  }

  lemma MulPositive(a: real, b: real)
    requires a > 0.0 && b > 0.0
    ensures a * b > 0.0
  {
  }

  function Dot(a: V3, b: V3): (r: real)
    ensures r == b.x * a.x + b.y * a.y + b.z * a.z
  {
    a.x * b.x + a.y * b.y + a.z * b.z
  }

  lemma DotSymmetric(a: V3, b: V3)
    ensures Dot(a, b) == Dot(b, a)
  {
  }
}

/** Four-component float vectors (src/math/v4.h). */
module V4 {
  import V3

  datatype V4 = V4(x: real, y: real, z: real, w: real)

  function FromV3(v: V3.V3, w: real): (r: V4)
    ensures r.x == v.x && r.y == v.y && r.z == v.z && r.w == w
  {
    V4(v.x, v.y, v.z, w)
  }

  /** Scales all four components, `w` included. */
  function Scale(v: V4, s: real): (r: V4)
    ensures s == 1.0 ==> r == v
    ensures r.x == v.x * s && r.y == v.y * s && r.z == v.z * s && r.w == v.w * s
  {
    V4(v.x * s, v.y * s, v.z * s, v.w * s)
  }

  lemma ScaleScale(v: V4, a: real, b: real)
    ensures Scale(Scale(v, a), b) == Scale(v, a * b)
  {
    assert v.x * a * b == v.x * (a * b);
    assert v.y * a * b == v.y * (a * b);
    assert v.z * a * b == v.z * (a * b);
    assert v.w * a * b == v.w * (a * b);
  }
}
