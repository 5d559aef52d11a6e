/** The mesh the loader builds and the renderer draws (src/obj.h), as a value:
    each array holds every slot that was allocated, and the counts are the
    ones the loader leaves in the structure. */
module Mesh {
  import V2
  import V3

  /** One corner of a face: its vertex, texture-coordinate and normal index
      (the `k`th entries of `face_t.v`, `face_t.t` and `face_t.n`). */
  datatype Corner = Corner(v: nat, t: nat, n: nat)

  datatype Face = Face(c0: Corner, c1: Corner, c2: Corner)

  datatype Mesh = Mesh(
    vertices: seq<V3.V3>,
    texCoords: seq<V2.V2>,
    normals: seq<V3.V3>,
    normalCount: nat,
    faces: seq<Face>)

  predicate CornerInRange(m: Mesh, c: Corner)
  {
    c.v < |m.vertices| && c.t < |m.texCoords| && c.n < |m.normals|
  }

  predicate FaceInRange(m: Mesh, f: Face)
  {
    CornerInRange(m, f.c0) && CornerInRange(m, f.c1) && CornerInRange(m, f.c2)
  }

  /** Every index a face stores addresses an allocated slot: what `xgl_draw`
      relies on when it reads all three arrays for every corner. */
  predicate Valid(m: Mesh)
  {
    forall k | 0 <= k < |m.faces| :: FaceInRange(m, m.faces[k])
  }
}
