# scop in Dafny

scop is a small software rasteriser. It reads a Wavefront OBJ mesh and draws
it, depth-tested and lit by one directional light, into a colour plane and a
depth plane. This project models its core in Dafny and proves properties of
the model:

- the math headers: `utils.h`, the vector types `v2`, `v2i`, `v3`, `v4`, and
  the 4x4 matrices of `mat4.h`;
- the rendering context of `xgl_context.c`: its matrices, its two planes and
  their clearing;
- the fragment shader of `xgl_shader.h`;
- the rasteriser of `xgl_draw.c`. This covers the edge function,
  perspective-correct interpolation, triangle setup (the near-plane test, the
  bounding box and clipping), the per-pixel coverage and depth test, and the
  colour packing. It also covers `xgl_draw`'s loop over the faces with its
  back-face culling;
- the OBJ loader of `obj.c`. This covers `count_words`, `offset_until_sep`,
  `ft_split`, `num_of_tri_faces`, `alloc_arrays`, `read_face_nums`,
  `read_face`, `read_arrays` and `mesh_load_from_obj`, with the `strtok`
  and `atoi` semantics they rely on.

Modules follow the sources:
- `Utils`, `V2`, `V2i`, `V3`, `V4`, `Mat4`: the math headers;
- `Shader`: the fragment shader;
- `Color`: the pixel colour union;
- `Context`: the context, a class;
- `Raster`: the arithmetic of one triangle;
- `Draw`: the methods that write the planes;
- `Mesh`: the mesh the loader produces;
- `ObjText`: the text primitives of the loader;
- `ObjMesh`: the loader itself, with the class `MeshStore` that stands for `mesh_t`;
- `Wrappers`: `Option`.

`float` is modelled as `real`. The context's planes are arrays, as are the
loader's line table and mesh arrays. The steps that fill them are methods
with loops, proved against specification functions.

Three operations are parameters of the model:
- `v3_norm` (a square root) is the parameter `normalize`;
- `mat4_rotation` is a parameter matrix;
- `atof` is the parameter `atof`.

`tan` and `deg2rad` are only reached through `mat4_projection`. It
computes `1.0 / tan(deg2rad(fov * 0.5))` from `fov` in degrees, and the
model takes that value, degree conversion included, as `fovRad`. File reading is not
modelled: `LoadMesh` takes the file's contents as a string.

## Model

| member | source | states |
|---|---|---|
| `Utils.Max2` | src/math/utils.h:18-23 | the result is one of the two arguments and bounds both from above |
| `Utils.Min2` | src/math/utils.h:25-30 | the result is one of the two arguments and bounds both from below |
| `Utils.Abs2` | src/math/utils.h:32-37 | the result is non-negative and is either `f` or `-f` |
| `Utils.MinI2` | src/math/utils.h:39-44 | integer minimum: one of the two and below both |
| `Utils.MaxI2` | src/math/utils.h:46-51 | integer maximum: one of the two and above both |
| `Utils.Max3f` | src/math/utils.h:53-56 | the result is one of the three and bounds all three from above |
| `Utils.Min3f` | src/math/utils.h:58-61 | the result is one of the three and bounds all three from below |
| `Utils.Clampf` | src/math/utils.h:63-66 | inside `[lo, hi]` when `lo <= hi`; `f` itself when it is in range; `lo` below the range and `hi` above it |
| `Utils.Lerpf` | src/math/utils.h:68-71 | `t = 0` gives `a` and `t = 1` gives `b` |
| `Utils.Trunc` | src/xgl_draw.c:102-105 | C's float-to-int conversion: truncation toward zero, within one of the real value and on its side of zero |
| `Utils.TruncMonotone` | src/xgl_draw.c:102-105 | truncation preserves order, so the truncated bounding box keeps min before max |
| `Utils.Div` | src/math/v3.h:47-50 | C float division: for a non-zero divisor the quotient times the divisor is the dividend (division by zero is under "Left out") |
| `V2.Add` | src/math/v2.h:12-15 | subtracting `b` from the sum gives back `a`; addition commutes |
| `V2.Sub` | src/math/v2.h:17-20 | componentwise difference |
| `V2.Scale` | src/math/v2.h:22-25 | scaling by 1 is the identity and by 0 gives the zero vector |
| `V2.Div` | src/math/v2.h:27-30 | dividing by a non-zero `f` is scaling by `1 / f` |
| `V2i.Add` | src/math/v2i.h:15-18 | subtracting `b` from the sum gives back `a`; addition commutes |
| `V2i.Sub` | src/math/v2i.h:20-23 | componentwise difference; `a - a` is zero |
| `V3.ToV2` | src/math/v3.h:27-30 | keeps `x` and `y` |
| `V3.Add` | src/math/v3.h:32-35 | subtracting `b` from the sum gives back `a`; addition commutes |
| `V3.Sub` | src/math/v3.h:37-40 | componentwise difference; `a - a` is zero |
| `V3.Scale` | src/math/v3.h:42-45 | scaling by 1 is the identity and by 0 gives zero |
| `V3.Div` | src/math/v3.h:47-50 | dividing by a non-zero `s` is scaling by `1 / s` |
| `V3.IsZeroIff` | src/math/v3.h:52-55 | `v3_is_zero` holds exactly for the zero vector |
| `V3.IsZero` | src/math/v3.h:52-55 | no contract; specified by `V3.IsZeroIff` |
| `V3.CrossOrthogonal` | src/math/v3.h:57-65 | the cross product is orthogonal to both factors |
| `V3.CrossAnticommutes` | src/math/v3.h:57-65 | swapping the factors negates the cross product |
| `V3.Cross` | src/math/v3.h:57-65 | no contract; specified by `V3.CrossOrthogonal`, `V3.CrossAnticommutes` and `Draw.EdgeCross` |
| `V3.LengthSquared` | src/math/v3.h:72-75 | equals `dot(v, v)` and is non-negative |
| `V3.Dot` | src/math/v3.h:84-87 | the sum of the componentwise products, which does not depend on the order of the factors |
| `V3.DotSymmetric` | src/math/v3.h:84-87 | `dot(a, b) == dot(b, a)` |
| `V4.FromV3` | src/math/v4.h:19-22 | keeps `x`, `y`, `z` and sets `w` |
| `V4.Scale` | src/math/v4.h:24-27 | scales all four components, `w` included; scaling by 1 is the identity |
| `V4.ScaleScale` | src/math/v4.h:24-27 | scaling twice is scaling once by the product |
| `Mat4.Mul` | src/math/mat4.h:36-57 | entry `(i, j)` is the dot product of column `j` of `a` and row `i` of `b` |
| `Mat4.MulAssociative` | src/math/mat4.h:36-57 | matrix multiplication is associative |
| `Mat4.IdentityAsWritten` | src/math/mat4.h:59-68 | the diagonal is 1; every other entry keeps whatever the uninitialised matrix held |
| `Mat4.IdentityAsWrittenNotNeutral` | src/math/mat4.h:59-68 | with a non-zero uninitialised entry, the result is not neutral for multiplication |
| `Mat4.Identity` | src/math/mat4.h:59-68 | 1 on the diagonal and 0 elsewhere |
| `Mat4.IdentityNeutral` | src/math/mat4.h:59-68 | the zeroed identity is neutral on both sides of `Mul` |
| `Mat4.Translation` | src/math/mat4.h:134-147 | the identity with the offset in the last row |
| `Mat4.TranslationShifts` | src/math/mat4.h:151-166 | transforming a point by a translation adds the offset |
| `Mat4.Projection` | src/math/mat4.h:70-83 | the five perspective entries as functions of aspect, field of view, near and far, and 0 everywhere else |
| `Mat4.ProjectionW` | src/math/mat4.h:70-83 | under a projection the homogeneous `w` is `-z` |
| `Mat4.MultiplyV3` | src/math/mat4.h:151-166 | `z` is never divided; nothing is divided when `w = 1`; otherwise `x` and `y` are divided by `w` |
| `Mat4.HomogeneousIsApply` | src/math/mat4.h:151-166 | the homogeneous product is the matrix applied to `(x, y, z, 1)` |
| `Mat4.Apply4Mul` | src/math/mat4.h:36-57 | applying a product applies the right factor first |
| `Mat4.MulAppliesRightFirst` | src/math/mat4.h:151-166 | for an affine right factor, `MultiplyV3(a * b, v)` is `MultiplyV3(a, MultiplyV3(b, v))` |
| `Mat4.Model` | src/math/mat4.h:168-171 | for an affine rotation, the model matrix rotates the point and then adds the translation |
| `Shader.Fragment` | src/xgl_shader.h:14-22 | all four components equal the brightness, which is `n.x` clamped to `[0.05, 1]` |
| `Shader.LightTerm` | src/xgl_shader.h:12-18 | lighting a normal from `-X` with `dot(light, -n)` yields `n.x` |
| `Shader.FragmentDependsOnNormalXOnly` | src/xgl_shader.h:14-22 | the texture coordinate and the normal's `y` and `z` have no effect |
| `Color.ToByte` | src/xgl_draw.c:155-161 | the byte written is in `[0, 256)` and is the floor of any in-range value |
| `Color.Raw` | src/xgl.h:12-22 | the four bytes of the union read back from the 32-bit word; the word is below 2^32 |
| `Color.Split` | src/xgl.h:12-22 | every 32-bit word is the little-endian assembly of its four bytes |
| `Color.Pack` | src/xgl_draw.c:155-161 | the colour bytes are `x * 255`, `y * 255` and `z * 255` converted, and the `t` byte is `(1 - w) * 255` converted |
| `Color.PackGrey` | src/xgl_draw.c:155-161 | for a shader brightness `b`, the colour bytes are `floor(b * 255)` in `[12, 255]` and the `t` byte is in `[0, 242]` |
| `Context.Context.constructor` | src/xgl_context.c:26-38 | a depth plane and a colour plane of `width * height` cells each, all zero |
| `Context.Context.LoadModelMatrix` | src/xgl_context.c:45-49 | replaces the model matrix alone and recomputes `mvp = proj * view * model` |
| `Context.Context.LoadViewMatrix` | src/xgl_context.c:51-55 | replaces the view matrix alone and recomputes `mvp` |
| `Context.Context.LoadProjMatrix` | src/xgl_context.c:57-61 | replaces the projection matrix alone and recomputes `mvp` |
| `Context.Context.Clear` | src/xgl_context.c:63-74 | every pixel gets depth 1.0 and colour 0; the colour plane past `width * height` and the matrices are unchanged |
| `Context.SetterOrderIrrelevant` | src/xgl_context.c:45-61 | loading the same three matrices in two different orders leaves the same `mvp` |
| `Raster.EdgeShoelace` | src/xgl_draw.c:15-18 | the edge function is the shoelace sum of the wedge products of the three edges, that is twice the signed area |
| `Raster.EdgeSum` | src/xgl_draw.c:127-130 | at any point the three edge values sum to the triangle's edge value |
| `Raster.WedgeAnti` | src/xgl_draw.c:15-18 | swapping two vertices negates the edge function |
| `Raster.EdgeFn` | src/xgl_draw.c:15-18 | no contract; specified by `Raster.EdgeShoelace`, `Raster.EdgeSum`, `Raster.WedgeAnti` and `Raster.EdgeScale` |
| `Raster.PintV1` | src/xgl_draw.c:63-68 | each value times its depth gives back the original |
| `Raster.PintV2` | src/xgl_draw.c:45-53 | both texture coordinates of each vertex are divided by its depth |
| `Raster.PintV3AsWritten` | src/xgl_draw.c:26-34 | `x` and `y` of each normal are divided by its depth, and `z` is not |
| `Raster.PintV3AsWrittenSkewsConstant` | src/xgl_draw.c:26-43 | a constant normal `(0, 0, 1)` at depth 2 interpolates to `(0, 0, 2)` |
| `Raster.PintV3` | src/xgl_draw.c:26-34 | every component of each normal is divided by its depth |
| `Raster.PintV3Constant` | src/xgl_draw.c:26-43 | with the corrected division, a constant normal interpolates to itself at every covered pixel |
| `Raster.PintV2Constant` | src/xgl_draw.c:45-61 | a constant texture coordinate interpolates to itself |
| `Raster.IntV1` | src/xgl_draw.c:70-73 | with weights summing to 1, a constant input `a` gives `a * z` |
| `Raster.IntV2` | src/xgl_draw.c:55-61 | the two-component version of the same |
| `Raster.IntV3` | src/xgl_draw.c:36-43 | the three-component version of the same |
| `Raster.PerspectiveConstant` | src/xgl_draw.c:117-144 | dividing by depth, blending and multiplying by the blended depth is exact for constant data |
| `Raster.PositiveBlend` | src/xgl_draw.c:136-140 | convex weights of positive depths give a positive blended inverse depth |
| `Raster.ToRaster` | src/xgl_draw.c:96-98 | maps `-1` to 0 and `1` to the screen size |
| `Raster.RasterVertex` | src/xgl_draw.c:96-98 | keeps the depth of the vertex |
| `Raster.BoundingBox` | src/xgl_draw.c:102-105 | min is at most max on both axes |
| `Raster.Clip` | src/xgl_draw.c:112-115 | a pixel is in the clamped box iff it is in the box and on screen |
| `Raster.Prepare` | src/xgl_draw.c:84-121 | none exactly when the triangle is near-clipped or off screen; otherwise the box is on screen and holds exactly the on-screen pixels of the triangle's box; its attributes, with the corrected `pint_v3`, are stated by `Raster.PrepareFacts` |
| `Raster.NearClipped` | src/xgl_draw.c:90-93 | no contract; `Raster.Prepare` gives up exactly when it or `Raster.OffScreen` holds |
| `Raster.OffScreen` | src/xgl_draw.c:109-110 | no contract; `Raster.Prepare` gives up exactly when it or `Raster.NearClipped` holds |
| `Raster.Barycentric` | src/xgl_draw.c:132-134 | the weights sum to 1 for a non-degenerate triangle and are convex at a covered pixel of a positive triangle |
| `Raster.Normalise` | src/xgl_draw.c:134 | dividing three values by their sum gives weights summing to 1 |
| `Raster.Shade` | src/xgl_draw.c:123-161 | a fragment exactly at the pixels of the box the triangle covers, with a 32-bit colour |
| `Raster.TriangleFragment` | src/xgl_draw.c:75-166 | no contract; `Draw.DrawTriangle` states that every pixel becomes the depth test of this fragment |
| `Raster.ClockwiseCoversNothing` | src/xgl_draw.c:127-132 | a triangle with negative raster area covers no pixel |
| `Raster.PrepareFacts` | src/xgl_draw.c:84-121 | the prepared triangle is derived from its input: raster vertices carrying reciprocal depths, and texture coordinates and model-transformed normals divided by the depths (all three normal components, the corrected `pint_v3`) |
| `Raster.ConstantAttributes` | src/xgl_draw.c:117-153 | with the same texture coordinate and normal at all three corners, the shader receives that coordinate and, under the corrected `pint_v3`, the model-transformed normal |
| `Raster.ShadeIgnoresNormalYZ` | src/xgl_shader.h:14-22 | two prepared triangles that differ only in the `y` and `z` of their normals give the same fragment at every pixel |
| `Raster.PintV3AsWrittenSameImage` | src/xgl_draw.c:117-161 | replacing the corrected normals of `Prepare` by those of `pint_v3` as written changes no fragment, so the image is the one the source draws |
| `Raster.ConvexBounds` | src/xgl_draw.c:136-144 | a convex blend lies between the least and the greatest of the three values |
| `Raster.FragmentDepth` | src/xgl_draw.c:136-149 | a fragment's depth lies between `1 - max z` and `1 - min z` and is below 1 for vertices in front of the camera |
| `Raster.ShadeDepth` | src/xgl_draw.c:136-149 | at every pixel a positive triangle covers, the weights are convex and the depth written is one minus the interpolated depth |
| `Raster.WeightedDepth` | src/xgl_draw.c:136-140 | for convex weights and positive depths, the depth written lies between one minus the largest and one minus the smallest vertex depth, and is below 1 |
| `Raster.Reciprocal` | src/xgl_draw.c:144 | helper of `Raster.PositiveBlend` and `Raster.PrepareFacts`: for a positive depth `z`, `1/z` is positive and `Div(1, z)` is `1/z` |
| `Raster.RasterArea` | src/xgl_draw.c:96-121 | the raster area is the clip-space edge value scaled by `(w / 2) * (h / 2)` |
| `Raster.RasterDifference` | src/xgl_draw.c:96-98 | differences of raster coordinates are scaled differences of clip coordinates |
| `Raster.EdgeScale` | src/xgl_draw.c:15-18 | scaling both axes scales the edge function by the product |
| `Draw.DepthTest` | src/xgl_draw.c:148-162 | the pixel keeps the smaller depth; it becomes the fragment's on ties; otherwise it is unchanged |
| `Draw.IndexInRange` | src/xgl_draw.c:142 | every on-screen pixel's index is inside the planes |
| `Draw.IndexInjective` | src/xgl_draw.c:142 | two on-screen pixels never share an index |
| `Draw.IndexOnto` | src/xgl_draw.c:142 | every index below `width * height` belongs to an on-screen pixel |
| `Draw.Index` | src/xgl_draw.c:142 | no contract; specified by `Draw.IndexInRange`, `Draw.IndexInjective` and `Draw.IndexOnto` |
| `Draw.DrawTriangle` | src/xgl_draw.c:75-166 | every on-screen pixel becomes the depth test of the triangle's fragment against its old value; the colour plane past the screen is unchanged |
| `Draw.ShadePixel` | src/xgl_draw.c:132-162 | pixel `(i, j)` gets the depth test of its fragment, and no other cell changes |
| `Draw.FaceTriangle` | src/xgl_draw.c:172-208 | the vertices are the face's positions mapped by `mvp`, and the texture coordinates are the face's; the normals are the face's, or the normalised object-space positions when the mesh has no normals; the face is dropped exactly when back-facing |
| `Draw.EdgeCross` | src/xgl_draw.c:197-204 | the `z` of the cross product of the two edges is the edge function |
| `Draw.CullIsClockwise` | src/xgl_draw.c:197-204 | when normalisation scales by positive factors, a face is culled iff it winds clockwise |
| `Draw.BackFacingByZ` | src/xgl_draw.c:197-204 | culling looks only at the `z` of the cross product of the normalised edges |
| `Draw.BackFacing` | src/xgl_draw.c:197-204 | no contract; specified by `Draw.BackFacingByZ` and `Draw.CullIsClockwise` |
| `Draw.VisibleFacesWindCounterClockwise` | src/xgl_draw.c:197-208 | a face that winds counter-clockwise in clip space has non-negative raster area |
| `Draw.Fragments` | src/xgl_draw.c:170-208 | one fragment slot per face drawn so far |
| `Draw.CompositeStep` | src/xgl_draw.c:170-208 | drawing one more face is one more depth test on the pixel |
| `Draw.CompositeNearest` | src/xgl_draw.c:148-162 | after any sequence of fragments a pixel is no deeper than its start or any fragment, and is its start or one of the fragments |
| `Draw.CompositeDepthOrderIndependent` | src/xgl_draw.c:148-162 | the final depth does not depend on the order of the fragments |
| `Draw.Composite` | src/xgl_draw.c:170-208 | no contract; specified by `Draw.CompositeStep`, `Draw.CompositeNearest` and `Draw.CompositeDepthOrderIndependent` |
| `Draw.FaceFragment` | src/xgl_draw.c:172-208 | no contract; specified by `Draw.FaceTriangle` and `Draw.CompositeStep` |
| `Draw.Draw` | src/xgl_draw.c:168-210 | every pixel becomes the composite, in face order, of its original value and the fragments of every face; the colour plane past the screen is unchanged |
| `Draw.DrawFace` | src/xgl_draw.c:172-208 | one iteration of the face loop: culling, then drawing the triangle |
| `ObjText.CountWords` | src/obj.c:22-40 | the count is the number of separators, plus one if the text is non-empty and does not start with one |
| `ObjText.OffsetUntilSep` | src/obj.c:42-54 | the offset of the first separator at or after `index`, or the end of the text |
| `ObjText.Find` | src/obj.c:42-54 | the position of the first separator, or the length of the text when there is none |
| `ObjText.FindUnique` | src/obj.c:42-54 | the first separator from a position is unique |
| `ObjText.PiecesHaveNoSeparator` | src/obj.c:80-91 | no piece `ft_split` cuts out holds the separator |
| `ObjText.JoinPieces` | src/obj.c:80-91 | joining the pieces with the separator gives back the text, less one trailing separator |
| `ObjText.PieceCount` | src/obj.c:80-91 | there is one piece per separator, plus one unless the text ends with one |
| `ObjText.Pieces` | src/obj.c:67-93 | no contract; specified by `ObjText.PiecesHaveNoSeparator`, `ObjText.JoinPieces` and `ObjText.PieceCount` |
| `ObjText.FillPieces` | src/obj.c:80-91 | the loop stores the pieces in order in successive slots |
| `ObjText.SplitAsWritten` | src/obj.c:67-93 | `count_words + 1` slots, the pieces in order, and NULL in every slot after them |
| `ObjText.SplitTerminated` | src/obj.c:67-93 | the array has a NULL slot iff the text does not start with the separator while ending with something else |
| `ObjText.SplitLosesTerminator` | src/obj.c:75 | for `"\na"` every slot holds a piece and none is NULL |
| `ObjText.CountPieces` | src/obj.c:22-40 | the corrected count is the number of pieces |
| `ObjText.Split` | src/obj.c:67-93 | one slot per piece plus one, the pieces in order, and the last slot NULL |
| `ObjText.TokensAreNonEmptyPieces` | src/obj.c:194-196 | `strtok`'s tokens are the non-empty pieces, in order |
| `ObjText.Tokens` | src/obj.c:194-196 | no contract; specified by `ObjText.TokensAreNonEmptyPieces` |
| `ObjText.Decimal` | src/obj.c:197-208 | the decimal numeral of a number consists of digits |
| `ObjText.AtoiDecimal` | src/obj.c:197-208 | `atoi` reads back the numeral of any natural number |
| `ObjText.AtoiNegativeDecimal` | src/obj.c:197-208 | `atoi` reads back a minus sign followed by a numeral |
| `ObjText.Atoi` | src/obj.c:197-208 | no contract; specified by `ObjText.AtoiDecimal` and `ObjText.AtoiNegativeDecimal` |
| `ObjMesh.KindsAgree` | src/obj.c:155-166 | the counting pass and the reading pass classify every line alike, despite testing the prefixes in different orders |
| `ObjMesh.AllocKind` | src/obj.c:155-166 | no contract; specified by `ObjMesh.KindsAgree` |
| `ObjMesh.ReadKind` | src/obj.c:261-287 | no contract; specified by `ObjMesh.KindsAgree` |
| `ObjMesh.FieldIndex` | src/obj.c:197-208 | the stored index is `atoi(field) - 1` wrapped to 32 bits, and always below 2^32 |
| `ObjMesh.CornersAgree` | src/obj.c:194-208 | the as-written and the corrected corner readings agree when no field is empty |
| `ObjMesh.EmptyFieldShiftsAsWritten` | src/obj.c:194-208 | `"1//3"` reads as vertex 0, texture 2 and normal 0 |
| `ObjMesh.EmptyFieldKept` | src/obj.c:194-208 | with empty fields kept, `"1//3"` reads as vertex 0, texture 0 and normal 2 |
| `ObjMesh.CornerAsWritten` | src/obj.c:186-216 | no contract; specified by `ObjMesh.ReadFaceNums`, `ObjMesh.EmptyFieldShiftsAsWritten` and `ObjMesh.CornersAgree` |
| `ObjMesh.Corner` | src/obj.c:186-216 | no contract; specified by `ObjMesh.EmptyFieldKept` and `ObjMesh.CornersAgree` |
| `ObjMesh.ZeroFieldWraps` | src/obj.c:197-208 | a field `"0"` becomes index `2^32 - 1` |
| `ObjMesh.NextField` | src/obj.c:194-196 | one `strtok` call: the field returned is the next token, and the position moves past it |
| `ObjMesh.FieldsInOrder` | src/obj.c:194-196 | the three fields `read_face_nums` takes by successive `strtok` calls are its first three tokens |
| `ObjMesh.ReadFaceNums` | src/obj.c:186-216 | the corner is the as-written reading of the token, and the token is restored |
| `ObjMesh.RestoreSlashes` | src/obj.c:209-215 | every NUL `strtok` wrote is turned back into `/` |
| `ObjMesh.NumOfTriFaces` | src/obj.c:134-148 | a face line counts as two triangles exactly when it holds four spaces |
| `ObjMesh.TriFacesAsWritten` | src/obj.c:134-148 | no contract; specified by `ObjMesh.NumOfTriFaces`, `ObjMesh.JoinedFace` and `ObjMesh.TrailingSpaceFace` |
| `ObjMesh.FaceTriangles` | src/obj.c:218-248 | corrected corner reading: one triangle per face slot; a quad splits into `(0, 1, 3)` and `(1, 2, 3)`, which share the diagonal from corner 1 to corner 3, and anything else gives `(0, 1, 2)` |
| `ObjMesh.FaceTrianglesAsWritten` | src/obj.c:194-248 | the same triangles, each corner read as written by `read_face_nums` |
| `ObjMesh.FaceTrianglesAgree` | src/obj.c:194-248 | on a face none of whose corners has an empty field, the as-written and the corrected triangles are equal |
| `ObjMesh.EmptyFieldFace` | src/obj.c:194-248 | in `f 1//3 1//3 1//3` the first corner is `(0, 2, 0)` as written and `(0, 0, 2)` corrected |
| `ObjMesh.TriFaces` | src/obj.c:226-240 | no contract; specified by `ObjMesh.FaceTriangles` and `ObjMesh.JoinedFace` |
| `ObjMesh.JoinedFace` | src/obj.c:134-148 | with single spaces, counting spaces agrees with counting corners iff the face has at most four corners |
| `ObjMesh.TrailingSpaceFace` | src/obj.c:134-148 | with a trailing space, a triangle is counted as two and a quad as one |
| `ObjMesh.SplitLines` | src/obj.c:259 | the lines before the first NULL slot are exactly the pieces stored |
| `ObjMesh.LineAt` | src/obj.c:259 | every line before the first NULL slot is one of the lines read |
| `ObjMesh.FirstNull` | src/obj.c:259 | the loop stops at the first NULL slot |
| `ObjMesh.MeshOf` | src/obj.c:150-290 | corrected split, allocation and corner reading: the mesh read from the lines has one entry per line of each kind and one face slot per counted triangle, with a single zeroed slot for empty texture or normal data |
| `ObjMesh.MeshStore.constructor` | src/obj.c:298 | the `calloc`ed `mesh_t`: zero counts and no arrays |
| `ObjMesh.MeshStore.Allocate` | src/obj.c:173-183 | fresh zero-filled arrays of the requested sizes, with the counts unchanged |
| `ObjMesh.MeshStore.AllocArraysAsWritten` | src/obj.c:150-184 | counts every kind of line; the normals array has `normalCount` slots only if it already existed, and a single slot otherwise |
| `ObjMesh.MeshStore.AllocArrays` | src/obj.c:150-184 | counts every kind of line and allocates one slot per item, with one slot for an empty kind, and counts faces by their corners |
| `ObjMesh.MeshStore.ReadFace` | src/obj.c:218-248 | corrected corner reading: appends the face's triangles after the faces already read, and nothing else changes |
| `ObjMesh.MeshStore.ReadLine` | src/obj.c:261-287 | corrected corner reading: appends the item a line describes to the array of its kind, and nothing else changes |
| `ObjMesh.ParseV3` | src/obj.c:261-275 | no contract; `ObjMesh.MeshStore.ReadLine` stores its result for `v` and `vn` lines |
| `ObjMesh.ParseV2` | src/obj.c:277-283 | no contract; `ObjMesh.MeshStore.ReadLine` stores its result for `vt` lines |
| `ObjMesh.MeshStore.ReadArrays` | src/obj.c:250-290 | corrected allocation and corner reading: the counts are the numbers of lines of each kind, and every array holds the items of its kind in file order |
| `ObjMesh.MeshStore.ReadLines` | src/obj.c:259-289 | the loop reads every line up to the first NULL slot |
| `ObjMesh.StoredAll` | src/obj.c:259-289 | an array that stores as many items as it has slots holds exactly those items; one that stores none keeps its initial contents |
| `ObjMesh.FilledMesh` | src/obj.c:250-304 | arrays that hold every item of their kind, with zeroed spare slots, make up `MeshOf` the lines |
| `ObjMesh.LoadMesh` | src/obj.c:292-304 | corrected split, allocation and corner reading: the mesh loaded from a text is `MeshOf` its lines, and the faces fit their array |
| `ObjMesh.NormalsOverflowAsWritten` | src/obj.c:180-183 | two `vn` lines get one normal slot as written, while two are stored |
| `ObjMesh.SplitUnterminatedAsWritten` | src/obj.c:75 | the as-written line table of `"\na"` has no NULL slot to stop the reading loop |

## Left out

- Window, display and image creation (`mlx`) in `xgl_create_context`, and `xgl_present`: these are display I/O. The planes are modelled as two arrays.
- Reading the file (`_read_to_string`, src/obj.c:8-20): file I/O. `LoadMesh` takes the file's text.
- `error()` (src/obj.c:56-65): `ft_split` calls it only when a `calloc` for a piece fails. It frees the pieces and returns NULL. Allocation failure is not modelled, so this path is not reached.
- `calloc` and `malloc` failure: allocation is modelled as always succeeding and zero-filling. A NULL array is an array of length 0.
- `v3_norm`, `v2_length` and `v3_length` use a square root, and `atof`, `tan` and `mat4_rotation` use library floating point. `normalize`, `atof`, the rotation matrix and `fovRad` are parameters.
- `deg2rad` (src/math/utils.h:73) is reached only through `mat4_projection`, whose result `fovRad` is a parameter. `main.c`, which also calls it, is not modelled.
- `v3_to_v2i` (src/math/v3.h:22-25), which rounds with `round`, is called nowhere in the modelled files and is not modelled.
- `mat4_inv` and `read_mtl`: commented-out code.
- IEEE floating point: rounding, NaN and infinities are not modelled, since `float` is modelled as `real`.
- Raster.Prepare: uses the corrected `pint_v3`, which divides the normals' `z` too, where the source leaves it undivided. `Raster.PintV3AsWrittenSameImage` proves that the as-written normals change no fragment. `Raster.ConstantAttributes` therefore states the normal the shader receives under the correction only.
- V2i.Add, V2i.Sub: `int` overflow is not modelled, since the integers are unbounded. No modelled path reaches `v2i`.
- Utils.Div: division by zero yields 0 instead of an infinity or NaN.
- Color.ToByte: an out-of-range float-to-`unsigned char` conversion is undefined in C. It is modelled as truncation wrapped modulo 256.
- Color.Raw: the union is read as little-endian.
- The order in which C evaluates the arguments of a `v3(...)` call is unspecified; the model reads them left to right.
- Context.Context.constructor: the four matrices start as zero matrices. In the source they are whatever the caller's struct held until the first `xgl_load_*` call.
- The `k >= i` test in `ft_split`'s loop always holds, so its other branch is not modelled.
- `strtok`'s hidden static state is modelled as an explicit position, in `NextField`.
- `read_face` tokenises the line in place with `strtok` on spaces. It is modelled on values, as the tokens `Words`. The NULs it writes into the line table are not modelled, because no line is read again.
- ObjMesh.FaceTriangles, ObjMesh.MeshStore.ReadFace, ObjMesh.MeshStore.ReadLine, ObjMesh.MeshStore.ReadArrays, ObjMesh.MeshOf, ObjMesh.LoadMesh: these model the loader with the three corrections of "## Findings". They use the corrected `Corner`, which keeps empty fields, where `read_face_nums` skips them. They use the corrected `Split`, with its NULL terminator, and `AllocArrays`, which sizes the normals by their count and the faces by the corners. `ObjMesh.FaceTrianglesAgree` shows that the as-written corner reading gives the same triangles when no corner has an empty field, and `ObjMesh.EmptyFieldFace` shows one where it does not.
- ObjMesh.LoadMesh: requires every `v`, `vt`, `vn` and `f` line to carry the tokens the reading pass asks `strtok` for. On a shorter line the source passes NULL to `atof` or `read_face_nums`, which is undefined behaviour.
- ObjMesh.FieldIndex: models the wrap of the `uint32_t` index, but `atoi` past the range of `int` (undefined in C) is modelled as an unbounded integer.
- ObjMesh.MeshStore.AllocArrays: `mesh_t` declares the four counts as `uint32_t` (src/obj.h:17-25). The model's counts are unbounded, so their wrap modulo 2^32 is not modelled.
- Draw.Draw: requires every face index to be inside its array, since the source reads out of bounds otherwise. A file whose faces name missing vertices is not modelled.

## Findings

| source | as written | input that shows it | evidently intended | confidence | as-written member | corrected member |
|---|---|---|---|---|---|---|
| src/math/mat4.h:59-68 | `mat4_identity` sets only the diagonal of an uninitialised matrix | any stack contents with a non-zero off-diagonal entry | every off-diagonal entry zeroed | high; not executed | `Mat4.IdentityAsWritten`, `Mat4.IdentityAsWrittenNotNeutral` | `Mat4.Identity`, `Mat4.IdentityNeutral` |
| src/xgl_draw.c:26-34 | `pint_v3` divides `x` and `y` of each normal by the depth but not `z`, so interpolation multiplies `z` by the blended depth | normal `(0, 0, 1)` at all three vertices, depth 2: interpolates to `(0, 0, 2)` | all three components divided, so constant normals interpolate to themselves | medium (the shader reads only `n.x`, so the image is unaffected, as `Raster.PintV3AsWrittenSameImage` proves); not executed | `Raster.PintV3AsWritten`, `Raster.PintV3AsWrittenSkewsConstant` | `Raster.PintV3`, `Raster.PintV3Constant` |
| src/obj.c:180-183 | the size of the normals array is chosen by testing the pointer `mesh->normals`, which is NULL after `calloc`, so one slot is always allocated | a file with two `vn` lines: one slot, two writes | test `mesh->normalCount > 0` | high; not executed | `ObjMesh.MeshStore.AllocArraysAsWritten`, `ObjMesh.NormalsOverflowAsWritten` | `ObjMesh.MeshStore.AllocArrays`, `ObjMesh.LoadMesh` |
| src/obj.c:134-148 | `num_of_tri_faces` counts two triangles only when a line holds exactly four spaces, while `read_face` stores two whenever there is a fourth corner | `f 1 2 3 4 ` (trailing space) counts one slot and stores two; `f 1 2 3 4 5` likewise | count the corners, as the comment at src/obj.c:128-133 plans | high; not executed | `ObjMesh.NumOfTriFaces`, `ObjMesh.TrailingSpaceFace`, `ObjMesh.JoinedFace` | `ObjMesh.MeshStore.AllocArrays`, `ObjMesh.FaceTriangles` |
| src/obj.c:75 | `ft_split` allocates `count_words + 1` slots, one too few when the text starts with the separator and does not end with it, so the NULL terminator is lost | `"\na"` | one slot per piece plus a NULL terminator | high; not executed | `ObjText.SplitAsWritten`, `ObjText.SplitLosesTerminator`, `ObjMesh.SplitUnterminatedAsWritten` | `ObjText.Split`, `ObjMesh.SplitLines` |
| src/obj.c:194-208 | `strtok` on `/` skips empty fields, so in `v//vn` the normal index lands in the texture slot | `"1//3"` reads as `(0, 2, 0)` | `(0, 0, 2)`: vertex 1, no texture, normal 3 | high; not executed | `ObjMesh.ReadFaceNums`, `ObjMesh.EmptyFieldShiftsAsWritten`, `ObjMesh.FaceTrianglesAsWritten`, `ObjMesh.EmptyFieldFace` | `ObjMesh.EmptyFieldKept`, `ObjMesh.FaceTriangles`, `ObjMesh.FaceTrianglesAgree` |
