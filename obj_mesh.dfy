/** The OBJ mesh loader (src/obj.c, src/obj.h): how lines are classified,
    how face lines become triangles and corner indices, the counting pass
    `alloc_arrays`, the filling pass `read_arrays` and `mesh_load_from_obj`
    from the text of the file on. */
module ObjMesh {
  import V2
  import V3
  import Mesh
  import ObjText
  import opened Wrappers

  /** A `uint32_t` index wraps modulo 2^32. */
  const U32: int := 0x1_0000_0000

  // Line classification.

  datatype LineKind = VertexLine | TexCoordLine | NormalLine | FaceLine | OtherLine

  /** `strlen(line) > |p| && !strncmp(line, p, |p|)`. */
  predicate HasPrefix(line: string, p: string)
  {
    |line| > |p| && line[..|p|] == p
  }

  /** The tests of `alloc_arrays`, in its order. */
  function AllocKind(line: string): LineKind
  {
    if HasPrefix(line, "v ") then VertexLine
    else if HasPrefix(line, "vt ") then TexCoordLine
    else if HasPrefix(line, "vn ") then NormalLine
    else if HasPrefix(line, "f ") then FaceLine
    else OtherLine
  }

  /** The tests of `read_arrays`, which tries `"vn "` before `"vt "`. */
  function ReadKind(line: string): LineKind
  {
    if HasPrefix(line, "v ") then VertexLine
    else if HasPrefix(line, "vn ") then NormalLine
    else if HasPrefix(line, "vt ") then TexCoordLine
    else if HasPrefix(line, "f ") then FaceLine
    else OtherLine
  }

  /** The two passes put every line in the same class, since no line starts
      with both `"vt "` and `"vn "`. */
  lemma KindsAgree(line: string)
    ensures AllocKind(line) == ReadKind(line)
  {
    if HasPrefix(line, "vt ") {
      assert line[1] == 't';
    }
  }

  /** `line` from index `n` on, or nothing. */
  function Rest(line: string, n: nat): string
  {
    if n <= |line| then line[n..] else []
  }

  /** The token `strtok` returns at position `m`; the empty string stands
      for a NULL that a well-formed line never yields. */
  function TokenAt(ts: seq<string>, m: nat): string
  {
    if m < |ts| then ts[m] else []
  }

  /** The tokens of a line after its keyword of `skip` characters. */
  function Words(line: string, skip: nat): seq<string>
  {
    ObjText.Tokens(Rest(line, skip), ' ')
  }

  /** `v3(atof(…), atof(…), atof(…))` on the first three tokens of `s`,
      read left to right. */
  function ParseV3(line: string, skip: nat, atof: string -> real): V3.V3
  {
    var ts := Words(line, skip);
    V3.V3(atof(TokenAt(ts, 0)), atof(TokenAt(ts, 1)), atof(TokenAt(ts, 2)))
  }

  function ParseV2(line: string, skip: nat, atof: string -> real): V2.V2
  {
    var ts := Words(line, skip);
    V2.V2(atof(TokenAt(ts, 0)), atof(TokenAt(ts, 1)))
  }

  /** What `read_arrays` needs of a line to find every token it reads: three
      numbers after `"v "` and `"vn"`, two after `"vt "`, three corners
      after `"f "`. With fewer the source passes NULL on. */
  predicate LineWellFormed(line: string)
  {
    match ReadKind(line)
    case VertexLine => |Words(line, 2)| >= 3
    case NormalLine => |Words(line, 2)| >= 3
    case TexCoordLine => |Words(line, 3)| >= 2
    case FaceLine => |Words(line, 2)| >= 3
    case OtherLine => true
  }

  predicate WellFormed(ls: seq<string>)
  {
    forall m | 0 <= m < |ls| :: LineWellFormed(ls[m])
  }

  // Corner indices: `read_face_nums`.

  /** The field at position `m`, or NULL. */
  function Nth(fs: seq<string>, m: nat): Option<string>
  {
    if m < |fs| then Some(fs[m]) else None
  }

  /** One index of a corner: 0 for a missing or empty field, otherwise
      `atoi(field) - 1` stored in a `uint32_t`. */
  function FieldIndex(f: Option<string>): (r: nat)
    ensures r < U32
    ensures f.Some? && f.value != [] ==> r == (ObjText.Atoi(f.value) - 1) % U32
  {
    if f.None? || f.value == [] then 0 else (ObjText.Atoi(f.value) - 1) % U32
  }

  /** The corner `read_face_nums` reads from a token such as `"3/1/2"`: its
      fields are the successive `strtok(…, "/")` tokens, so an empty field
      is skipped and the next one moves into its slot. */
  function CornerAsWritten(token: string): Mesh.Corner
  {
    var fs := ObjText.Tokens(token, '/');
    Mesh.Corner(FieldIndex(Nth(fs, 0)), FieldIndex(Nth(fs, 1)), FieldIndex(Nth(fs, 2)))
  }

  /** The corner the OBJ format means: the fields between the slashes, an
      empty one (as in `"3//2"`, no texture coordinate) counting as absent. */
  function Corner(token: string): Mesh.Corner
  {
    var fs := ObjText.Pieces(token, '/');
    Mesh.Corner(FieldIndex(Nth(fs, 0)), FieldIndex(Nth(fs, 1)), FieldIndex(Nth(fs, 2)))
  }

  /** The two readings agree on every token without an empty field. */
  lemma CornersAgree(token: string)
    requires forall m | 0 <= m < |ObjText.Pieces(token, '/')| :: ObjText.Pieces(token, '/')[m] != []
    ensures CornerAsWritten(token) == Corner(token)
  {
    ObjText.TokensAreNonEmptyPieces(token, '/');
    NonEmptyKeepsAll(ObjText.Pieces(token, '/'));
  }

  lemma {:induction false} NonEmptyKeepsAll(ps: seq<string>)
    requires forall m | 0 <= m < |ps| :: ps[m] != []
    ensures ObjText.NonEmpty(ps) == ps
    decreases |ps|
  {
    if |ps| > 0 {
      NonEmptyKeepsAll(ps[1..]);
      assert ps == [ps[0]] + ps[1..];
    }
  }

  /** The token `"1//3"` (vertex 1, no texture coordinate, normal 3): as
      written its normal index lands in the texture slot and the normal slot
      reads 0. */
  lemma EmptyFieldShiftsAsWritten()
    ensures CornerAsWritten("1//3") == Mesh.Corner(0, 2, 0)
  {
    OneAndThree();
    var s := "1//3";
    TokensField(s, '/', 1);
    assert s[..1] == "1" && ObjText.Tail(s, 2) == "/3";
    TokensSkip("/3", '/', 1);
    assert "/3"[1..] == "3";
    TokensField("3", '/', 1);
    assert "3"[..1] == "3" && ObjText.Tail("3", 2) == [];
  }

  /** Read field by field, the same token has its normal in the normal
      slot. */
  lemma EmptyFieldKept()
    ensures Corner("1//3") == Mesh.Corner(0, 0, 2)
  {
    OneAndThree();
    SlashPieces();
    assert FieldIndex(Some("")) == 0;
  }

  lemma SlashPieces()
    ensures ObjText.Pieces("1//3", '/') == ["1", "", "3"]
  {
    SlashThreePieces();
    var s := "1//3";
    assert s[0..] == s && s[0..1] == "1" && ObjText.Tail(s, 2) == "/3";
    ObjText.PiecesStep(s, '/', 0, 1);
  }

  lemma SlashThreePieces()
    ensures ObjText.Pieces("/3", '/') == ["", "3"]
  {
    ThreePieces();
    var t := "/3";
    assert t[0..] == t && t[0..0] == "" && ObjText.Tail(t, 1) == "3";
    ObjText.PiecesStep(t, '/', 0, 0);
  }

  lemma ThreePieces()
    ensures ObjText.Pieces("3", '/') == ["3"]
  {
    var u := "3";
    assert u[0..] == u && u[0..1] == "3" && ObjText.Tail(u, 2) == [];
    ObjText.PiecesStep(u, '/', 0, 1);
  }

  lemma OneAndThree()
    ensures ObjText.Atoi("1") == 1 && ObjText.Atoi("3") == 3
  {
    ObjText.AtoiDecimal(1);
    ObjText.AtoiDecimal(3);
    assert ObjText.Decimal(1) == "1" && ObjText.Decimal(3) == "3";
  }

  /** A field holding `k + 1` gives index `k`. */
  lemma FieldIndexOfNumeral(k: nat)
    requires k + 1 < U32
    ensures FieldIndex(Some(ObjText.Decimal(k + 1))) == k
  {
    ObjText.AtoiDecimal(k + 1);
  }

  /** A field holding `0` wraps to the largest `uint32_t`. */
  lemma ZeroFieldWraps()
    ensures FieldIndex(Some("0")) == U32 - 1
  {
    ObjText.AtoiDecimal(0);
    assert ObjText.Decimal(0) == "0";
  }

  /** The tokens of `Some(f)` or of NULL. */
  function Opt(f: Option<string>): seq<string>
  {
    if f.Some? then [f.value] else []
  }

  /** One `strtok(…, "/")` call on the token held in `a` (a C string of
      `a.Length` characters), resuming at `pos`: it skips the slashes there,
      returns the field that follows and writes `'\0'` over the slash that
      ends it. `next` is where the following call resumes; nothing from
      there on changes, and the only change is one slash to `'\0'`. */
  method NextField(a: array<char>, pos: nat) returns (field: Option<string>, next: nat)
    requires pos <= a.Length
    modifies a
    ensures pos <= next <= a.Length
    ensures ObjText.Tokens(old(a[pos..]), '/') == Opt(field) + ObjText.Tokens(old(a[next..]), '/')
    ensures field.None? ==> next == a.Length
    ensures a[next..] == old(a[next..])
    ensures Nulled(a[..], old(a[..]))
  {
    var start, end := FieldBounds(a, pos);
    FieldTokens(a[..], pos, start, end);
    if start == a.Length {
      return None, start;
    }
    field := Some(a[start..end]);
    if end < a.Length {
      ghost var s := a[..];
      a[end] := '\0';
      assert a[..] == s[end := '\0'];
      assert a[end + 1..] == s[end + 1..];
      next := end + 1;
    } else {
      next := end;
    }
  }

  /** The tokens from `pos` on, for the bounds `FieldBounds` finds: none
      when only slashes are left, otherwise the field and then the tokens
      after the slash that ends it. */
  lemma FieldTokens(s: string, pos: nat, start: nat, end: nat)
    requires pos <= start <= end <= |s|
    requires forall j | pos <= j < start :: s[j] == '/'
    requires start == |s| || (s[start] != '/' && start < end)
    requires forall j | start <= j < end :: s[j] != '/'
    requires end == |s| || s[end] == '/'
    ensures start == |s| ==> ObjText.Tokens(s[pos..], '/') == []
    ensures start < |s| ==>
      ObjText.Tokens(s[pos..], '/') == [s[start..end]] + ObjText.Tokens(s[if end < |s| then end + 1 else end..], '/')
  {
    var t := s[pos..];
    forall m | 0 <= m < start - pos
      ensures t[m] == '/'
    {
      assert t[m] == s[pos + m];
    }
    TokensSkip(t, '/', start - pos);
    assert t[start - pos..] == s[start..];
    if start < |s| {
      FieldFirst(s, start, end);
      assert ObjText.Tail(s, end + 1) == s[if end < |s| then end + 1 else end..];
    }
  }

  lemma FieldFirst(s: string, start: nat, end: nat)
    requires start < end <= |s|
    requires forall j | start <= j < end :: s[j] != '/'
    requires end == |s| || s[end] == '/'
    ensures ObjText.Tokens(s[start..], '/') == [s[start..end]] + ObjText.Tokens(ObjText.Tail(s, end + 1), '/')
  {
    var u, k := s[start..], end - start;
    forall m | 0 <= m < k
      ensures u[m] != '/'
    {
      assert u[m] == s[start + m];
    }
    TokensField(u, '/', k);
    assert u[..k] == s[start..end] && ObjText.Tail(u, k + 1) == ObjText.Tail(s, end + 1);
  }

  /** Where the field starting the search at `pos` lies: the slashes in
      `a[pos..start]` are skipped, `a[start..end]` holds no slash, and a
      slash or the end follows it. */
  method FieldBounds(a: array<char>, pos: nat) returns (start: nat, end: nat)
    requires pos <= a.Length
    ensures pos <= start <= end <= a.Length
    ensures forall j | pos <= j < start :: a[j] == '/'
    ensures start == a.Length || (a[start] != '/' && start < end)
    ensures forall j | start <= j < end :: a[j] != '/'
    ensures end == a.Length || a[end] == '/'
  {
    start := pos;
    while start < a.Length && a[start] == '/'
      invariant pos <= start <= a.Length
      invariant forall j | pos <= j < start :: a[j] == '/'
    {
      start := start + 1;
    }
    end := start;
    while end < a.Length && a[end] != '/'
      invariant start <= end <= a.Length
      invariant forall j | start <= j < end :: a[j] != '/'
    {
      end := end + 1;
    }
  }

  /** Leading separators do not change the tokens. */
  lemma {:induction false} TokensSkip(s: string, d: char, j: nat)
    requires j <= |s| && forall m | 0 <= m < j :: s[m] == d
    ensures ObjText.Tokens(s, d) == ObjText.Tokens(s[j..], d)
    decreases j
  {
    if j > 0 {
      TokensSkip(s[1..], d, j - 1);
      assert s[1..][j - 1..] == s[j..];
    }
  }

  /** A field of `k > 0` characters ending at a separator or at the end is
      the first token. */
  lemma TokensField(s: string, d: char, k: nat)
    requires 0 < k <= |s| && (forall m | 0 <= m < k :: s[m] != d) && (k == |s| || s[k] == d)
    ensures ObjText.Tokens(s, d) == [s[..k]] + ObjText.Tokens(ObjText.Tail(s, k + 1), d)
  {
    ObjText.FindUnique(s, d, k);
  }

  /** The first three tokens are the three fields returned in order, a NULL
      meaning that no token is left. */
  lemma FieldsInOrder(t0: seq<string>, t1: seq<string>, t2: seq<string>, r: seq<string>,
                      f0: Option<string>, f1: Option<string>, f2: Option<string>)
    requires t0 == Opt(f0) + t1 && t1 == Opt(f1) + t2 && t2 == Opt(f2) + r
    requires (f0.None? ==> t1 == []) && (f1.None? ==> t2 == []) && (f2.None? ==> r == [])
    ensures Nth(t0, 0) == f0 && Nth(t0, 1) == f1 && Nth(t0, 2) == f2
  {
  }

  /** `now` is `before` with some slashes overwritten by `'\0'`. */
  ghost predicate Nulled(now: seq<char>, before: seq<char>)
  {
    |now| == |before| &&
    forall q | 0 <= q < |now| :: now[q] == before[q] || (before[q] == '/' && now[q] == '\0')
  }

  lemma NulledTwice(a: seq<char>, b: seq<char>, c: seq<char>)
    requires Nulled(b, a) && Nulled(c, b)
    ensures Nulled(c, a)
  {
  }

  /** The three fields of three successive calls, each resuming where the
      previous one stopped on a text that is unchanged from there on, are
      the first three tokens of the original token. */
  lemma ThreeFields(orig: string, a1: string, a2: string, p1: nat, p2: nat, p3: nat,
                    f0: Option<string>, f1: Option<string>, f2: Option<string>)
    requires p1 <= p2 <= p3 <= |orig| == |a1| == |a2|
    requires ObjText.Tokens(orig, '/') == Opt(f0) + ObjText.Tokens(orig[p1..], '/')
    requires a1[p1..] == orig[p1..]
    requires ObjText.Tokens(a1[p1..], '/') == Opt(f1) + ObjText.Tokens(a1[p2..], '/')
    requires a2[p2..] == a1[p2..]
    requires ObjText.Tokens(a2[p2..], '/') == Opt(f2) + ObjText.Tokens(a2[p3..], '/')
    requires (f0.None? ==> p1 == |orig|) && (f1.None? ==> p2 == |orig|) && (f2.None? ==> p3 == |orig|)
    ensures Nth(ObjText.Tokens(orig, '/'), 0) == f0
    ensures Nth(ObjText.Tokens(orig, '/'), 1) == f1
    ensures Nth(ObjText.Tokens(orig, '/'), 2) == f2
  {
    assert a1[p2..] == orig[p2..] by {
      assert a1[p1..][p2 - p1..] == a1[p2..];
      assert orig[p1..][p2 - p1..] == orig[p2..];
    }
    assert a2[p3..] == orig[p3..] by {
      assert a2[p2..][p3 - p2..] == a2[p3..];
      assert orig[p2..][p3 - p2..] == orig[p3..];
    }
    FieldsInOrder(ObjText.Tokens(orig, '/'), ObjText.Tokens(orig[p1..], '/'),
                  ObjText.Tokens(orig[p2..], '/'), ObjText.Tokens(orig[p3..], '/'), f0, f1, f2);
  }

  /** `read_face_nums` on one corner token (a C string, so without `'\0'`)
      as written: three `strtok(…, "/")` calls, the three indices, then the
      loop that turns every `'\0'` back into `'/'`, so the token is left as
      it was and can be read again. */
  method ReadFaceNums(token: array<char>) returns (corner: Mesh.Corner)
    requires forall q | 0 <= q < token.Length :: token[q] != '\0'
    modifies token
    ensures corner == CornerAsWritten(old(token[..]))
    ensures token[..] == old(token[..])
  {
    ghost var orig := token[..];
    assert orig[0..] == orig;
    var sv, p1 := NextField(token, 0);
    ghost var a1 := token[..];
    var svt, p2 := NextField(token, p1);
    ghost var a2 := token[..];
    var svn, p3 := NextField(token, p2);
    ThreeFields(orig, a1, a2, p1, p2, p3, sv, svt, svn);
    corner := Mesh.Corner(FieldIndex(sv), FieldIndex(svt), FieldIndex(svn));
    NulledTwice(orig, a1, a2);
    NulledTwice(orig, a2, token[..]);
    RestoreSlashes(token, orig);
  }

  /** The loop at the end of `read_face_nums`: every `'\0'` below the
      length becomes `'/'` again. */
  method RestoreSlashes(token: array<char>, ghost orig: string)
    requires Nulled(token[..], orig) && forall q | 0 <= q < |orig| :: orig[q] != '\0'
    modifies token
    ensures token[..] == orig
  {
    var i := 0;
    while i < token.Length
      invariant 0 <= i <= token.Length
      invariant forall q | 0 <= q < i :: token[q] == orig[q]
      invariant forall q | i <= q < token.Length :: token[q] == orig[q] || (orig[q] == '/' && token[q] == '\0')
    {
      if token[i] == '\0' {
        token[i] := '/';
      }
      i := i + 1;
    }
  }

  // Faces: `num_of_tri_faces` and `read_face`.

  /** The face slots `num_of_tri_faces` counts for a line: 2 when the whole
      line holds exactly four spaces, otherwise 1. */
  function TriFacesAsWritten(line: string): nat
  {
    if multiset(line)[' '] == 4 then 2 else 1
  }

  /** `num_of_tri_faces`: counts the spaces of the line. */
  method NumOfTriFaces(line: string) returns (n: nat)
    ensures n == TriFacesAsWritten(line)
    ensures n == 2 <==> multiset(line)[' '] == 4
  {
    var spaces := 0;
    var i := 0;
    while i < |line|
      invariant 0 <= i <= |line|
      invariant spaces == multiset(line[..i])[' ']
    {
      ObjText.CountStep(line, ' ', i);
      if line[i] == ' ' {
        spaces := spaces + 1;
      }
      i := i + 1;
    }
    assert line[..i] == line;
    if spaces == 4 {
      return 2;
    }
    return 1;
  }

  /** The face slots `read_face` fills for a face line: 2 when the text
      after `"f "` has a fourth token, otherwise 1. */
  function TriFaces(line: string): nat
  {
    if |Words(line, 2)| >= 4 then 2 else 1
  }

  /** The triangles `read_face` stores for a face line, its corners read
      with `Corner`. A quad `s0 s1 s2 s3` is cut along the diagonal from
      `s1` to `s3` into `(s0, s1, s3)` and `(s1, s2, s3)`, both in the
      quad's own winding; a line of three tokens is one triangle; tokens past
      the fourth are ignored. */
  function FaceTriangles(line: string): (fs: seq<Mesh.Face>)
    ensures |fs| == TriFaces(line)
    ensures |fs| == 2 ==> fs[0].c1 == fs[1].c0 && fs[0].c2 == fs[1].c2
    ensures var ts := Words(line, 2);
      if |ts| >= 4 then
        fs[0] == Mesh.Face(Corner(ts[0]), Corner(ts[1]), Corner(ts[3])) &&
        fs[1] == Mesh.Face(Corner(ts[1]), Corner(ts[2]), Corner(ts[3]))
      else
        fs[0] == Mesh.Face(Corner(TokenAt(ts, 0)), Corner(TokenAt(ts, 1)), Corner(TokenAt(ts, 2)))
  {
    var ts := Words(line, 2);
    var c0, c1, c2 := Corner(TokenAt(ts, 0)), Corner(TokenAt(ts, 1)), Corner(TokenAt(ts, 2));
    if |ts| >= 4 then
      var c3 := Corner(ts[3]);
      [Mesh.Face(c0, c1, c3), Mesh.Face(c1, c2, c3)]
    else
      [Mesh.Face(c0, c1, c2)]
  }

  /** The triangles `read_face` stores as written: the same cut, each corner
      read by `read_face_nums`, whose `strtok` skips an empty field
      (`CornerAsWritten`). */
  function FaceTrianglesAsWritten(line: string): (fs: seq<Mesh.Face>)
    ensures |fs| == TriFaces(line)
    ensures var ts := Words(line, 2);
      if |ts| >= 4 then
        fs[0] == Mesh.Face(CornerAsWritten(ts[0]), CornerAsWritten(ts[1]), CornerAsWritten(ts[3])) &&
        fs[1] == Mesh.Face(CornerAsWritten(ts[1]), CornerAsWritten(ts[2]), CornerAsWritten(ts[3]))
      else
        fs[0] == Mesh.Face(CornerAsWritten(TokenAt(ts, 0)), CornerAsWritten(TokenAt(ts, 1)), CornerAsWritten(TokenAt(ts, 2)))
  {
    var ts := Words(line, 2);
    var c0, c1, c2 := CornerAsWritten(TokenAt(ts, 0)), CornerAsWritten(TokenAt(ts, 1)), CornerAsWritten(TokenAt(ts, 2));
    if |ts| >= 4 then
      var c3 := CornerAsWritten(ts[3]);
      [Mesh.Face(c0, c1, c3), Mesh.Face(c1, c2, c3)]
    else
      [Mesh.Face(c0, c1, c2)]
  }

  /** A corner token none of whose `/`-separated fields is empty. */
  predicate NoEmptyField(token: string)
  {
    forall m | 0 <= m < |ObjText.Pieces(token, '/')| :: ObjText.Pieces(token, '/')[m] != []
  }

  /** On a face none of whose corners has an empty field, the faces stored
      as written and the faces read field by field are the same. */
  lemma FaceTrianglesAgree(line: string)
    requires |Words(line, 2)| >= 3
    requires forall m | 0 <= m < |Words(line, 2)| :: NoEmptyField(Words(line, 2)[m])
    ensures FaceTrianglesAsWritten(line) == FaceTriangles(line)
  {
    var ts := Words(line, 2);
    CornersAgree(ts[0]);
    CornersAgree(ts[1]);
    CornersAgree(ts[2]);
    if |ts| >= 4 {
      CornersAgree(ts[3]);
    }
  }

  /** The face `"f 1//3 1//3 1//3"`: as written its first corner has the
      normal index in the texture slot; read field by field it has it in the
      normal slot. */
  lemma EmptyFieldFace()
    ensures FaceTrianglesAsWritten("f 1//3 1//3 1//3")[0].c0 == Mesh.Corner(0, 2, 0)
    ensures FaceTriangles("f 1//3 1//3 1//3")[0].c0 == Mesh.Corner(0, 0, 2)
  {
    var ws := ["1//3", "1//3", "1//3"];
    TokensOfJoin(ws);
    assert ObjText.Join(ws, ' ') == "1//3 1//3 1//3";
    assert Rest("f 1//3 1//3 1//3", 2) == "1//3 1//3 1//3";
    EmptyFieldShiftsAsWritten();
    EmptyFieldKept();
  }

  /** A token `strtok(…, " ")` can return: non-empty, without a space. */
  predicate IsWord(w: string)
  {
    |w| > 0 && ' ' !in w
  }

  /** A word followed by one space is the first token. */
  lemma TokensWord(w: string, rest: string)
    requires IsWord(w)
    ensures ObjText.Tokens(w + " " + rest, ' ') == [w] + ObjText.Tokens(rest, ' ')
  {
    var s := w + " " + rest;
    forall m | 0 <= m < |w|
      ensures s[m] != ' '
    {
      assert s[m] == w[m];
    }
    TokensField(s, ' ', |w|);
    assert s[..|w|] == w && ObjText.Tail(s, |w| + 1) == rest;
  }

  /** Words written with one space between them are read back as tokens,
      with or without a space after the last. */
  lemma {:induction false} TokensOfJoin(ws: seq<string>)
    requires |ws| > 0 && forall m | 0 <= m < |ws| :: IsWord(ws[m])
    ensures ObjText.Tokens(ObjText.Join(ws, ' '), ' ') == ws
    ensures ObjText.Tokens(ObjText.Join(ws, ' ') + " ", ' ') == ws
    decreases |ws|
  {
    var w := ws[0];
    TokensWord(w, "");
    assert w + " " + "" == w + " ";
    if |ws| == 1 {
      TokensField(w, ' ', |w|);
      assert w[..|w|] == w && ObjText.Tail(w, |w| + 1) == [];
    } else {
      var rest := ObjText.Join(ws[1..], ' ');
      TokensOfJoin(ws[1..]);
      assert ObjText.Join(ws, ' ') == w + " " + rest;
      TokensWord(w, rest);
      TokensWord(w, rest + " ");
      assert w + " " + rest + " " == w + " " + (rest + " ");
      assert ws == [w] + ws[1..];
    }
  }

  /** Words written with one space between them hold one space fewer than
      there are words. */
  lemma {:induction false} SpacesOfJoin(ws: seq<string>)
    requires |ws| > 0 && forall m | 0 <= m < |ws| :: IsWord(ws[m])
    ensures multiset(ObjText.Join(ws, ' '))[' '] == |ws| - 1
    decreases |ws|
  {
    assert multiset(ws[0])[' '] == 0;
    if |ws| > 1 {
      SpacesOfJoin(ws[1..]);
      assert ObjText.Join(ws, ' ') == ws[0] + " " + ObjText.Join(ws[1..], ' ');
    }
  }

  /** A face line written with single spaces, `"f v1 v2 … vk"`: as written
      two slots are counted exactly for four corners, and `read_face` stores
      two triangles for four corners or more, so the counts agree exactly
      when the face has at most four corners. */
  lemma JoinedFace(ws: seq<string>)
    requires |ws| >= 3 && forall m | 0 <= m < |ws| :: IsWord(ws[m])
    ensures TriFacesAsWritten("f " + ObjText.Join(ws, ' ')) == (if |ws| == 4 then 2 else 1)
    ensures TriFaces("f " + ObjText.Join(ws, ' ')) == (if |ws| >= 4 then 2 else 1)
    ensures TriFacesAsWritten("f " + ObjText.Join(ws, ' ')) == TriFaces("f " + ObjText.Join(ws, ' ')) <==> |ws| <= 4
  {
    var body := ObjText.Join(ws, ' ');
    SpacesOfJoin(ws);
    TokensOfJoin(ws);
    assert Rest("f " + body, 2) == body;
    assert multiset("f ")[' '] == 1;
  }

  /** The same line with a space after its last corner, as in
      `"f 1 2 3 4 "`: the extra space makes a quad count one slot while
      `read_face` stores two triangles, and a triangle count two slots for
      the one it stores. */
  lemma TrailingSpaceFace(ws: seq<string>)
    requires |ws| >= 3 && forall m | 0 <= m < |ws| :: IsWord(ws[m])
    ensures TriFacesAsWritten("f " + ObjText.Join(ws, ' ') + " ") == (if |ws| == 3 then 2 else 1)
    ensures TriFaces("f " + ObjText.Join(ws, ' ') + " ") == (if |ws| >= 4 then 2 else 1)
  {
    TrailingSpaces(ws);
    TrailingWords("f ", ws);
  }

  /** The spaces of `"f v1 … vk "`: one per corner and one more. */
  lemma TrailingSpaces(ws: seq<string>)
    requires |ws| > 0 && forall m | 0 <= m < |ws| :: IsWord(ws[m])
    ensures multiset("f " + ObjText.Join(ws, ' ') + " ")[' '] == |ws| + 1
  {
    var j := ObjText.Join(ws, ' ');
    SpacesOfJoin(ws);
    assert multiset("f " + j + " ") == multiset("f ") + multiset(j) + multiset(" ");
    assert multiset("f ")[' '] == 1 && multiset(" ")[' '] == 1;
  }

  /** The words after a two-letter keyword, as in `"f v1 … vk "`, are the
      corners. */
  lemma TrailingWords(key: string, ws: seq<string>)
    requires |key| == 2 && |ws| > 0 && forall m | 0 <= m < |ws| :: IsWord(ws[m])
    ensures Words(key + ObjText.Join(ws, ' ') + " ", 2) == ws
  {
    var j := ObjText.Join(ws, ' ');
    var t := j + " ";
    assert key + j + " " == key + t;
    assert Rest(key + t, 2) == t;
    TokensOfJoin(ws);
  }

  // The lines of the file.

  /** How many slots of the line array come before the first NULL. */
  function LineCount(ls: seq<Option<string>>): (k: nat)
    ensures k <= |ls|
  {
    if |ls| == 0 || ls[0].None? then 0 else 1 + LineCount(ls[1..])
  }

  /** The lines the loops `while (lines[i])` visit. */
  function Lines(ls: seq<Option<string>>): (r: seq<string>)
    ensures |r| == LineCount(ls)
  {
    if |ls| == 0 || ls[0].None? then [] else [ls[0].value] + Lines(ls[1..])
  }

  /** Slot `m` before the first NULL holds line `m`. */
  lemma {:induction false} LineAt(ls: seq<Option<string>>, m: nat)
    requires m < LineCount(ls)
    ensures ls[m] == Some(Lines(ls)[m])
    decreases m
  {
    if m > 0 {
      LineAt(ls[1..], m - 1);
    }
  }

  /** A NULL slot no later than the first NULL is the first NULL. */
  lemma {:induction false} FirstNull(ls: seq<Option<string>>, i: nat)
    requires i <= LineCount(ls) && i < |ls| && ls[i].None?
    ensures i == LineCount(ls)
    decreases i
  {
    if i > 0 {
      FirstNull(ls[1..], i - 1);
    }
  }

  /** The slot after the lines, when there is one, is NULL. */
  lemma {:induction false} NullAtCount(ls: seq<Option<string>>)
    ensures LineCount(ls) < |ls| ==> ls[LineCount(ls)].None?
  {
    if |ls| > 0 && ls[0].Some? {
      NullAtCount(ls[1..]);
    }
  }

  /** An array without a NULL slot has all its slots before the first NULL. */
  lemma {:induction false} NoNull(ls: seq<Option<string>>)
    requires forall m | 0 <= m < |ls| :: ls[m].Some?
    ensures LineCount(ls) == |ls|
  {
    if |ls| > 0 {
      assert forall m | 0 <= m < |ls| - 1 :: ls[1..][m] == ls[m + 1];
      NoNull(ls[1..]);
    }
  }

  /** A NULL slot ends the array, so `while (lines[i])` stays inside it. */
  predicate Terminated(ls: seq<Option<string>>)
  {
    LineCount(ls) < |ls|
  }

  /** The array `ft_split` returns when it has a slot for the terminator
      holds the pieces and is terminated. */
  lemma {:induction false} SplitLines(ls: seq<Option<string>>, ps: seq<string>)
    requires |ps| < |ls| && ls[|ps|] == None
    requires forall m | 0 <= m < |ps| :: ls[m] == Some(ps[m])
    ensures LineCount(ls) == |ps| && Lines(ls) == ps
    decreases |ps|
  {
    if |ps| > 0 {
      assert ls[0] == Some(ps[0]);
      forall m | 0 <= m < |ps| - 1
        ensures ls[1..][m] == Some(ps[1..][m])
      {
        assert ls[m + 1] == Some(ps[m + 1]);
      }
      SplitLines(ls[1..], ps[1..]);
      assert ps == [ps[0]] + ps[1..];
    }
  }

  /** How many lines of each kind `alloc_arrays` counts. */
  function CountKind(ls: seq<string>, kind: LineKind): (n: nat)
    ensures n <= |ls|
  {
    if |ls| == 0 then 0
    else CountKind(ls[..|ls| - 1], kind) + (if AllocKind(ls[|ls| - 1]) == kind then 1 else 0)
  }

  /** The face slots `alloc_arrays` counts. */
  function FaceSlotsAsWritten(ls: seq<string>): nat
  {
    if |ls| == 0 then 0
    else
      var line := ls[|ls| - 1];
      FaceSlotsAsWritten(ls[..|ls| - 1]) + (if AllocKind(line) == FaceLine then TriFacesAsWritten(line) else 0)
  }

  /** The face slots `read_arrays` fills. */
  function FaceSlots(ls: seq<string>): nat
  {
    if |ls| == 0 then 0
    else
      var line := ls[|ls| - 1];
      FaceSlots(ls[..|ls| - 1]) + (if AllocKind(line) == FaceLine then TriFaces(line) else 0)
  }

  /** Counting one more line adds what that line counts for. */
  lemma CountNext(ls: seq<string>, i: nat)
    requires i < |ls|
    ensures forall kind ::
      CountKind(ls[..i + 1], kind) == CountKind(ls[..i], kind) + (if AllocKind(ls[i]) == kind then 1 else 0)
    ensures FaceSlotsAsWritten(ls[..i + 1]) ==
      FaceSlotsAsWritten(ls[..i]) + (if AllocKind(ls[i]) == FaceLine then TriFacesAsWritten(ls[i]) else 0)
    ensures FaceSlots(ls[..i + 1]) ==
      FaceSlots(ls[..i]) + (if AllocKind(ls[i]) == FaceLine then TriFaces(ls[i]) else 0)
  {
    assert ls[..i + 1][..i] == ls[..i] && ls[..i + 1][i] == ls[i];
  }

  lemma {:induction false} CountKindPrefix(ls: seq<string>, kind: LineKind, j: nat)
    requires j <= |ls|
    ensures CountKind(ls[..j], kind) <= CountKind(ls, kind)
    decreases |ls|
  {
    if j < |ls| {
      var init := ls[..|ls| - 1];
      CountKindPrefix(init, kind, j);
      assert init[..j] == ls[..j];
    } else {
      assert ls[..j] == ls;
    }
  }

  lemma {:induction false} FaceSlotsPrefix(ls: seq<string>, j: nat)
    requires j <= |ls|
    ensures FaceSlots(ls[..j]) <= FaceSlots(ls)
    decreases |ls|
  {
    if j < |ls| {
      var init := ls[..|ls| - 1];
      FaceSlotsPrefix(init, j);
      assert init[..j] == ls[..j];
    } else {
      assert ls[..j] == ls;
    }
  }

  /** What `read_arrays` stores for one line, per array. */
  function VertexItems(line: string, atof: string -> real): seq<V3.V3>
  {
    if ReadKind(line) == VertexLine then [ParseV3(line, 2, atof)] else []
  }

  function NormalItems(line: string, atof: string -> real): seq<V3.V3>
  {
    if ReadKind(line) == NormalLine then [ParseV3(line, 2, atof)] else []
  }

  function TexCoordItems(line: string, atof: string -> real): seq<V2.V2>
  {
    if ReadKind(line) == TexCoordLine then [ParseV2(line, 3, atof)] else []
  }

  function FaceItems(line: string): seq<Mesh.Face>
  {
    if ReadKind(line) == FaceLine then FaceTriangles(line) else []
  }

  /** The vertices of the file in order, one per line `alloc_arrays` counted. */
  function VerticesOf(ls: seq<string>, atof: string -> real): (vs: seq<V3.V3>)
    ensures |vs| == CountKind(ls, VertexLine)
  {
    if |ls| == 0 then []
    else
      KindsAgree(ls[|ls| - 1]);
      VerticesOf(ls[..|ls| - 1], atof) + VertexItems(ls[|ls| - 1], atof)
  }

  function NormalsOf(ls: seq<string>, atof: string -> real): (ns: seq<V3.V3>)
    ensures |ns| == CountKind(ls, NormalLine)
  {
    if |ls| == 0 then []
    else
      KindsAgree(ls[|ls| - 1]);
      NormalsOf(ls[..|ls| - 1], atof) + NormalItems(ls[|ls| - 1], atof)
  }

  function TexCoordsOf(ls: seq<string>, atof: string -> real): (ts: seq<V2.V2>)
    ensures |ts| == CountKind(ls, TexCoordLine)
  {
    if |ls| == 0 then []
    else
      KindsAgree(ls[|ls| - 1]);
      TexCoordsOf(ls[..|ls| - 1], atof) + TexCoordItems(ls[|ls| - 1], atof)
  }

  /** The triangles of the file in order, as many as `FaceSlots` counts. */
  function FacesOf(ls: seq<string>): (fs: seq<Mesh.Face>)
    ensures |fs| == FaceSlots(ls)
  {
    if |ls| == 0 then []
    else
      KindsAgree(ls[|ls| - 1]);
      FacesOf(ls[..|ls| - 1]) + FaceItems(ls[|ls| - 1])
  }

  /** The mesh `mesh_load_from_obj` builds from the lines of a file: the
      points in file order, a single zeroed slot standing in for an empty
      texture-coordinate or normal array, and the triangles. */
  function MeshOf(ls: seq<string>, atof: string -> real): (r: Mesh.Mesh)
    ensures |r.vertices| == CountKind(ls, VertexLine)
    ensures |r.texCoords| == Slots(CountKind(ls, TexCoordLine))
    ensures r.normalCount == CountKind(ls, NormalLine) && |r.normals| == Slots(r.normalCount)
    ensures |r.faces| == FaceSlots(ls)
  {
    var ts, ns := TexCoordsOf(ls, atof), NormalsOf(ls, atof);
    Mesh.Mesh(VerticesOf(ls, atof),
              if |ts| > 0 then ts else [V2.V2(0.0, 0.0)],
              if |ns| > 0 then ns else [V3.V3(0.0, 0.0, 0.0)],
              CountKind(ls, NormalLine),
              FacesOf(ls))
  }

  /** `calloc(count)` when the count is positive, otherwise `calloc(1)`. */
  function Slots(count: nat): nat
  {
    if count > 0 then count else 1
  }

  /** `s` with `xs` written from slot `at` on. */
  function Put<T>(s: seq<T>, at: nat, xs: seq<T>): (r: seq<T>)
    requires at + |xs| <= |s|
    ensures |r| == |s|
  {
    s[..at] + xs + s[at + |xs|..]
  }

  lemma PutNothing<T>(s: seq<T>, at: nat)
    requires at <= |s|
    ensures Put(s, at, []) == s
  {
    assert s[..at] + [] + s[at..] == s;
  }

  lemma PutOne<T>(s: seq<T>, at: nat, x: T)
    requires at < |s|
    ensures Put(s, at, [x]) == s[at := x]
  {
    assert s[..at] + [x] + s[at + 1..] == s[at := x];
  }

  lemma PutTwo<T>(s: seq<T>, at: nat, xs: seq<T>)
    requires |xs| == 2 && at + 2 <= |s|
    ensures Put(s, at, xs) == s[at := xs[0]][at + 1 := xs[1]]
  {
    assert s[..at] + xs + s[at + 2..] == s[at := xs[0]][at + 1 := xs[1]];
  }

  /** `arr` holds `done` from slot 0 on and `initial` after it. */
  ghost predicate Stored<T>(arr: seq<T>, done: seq<T>, initial: seq<T>)
  {
    |arr| == |initial| && |done| <= |arr| && arr[..|done|] == done && arr[|done|..] == initial[|done|..]
  }

  /** Writing the next items after what is stored extends it. */
  lemma StoredStep<T>(arr: seq<T>, done: seq<T>, initial: seq<T>, xs: seq<T>)
    requires Stored(arr, done, initial) && |done| + |xs| <= |arr|
    ensures Stored(Put(arr, |done|, xs), done + xs, initial)
  {
    var r := Put(arr, |done|, xs);
    assert r[..|done| + |xs|] == done + xs;
    assert r[|done| + |xs|..] == arr[|done| + |xs|..];
    assert arr[|done|..][|xs|..] == arr[|done| + |xs|..];
    assert initial[|done|..][|xs|..] == initial[|done| + |xs|..];
  }

  /** Every slot of a fresh array is the zero `calloc` writes. */
  ghost predicate AllZero<T>(arr: seq<T>, zero: T)
  {
    forall q | 0 <= q < |arr| :: arr[q] == zero
  }

  const ZeroV3 := V3.V3(0.0, 0.0, 0.0)
  const ZeroV2 := V2.V2(0.0, 0.0)
  const ZeroFace := Mesh.Face(Mesh.Corner(0, 0, 0), Mesh.Corner(0, 0, 0), Mesh.Corner(0, 0, 0))

  /** `mesh_t` while the loader fills it. A NULL array is one of length 0. */
  class MeshStore {
    var vertexCount: nat
    var texCoordCount: nat
    var normalCount: nat
    var faceCount: nat
    var vertices: array<V3.V3>
    var texCoords: array<V2.V2>
    var normals: array<V3.V3>
    var faces: array<Mesh.Face>

    /** `calloc(1, sizeof(mesh_t))`: zero counts and NULL arrays. */
    constructor ()
      ensures vertexCount == 0 && texCoordCount == 0 && normalCount == 0 && faceCount == 0
      ensures vertices.Length == 0 && texCoords.Length == 0 && normals.Length == 0 && faces.Length == 0
    {
      vertexCount, texCoordCount, normalCount, faceCount := 0, 0, 0, 0;
      vertices := new V3.V3[0];
      texCoords := new V2.V2[0];
      normals := new V3.V3[0];
      faces := new Mesh.Face[0];
    }

    /** The mesh `xgl_draw` reads: every allocated point slot and the first
        `faceCount` faces. */
    function AsMesh(): Mesh.Mesh
      reads this, vertices, texCoords, normals, faces
      requires faceCount <= faces.Length
    {
      Mesh.Mesh(vertices[..], texCoords[..], normals[..], normalCount, faces[..faceCount])
    }

    /** The allocations at the end of `alloc_arrays`, with `normalSlots`
        slots for the normals. */
    method Allocate(normalSlots: nat)
      modifies this
      ensures vertexCount == old(vertexCount) && texCoordCount == old(texCoordCount)
      ensures normalCount == old(normalCount) && faceCount == old(faceCount)
      ensures fresh(vertices) && fresh(texCoords) && fresh(normals) && fresh(faces)
      ensures vertices.Length == vertexCount && texCoords.Length == Slots(texCoordCount)
      ensures normals.Length == normalSlots && faces.Length == faceCount && vertices != normals
      ensures AllZero(vertices[..], ZeroV3) && AllZero(texCoords[..], ZeroV2)
      ensures AllZero(normals[..], ZeroV3) && AllZero(faces[..], ZeroFace)
    {
      vertices := new V3.V3[vertexCount](_ => ZeroV3);
      faces := new Mesh.Face[faceCount](_ => ZeroFace);
      texCoords := new V2.V2[Slots(texCoordCount)](_ => ZeroV2);
      normals := new V3.V3[normalSlots](_ => ZeroV3);
    }

    /** `alloc_arrays` as written: it counts each kind of line, faces with
        `num_of_tri_faces`, and then tests the normals pointer instead of
        the normal count, so a mesh that has no normal array yet gets a
        single normal slot whatever the file holds. */
    method AllocArraysAsWritten(lines: array<Option<string>>)
      requires Terminated(lines[..])
      modifies this
      ensures vertexCount == old(vertexCount) + CountKind(Lines(lines[..]), VertexLine)
      ensures texCoordCount == old(texCoordCount) + CountKind(Lines(lines[..]), TexCoordLine)
      ensures normalCount == old(normalCount) + CountKind(Lines(lines[..]), NormalLine)
      ensures faceCount == old(faceCount) + FaceSlotsAsWritten(Lines(lines[..]))
      ensures fresh(vertices) && fresh(texCoords) && fresh(normals) && fresh(faces)
      ensures vertices.Length == vertexCount && texCoords.Length == Slots(texCoordCount)
      ensures normals.Length == (if old(normals.Length) > 0 then normalCount else 1)
      ensures faces.Length == faceCount
      ensures AllZero(vertices[..], ZeroV3) && AllZero(texCoords[..], ZeroV2)
      ensures AllZero(normals[..], ZeroV3) && AllZero(faces[..], ZeroFace)
    {
      ghost var ls := Lines(lines[..]);
      var i := 0;
      NullAtCount(lines[..]);
      while lines[i].Some?
        invariant i <= |ls|
        invariant vertexCount == old(vertexCount) + CountKind(ls[..i], VertexLine)
        invariant texCoordCount == old(texCoordCount) + CountKind(ls[..i], TexCoordLine)
        invariant normalCount == old(normalCount) + CountKind(ls[..i], NormalLine)
        invariant faceCount == old(faceCount) + FaceSlotsAsWritten(ls[..i])
        invariant normals == old(normals)
        decreases |ls| - i
      {
        LineAt(lines[..], i);
        var line := lines[i].value;
        CountNext(ls, i);
        var kind := AllocKind(line);
        if kind == VertexLine {
          vertexCount := vertexCount + 1;
        } else if kind == TexCoordLine {
          texCoordCount := texCoordCount + 1;
        } else if kind == NormalLine {
          normalCount := normalCount + 1;
        } else if kind == FaceLine {
          var n := NumOfTriFaces(line);
          faceCount := faceCount + n;
        }
        i := i + 1;
      }
      FirstNull(lines[..], i);
      assert ls[..i] == ls;
      var normalSlots := if normals.Length > 0 then normalCount else 1;
      Allocate(normalSlots);
    }

    /** `alloc_arrays` sized for what `read_arrays` stores: two face slots
        exactly for the lines `read_face` splits, and `calloc(1)` only when
        the file has no normal. */
    method AllocArrays(lines: array<Option<string>>)
      requires Terminated(lines[..])
      modifies this
      ensures vertexCount == old(vertexCount) + CountKind(Lines(lines[..]), VertexLine)
      ensures texCoordCount == old(texCoordCount) + CountKind(Lines(lines[..]), TexCoordLine)
      ensures normalCount == old(normalCount) + CountKind(Lines(lines[..]), NormalLine)
      ensures faceCount == old(faceCount) + FaceSlots(Lines(lines[..]))
      ensures fresh(vertices) && fresh(texCoords) && fresh(normals) && fresh(faces)
      ensures vertices.Length == vertexCount && texCoords.Length == Slots(texCoordCount)
      ensures normals.Length == Slots(normalCount) && faces.Length == faceCount && vertices != normals
      ensures AllZero(vertices[..], ZeroV3) && AllZero(texCoords[..], ZeroV2)
      ensures AllZero(normals[..], ZeroV3) && AllZero(faces[..], ZeroFace)
    {
      ghost var ls := Lines(lines[..]);
      var i := 0;
      NullAtCount(lines[..]);
      while lines[i].Some?
        invariant i <= |ls|
        invariant vertexCount == old(vertexCount) + CountKind(ls[..i], VertexLine)
        invariant texCoordCount == old(texCoordCount) + CountKind(ls[..i], TexCoordLine)
        invariant normalCount == old(normalCount) + CountKind(ls[..i], NormalLine)
        invariant faceCount == old(faceCount) + FaceSlots(ls[..i])
        decreases |ls| - i
      {
        LineAt(lines[..], i);
        var line := lines[i].value;
        CountNext(ls, i);
        var kind := AllocKind(line);
        if kind == VertexLine {
          vertexCount := vertexCount + 1;
        } else if kind == TexCoordLine {
          texCoordCount := texCoordCount + 1;
        } else if kind == NormalLine {
          normalCount := normalCount + 1;
        } else if kind == FaceLine {
          faceCount := faceCount + TriFaces(line);
        }
        i := i + 1;
      }
      FirstNull(lines[..], i);
      assert ls[..i] == ls;
      Allocate(Slots(normalCount));
    }

    /** `read_face(mesh, line + 2)`: the triangles of the face line stored
        from slot `faceCount` on. */
    method ReadFace(line: string)
      requires faceCount + TriFaces(line) <= faces.Length
      modifies this, faces
      ensures vertices == old(vertices) && texCoords == old(texCoords)
      ensures normals == old(normals) && faces == old(faces)
      ensures vertexCount == old(vertexCount) && texCoordCount == old(texCoordCount)
      ensures normalCount == old(normalCount)
      ensures faceCount == old(faceCount) + TriFaces(line)
      ensures faces[..] == Put(old(faces[..]), old(faceCount), FaceTriangles(line))
    {
      var fs := FaceTriangles(line);
      ghost var f0 := faces[..];
      if |fs| == 2 {
        PutTwo(f0, faceCount, fs);
        faces[faceCount] := fs[0];
        faces[faceCount + 1] := fs[1];
      } else {
        assert fs == [fs[0]];
        PutOne(f0, faceCount, fs[0]);
        faces[faceCount] := fs[0];
      }
      faceCount := faceCount + |fs|;
    }

    /** One pass of the loop of `read_arrays`: a point line stores its point
        at the next slot of its array, a face line its triangles. */
    method ReadLine(line: string, atof: string -> real)
      requires vertices != normals
      requires vertexCount + |VertexItems(line, atof)| <= vertices.Length
      requires normalCount + |NormalItems(line, atof)| <= normals.Length
      requires texCoordCount + |TexCoordItems(line, atof)| <= texCoords.Length
      requires faceCount + |FaceItems(line)| <= faces.Length
      modifies this, vertices, texCoords, normals, faces
      ensures vertices == old(vertices) && texCoords == old(texCoords)
      ensures normals == old(normals) && faces == old(faces)
      ensures vertexCount == old(vertexCount) + |VertexItems(line, atof)|
      ensures normalCount == old(normalCount) + |NormalItems(line, atof)|
      ensures texCoordCount == old(texCoordCount) + |TexCoordItems(line, atof)|
      ensures faceCount == old(faceCount) + |FaceItems(line)|
      ensures vertices[..] == Put(old(vertices[..]), old(vertexCount), VertexItems(line, atof))
      ensures normals[..] == Put(old(normals[..]), old(normalCount), NormalItems(line, atof))
      ensures texCoords[..] == Put(old(texCoords[..]), old(texCoordCount), TexCoordItems(line, atof))
      ensures faces[..] == Put(old(faces[..]), old(faceCount), FaceItems(line))
    {
      var kind := ReadKind(line);
      ghost var v0, n0, t0, f0 := vertices[..], normals[..], texCoords[..], faces[..];
      PutNothing(v0, vertexCount);
      PutNothing(n0, normalCount);
      PutNothing(t0, texCoordCount);
      PutNothing(f0, faceCount);
      if kind == VertexLine {
        var v := ParseV3(line, 2, atof);
        PutOne(v0, vertexCount, v);
        vertices[vertexCount] := v;
        vertexCount := vertexCount + 1;
      } else if kind == NormalLine {
        var n := ParseV3(line, 2, atof);
        PutOne(n0, normalCount, n);
        normals[normalCount] := n;
        normalCount := normalCount + 1;
      } else if kind == TexCoordLine {
        var t := ParseV2(line, 3, atof);
        PutOne(t0, texCoordCount, t);
        texCoords[texCoordCount] := t;
        texCoordCount := texCoordCount + 1;
      } else if kind == FaceLine {
        ReadFace(line);
      }
    }

    /** `read_arrays`: the counts start again from 0 and every line stores
        what it holds at the next slot of its array, so the arrays begin
        with the points and triangles of the file and the counts end at
        the sizes the counting pass found. */
    method ReadArrays(lines: array<Option<string>>, atof: string -> real)
      requires Terminated(lines[..])
      requires vertices != normals
      requires CountKind(Lines(lines[..]), VertexLine) <= vertices.Length
      requires CountKind(Lines(lines[..]), TexCoordLine) <= texCoords.Length
      requires CountKind(Lines(lines[..]), NormalLine) <= normals.Length
      requires FaceSlots(Lines(lines[..])) <= faces.Length
      modifies this, vertices, texCoords, normals, faces
      ensures vertices == old(vertices) && texCoords == old(texCoords)
      ensures normals == old(normals) && faces == old(faces)
      ensures vertexCount == CountKind(Lines(lines[..]), VertexLine)
      ensures texCoordCount == CountKind(Lines(lines[..]), TexCoordLine)
      ensures normalCount == CountKind(Lines(lines[..]), NormalLine)
      ensures faceCount == FaceSlots(Lines(lines[..]))
      ensures Stored(vertices[..], VerticesOf(Lines(lines[..]), atof), old(vertices[..]))
      ensures Stored(texCoords[..], TexCoordsOf(Lines(lines[..]), atof), old(texCoords[..]))
      ensures Stored(normals[..], NormalsOf(Lines(lines[..]), atof), old(normals[..]))
      ensures Stored(faces[..], FacesOf(Lines(lines[..])), old(faces[..]))
    {
      ghost var ls := Lines(lines[..]);
      ghost var v0, t0, n0, f0 := vertices[..], texCoords[..], normals[..], faces[..];
      vertexCount, texCoordCount, normalCount, faceCount := 0, 0, 0, 0;
      NothingRead(ls, atof);
      ReadLines(lines, atof, ls, v0, t0, n0, f0);
      AllRead(ls, atof, v0, t0, n0, f0);
    }

    /** The loop `while (lines[i])` of `read_arrays`. */
    method ReadLines(lines: array<Option<string>>, atof: string -> real, ghost ls: seq<string>,
                     ghost v0: seq<V3.V3>, ghost t0: seq<V2.V2>, ghost n0: seq<V3.V3>, ghost f0: seq<Mesh.Face>)
      requires Terminated(lines[..]) && ls == Lines(lines[..]) && vertices != normals
      requires CountKind(ls, VertexLine) <= vertices.Length
      requires CountKind(ls, TexCoordLine) <= texCoords.Length
      requires CountKind(ls, NormalLine) <= normals.Length
      requires FaceSlots(ls) <= faces.Length
      requires ReadUpTo(ls, 0, atof, v0, t0, n0, f0)
      modifies this, vertices, texCoords, normals, faces
      ensures vertices == old(vertices) && texCoords == old(texCoords)
      ensures normals == old(normals) && faces == old(faces)
      ensures ReadUpTo(ls, |ls|, atof, v0, t0, n0, f0)
    {
      var i := 0;
      NullAtCount(lines[..]);
      while lines[i].Some?
        invariant i <= |ls|
        invariant vertices == old(vertices) && texCoords == old(texCoords)
        invariant normals == old(normals) && faces == old(faces)
        invariant ReadUpTo(ls, i, atof, v0, t0, n0, f0)
        decreases |ls| - i
      {
        LineAt(lines[..], i);
        ReadNext(lines[i].value, atof, ls, i, v0, t0, n0, f0);
        i := i + 1;
      }
      FirstNull(lines[..], i);
    }

    lemma NothingRead(ls: seq<string>, atof: string -> real)
      requires vertexCount == 0 && texCoordCount == 0 && normalCount == 0 && faceCount == 0
      ensures ReadUpTo(ls, 0, atof, vertices[..], texCoords[..], normals[..], faces[..])
    {
      assert ls[..0] == [];
    }

    lemma AllRead(ls: seq<string>, atof: string -> real,
                  v0: seq<V3.V3>, t0: seq<V2.V2>, n0: seq<V3.V3>, f0: seq<Mesh.Face>)
      requires ReadUpTo(ls, |ls|, atof, v0, t0, n0, f0)
      ensures vertexCount == CountKind(ls, VertexLine) && texCoordCount == CountKind(ls, TexCoordLine)
      ensures normalCount == CountKind(ls, NormalLine) && faceCount == FaceSlots(ls)
      ensures Stored(vertices[..], VerticesOf(ls, atof), v0)
      ensures Stored(texCoords[..], TexCoordsOf(ls, atof), t0)
      ensures Stored(normals[..], NormalsOf(ls, atof), n0)
      ensures Stored(faces[..], FacesOf(ls), f0)
    {
      assert ls[..|ls|] == ls;
    }

    /** What the filling pass has stored after the first `i` lines. */
    ghost predicate ReadUpTo(ls: seq<string>, i: nat, atof: string -> real,
                             v0: seq<V3.V3>, t0: seq<V2.V2>, n0: seq<V3.V3>, f0: seq<Mesh.Face>)
      reads this, vertices, texCoords, normals, faces
      requires i <= |ls|
    {
      vertexCount == CountKind(ls[..i], VertexLine) &&
      texCoordCount == CountKind(ls[..i], TexCoordLine) &&
      normalCount == CountKind(ls[..i], NormalLine) &&
      faceCount == FaceSlots(ls[..i]) &&
      Stored(vertices[..], VerticesOf(ls[..i], atof), v0) &&
      Stored(texCoords[..], TexCoordsOf(ls[..i], atof), t0) &&
      Stored(normals[..], NormalsOf(ls[..i], atof), n0) &&
      Stored(faces[..], FacesOf(ls[..i]), f0)
    }

    /** The loop body of `read_arrays` on line `i`. */
    method ReadNext(line: string, atof: string -> real, ghost ls: seq<string>, ghost i: nat,
                    ghost v0: seq<V3.V3>, ghost t0: seq<V2.V2>, ghost n0: seq<V3.V3>, ghost f0: seq<Mesh.Face>)
      requires i < |ls| && ls[i] == line && vertices != normals
      requires CountKind(ls, VertexLine) <= vertices.Length
      requires CountKind(ls, TexCoordLine) <= texCoords.Length
      requires CountKind(ls, NormalLine) <= normals.Length
      requires FaceSlots(ls) <= faces.Length
      requires ReadUpTo(ls, i, atof, v0, t0, n0, f0)
      modifies this, vertices, texCoords, normals, faces
      ensures vertices == old(vertices) && texCoords == old(texCoords)
      ensures normals == old(normals) && faces == old(faces)
      ensures ReadUpTo(ls, i + 1, atof, v0, t0, n0, f0)
    {
      NextLine(ls, i, atof);
      ghost var v1, t1, n1, f1 := vertices[..], texCoords[..], normals[..], faces[..];
      ReadLine(line, atof);
      StoredStep(v1, VerticesOf(ls[..i], atof), v0, VertexItems(line, atof));
      StoredStep(t1, TexCoordsOf(ls[..i], atof), t0, TexCoordItems(line, atof));
      StoredStep(n1, NormalsOf(ls[..i], atof), n0, NormalItems(line, atof));
      StoredStep(f1, FacesOf(ls[..i]), f0, FaceItems(line));
    }
  }

  /** Reading line `i` adds its items to each array, and the counts up to
      it stay within the counts of the whole file. */
  lemma NextLine(ls: seq<string>, i: nat, atof: string -> real)
    requires i < |ls|
    ensures VerticesOf(ls[..i + 1], atof) == VerticesOf(ls[..i], atof) + VertexItems(ls[i], atof)
    ensures TexCoordsOf(ls[..i + 1], atof) == TexCoordsOf(ls[..i], atof) + TexCoordItems(ls[i], atof)
    ensures NormalsOf(ls[..i + 1], atof) == NormalsOf(ls[..i], atof) + NormalItems(ls[i], atof)
    ensures FacesOf(ls[..i + 1]) == FacesOf(ls[..i]) + FaceItems(ls[i])
    ensures CountKind(ls[..i + 1], VertexLine) <= CountKind(ls, VertexLine)
    ensures CountKind(ls[..i + 1], TexCoordLine) <= CountKind(ls, TexCoordLine)
    ensures CountKind(ls[..i + 1], NormalLine) <= CountKind(ls, NormalLine)
    ensures FaceSlots(ls[..i + 1]) <= FaceSlots(ls)
  {
    assert ls[..i + 1][..i] == ls[..i];
    CountKindPrefix(ls, VertexLine, i + 1);
    CountKindPrefix(ls, TexCoordLine, i + 1);
    CountKindPrefix(ls, NormalLine, i + 1);
    FaceSlotsPrefix(ls, i + 1);
  }

  /** An array that stores exactly as many items as it has slots holds
      those items; one that stores none keeps its initial slots. */
  lemma StoredAll<T>(arr: seq<T>, done: seq<T>, initial: seq<T>)
    requires Stored(arr, done, initial)
    ensures |done| == |arr| ==> arr == done
    ensures |done| == 0 ==> arr == initial
  {
    assert arr[..|arr|] == arr && arr[0..] == arr && initial[0..] == initial;
  }

  /** `mesh_load_from_obj` from the text of the file on: the lines of
      `ft_split(text, '\n')`, the counting pass, the filling pass. With the
      counting pass sized for what the filling pass stores, the mesh holds
      what the file says, slot for slot. */
  method LoadMesh(text: string, atof: string -> real) returns (m: MeshStore)
    requires WellFormed(ObjText.Pieces(text, '\n'))
    ensures m.faceCount <= m.faces.Length
    ensures m.AsMesh() == MeshOf(ObjText.Pieces(text, '\n'), atof)
  {
    ghost var ls := ObjText.Pieces(text, '\n');
    var lines := ObjText.Split(text, '\n');
    SplitLines(lines[..], ls);
    m := new MeshStore();
    m.AllocArrays(lines);
    ghost var v0, t0, n0, f0 := m.vertices[..], m.texCoords[..], m.normals[..], m.faces[..];
    m.ReadArrays(lines, atof);
    FilledMesh(ls, atof, m.vertices[..], m.texCoords[..], m.normals[..], m.faces[..], v0, t0, n0, f0);
    assert m.faces[..m.faceCount] == m.faces[..];
  }

  /** Arrays that hold everything the file holds, over zeroed slots of the
      sizes `AllocArrays` gives, make up `MeshOf`. */
  lemma FilledMesh(ls: seq<string>, atof: string -> real,
                   vs: seq<V3.V3>, ts: seq<V2.V2>, ns: seq<V3.V3>, fs: seq<Mesh.Face>,
                   v0: seq<V3.V3>, t0: seq<V2.V2>, n0: seq<V3.V3>, f0: seq<Mesh.Face>)
    requires Stored(vs, VerticesOf(ls, atof), v0) && |vs| == CountKind(ls, VertexLine)
    requires Stored(ts, TexCoordsOf(ls, atof), t0) && |ts| == Slots(CountKind(ls, TexCoordLine))
    requires Stored(ns, NormalsOf(ls, atof), n0) && |ns| == Slots(CountKind(ls, NormalLine))
    requires Stored(fs, FacesOf(ls), f0) && |fs| == FaceSlots(ls)
    requires AllZero(t0, ZeroV2) && AllZero(n0, ZeroV3)
    ensures Mesh.Mesh(vs, ts, ns, CountKind(ls, NormalLine), fs) == MeshOf(ls, atof)
  {
    StoredAll(vs, VerticesOf(ls, atof), v0);
    StoredAll(ts, TexCoordsOf(ls, atof), t0);
    StoredAll(ns, NormalsOf(ls, atof), n0);
    StoredAll(fs, FacesOf(ls), f0);
    assert |t0| == 1 ==> t0 == [ZeroV2];
    assert |n0| == 1 ==> n0 == [ZeroV3];
  }

  /** A file with two normal lines: as written, `alloc_arrays` leaves one
      normal slot for the two normals `read_arrays` then stores. */
  method NormalsOverflowAsWritten() returns (slots: nat, needed: nat)
    ensures slots == 1 && needed == 2
  {
    var ls := ["vn 0 0 1", "vn 0 1 0"];
    var lines := new Option<string>[3](_ => None);
    lines[0], lines[1] := Some(ls[0]), Some(ls[1]);
    SplitLines(lines[..], ls);
    var m := new MeshStore();
    m.AllocArraysAsWritten(lines);
    slots := m.normals.Length;
    TwoNormalLines();
    needed := CountKind(ls, NormalLine);
  }

  lemma TwoNormalLines()
    ensures CountKind(["vn 0 0 1", "vn 0 1 0"], NormalLine) == 2
  {
    var ls := ["vn 0 0 1", "vn 0 1 0"];
    assert AllocKind(ls[0]) == NormalLine && AllocKind(ls[1]) == NormalLine by {
      assert ls[0][..2] == "vn" && ls[1][..2] == "vn";
      assert ls[0][..3] == "vn " && ls[1][..3] == "vn ";
    }
    assert ls[..1] == [ls[0]] && [ls[0]][..0] == [];
  }

  /** The text `"\na"` as `ft_split` returns it as written: no NULL slot
      ends the array, so the loops `while (lines[i])` of both passes read
      past it. */
  method SplitUnterminatedAsWritten() returns (terminated: bool)
    ensures !terminated
  {
    var lines := ObjText.SplitAsWritten("\na", '\n');
    ObjText.SplitLosesTerminator();
    assert lines[..] == [Some(""), Some("a")];
    NoNull(lines[..]);
    terminated := LineCount(lines[..]) < lines.Length;
  }
}
