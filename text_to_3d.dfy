/**
 * Converting a text prompt into a mesh: the hash-derived seed and terrain
 * parameters, the ordered keyword dispatch between the five generators, the
 * index layer of the sphere and terrain generators, the cube's subdivision
 * count, and the output-format choice.
 *
 * The MD5 digest of the prompt is an input (the 32-character `hexdigest`).
 * Floating-point geometry is not modelled: a sphere vertex is the pair of
 * indices (i, j) into the parameter arrays u and v, and a terrain vertex names
 * its x and y sample and the cell of the height field that gives its z. The
 * height field itself is a sum of sinusoids normalised by min-max scaling;
 * when the field is flat (all eight amplitudes zero, or a 1 x 1 grid) that
 * scaling divides zero by zero and every height is NaN, which the generator
 * passes on unchanged.
 */
module TextTo3D {
  import opened Strings
  import opened Grid
  import opened Export
  import opened Wrappers

  // ---------------------------------------------------------------- digest

  predicate IsHexDigit(c: char)
  {
    '0' <= c <= '9' || 'a' <= c <= 'f' || 'A' <= c <= 'F'
  }

  predicate IsHex(s: string)
  {
    forall i :: 0 <= i < |s| ==> IsHexDigit(s[i])
  }

  /** An MD5 `hexdigest`: 32 hexadecimal digits. */
  predicate IsDigest(d: string)
  {
    |d| == 32 && IsHex(d)
  }

  function DigitValue(c: char): (v: nat)
    requires IsHexDigit(c)
    ensures v < 16
  {
    if '0' <= c <= '9' then c as int - '0' as int
    else if 'a' <= c <= 'f' then c as int - 'a' as int + 10
    else c as int - 'A' as int + 10
  }

  function Pow(b: nat, k: nat): nat
  {
    if k == 0 then 1 else b * Pow(b, k - 1)
  }

  /** `int(s, 16)`: the digits read big-endian. */
  function HexValue(s: string): nat
    requires IsHex(s)
  {
    if s == [] then 0 else HexValue(s[..|s| - 1]) * 16 + DigitValue(s[|s| - 1])
  }

  lemma {:induction false} HexValueBound(s: string)
    requires IsHex(s)
    ensures HexValue(s) < Pow(16, |s|)
  {
    if s != [] {
      HexValueBound(s[..|s| - 1]);
    }
  }

  /** Reading a + b big-endian: the digits of a are shifted past those of b. */
  lemma {:induction false} HexValueAppend(a: string, b: string)
    requires IsHex(a) && IsHex(b)
    ensures IsHex(a + b)
    ensures HexValue(a + b) == HexValue(a) * Pow(16, |b|) + HexValue(b)
  {
    assert IsHex(a + b) by {
      forall i | 0 <= i < |a + b| ensures IsHexDigit((a + b)[i]) {
        if i < |a| { assert (a + b)[i] == a[i]; } else { assert (a + b)[i] == b[i - |a|]; }
      }
    }
    if b == [] {
      assert a + b == a;
    } else {
      var b' := b[..|b| - 1];
      assert IsHex(b') by {
        forall i | 0 <= i < |b'| ensures IsHexDigit(b'[i]) { assert b'[i] == b[i]; }
      }
      assert (a + b)[..|a + b| - 1] == a + b';
      HexValueAppend(a, b');
      var x, p, y', d := HexValue(a), Pow(16, |b'|), HexValue(b'), DigitValue(b[|b| - 1]);
      assert HexValue(a + b) == HexValue(a + b') * 16 + d;
      assert HexValue(b) == y' * 16 + d;
      assert Pow(16, |b|) == 16 * p;
      Distribute(x, p, y', d);
    }
  }

  lemma Distribute(x: nat, p: nat, y: nat, d: nat)
    ensures (x * p + y) * 16 + d == x * (16 * p) + (y * 16 + d)
  {
  }

  const TwoTo32: nat := 0x1_0000_0000

  /** `int(prompt_hash, 16) % (2**32)`. */
  function Seed(digest: string): (seed: nat)
    requires IsDigest(digest)
    ensures seed < TwoTo32
  {
    HexValue(digest) % TwoTo32
  }

  /** The seed is the value of the digest's last eight hex digits. */
  lemma SeedIsLastEightDigits(digest: string)
    requires IsDigest(digest)
    ensures Seed(digest) == HexValue(digest[24..])
  {
    var hi, lo := digest[..24], digest[24..];
    assert digest == hi + lo;
    HexValueAppend(hi, lo);
    HexValueBound(lo);
    assert Pow(16, 8) == TwoTo32;
    var x, y := HexValue(hi), HexValue(lo);
    assert HexValue(digest) == x * TwoTo32 + y;
    ModAdd(x, y, TwoTo32);
  }

  /** Adding a multiple of m does not change a remainder below m. */
  lemma ModAdd(x: nat, y: nat, m: nat)
    requires y < m
    ensures (x * m + y) % m == y
  {
    var n := x * m + y;
    var q, r := n / m, n % m;
    assert n == q * m + r;
    if q < x {
      MulMonotone(q + 1, x, m);
      assert false;
    } else if q > x {
      MulMonotone(x + 1, q, m);
      assert false;
    }
  }

  /** The byte `int(prompt_hash[2k:2k+2], 16)`, before its scaling by 1/255. */
  function ParamByte(digest: string, k: nat): (b: nat)
    requires IsDigest(digest) && k < 16
    ensures b < 256
    ensures b == 16 * DigitValue(digest[2 * k]) + DigitValue(digest[2 * k + 1])
  {
    var pair := digest[2 * k..2 * k + 2];
    assert pair == [digest[2 * k], digest[2 * k + 1]];
    assert pair[..1] == [digest[2 * k]] && pair[..1][..0] == [];
    assert HexValue(pair[..1]) == DigitValue(digest[2 * k]);
    HexValue(pair)
  }

  /** The sixteen terrain parameters, from consecutive hex pairs of the digest. */
  function Params(digest: string): (ps: seq<nat>)
    requires IsDigest(digest)
    ensures |ps| == 16
    ensures forall k :: 0 <= k < 16 ==> ps[k] == ParamByte(digest, k) && ps[k] < 256
  {
    seq(16, k requires 0 <= k < 16 => ParamByte(digest, k))
  }

  // ------------------------------------------------------ keyword dispatch

  datatype Shape = Sphere | Cube | Cylinder | Cone | Terrain

  const SphereWords: seq<string> := ["sphere", "ball", "round"]
  const CubeWords: seq<string> := ["cube", "box", "square"]
  const CylinderWords: seq<string> := ["cylinder", "tube"]
  const ConeWords: seq<string> := ["cone", "pyramid"]

  /** `any(word in text for word in words)`. */
  predicate AnyIn(words: seq<string>, text: string)
  {
    exists k | 0 <= k < |words| :: Contains(text, words[k])
  }

  /** The if/elif chain of `text_to_model`, on the lower-cased prompt. */
  function SelectShape(prompt: string): Shape
  {
    var text := Lower(prompt);
    if AnyIn(SphereWords, text) then Sphere
    else if AnyIn(CubeWords, text) then Cube
    else if AnyIn(CylinderWords, text) then Cylinder
    else if AnyIn(ConeWords, text) then Cone
    else Terrain
  }

  /** The dispatch as an ordered table of (keyword group, generator) pairs. */
  const DispatchTable: seq<(seq<string>, Shape)> :=
    [(SphereWords, Sphere), (CubeWords, Cube), (CylinderWords, Cylinder), (ConeWords, Cone)]

  /** First group of the table with a keyword in the text; terrain when none has. */
  function FirstMatch(table: seq<(seq<string>, Shape)>, text: string): Shape
  {
    if table == [] then Terrain
    else if AnyIn(table[0].0, text) then table[0].1
    else FirstMatch(table[1..], text)
  }

  /** Position of a generator's group in the dispatch order; terrain comes last. */
  function Rank(shape: Shape): nat
  {
    match shape
    case Sphere => 0
    case Cube => 1
    case Cylinder => 2
    case Cone => 3
    case Terrain => 4
  }

  /** The keyword group of rank k. */
  function Group(k: nat): seq<string>
    requires k < 4
  {
    DispatchTable[k].0
  }

  /**
   * First match wins: the prompt selects the generator of rank k exactly when
   * a keyword of group k occurs in the lower-cased prompt and no keyword of an
   * earlier group does; terrain exactly when no keyword occurs at all.
   */
  lemma {:induction false} SelectShapeIsFirstMatch(prompt: string)
    ensures SelectShape(prompt) == FirstMatch(DispatchTable, Lower(prompt))
    ensures Rank(SelectShape(prompt)) < 4 ==>
      AnyIn(Group(Rank(SelectShape(prompt))), Lower(prompt))
    ensures forall k :: 0 <= k < Rank(SelectShape(prompt)) && k < 4 ==> !AnyIn(Group(k), Lower(prompt))
  {
    var text := Lower(prompt);
    var t1 := DispatchTable[1..];
    var t2 := t1[1..];
    var t3 := t2[1..];
    assert t3[1..] == [];
    assert FirstMatch(t3, text) == if AnyIn(ConeWords, text) then Cone else Terrain;
    assert FirstMatch(t2, text) == if AnyIn(CylinderWords, text) then Cylinder else FirstMatch(t3, text);
    assert FirstMatch(t1, text) == if AnyIn(CubeWords, text) then Cube else FirstMatch(t2, text);
  }

  lemma AnyInAppend(words: seq<string>, a: string, b: string)
    ensures AnyIn(words, a) ==> AnyIn(words, a + b)
    ensures AnyIn(words, b) ==> AnyIn(words, a + b)
  {
    if AnyIn(words, a) {
      var k :| 0 <= k < |words| && Contains(a, words[k]);
      ContainsAppend(a, b, words[k]);
    }
    if AnyIn(words, b) {
      var k :| 0 <= k < |words| && Contains(b, words[k]);
      ContainsAppend(a, b, words[k]);
    }
  }

  /**
   * Adding text to a prompt can only move the choice to an earlier group: the
   * generator for a + b is never later in the order than that for a or for b.
   */
  lemma SelectShapeMonotone(a: string, b: string)
    ensures Rank(SelectShape(a + b)) <= Rank(SelectShape(a))
    ensures Rank(SelectShape(a + b)) <= Rank(SelectShape(b))
  {
    LowerAppend(a, b);
    AnyInAppend(SphereWords, Lower(a), Lower(b));
    AnyInAppend(CubeWords, Lower(a), Lower(b));
    AnyInAppend(CylinderWords, Lower(a), Lower(b));
    AnyInAppend(ConeWords, Lower(a), Lower(b));
  }

  /** The choice ignores case. */
  lemma SelectShapeIgnoresCase(prompt: string)
    ensures SelectShape(Lower(prompt)) == SelectShape(prompt)
  {
    LowerIdempotent(prompt);
  }

  /** "a round cube" holds keywords of two groups; the sphere's group is checked first. */
  lemma RoundCubeIsSphere()
    ensures SelectShape("a round cube") == Sphere
    ensures AnyIn(CubeWords, Lower("a round cube"))
  {
    var text := Lower("a round cube");
    assert text == "a round cube";
    assert OccursAt(text, "round", 2);
    assert OccursAt(text, "cube", 8);
    assert Contains(text, SphereWords[2]);
    assert Contains(text, CubeWords[0]);
  }

  /** A prompt with no keyword of any group falls back to the terrain generator. */
  lemma NoKeywordIsTerrain(prompt: string)
    requires forall k :: 0 <= k < 4 ==> !AnyIn(Group(k), Lower(prompt))
    ensures SelectShape(prompt) == Terrain
  {
    assert Group(0) == SphereWords && Group(1) == CubeWords;
    assert Group(2) == CylinderWords && Group(3) == ConeWords;
  }

  /** The empty prompt has no keyword, so it selects the terrain generator. */
  lemma EmptyPromptIsTerrain()
    ensures SelectShape("") == Terrain
  {
    assert !AnyIn(SphereWords, "") && !AnyIn(CubeWords, "");
    assert !AnyIn(CylinderWords, "") && !AnyIn(ConeWords, "");
  }

  // ------------------------------------------------------------- terrain

  /** One summand of the terrain height: amplitude byte a_k and frequency f_k. */
  datatype Harmonic = Harmonic(amplitude: nat, frequency: nat)

  /**
   * The `z +=` loop over `enumerate(params[:8])`. The height term added for
   * parameter k is a_k sin(f_k x) cos(f_k y) / f_k with f_k = 1 + 2k; the
   * floating-point sum is represented by the list of its summands.
   */
  method TerrainHarmonics(params: seq<nat>) returns (terms: seq<Harmonic>)
    ensures |terms| == if |params| < 8 then |params| else 8
    ensures forall k :: 0 <= k < |terms| ==>
      terms[k].amplitude == params[k] && terms[k].frequency == 1 + 2 * k
    ensures |params| >= 8 ==> Frequencies(terms) == [1, 3, 5, 7, 9, 11, 13, 15]
  {
    var head := if |params| < 8 then params else params[..8];
    terms := [];
    var i := 0;
    while i < |head|
      invariant 0 <= i <= |head|
      invariant |terms| == i
      invariant forall k :: 0 <= k < i ==>
        terms[k].amplitude == params[k] && terms[k].frequency == 1 + 2 * k
    {
      var freq := 1 + i * 2;
      terms := terms + [Harmonic(head[i], freq)];
      i := i + 1;
    }
  }

  /** The frequency column of a list of harmonics. */
  function Frequencies(terms: seq<Harmonic>): seq<nat>
  {
    seq(|terms|, k requires 0 <= k < |terms| => terms[k].frequency)
  }

  /** Which cell of the normalised height field gives a terrain vertex its z. */
  datatype HeightRef = HeightAt(row: nat, col: nat)

  /**
   * The terrain vertex list: column 0 is `xv.flatten()`, column 1
   * `yv.flatten()` and column 2 `z.flatten()`.
   */
  function TerrainVertices(R: nat): (vs: seq<GridVertex<HeightRef>>)
    ensures |vs| == R * R
  {
    var xs, ys := Flatten(MeshGridX(R)), Flatten(MeshGridY(R));
    var zs := Flatten(HeightCells(R));
    MeshGridShape(R);
    HeightCellsShape(R);
    FlattenLength(MeshGridX(R), R);
    FlattenLength(MeshGridY(R), R);
    FlattenLength(HeightCells(R), R);
    seq(R * R, p requires 0 <= p < R * R => GridVertex(xs[p], ys[p], zs[p]))
  }

  /** The cells of an R x R height field, in its own layout. */
  function HeightCells(R: nat): seq<seq<HeightRef>>
  {
    seq(R, i requires 0 <= i < R => seq(R, j requires 0 <= j < R => HeightAt(i, j)))
  }

  lemma HeightCellsShape(R: nat)
    ensures |HeightCells(R)| == R && Rectangular(HeightCells(R), R)
  {
  }

  /** Terrain vertex i R + j stands at (x_j, y_i) with height z[i][j]. */
  lemma TerrainVertexAt(R: nat, i: nat, j: nat)
    requires i < R && j < R
    ensures VertexIndex(R, i, j) < |TerrainVertices(R)|
    ensures TerrainVertices(R)[VertexIndex(R, i, j)] == GridVertex(j, i, HeightAt(i, j))
  {
    VertexIndexBound(R, i, j);
    MeshGridShape(R);
    HeightCellsShape(R);
    FlattenAt(MeshGridX(R), R, i, j);
    FlattenAt(MeshGridY(R), R, i, j);
    FlattenAt(HeightCells(R), R, i, j);
    MeshGridAt(R, i, j);
  }

  // ---------------------------------------------------------------- sphere

  /** Sphere vertex built from u[u] and v[v] of the two `linspace` parameter arrays. */
  datatype SphereVertex = SphereVertex(u: nat, v: nat)

  /** The vertices appended for u index i, in the inner loop's order. */
  function SphereRow(R: nat, i: nat): seq<SphereVertex>
  {
    seq(R, j requires 0 <= j < R => SphereVertex(i, j))
  }

  /** The first m rows of the parameter grid. */
  function SphereRows(R: nat, m: nat): seq<seq<SphereVertex>>
  {
    seq(m, i requires 0 <= i < m => SphereRow(R, i))
  }

  lemma SphereRowsShape(R: nat, m: nat)
    ensures |SphereRows(R, m)| == m && Rectangular(SphereRows(R, m), R)
  {
  }

  /** After flattening, vertex i R + j of the sphere is built from (u_i, v_j). */
  lemma SphereVertexAt(R: nat, i: nat, j: nat)
    requires i < R && j < R
    ensures |Flatten(SphereRows(R, R))| == R * R
    ensures VertexIndex(R, i, j) < |Flatten(SphereRows(R, R))|
    ensures Flatten(SphereRows(R, R))[VertexIndex(R, i, j)] == SphereVertex(i, j)
  {
    VertexIndexBound(R, i, j);
    SphereRowsShape(R, R);
    FlattenLength(SphereRows(R, R), R);
    FlattenAt(SphereRows(R, R), R, i, j);
  }

  lemma SphereVerticesAt(R: nat)
    ensures |Flatten(SphereRows(R, R))| == R * R
    ensures forall i, j :: 0 <= i < R && 0 <= j < R ==>
      VertexIndex(R, i, j) < |Flatten(SphereRows(R, R))| &&
      Flatten(SphereRows(R, R))[VertexIndex(R, i, j)] == SphereVertex(i, j)
  {
    SphereRowsShape(R, R);
    FlattenLength(SphereRows(R, R), R);
    forall i, j | 0 <= i < R && 0 <= j < R
      ensures VertexIndex(R, i, j) < |Flatten(SphereRows(R, R))|
      ensures Flatten(SphereRows(R, R))[VertexIndex(R, i, j)] == SphereVertex(i, j)
    {
      SphereVertexAt(R, i, j);
    }
  }

  /** Appending row i to the first i rows gives the first i + 1 rows. */
  lemma SphereRowsStep(R: nat, i: nat)
    ensures Flatten(SphereRows(R, i + 1)) == Flatten(SphereRows(R, i)) + SphereRow(R, i)
  {
    assert SphereRows(R, i + 1)[..i] == SphereRows(R, i);
  }

  /** The nested vertex loop of `create_sphere`: i over u outside, j over v inside. */
  method SphereVertices(R: nat) returns (vs: seq<SphereVertex>)
    ensures vs == Flatten(SphereRows(R, R))
    ensures |vs| == R * R
    ensures forall i, j :: 0 <= i < R && 0 <= j < R ==>
      VertexIndex(R, i, j) < |vs| && vs[VertexIndex(R, i, j)] == SphereVertex(i, j)
  {
    vs := [];
    var i := 0;
    while i < R
      invariant 0 <= i <= R
      invariant vs == Flatten(SphereRows(R, i))
    {
      var j := 0;
      while j < R
        invariant 0 <= j <= R
        invariant vs == Flatten(SphereRows(R, i)) + SphereRow(R, i)[..j]
      {
        assert SphereRow(R, i)[..j + 1] == SphereRow(R, i)[..j] + [SphereVertex(i, j)];
        vs := vs + [SphereVertex(i, j)];
        j := j + 1;
      }
      assert SphereRow(R, i)[..R] == SphereRow(R, i);
      SphereRowsStep(R, i);
      i := i + 1;
    }
    SphereVerticesAt(R);
  }

  // ------------------------------------------------------------------ cube

  /** Largest k with 12 * 2^k <= n: the value of int(log2(n / 12)) for n >= 12. */
  function Log2Over12(n: nat): (k: nat)
    requires n >= 12
    ensures 12 * Pow(2, k) <= n < 12 * Pow(2, k + 1)
    decreases n
  {
    if n < 24 then 0 else 1 + Log2Over12(n / 2)
  }

  /**
   * How many times `create_cube` subdivides the box. For resolution <= 0 the
   * source raises: log2(0) is -inf and log2 of a negative number is NaN, and
   * `int` rejects both. For 1 <= resolution < 12 the logarithm is negative,
   * `int` truncates it to a count <= 0 and the `range` is empty.
   */
  function CubeSubdivisions(resolution: int): (r: Option<nat>)
    ensures r.None? <==> resolution <= 0
    ensures 1 <= resolution < 24 ==> r == Some(0)
    ensures resolution >= 12 ==>
      r.Some? && 12 * Pow(2, r.value) <= resolution < 12 * Pow(2, r.value + 1)
  {
    if resolution <= 0 then None
    else if resolution < 12 then Some(0)
    else Some(Log2Over12(resolution))
  }

  /** The count is the largest k with 12 * 2^k <= resolution, so it never decreases. */
  lemma CubeSubdivisionsMonotone(r1: int, r2: int)
    requires 1 <= r1 <= r2
    ensures CubeSubdivisions(r1).Some? && CubeSubdivisions(r2).Some?
    ensures CubeSubdivisions(r1).value <= CubeSubdivisions(r2).value
  {
    if r1 >= 12 {
      var k1, k2 := CubeSubdivisions(r1).value, CubeSubdivisions(r2).value;
      if k2 < k1 {
        PowMonotone(2, k2 + 1, k1);
        assert false;
      }
    }
  }

  lemma {:induction false} PowMonotone(b: nat, k1: nat, k2: nat)
    requires b >= 1 && k1 <= k2
    ensures Pow(b, k1) <= Pow(b, k2)
  {
    if k1 < k2 {
      PowMonotone(b, k1, k2 - 1);
      PowPositive(b, k2 - 1);
      MulMonotone(1, b, Pow(b, k2 - 1));
      assert Pow(b, k2) == b * Pow(b, k2 - 1);
    }
  }

  lemma {:induction false} PowPositive(b: nat, k: nat)
    requires b >= 1
    ensures Pow(b, k) >= 1
  {
    if k > 0 {
      PowPositive(b, k - 1);
      assert b * Pow(b, k - 1) >= Pow(b, k - 1);
    }
  }

  // ------------------------------------------------------------ the prompt

  /** What each generator hands to the exporter, at the level of indices and counts. */
  datatype Mesh =
    | SphereMesh(sphereVertices: seq<SphereVertex>, faces: seq<Face>)
    | CubeMesh(subdivisions: nat)
    | CylinderMesh(sections: int)
    | ConeMesh(sections: int)
    | TerrainMesh(harmonics: seq<Harmonic>, terrainVertices: seq<GridVertex<HeightRef>>, faces: seq<Face>)

  function ShapeOf(mesh: Mesh): Shape
  {
    match mesh
    case SphereMesh(_, _) => Sphere
    case CubeMesh(_) => Cube
    case CylinderMesh(_) => Cylinder
    case ConeMesh(_) => Cone
    case TerrainMesh(_, _, _) => Terrain
  }

  /** The conversion either fails (the entry point returns False) or exports a mesh. */
  datatype Outcome = Failed | Exported(seed: nat, mesh: Mesh, format: Format)

  /**
   * The resolutions at which the chosen generator raises: `linspace` rejects a
   * negative count, the terrain's `z.min()` rejects the empty 0 x 0 field, and
   * the cube's logarithm is not finite.
   */
  predicate Fails(shape: Shape, resolution: int)
  {
    match shape
    case Sphere => resolution < 0
    case Cube => resolution <= 0
    case Cylinder => false
    case Cone => false
    case Terrain => resolution <= 0
  }

  /**
   * `text_to_model` on a prompt whose MD5 `hexdigest` is `digest`: seed,
   * dispatch, build the chosen mesh and pick the output format.
   */
  method TextToModel(prompt: string, digest: string, resolution: int, outputPath: string)
    returns (out: Outcome)
    requires IsDigest(digest)
    ensures out.Failed? <==> Fails(SelectShape(prompt), resolution)
    ensures out.Exported? ==>
      out.seed == Seed(digest) &&
      ShapeOf(out.mesh) == SelectShape(prompt) &&
      out.format == OutputFormat(outputPath)
    ensures out.Exported? && out.mesh.SphereMesh? ==>
      |out.mesh.sphereVertices| == resolution * resolution &&
      out.mesh.sphereVertices == Flatten(SphereRows(resolution, resolution)) &&
      out.mesh.faces == GridFaces(resolution)
    ensures out.Exported? && out.mesh.CubeMesh? ==>
      CubeSubdivisions(resolution) == Some(out.mesh.subdivisions)
    ensures out.Exported? && (out.mesh.CylinderMesh? || out.mesh.ConeMesh?) ==>
      out.mesh.sections == resolution
    ensures out.Exported? && out.mesh.TerrainMesh? ==>
      |out.mesh.harmonics| == 8 &&
      (forall k :: 0 <= k < 8 ==>
        out.mesh.harmonics[k] == Harmonic(Params(digest)[k], 1 + 2 * k)) &&
      out.mesh.terrainVertices == TerrainVertices(resolution) &&
      out.mesh.faces == GridFaces(resolution)
  {
    var seed := Seed(digest);
    var shape := SelectShape(prompt);
    var mesh: Mesh;
    match shape {
      case Sphere =>
        if resolution < 0 {
          return Failed;
        }
        var vertices := SphereVertices(resolution);
        var faces := Triangulate(resolution);
        mesh := SphereMesh(vertices, faces);
      case Cube =>
        var steps := CubeSubdivisions(resolution);
        if steps.None? {
          return Failed;
        }
        mesh := CubeMesh(steps.value);
      case Cylinder =>
        mesh := CylinderMesh(resolution);
      case Cone =>
        mesh := ConeMesh(resolution);
      case Terrain =>
        if resolution <= 0 {
          return Failed;
        }
        var params := Params(digest);
        var harmonics := TerrainHarmonics(params);
        var faces := Triangulate(resolution);
        mesh := TerrainMesh(harmonics, TerrainVertices(resolution), faces);
    }
    out := Exported(seed, mesh, OutputFormat(outputPath));
  }

  /** "a sphere object" selects the sphere generator. */
  lemma SphereObjectIsSphere()
    ensures SelectShape("a sphere object") == Sphere
  {
    var text := Lower("a sphere object");
    assert text == "a sphere object";
    assert OccursAt(text, "sphere", 2);
    assert Contains(text, SphereWords[0]);
  }

  /** The sphere at resolution 16 has 256 vertices and 450 faces. */
  lemma SphereAtSixteen(R: nat)
    requires R == 16
    ensures |Flatten(SphereRows(R, R))| == 256
    ensures |GridFaces(R)| == 450
  {
    SphereRowsShape(R, R);
    FlattenLength(SphereRows(R, R), R);
    GridFacesCount(R);
  }
}
