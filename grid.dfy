/**
 * The row-major grid triangulator shared by the sphere, the terrain and the
 * photo paths, and the row-major layout of an R x R vertex grid.
 *
 * For an R x R vertex grid, vertex (i, j) sits at index i * R + j. The face
 * loop visits the cells (i, j), 0 <= i, j < R - 1, row by row and emits two
 * triangles per cell, always split along the same diagonal.
 */
module Grid {

  /** One triangle, as the three vertex indices in the order they are emitted. */
  datatype Face = Face(a: nat, b: nat, c: nat)
  {
    /** Every index refers to one of the first n vertices. */
    predicate InRange(n: nat)
    {
      a < n && b < n && c < n
    }

    /** The triangle is not degenerate at the index level. */
    predicate Distinct()
    {
      a != b && b != c && a != c
    }
  }

  /** Cells per side of the grid: `range(R - 1)` is empty when R <= 1. */
  function Span(R: nat): nat
  {
    if R == 0 then 0 else R - 1
  }

  /** Linear index of grid vertex (i, j). */
  function VertexIndex(R: nat, i: nat, j: nat): nat
  {
    i * R + j
  }

  /** Every vertex of an R x R grid has an index below R^2. */
  lemma VertexIndexBound(R: nat, i: nat, j: nat)
    requires i < R && j < R
    ensures VertexIndex(R, i, j) < R * R
  {
    MulMonotone(i + 1, R, R);
  }

  /** Triangle A of cell (i, j): v0, v1, v2. */
  function LowerFace(R: nat, i: nat, j: nat): Face
  {
    Face(VertexIndex(R, i, j), VertexIndex(R, i, j + 1), VertexIndex(R, i + 1, j))
  }

  /** Triangle B of cell (i, j): v1, v3, v2. */
  function UpperFace(R: nat, i: nat, j: nat): Face
  {
    Face(VertexIndex(R, i, j + 1), VertexIndex(R, i + 1, j + 1), VertexIndex(R, i + 1, j))
  }

  /** The two triangles of cell (i, j), A before B. */
  function CellFaces(R: nat, i: nat, j: nat): seq<Face>
  {
    [LowerFace(R, i, j), UpperFace(R, i, j)]
  }

  /** Faces of the cells (i, 0) .. (i, n - 1), in the inner loop's order. */
  function RowFaces(R: nat, i: nat, n: nat): seq<Face>
  {
    if n == 0 then [] else RowFaces(R, i, n - 1) + CellFaces(R, i, n - 1)
  }

  /** Faces of the rows 0 .. m - 1, in the outer loop's order. */
  function RowsFaces(R: nat, m: nat): seq<Face>
  {
    if m == 0 then [] else RowsFaces(R, m - 1) + RowFaces(R, m - 1, Span(R))
  }

  /** The whole face list of an R x R grid. */
  function GridFaces(R: nat): seq<Face>
  {
    RowsFaces(R, Span(R))
  }

  /** Two triangles per cell. */
  function FaceCount(R: nat): nat
  {
    2 * (Span(R) * Span(R))
  }

  /** Position in the face list of triangle A of cell (i, j). */
  function CellSlot(R: nat, i: nat, j: nat): nat
  {
    2 * (i * Span(R) + j)
  }

  /**
   * The nested face loop: for i in range(R - 1), for j in range(R - 1),
   * append [v0, v1, v2] and then [v1, v3, v2].
   */
  method Triangulate(R: nat) returns (faces: seq<Face>)
    ensures faces == GridFaces(R)
    ensures |faces| == FaceCount(R)
    ensures forall p :: 0 <= p < |faces| ==> faces[p].InRange(R * R) && faces[p].Distinct()
  {
    faces := [];
    var i := 0;
    while i < R - 1
      invariant 0 <= i <= Span(R)
      invariant faces == RowsFaces(R, i)
    {
      var j := 0;
      while j < R - 1
        invariant 0 <= j <= Span(R)
        invariant faces == RowsFaces(R, i) + RowFaces(R, i, j)
      {
        var v0 := i * R + j;
        var v1 := i * R + j + 1;
        var v2 := (i + 1) * R + j;
        var v3 := (i + 1) * R + j + 1;
        faces := faces + [Face(v0, v1, v2)];
        faces := faces + [Face(v1, v3, v2)];
        j := j + 1;
      }
      i := i + 1;
    }
    GridFacesCount(R);
    GridFacesValid(R);
  }

  lemma {:induction false} RowFacesLength(R: nat, i: nat, n: nat)
    ensures |RowFaces(R, i, n)| == 2 * n
  {
    if n > 0 {
      RowFacesLength(R, i, n - 1);
    }
  }

  lemma {:induction false} RowsFacesLength(R: nat, m: nat)
    ensures |RowsFaces(R, m)| == 2 * (m * Span(R))
  {
    if m > 0 {
      RowsFacesLength(R, m - 1);
      RowFacesLength(R, m - 1, Span(R));
      MulSucc(m - 1, Span(R));
    }
  }

  /** Exactly 2 (R - 1)^2 faces for R >= 2, none for R <= 1. */
  lemma GridFacesCount(R: nat)
    ensures |GridFaces(R)| == FaceCount(R)
    ensures R >= 2 ==> |GridFaces(R)| == 2 * ((R - 1) * (R - 1))
    ensures R <= 1 ==> GridFaces(R) == []
  {
    RowsFacesLength(R, Span(R));
  }

  lemma MulMonotone(a: nat, b: nat, c: nat)
    requires a <= b
    ensures a * c <= b * c
  {
  }

  lemma MulSucc(a: nat, b: nat)
    ensures a * b + b == (a + 1) * b
  {
  }

  /** Both triangles of an interior cell refer to existing, distinct vertices. */
  lemma CellFacesValid(R: nat, i: nat, j: nat)
    requires i < Span(R) && j < Span(R)
    ensures forall f :: f in CellFaces(R, i, j) ==> f.InRange(R * R) && f.Distinct()
  {
    VertexIndexBound(R, i + 1, j + 1);
    MulSucc(i, R);
  }

  /** All triangles in a sequence are in range and non-degenerate. */
  ghost predicate AllValid(fs: seq<Face>, n: nat)
  {
    forall p :: 0 <= p < |fs| ==> fs[p].InRange(n) && fs[p].Distinct()
  }

  lemma {:induction false} RowFacesValid(R: nat, i: nat, n: nat)
    requires i < Span(R) && n <= Span(R)
    ensures AllValid(RowFaces(R, i, n), R * R)
  {
    if n > 0 {
      RowFacesValid(R, i, n - 1);
      CellFacesValid(R, i, n - 1);
    }
  }

  lemma {:induction false} RowsFacesValid(R: nat, m: nat)
    requires m <= Span(R)
    ensures AllValid(RowsFaces(R, m), R * R)
  {
    if m > 0 {
      RowsFacesValid(R, m - 1);
      RowFacesValid(R, m - 1, Span(R));
    }
  }

  /** Every emitted index lies in [0, R^2) and each face has three distinct indices. */
  lemma GridFacesValid(R: nat)
    ensures forall p :: 0 <= p < |GridFaces(R)| ==>
      GridFaces(R)[p].InRange(R * R) && GridFaces(R)[p].Distinct()
  {
    RowsFacesValid(R, Span(R));
  }

  lemma {:induction false} RowFacesPrefix(R: nat, i: nat, n: nat, n': nat)
    requires n <= n'
    ensures RowFaces(R, i, n) <= RowFaces(R, i, n')
  {
    if n < n' {
      RowFacesPrefix(R, i, n, n' - 1);
    }
  }

  lemma {:induction false} RowsFacesPrefix(R: nat, m: nat, m': nat)
    requires m <= m'
    ensures RowsFaces(R, m) <= RowsFaces(R, m')
  {
    if m < m' {
      RowsFacesPrefix(R, m, m' - 1);
    }
  }

  /**
   * Cells are visited in row-major order: positions 2 (i (R-1) + j) and
   * 2 (i (R-1) + j) + 1 hold triangles A and B of cell (i, j).
   */
  lemma GridFacesAt(R: nat, i: nat, j: nat)
    requires i < Span(R) && j < Span(R)
    ensures CellSlot(R, i, j) + 1 < |GridFaces(R)|
    ensures GridFaces(R)[CellSlot(R, i, j)] ==
      Face(i * R + j, i * R + j + 1, (i + 1) * R + j)
    ensures GridFaces(R)[CellSlot(R, i, j) + 1] ==
      Face(i * R + j + 1, (i + 1) * R + j + 1, (i + 1) * R + j)
  {
    var S := Span(R);
    var row := RowFaces(R, i, S);
    var before := RowsFaces(R, i);
    var upto := RowsFaces(R, i + 1);
    assert upto == before + row;
    RowCellAt(R, i, j);
    RowsFacesLength(R, i);
    var k := |before| + 2 * j;
    assert k == CellSlot(R, i, j);
    assert upto[k] == row[2 * j] && upto[k + 1] == row[2 * j + 1];
    RowsFacesPrefix(R, i + 1, S);
    PrefixAt(upto, GridFaces(R), k);
    PrefixAt(upto, GridFaces(R), k + 1);
  }

  /** A prefix agrees with the whole sequence on its own positions. */
  lemma PrefixAt<T>(a: seq<T>, b: seq<T>, k: nat)
    requires a <= b && k < |a|
    ensures k < |b| && b[k] == a[k]
  {
  }

  /** Within row i, positions 2j and 2j + 1 hold the two triangles of cell (i, j). */
  lemma RowCellAt(R: nat, i: nat, j: nat)
    requires j < Span(R)
    ensures 2 * j + 1 < |RowFaces(R, i, Span(R))|
    ensures RowFaces(R, i, Span(R))[2 * j] == LowerFace(R, i, j)
    ensures RowFaces(R, i, Span(R))[2 * j + 1] == UpperFace(R, i, j)
  {
    RowFacesPrefix(R, i, j + 1, Span(R));
    RowFacesLength(R, i, j);
    assert RowFaces(R, i, j + 1) == RowFaces(R, i, j) + CellFaces(R, i, j);
  }

  /** Rows of equal length R. */
  ghost predicate Rectangular<T>(rows: seq<seq<T>>, R: nat)
  {
    forall i :: 0 <= i < |rows| ==> |rows[i]| == R
  }

  /** Row-major flattening, as numpy's C-order `flatten` and `reshape(-1, ...)`. */
  function Flatten<T>(rows: seq<seq<T>>): seq<T>
  {
    if rows == [] then [] else Flatten(rows[..|rows| - 1]) + rows[|rows| - 1]
  }

  lemma {:induction false} FlattenLength<T>(rows: seq<seq<T>>, R: nat)
    requires Rectangular(rows, R)
    ensures |Flatten(rows)| == |rows| * R
  {
    if rows != [] {
      FlattenLength(rows[..|rows| - 1], R);
      MulSucc(|rows| - 1, R);
    }
  }

  /** After flattening, element (i, j) of a grid with rows of length R sits at i * R + j. */
  lemma {:induction false} FlattenAt<T>(rows: seq<seq<T>>, R: nat, i: nat, j: nat)
    requires Rectangular(rows, R)
    requires i < |rows| && j < R
    ensures VertexIndex(R, i, j) < |Flatten(rows)|
    ensures Flatten(rows)[VertexIndex(R, i, j)] == rows[i][j]
  {
    var n := |rows|;
    var init := rows[..n - 1];
    FlattenLength(init, R);
    assert Flatten(rows) == Flatten(init) + rows[n - 1];
    if i < n - 1 {
      FlattenAt(init, R, i, j);
    } else {
      assert VertexIndex(R, i, j) == |Flatten(init)| + j;
    }
  }

  /** Grid coordinates (row, column) of a vertex index. */
  function RowOf(R: nat, v: nat): nat
    requires R > 0
  {
    v / R
  }

  function ColOf(R: nat, v: nat): nat
    requires R > 0
  {
    v % R
  }

  /** Twice the signed area of a face, measured in grid coordinates. */
  function Orientation(R: nat, f: Face): int
    requires R > 0
  {
    var ra: int, ca: int := RowOf(R, f.a), ColOf(R, f.a);
    var rb: int, cb: int := RowOf(R, f.b), ColOf(R, f.b);
    var rc: int, cc: int := RowOf(R, f.c), ColOf(R, f.c);
    (rb - ra) * (cc - ca) - (cb - ca) * (rc - ra)
  }

  /** Division by R recovers (i, j) from i * R + j when j < R. */
  lemma DivModIndex(R: nat, i: nat, j: nat)
    requires j < R
    ensures RowOf(R, VertexIndex(R, i, j)) == i
    ensures ColOf(R, VertexIndex(R, i, j)) == j
  {
    var v := i * R + j;
    var q, r := v / R, v % R;
    assert v == q * R + r;
    assert (q - i) * R == j - r;
    if q > i {
      MulMonotone(1, q - i, R);
    } else if q < i {
      MulMonotone(1, i - q, R);
    }
  }

  /**
   * Consistent winding: both triangles of every cell turn the same way in grid
   * coordinates, so every face of the grid has the same orientation.
   */
  lemma GridFacesWinding(R: nat, p: nat)
    requires p < |GridFaces(R)|
    ensures R > 0 && Orientation(R, GridFaces(R)[p]) == -1
  {
    RowsFacesWinding(R, Span(R), p);
  }

  lemma CellFacesWinding(R: nat, i: nat, j: nat)
    requires i < Span(R) && j < Span(R)
    ensures Orientation(R, LowerFace(R, i, j)) == -1
    ensures Orientation(R, UpperFace(R, i, j)) == -1
  {
    DivModIndex(R, i, j);
    DivModIndex(R, i, j + 1);
    DivModIndex(R, i + 1, j);
    DivModIndex(R, i + 1, j + 1);
  }

  lemma {:induction false} RowFacesWinding(R: nat, i: nat, n: nat, p: nat)
    requires i < Span(R) && n <= Span(R) && p < |RowFaces(R, i, n)|
    ensures R > 0 && Orientation(R, RowFaces(R, i, n)[p]) == -1
  {
    RowFacesLength(R, i, n - 1);
    if p < |RowFaces(R, i, n - 1)| {
      RowFacesWinding(R, i, n - 1, p);
    } else {
      CellFacesWinding(R, i, n - 1);
    }
  }

  lemma {:induction false} RowsFacesWinding(R: nat, m: nat, p: nat)
    requires m <= Span(R) && p < |RowsFaces(R, m)|
    ensures R > 0 && Orientation(R, RowsFaces(R, m)[p]) == -1
  {
    if p < |RowsFaces(R, m - 1)| {
      RowsFacesWinding(R, m - 1, p);
    } else {
      RowFacesWinding(R, m - 1, Span(R), p - |RowsFaces(R, m - 1)|);
    }
  }

  /** A vertex of a height-field grid: x and y are indices into the two `linspace` arrays. */
  datatype GridVertex<Z> = GridVertex(x: nat, y: nat, z: Z)

  /** `np.meshgrid(x, y)[0]`, as indices into x: entry (i, j) is j. */
  function MeshGridX(R: nat): seq<seq<nat>>
  {
    seq(R, i => seq(R, j => j))
  }

  /** `np.meshgrid(x, y)[1]`, as indices into y: entry (i, j) is i. */
  function MeshGridY(R: nat): seq<seq<nat>>
  {
    seq(R, i => seq(R, j => i))
  }

  lemma MeshGridShape(R: nat)
    ensures |MeshGridX(R)| == R && Rectangular(MeshGridX(R), R)
    ensures |MeshGridY(R)| == R && Rectangular(MeshGridY(R), R)
  {
  }

  /** x varies along a row and y down a column. */
  lemma MeshGridAt(R: nat, i: nat, j: nat)
    requires i < R && j < R
    ensures MeshGridX(R)[i][j] == j && MeshGridY(R)[i][j] == i
  {
  }
}
