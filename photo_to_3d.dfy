/**
 * Converting a photo into a height-field mesh. The decoded, greyscale image
 * is an input: a matrix of luminance values, H rows of W pixels. The vertex
 * grid takes x and y from two `linspace` arrays (represented by their
 * indices) and z from the image, sampled at truncated `linspace` positions.
 *
 * The sampling is what the code does, not a true R x R resample: the row and
 * column index arrays are paired element by element, which yields R samples
 * along the image's diagonal, and that vector is broadcast over every row of
 * the grid. Vertex (i, j) therefore gets the height of sample j whatever i is.
 */
module PhotoTo3D {
  import opened Grid
  import opened Export

  /** A greyscale image: at least one row, all rows of the same non-zero length. */
  ghost predicate IsImage(depth: seq<seq<int>>)
  {
    |depth| >= 1 && |depth[0]| >= 1 && Rectangular(depth, |depth[0]|)
  }

  function Height(depth: seq<seq<int>>): nat
  {
    |depth|
  }

  function Width(depth: seq<seq<int>>): nat
    requires |depth| >= 1
  {
    |depth[0]|
  }

  // ------------------------------------------------------ sample indices

  /**
   * Entry k of `np.linspace(0, n - 1, R).astype(int)`, read exactly: the
   * cast truncates, so this is the floor of k (n - 1) / (R - 1); for R = 1
   * the array is [0].
   */
  function SampleIndex(n: nat, R: nat, k: nat): nat
    requires n >= 1 && k < R
  {
    if R == 1 then 0 else k * (n - 1) / (R - 1)
  }

  lemma DivMonotone(a: nat, b: nat, c: nat)
    requires a <= b && c > 0
    ensures a / c <= b / c
  {
    var qa, qb := a / c, b / c;
    assert a == qa * c + a % c && b == qb * c + b % c;
    if qa > qb {
      MulMonotone(qb + 1, qa, c);
      assert false;
    }
  }

  lemma DivExact(q: nat, c: nat)
    requires c > 0
    ensures (c * q) / c == q
  {
    var r := (c * q) / c;
    assert c * q == r * c + (c * q) % c;
    if r < q {
      MulMonotone(r + 1, q, c);
      assert false;
    } else if r > q {
      MulMonotone(q + 1, r, c);
      assert false;
    }
  }

  /** Every sample index is a valid position in an axis of n pixels. */
  lemma SampleIndexInRange(n: nat, R: nat, k: nat)
    requires n >= 1 && k < R
    ensures SampleIndex(n, R, k) <= n - 1
  {
    if R > 1 {
      MulMonotone(k, R - 1, n - 1);
      DivMonotone(k * (n - 1), (R - 1) * (n - 1), R - 1);
      DivExact(n - 1, R - 1);
    }
  }

  /** The index array starts at 0, ends at n - 1 and never decreases. */
  lemma SampleIndexEnds(n: nat, R: nat)
    requires n >= 1 && R >= 2
    ensures SampleIndex(n, R, 0) == 0
    ensures SampleIndex(n, R, R - 1) == n - 1
  {
    DivExact(n - 1, R - 1);
  }

  lemma SampleIndexMonotone(n: nat, R: nat, k1: nat, k2: nat)
    requires n >= 1 && k1 <= k2 < R
    ensures SampleIndex(n, R, k1) <= SampleIndex(n, R, k2)
  {
    if R > 1 {
      MulMonotone(k1, k2, n - 1);
      DivMonotone(k1 * (n - 1), k2 * (n - 1), R - 1);
    }
  }

  /** The whole index array: R positions, each a valid pixel index. */
  function SampleIndices(n: nat, R: nat): (idx: seq<nat>)
    requires n >= 1
    ensures |idx| == R
    ensures forall k :: 0 <= k < R ==> idx[k] == SampleIndex(n, R, k) && idx[k] < n
  {
    var idx := seq(R, k requires 0 <= k < R => SampleIndex(n, R, k));
    assert forall k :: 0 <= k < R ==> idx[k] < n by {
      forall k | 0 <= k < R ensures idx[k] < n {
        SampleIndexInRange(n, R, k);
      }
    }
    idx
  }

  /** The index array runs from the first pixel to the last and never decreases. */
  lemma SampleIndicesSpan(n: nat, R: nat)
    requires n >= 1
    ensures R >= 1 ==> SampleIndices(n, R)[0] == 0
    ensures R >= 2 ==> SampleIndices(n, R)[R - 1] == n - 1
    ensures forall k1, k2 :: 0 <= k1 <= k2 < R ==> SampleIndices(n, R)[k1] <= SampleIndices(n, R)[k2]
  {
    if R >= 2 {
      SampleIndexEnds(n, R);
    }
    forall k1, k2 | 0 <= k1 <= k2 < R
      ensures SampleIndices(n, R)[k1] <= SampleIndices(n, R)[k2]
    {
      SampleIndexMonotone(n, R, k1, k2);
    }
  }

  // ------------------------------------------------------------ vertices

  /**
   * `depth_map[rows, cols]` with the two index arrays: numpy pairs them
   * element by element, giving R samples, sample k at (rows[k], cols[k]).
   */
  function Samples(depth: seq<seq<int>>, R: nat): (h: seq<int>)
    requires IsImage(depth)
    ensures |h| == R
  {
    var rows, cols := SampleIndices(Height(depth), R), SampleIndices(Width(depth), R);
    seq(R, k requires 0 <= k < R => depth[rows[k]][cols[k]])
  }

  /**
   * The (R, R, 3) vertex array after its three slice assignments: x from
   * `xv`, y from `yv`, and z from the R samples broadcast along every row.
   */
  function PhotoGrid(depth: seq<seq<int>>, R: nat): seq<seq<GridVertex<int>>>
    requires IsImage(depth)
  {
    var xv, yv, h := MeshGridX(R), MeshGridY(R), Samples(depth, R);
    seq(R, i requires 0 <= i < R =>
      seq(R, j requires 0 <= j < R => GridVertex(xv[i][j], yv[i][j], h[j])))
  }

  /** `vertices.reshape(-1, 3)`. */
  function PhotoVertices(depth: seq<seq<int>>, R: nat): seq<GridVertex<int>>
    requires IsImage(depth)
  {
    Flatten(PhotoGrid(depth, R))
  }

  lemma PhotoGridShape(depth: seq<seq<int>>, R: nat)
    requires IsImage(depth)
    ensures |PhotoGrid(depth, R)| == R && Rectangular(PhotoGrid(depth, R), R)
  {
  }

  /**
   * Vertex i R + j stands at (x_j, y_i) and its height is the image value at
   * (rows[j], cols[j]): the sample of column j, not of cell (i, j).
   */
  lemma PhotoVertexAt(depth: seq<seq<int>>, R: nat, i: nat, j: nat)
    requires IsImage(depth) && i < R && j < R
    ensures |PhotoVertices(depth, R)| == R * R
    ensures VertexIndex(R, i, j) < |PhotoVertices(depth, R)|
    ensures PhotoVertices(depth, R)[VertexIndex(R, i, j)] ==
      GridVertex(j, i, depth[SampleIndex(Height(depth), R, j)][SampleIndex(Width(depth), R, j)])
  {
    PhotoVerticesLength(depth, R);
    PhotoVertexIsCell(depth, R, i, j);
    PhotoGridAt(depth, R, i, j);
  }

  lemma PhotoVerticesLength(depth: seq<seq<int>>, R: nat)
    requires IsImage(depth)
    ensures |PhotoVertices(depth, R)| == R * R
  {
    PhotoGridShape(depth, R);
    FlattenLength(PhotoGrid(depth, R), R);
  }

  lemma PhotoVertexIsCell(depth: seq<seq<int>>, R: nat, i: nat, j: nat)
    requires IsImage(depth) && i < R && j < R
    ensures VertexIndex(R, i, j) < |PhotoVertices(depth, R)|
    ensures PhotoVertices(depth, R)[VertexIndex(R, i, j)] == PhotoGrid(depth, R)[i][j]
  {
    PhotoGridShape(depth, R);
    FlattenAt(PhotoGrid(depth, R), R, i, j);
  }

  lemma PhotoGridAt(depth: seq<seq<int>>, R: nat, i: nat, j: nat)
    requires IsImage(depth) && i < R && j < R
    ensures |PhotoGrid(depth, R)| == R && |PhotoGrid(depth, R)[i]| == R
    ensures PhotoGrid(depth, R)[i][j] ==
      GridVertex(j, i, depth[SampleIndex(Height(depth), R, j)][SampleIndex(Width(depth), R, j)])
  {
    PhotoGridCell(depth, R, i, j);
    SamplesAt(depth, R, j);
  }

  /** Cell (i, j) of the grid: x from `xv`, y from `yv`, z the j-th sample. */
  lemma PhotoGridCell(depth: seq<seq<int>>, R: nat, i: nat, j: nat)
    requires IsImage(depth) && i < R && j < R
    ensures |PhotoGrid(depth, R)| == R && |PhotoGrid(depth, R)[i]| == R
    ensures PhotoGrid(depth, R)[i][j] == GridVertex(j, i, Samples(depth, R)[j])
  {
    MeshGridAt(R, i, j);
  }

  /** Sample k is the pixel at (rows[k], cols[k]). */
  lemma SamplesAt(depth: seq<seq<int>>, R: nat, k: nat)
    requires IsImage(depth) && k < R
    ensures Samples(depth, R)[k] == depth[SampleIndex(Height(depth), R, k)][SampleIndex(Width(depth), R, k)]
  {
  }

  /** The broadcast: two vertices in the same grid column have the same height. */
  lemma PhotoHeightIgnoresRow(depth: seq<seq<int>>, R: nat, i1: nat, i2: nat, j: nat)
    requires IsImage(depth) && i1 < R && i2 < R && j < R
    ensures VertexIndex(R, i1, j) < |PhotoVertices(depth, R)|
    ensures VertexIndex(R, i2, j) < |PhotoVertices(depth, R)|
    ensures PhotoVertices(depth, R)[VertexIndex(R, i1, j)].z ==
      PhotoVertices(depth, R)[VertexIndex(R, i2, j)].z
  {
    PhotoVertexIsCell(depth, R, i1, j);
    PhotoVertexIsCell(depth, R, i2, j);
    var g: seq<seq<GridVertex<int>>> := PhotoGrid(depth, R);
    assert g[i1][j].z == g[i2][j].z by {
      PhotoGridCell(depth, R, i1, j);
      PhotoGridCell(depth, R, i2, j);
    }
  }

  /** A uniform image gives a flat mesh: every vertex has height c. */
  lemma UniformImageIsFlat(depth: seq<seq<int>>, R: nat, c: int)
    requires IsImage(depth)
    requires forall r, q :: 0 <= r < |depth| && 0 <= q < |depth[r]| ==> depth[r][q] == c
    ensures forall p :: 0 <= p < |PhotoVertices(depth, R)| ==> PhotoVertices(depth, R)[p].z == c
  {
    var g: seq<seq<GridVertex<int>>> := PhotoGrid(depth, R);
    forall i | 0 <= i < R
      ensures forall j :: 0 <= j < R ==> g[i][j].z == c
    {
      forall j | 0 <= j < R
        ensures g[i][j].z == c
      {
        var rows := SampleIndices(Height(depth), R);
        var cols := SampleIndices(Width(depth), R);
        assert g[i][j].z == depth[rows[j]][cols[j]];
      }
    }
    FlatUniform(g, R, c);
  }

  /** Flattening keeps every element, so a grid of height-c vertices flattens to one. */
  lemma {:induction false} FlatUniform(g: seq<seq<GridVertex<int>>>, R: nat, c: int)
    requires Rectangular(g, R)
    requires forall i :: 0 <= i < |g| ==> forall j :: 0 <= j < R ==> g[i][j].z == c
    ensures forall p :: 0 <= p < |Flatten(g)| ==> Flatten(g)[p].z == c
  {
    if g != [] {
      var init := g[..|g| - 1];
      FlatUniform(init, R, c);
      assert Flatten(g) == Flatten(init) + g[|g| - 1];
    }
  }

  /**
   * On the 2 x 2 image with a dark top row (0) and a bright bottom row (255),
   * the vertex at grid row 1, column 0 gets height 0 although the pixel
   * under it, (1, 0), is 255: the heights follow the diagonal samples.
   */
  lemma DiagonalSampling(depth: seq<seq<int>>, R: nat)
    requires depth == [[0, 0], [255, 255]] && R == 2
    ensures IsImage(depth)
    ensures |PhotoVertices(depth, R)| == 4
    ensures PhotoVertices(depth, R)[VertexIndex(R, 1, 0)].z == 0
    ensures depth[SampleIndex(2, R, 1)][SampleIndex(2, R, 0)] == 255
  {
    PhotoVertexAt(depth, R, 1, 0);
  }

  // -------------------------------------------------------- the photo

  /** The conversion either fails (the entry point returns False) or exports a mesh. */
  datatype PhotoOutcome =
    | PhotoFailed
    | PhotoExported(vertices: seq<GridVertex<int>>, faces: seq<Face>, format: Format)

  /**
   * `photo_to_model` after the image has been decoded and converted to
   * greyscale: build the vertex grid, triangulate it and pick the output
   * format. A negative resolution makes `linspace` raise.
   */
  method PhotoToModel(depth: seq<seq<int>>, resolution: int, outputPath: string)
    returns (out: PhotoOutcome)
    requires IsImage(depth)
    ensures out.PhotoFailed? <==> resolution < 0
    ensures out.PhotoExported? ==>
      out.vertices == PhotoVertices(depth, resolution) &&
      out.faces == GridFaces(resolution) &&
      out.format == OutputFormat(outputPath)
    ensures out.PhotoExported? ==>
      |out.vertices| == resolution * resolution &&
      |out.faces| == FaceCount(resolution) &&
      forall p :: 0 <= p < |out.faces| ==>
        out.faces[p].InRange(|out.vertices|) && out.faces[p].Distinct()
  {
    if resolution < 0 {
      return PhotoFailed;
    }
    var vertices := PhotoVertices(depth, resolution);
    PhotoVerticesLength(depth, resolution);
    var faces := Triangulate(resolution);
    out := PhotoExported(vertices, faces, OutputFormat(outputPath));
  }
}
