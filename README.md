# Photo and text to 3D mesh: a verified model of the mesh-generation core

This project models the integer and string logic of a small Python application. The application turns a photo or a
short text prompt into a triangulated surface mesh and exports it as OBJ or STL. The model covers:

- **The row-major grid triangulator** (`Grid`). The photo path, the sphere generator and the terrain generator all
  use it. An R x R vertex grid stores vertex (i, j) at index i·R + j. Every interior cell emits two triangles,
  always split along the same diagonal. `Triangulate` is the nested face loop, proved equal to the recursive
  specification `GridFaces`; the lemmas about `GridFaces` give the face count, index bounds, distinctness, the
  position of every cell's two triangles and a uniform winding. `Flatten` is the C-order flatten/reshape of a grid,
  and `MeshGridX`/`MeshGridY` are `np.meshgrid` at the level of indices.
- **The text path** (`TextTo3D`):
  - Seed and parameters. The prompt's MD5 digest is an input. From it the model derives the seed (the digest's
    value mod 2^32) and the sixteen hex-pair parameter bytes.
  - Dispatch. Keywords are matched in a fixed order (sphere, cube, cylinder, cone, then terrain by default) against
    the lower-cased prompt.
  - Generators. The sphere's nested vertex loop; the terrain's harmonic loop and vertex layout; the number of cube
    subdivisions, `int(log2(resolution / 12))` restated in integers.
  - `TextToModel` puts these together, including which resolutions make the conversion fail.
- **The photo path** (`PhotoTo3D`):
  - The truncating `linspace(...).astype(int)` sample indices.
  - The paired (diagonal) fancy indexing of the depth map, broadcast along every row of the grid.
  - The reshaped vertex list, the face list and the end-to-end `PhotoToModel`.
- **The output-format rule** (`Export`). STL exactly when the lower-cased path ends in `.stl`, OBJ otherwise. Both
  paths use it.
- **The nested-dictionary update of the settings module** (`Settings`). `Merge` is the merged dictionary. `MergeInto`
  is the key-by-key loop with its recursion into nested objects. `NestedDict.Update` is the in-place entry point that
  returns the dictionary it was given. The lemmas state:
  - which keys exist afterwards and what each key holds;
  - that the empty update is the identity;
  - that applying an update twice is the same as applying it once;
  - that a nested leaf of the update always lands at its path, and a value of the old dictionary survives when the
    update does not write its path.

Floating-point geometry is modelled at the level of indices. A sphere vertex is the pair (i, j) of indices into the
`u` and `v` parameter arrays. A terrain or photo vertex carries the indices of its x and y samples. Its height is
either the cell of the height field that provides it (terrain) or the integer luminance sampled from the image (photo).

The model follows the code as written; in particular:

- The photo heights are not an R x R resample. The row and column index arrays are paired, so only R samples are
  taken, along the image diagonal. Vertex (i, j) gets the height of sample j, whatever i is (`DiagonalSampling`
  shows a 2 x 2 image where this differs from the pixel under the vertex).
- The sample indices are truncated (`astype(int)`), not rounded.
- A flat terrain field is not special-cased. The min-max normalisation divides zero by zero and yields NaN heights
  (for example at resolution 1).
- The cube's subdivision count is not clamped. For resolution 1 to 11 the truncated logarithm is zero or negative and
  the loop does not run. For resolution 0 or below the logarithm is not finite, `int` raises, and the conversion fails.

The digest, the decoded greyscale image and the resolution are parameters. MD5, image decoding, the mesh library and
the filesystem are not modelled.

## Model

| member | source | states |
|---|---|---|
| Grid.Triangulate | src/text_to_3d.py:99-109 | the nested face loop (also src/text_to_3d.py:178-188 and src/photo_to_3d.py:70-80) returns exactly `GridFaces(R)`: 2·(R-1)² faces, each with three distinct vertex indices below R² |
| Grid.GridFacesCount | src/text_to_3d.py:100-101 | the face list has 2·(R-1)² entries for R >= 2 and is empty for R <= 1 |
| Grid.GridFacesValid | src/text_to_3d.py:102-109 | every face refers to existing vertices (indices in [0, R²)) and its three indices are pairwise distinct |
| Grid.CellFacesValid | src/text_to_3d.py:102-109 | both triangles of an interior cell have in-range, pairwise distinct indices |
| Grid.GridFacesAt | src/text_to_3d.py:179-188 | cells are visited row by row: positions 2(i(R-1)+j) and 2(i(R-1)+j)+1 hold [iR+j, iR+j+1, (i+1)R+j] and [iR+j+1, (i+1)R+j+1, (i+1)R+j] |
| Grid.RowCellAt | src/text_to_3d.py:101-109 | within one row of cells, positions 2j and 2j+1 hold the two triangles of cell j |
| Grid.GridFacesWinding | src/text_to_3d.py:108-109 | the fixed diagonal gives every face the same orientation (signed area -1 in grid coordinates) |
| Grid.VertexIndexBound | src/text_to_3d.py:102-105 | every vertex (i, j) of an R x R grid has an index below R² |
| Grid.DivModIndex | src/text_to_3d.py:102-105 | the index i·R + j determines (i, j) uniquely: division by R gives back the row, the remainder the column |
| Grid.Flatten | src/text_to_3d.py:173-175 | the C-order `flatten()` and `reshape(-1, 3)` (also src/photo_to_3d.py:67); a definition without a contract, its properties are stated by Grid.FlattenLength and Grid.FlattenAt |
| Grid.MeshGridX | src/text_to_3d.py:154 | the x array of `np.meshgrid(x, y)` (also src/photo_to_3d.py:55), row i holding the column positions; a definition without a contract, its properties are stated by TextTo3D.TerrainVertexAt and PhotoTo3D.PhotoGridAt |
| Grid.MeshGridY | src/text_to_3d.py:154 | the y array of `np.meshgrid(x, y)` (also src/photo_to_3d.py:55), row i holding row position i throughout; a definition without a contract, its properties are stated by TextTo3D.TerrainVertexAt and PhotoTo3D.PhotoGridAt |
| Grid.FlattenLength | src/photo_to_3d.py:67 | flattening a grid of rows of width R gives rows·R elements |
| Grid.FlattenAt | src/text_to_3d.py:173-175 | after the C-order flatten, grid element (i, j) is at index i·R + j |
| Strings.Lower | src/text_to_3d.py:52 | the lower-cased string has the same length, contains no upper-case ASCII letter, and keeps every character that is not one |
| Strings.Contains | src/text_to_3d.py:55 | `word in prompt_lower`; a definition without a contract, its properties are stated by Strings.ContainsAppend and used by TextTo3D.SelectShapeMonotone and TextTo3D.RoundCubeIsSphere |
| Strings.EndsWith | src/text_to_3d.py:68 | `str.endswith`; a definition without a contract, characterised by the ensures of Export.OutputFormat |
| Strings.LowerChar | src/text_to_3d.py:52 | the per-character lower-casing of ASCII letters; a definition without a contract, characterised by the ensures of Strings.Lower |
| Strings.LowerAppend | src/text_to_3d.py:52 | for the ASCII model of lower-casing, lower-casing commutes with concatenation |
| Strings.LowerIdempotent | src/text_to_3d.py:52 | lower-casing twice is lower-casing once |
| Strings.ContainsAppend | src/text_to_3d.py:55 | a keyword found in part of a string is found in the whole |
| Export.OutputFormat | src/text_to_3d.py:68-71 | STL exactly when the path's last four characters are '.', s/S, t/T, l/L; OBJ otherwise (same rule at src/photo_to_3d.py:88-91) |
| Export.NoExtensionIsObj | src/photo_to_3d.py:88-91 | a path with no dot at all is exported as OBJ |
| Export.OutputFormatIgnoresCase | src/photo_to_3d.py:88 | the format depends on the path only up to case |
| TextTo3D.DigitValue | src/text_to_3d.py:48 | a hex digit has a value below 16 |
| TextTo3D.HexValue | src/text_to_3d.py:48 | `int(s, 16)`, the digits read big-endian; a definition without a contract, its properties are stated by TextTo3D.HexValueBound, TextTo3D.HexValueAppend and TextTo3D.SeedIsLastEightDigits |
| TextTo3D.HexValueBound | src/text_to_3d.py:48 | a string of n hex digits has a value below 16^n |
| TextTo3D.HexValueAppend | src/text_to_3d.py:48 | reading a + b big-endian multiplies the value of a by 16 to the power of the length of b and adds the value of b |
| TextTo3D.Seed | src/text_to_3d.py:48 | the seed depends only on the digest and is below 2^32 |
| TextTo3D.SeedIsLastEightDigits | src/text_to_3d.py:47-48 | the seed is the value of the digest's last eight hex digits |
| TextTo3D.ParamByte | src/text_to_3d.py:160 | parameter k is the byte of hex digits 2k and 2k+1, high digit first, so in [0, 255] |
| TextTo3D.Params | src/text_to_3d.py:160 | there are sixteen parameters, one per consecutive hex pair, each in [0, 255] |
| TextTo3D.AnyIn | src/text_to_3d.py:55-61 | `any(word in prompt_lower for word in [...])`; a definition without a contract, its properties are stated by TextTo3D.SelectShapeIsFirstMatch and TextTo3D.AnyInAppend |
| TextTo3D.SelectShape | src/text_to_3d.py:52-65 | the if/elif chain on the lower-cased prompt; a definition without a contract, its properties are stated by TextTo3D.SelectShapeIsFirstMatch, TextTo3D.SelectShapeMonotone, TextTo3D.SelectShapeIgnoresCase, TextTo3D.NoKeywordIsTerrain and the example lemmas |
| TextTo3D.SelectShapeIsFirstMatch | src/text_to_3d.py:52-65 | the if/elif chain is the first match over the ordered table sphere, cube, cylinder, cone: the chosen group has a keyword in the lower-cased prompt and no earlier group has one; terrain when none matches |
| TextTo3D.SelectShapeMonotone | src/text_to_3d.py:55-62 | adding text to a prompt can only move the choice to an earlier generator in the dispatch order |
| TextTo3D.SelectShapeIgnoresCase | src/text_to_3d.py:52 | the choice does not depend on letter case |
| TextTo3D.RoundCubeIsSphere | src/text_to_3d.py:55-58 | "a round cube" contains a cube keyword yet selects the sphere, whose group is checked first |
| TextTo3D.SphereObjectIsSphere | src/text_to_3d.py:55-56 | "a sphere object" selects the sphere generator |
| TextTo3D.NoKeywordIsTerrain | src/text_to_3d.py:63-65 | a prompt whose lower-cased text holds no keyword of any of the four groups falls back to the terrain generator |
| TextTo3D.EmptyPromptIsTerrain | src/text_to_3d.py:63-65 | the empty prompt selects the terrain generator |
| TextTo3D.TerrainHarmonics | src/text_to_3d.py:163-166 | the `z +=` loop uses only the first eight parameters, parameter k with frequency 1 + 2k, so the frequencies are 1, 3, ..., 15 |
| TextTo3D.HeightCells | src/text_to_3d.py:163 | the R x R height field, cell (i, j) standing for the sum over the harmonics at `xv[i][j]`, `yv[i][j]`; a definition without a contract, its properties are stated by TextTo3D.TerrainVertexAt |
| TextTo3D.TerrainVertices | src/text_to_3d.py:172-175 | the terrain vertex list passed to the mesh constructor has R² rows |
| TextTo3D.TerrainVertexAt | src/text_to_3d.py:152-154 | terrain vertex iR + j has x = x_j, y = y_i and the height of field cell (i, j) |
| TextTo3D.SphereVertexAt | src/text_to_3d.py:88-94 | sphere vertex iR + j is built from (u_i, v_j), with i the outer loop |
| TextTo3D.SphereVerticesAt | src/text_to_3d.py:88-94 | the same for all (i, j) at once, with R² vertices in all |
| TextTo3D.SphereRowsStep | src/text_to_3d.py:89-94 | one pass of the outer loop appends row i after the earlier rows |
| TextTo3D.SphereVertices | src/text_to_3d.py:88-94 | the nested vertex loop yields R² vertices, vertex iR + j built from (u_i, v_j) |
| TextTo3D.SphereAtSixteen | src/text_to_3d.py:89-109 | at resolution 16 the vertex list passed to the mesh constructor has 256 entries and the face list 450 |
| TextTo3D.Log2Over12 | src/text_to_3d.py:123 | for every n >= 12, the result is the k with 12·2^k <= n < 12·2^(k+1), which is what the float `int(log2(n/12))` gives for 12 <= n < 12·2^45 - 1 |
| TextTo3D.CubeSubdivisions | src/text_to_3d.py:123-124 | below the float-range limit under "## Left out", the cube fails for resolution <= 0, gets 0 subdivisions for 1..23, and otherwise the largest k with 12·2^k <= resolution |
| TextTo3D.CubeSubdivisionsMonotone | src/text_to_3d.py:123 | a larger resolution never gives fewer subdivisions |
| TextTo3D.Fails | src/text_to_3d.py:76-78 | the resolutions at which the modelled code of the chosen generator raises (within the limits under "## Left out"), so that the handler returns False: `linspace` with a negative count (sphere, src/text_to_3d.py:84-85; terrain, 152-153), `z.min()` on the empty field (terrain, 169), a non-finite logarithm (cube, 123); a definition without a contract, used by the first ensures of TextTo3D.TextToModel and matching TextTo3D.CubeSubdivisions |
| TextTo3D.TextToModel | src/text_to_3d.py:46-71 | for a prompt that encodes as UTF-8 and a resolution within the memory and float limits under "## Left out", fails exactly when the chosen generator rejects the resolution; otherwise it returns the seed of the digest, the mesh of the generator the dispatch picks (sphere/terrain vertices and faces, cube subdivisions, cylinder/cone sections) and the format of the output path |
| PhotoTo3D.SampleIndex | src/photo_to_3d.py:62-63 | entry k of `linspace(0, n-1, R).astype(int)`, the truncated k(n-1)/(R-1); a definition without a contract, its properties are stated by PhotoTo3D.SampleIndexInRange, PhotoTo3D.SampleIndexEnds and PhotoTo3D.SampleIndexMonotone |
| PhotoTo3D.SampleIndexInRange | src/photo_to_3d.py:62-63 | every truncated sample index lies in [0, n-1] |
| PhotoTo3D.SampleIndexEnds | src/photo_to_3d.py:62-63 | for R >= 2 the first index is 0 and the last is n-1 |
| PhotoTo3D.SampleIndexMonotone | src/photo_to_3d.py:62-63 | the indices never decrease in k |
| PhotoTo3D.SampleIndices | src/photo_to_3d.py:62-63 | the index array has R entries, entry k being the truncated k(n-1)/(R-1), all valid pixel positions |
| PhotoTo3D.SampleIndicesSpan | src/photo_to_3d.py:62-63 | the index array starts at 0, ends at n-1 and is non-decreasing |
| PhotoTo3D.Samples | src/photo_to_3d.py:61-64 | the paired fancy indexing yields R samples |
| PhotoTo3D.PhotoGridAt | src/photo_to_3d.py:58-64 | grid cell (i, j) has x = x_j, y = y_i and height depth[rows[j]][cols[j]] |
| PhotoTo3D.PhotoVerticesLength | src/photo_to_3d.py:67 | the reshaped vertex list passed to the mesh constructor has R² entries |
| PhotoTo3D.PhotoGrid | src/photo_to_3d.py:58-64 | the R x R vertex array after its three slice assignments; a definition without a contract, its properties are stated by PhotoTo3D.PhotoGridAt and PhotoTo3D.PhotoHeightIgnoresRow |
| PhotoTo3D.PhotoVertices | src/photo_to_3d.py:67 | `vertices.reshape(-1, 3)`; a definition without a contract, its properties are stated by PhotoTo3D.PhotoVerticesLength, PhotoTo3D.PhotoVertexIsCell, PhotoTo3D.PhotoVertexAt and PhotoTo3D.UniformImageIsFlat |
| PhotoTo3D.PhotoVertexIsCell | src/photo_to_3d.py:67 | after the reshape, vertex iR + j is grid cell (i, j) |
| PhotoTo3D.PhotoVertexAt | src/photo_to_3d.py:53-67 | vertex iR + j has x = x_j, y = y_i and height depth[rows[j]][cols[j]] |
| PhotoTo3D.PhotoHeightIgnoresRow | src/photo_to_3d.py:61-64 | two vertices in the same grid column have the same height, whatever their rows |
| PhotoTo3D.UniformImageIsFlat | src/photo_to_3d.py:61-67 | a uniform image gives every vertex the same height |
| PhotoTo3D.FlatUniform | src/photo_to_3d.py:67 | flattening keeps every element, so a grid of equal heights flattens to equal heights |
| PhotoTo3D.DiagonalSampling | src/photo_to_3d.py:61-64 | on a 2 x 2 image with rows 0 and 255, vertex (1, 0) gets height 0 although the pixel under it is 255 |
| PhotoTo3D.PhotoToModel | src/photo_to_3d.py:52-91 | for a resolution whose arrays fit in memory, fails exactly for a negative resolution; otherwise returns the sampled vertex grid, the shared face list (2(R-1)² faces over R² vertices, all indices in range and distinct) and the format of the output path |
| Settings.Merge | config/settings.py:88-92 | the dictionary `d` after the update; a definition without a contract, its properties are stated by Settings.MergeKeys, Settings.MergeKeepsOthers, Settings.MergeAt, Settings.MergeEmptyUpdate, Settings.MergeIntoEmpty, Settings.MergeSelf, Settings.MergeIdempotent, Settings.MergeUpdateWins and Settings.MergeKeepsUntouched |
| Settings.MergeInto | config/settings.py:88-92 | the loop over the keys of `u`, recursing into nested objects, builds exactly the merged dictionary `Merge(d, u)`, whatever the order of the keys |
| Settings.PartialStep | config/settings.py:88-92 | visiting one more key keeps the loop's state: visited keys hold their merged value, the others their old one |
| Settings.PartialDone | config/settings.py:88-93 | once every key is visited the loop's dictionary is the merge |
| Settings.NestedDict.Update | config/settings.py:77-93 | the dictionary is updated in place to the merge of its old contents with `u`, and the same object is returned |
| Settings.MergeKeys | config/settings.py:88-92 | afterwards the keys are those of `d` together with those of `u` |
| Settings.MergeKeepsOthers | config/settings.py:88-92 | a key of `d` that `u` does not mention keeps its value |
| Settings.MergeAt | config/settings.py:89-92 | a key of `u` holds `u[k]` unless both `u[k]` and `d[k]` are objects, in which case it holds their recursive merge, so sub-keys absent from `u[k]` survive |
| Settings.MergeEmptyUpdate | config/settings.py:88 | an empty update leaves the dictionary unchanged |
| Settings.MergeIntoEmpty | config/settings.py:88-92 | updating an empty dictionary produces the update |
| Settings.MergeSelf | config/settings.py:89-90 | updating a dictionary with itself changes nothing, at any depth |
| Settings.MergeIdempotent | config/settings.py:88-93 | applying the same update twice gives the same dictionary as applying it once |
| Settings.MergeUpdateWins | config/settings.py:88-92 | every non-object value of the update is found at its key path in the result |
| Settings.MergeKeepsUntouched | config/settings.py:89-90 | a value of `d` whose key path the update does not write is still there afterwards |

## Left out

- MD5 (`hashlib.md5`) is a foreign call: the 32-digit hex digest is an input of `TextToModel`.
- The mesh library: mesh construction, the box, the subdivision itself, the cylinder and cone builders and export. Any error it raises (for example with zero or negative sections, or an empty mesh) is not modelled. The model keeps the inputs it receives: faces and vertex indices, the subdivision count and the section count. The vertex and face counts the model states are those of the lists passed to the mesh constructor; by default that constructor may merge duplicate vertices (such as the sphere's poles and seam) and drop non-finite ones, so the exported file can hold fewer.
- The image library: opening, thumbnailing and greyscale conversion. The decoded greyscale image is an input matrix of integer luminances.
- Floating-point geometry, in every place it occurs:
  - the `linspace` coordinates, the sphere's sin/cos positions, the terrain's sinusoid sum and its min-max normalisation, and the division of the photo's luminance by 255.0;
  - the terrain parameters' scaling by 1/255 (the model keeps the bytes `ParamByte`).
- PhotoTo3D.SampleIndex: uses exact truncating division. `linspace` computes in floating point, which can land just below an integer and truncate one lower (for example n = 3, R = 99, k = 49: the exact quotient 98 / 98 is 1, but 49 times the rounded step 2 / 98 is just below 1 and truncates to 0).
- The global `np.random.seed` call, which nothing reads.
- Logging, and the try/except wrappers that turn any exception into a `False` result. Failure is modelled as the `Failed`/`PhotoFailed` outcome, for the resolutions where the modelled code raises.
- Strings.LowerChar: lower-cases ASCII letters only, where `str.lower` applies full Unicode case mapping, which is context-dependent (a final sigma), so Strings.LowerAppend holds for the ASCII model but not for `str.lower`. Every keyword and the `.stl` suffix are ASCII, and the only non-ASCII characters that lower-case to an ASCII letter are U+0130 (to "i" followed by a combining dot) and U+212A (to "k"); no keyword and not `.stl` contains a "k", and the "i" of "cylinder" and "pyramid" is followed by a letter rather than a combining dot, so neither character can complete a match the model misses, and keyword and suffix matches, and TextTo3D.SelectShapeMonotone, agree with the source.
- TextTo3D.CubeSubdivisions: states the exact integer count; the float `int(np.log2(resolution/12))` is one larger for resolutions just below 12·2^(k+1) once k >= 44, the first being 12·2^45 - 1 = 422212465065983, because the float quotient rounds up to a power of two. The model also has no float range: `resolution/12` divides a Python int into a float and raises OverflowError once the quotient exceeds the largest float (resolution above about 2.157·10^309, which `type=int` accepts), so the source fails there while the model gives 1023 or more subdivisions.
- TextTo3D.Fails: the failure set is that of the modelled code. It does not include the cube's OverflowError above (see TextTo3D.CubeSubdivisions) or a MemoryError when the R x R arrays of the sphere loop, `np.meshgrid` or the terrain's `np.zeros` do not fit in memory (at R = 10^7 one meshgrid array alone needs 8·10^14 bytes); the source returns False for those resolutions and the model does not.
- TextTo3D.TextToModel: "fails exactly" holds only within the limits of TextTo3D.Fails and for a prompt that encodes as UTF-8. `prompt.encode()` is strict UTF-8 and raises for a lone surrogate, which `sys.argv` can carry on POSIX when the argument is not valid UTF-8; a Dafny string holds no such prompt, so the model never fails there.
- PhotoTo3D.PhotoToModel: "fails exactly for a negative resolution" holds only while `np.meshgrid` and `np.zeros((resolution, resolution, 3))` fit in memory; for a very large resolution the source raises MemoryError and returns False, while the model exports.
- Settings.Merge: the model's dictionaries are unordered maps, so key order is lost; a Python dict keeps the keys of `d` in place and appends the new keys of `u` in the order of `u`. The order is visible only in the saved JSON file; the generators never read the configuration.
- Settings.NestedDict.Update: nested dictionaries are immutable values, so the recursive call's in-place mutation of `d[k]` is modelled as replacing `d[k]`. Aliasing is not captured: a nested dictionary shared with another object is not seen to change.
- The photo's `vertices` array and its slice assignments are modelled as the grid value they produce (`PhotoGrid`), not as an array updated in place.
- The configuration file handling (`load_config`, `save_config`, `setup_logging`), the command-line entry point `main.py` and the filesystem helpers in `utils/file_utils.py` are file I/O and are not part of this model.
