/**
 * Choice of the file format a mesh is exported in. Both conversion entry
 * points apply the same rule to the output path; the serialisation itself
 * belongs to the mesh library and is not modelled.
 */
module Export {
  import opened Strings

  datatype Format = Stl | Obj

  /** STL when the lower-cased path ends in ".stl", OBJ otherwise. */
  function OutputFormat(path: string): (f: Format)
    ensures f == Stl <==>
      |path| >= 4 &&
      path[|path| - 4] == '.' &&
      path[|path| - 3] in {'s', 'S'} &&
      path[|path| - 2] in {'t', 'T'} &&
      path[|path| - 1] in {'l', 'L'}
  {
    var lower := Lower(path);
    if EndsWith(lower, ".stl") then
      Stl
    else
      assert |path| >= 4 ==> lower[|path| - 4..] == [lower[|path| - 4], lower[|path| - 3], lower[|path| - 2], lower[|path| - 1]];
      Obj
  }

  /** A path without any dot, so in particular without an extension, is exported as OBJ. */
  lemma NoExtensionIsObj(path: string)
    requires '.' !in path
    ensures OutputFormat(path) == Obj
  {
    if |path| >= 4 {
      assert path[|path| - 4] in path;
    }
  }

  /** The rule ignores case: "MODEL.STL" and "model.stl" agree. */
  lemma OutputFormatIgnoresCase(path: string)
    ensures OutputFormat(Lower(path)) == OutputFormat(path)
  {
    LowerIdempotent(path);
  }
}
