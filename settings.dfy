/**
 * The nested-dictionary update used to lay a user configuration over the
 * defaults. A configuration is a JSON object: a map from keys to JSON values,
 * where a value that is itself an object may be merged key by key.
 *
 * The update works in place on `d`: for each key k of `u`, when both `u[k]`
 * and `d[k]` are objects it recurses into `d[k]`, otherwise it stores `u[k]`
 * under k. `Merge` is the resulting map; `MergeInto` is the loop that builds
 * it; `NestedDict.Update` is the in-place, self-returning entry point.
 */
module Settings {
  import opened Wrappers

  /** A JSON value as `json.load` produces it. */
  datatype Value =
    | Null
    | Bool(b: bool)
    | Number(n: real)
    | Str(s: string)
    | List(items: seq<Value>)
    | Dict(entries: map<string, Value>)

  /** The dictionary `d` after updating it with `u`. */
  function Merge(d: map<string, Value>, u: map<string, Value>): map<string, Value>
    decreases Dict(u)
  {
    map k | k in d.Keys + u.Keys ::
      if k in u then
        if u[k].Dict? && k in d && d[k].Dict? then Dict(Merge(d[k].entries, u[k].entries)) else u[k]
      else d[k]
  }

  /**
   * The update loop: every key of `u` is visited once, so the order in which
   * `u.items()` yields them does not matter. An object under a key present in
   * both is merged by a recursive call; anything else replaces the old entry.
   */
  method MergeInto(d: map<string, Value>, u: map<string, Value>) returns (r: map<string, Value>)
    ensures r == Merge(d, u)
    decreases Dict(u)
  {
    r := d;
    var todo := u.Keys;
    while todo != {}
      invariant todo <= u.Keys
      invariant Partial(d, u, r, todo)
      decreases |todo|
    {
      var k :| k in todo;
      var v := u[k];
      var merged;
      if v.Dict? && k in r && r[k].Dict? {
        var sub := MergeInto(r[k].entries, v.entries);
        merged := Dict(sub);
      } else {
        merged := v;
      }
      PartialStep(d, u, r, todo, k, merged);
      r := r[k := merged];
      todo := todo - {k};
    }
    PartialDone(d, u, r);
  }

  /**
   * The loop's state: the keys in `todo` are still to be visited, every other
   * key of `u` already holds its merged value, and the rest of `d` is as it was.
   */
  ghost predicate Partial(d: map<string, Value>, u: map<string, Value>, r: map<string, Value>, todo: set<string>)
  {
    r.Keys == d.Keys + (u.Keys - todo) &&
    forall k :: k in r ==> r[k] == if k in u && k !in todo then Merge(d, u)[k] else d[k]
  }

  /** Visiting one more key keeps `Partial`; an unvisited key still holds its old value. */
  lemma PartialStep(d: map<string, Value>, u: map<string, Value>, r: map<string, Value>,
                    todo: set<string>, k: string, merged: Value)
    requires todo <= u.Keys && Partial(d, u, r, todo) && k in todo
    requires merged == if u[k].Dict? && k in r && r[k].Dict? then Dict(Merge(r[k].entries, u[k].entries)) else u[k]
    ensures Partial(d, u, r[k := merged], todo - {k})
  {
    assert k in r <==> k in d;
    assert k in r ==> r[k] == d[k];
    assert merged == Merge(d, u)[k];
  }

  /** With nothing left to visit, the loop has built the merge. */
  lemma PartialDone(d: map<string, Value>, u: map<string, Value>, r: map<string, Value>)
    requires Partial(d, u, r, {})
    ensures r == Merge(d, u)
  {
    assert r.Keys == Merge(d, u).Keys;
  }

  /** A dictionary object, updated in place. */
  class NestedDict {
    var entries: map<string, Value>

    constructor (entries0: map<string, Value>)
      ensures entries == entries0
    {
      entries := entries0;
    }

    /** `update_nested_dict(self, u)`: merges `u` into this dictionary and returns it. */
    method Update(u: map<string, Value>) returns (r: NestedDict)
      modifies this
      ensures r == this
      ensures entries == Merge(old(entries), u)
    {
      entries := MergeInto(entries, u);
      r := this;
    }
  }

  // ------------------------------------------------------------ properties

  /** After the update the keys are those of `d` and those of `u`. */
  lemma MergeKeys(d: map<string, Value>, u: map<string, Value>)
    ensures Merge(d, u).Keys == d.Keys + u.Keys
  {
  }

  /** A key that `u` does not mention keeps its old value. */
  lemma MergeKeepsOthers(d: map<string, Value>, u: map<string, Value>, k: string)
    requires k in d && k !in u
    ensures k in Merge(d, u) && Merge(d, u)[k] == d[k]
  {
  }

  /**
   * Where `u[k]` is not an object, or `d` has no object under k, the new
   * value is `u[k]`; where both are objects, it is their merge, so that
   * sub-keys `u[k]` does not mention survive.
   */
  lemma MergeAt(d: map<string, Value>, u: map<string, Value>, k: string)
    requires k in u
    ensures k in Merge(d, u)
    ensures !(u[k].Dict? && k in d && d[k].Dict?) ==> Merge(d, u)[k] == u[k]
    ensures u[k].Dict? && k in d && d[k].Dict? ==>
      Merge(d, u)[k] == Dict(Merge(d[k].entries, u[k].entries)) &&
      forall j :: j in d[k].entries && j !in u[k].entries ==>
        j in Merge(d, u)[k].entries && Merge(d, u)[k].entries[j] == d[k].entries[j]
  {
  }

  /** Updating with an empty dictionary changes nothing. */
  lemma MergeEmptyUpdate(d: map<string, Value>)
    ensures Merge(d, map[]) == d
  {
    assert Merge(d, map[]).Keys == d.Keys;
  }

  /** Updating an empty dictionary copies the update. */
  lemma MergeIntoEmpty(u: map<string, Value>)
    ensures Merge(map[], u) == u
  {
    assert Merge(map[], u).Keys == u.Keys;
  }

  /** Updating a dictionary with itself changes nothing, at every depth. */
  lemma {:induction false} MergeSelf(d: map<string, Value>)
    ensures Merge(d, d) == d
    decreases Dict(d)
  {
    forall k | k in d
      ensures Merge(d, d)[k] == d[k]
    {
      if d[k].Dict? {
        MergeSelf(d[k].entries);
      }
    }
    assert Merge(d, d).Keys == d.Keys;
  }

  /** Applying the same update twice is the same as applying it once. */
  lemma {:induction false} MergeIdempotent(d: map<string, Value>, u: map<string, Value>)
    ensures Merge(Merge(d, u), u) == Merge(d, u)
    decreases Dict(u)
  {
    var once := Merge(d, u);
    forall k | k in once
      ensures Merge(once, u)[k] == once[k]
    {
      if k in u && u[k].Dict? {
        if k in d && d[k].Dict? {
          MergeIdempotent(d[k].entries, u[k].entries);
        } else {
          MergeSelf(u[k].entries);
        }
      }
    }
    assert Merge(once, u).Keys == once.Keys;
  }

  // ------------------------------------------------------- paths of keys

  /** The value reached by following `path` key by key, if every step exists. */
  function Get(m: map<string, Value>, path: seq<string>): Option<Value>
    requires |path| >= 1
    decreases |path|
  {
    if path[0] !in m then None
    else if |path| == 1 then Some(m[path[0]])
    else if m[path[0]].Dict? then Get(m[path[0]].entries, path[1..])
    else None
  }

  /** No key along `path` is one the update writes: it only passes through objects. */
  predicate Untouched(u: map<string, Value>, path: seq<string>)
    requires |path| >= 1
    decreases |path|
  {
    path[0] !in u ||
    (|path| > 1 && u[path[0]].Dict? && Untouched(u[path[0]].entries, path[1..]))
  }

  /** Every non-object value of the update ends up at its path in the result. */
  lemma {:induction false} MergeUpdateWins(d: map<string, Value>, u: map<string, Value>, path: seq<string>, v: Value)
    requires |path| >= 1 && Get(u, path) == Some(v) && !v.Dict?
    ensures Get(Merge(d, u), path) == Some(v)
    decreases |path|
  {
    var k := path[0];
    if |path| > 1 {
      if k in d && d[k].Dict? {
        MergeUpdateWins(d[k].entries, u[k].entries, path[1..], v);
      } else {
        assert Merge(d, u)[k] == u[k];
      }
    }
  }

  /** A value of `d` whose path the update does not write survives the update. */
  lemma {:induction false} MergeKeepsUntouched(d: map<string, Value>, u: map<string, Value>, path: seq<string>, v: Value)
    requires |path| >= 1 && Get(d, path) == Some(v) && Untouched(u, path)
    ensures Get(Merge(d, u), path) == Some(v)
    decreases |path|
  {
    var k := path[0];
    if k in u {
      MergeKeepsUntouched(d[k].entries, u[k].entries, path[1..], v);
    }
  }
}
