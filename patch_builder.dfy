/**
 * The patch builder: an append-only list of patch lines. Each call writes one
 * operation object at the end; `build` hands out the lines in call order.
 */
module PatchBuilder {
  import opened JsonValues
  import opened PatchSpec
  import JsonPatch

  class JsonPatchBuilder {
    /** The lines written so far, oldest first. */
    var builder: seq<Json>

    /** A builder with no lines. */
    constructor ()
      ensures builder == []
    {
      builder := [];
    }

    /** A builder that starts with the lines of an existing patch. */
    constructor FromPatch(patch: seq<Json>)
      ensures builder == patch
    {
      builder := patch;
    }

    /** Appends {op: "add", path, value}. */
    method Add(path: string, value: Json)
      modifies this
      ensures builder == old(builder) + [LineOf(AddOp(path, value))]
    {
      builder := builder + [LineOf(AddOp(path, value))];
    }

    /** Appends {op: "remove", path}. */
    method Remove(path: string)
      modifies this
      ensures builder == old(builder) + [LineOf(RemoveOp(path))]
    {
      builder := builder + [LineOf(RemoveOp(path))];
    }

    /** Appends {op: "replace", path, value}. */
    method Replace(path: string, value: Json)
      modifies this
      ensures builder == old(builder) + [LineOf(ReplaceOp(path, value))]
    {
      builder := builder + [LineOf(ReplaceOp(path, value))];
    }

    /** Appends {op: "move", path, from}. */
    method Move(path: string, from: string)
      modifies this
      ensures builder == old(builder) + [LineOf(MoveOp(from, path))]
    {
      builder := builder + [LineOf(MoveOp(from, path))];
    }

    /** Appends {op: "copy", path, from}. */
    method Copy(path: string, from: string)
      modifies this
      ensures builder == old(builder) + [LineOf(CopyOp(from, path))]
    {
      builder := builder + [LineOf(CopyOp(from, path))];
    }

    /** Appends {op: "test", path, value}. */
    method Test(path: string, value: Json)
      modifies this
      ensures builder == old(builder) + [LineOf(TestOp(path, value))]
    {
      builder := builder + [LineOf(TestOp(path, value))];
    }

    /** Appends every line of `patches`, in order. */
    method AddPatches(patches: seq<Json>)
      modifies this
      ensures builder == old(builder) + patches
    {
      var i := 0;
      while i < |patches|
        invariant 0 <= i <= |patches|
        invariant builder == old(builder) + patches[..i]
      {
        builder := builder + [patches[i]];
        i := i + 1;
      }
      assert patches[..i] == patches;
    }

    /** The lines in call order. */
    method Build() returns (r: seq<Json>)
      ensures r == builder
    {
      r := builder;
    }

    /** The built patch applied to `target`. */
    method Apply(target: Structure) returns (r: Result<Structure>)
      ensures r == ApplySpec(target, builder)
    {
      var patch := Build();
      r := JsonPatch.Apply(patch, target);
    }
  }
}
