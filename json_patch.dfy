/**
 * The JSON Patch engine: `apply` runs the lines of a patch through the
 * pointer engine, one after another.
 */
module JsonPatch {
  import opened JsonValues
  import opened PatchSpec
  import JsonPointer

  /** One operation, by the pointer engine; move adds at `path` before it removes `from`. */
  method ApplyOperation(op: Operation, target: Structure) returns (r: Result<Structure>)
    ensures r == Execute(target, op)
  {
    match op {
      case AddOp(path, value) =>
        var to :- JsonPointer.NewPointer(path);
        r := JsonPointer.Add(to, target, value);
      case RemoveOp(path) =>
        var at :- JsonPointer.NewPointer(path);
        r := JsonPointer.Remove(at, target);
      case ReplaceOp(path, value) =>
        var at :- JsonPointer.NewPointer(path);
        r := JsonPointer.Replace(at, target, value);
      case MoveOp(from, path) =>
        if from == path {
          return Ok(target);
        }
        var to :- JsonPointer.NewPointer(path);
        var at :- JsonPointer.NewPointer(from);
        var value :- JsonPointer.GetValue(at, target);
        var result :- JsonPointer.Add(to, target, value);
        r := JsonPointer.Remove(at, result);
      case CopyOp(from, path) =>
        var to :- JsonPointer.NewPointer(path);
        var at :- JsonPointer.NewPointer(from);
        var value :- JsonPointer.GetValue(at, target);
        r := JsonPointer.Add(to, target, value);
      case TestOp(path, value) =>
        var at :- JsonPointer.NewPointer(path);
        var found :- JsonPointer.GetValue(at, target);
        if value != found {
          return Err(ValueMismatch);
        }
        r := Ok(target);
    }
  }

  /** apply: every line in array order, each on the previous result. */
  method Apply(patch: seq<Json>, target: Structure) returns (r: Result<Structure>)
    ensures r == ApplySpec(target, patch)
  {
    var doc := target;
    var i := 0;
    while i < |patch|
      invariant 0 <= i <= |patch|
      invariant ApplySpec(target, patch) == ApplySpec(doc, patch[i..])
    {
      assert patch[i..][0] == patch[i] && patch[i..][1..] == patch[i + 1..];
      var op :- DecodeLine(patch[i]);
      doc :- ApplyOperation(op, doc);
      i := i + 1;
    }
    return Ok(doc);
  }

}
