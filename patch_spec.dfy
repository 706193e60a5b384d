/**
 * JSON Patch (RFC 6902) as values: a patch is an array of operation objects
 * that are executed one after another, each on the document the previous one
 * produced. A line is read as the library reads it: it must be an object, its
 * "path" is read first, then its "op", then the fields that op needs.
 */
module PatchSpec {
  import opened JsonValues
  import opened PointerSyntax
  import Spec = PointerSpec

  /** A decoded patch line. */
  datatype Operation =
    | AddOp(path: string, value: Json)
    | RemoveOp(path: string)
    | ReplaceOp(path: string, value: Json)
    | MoveOp(from: string, path: string)
    | CopyOp(from: string, path: string)
    | TestOp(path: string, value: Json)

  /** The name an operation carries in the "op" member of its line. */
  function OpName(op: Operation): (r: string)
    ensures KnownOp(r)
  {
    match op
    case AddOp(_, _) => "add"
    case RemoveOp(_) => "remove"
    case ReplaceOp(_, _) => "replace"
    case MoveOp(_, _) => "move"
    case CopyOp(_, _) => "copy"
    case TestOp(_, _) => "test"
  }

  /** The op names the library's switch recognises. */
  predicate KnownOp(name: string)
  {
    name in {"add", "remove", "replace", "move", "copy", "test"}
  }

  /** The names the switch recognises are exactly the names of the six operations. */
  lemma {:induction false} OpNames(name: string)
    ensures KnownOp(name) <==> exists op :: OpName(op) == name
  {
    if KnownOp(name) {
      var op :=
        if name == "add" then AddOp([], Null)
        else if name == "remove" then RemoveOp([])
        else if name == "replace" then ReplaceOp([], Null)
        else if name == "move" then MoveOp([], [])
        else if name == "copy" then CopyOp([], [])
        else TestOp([], Null);
      assert OpName(op) == name;
    }
  }

  // ---------------------------------------------------------------------
  // Patch lines

  /** A string member of a line: missing or not a string, the line is malformed. */
  function StringField(m: map<string, Json>, name: string): (r: Result<string>)
    ensures r.Ok? <==> name in m && m[name].Str?
    ensures r.Ok? ==> r.value == m[name].s
    ensures r.Err? ==> r.error == MalformedPatch
  {
    if name in m && m[name].Str? then Ok(m[name].s) else Err(MalformedPatch)
  }

  /** A member of any kind that an op needs: missing, the line is malformed. */
  function ValueField(m: map<string, Json>, name: string): (r: Result<Json>)
    ensures r.Ok? <==> name in m
    ensures r.Ok? ==> r.value == m[name]
    ensures r.Err? ==> r.error == MalformedPatch
  {
    if name in m then Ok(m[name]) else Err(MalformedPatch)
  }

  /** Reads one patch line: "path", then "op", then "value" or "from" as the op needs. */
  function DecodeLine(line: Json): (r: Result<Operation>)
    ensures r.Ok? ==> line.Obj? && "op" in line.members && line.members["op"] == Str(OpName(r.value))
    ensures r.Ok? ==> "path" in line.members && line.members["path"] == Str(r.value.path)
    ensures r.Ok? && (r.value.MoveOp? || r.value.CopyOp?) ==> "from" in line.members && line.members["from"] == Str(r.value.from)
    ensures r.Ok? && (r.value.AddOp? || r.value.ReplaceOp? || r.value.TestOp?) ==> "value" in line.members && line.members["value"] == r.value.value
    ensures r == Err(UnknownOperation) <==>
      line.Obj? && "path" in line.members && line.members["path"].Str?
      && "op" in line.members && line.members["op"].Str? && !KnownOp(line.members["op"].s)
    ensures r.Err? ==> r.error in {UnknownOperation, MalformedPatch}
  {
    if !line.Obj? then Err(MalformedPatch)
    else
      var m := line.members;
      var path :- StringField(m, "path");
      var op :- StringField(m, "op");
      if op == "add" then
        var v :- ValueField(m, "value"); Ok(AddOp(path, v))
      else if op == "remove" then Ok(RemoveOp(path))
      else if op == "replace" then
        var v :- ValueField(m, "value"); Ok(ReplaceOp(path, v))
      else if op == "move" then
        var from :- StringField(m, "from"); Ok(MoveOp(from, path))
      else if op == "test" then
        var v :- ValueField(m, "value"); Ok(TestOp(path, v))
      else if op == "copy" then
        var from :- StringField(m, "from"); Ok(CopyOp(from, path))
      else Err(UnknownOperation)
  }

  /** The line a builder writes for an operation: {op, path, value}, {op, path} or {op, path, from}. */
  function LineOf(op: Operation): (r: Json)
    ensures r.Obj? && "op" in r.members && "path" in r.members
    ensures r.members["op"] == Str(OpName(op)) && r.members["path"] == Str(op.path)
  {
    match op
    case AddOp(path, v) => Obj(map["op" := Str("add"), "path" := Str(path), "value" := v])
    case RemoveOp(path) => Obj(map["op" := Str("remove"), "path" := Str(path)])
    case ReplaceOp(path, v) => Obj(map["op" := Str("replace"), "path" := Str(path), "value" := v])
    case MoveOp(from, path) => Obj(map["op" := Str("move"), "path" := Str(path), "from" := Str(from)])
    case CopyOp(from, path) => Obj(map["op" := Str("copy"), "path" := Str(path), "from" := Str(from)])
    case TestOp(path, v) => Obj(map["op" := Str("test"), "path" := Str(path), "value" := v])
  }

  /** A line written for an operation reads back as that operation. */
  lemma {:induction false} DecodeLineOf(op: Operation)
    ensures DecodeLine(LineOf(op)) == Ok(op)
  {
    var m := LineOf(op).members;
    assert m["path"] == Str(op.path);
    match op
    case AddOp(_, v) => assert m["value"] == v;
    case RemoveOp(_) =>
    case ReplaceOp(_, v) => assert m["value"] == v;
    case MoveOp(from, _) => assert m["from"] == Str(from);
    case CopyOp(from, _) => assert m["from"] == Str(from);
    case TestOp(_, v) => assert m["value"] == v;
  }

  // ---------------------------------------------------------------------
  // One operation

  /**
   * move as section 4.4 of RFC 6902 defines it: the value at `from` is
   * removed and then added at `path`. Moving a location onto itself changes
   * nothing, without the pointers being read. The engine does not use this
   * order; see MoveAsWritten.
   */
  function Move(doc: Structure, from: string, path: string): (r: Result<Structure>)
    ensures from == path ==> r == Ok(doc)
    ensures from != path && !MatchesPointer(path) ==> r == Err(InvalidPointer)
    ensures from != path && r.Ok? ==> Spec.GetValueAt(doc, from).Ok? && Spec.RemoveAt(doc, from).Ok?
  {
    if from == path then Ok(doc)
    else
      var to :- Spec.Parse(path);
      var at :- Spec.Parse(from);
      var v :- Spec.GetValue(doc, at);
      var removed := Spec.Remove(doc, at).value;
      Spec.Add(removed, to, v)
  }

  /**
   * move as the library writes it: the value at `from` is added at `path`
   * first, and `from` is then removed from that result.
   */
  function MoveAsWritten(doc: Structure, from: string, path: string): (r: Result<Structure>)
    ensures from == path ==> r == Ok(doc)
    ensures from != path && !MatchesPointer(path) ==> r == Err(InvalidPointer)
    ensures from != path && r.Ok? ==> Spec.GetValueAt(doc, from).Ok? && Spec.AddAt(doc, path, Spec.GetValueAt(doc, from).value).Ok?
  {
    if from == path then Ok(doc)
    else
      var to :- Spec.Parse(path);
      var at :- Spec.Parse(from);
      var v :- Spec.GetValue(doc, at);
      var added :- Spec.Add(doc, to, v);
      Spec.Remove(added, at)
  }

  /** copy: the value at `from` added at `path`. */
  function Copy(doc: Structure, from: string, path: string): (r: Result<Structure>)
    ensures !MatchesPointer(path) ==> r == Err(InvalidPointer)
    ensures r.Ok? <==> Spec.GetValueAt(doc, from).Ok? && Spec.AddAt(doc, path, Spec.GetValueAt(doc, from).value).Ok?
  {
    var to :- Spec.Parse(path);
    var at :- Spec.Parse(from);
    var v :- Spec.GetValue(doc, at);
    Spec.Add(doc, to, v)
  }

  /** test: the document itself when the value at `path` equals `v`. */
  function Test(doc: Structure, path: string, v: Json): (r: Result<Structure>)
    ensures r.Ok? ==> r.value == doc
    ensures r.Ok? <==> Spec.GetValueAt(doc, path) == Ok(v)
    ensures Spec.GetValueAt(doc, path).Ok? && r.Err? ==> r.error == ValueMismatch
  {
    var found :- Spec.GetValueAt(doc, path);
    if v == found then Ok(doc) else Err(ValueMismatch)
  }

  /**
   * The effect of one operation on the document, as the library computes it:
   * its move adds before it removes.
   */
  function Execute(doc: Structure, op: Operation): (r: Result<Structure>)
    ensures !MatchesPointer(op.path) && !(op.MoveOp? && op.from == op.path) ==> r == Err(InvalidPointer)
    ensures op.MoveOp? && op.from == op.path ==> r == Ok(doc)
    ensures op.TestOp? && r.Ok? ==> r.value == doc
  {
    match op
    case AddOp(path, v) => Spec.AddAt(doc, path, v)
    case RemoveOp(path) => Spec.RemoveAt(doc, path)
    case ReplaceOp(path, v) => Spec.ReplaceAt(doc, path, v)
    case MoveOp(from, path) => MoveAsWritten(doc, from, path)
    case CopyOp(from, path) => Copy(doc, from, path)
    case TestOp(path, v) => Test(doc, path, v)
  }

  /** The lines of a patch decoded and executed in order; the first failure ends the run. */
  function ApplySpec(doc: Structure, patch: seq<Json>): (r: Result<Structure>)
    ensures patch == [] ==> r == Ok(doc)
    ensures r.Ok? ==> forall i :: 0 <= i < |patch| ==> DecodeLine(patch[i]).Ok?
    decreases |patch|
  {
    if patch == [] then Ok(doc)
    else
      var op :- DecodeLine(patch[0]);
      var next :- Execute(doc, op);
      ApplySpec(next, patch[1..])
  }

  // ---------------------------------------------------------------------
  // Properties of apply

  /** A patch made of two parts applies the second part to the result of the first. */
  lemma {:induction false} ApplyConcat(doc: Structure, a: seq<Json>, b: seq<Json>)
    ensures ApplySpec(doc, a + b) == match ApplySpec(doc, a) case Ok(d) => ApplySpec(d, b) case Err(e) => Err(e)
    decreases |a|
  {
    if a == [] {
      assert a + b == b;
    } else {
      assert (a + b)[0] == a[0] && (a + b)[1..] == a[1..] + b;
      var op := DecodeLine(a[0]);
      if op.Ok? && Execute(doc, op.value).Ok? {
        ApplyConcat(Execute(doc, op.value).value, a[1..], b);
      }
    }
  }

  /** One more line runs on the result of the lines before it. */
  lemma {:induction false} ApplySnoc(doc: Structure, patch: seq<Json>, op: Operation)
    ensures ApplySpec(doc, patch + [LineOf(op)]) == match ApplySpec(doc, patch) case Ok(d) => Execute(d, op) case Err(e) => Err(e)
  {
    ApplyConcat(doc, patch, [LineOf(op)]);
    if ApplySpec(doc, patch).Ok? {
      ApplyOne(ApplySpec(doc, patch).value, op);
    }
  }

  /** A failing prefix ends the run: nothing after it takes effect. */
  lemma {:induction false} FailureAborts(doc: Structure, a: seq<Json>, b: seq<Json>)
    requires ApplySpec(doc, a).Err?
    ensures ApplySpec(doc, a + b) == ApplySpec(doc, a)
  {
    ApplyConcat(doc, a, b);
  }

  /** A one-line patch is that line's operation. */
  lemma {:induction false} ApplyOne(doc: Structure, op: Operation)
    ensures ApplySpec(doc, [LineOf(op)]) == Execute(doc, op)
  {
    DecodeLineOf(op);
  }

  /** test never changes the document, and succeeds exactly when the value at `path` equals `v`. */
  lemma {:induction false} TestKeepsDocument(doc: Structure, path: string, v: Json)
    ensures Execute(doc, TestOp(path, v)).Ok? ==> Execute(doc, TestOp(path, v)).value == doc
    ensures Execute(doc, TestOp(path, v)).Ok? <==> Spec.GetValueAt(doc, path) == Ok(v)
  {
    assert Execute(doc, TestOp(path, v)) == Test(doc, path, v);
  }

  /** move onto the same location changes nothing, even for a text that is not a pointer. */
  lemma {:induction false} MoveToItself(doc: Structure, path: string)
    ensures Execute(doc, MoveOp(path, path)) == Ok(doc)
  {
  }

  /** The pointer to the member `k` of the top-level object. */
  lemma {:induction false} MemberPointer(k: string)
    requires k != []
    ensures Spec.Parse("/" + Escape(k)) == Ok([k])
  {
    SingleTokenRoundTrip(k);
  }

  /** The pointer to the element `i` of the top-level array. */
  lemma {:induction false} IndexPointer(i: nat)
    ensures Spec.Parse("/" + IndexText(i)) == Ok([IndexText(i)])
    ensures IsIndex(IndexText(i)) && ParseIndex(IndexText(i)) == i
  {
    ParseIndexText(i);
    SingleTokenRoundTrip(IndexText(i));
    EscapePlain(IndexText(i));
  }

  /** The operations on one member of a top-level object. */
  lemma {:induction false} OnMember(m: map<string, Json>, k: string, v: Json)
    ensures k in m ==> Spec.GetValue(Obj(m), [k]) == Ok(m[k])
    ensures Spec.Add(Obj(m), [k], v) == Ok(Obj(m[k := v]))
  {
    assert Spec.Render([]) + [k] == [k];
    Spec.ResolveMember(Obj(m), [], k);
    Spec.AddSetsMember(Obj(m), [], k, v);
  }

  /** The operations on one element of a top-level array. */
  lemma {:induction false} OnElement(a: seq<Json>, i: nat, v: Json)
    requires i < |a|
    ensures Spec.GetValue(Arr(a), [IndexText(i)]) == Ok(a[i])
    ensures Spec.Remove(Arr(a), [IndexText(i)]) == Ok(Arr(DeleteElem(a, i)))
    ensures Spec.Add(Arr(a), [IndexText(i)], v) == Ok(Arr(InsertElem(a, i, v)))
  {
    ParseIndexText(i);
    assert Spec.Render([]) + [IndexText(i)] == [IndexText(i)];
    Spec.ResolveElement(Arr(a), [], IndexText(i));
    Spec.RemoveDeletesElement(Arr(a), [], IndexText(i));
    Spec.AddInsertsElement(Arr(a), [], IndexText(i), v);
  }

  /** add at the length of a top-level array appends. */
  lemma {:induction false} AtArrayEnd(a: seq<Json>, v: Json)
    ensures Spec.Add(Arr(a), [IndexText(|a|)], v) == Ok(Arr(a + [v]))
  {
    ParseIndexText(|a|);
    assert Spec.Render([]) + [IndexText(|a|)] == [IndexText(|a|)];
    Spec.AddAppendsElement(Arr(a), [], IndexText(|a|), v);
  }

  /** copy between two members of an object leaves the source member as it is. */
  lemma {:induction false} CopyMember(m: map<string, Json>, a: string, b: string)
    requires a in m && a != [] && b != []
    ensures Execute(Obj(m), CopyOp("/" + Escape(a), "/" + Escape(b))) == Ok(Obj(m[b := m[a]]))
  {
    MemberPointer(a);
    MemberPointer(b);
    OnMember(m, a, m[a]);
    OnMember(m, b, m[a]);
  }

  /** Taking one element out and putting it back elsewhere keeps the elements. */
  lemma {:induction false} ReinsertKeepsElements(a: seq<Json>, i: nat, j: nat)
    requires i < |a| && j < |a|
    ensures multiset(InsertElem(DeleteElem(a, i), j, a[i])) == multiset(a)
  {
    var d := DeleteElem(a, i);
    assert a == a[..i] + [a[i]] + a[i + 1..];
    assert multiset(a) == multiset(a[..i]) + multiset([a[i]]) + multiset(a[i + 1..]);
    assert multiset(d) == multiset(a[..i]) + multiset(a[i + 1..]);
    assert d == d[..j] + d[j..];
    assert multiset(d) == multiset(d[..j]) + multiset(d[j..]);
    var r := InsertElem(d, j, a[i]);
    assert r == d[..j] + [a[i]] + d[j..];
    assert multiset(r) == multiset(d[..j]) + multiset([a[i]]) + multiset(d[j..]);
    assert multiset(r) == multiset(d) + multiset([a[i]]);
  }

  /**
   * Moving one element of a top-level array to another index keeps the
   * elements: the result is a rearrangement of the array.
   */
  lemma {:induction false} MoveKeepsElements(a: seq<Json>, i: nat, j: nat)
    requires i < |a| && j < |a|
    ensures Move(Arr(a), "/" + IndexText(i), "/" + IndexText(j)) == Ok(Arr(InsertElem(DeleteElem(a, i), j, a[i])))
    ensures multiset(InsertElem(DeleteElem(a, i), j, a[i])) == multiset(a)
  {
    ReinsertKeepsElements(a, i, j);
    if i == j {
      assert InsertElem(DeleteElem(a, i), j, a[i]) == a;
    } else {
      MoveElsewhere(a, i, j);
    }
  }

  /** Moving an element to another index takes it out and inserts it there, or appends it past the rest. */
  lemma {:induction false} MoveElsewhere(a: seq<Json>, i: nat, j: nat)
    requires i < |a| && j < |a| && i != j
    ensures Move(Arr(a), "/" + IndexText(i), "/" + IndexText(j)) == Ok(Arr(InsertElem(DeleteElem(a, i), j, a[i])))
  {
    IndexPointer(i);
    IndexPointer(j);
    assert ("/" + IndexText(i))[1..] == IndexText(i);
    assert ("/" + IndexText(j))[1..] == IndexText(j);
    OnElement(a, i, a[i]);
    var d := DeleteElem(a, i);
    if j < |d| {
      OnElement(d, j, a[i]);
    } else {
      AtArrayEnd(d, a[i]);
      assert InsertElem(d, j, a[i]) == d + [a[i]];
    }
  }

  /**
   * The library's move between two indices of a top-level array: the value
   * is inserted at the new index first, and the old index is then removed
   * from the longer array. Toward the front the removal hits the element
   * that was just before the moved one, which then stands at both indices;
   * toward the back the value lands one place before the index named.
   */
  lemma {:induction false} MoveAsWrittenElements(a: seq<Json>, i: nat, j: nat)
    requires i < |a| && j <= |a| && i != j
    ensures MoveAsWritten(Arr(a), "/" + IndexText(i), "/" + IndexText(j)) == Ok(Arr(DeleteElem(InsertElem(a, j, a[i]), i)))
    ensures j < i ==> DeleteElem(InsertElem(a, j, a[i]), i)[j] == a[i] && DeleteElem(InsertElem(a, j, a[i]), i)[i] == a[i]
    ensures i < j ==> DeleteElem(InsertElem(a, j, a[i]), i) == InsertElem(DeleteElem(a, i), j - 1, a[i])
  {
    IndexPointer(i);
    IndexPointer(j);
    assert ("/" + IndexText(i))[1..] == IndexText(i);
    assert ("/" + IndexText(j))[1..] == IndexText(j);
    OnElement(a, i, a[i]);
    var added := InsertElem(a, j, a[i]);
    if j < |a| {
      OnElement(a, j, a[i]);
    } else {
      AtArrayEnd(a, a[i]);
      assert added == a + [a[i]];
    }
    OnElement(added, i, a[i]);
    if i < j {
      InsertThenDelete(a, i, j);
    }
  }

  /** Inserting behind index `i` and then deleting `i` is deleting `i` and inserting one place earlier. */
  lemma {:induction false} InsertThenDelete(a: seq<Json>, i: nat, j: nat)
    requires i < j <= |a|
    ensures DeleteElem(InsertElem(a, j, a[i]), i) == InsertElem(DeleteElem(a, i), j - 1, a[i])
  {
    var x, y := DeleteElem(InsertElem(a, j, a[i]), i), InsertElem(DeleteElem(a, i), j - 1, a[i]);
    assert |x| == |y|;
    forall k | 0 <= k < |x|
      ensures x[k] == y[k]
    {
      if k < i {
      } else if k < j - 1 {
      } else if k == j - 1 {
      } else {
      }
    }
  }

  /** Between two different members of a top-level object the library's move agrees with section 4.4 of RFC 6902. */
  lemma {:induction false} MoveAsWrittenMembers(m: map<string, Json>, a: string, b: string)
    requires a in m && a != [] && b != [] && a != b
    ensures MoveAsWritten(Obj(m), "/" + Escape(a), "/" + Escape(b)) == Ok(Obj((m - {a})[b := m[a]]))
    ensures Move(Obj(m), "/" + Escape(a), "/" + Escape(b)) == Ok(Obj((m - {a})[b := m[a]]))
  {
    MemberPointer(a);
    MemberPointer(b);
    OnMember(m, a, m[a]);
    AddThenRemoveMember(m, a, b);
    RemoveThenAddMember(m, a, b);
  }

  /** The library's order on members: set `b`, then delete `a`. */
  lemma {:induction false} AddThenRemoveMember(m: map<string, Json>, a: string, b: string)
    requires a in m && a != b
    ensures Spec.Add(Obj(m), [b], m[a]).Ok?
    ensures Spec.Remove(Spec.Add(Obj(m), [b], m[a]).value, [a]) == Ok(Obj((m - {a})[b := m[a]]))
  {
    OnMember(m, b, m[a]);
    var added := m[b := m[a]];
    assert Spec.Render([]) + [a] == [a];
    Spec.RemoveDeletesMember(Obj(added), [], a);
    assert added - {a} == (m - {a})[b := m[a]];
  }

  /** The order of section 4.4 of RFC 6902 on members: delete `a`, then set `b`. */
  lemma {:induction false} RemoveThenAddMember(m: map<string, Json>, a: string, b: string)
    requires a in m
    ensures Spec.Remove(Obj(m), [a]) == Ok(Obj(m - {a}))
    ensures Spec.Add(Obj(m - {a}), [b], m[a]) == Ok(Obj((m - {a})[b := m[a]]))
  {
    assert Spec.Render([]) + [a] == [a];
    Spec.RemoveDeletesMember(Obj(m), [], a);
    OnMember(m - {a}, b, m[a]);
  }

  /** The library's move on [x, y] from "/1" to "/0" yields [y, y]: x is lost. */
  lemma {:induction false} MoveAsWrittenDuplicates(x: Json, y: Json)
    ensures MoveAsWritten(Arr([x, y]), "/1", "/0") == Ok(Arr([y, y]))
  {
    MoveAsWrittenElements([x, y], 1, 0);
    assert InsertElem([x, y], 0, y) == [y, x, y];
    assert DeleteElem([y, x, y], 1) == [y, y];
    assert "/" + IndexText(1) == "/1" && "/" + IndexText(0) == "/0";
  }

  /** The same move as section 4.4 of RFC 6902 defines it yields [y, x]. */
  lemma {:induction false} MoveSwapsPair(x: Json, y: Json)
    ensures Move(Arr([x, y]), "/1", "/0") == Ok(Arr([y, x]))
  {
    MoveKeepsElements([x, y], 1, 0);
    assert InsertElem(DeleteElem([x, y], 1), 0, y) == [y, x];
    assert "/" + IndexText(1) == "/1" && "/" + IndexText(0) == "/0";
  }

  /** A failed test stops the patch: nothing after it takes effect. */
  lemma {:induction false} FailedTestStops(doc: Structure, path: string, v: Json, rest: seq<Json>)
    requires Spec.GetValueAt(doc, path).Ok? && Spec.GetValueAt(doc, path).value != v
    ensures ApplySpec(doc, [LineOf(TestOp(path, v))] + rest) == Err(ValueMismatch)
  {
    ApplyOne(doc, TestOp(path, v));
    FailureAborts(doc, [LineOf(TestOp(path, v))], rest);
  }
}
