/**
 * The immutable JSON value model that the pointer, patch and merge-patch
 * engines edit. Every edit produces a new value; nothing here is updated in
 * place. Objects are maps, so two objects are equal when they hold the same
 * members, whatever the order in which the members were added.
 */
module JsonValues {

  datatype Option<+T> = None | Some(value: T)

  /** A JSON document. Numbers are integers in this model. */
  datatype Json =
    | Null
    | Bool(b: bool)
    | Num(n: int)
    | Str(s: string)
    | Arr(elems: seq<Json>)
    | Obj(members: map<string, Json>)
  {
    /** Arrays and objects are the structures a pointer or a patch can be applied to. */
    predicate IsStructure() { Arr? || Obj? }
  }

  /** The values a pointer operation or a patch accepts as target and returns. */
  type Structure = j: Json | j.IsStructure() witness Obj(map[])

  /** The empty structure of the same kind as `j`. */
  function EmptyLike(j: Structure): (r: Structure)
    ensures r.Arr? == j.Arr?
    ensures r == Arr([]) || r == Obj(map[])
  {
    if j.Arr? then Arr([]) else Obj(map[])
  }

  /** Why an operation failed. */
  datatype Error =
    | InvalidPointer      // the pointer text does not follow the grammar
    | NoSuchElement       // the addressed location does not exist
    | OutOfBounds         // an array index beyond the append slot
    | EndReached          // a missing member, the append slot or a scalar before the last token
    | NotAnIndex          // a token used on an array is not a decimal index; a last token below a scalar member
    | NoParent            // add at the whole document: the root has no parent
    | ScalarRoot          // the result of an edit would not be a structure
    | UnknownOperation    // a patch line with an op that is none of the six
    | ValueMismatch       // a failed test operation
    | MalformedPatch      // a patch line that is not an object or lacks a field

  datatype Result<+T> = Ok(value: T) | Err(error: Error)
  {
    predicate IsFailure() { Err? }

    function PropagateFailure<U>(): Result<U>
      requires Err?
    {
      Err(error)
    }

    function Extract(): T
      requires Ok?
    {
      value
    }
  }

  /** One step of a location: a member name of an object or an index of an array. */
  datatype Step = Key(key: string) | Idx(index: nat)

  /** The value at location `p` of `v`, if there is one. */
  function GetAt(v: Json, p: seq<Step>): Option<Json>
    decreases p
  {
    if p == [] then Some(v)
    else match (v, p[0])
      case (Obj(m), Key(k)) => if k in m then GetAt(m[k], p[1..]) else None
      case (Arr(a), Idx(i)) => if i < |a| then GetAt(a[i], p[1..]) else None
      case _ => None
  }

  predicate Has(v: Json, p: seq<Step>) { GetAt(v, p).Some? }

  /** `v` with the value at the existing location `p` replaced by `w`. */
  function SetAt(v: Json, p: seq<Step>, w: Json): (r: Json)
    requires Has(v, p)
    ensures p != [] ==> r.Arr? == v.Arr? && r.Obj? == v.Obj?
    ensures p != [] && v.Arr? ==> |r.elems| == |v.elems|
    ensures p != [] && v.Obj? ==> r.members.Keys == v.members.Keys
    decreases p
  {
    if p == [] then w
    else match p[0]
      case Key(k) => Obj(v.members[k := SetAt(v.members[k], p[1..], w)])
      case Idx(i) => Arr(v.elems[i := SetAt(v.elems[i], p[1..], w)])
  }

  /** `a` with `w` inserted at index `i`: later elements move one place right. */
  function InsertElem(a: seq<Json>, i: nat, w: Json): (r: seq<Json>)
    requires i <= |a|
    ensures |r| == |a| + 1 && r[i] == w
    ensures forall j :: 0 <= j < i ==> r[j] == a[j]
    ensures forall j :: i < j < |r| ==> r[j] == a[j - 1]
  {
    a[..i] + [w] + a[i..]
  }

  /** `a` without its element at index `i`: later elements move one place left. */
  function DeleteElem(a: seq<Json>, i: nat): (r: seq<Json>)
    requires i < |a|
    ensures |r| == |a| - 1
    ensures forall j :: 0 <= j < i ==> r[j] == a[j]
    ensures forall j :: i <= j < |r| ==> r[j] == a[j + 1]
  {
    a[..i] + a[i + 1..]
  }

  /** Reading back the location just written gives the written value. */
  lemma {:induction false} GetSetAt(v: Json, p: seq<Step>, w: Json)
    requires Has(v, p)
    ensures GetAt(SetAt(v, p, w), p) == Some(w)
    decreases p
  {
    if p != [] {
      match p[0]
      case Key(k) => GetSetAt(v.members[k], p[1..], w);
      case Idx(i) => GetSetAt(v.elems[i], p[1..], w);
    }
  }

  /** Neither location is a prefix of the other: they lie on different branches. */
  predicate Apart(p: seq<Step>, q: seq<Step>)
  {
    !(p <= q) && !(q <= p)
  }

  /** Writing at `p` leaves every location on another branch as it was. */
  lemma {:induction false} SetAtElsewhere(v: Json, p: seq<Step>, w: Json, q: seq<Step>)
    requires Has(v, p) && Apart(p, q)
    ensures GetAt(SetAt(v, p, w), q) == GetAt(v, q)
    decreases p
  {
    assert p != [] && q != [];
    if p[0] == q[0] {
      assert Apart(p[1..], q[1..]);
      match p[0]
      case Key(k) => SetAtElsewhere(v.members[k], p[1..], w, q[1..]);
      case Idx(i) => SetAtElsewhere(v.elems[i], p[1..], w, q[1..]);
    }
  }

  /** Locations compose: the value at `p + q` is the value at `q` below `p`. */
  lemma {:induction false} GetAtAppend(v: Json, p: seq<Step>, q: seq<Step>)
    requires Has(v, p)
    ensures GetAt(v, p + q) == GetAt(GetAt(v, p).value, q)
    decreases p
  {
    if p == [] {
      assert p + q == q;
    } else {
      assert (p + q)[1..] == p[1..] + q;
      match p[0]
      case Key(k) => GetAtAppend(v.members[k], p[1..], q);
      case Idx(i) => GetAtAppend(v.elems[i], p[1..], q);
    }
  }

  /** A write below `p` is a write at `p` of the sub-document with the inner write. */
  lemma {:induction false} SetAtAppend(v: Json, p: seq<Step>, q: seq<Step>, w: Json)
    requires Has(v, p) && Has(GetAt(v, p).value, q)
    ensures Has(v, p + q)
    ensures SetAt(v, p + q, w) == SetAt(v, p, SetAt(GetAt(v, p).value, q, w))
    decreases p
  {
    GetAtAppend(v, p, q);
    if p == [] {
      assert p + q == q;
    } else {
      assert (p + q)[1..] == p[1..] + q;
      match p[0]
      case Key(k) => SetAtAppend(v.members[k], p[1..], q, w);
      case Idx(i) => SetAtAppend(v.elems[i], p[1..], q, w);
    }
  }

  /** Two writes at the same location: the second one wins. */
  lemma {:induction false} SetAtTwice(v: Json, p: seq<Step>, w1: Json, w2: Json)
    requires Has(v, p)
    ensures Has(SetAt(v, p, w1), p)
    ensures SetAt(SetAt(v, p, w1), p, w2) == SetAt(v, p, w2)
    decreases p
  {
    GetSetAt(v, p, w1);
    if p != [] {
      match p[0]
      case Key(k) =>
        SetAtTwice(v.members[k], p[1..], w1, w2);
        assert v.members[k := SetAt(v.members[k], p[1..], w1)][k := SetAt(v.members[k], p[1..], w2)]
          == v.members[k := SetAt(v.members[k], p[1..], w2)];
      case Idx(i) =>
        SetAtTwice(v.elems[i], p[1..], w1, w2);
        assert v.elems[i := SetAt(v.elems[i], p[1..], w1)][i := SetAt(v.elems[i], p[1..], w2)]
          == v.elems[i := SetAt(v.elems[i], p[1..], w2)];
    }
  }

  /** Writing back the value already at `p` changes nothing. */
  lemma {:induction false} SetAtSame(v: Json, p: seq<Step>)
    requires Has(v, p)
    ensures SetAt(v, p, GetAt(v, p).value) == v
    decreases p
  {
    if p != [] {
      match p[0]
      case Key(k) =>
        SetAtSame(v.members[k], p[1..]);
        assert v.members[k := v.members[k]] == v.members;
      case Idx(i) =>
        SetAtSame(v.elems[i], p[1..]);
        assert v.elems[i := v.elems[i]] == v.elems;
    }
  }
}
