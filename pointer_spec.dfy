/**
 * What a JSON Pointer resolution and the four pointer operations compute, as
 * functions of the document and the decoded tokens. The shadow tree of
 * module NodeRefs is proved to compute exactly these.
 */
module PointerSpec {
  import opened JsonValues
  import opened PointerSyntax

  /**
   * The outcome of a resolution: an existing location, a member that does
   * not exist yet under an existing object, or the slot one past the end of
   * an existing array.
   */
  datatype Loc = At(path: seq<Step>) | NewMember(parent: seq<Step>, key: string) | EndSlot(parent: seq<Step>)

  /** The kind of container the current location sits in. */
  datatype ParentKind = RootParent | ArrayParent | ObjectParent

  /** A resolution result one step further down. */
  function Within(s: Step, r: Result<Loc>): Result<Loc>
  {
    match r
    case Err(e) => Err(e)
    case Ok(At(p)) => Ok(At([s] + p))
    case Ok(NewMember(p, k)) => Ok(NewMember([s] + p, k))
    case Ok(EndSlot(p)) => Ok(EndSlot([s] + p))
  }

  /** A resolution result below the location `p`. */
  function WithinPath(p: seq<Step>, r: Result<Loc>): Result<Loc>
    decreases |p|
  {
    if p == [] then r else Within(p[0], WithinPath(p[1..], r))
  }

  /** A resolution result names a location that exists, or an insertion point below one. */
  predicate Locates(v: Json, loc: Loc)
  {
    match loc
    case At(p) => Has(v, p)
    case NewMember(p, k) => Has(v, p) && GetAt(v, p).value.Obj? && k !in GetAt(v, p).value.members
    case EndSlot(p) => Has(v, p) && GetAt(v, p).value.Arr?
  }

  /**
   * The token walk: an object takes a token as a member name, an array as
   * "-" or a decimal index; a missing member or the append slot is allowed
   * only for the last token; a scalar reached with one token left resolves to
   * itself when it sits in an array and the token is an index.
   */
  function Walk(v: Json, toks: seq<string>, pk: ParentKind): (r: Result<Loc>)
    ensures r.Ok? ==> Locates(v, r.value)
    decreases toks
  {
    if toks == [] then Ok(At([]))
    else
      var t, last := toks[0], |toks| == 1;
      match v
      case Obj(m) =>
        if t in m then Within(Key(t), Walk(m[t], toks[1..], ObjectParent))
        else if last then Ok(NewMember([], t))
        else Err(EndReached)
      case Arr(a) =>
        if t == "-" then (if last then Ok(EndSlot([])) else Err(EndReached))
        else if !IsIndex(t) then Err(NotAnIndex)
        else
          var i := ParseIndex(t);
          if i > |a| then Err(OutOfBounds)
          else if i == |a| then (if last then Ok(EndSlot([])) else Err(EndReached))
          else Within(Idx(i), Walk(a[i], toks[1..], ArrayParent))
      case _ =>
        if !last then Err(EndReached)
        else if pk == ArrayParent then (if IsIndex(t) then Ok(At([])) else Err(NotAnIndex))
        else Err(NotAnIndex)
  }

  function Resolve(doc: Structure, toks: seq<string>): (r: Result<Loc>)
    ensures r.Ok? ==> Locates(doc, r.value)
  {
    Walk(doc, toks, RootParent)
  }

  /** The container at `p` with `v` added under step `s`: inserted in an array, set in an object. */
  function AddUnder(doc: Structure, p: seq<Step>, s: Step, v: Json): (r: Structure)
    requires Has(doc, p)
    requires s.Idx? ==> GetAt(doc, p).value.Arr? && s.index <= |GetAt(doc, p).value.elems|
    requires s.Key? ==> GetAt(doc, p).value.Obj?
  {
    var c := GetAt(doc, p).value;
    match s
    case Idx(i) => SetAt(doc, p, Arr(InsertElem(c.elems, i, v)))
    case Key(k) => SetAt(doc, p, Obj(c.members[k := v]))
  }

  /** The container at `p` without its child at step `s`. */
  function RemoveUnder(doc: Structure, p: seq<Step>, s: Step): (r: Structure)
    requires Has(doc, p + [s])
  {
    PrefixHas(doc, p, [s]);
    GetAtAppend(doc, p, [s]);
    var c := GetAt(doc, p).value;
    match s
    case Idx(i) => SetAt(doc, p, Arr(DeleteElem(c.elems, i)))
    case Key(k) => SetAt(doc, p, Obj(c.members - {k}))
  }

  lemma {:induction false} LastStep(doc: Json, p: seq<Step>)
    requires Has(doc, p) && p != []
    ensures Has(doc, p[..|p| - 1])
    ensures p[|p| - 1].Idx? ==> GetAt(doc, p[..|p| - 1]).value.Arr? && p[|p| - 1].index < |GetAt(doc, p[..|p| - 1]).value.elems|
    ensures p[|p| - 1].Key? ==> GetAt(doc, p[..|p| - 1]).value.Obj? && p[|p| - 1].key in GetAt(doc, p[..|p| - 1]).value.members
  {
    var q := p[..|p| - 1];
    assert q + [p[|p| - 1]] == p;
    PrefixHas(doc, q, [p[|p| - 1]]);
    GetAtAppend(doc, q, [p[|p| - 1]]);
  }

  lemma {:induction false} PrefixHas(v: Json, p: seq<Step>, q: seq<Step>)
    requires Has(v, p + q)
    ensures Has(v, p)
    decreases p
  {
    if p != [] {
      assert (p + q)[1..] == p[1..] + q;
      match (v, p[0])
      case (Obj(m), Key(k)) => PrefixHas(m[k], p[1..], q);
      case (Arr(a), Idx(i)) => PrefixHas(a[i], p[1..], q);
      case _ =>
    }
  }

  // ---------------------------------------------------------------------
  // The four operations, on decoded tokens

  /** Only the empty pointer resolves to the whole document. */
  lemma {:induction false} RootOnlyAtEmpty(doc: Structure, toks: seq<string>)
    ensures Resolve(doc, toks) == Ok(At([])) <==> toks == []
  {
  }


  /** getValue: the value at an existing location. */
  function GetValue(doc: Structure, toks: seq<string>): (r: Result<Json>)
    ensures toks == [] ==> r == Ok(doc)
    ensures r.Ok? ==> exists p :: Has(doc, p) && GetAt(doc, p) == Some(r.value)
    ensures r.Err? && Resolve(doc, toks).Ok? ==> r.error == NoSuchElement
  {
    match Resolve(doc, toks)
    case Err(e) => Err(e)
    case Ok(At(p)) => Ok(GetAt(doc, p).value)
    case Ok(_) => Err(NoSuchElement)
  }

  /** testValue: the value at an existing location, or nothing at a location that does not exist yet. */
  function TestValue(doc: Structure, toks: seq<string>): (r: Result<Option<Json>>)
    ensures r.Err? <==> Resolve(doc, toks).Err?
    ensures r.Ok? && r.value.Some? <==> GetValue(doc, toks).Ok?
    ensures r.Ok? && r.value.Some? ==> GetValue(doc, toks) == Ok(r.value.value)
  {
    match Resolve(doc, toks)
    case Err(e) => Err(e)
    case Ok(At(p)) => Ok(Some(GetAt(doc, p).value))
    case Ok(_) => Ok(None)
  }

  /** add: insert into the parent array at the location, or set the member; the root has no parent. */
  function Add(doc: Structure, toks: seq<string>, v: Json): (r: Result<Structure>)
    ensures toks == [] ==> r == Err(NoParent)
    ensures r.Ok? <==> Resolve(doc, toks).Ok? && toks != []
  {
    RootOnlyAtEmpty(doc, toks);
    match Resolve(doc, toks)
    case Err(e) => Err(e)
    case Ok(At(p)) =>
      if p == [] then Err(NoParent)
      else
        LastStep(doc, p);
        Ok(AddUnder(doc, p[..|p| - 1], p[|p| - 1], v))
    case Ok(NewMember(p, k)) => Ok(AddUnder(doc, p, Key(k), v))
    case Ok(EndSlot(p)) => Ok(AddUnder(doc, p, Idx(|GetAt(doc, p).value.elems|), v))
  }

  /** replace: overwrite an existing value; the whole document only by a structure. */
  function Replace(doc: Structure, toks: seq<string>, v: Json): (r: Result<Structure>)
    ensures r.Ok? <==> GetValue(doc, toks).Ok? && (toks == [] ==> v.IsStructure())
    ensures r.Ok? && toks != [] ==> r.value.Arr? == doc.Arr?
  {
    RootOnlyAtEmpty(doc, toks);
    match Resolve(doc, toks)
    case Err(e) => Err(e)
    case Ok(At(p)) =>
      if p == [] then (if v.IsStructure() then Ok(v) else Err(ScalarRoot))
      else Ok(SetAt(doc, p, v))
    case Ok(_) => Err(NoSuchElement)
  }

  /** remove: delete an existing member or element; at the root, empty the document. */
  function Remove(doc: Structure, toks: seq<string>): (r: Result<Structure>)
    ensures r.Ok? <==> GetValue(doc, toks).Ok?
    ensures toks == [] ==> r == Ok(EmptyLike(doc))
  {
    match Resolve(doc, toks)
    case Err(e) => Err(e)
    case Ok(At(p)) =>
      if p == [] then Ok(EmptyLike(doc))
      else
        assert p == p[..|p| - 1] + [p[|p| - 1]];
        Ok(RemoveUnder(doc, p[..|p| - 1], p[|p| - 1]))
    case Ok(_) => Err(NoSuchElement)
  }

  // ---------------------------------------------------------------------
  // The operations on pointer text: the text is checked against the grammar first

  function Parse(s: string): (r: Result<seq<string>>)
    ensures r.Ok? <==> MatchesPointer(s)
  {
    if MatchesPointer(s) then Ok(Tokens(s)) else Err(InvalidPointer)
  }

  function GetValueAt(doc: Structure, s: string): (r: Result<Json>)
    ensures !MatchesPointer(s) ==> r == Err(InvalidPointer)
    ensures MatchesPointer(s) ==> r == GetValue(doc, Tokens(s))
  {
    var toks :- Parse(s);
    GetValue(doc, toks)
  }

  function AddAt(doc: Structure, s: string, v: Json): (r: Result<Structure>)
    ensures !MatchesPointer(s) ==> r == Err(InvalidPointer)
    ensures MatchesPointer(s) ==> r == Add(doc, Tokens(s), v)
  {
    var toks :- Parse(s);
    Add(doc, toks, v)
  }

  function ReplaceAt(doc: Structure, s: string, v: Json): (r: Result<Structure>)
    ensures !MatchesPointer(s) ==> r == Err(InvalidPointer)
    ensures MatchesPointer(s) ==> r == Replace(doc, Tokens(s), v)
  {
    var toks :- Parse(s);
    Replace(doc, toks, v)
  }

  function RemoveAt(doc: Structure, s: string): (r: Result<Structure>)
    ensures !MatchesPointer(s) ==> r == Err(InvalidPointer)
    ensures MatchesPointer(s) ==> r == Remove(doc, Tokens(s))
  {
    var toks :- Parse(s);
    Remove(doc, toks)
  }

  // ---------------------------------------------------------------------
  // Resolution along a known location

  /** The tokens that name location `p`: member names as they are, indices in decimal. */
  function Render(p: seq<Step>): (r: seq<string>)
    ensures |r| == |p|
  {
    if p == [] then []
    else [match p[0] case Key(k) => k case Idx(i) => IndexText(i)] + Render(p[1..])
  }

  /** The kind of container the value at `p` sits in. */
  function KindAt(p: seq<Step>, pk: ParentKind): ParentKind
  {
    if p == [] then pk else if p[|p| - 1].Idx? then ArrayParent else ObjectParent
  }

  lemma {:induction false} RenderAppend(p: seq<Step>, q: seq<Step>)
    ensures Render(p + q) == Render(p) + Render(q)
    decreases |p|
  {
    if p == [] {
      assert p + q == q;
    } else {
      assert (p + q)[0] == p[0];
      assert (p + q)[1..] == p[1..] + q;
      RenderAppend(p[1..], q);
    }
  }

  /**
   * Resolving the tokens of an existing location followed by more tokens goes
   * to that location and carries on from there.
   */
  lemma {:induction false} WalkAlong(v: Json, p: seq<Step>, rest: seq<string>, pk: ParentKind)
    requires Has(v, p)
    ensures Walk(v, Render(p) + rest, pk) == WithinPath(p, Walk(GetAt(v, p).value, rest, KindAt(p, pk)))
    decreases |p|, 1
  {
    if p == [] {
      assert Render(p) + rest == rest;
    } else {
      match p[0]
      case Key(k) => WalkAlongMember(v, p, rest, pk, k);
      case Idx(i) => WalkAlongElement(v, p, rest, pk, i);
    }
  }

  lemma {:induction false} WalkAlongMember(v: Json, p: seq<Step>, rest: seq<string>, pk: ParentKind, k: string)
    requires Has(v, p) && p != [] && p[0] == Key(k)
    ensures Walk(v, Render(p) + rest, pk) == WithinPath(p, Walk(GetAt(v, p).value, rest, KindAt(p, pk)))
    decreases |p|, 0
  {
    var tail := Render(p[1..]) + rest;
    assert Render(p) + rest == [k] + tail;
    assert v == Obj(v.members) && k in v.members;
    WalkMember(v.members, k, tail, pk);
    WalkAlong(v.members[k], p[1..], rest, ObjectParent);
    assert GetAt(v, p) == GetAt(v.members[k], p[1..]);
    assert KindAt(p[1..], ObjectParent) == KindAt(p, pk);
  }

  lemma {:induction false} WalkAlongElement(v: Json, p: seq<Step>, rest: seq<string>, pk: ParentKind, i: nat)
    requires Has(v, p) && p != [] && p[0] == Idx(i)
    ensures Walk(v, Render(p) + rest, pk) == WithinPath(p, Walk(GetAt(v, p).value, rest, KindAt(p, pk)))
    decreases |p|, 0
  {
    var tail := Render(p[1..]) + rest;
    assert Render(p) + rest == [IndexText(i)] + tail;
    assert v == Arr(v.elems) && i < |v.elems|;
    WalkElement(v.elems, i, tail, pk);
    WalkAlong(v.elems[i], p[1..], rest, ArrayParent);
    assert GetAt(v, p) == GetAt(v.elems[i], p[1..]);
    assert KindAt(p[1..], ArrayParent) == KindAt(p, pk);
  }

  /** An existing member's name as the next token goes to that member. */
  lemma {:induction false} WalkMember(m: map<string, Json>, k: string, tail: seq<string>, pk: ParentKind)
    requires k in m
    ensures Walk(Obj(m), [k] + tail, pk) == Within(Key(k), Walk(m[k], tail, ObjectParent))
  {
    assert ([k] + tail)[1..] == tail;
  }

  /** An existing element's index, in decimal, as the next token goes to that element. */
  lemma {:induction false} WalkElement(a: seq<Json>, i: nat, tail: seq<string>, pk: ParentKind)
    requires i < |a|
    ensures Walk(Arr(a), [IndexText(i)] + tail, pk) == Within(Idx(i), Walk(a[i], tail, ArrayParent))
  {
    ParseIndexText(i);
    assert IndexText(i) != "-" by { assert IsDigit(IndexText(i)[0]); }
    assert ([IndexText(i)] + tail)[1..] == tail;
  }

  lemma {:induction false} WithinPathAt(p: seq<Step>, q: seq<Step>)
    ensures WithinPath(p, Ok(At(q))) == Ok(At(p + q))
    ensures WithinPath(p, Ok(EndSlot(q))) == Ok(EndSlot(p + q))
    decreases |p|
  {
    if p == [] {
      assert p + q == q;
    } else {
      WithinPathAt(p[1..], q);
      assert [p[0]] + (p[1..] + q) == p + q;
    }
  }

  lemma {:induction false} WithinPathNew(p: seq<Step>, q: seq<Step>, k: string)
    ensures WithinPath(p, Ok(NewMember(q, k))) == Ok(NewMember(p + q, k))
    decreases |p|
  {
    if p == [] {
      assert p + q == q;
    } else {
      WithinPathNew(p[1..], q, k);
      assert [p[0]] + (p[1..] + q) == p + q;
    }
  }

  lemma {:induction false} WithinPathErr(p: seq<Step>, e: Error)
    ensures WithinPath(p, Err(e)) == Err(e)
    decreases |p|
  {
    if p != [] { WithinPathErr(p[1..], e); }
  }

  /** The tokens of an existing location resolve to that location. */
  lemma {:induction false} ResolveExisting(doc: Structure, p: seq<Step>)
    requires Has(doc, p)
    ensures Resolve(doc, Render(p)) == Ok(At(p))
  {
    WalkAlong(doc, p, [], RootParent);
    assert Render(p) + [] == Render(p);
    WithinPathAt(p, []);
    assert p + [] == p;
  }

  /** The outcome of one more token below an existing location. */
  lemma {:induction false} ResolveBelow(doc: Structure, p: seq<Step>, t: string)
    requires Has(doc, p)
    ensures Resolve(doc, Render(p) + [t]) == WithinPath(p, Walk(GetAt(doc, p).value, [t], KindAt(p, RootParent)))
  {
    WalkAlong(doc, p, [t], RootParent);
  }

  // ---------------------------------------------------------------------
  // One token on a container

  lemma {:induction false} WalkArrayIndex(a: seq<Json>, t: string, pk: ParentKind)
    requires IsIndex(t) && ParseIndex(t) < |a|
    ensures Walk(Arr(a), [t], pk) == Ok(At([Idx(ParseIndex(t))]))
  {
    assert Walk(a[ParseIndex(t)], [], ArrayParent) == Ok(At([]));
    assert [Idx(ParseIndex(t))] + [] == [Idx(ParseIndex(t))];
  }

  lemma {:induction false} WalkArrayEnd(a: seq<Json>, t: string, pk: ParentKind)
    requires t == "-" || (IsIndex(t) && ParseIndex(t) == |a|)
    ensures Walk(Arr(a), [t], pk) == Ok(EndSlot([]))
  {
  }

  lemma {:induction false} WalkObjectMember(m: map<string, Json>, k: string, pk: ParentKind)
    ensures k in m ==> Walk(Obj(m), [k], pk) == Ok(At([Key(k)]))
    ensures k !in m ==> Walk(Obj(m), [k], pk) == Ok(NewMember([], k))
  {
    if k in m {
      assert Walk(m[k], [], ObjectParent) == Ok(At([]));
      assert [Key(k)] + [] == [Key(k)];
    }
  }

  /** The location of the last step, taken apart. */
  lemma {:induction false} SplitLast(p: seq<Step>, s: Step)
    ensures var q := p + [s]; q != [] && q[..|q| - 1] == p && q[|q| - 1] == s
  {
    var q := p + [s];
    assert q[..|q| - 1] == p;
  }

  // ---------------------------------------------------------------------
  // Properties of the operations

  /** getValue at the tokens of an existing location returns the value there; replace overwrites it. */
  lemma {:induction false} GetAndReplaceExisting(doc: Structure, p: seq<Step>, v: Json)
    requires Has(doc, p)
    ensures GetValue(doc, Render(p)) == Ok(GetAt(doc, p).value)
    ensures p != [] ==> Replace(doc, Render(p), v) == Ok(SetAt(doc, p, v))
  {
    ResolveExisting(doc, p);
  }

  /** An index token below the length of an array names that element (leading zeros allowed). */
  lemma {:induction false} ResolveElement(doc: Structure, p: seq<Step>, t: string)
    requires Has(doc, p) && GetAt(doc, p).value.Arr?
    requires IsIndex(t) && ParseIndex(t) < |GetAt(doc, p).value.elems|
    ensures Resolve(doc, Render(p) + [t]) == Ok(At(p + [Idx(ParseIndex(t))]))
  {
    ResolveBelow(doc, p, t);
    WalkArrayIndex(GetAt(doc, p).value.elems, t, KindAt(p, RootParent));
    WithinPathAt(p, [Idx(ParseIndex(t))]);
  }

  /** "-", or an index equal to the length, names the slot after the last element. */
  lemma {:induction false} ResolveEnd(doc: Structure, p: seq<Step>, t: string)
    requires Has(doc, p) && GetAt(doc, p).value.Arr?
    requires t == "-" || (IsIndex(t) && ParseIndex(t) == |GetAt(doc, p).value.elems|)
    ensures Resolve(doc, Render(p) + [t]) == Ok(EndSlot(p))
  {
    ResolveBelow(doc, p, t);
    WalkArrayEnd(GetAt(doc, p).value.elems, t, KindAt(p, RootParent));
    WithinPathAt(p, []);
    assert p + [] == p;
  }

  /** A member name names the member, or the place where it would be added. */
  lemma {:induction false} ResolveMember(doc: Structure, p: seq<Step>, k: string)
    requires Has(doc, p) && GetAt(doc, p).value.Obj?
    ensures k in GetAt(doc, p).value.members ==> Resolve(doc, Render(p) + [k]) == Ok(At(p + [Key(k)]))
    ensures k !in GetAt(doc, p).value.members ==> Resolve(doc, Render(p) + [k]) == Ok(NewMember(p, k))
  {
    ResolveBelow(doc, p, k);
    WalkObjectMember(GetAt(doc, p).value.members, k, KindAt(p, RootParent));
    WithinPathAt(p, [Key(k)]);
    WithinPathNew(p, [], k);
    assert p + [] == p;
  }

  /** add at an index below the length inserts there; the later elements move one place right. */
  lemma {:induction false} AddInsertsElement(doc: Structure, p: seq<Step>, t: string, v: Json)
    requires Has(doc, p) && GetAt(doc, p).value.Arr?
    requires IsIndex(t) && ParseIndex(t) < |GetAt(doc, p).value.elems|
    ensures Add(doc, Render(p) + [t], v) == Ok(SetAt(doc, p, Arr(InsertElem(GetAt(doc, p).value.elems, ParseIndex(t), v))))
  {
    ResolveElement(doc, p, t);
    SplitLast(p, Idx(ParseIndex(t)));
  }

  /** add at "-", or at the length, appends. */
  lemma {:induction false} AddAppendsElement(doc: Structure, p: seq<Step>, t: string, v: Json)
    requires Has(doc, p) && GetAt(doc, p).value.Arr?
    requires t == "-" || (IsIndex(t) && ParseIndex(t) == |GetAt(doc, p).value.elems|)
    ensures Add(doc, Render(p) + [t], v) == Ok(SetAt(doc, p, Arr(GetAt(doc, p).value.elems + [v])))
  {
    var a := GetAt(doc, p).value.elems;
    ResolveEnd(doc, p, t);
    assert InsertElem(a, |a|, v) == a + [v];
  }

  /** An index beyond the length fails, and so does a token that is neither "-" nor an index. */
  lemma {:induction false} ArrayTokenErrors(doc: Structure, p: seq<Step>, t: string, v: Json)
    requires Has(doc, p) && GetAt(doc, p).value.Arr?
    ensures IsIndex(t) && ParseIndex(t) > |GetAt(doc, p).value.elems| ==>
      Resolve(doc, Render(p) + [t]) == Err(OutOfBounds) && GetValue(doc, Render(p) + [t]) == Err(OutOfBounds)
      && Add(doc, Render(p) + [t], v) == Err(OutOfBounds) && Replace(doc, Render(p) + [t], v) == Err(OutOfBounds)
      && Remove(doc, Render(p) + [t]) == Err(OutOfBounds)
    ensures t != "-" && !IsIndex(t) ==>
      Resolve(doc, Render(p) + [t]) == Err(NotAnIndex) && GetValue(doc, Render(p) + [t]) == Err(NotAnIndex)
      && Add(doc, Render(p) + [t], v) == Err(NotAnIndex) && Replace(doc, Render(p) + [t], v) == Err(NotAnIndex)
      && Remove(doc, Render(p) + [t]) == Err(NotAnIndex)
  {
    ResolveBelow(doc, p, t);
    WithinPathErr(p, OutOfBounds);
    WithinPathErr(p, NotAnIndex);
  }

  /** add on an object sets the member, whether or not it was there. */
  lemma {:induction false} AddSetsMember(doc: Structure, p: seq<Step>, k: string, v: Json)
    requires Has(doc, p) && GetAt(doc, p).value.Obj?
    ensures Add(doc, Render(p) + [k], v) == Ok(SetAt(doc, p, Obj(GetAt(doc, p).value.members[k := v])))
  {
    ResolveMember(doc, p, k);
    SplitLast(p, Key(k));
  }

  /** remove at an index below the length deletes that element; the later ones move one place left. */
  lemma {:induction false} RemoveDeletesElement(doc: Structure, p: seq<Step>, t: string)
    requires Has(doc, p) && GetAt(doc, p).value.Arr?
    requires IsIndex(t) && ParseIndex(t) < |GetAt(doc, p).value.elems|
    ensures Remove(doc, Render(p) + [t]) == Ok(SetAt(doc, p, Arr(DeleteElem(GetAt(doc, p).value.elems, ParseIndex(t)))))
  {
    ResolveElement(doc, p, t);
    SplitLast(p, Idx(ParseIndex(t)));
  }

  /** remove deletes an existing member. */
  lemma {:induction false} RemoveDeletesMember(doc: Structure, p: seq<Step>, k: string)
    requires Has(doc, p) && GetAt(doc, p).value.Obj? && k in GetAt(doc, p).value.members
    ensures Remove(doc, Render(p) + [k]) == Ok(SetAt(doc, p, Obj(GetAt(doc, p).value.members - {k})))
  {
    ResolveMember(doc, p, k);
    SplitLast(p, Key(k));
  }

  /** get, replace and remove of a missing member, or of the append slot, fail. */
  lemma {:induction false} MissingLocation(doc: Structure, p: seq<Step>, t: string, v: Json)
    requires Has(doc, p)
    requires || (GetAt(doc, p).value.Obj? && t !in GetAt(doc, p).value.members)
             || (GetAt(doc, p).value.Arr? && (t == "-" || (IsIndex(t) && ParseIndex(t) == |GetAt(doc, p).value.elems|)))
    ensures GetValue(doc, Render(p) + [t]) == Err(NoSuchElement)
    ensures Replace(doc, Render(p) + [t], v) == Err(NoSuchElement)
    ensures Remove(doc, Render(p) + [t]) == Err(NoSuchElement)
  {
    if GetAt(doc, p).value.Obj? {
      ResolveMember(doc, p, t);
    } else {
      ResolveEnd(doc, p, t);
    }
  }

  /** A missing member is an insertion point only for the last token. */
  lemma {:induction false} MissingIntermediate(doc: Structure, p: seq<Step>, k: string, rest: seq<string>)
    requires Has(doc, p) && GetAt(doc, p).value.Obj? && k !in GetAt(doc, p).value.members
    requires rest != []
    ensures Resolve(doc, Render(p) + ([k] + rest)) == Err(EndReached)
  {
    WalkAlong(doc, p, [k] + rest, RootParent);
    WithinPathErr(p, EndReached);
  }

  /** At the whole document: get returns it, add fails, remove empties it, replace needs a structure. */
  lemma {:induction false} RootPointer(doc: Structure, v: Json)
    ensures GetValue(doc, Tokens("")) == Ok(doc)
    ensures Add(doc, Tokens(""), v) == Err(NoParent)
    ensures Remove(doc, Tokens("")) == Ok(EmptyLike(doc))
    ensures Replace(doc, Tokens(""), v) == if v.IsStructure() then Ok(v) else Err(ScalarRoot)
  {
    SlashPointerTokens();
  }

  /** The pointer "/" names the member with the empty name. */
  lemma {:induction false} SlashPointer(m: map<string, Json>)
    requires "" in m
    ensures GetValue(Obj(m), Tokens("/")) == Ok(m[""])
  {
    SlashPointerTokens();
    WalkObjectMember(m, "", RootParent);
  }

  /** A scalar in an array, with one index token left, resolves to itself: `/0/5` on `[1]` gives 1. */
  lemma {:induction false} ThroughScalar()
    ensures GetValue(Arr([Num(1)]), ["0", "5"]) == Ok(Num(1))
    ensures Add(Arr([Num(1)]), ["0", "5"], Num(7)) == Ok(Arr([Num(7), Num(1)]))
    ensures Remove(Arr([Num(1)]), ["0", "5"]) == Ok(Arr([]))
  {
    assert IsIndex("0") && ParseIndex("0") == 0 by { assert "0"[..0] == []; }
    assert IsIndex("5");
    assert Walk(Num(1), ["5"], ArrayParent) == Ok(At([]));
    assert ["0", "5"][1..] == ["5"];
    assert [Idx(0)] + [] == [Idx(0)];
    assert Resolve(Arr([Num(1)]), ["0", "5"]) == Ok(At([Idx(0)]));
    assert [Idx(0)][..0] == [];
    assert InsertElem([Num(1)], 0, Num(7)) == [Num(7), Num(1)];
    assert DeleteElem([Num(1)], 0) == [];
  }

  /** The text "/" + t for a token with nothing to escape. */
  lemma {:induction false} PlainToken(t: string)
    requires t != [] && forall j :: 0 <= j < |t| ==> t[j] != '/' && t[j] != '~'
    ensures Tokens("/" + t) == Render([]) + [t]
  {
    SingleTokenRoundTrip(t);
    EscapePlain(t);
  }

  /** Adding at "/-" on [1,2] appends. */
  lemma {:induction false} ExampleAppend(v: Json)
    ensures Add(Arr([Num(1), Num(2)]), Tokens("/-"), v) == Ok(Arr([Num(1), Num(2), v]))
  {
    PlainToken("-");
    AddAppendsElement(Arr([Num(1), Num(2)]), [], "-", v);
    assert [Num(1), Num(2)] + [v] == [Num(1), Num(2), v];
  }

  /** Adding at "/0" on [1,2] inserts in front. */
  lemma {:induction false} ExampleInsert(v: Json)
    ensures Add(Arr([Num(1), Num(2)]), Tokens("/0"), v) == Ok(Arr([v, Num(1), Num(2)]))
  {
    PlainToken("0");
    assert IsIndex("0") && ParseIndex("0") == 0 by { assert "0"[..0] == []; }
    AddInsertsElement(Arr([Num(1), Num(2)]), [], "0", v);
    assert InsertElem([Num(1), Num(2)], 0, v) == [v, Num(1), Num(2)];
  }

  /** Removing "/a" deletes the member a. */
  lemma {:induction false} ExampleRemoveMember()
    ensures Remove(Obj(map["a" := Num(1), "b" := Num(2)]), Tokens("/a")) == Ok(Obj(map["b" := Num(2)]))
  {
    PlainToken("a");
    RemoveDeletesMember(Obj(map["a" := Num(1), "b" := Num(2)]), [], "a");
    assert map["a" := Num(1), "b" := Num(2)] - {"a"} == map["b" := Num(2)];
  }

  /** Adding at "/5" on a two-element array fails. */
  lemma {:induction false} ExampleOutOfBounds(v: Json)
    ensures Add(Arr([Num(1), Num(2)]), Tokens("/5"), v) == Err(OutOfBounds)
  {
    PlainToken("5");
    assert IsIndex("5") && ParseIndex("5") == 5 by { assert "5"[..0] == []; }
    ArrayTokenErrors(Arr([Num(1), Num(2)]), [], "5", v);
  }
}
