/**
 * The structural diff of two documents: a patch that turns the source into
 * the target. Two objects are compared key by key, two arrays index by index,
 * and any other pair is one replace at the current path. Each level collects
 * its lines in a fresh patch builder.
 */
module PatchDiff {
  import opened JsonValues
  import opened PointerSyntax
  import Spec = PointerSpec
  import opened PatchSpec
  import opened PatchBuilder

  // ---------------------------------------------------------------------
  // Paths

  /** The path of element `i` below `path`: the index in decimal. */
  function ElementPath(path: string, i: nat): string
  {
    path + "/" + IndexText(i)
  }

  /** The path of member `k` below `path`, the key escaped as section 4 of RFC 6901 requires. */
  function ChildPath(path: string, k: string): string
  {
    path + "/" + Escape(k)
  }

  /** The path of member `k` as the library writes it: the key spliced in as it is. */
  function ChildPathAsWritten(path: string, k: string): string
  {
    path + "/" + k
  }

  /** A member name the diff can splice into a path as it is: non-empty, without '/' or '~'. */
  predicate PlainKey(k: string)
  {
    k != [] && '/' !in k && '~' !in k
  }

  /** Every object key, at every depth, is a plain key. */
  predicate PlainKeys(v: Json)
  {
    match v
    case Arr(a) => forall i :: 0 <= i < |a| ==> PlainKeys(a[i])
    case Obj(m) => forall k :: k in m ==> PlainKey(k) && PlainKeys(m[k])
    case _ => true
  }

  /** For a plain key the path the library writes is the escaped path. */
  lemma {:induction false} PlainChildPath(path: string, k: string)
    requires PlainKey(k)
    ensures ChildPathAsWritten(path, k) == ChildPath(path, k)
  {
    EscapePlain(k);
  }

  /** `path` is the pointer text of location `l`. */
  ghost predicate Names(path: string, l: seq<Step>)
  {
    Canonical(path) && Tokens(path) == Spec.Render(l)
  }

  lemma {:induction false} ElementPathNames(path: string, l: seq<Step>, i: nat)
    requires Names(path, l)
    ensures Names(ElementPath(path, i), l + [Idx(i)])
    ensures Spec.Parse(ElementPath(path, i)) == Ok(Spec.Render(l) + [IndexText(i)])
  {
    EscapePlain(IndexText(i));
    ExtendPointer(path, IndexText(i));
    Spec.RenderAppend(l, [Idx(i)]);
  }

  /** The path the library writes for a plain key names that member. */
  lemma {:induction false} ChildPathNames(path: string, l: seq<Step>, k: string)
    requires Names(path, l) && PlainKey(k)
    ensures Names(ChildPathAsWritten(path, k), l + [Key(k)])
    ensures Spec.Parse(ChildPathAsWritten(path, k)) == Ok(Spec.Render(l) + [k])
  {
    PlainChildPath(path, k);
    EscapedChildPathNames(path, l, k);
  }

  /** The escaped path names the member, whatever its name. */
  lemma {:induction false} EscapedChildPathNames(path: string, l: seq<Step>, k: string)
    requires Names(path, l) && k != []
    ensures Names(ChildPath(path, k), l + [Key(k)])
    ensures Spec.Parse(ChildPath(path, k)) == Ok(Spec.Render(l) + [k])
  {
    ExtendPointer(path, k);
    Spec.RenderAppend(l, [Key(k)]);
  }

  // ---------------------------------------------------------------------
  // What a patch does to one location

  /** `doc` with `v` written at `l`; a structure below the root, or when `v` is one. */
  function Written(doc: Structure, l: seq<Step>, v: Json): (r: Structure)
    requires Has(doc, l) && (l == [] ==> v.IsStructure())
    ensures GetAt(r, l) == Some(v)
  {
    GetSetAt(doc, l, v);
    SetAt(doc, l, v)
  }

  /** Running `patch` on `doc` succeeds and writes `v` at location `l`, leaving the rest as it was. */
  ghost predicate Yields(doc: Structure, patch: seq<Json>, l: seq<Step>, v: Json)
  {
    Has(doc, l) && ApplySpec(doc, patch).Ok? && ApplySpec(doc, patch).value == SetAt(doc, l, v)
  }

  /**
   * What a diff at `path` may assume: the path names location `l` of `doc`,
   * `source` is there, every key is plain, and a diff of the whole document
   * is between structures.
   */
  ghost predicate Diffable(doc: Structure, l: seq<Step>, path: string, source: Json, target: Json)
  {
    Names(path, l) && GetAt(doc, l) == Some(source) && PlainKeys(source) && PlainKeys(target)
    && (l == [] ==> source.IsStructure() && target.IsStructure())
  }

  /** The empty patch writes back what is there. */
  lemma {:induction false} Unchanged(doc: Structure, l: seq<Step>, v: Json)
    requires GetAt(doc, l) == Some(v)
    ensures Yields(doc, [], l, v)
  {
    SetAtSame(doc, l);
  }

  /** Two patches that write at the same location in turn: the second write wins. */
  lemma {:induction false} Chain(doc: Structure, before: seq<Json>, after: seq<Json>, l: seq<Step>, v1: Json, v2: Json)
    requires Yields(doc, before, l, v1) && (l == [] ==> v1.IsStructure())
    requires Yields(Written(doc, l, v1), after, l, v2)
    ensures Yields(doc, before + after, l, v2)
  {
    ApplyConcat(doc, before, after);
    SetAtTwice(doc, l, v1, v2);
  }

  /** A write below location `l` of the written document is a write at `l`. */
  lemma {:induction false} Inside(doc: Structure, l: seq<Step>, v: Json, q: seq<Step>, w: Json, patch: seq<Json>)
    requires Has(doc, l) && (l == [] ==> v.IsStructure()) && Has(v, q)
    requires Yields(Written(doc, l, v), patch, l + q, w)
    ensures Yields(Written(doc, l, v), patch, l, SetAt(v, q, w))
  {
    var cur := Written(doc, l, v);
    GetSetAt(doc, l, v);
    SetAtAppend(cur, l, q, w);
  }

  /** Below location `l` of the written document is what was written. */
  lemma {:induction false} InsideGet(doc: Structure, l: seq<Step>, v: Json, q: seq<Step>)
    requires Has(doc, l) && (l == [] ==> v.IsStructure())
    ensures GetAt(Written(doc, l, v), l) == Some(v)
    ensures GetAt(Written(doc, l, v), l + q) == GetAt(v, q)
  {
    GetSetAt(doc, l, v);
    GetAtAppend(Written(doc, l, v), l, q);
  }

  // ---------------------------------------------------------------------
  // The four kinds of line a diff writes

  lemma {:induction false} ReplaceLine(doc: Structure, l: seq<Step>, path: string, v: Json, w: Json)
    requires Names(path, l) && GetAt(doc, l) == Some(v) && (l == [] ==> w.IsStructure())
    ensures Yields(doc, [LineOf(ReplaceOp(path, w))], l, w)
  {
    ApplyOne(doc, ReplaceOp(path, w));
    Spec.ResolveExisting(doc, l);
    Spec.GetAndReplaceExisting(doc, l, w);
  }

  lemma {:induction false} AppendLine(doc: Structure, l: seq<Step>, path: string, a: seq<Json>, x: Json)
    requires Names(path, l) && GetAt(doc, l) == Some(Arr(a))
    ensures Yields(doc, [LineOf(AddOp(ElementPath(path, |a|), x))], l, Arr(a + [x]))
  {
    ApplyOne(doc, AddOp(ElementPath(path, |a|), x));
    ElementPathNames(path, l, |a|);
    ParseIndexText(|a|);
    Spec.AddAppendsElement(doc, l, IndexText(|a|), x);
  }

  lemma {:induction false} RemoveElementLine(doc: Structure, l: seq<Step>, path: string, a: seq<Json>, n: nat)
    requires Names(path, l) && GetAt(doc, l) == Some(Arr(a)) && n < |a|
    ensures Yields(doc, [LineOf(RemoveOp(ElementPath(path, n)))], l, Arr(DeleteElem(a, n)))
  {
    ApplyOne(doc, RemoveOp(ElementPath(path, n)));
    ElementPathNames(path, l, n);
    ParseIndexText(n);
    Spec.RemoveDeletesElement(doc, l, IndexText(n));
  }

  lemma {:induction false} SetMemberLine(doc: Structure, l: seq<Step>, path: string, m: map<string, Json>, k: string, x: Json)
    requires Names(path, l) && GetAt(doc, l) == Some(Obj(m)) && PlainKey(k)
    ensures Yields(doc, [LineOf(AddOp(ChildPathAsWritten(path, k), x))], l, Obj(m[k := x]))
  {
    ApplyOne(doc, AddOp(ChildPathAsWritten(path, k), x));
    ChildPathNames(path, l, k);
    Spec.AddSetsMember(doc, l, k, x);
  }

  lemma {:induction false} RemoveMemberLine(doc: Structure, l: seq<Step>, path: string, m: map<string, Json>, k: string)
    requires Names(path, l) && GetAt(doc, l) == Some(Obj(m)) && k in m && PlainKey(k)
    ensures Yields(doc, [LineOf(RemoveOp(ChildPathAsWritten(path, k)))], l, Obj(m - {k}))
  {
    ApplyOne(doc, RemoveOp(ChildPathAsWritten(path, k)));
    ChildPathNames(path, l, k);
    Spec.RemoveDeletesMember(doc, l, k);
  }

  // ---------------------------------------------------------------------
  // The array diff, index by index

  /** The array after the first `i` indices are done: the target's elements, then the source's rest. */
  ghost function Progress(s: seq<Json>, t: seq<Json>, i: nat): seq<Json>
  {
    (if i <= |t| then t[..i] else t) + (if i <= |s| then s[i..] else [])
  }

  /** The state of a diff of arrays `s` and `t` after `i` indices, as `builder` runs on `doc`. */
  ghost predicate ArrayDone(doc: Structure, l: seq<Step>, path: string, s: seq<Json>, t: seq<Json>, i: nat, builder: seq<Json>)
  {
    (Diffable(doc, l, path, Arr(s), Arr(t)) && Yields(doc, builder, l, Arr(Progress(s, t, i)))) == true
  }

  lemma {:induction false} ArrayStart(doc: Structure, l: seq<Step>, path: string, s: seq<Json>, t: seq<Json>)
    requires Diffable(doc, l, path, Arr(s), Arr(t))
    ensures ArrayDone(doc, l, path, s, t, 0, [])
  {
    assert Progress(s, t, 0) == s;
    Unchanged(doc, l, Arr(s));
  }

  lemma {:induction false} ArrayEnd(doc: Structure, l: seq<Step>, path: string, s: seq<Json>, t: seq<Json>, i: nat, builder: seq<Json>)
    requires ArrayDone(doc, l, path, s, t, i, builder) && i >= |s| && i >= |t|
    ensures Yields(doc, builder, l, Arr(t))
  {
    assert Progress(s, t, i) == t;
  }

  /** The document the sub-diff of index `i` runs on. */
  ghost function ArrayCur(doc: Structure, l: seq<Step>, s: seq<Json>, t: seq<Json>, i: nat): Structure
    requires Has(doc, l)
  {
    Written(doc, l, Arr(Progress(s, t, i)))
  }

  /** An index both arrays have: the sub-diff may assume its own context. */
  lemma {:induction false} ArrayCommonReady(doc: Structure, l: seq<Step>, path: string, s: seq<Json>, t: seq<Json>, i: nat, builder: seq<Json>)
    requires ArrayDone(doc, l, path, s, t, i, builder) && i < |s| && i < |t|
    ensures Diffable(ArrayCur(doc, l, s, t, i), l + [Idx(i)], ElementPath(path, i), s[i], t[i])
  {
    var p := Progress(s, t, i);
    ProgressSets(s, t, i);
    InsideGet(doc, l, Arr(p), [Idx(i)]);
    ElementPathNames(path, l, i);
  }

  /** An index both arrays have: after the sub-diff the element is the target's. */
  lemma {:induction false} ArrayCommonDone(doc: Structure, l: seq<Step>, path: string, s: seq<Json>, t: seq<Json>, i: nat, builder: seq<Json>, sub: seq<Json>)
    requires ArrayDone(doc, l, path, s, t, i, builder) && i < |s| && i < |t|
    requires Yields(ArrayCur(doc, l, s, t, i), sub, l + [Idx(i)], t[i])
    ensures ArrayDone(doc, l, path, s, t, i + 1, builder + sub)
  {
    var p := Progress(s, t, i);
    ProgressSets(s, t, i);
    assert [Idx(i)][1..] == [];
    assert SetAt(Arr(p), [Idx(i)], t[i]) == Arr(p[i := t[i]]);
    Inside(doc, l, Arr(p), [Idx(i)], t[i], sub);
    Chain(doc, builder, sub, l, Arr(p), Arr(p[i := t[i]]));
  }

  /** An index both arrays have with equal elements: nothing to do. */
  lemma {:induction false} ArraySame(doc: Structure, l: seq<Step>, path: string, s: seq<Json>, t: seq<Json>, i: nat, builder: seq<Json>)
    requires ArrayDone(doc, l, path, s, t, i, builder) && i < |s| && i < |t| && s[i] == t[i]
    ensures ArrayDone(doc, l, path, s, t, i + 1, builder)
  {
    ProgressSets(s, t, i);
    assert t[i] == s[i];
    assert Progress(s, t, i)[i := t[i]] == Progress(s, t, i);
  }

  /** At an index both arrays have, the progress still holds the source's element, and one more index sets the target's. */
  lemma {:induction false} ProgressSets(s: seq<Json>, t: seq<Json>, i: nat)
    requires i < |s| && i < |t|
    ensures |Progress(s, t, i)| == |s| && Progress(s, t, i)[i] == s[i]
    ensures Progress(s, t, i)[i := t[i]] == Progress(s, t, i + 1)
  {
  }

  /** Past the target's end the progress is the target followed by the source's rest, and one more index deletes the element after the target's. */
  lemma {:induction false} ProgressShrinks(s: seq<Json>, t: seq<Json>, i: nat)
    requires |t| <= i < |s|
    ensures Progress(s, t, i) == t + s[i..]
    ensures DeleteElem(Progress(s, t, i), |t|) == Progress(s, t, i + 1)
  {
    assert s[i..] == [s[i]] + s[i + 1..];
  }

  /** Past the source's end the progress is the target's prefix, and one more index appends one element. */
  lemma {:induction false} ProgressGrows(s: seq<Json>, t: seq<Json>, i: nat)
    requires |s| <= i < |t|
    ensures Progress(s, t, i) == t[..i]
    ensures Progress(s, t, i) + [t[i]] == Progress(s, t, i + 1)
  {
    assert t[..i] + [t[i]] == t[..i + 1];
  }

  /** An index only the target has: the element is appended. */
  lemma {:induction false} ArrayAddDone(doc: Structure, l: seq<Step>, path: string, s: seq<Json>, t: seq<Json>, i: nat, builder: seq<Json>)
    requires ArrayDone(doc, l, path, s, t, i, builder) && |s| <= i < |t|
    ensures ArrayDone(doc, l, path, s, t, i + 1, builder + [LineOf(AddOp(ElementPath(path, i), t[i]))])
  {
    var p := Progress(s, t, i);
    ProgressGrows(s, t, i);
    InsideGet(doc, l, Arr(p), []);
    AppendLine(ArrayCur(doc, l, s, t, i), l, path, p, t[i]);
    Chain(doc, builder, [LineOf(AddOp(ElementPath(path, i), t[i]))], l, Arr(p), Arr(p + [t[i]]));
  }

  /** An index only the source has: the element after the target's last is removed. */
  lemma {:induction false} ArrayRemoveDone(doc: Structure, l: seq<Step>, path: string, s: seq<Json>, t: seq<Json>, i: nat, builder: seq<Json>)
    requires ArrayDone(doc, l, path, s, t, i, builder) && |t| <= i < |s|
    ensures ArrayDone(doc, l, path, s, t, i + 1, builder + [LineOf(RemoveOp(ElementPath(path, |t|)))])
  {
    var p := Progress(s, t, i);
    ProgressShrinks(s, t, i);
    InsideGet(doc, l, Arr(p), []);
    RemoveElementLine(ArrayCur(doc, l, s, t, i), l, path, p, |t|);
    Chain(doc, builder, [LineOf(RemoveOp(ElementPath(path, |t|)))], l, Arr(p), Arr(DeleteElem(p, |t|)));
  }

  // ---------------------------------------------------------------------
  // The object diff, key by key

  /** The members after the keys in `done` are handled: the target's for those keys, the source's for the rest. */
  ghost function Merged(s: map<string, Json>, t: map<string, Json>, done: set<string>): map<string, Json>
  {
    map k | k in (s.Keys - done) + (t.Keys * done) :: if k in done then t[k] else s[k]
  }

  /** A key the target has: before it is handled it holds the source's member, if any, and handling it sets the target's. */
  lemma {:induction false} MergedSets(s: map<string, Json>, t: map<string, Json>, done: set<string>, k: string)
    requires k in t
    ensures k in s && k !in done ==> k in Merged(s, t, done) && Merged(s, t, done)[k] == s[k]
    ensures Merged(s, t, done)[k := t[k]] == Merged(s, t, done + {k})
  {
  }

  /** A key only the source has: before it is handled it is there, and handling it deletes it. */
  lemma {:induction false} MergedDrops(s: map<string, Json>, t: map<string, Json>, done: set<string>, k: string)
    requires k in s && k !in t && k !in done
    ensures k in Merged(s, t, done)
    ensures Merged(s, t, done) - {k} == Merged(s, t, done + {k})
  {
  }

  /** A key with equal members on both sides: handling it changes nothing. */
  lemma {:induction false} MergedSame(s: map<string, Json>, t: map<string, Json>, done: set<string>, k: string)
    requires k in s && k in t && s[k] == t[k]
    ensures Merged(s, t, done) == Merged(s, t, done + {k})
  {
  }

  ghost predicate ObjectDone(doc: Structure, l: seq<Step>, path: string, s: map<string, Json>, t: map<string, Json>, done: set<string>, builder: seq<Json>)
  {
    Diffable(doc, l, path, Obj(s), Obj(t)) && Yields(doc, builder, l, Obj(Merged(s, t, done)))
  }

  lemma {:induction false} ObjectStart(doc: Structure, l: seq<Step>, path: string, s: map<string, Json>, t: map<string, Json>)
    requires Diffable(doc, l, path, Obj(s), Obj(t))
    ensures ObjectDone(doc, l, path, s, t, {}, [])
  {
    assert Merged(s, t, {}) == s;
    Unchanged(doc, l, Obj(s));
  }

  lemma {:induction false} ObjectEnd(doc: Structure, l: seq<Step>, path: string, s: map<string, Json>, t: map<string, Json>, done: set<string>, builder: seq<Json>)
    requires ObjectDone(doc, l, path, s, t, done, builder) && done == s.Keys + t.Keys
    ensures Yields(doc, builder, l, Obj(t))
  {
    assert Merged(s, t, done) == t;
  }

  ghost function ObjectCur(doc: Structure, l: seq<Step>, s: map<string, Json>, t: map<string, Json>, done: set<string>): Structure
    requires Has(doc, l)
  {
    Written(doc, l, Obj(Merged(s, t, done)))
  }

  lemma {:induction false} ObjectCommonReady(doc: Structure, l: seq<Step>, path: string, s: map<string, Json>, t: map<string, Json>, done: set<string>, builder: seq<Json>, k: string)
    requires ObjectDone(doc, l, path, s, t, done, builder) && k in s && k in t && k !in done
    ensures Diffable(ObjectCur(doc, l, s, t, done), l + [Key(k)], ChildPathAsWritten(path, k), s[k], t[k])
  {
    var m := Merged(s, t, done);
    MergedSets(s, t, done, k);
    InsideGet(doc, l, Obj(m), [Key(k)]);
    ChildPathNames(path, l, k);
  }

  lemma {:induction false} ObjectCommonDone(doc: Structure, l: seq<Step>, path: string, s: map<string, Json>, t: map<string, Json>, done: set<string>, builder: seq<Json>, k: string, sub: seq<Json>)
    requires ObjectDone(doc, l, path, s, t, done, builder) && k in s && k in t && k !in done
    requires Yields(ObjectCur(doc, l, s, t, done), sub, l + [Key(k)], t[k])
    ensures ObjectDone(doc, l, path, s, t, done + {k}, builder + sub)
  {
    var m := Merged(s, t, done);
    MergedSets(s, t, done, k);
    assert [Key(k)][1..] == [];
    assert SetAt(Obj(m), [Key(k)], t[k]) == Obj(m[k := t[k]]);
    Inside(doc, l, Obj(m), [Key(k)], t[k], sub);
    Chain(doc, builder, sub, l, Obj(m), Obj(m[k := t[k]]));
  }

  lemma {:induction false} ObjectSame(doc: Structure, l: seq<Step>, path: string, s: map<string, Json>, t: map<string, Json>, done: set<string>, builder: seq<Json>, k: string)
    requires ObjectDone(doc, l, path, s, t, done, builder) && k in s && k in t && s[k] == t[k]
    ensures ObjectDone(doc, l, path, s, t, done + {k}, builder)
  {
    MergedSame(s, t, done, k);
  }

  lemma {:induction false} ObjectAddDone(doc: Structure, l: seq<Step>, path: string, s: map<string, Json>, t: map<string, Json>, done: set<string>, builder: seq<Json>, k: string)
    requires ObjectDone(doc, l, path, s, t, done, builder) && k !in s && k in t
    ensures ObjectDone(doc, l, path, s, t, done + {k}, builder + [LineOf(AddOp(ChildPathAsWritten(path, k), t[k]))])
  {
    var m := Merged(s, t, done);
    MergedSets(s, t, done, k);
    InsideGet(doc, l, Obj(m), []);
    SetMemberLine(ObjectCur(doc, l, s, t, done), l, path, m, k, t[k]);
    Chain(doc, builder, [LineOf(AddOp(ChildPathAsWritten(path, k), t[k]))], l, Obj(m), Obj(m[k := t[k]]));
  }

  lemma {:induction false} ObjectRemoveDone(doc: Structure, l: seq<Step>, path: string, s: map<string, Json>, t: map<string, Json>, done: set<string>, builder: seq<Json>, k: string)
    requires ObjectDone(doc, l, path, s, t, done, builder) && k in s && k !in t && k !in done
    ensures ObjectDone(doc, l, path, s, t, done + {k}, builder + [LineOf(RemoveOp(ChildPathAsWritten(path, k)))])
  {
    var m := Merged(s, t, done);
    MergedDrops(s, t, done, k);
    InsideGet(doc, l, Obj(m), []);
    RemoveMemberLine(ObjectCur(doc, l, s, t, done), l, path, m, k);
    Chain(doc, builder, [LineOf(RemoveOp(ChildPathAsWritten(path, k)))], l, Obj(m), Obj(m - {k}));
  }

  // ---------------------------------------------------------------------
  // The diff

  /**
   * diff of two documents. The member paths it writes splice keys in
   * unescaped, so the patch is proved to turn the source into the target
   * when every key is plain (see `UnescapedKeyFails` for one that is not).
   */
  method Diff(source: Structure, target: Structure) returns (r: seq<Json>)
    ensures PlainKeys(source) && PlainKeys(target) ==> ApplySpec(source, r) == Ok(target)
    ensures source == target ==> r == []
  {
    ghost var ok := PlainKeys(source) && PlainKeys(target);
    if ok {
      SlashPointerTokens();
      assert Names("", []);
    }
    r := DiffAt("", source, target, source, []);
  }

  /** The diff at `path`: objects key by key, arrays index by index, anything else one replace. */
  method DiffAt(path: string, source: Json, target: Json, ghost doc: Structure, ghost l: seq<Step>) returns (r: seq<Json>)
    ensures Diffable(doc, l, path, source, target) ==> Yields(doc, r, l, target)
    ensures !(source.Obj? && target.Obj?) && !(source.Arr? && target.Arr?) ==> r == [LineOf(ReplaceOp(path, target))]
    ensures source == target && source.IsStructure() ==> r == []
    decreases source, 3
  {
    if source.Obj? && target.Obj? {
      r := DiffObjects(path, source, target, doc, l);
    } else if source.Arr? && target.Arr? {
      r := DiffArrays(path, source, target, doc, l);
    } else {
      var pb := new JsonPatchBuilder();
      pb.Replace(path, target);
      r := pb.Build();
      assert r == [LineOf(ReplaceOp(path, target))];
      if Diffable(doc, l, path, source, target) {
        ReplaceLine(doc, l, path, source, target);
      }
    }
  }

  /**
   * The array diff, index by index up to the longer length. Past the end of
   * the target every index removes the element just after the target's last,
   * which is where the running offset puts it.
   */
  method DiffArrays(path: string, source: Json, target: Json, ghost doc: Structure, ghost l: seq<Step>) returns (r: seq<Json>)
    requires source.Arr? && target.Arr?
    ensures Diffable(doc, l, path, source, target) ==> Yields(doc, r, l, target)
    ensures source == target ==> r == []
    decreases source, 2
  {
    ghost var ok := Diffable(doc, l, path, source, target);
    var pb := new JsonPatchBuilder();
    if ok {
      ArrayStart(doc, l, path, source.elems, target.elems);
    }
    var offset := 0;
    var i := 0;
    while i < |source.elems| || i < |target.elems|
      invariant offset == if i <= |target.elems| then 0 else |target.elems| - i
      invariant ok ==> ArrayDone(doc, l, path, source.elems, target.elems, i, pb.builder)
      invariant source == target ==> pb.builder == []
      decreases |source.elems| + |target.elems| - i
    {
      DiffElement(pb, path, source, target, i, offset, doc, l, ok);
      if i >= |target.elems| {
        offset := offset - 1;
      }
      i := i + 1;
    }
    r := pb.Build();
    if ok {
      ArrayEnd(doc, l, path, source.elems, target.elems, i, r);
    }
  }

  /**
   * Index `i` of the array diff, with the builder of the enclosing diff:
   * unequal elements at an index both arrays have get their sub-diff, an
   * index only the target has an add, an index only the source has a remove.
   */
  method DiffElement(pb: JsonPatchBuilder, path: string, source: Json, target: Json, i: nat, offset: int, ghost doc: Structure, ghost l: seq<Step>, ghost ok: bool)
    requires source.Arr? && target.Arr? && (i < |source.elems| || i < |target.elems|)
    requires offset == if i <= |target.elems| then 0 else |target.elems| - i
    requires ok ==> ArrayDone(doc, l, path, source.elems, target.elems, i, pb.builder)
    modifies pb
    ensures ok ==> ArrayDone(doc, l, path, source.elems, target.elems, i + 1, pb.builder)
    ensures i < |source.elems| && i < |target.elems| && source.elems[i] == target.elems[i] ==> pb.builder == old(pb.builder)
    ensures |source.elems| <= i < |target.elems| ==> pb.builder == old(pb.builder) + [LineOf(AddOp(ElementPath(path, i), target.elems[i]))]
    ensures |target.elems| <= i ==> pb.builder == old(pb.builder) + [LineOf(RemoveOp(ElementPath(path, |target.elems|)))]
    decreases source, 1
  {
    var s, t := source.elems, target.elems;
    if i < |t| {
      if i < |s| {
        DiffCommon(pb, path, s, t, i, doc, l, ok);
      } else {
        AddElement(pb, path, s, t, i, offset, doc, l, ok);
      }
    } else {
      RemoveElement(pb, path, s, t, i, offset, doc, l, ok);
    }
  }

  /** An index only the target has: its element added there. */
  method AddElement(pb: JsonPatchBuilder, path: string, s: seq<Json>, t: seq<Json>, i: nat, offset: int, ghost doc: Structure, ghost l: seq<Step>, ghost ok: bool)
    requires |s| <= i < |t| && offset == 0
    requires ok ==> ArrayDone(doc, l, path, s, t, i, pb.builder)
    modifies pb
    ensures ok ==> ArrayDone(doc, l, path, s, t, i + 1, pb.builder)
    ensures pb.builder == old(pb.builder) + [LineOf(AddOp(ElementPath(path, i), t[i]))]
  {
    ghost var before := pb.builder;
    pb.Add(ElementPath(path, i + offset), t[i]);
    if ok {
      ArrayAddDone(doc, l, path, s, t, i, before);
    }
  }

  /** An index only the source has: the element at the target's length removed, once per such index. */
  method RemoveElement(pb: JsonPatchBuilder, path: string, s: seq<Json>, t: seq<Json>, i: nat, offset: int, ghost doc: Structure, ghost l: seq<Step>, ghost ok: bool)
    requires |t| <= i < |s| && offset == |t| - i
    requires ok ==> ArrayDone(doc, l, path, s, t, i, pb.builder)
    modifies pb
    ensures ok ==> ArrayDone(doc, l, path, s, t, i + 1, pb.builder)
    ensures pb.builder == old(pb.builder) + [LineOf(RemoveOp(ElementPath(path, |t|)))]
  {
    ghost var before := pb.builder;
    pb.Remove(ElementPath(path, i + offset));
    if ok {
      ArrayRemoveDone(doc, l, path, s, t, i, before);
    }
  }

  /** An index both arrays have: the sub-diff of its elements, nothing where they are equal. */
  method DiffCommon(pb: JsonPatchBuilder, path: string, s: seq<Json>, t: seq<Json>, i: nat, ghost doc: Structure, ghost l: seq<Step>, ghost ok: bool)
    requires i < |s| && i < |t|
    requires ok ==> ArrayDone(doc, l, path, s, t, i, pb.builder)
    modifies pb
    ensures ok ==> ArrayDone(doc, l, path, s, t, i + 1, pb.builder)
    ensures s[i] == t[i] ==> pb.builder == old(pb.builder)
    decreases Arr(s), 0
  {
    ghost var before := pb.builder;
    if t[i] != s[i] {
      ghost var cur := if ok then ArrayCur(doc, l, s, t, i) else doc;
      if ok {
        ArrayCommonReady(doc, l, path, s, t, i, before);
      }
      var sub := DiffAt(ElementPath(path, i), s[i], t[i], cur, l + [Idx(i)]);
      pb.AddPatches(sub);
      if ok {
        ArrayCommonDone(doc, l, path, s, t, i, before, sub);
      }
    } else if ok {
      ArraySame(doc, l, path, s, t, i, before);
    }
  }

  /** The object diff, over the keys of both objects in no particular order. */
  method DiffObjects(path: string, source: Json, target: Json, ghost doc: Structure, ghost l: seq<Step>) returns (r: seq<Json>)
    requires source.Obj? && target.Obj?
    ensures Diffable(doc, l, path, source, target) ==> Yields(doc, r, l, target)
    ensures source == target ==> r == []
    decreases source, 1
  {
    ghost var ok := Diffable(doc, l, path, source, target);
    var pb := new JsonPatchBuilder();
    if ok {
      ObjectStart(doc, l, path, source.members, target.members);
    }
    var keys := source.members.Keys + target.members.Keys;
    ghost var done: set<string> := {};
    while keys != {}
      invariant keys + done == source.members.Keys + target.members.Keys && keys !! done
      invariant ok ==> ObjectDone(doc, l, path, source.members, target.members, done, pb.builder)
      invariant source == target ==> pb.builder == []
      decreases keys
    {
      var key :| key in keys;
      DiffMember(pb, path, source, target, key, doc, l, done, ok);
      keys := keys - {key};
      done := done + {key};
    }
    r := pb.Build();
    if ok {
      ObjectEnd(doc, l, path, source.members, target.members, done, r);
    }
  }

  /**
   * Key `key` of the object diff, with the builder of the enclosing diff: a
   * key in both objects with unequal values gets its sub-diff, a key only in
   * the target an add, a key only in the source a remove.
   */
  method DiffMember(pb: JsonPatchBuilder, path: string, source: Json, target: Json, key: string, ghost doc: Structure, ghost l: seq<Step>, ghost done: set<string>, ghost ok: bool)
    requires source.Obj? && target.Obj? && key in source.members.Keys + target.members.Keys && key !in done
    requires ok ==> ObjectDone(doc, l, path, source.members, target.members, done, pb.builder)
    modifies pb
    ensures ok ==> ObjectDone(doc, l, path, source.members, target.members, done + {key}, pb.builder)
    ensures source == target ==> pb.builder == old(pb.builder)
    ensures key !in source.members ==> pb.builder == old(pb.builder) + [LineOf(AddOp(ChildPathAsWritten(path, key), target.members[key]))]
    ensures key !in target.members ==> pb.builder == old(pb.builder) + [LineOf(RemoveOp(ChildPathAsWritten(path, key)))]
    ensures key in source.members && key in target.members && source.members[key] == target.members[key] ==> pb.builder == old(pb.builder)
    ensures key in source.members && key in target.members ==> |old(pb.builder)| <= |pb.builder| && pb.builder[..|old(pb.builder)|] == old(pb.builder)
    decreases source, 0
  {
    var s, t := source.members, target.members;
    ghost var before := pb.builder;
    if key in t {
      if key in s {
        if t[key] != s[key] {
          ghost var cur := if ok then ObjectCur(doc, l, s, t, done) else doc;
          if ok {
            ObjectCommonReady(doc, l, path, s, t, done, before, key);
          }
          var sub := DiffAt(ChildPathAsWritten(path, key), s[key], t[key], cur, l + [Key(key)]);
          pb.AddPatches(sub);
          if ok {
            ObjectCommonDone(doc, l, path, s, t, done, before, key, sub);
          }
        } else if ok {
          ObjectSame(doc, l, path, s, t, done, before, key);
        }
      } else {
        pb.Add(ChildPathAsWritten(path, key), t[key]);
        if ok {
          ObjectAddDone(doc, l, path, s, t, done, before, key);
        }
      }
    } else {
      pb.Remove(ChildPathAsWritten(path, key));
      if ok {
        ObjectRemoveDone(doc, l, path, s, t, done, before, key);
      }
    }
  }

  // ---------------------------------------------------------------------
  // Keys holding '/' or '~'

  /** Two plain tokens make a two-token pointer. */
  lemma {:induction false} TwoTokens(a: string, b: string)
    requires PlainKey(a) && PlainKey(b)
    ensures Spec.Parse("/" + a + "/" + b) == Ok([a, b])
  {
    SlashPointerTokens();
    assert Canonical("");
    EscapePlain(a);
    EscapePlain(b);
    ExtendPointer("", a);
    assert "" + "/" + a == "/" + a;
    assert Tokens("/" + a) == [a];
    ExtendPointer("/" + a, b);
    assert Tokens("/" + a + "/" + b) == [a] + [b];
    assert [a] + [b] == [a, b];
  }

  /**
   * A key spliced into the path unescaped: for a member named "a/b", the
   * remove the diff writes looks for member "a" and fails.
   */
  lemma {:induction false} UnescapedKeyFails(a: string, b: string, v: Json)
    requires PlainKey(a) && PlainKey(b)
    ensures ApplySpec(Obj(map[a + "/" + b := v]), [LineOf(RemoveOp(ChildPathAsWritten("", a + "/" + b)))]) == Err(EndReached)
  {
    var doc := Obj(map[a + "/" + b := v]);
    assert ChildPathAsWritten("", a + "/" + b) == "/" + a + "/" + b;
    ApplyOne(doc, RemoveOp("/" + a + "/" + b));
    TwoTokens(a, b);
    assert |a| < |a + "/" + b|;
    Spec.MissingIntermediate(doc, [], a, [b]);
    assert Spec.Render([]) + ([a] + [b]) == [a, b];
  }

  /** With the key escaped, the remove of any member of the document removes exactly that member. */
  lemma {:induction false} EscapedKeyRemoves(m: map<string, Json>, k: string)
    requires k in m && k != []
    ensures ApplySpec(Obj(m), [LineOf(RemoveOp(ChildPath("", k)))]) == Ok(Obj(m - {k}))
  {
    SlashPointerTokens();
    assert Names("", []);
    ApplyOne(Obj(m), RemoveOp(ChildPath("", k)));
    EscapedChildPathNames("", [], k);
    Spec.RemoveDeletesMember(Obj(m), [], k);
  }
}
