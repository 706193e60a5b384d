/**
 * JSON Merge Patch (RFC 7396): a patch that is an object edits the target's
 * members one by one, a null member removing the member, any other member
 * being merged into the target's member of that name; a patch that is not an
 * object replaces the target.
 */
module MergePatch {
  import opened JsonValues

  /** The members of `target` a merge starts from: none unless the target is an object. */
  function Base(target: Json): map<string, Json>
  {
    if target.Obj? then target.members else map[]
  }

  /** The value a member of the patch is merged into: the target's member, or `{}` where there is none. */
  function Under(t: map<string, Json>, k: string): Json
  {
    if k in t then t[k] else Obj(map[])
  }

  /** The merge of `patch` into `target`, section 2 of RFC 7396. */
  function Merge(target: Json, patch: Json): (r: Json)
    ensures !patch.Obj? ==> r == patch
    ensures patch.Obj? ==> r.Obj?
    ensures patch.Obj? ==> forall k :: k in patch.members && patch.members[k] == Null ==> k !in r.members
    ensures patch.Obj? ==> forall k :: k in Base(target) && k !in patch.members ==> k in r.members && r.members[k] == Base(target)[k]
    ensures patch.Obj? ==> forall k :: k in r.members ==> k in Base(target) || k in patch.members
    decreases patch
  {
    if patch.Obj? then
      var t, p := Base(target), patch.members;
      Obj(map k | k in t.Keys + p.Keys && !(k in p && p[k] == Null) ::
        if k in p then Merge(Under(t, k), p[k]) else t[k])
    else
      patch
  }

  /** The object under construction once the patch members in `done` are merged. */
  ghost function Partial(t: map<string, Json>, p: map<string, Json>, done: set<string>): map<string, Json>
    requires done <= p.Keys
  {
    map k | k in t.Keys + done && !(k in done && p[k] == Null) ::
      if k in done then Merge(Under(t, k), p[k]) else t[k]
  }

  /** One more member of the patch merged: removed if null, otherwise set to its merge. */
  lemma {:induction false} PartialStep(t: map<string, Json>, p: map<string, Json>, done: set<string>, k: string)
    requires done <= p.Keys && k in p && k !in done
    ensures p[k] == Null ==> Partial(t, p, done + {k}) == Partial(t, p, done) - {k}
    ensures p[k] != Null ==> Partial(t, p, done + {k}) == Partial(t, p, done)[k := Merge(Under(t, k), p[k])]
  {
  }

  /** With every member of the patch merged, the builder holds the merge. */
  lemma {:induction false} PartialAll(target: Json, patch: Json)
    requires patch.Obj?
    ensures Partial(Base(target), patch.members, patch.members.Keys) == Merge(target, patch).members
  {
  }

  /**
   * mergePatch: an object builder starts with the target's members (none
   * for a non-object target) and takes each member of an object patch in
   * turn.
   */
  method MergePatch(target: Json, patch: Json) returns (r: Json)
    ensures r == Merge(target, patch)
    decreases patch
  {
    if patch.Obj? {
      var t := if target.Obj? then target.members else map[];
      var p := patch.members;
      var builder := t;
      var keys := p.Keys;
      ghost var done: set<string> := {};
      while keys != {}
        invariant keys + done == p.Keys && keys !! done
        invariant builder == Partial(t, p, done)
        decreases keys
      {
        var key :| key in keys;
        var value := p[key];
        PartialStep(t, p, done, key);
        if value == Null {
          if key in t {
            builder := builder - {key};
          }
        } else if key in t {
          var merged := MergePatch(t[key], value);
          builder := builder[key := merged];
        } else {
          var merged := MergePatch(Obj(map[]), value);
          builder := builder[key := merged];
        }
        keys := keys - {key};
        done := done + {key};
      }
      PartialAll(target, patch);
      r := Obj(builder);
    } else {
      r := patch;
    }
  }

  /** A merged member of an object patch is the merge of the patch's member into the target's, or into `{}`. */
  lemma {:induction false} MergedMember(target: Json, patch: Json, k: string)
    requires patch.Obj? && k in patch.members && patch.members[k] != Null
    ensures k in Merge(target, patch).members
    ensures Merge(target, patch).members[k] == Merge(Under(Base(target), k), patch.members[k])
  {
  }

  /** Merging a patch a second time changes nothing. */
  lemma {:induction false} MergeIdempotent(target: Json, patch: Json)
    ensures Merge(Merge(target, patch), patch) == Merge(target, patch)
    decreases patch
  {
    if patch.Obj? {
      var once := Merge(target, patch);
      var twice := Merge(once, patch);
      var p := patch.members;
      forall k | k in p && p[k] != Null
        ensures twice.members[k] == once.members[k]
      {
        MergedMember(target, patch, k);
        MergedMember(once, patch, k);
        MergeIdempotent(Under(Base(target), k), p[k]);
      }
      assert twice.members == once.members;
    }
  }

  /** The example of section 1 of RFC 7396, over any values in place of its strings. */
  lemma {:induction false} RfcExample(b: Json, z: Json, e: Json, g: Json)
    requires b != Null && z != Null && !z.Obj? && e != Null && g != Null
    ensures Merge(Obj(map["a" := b, "c" := Obj(map["d" := e, "f" := g])]),
                  Obj(map["a" := z, "c" := Obj(map["f" := Null])]))
         == Obj(map["a" := z, "c" := Obj(map["d" := e])])
  {
    var target := Obj(map["a" := b, "c" := Obj(map["d" := e, "f" := g])]);
    var patch := Obj(map["a" := z, "c" := Obj(map["f" := Null])]);
    var r := Merge(target, patch);
    MergedMember(target, patch, "a");
    MergedMember(target, patch, "c");
    InnerExample(e, g);
    assert r.members.Keys == {"a", "c"};
  }

  lemma {:induction false} InnerExample(e: Json, g: Json)
    requires e != Null && g != Null
    ensures Merge(Obj(map["d" := e, "f" := g]), Obj(map["f" := Null])) == Obj(map["d" := e])
  {
    var inner := Merge(Obj(map["d" := e, "f" := g]), Obj(map["f" := Null]));
    assert inner.members == map["d" := e];
  }
}
