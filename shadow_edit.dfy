/**
 * What one edit of a container node does to its fold: a child put into an
 * array's child list at a position, a child appended under an object, a
 * child taken out of either. The other children keep their stretches, so
 * they fold to the values they were built for.
 */
module ShadowEdit {
  import opened JsonValues
  import opened ShadowModel
  import opened ShadowFold
  import opened ShadowBuild

  /** Outside node `q`, the first |ns0| nodes are as they were. */
  ghost predicate OnlyNodeChanged(ns0: seq<Node>, ns1: seq<Node>, q: nat)
  {
    |ns0| <= |ns1| && forall x :: 0 <= x < |ns0| && x != q ==> ns1[x] == ns0[x]
  }

  /** The children of an edited node that were there before still fold to their old values. */
  lemma {:induction false} OldKids(ns0: seq<Node>, ns1: seq<Node>, q: nat, hi: nat, v: Json)
    requires Shadows(ns0, q, hi, v) && OnlyNodeChanged(ns0, ns1, q)
    ensures forall i :: 0 <= i < |ns0[q].children| ==>
      q < ns0[q].children[i] < |ns0| && ns1[ns0[q].children[i]] == ns0[ns0[q].children[i]]
    ensures forall i :: 0 <= i < |ns0[q].children| ==>
      Denote(ns1, ns0[q].children[i]) == KidValue(ns0, q, v, i)
  {
    var cs := ns0[q].children;
    forall i | 0 <= i < |cs|
      ensures q < cs[i] < |ns0| && ns1[cs[i]] == ns0[cs[i]] && Denote(ns1, cs[i]) == KidValue(ns0, q, v, i)
    {
      ChildStretch(ns0, q, hi, i);
      KidKept(ns0, ns1, q, hi, v, i);
    }
  }

  /** Position `x` of a sequence with position `j` taken out is position `Skip(j, x)` of the original. */
  function Skip(j: nat, x: nat): nat
  {
    if x < j then x else x + 1
  }

  lemma {:induction false} SkipAt<T>(s: seq<T>, j: nat)
    requires j < |s|
    ensures |s[..j] + s[j + 1..]| == |s| - 1
    ensures forall x :: 0 <= x < |s| - 1 ==> (s[..j] + s[j + 1..])[x] == s[Skip(j, x)]
  {
  }

  // ---------------------------------------------------------------------
  // Arrays

  /** The children `cs` of array node `q` carry the indices 0, 1, ... and fold to the elements of `a`. */
  ghost predicate ArrayKids(ns: seq<Node>, q: nat, cs: seq<nat>, a: seq<Json>)
  {
    && |cs| == |a|
    && (forall i :: 0 <= i < |cs| ==> q < cs[i] < |ns| && IndexOf(ns, cs[i]) == i && Denote(ns, cs[i]) == a[i])
    && (forall i, j :: 0 <= i < j < |cs| ==> cs[i] != cs[j])
  }

  lemma {:induction false} ArrayKidsKept(ns0: seq<Node>, ns1: seq<Node>, q: nat, hi: nat, a: seq<Json>)
    requires Shadows(ns0, q, hi, Arr(a)) && OnlyNodeChanged(ns0, ns1, q)
    ensures ArrayKids(ns1, q, ns0[q].children, a)
  {
    var cs := ns0[q].children;
    OldKids(ns0, ns1, q, hi, Arr(a));
    ShadowsUnfold(ns0, q, hi, Arr(a));
    forall i | 0 <= i < |a| ensures IndexOf(ns1, cs[i]) == i {
      KidShadows(ns0, q, hi, Arr(a), i);
    }
  }

  /**
   * A node put at position `j` of an array's child list with index `j`
   * folds into the array with its value inserted at `j`: the stable sort
   * by index keeps it before the old element `j`.
   */
  lemma {:induction false} ArrayInsertFold(ns: seq<Node>, q: nat, cs: seq<nat>, a: seq<Json>, j: nat, c: nat, v: Json)
    requires ArrayKids(ns, q, cs, a) && j <= |a| && q < c < |ns|
    requires ns[q].val.Some? && ns[q].val.value.Arr? && ns[q].children == InsertChild(cs, j, c)
    requires IndexOf(ns, c) == j && Denote(ns, c) == v
    ensures Denote(ns, q) == Arr(InsertElem(a, j, v))
  {
    InsertedKids(ns, q, cs, a, j, c, v);
    assert ns[q].children == cs[..j] + [c] + cs[j..];
    FoldArray(ns, q, InsertElem(a, j, v));
  }

  /** The children with node `c` put at position `j` are sorted by index and fold to the array with `v` inserted at `j`. */
  lemma {:induction false} InsertedKids(ns: seq<Node>, q: nat, cs: seq<nat>, a: seq<Json>, j: nat, c: nat, v: Json)
    requires ArrayKids(ns, q, cs, a) && j <= |a| && q < c < |ns|
    requires IndexOf(ns, c) == j && Denote(ns, c) == v
    ensures var cs1, b := cs[..j] + [c] + cs[j..], InsertElem(a, j, v);
      && |cs1| == |b| && IndexSorted(ns, cs1)
      && forall x :: 0 <= x < |cs1| ==> q < cs1[x] < |ns| && Denote(ns, cs1[x]) == b[x]
  {
    var cs1 := cs[..j] + [c] + cs[j..];
    var b := InsertElem(a, j, v);
    InsertPositions(cs, j, c);
    forall x | 0 <= x < |cs1|
      ensures q < cs1[x] < |ns| && Denote(ns, cs1[x]) == b[x]
      ensures IndexOf(ns, cs1[x]) == if x <= j then x else x - 1
    {
    }
  }

  /** Where the positions of a child list with node `c` put at position `j` come from. */
  lemma {:induction false} InsertPositions(cs: seq<nat>, j: nat, c: nat)
    requires j <= |cs|
    ensures var cs1 := cs[..j] + [c] + cs[j..];
      && |cs1| == |cs| + 1 && cs1[j] == c
      && (forall x :: 0 <= x < j ==> cs1[x] == cs[x])
      && (forall x :: j < x < |cs1| ==> cs1[x] == cs[x - 1])
  {
  }

  /** An array node without the child at position `j` folds into the array without element `j`. */
  lemma {:induction false} ArrayRemoveFold(ns: seq<Node>, q: nat, cs: seq<nat>, a: seq<Json>, j: nat)
    requires ArrayKids(ns, q, cs, a) && j < |a| && q < |ns|
    requires ns[q].val == Some(Arr([])) && ns[q].children == Without(cs, cs[j])
    ensures Denote(ns, q) == Arr(DeleteElem(a, j))
  {
    WithoutAt(cs, j);
    var cs1 := cs[..j] + cs[j + 1..];
    assert ns[q].children == cs1;
    RemainingKids(ns, q, cs, a, j);
    if cs1 != [] {
      FoldArray(ns, q, DeleteElem(a, j));
    }
  }

  /** The children without the one at position `j` are sorted by index and fold to the array without element `j`. */
  lemma {:induction false} RemainingKids(ns: seq<Node>, q: nat, cs: seq<nat>, a: seq<Json>, j: nat)
    requires ArrayKids(ns, q, cs, a) && j < |a|
    ensures var cs1, b := cs[..j] + cs[j + 1..], DeleteElem(a, j);
      && |cs1| == |b| && IndexSorted(ns, cs1)
      && forall x :: 0 <= x < |cs1| ==> q < cs1[x] < |ns| && Denote(ns, cs1[x]) == b[x]
  {
    SkipAt(cs, j);
    var cs1, b := cs[..j] + cs[j + 1..], DeleteElem(a, j);
    forall x | 0 <= x < |cs1|
      ensures q < cs1[x] < |ns| && Denote(ns, cs1[x]) == b[x] && IndexOf(ns, cs1[x]) == Skip(j, x)
    {
      assert cs1[x] == cs[Skip(j, x)] && b[x] == a[Skip(j, x)];
    }
  }

  // ---------------------------------------------------------------------
  // Objects

  /** `keys` are distinct, are the member names of `m`, and `vals` are the members. */
  ghost predicate Named(keys: seq<string>, vals: seq<Json>, m: map<string, Json>)
  {
    && |keys| == |vals|
    && Distinct(keys)
    && (forall key :: key in m <==> key in keys)
    && forall i :: 0 <= i < |keys| ==> keys[i] in m && vals[i] == m[keys[i]]
  }

  /** The children `cs` of object node `q` carry the names of `m` and fold to its members. */
  ghost predicate ObjectKids(ns: seq<Node>, q: nat, cs: seq<nat>, m: map<string, Json>)
    requires q < |ns|
  {
    && (forall i :: 0 <= i < |cs| ==> q < cs[i] < |ns|)
    && Named(Keys(ns, cs), KidVals(ns, q, cs), m)
  }

  lemma {:induction false} ObjectKidsKept(ns0: seq<Node>, ns1: seq<Node>, q: nat, hi: nat, m: map<string, Json>)
    requires Shadows(ns0, q, hi, Obj(m)) && OnlyNodeChanged(ns0, ns1, q)
    ensures q < |ns1| && ObjectKids(ns1, q, ns0[q].children, m)
  {
    var cs := ns0[q].children;
    OldKids(ns0, ns1, q, hi, Obj(m));
    ObjectKeys(ns0, q, hi, m);
    assert Keys(ns1, cs) == Keys(ns0, cs);
    var keys, vals := Keys(ns0, cs), KidVals(ns1, q, cs);
    forall i | 0 <= i < |cs| ensures keys[i] in m && vals[i] == m[keys[i]] {
      assert keys[i] in keys;
    }
  }

  /** A child named `k` appended under an object node folds into the object with member `k` set. */
  lemma {:induction false} ObjectSetFold(ns: seq<Node>, q: nat, cs: seq<nat>, m: map<string, Json>, k: string, c: nat, v: Json)
    requires q < c < |ns| && ObjectKids(ns, q, cs, m)
    requires ns[q].val.Some? && ns[q].val.value.Obj? && ns[q].children == cs + [c]
    requires KeyOf(ns, c) == k && Denote(ns, c) == v
    ensures Denote(ns, q) == Obj(m[k := v])
  {
    var keys, vals := Keys(ns, cs), KidVals(ns, q, cs);
    MembersOfExact(keys, vals, m);
    KidsSnoc(ns, q, cs, c);
    MembersOfSnoc(keys, vals, k, v);
    DenoteObject(ns, q);
  }

  /** An object node with children folds to the members its children name. */
  lemma {:induction false} DenoteObject(ns: seq<Node>, q: nat)
    requires q < |ns| && ns[q].val.Some? && ns[q].val.value.Obj? && ns[q].children != []
    ensures Denote(ns, q) == Obj(MembersOf(Keys(ns, ns[q].children), KidVals(ns, q, ns[q].children)))
  {
  }

  /** One more name and value at the end set that member. */
  lemma {:induction false} MembersOfSnoc(keys: seq<string>, vals: seq<Json>, k: string, v: Json)
    requires |keys| == |vals|
    ensures MembersOf(keys + [k], vals + [v]) == MembersOf(keys, vals)[k := v]
  {
    assert (keys + [k])[..|keys|] == keys && (vals + [v])[..|vals|] == vals;
  }

  /** The names and folds of children with one more appended are the old ones with its own appended. */
  lemma {:induction false} KidsSnoc(ns: seq<Node>, q: nat, cs: seq<nat>, c: nat)
    requires q < c < |ns|
    ensures Keys(ns, cs + [c]) == Keys(ns, cs) + [KeyOf(ns, c)]
    ensures KidVals(ns, q, cs + [c]) == KidVals(ns, q, cs) + [Denote(ns, c)]
  {
  }

  lemma {:induction false} DistinctWithout(keys: seq<string>, j: nat)
    requires Distinct(keys) && j < |keys|
    ensures Distinct(keys[..j] + keys[j + 1..])
  {
    SkipAt(keys, j);
    var ks := keys[..j] + keys[j + 1..];
    forall x, y | 0 <= x < y < |ks| ensures ks[x] != ks[y] {
      assert Skip(j, x) < Skip(j, y);
    }
  }

  lemma {:induction false} MembersWithout(keys: seq<string>, m: map<string, Json>, j: nat)
    requires Distinct(keys) && j < |keys| && forall key :: key in m <==> key in keys
    ensures forall key :: key in m - {keys[j]} <==> key in keys[..j] + keys[j + 1..]
  {
    SkipAt(keys, j);
    var ks := keys[..j] + keys[j + 1..];
    forall key | key in ks ensures key in m - {keys[j]} {
      var x :| 0 <= x < |ks| && ks[x] == key;
      assert keys[Skip(j, x)] == key && Skip(j, x) != j;
    }
    forall key | key in m - {keys[j]} ensures key in ks {
      var y :| 0 <= y < |keys| && keys[y] == key;
      assert ks[if y < j then y else y - 1] == key;
    }
  }

  /** Taking out one name and its value leaves the names of the map without it. */
  lemma {:induction false} NamedWithout(keys: seq<string>, vals: seq<Json>, m: map<string, Json>, j: nat)
    requires Named(keys, vals, m) && j < |keys|
    ensures Named(keys[..j] + keys[j + 1..], vals[..j] + vals[j + 1..], m - {keys[j]})
  {
    DistinctWithout(keys, j);
    MembersWithout(keys, m, j);
    SkipAt(keys, j);
    SkipAt(vals, j);
    var ks, vs, m1 := keys[..j] + keys[j + 1..], vals[..j] + vals[j + 1..], m - {keys[j]};
    forall x | 0 <= x < |ks| ensures ks[x] in m1 && vs[x] == m1[ks[x]] {
      assert keys[Skip(j, x)] != keys[j];
    }
  }

  /** The names and folds of children with one taken out are the old ones with that one taken out. */
  lemma {:induction false} KidsWithout(ns: seq<Node>, q: nat, cs: seq<nat>, j: nat)
    requires q < |ns| && j < |cs|
    ensures Keys(ns, cs[..j] + cs[j + 1..]) == Keys(ns, cs)[..j] + Keys(ns, cs)[j + 1..]
    ensures KidVals(ns, q, cs[..j] + cs[j + 1..]) == KidVals(ns, q, cs)[..j] + KidVals(ns, q, cs)[j + 1..]
  {
    SkipAt(cs, j);
    SkipAt(Keys(ns, cs), j);
    SkipAt(KidVals(ns, q, cs), j);
  }

  /** An object node without its child named `k` folds into the object without member `k`. */
  lemma {:induction false} ObjectRemoveFold(ns: seq<Node>, q: nat, cs: seq<nat>, m: map<string, Json>, k: string)
    requires q < |ns| && ObjectKids(ns, q, cs, m) && k in m
    requires ns[q].val == Some(Obj(map[])) && ns[q].children == Without(cs, cs[KeyPos(ns, cs, k)])
    ensures Denote(ns, q) == Obj(m - {k})
  {
    var keys, vals := Keys(ns, cs), KidVals(ns, q, cs);
    var j := KeyPos(ns, cs, k);
    assert keys[j] == k;
    forall i | 0 <= i < j ensures cs[i] != cs[j] {
      assert keys[i] != keys[j];
    }
    WithoutAt(cs, j);
    NamedWithout(keys, vals, m, j);
    KidsWithout(ns, q, cs, j);
    var cs1 := cs[..j] + cs[j + 1..];
    assert ns[q].children == cs1;
    if cs1 != [] {
      DenoteObject(ns, q);
      MembersOfExact(Keys(ns, cs1), KidVals(ns, q, cs1), m - {k});
    } else {
      assert m - {k} == map[] by {
        forall key | key in m ensures key == k {
          assert key in keys;
        }
      }
    }
  }
}
