/**
 * Building the shadow tree for a value one child at a time, as the node
 * constructor does: after each appended child the node's stretch is the
 * tree built for the members or elements added so far.
 */
module ShadowBuild {
  import opened JsonValues
  import opened ShadowModel

  /** `cs` with `c` put at position `index` when that is not negative, at the end otherwise. */
  function InsertChild(cs: seq<nat>, index: int, c: nat): (r: seq<nat>)
    requires index <= |cs|
    ensures |r| == |cs| + 1
    ensures multiset(r) == multiset(cs) + multiset{c}
    ensures index == |cs| || index < 0 ==> r == cs + [c]
  {
    if index >= 0 then
      assert cs == cs[..index] + cs[index..];
      cs[..index] + [c] + cs[index..]
    else cs + [c]
  }

  /** `ns1` is `ns0` with node `c`, after all of `ns0`, appended to the children of `k`. */
  ghost predicate Appended(ns0: seq<Node>, ns1: seq<Node>, k: nat, c: nat)
  {
    && k < |ns0| == c < |ns1|
    && (forall i :: 0 <= i < c && i != k ==> ns1[i] == ns0[i])
    && ns1[k] == ns0[k].(children := ns0[k].children + [c])
    && ns1[c].parent == k
  }

  /** Appending a child after a node's stretch makes the stretch reach the new end. */
  lemma {:induction false} AppendLayout(ns0: seq<Node>, ns1: seq<Node>, k: nat, c: nat)
    requires Appended(ns0, ns1, k, c) && Layout(ns0, k, |ns0|)
    ensures Layout(ns1, k, |ns1|)
    ensures forall j :: 0 <= j < |ns0[k].children| ==> End(ns1, k, |ns1|, j) == End(ns0, k, |ns0|, j)
    ensures End(ns1, k, |ns1|, |ns0[k].children|) == |ns1|
  {
    var cs := ns0[k].children;
    var cs1 := ns1[k].children;
    forall j | 0 <= j < |cs1| ensures k < cs1[j] < |ns1| && ns1[cs1[j]].parent == k {
      if j < |cs| {
        assert cs1[j] == cs[j] && ns1[cs[j]] == ns0[cs[j]];
      }
    }
  }

  /** A child that was there before keeps the tree built for its value. */
  lemma {:induction false} AppendKept(ns0: seq<Node>, ns1: seq<Node>, k: nat, j: nat, v: Json)
    requires Appended(ns0, ns1, k, |ns0|) && Layout(ns0, k, |ns0|) && j < |ns0[k].children|
    requires Shadows(ns0, ns0[k].children[j], End(ns0, k, |ns0|, j), v)
    ensures Shadows(ns1, ns1[k].children[j], End(ns1, k, |ns1|, j), v)
  {
    var cs := ns0[k].children;
    AppendLayout(ns0, ns1, k, |ns0|);
    ChildStretch(ns0, k, |ns0|, j);
    ShadowsFrame(ns0, ns1, cs[j], End(ns0, k, |ns0|, j), v);
  }

  // ---------------------------------------------------------------------
  // An object node, some of its members added

  /** The children of `k` are trees built for the members named `done` of `m`. */
  ghost predicate ObjectBuilt(ns: seq<Node>, k: nat, hi: nat, m: map<string, Json>, done: set<string>)
    requires k < |ns|
  {
    var cs := ns[k].children;
    && k < hi <= |ns|
    && Layout(ns, k, hi)
    && Distinct(Keys(ns, cs))
    && (forall key :: key in Keys(ns, cs) <==> key in done)
    && (forall j :: 0 <= j < |cs| ==>
          ns[cs[j]].index == -2 && ns[cs[j]].key in m && Shadows(ns, cs[j], End(ns, k, hi, j), m[ns[cs[j]].key]))
  }

  lemma {:induction false} ObjectStart(ns: seq<Node>, k: nat, m: map<string, Json>)
    requires |ns| == k + 1 && ns[k].children == []
    ensures ObjectBuilt(ns, k, |ns|, m, {})
  {
  }

  /** One more member: its tree appended as the last child. */
  lemma {:induction false} ObjectStep(ns0: seq<Node>, ns1: seq<Node>, k: nat, m: map<string, Json>, done: set<string>, key: string)
    requires k < |ns0| && ObjectBuilt(ns0, k, |ns0|, m, done)
    requires key in m && key !in done
    requires Appended(ns0, ns1, k, |ns0|)
    requires ns1[|ns0|].index == -2 && ns1[|ns0|].key == key && Shadows(ns1, |ns0|, |ns1|, m[key])
    ensures ObjectBuilt(ns1, k, |ns1|, m, done + {key})
  {
    var cs := ns0[k].children;
    AppendLayout(ns0, ns1, k, |ns0|);
    MembersKept(ns0, ns1, k, m);
    AppendKeys(ns0, ns1, k, key);
    DistinctSnoc(Keys(ns0, cs), key);
  }

  /** The members added before keep their trees. */
  lemma {:induction false} MembersKept(ns0: seq<Node>, ns1: seq<Node>, k: nat, m: map<string, Json>)
    requires k < |ns0| && Layout(ns0, k, |ns0|) && Appended(ns0, ns1, k, |ns0|)
    requires forall j :: 0 <= j < |ns0[k].children| ==>
      ns0[ns0[k].children[j]].index == -2 && ns0[ns0[k].children[j]].key in m &&
      Shadows(ns0, ns0[k].children[j], End(ns0, k, |ns0|, j), m[ns0[ns0[k].children[j]].key])
    ensures forall j :: 0 <= j < |ns0[k].children| ==>
      ns1[ns1[k].children[j]].index == -2 && ns1[ns1[k].children[j]].key in m &&
      Shadows(ns1, ns1[k].children[j], End(ns1, k, |ns1|, j), m[ns1[ns1[k].children[j]].key])
  {
    var cs := ns0[k].children;
    var cs1 := ns1[k].children;
    forall j | 0 <= j < |cs|
      ensures ns1[cs1[j]].index == -2 && ns1[cs1[j]].key in m && Shadows(ns1, cs1[j], End(ns1, k, |ns1|, j), m[ns1[cs1[j]].key])
    {
      assert cs1[j] == cs[j] && ns1[cs[j]] == ns0[cs[j]];
      AppendKept(ns0, ns1, k, j, m[ns0[cs[j]].key]);
    }
  }

  /** The names of the children after the append: the old ones, then the new child's. */
  lemma {:induction false} AppendKeys(ns0: seq<Node>, ns1: seq<Node>, k: nat, key: string)
    requires Appended(ns0, ns1, k, |ns0|) && Layout(ns0, k, |ns0|) && ns1[|ns0|].key == key
    ensures Keys(ns1, ns1[k].children) == Keys(ns0, ns0[k].children) + [key]
  {
    var cs := ns0[k].children;
    forall j | 0 <= j < |cs| ensures Keys(ns1, ns1[k].children)[j] == Keys(ns0, cs)[j] {
      assert ns1[k].children[j] == cs[j] && ns1[cs[j]] == ns0[cs[j]];
    }
  }

  lemma {:induction false} DistinctSnoc(keys: seq<string>, key: string)
    requires Distinct(keys) && key !in keys
    ensures Distinct(keys + [key])
  {
  }

  /** All members added: the node's stretch is the tree built for the object. */
  lemma {:induction false} ObjectDone(ns: seq<Node>, k: nat, hi: nat, m: map<string, Json>)
    requires k < |ns| && ObjectBuilt(ns, k, hi, m, m.Keys) && ns[k].val == Some(Obj(m))
    ensures Shadows(ns, k, hi, Obj(m))
  {
  }

  // ---------------------------------------------------------------------
  // An array node, its first elements added

  /** The children of `k` are trees built for the first `n` elements of `a`, each with its index. */
  ghost predicate ArrayBuilt(ns: seq<Node>, k: nat, hi: nat, a: seq<Json>, n: nat)
    requires k < |ns|
  {
    var cs := ns[k].children;
    && k < hi <= |ns|
    && Layout(ns, k, hi)
    && |cs| == n <= |a|
    && (forall j :: 0 <= j < |cs| ==> ns[cs[j]].index == j && Shadows(ns, cs[j], End(ns, k, hi, j), a[j]))
  }

  lemma {:induction false} ArrayStart(ns: seq<Node>, k: nat, a: seq<Json>)
    requires |ns| == k + 1 && ns[k].children == []
    ensures ArrayBuilt(ns, k, |ns|, a, 0)
  {
  }

  /** One more element: its tree appended as the last child, with its index. */
  lemma {:induction false} ArrayStep(ns0: seq<Node>, ns1: seq<Node>, k: nat, a: seq<Json>, n: nat)
    requires k < |ns0| && ArrayBuilt(ns0, k, |ns0|, a, n) && n < |a|
    requires Appended(ns0, ns1, k, |ns0|)
    requires ns1[|ns0|].index == n && Shadows(ns1, |ns0|, |ns1|, a[n])
    ensures ArrayBuilt(ns1, k, |ns1|, a, n + 1)
  {
    var cs := ns0[k].children;
    var cs1 := ns1[k].children;
    AppendLayout(ns0, ns1, k, |ns0|);
    forall j | 0 <= j < |cs|
      ensures ns1[cs1[j]].index == j && Shadows(ns1, cs1[j], End(ns1, k, |ns1|, j), a[j])
    {
      assert cs1[j] == cs[j] && ns1[cs[j]] == ns0[cs[j]];
      AppendKept(ns0, ns1, k, j, a[j]);
    }
  }

  /** All elements added: the node's stretch is the tree built for the array. */
  lemma {:induction false} ArrayDone(ns: seq<Node>, k: nat, hi: nat, a: seq<Json>)
    requires k < |ns| && ArrayBuilt(ns, k, hi, a, |a|) && ns[k].val == Some(Arr(a))
    ensures Shadows(ns, k, hi, Arr(a))
  {
  }

  /** A scalar is a single node. */
  lemma {:induction false} ScalarDone(ns: seq<Node>, k: nat, v: Json)
    requires |ns| == k + 1 && ns[k].children == [] && ns[k].val == Some(v) && !v.IsStructure()
    ensures Shadows(ns, k, |ns|, v)
  {
  }
}
