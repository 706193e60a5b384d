/**
 * The node tree a pointer operation works on, as a mutable object: the
 * nodes of the arena are the object's state, and each method does what the
 * node of the same name does to it (add a child, look a member up, walk up
 * to the root, fold the children back into the values).
 */
module NodeRefs {
  import opened JsonValues
  import opened ShadowModel
  import opened ShadowFold
  import opened ShadowBuild

  // ---------------------------------------------------------------------
  // The shape of the arena under the edits the node methods make

  /** A node without children, appended after all others, keeps the arena a tree. */
  lemma {:induction false} TreeAppend(ns: seq<Node>, n: Node)
    requires n.children == []
    requires (ns == [] && n.parent == -1) || (Tree(ns) && 0 <= n.parent < |ns|)
    ensures Tree(ns + [n])
  {
    var ns1 := ns + [n];
    forall k | 0 <= k < |ns1| ensures NoDup(ns1[k].children) {
      if k < |ns| {
        assert ns1[k] == ns[k];
      }
    }
  }

  /** A node put into the child list of its parent, where it was not yet, keeps the arena a tree. */
  lemma {:induction false} TreeInsert(ns: seq<Node>, p: nat, index: int, c: nat)
    requires Tree(ns) && p < c < |ns| && ns[c].parent == p
    requires c !in ns[p].children && index <= |ns[p].children|
    ensures Tree(ns[p := ns[p].(children := InsertChild(ns[p].children, index, c))])
  {
    var cs1 := InsertChild(ns[p].children, index, c);
    InsertChildMembers(ns[p].children, index, c);
    var ns1 := ns[p := ns[p].(children := cs1)];
    forall j | 0 <= j < |cs1| ensures p < cs1[j] < |ns1| && ns1[cs1[j]].parent == p {
      assert cs1[j] in cs1;
    }
  }

  /** The list with a node inserted holds that node and the old ones, and repeats none if they were apart. */
  lemma {:induction false} InsertChildMembers(cs: seq<nat>, index: int, c: nat)
    requires index <= |cs|
    ensures forall x :: x in InsertChild(cs, index, c) <==> x in cs || x == c
    ensures NoDup(cs) && c !in cs ==> NoDup(InsertChild(cs, index, c))
  {
    var cs1: seq<nat> := InsertChild(cs, index, c);
    forall x: nat ensures x in cs1 <==> x in cs || x == c {
      assert x in cs1 <==> x in multiset(cs1);
      assert x in cs <==> x in multiset(cs);
    }
    if NoDup(cs) && c !in cs {
      forall x: nat ensures multiset(cs1)[x] <= 1 {
        if x == c {
          assert c !in multiset(cs);
        }
      }
    }
  }

  /** Keeping every parent field and shrinking child lists keeps the arena a tree. */
  lemma {:induction false} TreeShrink(ns0: seq<Node>, ns1: seq<Node>)
    requires Tree(ns0) && |ns1| == |ns0|
    requires forall x :: 0 <= x < |ns0| ==>
      ns1[x].parent == ns0[x].parent && multiset(ns1[x].children) <= multiset(ns0[x].children)
    ensures Tree(ns1)
  {
    forall k, j | 0 <= k < |ns1| && 0 <= j < |ns1[k].children|
      ensures k < ns1[k].children[j] < |ns1| && ns1[ns1[k].children[j]].parent == k
    {
      var c := ns1[k].children[j];
      assert c in multiset(ns1[k].children);
      assert c in multiset(ns0[k].children);
      assert c in ns0[k].children;
    }
    forall k | 0 <= k < |ns1| ensures NoDup(ns1[k].children) {
      forall x: nat ensures multiset(ns1[k].children)[x] <= 1 {
        assert multiset(ns1[k].children)[x] <= multiset(ns0[k].children)[x];
      }
    }
  }

  /** Removing a node from a list removes one occurrence of it and nothing else. */
  lemma {:induction false} WithoutShrinks(cs: seq<nat>, c: nat)
    ensures multiset(Without(cs, c)) <= multiset(cs)
  {
    if cs != [] {
      assert cs == [cs[0]] + cs[1..];
      if cs[0] != c {
        WithoutShrinks(cs[1..], c);
      }
    }
  }

  // ---------------------------------------------------------------------
  // Folding the children of a node one after the other

  /** A node in the subtree of one of the children of `k` is in the subtree of `k`. */
  lemma {:induction false} UnderSomeUnder(ns: seq<Node>, k: nat, x: nat, i: nat)
    requires Tree(ns) && k < |ns| && i <= |ns[k].children|
    requires UnderSome(ns, x, ns[k].children, i)
    ensures Under(ns, x, k)
    decreases i
  {
    var cs := ns[k].children;
    if Under(ns, x, cs[i - 1]) {
      ChildUnder(ns, k, cs[i - 1]);
      UnderParent(ns, x, cs[i - 1], k);
    } else {
      UnderSomeUnder(ns, k, x, i - 1);
    }
  }

  /** A node is in none of its children's subtrees. */
  lemma {:induction false} NotUnderKids(ns: seq<Node>, k: nat, i: nat)
    requires Tree(ns) && k < |ns| && i <= |ns[k].children|
    ensures !UnderSome(ns, k, ns[k].children, i)
    decreases i
  {
    if i > 0 {
      ChildUnder(ns, k, ns[k].children[i - 1]);
      NotUnderBefore(ns, k, ns[k].children[i - 1]);
      NotUnderKids(ns, k, i - 1);
    }
  }

  /**
   * Folding the subtree of child `i` of `k`, after the subtrees of the
   * children before it: the nodes folded so far are those of the first
   * `i + 1` subtrees, each folded as it was in the arena before any of them.
   */
  lemma {:induction false} RebuildStep(ns0: seq<Node>, nc: seq<Node>, nn: seq<Node>, k: nat, i: nat)
    requires Tree(ns0) && k < |ns0| && i < |ns0[k].children|
    requires |nc| == |ns0| && |nn| == |ns0|
    requires forall x :: 0 <= x < |ns0| ==>
      nc[x] == ns0[x] || (UnderSome(ns0, x, ns0[k].children, i) && nc[x] == Folded(ns0, x))
    requires forall j :: 0 <= j < i ==> nc[ns0[k].children[j]] == Folded(ns0, ns0[k].children[j])
    requires forall x :: 0 <= x < |ns0| ==>
      nn[x] == nc[x] || (Under(nc, x, ns0[k].children[i]) && nn[x] == Folded(nc, x))
    requires nn[ns0[k].children[i]] == Folded(nc, ns0[k].children[i])
    ensures forall x :: 0 <= x < |ns0| ==>
      nn[x] == ns0[x] || (UnderSome(ns0, x, ns0[k].children, i + 1) && nn[x] == Folded(ns0, x))
    ensures forall j :: 0 <= j <= i ==> nn[ns0[k].children[j]] == Folded(ns0, ns0[k].children[j])
  {
    var cs := ns0[k].children;
    var c := cs[i];
    ChildUnder(ns0, k, c);
    forall y | 0 <= y < |ns0| ensures nc[y].parent == ns0[y].parent {
    }
    forall x | 0 <= x < |ns0| && Under(ns0, x, c) ensures Folded(nc, x) == Folded(ns0, x) && nc[x] == ns0[x] {
      NotUnderEarlier(ns0, k, x, i, i);
      forall y: nat | Under(ns0, y, x) ensures nc[y] == ns0[y] {
        UnderTrans(ns0, y, x, c);
        NotUnderEarlier(ns0, k, y, i, i);
      }
      FoldedFrame(ns0, nc, x);
    }
    forall x | 0 <= x < |ns0|
      ensures nn[x] == ns0[x] || (UnderSome(ns0, x, cs, i + 1) && nn[x] == Folded(ns0, x))
    {
      UnderSame(ns0, nc, x, c);
    }
    forall j | 0 <= j <= i ensures nn[cs[j]] == Folded(ns0, cs[j]) {
      if j < i {
        NoDupApart(cs, j, i);
        ChildUnder(ns0, k, cs[j]);
        assert Under(ns0, cs[j], cs[j]);
        SiblingsApart(ns0, cs[j], cs[j], c);
        UnderSame(ns0, nc, cs[j], c);
      } else {
        assert Under(ns0, c, c);
      }
    }
  }

  /** Two node lists that name the same members with the same values, the second one with one more pair. */
  lemma {:induction false} KeysValsSnoc(ns: seq<Node>, cs: seq<nat>, i: nat)
    requires i < |cs|
    ensures Keys(ns, cs[..i + 1]) == Keys(ns, cs[..i]) + [KeyOf(ns, cs[i])]
    ensures Vals(ns, cs[..i + 1]) == Vals(ns, cs[..i]) + [ValOf(ns, cs[i])]
    ensures MembersOf(Keys(ns, cs[..i + 1]), Vals(ns, cs[..i + 1]))
      == MembersOf(Keys(ns, cs[..i]), Vals(ns, cs[..i]))[KeyOf(ns, cs[i]) := ValOf(ns, cs[i])]
  {
    assert Keys(ns, cs[..i + 1]) == Keys(ns, cs[..i]) + [KeyOf(ns, cs[i])];
    assert Vals(ns, cs[..i + 1]) == Vals(ns, cs[..i]) + [ValOf(ns, cs[i])];
    assert Keys(ns, cs[..i + 1])[..i] == Keys(ns, cs[..i]);
    assert Vals(ns, cs[..i + 1])[..i] == Vals(ns, cs[..i]);
  }

  /** After its children, node `k` itself is folded; everything else is as the children's folds left it. */
  lemma {:induction false} RebuildFrame(ns0: seq<Node>, nf: seq<Node>, ns: seq<Node>, k: nat)
    requires Tree(ns0) && k < |ns0| && |nf| == |ns0| == |ns| && ns[k] == Folded(ns0, k)
    requires ns == nf[k := ns[k]]
    requires forall x :: 0 <= x < |ns0| ==>
      nf[x] == ns0[x] || (UnderSome(ns0, x, ns0[k].children, |ns0[k].children|) && nf[x] == Folded(ns0, x))
    ensures Tree(ns)
    ensures forall x :: 0 <= x < |ns| ==> ns[x] == ns0[x] || (Under(ns0, x, k) && ns[x] == Folded(ns0, x))
  {
    forall x | 0 <= x < |ns| ensures ns[x] == ns0[x] || (Under(ns0, x, k) && ns[x] == Folded(ns0, x)) {
      if x == k {
        assert Under(ns0, k, k);
      } else if nf[x] != ns0[x] {
        UnderSomeUnder(ns0, k, x, |ns0[k].children|);
      }
    }
    TreeFolded(ns0, ns);
  }

  /** An object node whose children are folded, given the members they name, is folded. */
  lemma {:induction false} FoldObjectNode(ns0: seq<Node>, ns: seq<Node>, k: nat, m: map<string, Json>)
    requires k < |ns0| == |ns| && ns[k] == ns0[k] && ns0[k].children != []
    requires ns0[k].val.Some? && ns0[k].val.value.Obj?
    requires forall d :: d in ns0[k].children ==> k < d < |ns0| && ns[d] == Folded(ns0, d)
    requires m == MembersOf(Keys(ns, ns0[k].children), Vals(ns, ns0[k].children))
    ensures ns[k].(val := Some(Obj(m))) == Folded(ns0, k)
  {
    FoldedKids(ns0, ns, k, ns0[k].children);
  }

  /** Once all children of `k` are folded, `k` is as it was and each child is folded. */
  lemma {:induction false} KidsFolded(ns0: seq<Node>, ns: seq<Node>, k: nat)
    requires Tree(ns0) && k < |ns0| == |ns|
    requires forall x :: 0 <= x < |ns0| ==>
      ns[x] == ns0[x] || (UnderSome(ns0, x, ns0[k].children, |ns0[k].children|) && ns[x] == Folded(ns0, x))
    requires forall j :: 0 <= j < |ns0[k].children| ==> ns[ns0[k].children[j]] == Folded(ns0, ns0[k].children[j])
    ensures ns[k] == ns0[k]
    ensures forall d :: d in ns0[k].children ==> k < d < |ns0| && ns[d] == Folded(ns0, d)
  {
    NotUnderKids(ns0, k, |ns0[k].children|);
    forall d | d in ns0[k].children ensures k < d < |ns0| && ns[d] == Folded(ns0, d) {
      ChildUnder(ns0, k, d);
    }
  }

  /** An array node whose children are folded and sorted, given the values they hold, is folded. */
  lemma {:induction false} FoldArrayNode(ns0: seq<Node>, ns: seq<Node>, k: nat, a: seq<Json>)
    requires k < |ns0| == |ns| && ns0[k].children != []
    requires ns0[k].val.Some? && ns0[k].val.value.Arr?
    requires ns[k] == ns0[k].(children := SortByIndex(ns0, ns0[k].children))
    requires forall d :: d in ns[k].children ==> k < d < |ns0| && ns[d] == Folded(ns0, d)
    requires a == Vals(ns, ns[k].children)
    ensures ns[k].(val := Some(Arr(a))) == Folded(ns0, k)
  {
    var sorted := SortByIndex(ns0, ns0[k].children);
    FoldedKids(ns0, ns, k, sorted);
    FoldedArray(ns0, k);
  }

  /** What folding an array node with children makes of it. */
  lemma {:induction false} FoldedArray(ns: seq<Node>, k: nat)
    requires k < |ns| && ns[k].children != [] && ns[k].val.Some? && ns[k].val.value.Arr?
    ensures var sorted := SortByIndex(ns, ns[k].children);
      Folded(ns, k) == ns[k].(val := Some(Arr(KidVals(ns, k, sorted))), children := sorted)
  {
  }

  /** Sorting folded children by index gives the order the fold uses, and they stay folded. */
  lemma {:induction false} SortedFolded(ns0: seq<Node>, nf: seq<Node>, ns: seq<Node>, k: nat)
    requires k < |ns0| == |nf|
    requires forall d :: d in ns0[k].children ==> k < d < |ns0| && nf[d] == Folded(ns0, d)
    requires ns == nf[k := nf[k].(children := SortByIndex(nf, ns0[k].children))]
    ensures ns[k].children == SortByIndex(ns0, ns0[k].children)
    ensures forall d :: d in ns[k].children ==> k < d < |ns0| && ns[d] == Folded(ns0, d)
  {
    var cs := ns0[k].children;
    FoldedKids(ns0, nf, k, cs);
    SortSameIndices(ns0, nf, cs);
    var sorted := SortByIndex(ns0, cs);
    forall d | d in sorted ensures k < d < |ns0| && ns[d] == Folded(ns0, d) {
      assert d in multiset(sorted);
      assert d in cs;
    }
  }

  // ---------------------------------------------------------------------
  // The nodes as an object

  /** A node tree. Node 0 is the root; placeholders hold no value. */
  class NodeTree {
    var nodes: seq<Node>

    /** Builds the tree for `target`, as constructing the root node does. */
    constructor (target: Structure)
      ensures Tree(nodes) && AllExist(nodes)
      ensures Shadows(nodes, 0, |nodes|, target)
    {
      nodes := [];
      new;
      var root := Materialize(target, -1, -2, "");
    }

    /**
     * Appends the node for `v`, with the given parent, index and name, and
     * then the nodes for its members or elements.
     */
    method Materialize(v: Json, parent: int, index: int, key: string) returns (id: nat)
      requires if nodes == [] then parent == -1 else Tree(nodes) && 0 <= parent < |nodes|
      modifies this
      ensures id == old(|nodes|) < |nodes| && Tree(nodes)
      ensures forall x :: 0 <= x < id ==> nodes[x] == old(nodes)[x]
      ensures nodes[id].parent == parent && nodes[id].index == index && nodes[id].key == key
      ensures Shadows(nodes, id, |nodes|, v)
      ensures forall x :: id <= x < |nodes| ==> nodes[x].val.Some?
      decreases v, 2
    {
      id := |nodes|;
      TreeAppend(nodes, Node(Some(v), parent, index, key, []));
      nodes := nodes + [Node(Some(v), parent, index, key, [])];
      match v {
        case Obj(m) =>
          AddMembers(id, m);
          ObjectDone(nodes, id, |nodes|, m);
        case Arr(a) =>
          AddElements(id, a);
          ArrayDone(nodes, id, |nodes|, a);
        case _ =>
          ScalarDone(nodes, id, v);
      }
    }

    /** Adds a child for every member of `m` to the last node, in whatever order the object yields them. */
    method AddMembers(id: nat, m: map<string, Json>)
      requires Tree(nodes) && id + 1 == |nodes| && nodes[id].val.Some? && nodes[id].children == []
      modifies this
      ensures id < |nodes| && Tree(nodes)
      ensures forall x :: 0 <= x < id ==> nodes[x] == old(nodes)[x]
      ensures nodes[id] == old(nodes)[id].(children := nodes[id].children)
      ensures ObjectBuilt(nodes, id, |nodes|, m, m.Keys)
      ensures forall x :: id <= x < |nodes| ==> nodes[x].val.Some?
      decreases Obj(m), 1
    {
      ObjectStart(nodes, id, m);
      var rest := m.Keys;
      while rest != {}
        invariant id < |nodes| && Tree(nodes)
        invariant forall x :: 0 <= x < id ==> nodes[x] == old(nodes)[x]
        invariant nodes[id] == old(nodes)[id].(children := nodes[id].children)
        invariant rest <= m.Keys && ObjectBuilt(nodes, id, |nodes|, m, m.Keys - rest)
        invariant forall x :: id <= x < |nodes| ==> nodes[x].val.Some?
        decreases |rest|
      {
        var k :| k in rest;
        AddMember(id, m, m.Keys - rest, k);
        assert m.Keys - rest + {k} == m.Keys - (rest - {k});
        rest := rest - {k};
      }
      assert m.Keys - rest == m.Keys;
    }

    /** Adds the child for member `k` of `m` to the last node's stretch. */
    method AddMember(id: nat, m: map<string, Json>, ghost done: set<string>, k: string)
      requires Tree(nodes) && id < |nodes| && nodes[id].val.Some?
      requires ObjectBuilt(nodes, id, |nodes|, m, done) && k in m && k !in done
      requires forall x :: id <= x < |nodes| ==> nodes[x].val.Some?
      modifies this
      ensures id < |nodes| && Tree(nodes)
      ensures forall x :: 0 <= x < id ==> nodes[x] == old(nodes)[x]
      ensures nodes[id] == old(nodes)[id].(children := nodes[id].children)
      ensures ObjectBuilt(nodes, id, |nodes|, m, done + {k})
      ensures forall x :: id <= x < |nodes| ==> nodes[x].val.Some?
      decreases Obj(m), 0
    {
      ghost var ns := nodes;
      var c := AddChild(id, Some(m[k]), -2, k);
      ObjectStep(ns, nodes, id, m, done, k);
    }

    /** Adds a child for every element of `a` to the last node, in order, each with its index. */
    method AddElements(id: nat, a: seq<Json>)
      requires Tree(nodes) && id + 1 == |nodes| && nodes[id].val.Some? && nodes[id].children == []
      modifies this
      ensures id < |nodes| && Tree(nodes)
      ensures forall x :: 0 <= x < id ==> nodes[x] == old(nodes)[x]
      ensures nodes[id] == old(nodes)[id].(children := nodes[id].children)
      ensures ArrayBuilt(nodes, id, |nodes|, a, |a|)
      ensures forall x :: id <= x < |nodes| ==> nodes[x].val.Some?
      decreases Arr(a), 1
    {
      ArrayStart(nodes, id, a);
      for i := 0 to |a|
        invariant id < |nodes| && Tree(nodes)
        invariant forall x :: 0 <= x < id ==> nodes[x] == old(nodes)[x]
        invariant nodes[id] == old(nodes)[id].(children := nodes[id].children)
        invariant ArrayBuilt(nodes, id, |nodes|, a, i)
        invariant forall x :: id <= x < |nodes| ==> nodes[x].val.Some?
      {
        AddElement(id, a, i);
      }
    }

    /** Adds the child for element `i` of `a`, with its index, to the last node's stretch. */
    method AddElement(id: nat, a: seq<Json>, i: nat)
      requires Tree(nodes) && id < |nodes| && nodes[id].val.Some?
      requires ArrayBuilt(nodes, id, |nodes|, a, i) && i < |a|
      requires forall x :: id <= x < |nodes| ==> nodes[x].val.Some?
      modifies this
      ensures id < |nodes| && Tree(nodes)
      ensures forall x :: 0 <= x < id ==> nodes[x] == old(nodes)[x]
      ensures nodes[id] == old(nodes)[id].(children := nodes[id].children)
      ensures ArrayBuilt(nodes, id, |nodes|, a, i + 1)
      ensures forall x :: id <= x < |nodes| ==> nodes[x].val.Some?
      decreases Arr(a), 0
    {
      ghost var ns := nodes;
      var c := AddChild(id, Some(a[i]), i, "");
      ArrayStep(ns, nodes, id, a, i);
    }

    /**
     * Adds a child to the existing node `p`: the tree for `w`, or a
     * placeholder when `w` is None, put at position `index` of the child
     * list when that is not negative and at its end otherwise.
     */
    method AddChild(p: nat, w: Option<Json>, index: int, key: string) returns (c: nat)
      requires Tree(nodes) && p < |nodes| && nodes[p].val.Some?
      requires index <= |nodes[p].children|
      modifies this
      ensures c == old(|nodes|) < |nodes| && Tree(nodes)
      ensures forall x :: 0 <= x < c && x != p ==> nodes[x] == old(nodes)[x]
      ensures nodes[p] == old(nodes)[p].(children := InsertChild(old(nodes)[p].children, index, c))
      ensures nodes[c].parent == p && nodes[c].index == index && nodes[c].key == key && nodes[c].val == w
      ensures w.None? ==> |nodes| == c + 1 && nodes[c].children == []
      ensures w.Some? ==> Shadows(nodes, c, |nodes|, w.value)
      ensures w.Some? ==> forall x :: c <= x < |nodes| ==> nodes[x].val.Some?
      decreases if w.Some? then w.value else Null, 3
    {
      if w.Some? {
        c := Materialize(w.value, p, index, key);
      } else {
        c := |nodes|;
        TreeAppend(nodes, Node(None, p, index, key, []));
        nodes := nodes + [Node(None, p, index, key, [])];
      }
      ghost var ns := nodes;
      assert nodes[p] == old(nodes)[p];
      Insert(p, index, c);
      if w.Some? {
        ShadowsFrame(ns, nodes, c, |nodes|, w.value);
      }
    }

    /** Puts node `c`, which names `p` as its parent, at position `index` of the child list of `p`. */
    method Insert(p: nat, index: int, c: nat)
      requires Tree(nodes) && p < c < |nodes| && nodes[c].parent == p
      requires forall j :: 0 <= j < |nodes[p].children| ==> nodes[p].children[j] < c
      requires index <= |nodes[p].children|
      modifies this
      ensures nodes == old(nodes)[p := old(nodes)[p].(children := InsertChild(old(nodes)[p].children, index, c))]
      ensures Tree(nodes)
    {
      TreeInsert(nodes, p, index, c);
      nodes := nodes[p := nodes[p].(children := InsertChild(nodes[p].children, index, c))];
    }

    /** The first child of `k` named `key`, if any. */
    method GetChild(k: nat, key: string) returns (r: Option<nat>)
      requires k < |nodes|
      ensures var cs := nodes[k].children; var j := KeyPos(nodes, cs, key);
        r == if j < |cs| then Some(cs[j]) else None
    {
      var cs := nodes[k].children;
      var i := 0;
      while i < |cs|
        invariant i <= |cs|
        invariant forall j :: 0 <= j < i ==> KeyOf(nodes, cs[j]) != key
      {
        if KeyOf(nodes, cs[i]) == key {
          return Some(cs[i]);
        }
        i := i + 1;
      }
      return None;
    }

    /** Walks up the parent fields from node `n`; that ends at the root. */
    method RootOf(n: nat) returns (r: nat)
      requires Tree(nodes) && n < |nodes|
      ensures r == 0
    {
      if nodes[n].parent < 0 {
        return n;
      }
      r := nodes[n].parent as nat;
      while nodes[r].parent >= 0
        invariant r < |nodes|
        decreases r
      {
        r := nodes[r].parent as nat;
      }
    }

    /** Sets the value node `n` holds. */
    method SetVal(n: nat, w: Option<Json>)
      requires Tree(nodes) && n < |nodes|
      modifies this
      ensures nodes == old(nodes)[n := old(nodes)[n].(val := w)] && Tree(nodes)
    {
      TreeShrink(nodes, nodes[n := nodes[n].(val := w)]);
      nodes := nodes[n := nodes[n].(val := w)];
    }

    /** Empties the child list of node `n`. */
    method ClearChildren(n: nat)
      requires Tree(nodes) && n < |nodes|
      modifies this
      ensures nodes == old(nodes)[n := old(nodes)[n].(children := [])] && Tree(nodes)
    {
      TreeShrink(nodes, nodes[n := nodes[n].(children := [])]);
      nodes := nodes[n := nodes[n].(children := [])];
    }

    /** Takes node `c` out of the child list of node `p`; `c` keeps its parent field. */
    method RemoveChild(p: nat, c: nat)
      requires Tree(nodes) && p < |nodes|
      modifies this
      ensures nodes == old(nodes)[p := old(nodes)[p].(children := Without(old(nodes)[p].children, c))]
      ensures Tree(nodes)
    {
      WithoutShrinks(nodes[p].children, c);
      TreeShrink(nodes, nodes[p := nodes[p].(children := Without(nodes[p].children, c))]);
      nodes := nodes[p := nodes[p].(children := Without(nodes[p].children, c))];
    }

    /**
     * Folds the subtree of node `k` back into values, bottom-up: a leaf or a
     * node without children stays as it is; otherwise every child is folded
     * first, then an object takes the members its children name, in child
     * order, and an array sorts its children by their index field and takes
     * their values in that order.
     */
    method Rebuild(k: nat)
      requires Tree(nodes) && k < |nodes|
      modifies this
      ensures |nodes| == |old(nodes)| && Tree(nodes)
      ensures forall x :: 0 <= x < |nodes| ==>
        nodes[x] == old(nodes)[x] || (Under(old(nodes), x, k) && nodes[x] == Folded(old(nodes), x))
      ensures nodes[k] == Folded(old(nodes), k)
      decreases |nodes| - k, 1
    {
      var n := nodes[k];
      if n.val.Some? && !n.val.value.IsStructure() {
        return;
      }
      if n.children == [] {
        return;
      }
      ghost var ns0 := nodes;
      FoldChildren(k);
      FoldNode(k, ns0);
    }

    /** Folds the subtrees of the children of `k`, one after the other. */
    method FoldChildren(k: nat)
      requires Tree(nodes) && k < |nodes|
      modifies this
      ensures |nodes| == |old(nodes)| && Tree(nodes)
      ensures forall x :: 0 <= x < |nodes| ==>
        nodes[x] == old(nodes)[x] ||
        (UnderSome(old(nodes), x, old(nodes)[k].children, |old(nodes)[k].children|) && nodes[x] == Folded(old(nodes), x))
      ensures forall j :: 0 <= j < |old(nodes)[k].children| ==>
        nodes[old(nodes)[k].children[j]] == Folded(old(nodes), old(nodes)[k].children[j])
      decreases |nodes| - k, 0
    {
      ghost var ns0 := nodes;
      var cs := nodes[k].children;
      for i := 0 to |cs|
        invariant |nodes| == |ns0| && Tree(nodes)
        invariant forall x :: 0 <= x < |ns0| ==>
          nodes[x] == ns0[x] || (UnderSome(ns0, x, cs, i) && nodes[x] == Folded(ns0, x))
        invariant forall j :: 0 <= j < i ==> nodes[cs[j]] == Folded(ns0, cs[j])
      {
        ghost var nc := nodes;
        ChildUnder(ns0, k, cs[i]);
        Rebuild(cs[i]);
        RebuildStep(ns0, nc, nodes, k, i);
      }
    }

    /** With its children folded, sets the value of node `k` from them when it is an object or an array. */
    method FoldNode(k: nat, ghost ns0: seq<Node>)
      requires Tree(ns0) && Tree(nodes) && k < |ns0| == |nodes|
      requires ns0[k].children != [] && (ns0[k].val.Some? ==> ns0[k].val.value.IsStructure())
      requires forall x :: 0 <= x < |ns0| ==>
        nodes[x] == ns0[x] || (UnderSome(ns0, x, ns0[k].children, |ns0[k].children|) && nodes[x] == Folded(ns0, x))
      requires forall j :: 0 <= j < |ns0[k].children| ==> nodes[ns0[k].children[j]] == Folded(ns0, ns0[k].children[j])
      modifies this
      ensures |nodes| == |ns0| && Tree(nodes)
      ensures forall x :: 0 <= x < |nodes| ==> nodes[x] == ns0[x] || (Under(ns0, x, k) && nodes[x] == Folded(ns0, x))
      ensures nodes[k] == Folded(ns0, k)
    {
      KidsFolded(ns0, nodes, k);
      ghost var nf := nodes;
      var n := nodes[k];
      if n.val.Some? && n.val.value.Obj? {
        SetObject(k, ns0);
      } else if n.val.Some? {
        SetArray(k, ns0);
      }
      RebuildFrame(ns0, nf, nodes, k);
    }

    /** Sets the value of object node `k` to the members its folded children name. */
    method SetObject(k: nat, ghost ns0: seq<Node>)
      requires k < |ns0| == |nodes| && nodes[k] == ns0[k] && ns0[k].children != []
      requires ns0[k].val.Some? && ns0[k].val.value.Obj?
      requires forall d :: d in ns0[k].children ==> k < d < |ns0| && nodes[d] == Folded(ns0, d)
      modifies this
      ensures nodes == old(nodes)[k := Folded(ns0, k)]
    {
      var m := BuildObject(nodes[k].children);
      FoldObjectNode(ns0, nodes, k, m);
      nodes := nodes[k := nodes[k].(val := Some(Obj(m)))];
    }

    /** Sorts the children of array node `k` by index and sets its value to theirs, in that order. */
    method SetArray(k: nat, ghost ns0: seq<Node>)
      requires k < |ns0| == |nodes| && nodes[k] == ns0[k] && ns0[k].children != []
      requires ns0[k].val.Some? && ns0[k].val.value.Arr?
      requires forall d :: d in ns0[k].children ==> k < d < |ns0| && nodes[d] == Folded(ns0, d)
      modifies this
      ensures nodes == old(nodes)[k := Folded(ns0, k)]
    {
      ghost var nf := nodes;
      var sorted := SortByIndex(nodes, nodes[k].children);
      nodes := nodes[k := nodes[k].(children := sorted)];
      SortedFolded(ns0, nf, nodes, k);
      var a := BuildArray(sorted);
      FoldArrayNode(ns0, nodes, k, a);
      nodes := nodes[k := nodes[k].(val := Some(Arr(a)))];
    }

    /** The members the children `cs` name, with the values they hold, a later child winning. */
    method BuildObject(cs: seq<nat>) returns (m: map<string, Json>)
      ensures m == MembersOf(Keys(nodes, cs), Vals(nodes, cs))
    {
      m := map[];
      for i := 0 to |cs|
        invariant m == MembersOf(Keys(nodes, cs[..i]), Vals(nodes, cs[..i]))
      {
        KeysValsSnoc(nodes, cs, i);
        m := m[KeyOf(nodes, cs[i]) := ValOf(nodes, cs[i])];
      }
      assert cs[..|cs|] == cs;
    }

    /** The values the children `cs` hold, in order. */
    method BuildArray(cs: seq<nat>) returns (a: seq<Json>)
      ensures a == Vals(nodes, cs)
    {
      a := [];
      for i := 0 to |cs|
        invariant a == Vals(nodes, cs[..i])
      {
        KeysValsSnoc(nodes, cs, i);
        a := a + [ValOf(nodes, cs[i])];
      }
      assert cs[..|cs|] == cs;
    }
  }
}
