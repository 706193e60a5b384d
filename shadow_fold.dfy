/**
 * What folding a shadow tree does to each node, and why the fold of one
 * subtree cannot disturb another: every node has one parent, so the
 * subtrees of two different children of a node share no node.
 */
module ShadowFold {
  import opened JsonValues
  import opened ShadowModel

  /** No node id occurs twice in a child list. */
  ghost predicate NoDup(cs: seq<nat>)
  {
    forall c :: multiset(cs)[c] <= 1
  }

  /**
   * The arena is a tree: besides `Linked`, every child names its parent in
   * its `parent` field, and no child list repeats a node.
   */
  ghost predicate Tree(ns: seq<Node>)
  {
    && Linked(ns)
    && (forall k, j :: 0 <= k < |ns| && 0 <= j < |ns[k].children| ==> ns[ns[k].children[j]].parent == k)
    && (forall k :: 0 <= k < |ns| ==> NoDup(ns[k].children))
  }

  /** Two positions of a list without repeats hold different nodes. */
  lemma {:induction false} NoDupApart(cs: seq<nat>, i: nat, j: nat)
    requires NoDup(cs) && i < j < |cs|
    ensures cs[i] != cs[j]
  {
    var v := cs[j];
    assert cs == cs[..j] + [v] + cs[j + 1..];
    assert multiset(cs)[v] == multiset(cs[..j])[v] + multiset{v}[v] + multiset(cs[j + 1..])[v];
    assert cs[..j][i] == cs[i];
    assert cs[i] in multiset(cs[..j]);
  }

  /** Node `x` lies in the subtree of node `c`: following parents from `x` reaches `c`. */
  ghost predicate Under(ns: seq<Node>, x: nat, c: nat)
    decreases x
  {
    x < |ns| && (x == c || (c < x && 0 <= ns[x].parent < x && Under(ns, ns[x].parent as nat, c)))
  }

  /** The subtree of a child lies inside the subtree of its parent. */
  lemma {:induction false} UnderParent(ns: seq<Node>, x: nat, d: nat, k: nat)
    requires Under(ns, x, d) && d < |ns| && ns[d].parent == k && k < d
    ensures Under(ns, x, k)
    decreases x
  {
    if x != d {
      UnderParent(ns, ns[x].parent as nat, d, k);
    }
  }

  /** No node before `c` lies in the subtree of `c`. */
  lemma {:induction false} NotUnderBefore(ns: seq<Node>, x: nat, c: nat)
    requires x < c
    ensures !Under(ns, x, c)
  {
  }

  /** Two different nodes with the same parent have disjoint subtrees. */
  lemma {:induction false} SiblingsApart(ns: seq<Node>, x: nat, c1: nat, c2: nat)
    requires c1 != c2 && c1 < |ns| && c2 < |ns|
    requires 0 <= ns[c1].parent && ns[c1].parent == ns[c2].parent && ns[c1].parent < c1 && ns[c2].parent < c2
    ensures Under(ns, x, c1) ==> !Under(ns, x, c2)
    decreases x
  {
    var k := ns[c1].parent as nat;
    NotUnderBefore(ns, k, c1);
    NotUnderBefore(ns, k, c2);
    if Under(ns, x, c1) && x != c1 {
      SiblingsApart(ns, ns[x].parent as nat, c1, c2);
    }
  }

  /** A node of a subtree is never before the subtree's top. */
  lemma {:induction false} UnderBelow(ns: seq<Node>, x: nat, c: nat)
    requires Under(ns, x, c)
    ensures c <= x
  {
  }

  /** Two arenas that agree on the parent fields have the same subtrees. */
  lemma {:induction false} UnderSame(ns0: seq<Node>, ns1: seq<Node>, x: nat, c: nat)
    requires |ns0| == |ns1|
    requires forall y :: 0 <= y < |ns0| ==> ns1[y].parent == ns0[y].parent
    ensures Under(ns1, x, c) == Under(ns0, x, c)
    decreases x
  {
    if x < |ns0| && x != c && c < x && 0 <= ns0[x].parent < x {
      UnderSame(ns0, ns1, ns0[x].parent as nat, c);
    }
  }

  /** The fold of a subtree reads nothing outside the subtree. */
  lemma {:induction false} DenoteFrame(ns0: seq<Node>, ns1: seq<Node>, c: nat)
    requires Tree(ns0) && |ns1| == |ns0| && c < |ns0|
    requires forall x: nat :: Under(ns0, x, c) ==> ns1[x] == ns0[x]
    ensures Denote(ns1, c) == Denote(ns0, c)
    decreases |ns0| - c
  {
    assert Under(ns0, c, c);
    var cs := ns0[c].children;
    forall d | d in cs ensures c < d < |ns0| && ns1[d] == ns0[d] && Denote(ns1, d) == Denote(ns0, d) {
      ChildFrame(ns0, ns1, c, d);
      DenoteFrame(ns0, ns1, d);
    }
    KidValsSame(ns0, ns1, c, cs);
    KeysSame(ns0, ns1, cs);
    SortedKidsSame(ns0, ns1, c);
    DenoteSameKids(ns0, ns1, c);
  }

  /** What a subtree-wide agreement says about the subtree of one child. */
  lemma {:induction false} ChildFrame(ns0: seq<Node>, ns1: seq<Node>, c: nat, d: nat)
    requires Tree(ns0) && |ns1| == |ns0| && c < |ns0| && d in ns0[c].children
    requires forall x: nat :: Under(ns0, x, c) ==> ns1[x] == ns0[x]
    ensures c < d < |ns0| && ns0[d].parent == c
    ensures forall x: nat :: Under(ns0, x, d) ==> ns1[x] == ns0[x]
  {
    var j :| 0 <= j < |ns0[c].children| && ns0[c].children[j] == d;
    forall x: nat | Under(ns0, x, d) ensures ns1[x] == ns0[x] {
      UnderParent(ns0, x, d, c);
    }
  }

  /** A node kept as it was, whose children kept their names, index fields and folds, folds as before. */
  lemma {:induction false} DenoteSameKids(ns0: seq<Node>, ns1: seq<Node>, c: nat)
    requires |ns1| == |ns0| && c < |ns0| && ns1[c] == ns0[c]
    requires Keys(ns1, ns0[c].children) == Keys(ns0, ns0[c].children)
    requires KidVals(ns1, c, ns0[c].children) == KidVals(ns0, c, ns0[c].children)
    requires SortByIndex(ns1, ns0[c].children) == SortByIndex(ns0, ns0[c].children)
    requires KidVals(ns1, c, SortByIndex(ns0, ns0[c].children)) == KidVals(ns0, c, SortByIndex(ns0, ns0[c].children))
    ensures Denote(ns1, c) == Denote(ns0, c)
  {
  }

  lemma {:induction false} KeysSame(ns0: seq<Node>, ns1: seq<Node>, cs: seq<nat>)
    requires forall d :: d in cs ==> d < |ns0| && d < |ns1| && ns1[d] == ns0[d]
    ensures Keys(ns1, cs) == Keys(ns0, cs)
  {
    assert forall j :: 0 <= j < |cs| ==> cs[j] in cs;
  }

  /** The same, for the children in index order. */
  lemma {:induction false} SortedKidsSame(ns0: seq<Node>, ns1: seq<Node>, c: nat)
    requires |ns1| == |ns0| && c < |ns0|
    requires forall d :: d in ns0[c].children ==> c < d < |ns0| && ns1[d] == ns0[d] && Denote(ns1, d) == Denote(ns0, d)
    ensures SortByIndex(ns1, ns0[c].children) == SortByIndex(ns0, ns0[c].children)
    ensures KidVals(ns1, c, SortByIndex(ns0, ns0[c].children)) == KidVals(ns0, c, SortByIndex(ns0, ns0[c].children))
  {
    var cs := ns0[c].children;
    SortSameIndices(ns0, ns1, cs);
    var sorted := SortByIndex(ns0, cs);
    forall d | d in sorted && c < d < |ns0| ensures Denote(ns1, d) == Denote(ns0, d) {
      assert d in multiset(sorted);
    }
    KidValsSame(ns0, ns1, c, sorted);
  }

  /** The folded values of the same nodes, in two arenas where those nodes fold alike. */
  lemma {:induction false} KidValsSame(ns0: seq<Node>, ns1: seq<Node>, c: nat, cs: seq<nat>)
    requires |ns1| == |ns0| && c < |ns0|
    requires forall d :: d in cs && c < d < |ns0| ==> Denote(ns1, d) == Denote(ns0, d)
    ensures KidVals(ns1, c, cs) == KidVals(ns0, c, cs)
  {
    forall j | 0 <= j < |cs| ensures KidVals(ns1, c, cs)[j] == KidVals(ns0, c, cs)[j] {
      assert cs[j] in cs;
    }
  }

  /**
   * A node once its subtree is folded: a structure with children holds the
   * value its children fold to, and an array's children are in index order;
   * any other node is as it was.
   */
  ghost function Folded(ns: seq<Node>, x: nat): (r: Node)
    requires x < |ns|
    ensures r.parent == ns[x].parent && r.index == ns[x].index && r.key == ns[x].key
    ensures r.val == (if ns[x].val.None? then None else Some(Denote(ns, x)))
    ensures multiset(r.children) == multiset(ns[x].children)
    ensures ns[x].val.Some? && ns[x].val.value.Arr? && ns[x].children != [] ==> IndexSorted(ns, r.children)
    ensures !(ns[x].val.Some? && ns[x].val.value.Arr? && ns[x].children != []) ==> r.children == ns[x].children
  {
    var n := ns[x];
    if n.val.None? || n.children == [] || !n.val.value.IsStructure() then n
    else if n.val.value.Obj? then n.(val := Some(Denote(ns, x)))
    else
      SortIsSorted(ns, n.children);
      n.(val := Some(Denote(ns, x)), children := SortByIndex(ns, n.children))
  }

  /** A child of `x` is in the subtree of `x`. */
  lemma {:induction false} ChildUnder(ns: seq<Node>, x: nat, d: nat)
    requires Tree(ns) && x < |ns| && d in ns[x].children
    ensures x < d < |ns| && ns[d].parent == x && Under(ns, d, x)
  {
    var j :| 0 <= j < |ns[x].children| && ns[x].children[j] == d;
    assert Under(ns, x, x);
  }

  /** A subtree of a subtree is part of it. */
  lemma {:induction false} UnderTrans(ns: seq<Node>, y: nat, x: nat, c: nat)
    requires Under(ns, y, x) && Under(ns, x, c)
    ensures Under(ns, y, c)
    decreases y
  {
    if y != x {
      UnderTrans(ns, ns[y].parent as nat, x, c);
      UnderBelow(ns, x, c);
    }
  }

  /** Node `x` lies in the subtree of one of the first `i` nodes of `cs`. */
  ghost predicate UnderSome(ns: seq<Node>, x: nat, cs: seq<nat>, i: nat)
    requires i <= |cs|
    decreases i
  {
    i > 0 && (Under(ns, x, cs[i - 1]) || UnderSome(ns, x, cs, i - 1))
  }

  /** The subtree of the child at position `i` shares no node with the subtrees of the children before it. */
  lemma {:induction false} NotUnderEarlier(ns: seq<Node>, k: nat, x: nat, i: nat, n: nat)
    requires Tree(ns) && k < |ns| && n <= i < |ns[k].children|
    requires Under(ns, x, ns[k].children[i])
    ensures !UnderSome(ns, x, ns[k].children, n)
    decreases n
  {
    var cs := ns[k].children;
    if n > 0 {
      NoDupApart(cs, n - 1, i);
      ChildUnder(ns, k, cs[n - 1]);
      ChildUnder(ns, k, cs[i]);
      SiblingsApart(ns, x, cs[i], cs[n - 1]);
      NotUnderEarlier(ns, k, x, i, n - 1);
    }
  }

  /** Folding a node gives the same result in two arenas that agree on its subtree. */
  lemma {:induction false} FoldedFrame(ns0: seq<Node>, ns1: seq<Node>, x: nat)
    requires Tree(ns0) && |ns1| == |ns0| && x < |ns0|
    requires forall y: nat :: Under(ns0, y, x) ==> ns1[y] == ns0[y]
    ensures Folded(ns1, x) == Folded(ns0, x)
  {
    assert Under(ns0, x, x);
    DenoteFrame(ns0, ns1, x);
    var cs := ns0[x].children;
    forall d | d in cs ensures IndexOf(ns0, d) == IndexOf(ns1, d) {
      ChildUnder(ns0, x, d);
    }
    SortSameIndices(ns0, ns1, cs);
  }

  /** Replacing nodes by their folded form keeps the arena a tree. */
  lemma {:induction false} TreeFolded(ns0: seq<Node>, ns1: seq<Node>)
    requires Tree(ns0) && |ns1| == |ns0|
    requires forall x :: 0 <= x < |ns0| ==> ns1[x] == ns0[x] || ns1[x] == Folded(ns0, x)
    ensures Tree(ns1)
  {
    forall x | 0 <= x < |ns0|
      ensures ns1[x].parent == ns0[x].parent && multiset(ns1[x].children) == multiset(ns0[x].children)
    {
    }
    forall k, j | 0 <= k < |ns1| && 0 <= j < |ns1[k].children|
      ensures k < ns1[k].children[j] < |ns1| && ns1[ns1[k].children[j]].parent == k
    {
      var c := ns1[k].children[j];
      assert c in multiset(ns1[k].children);
      assert c in ns0[k].children;
    }
  }

  /** Children already folded report their names, index fields and folds. */
  lemma {:induction false} FoldedKids(ns0: seq<Node>, ns: seq<Node>, k: nat, ds: seq<nat>)
    requires k < |ns0| == |ns|
    requires forall d :: d in ds ==> k < d < |ns0| && ns[d] == Folded(ns0, d)
    ensures Keys(ns, ds) == Keys(ns0, ds)
    ensures Vals(ns, ds) == KidVals(ns0, k, ds)
    ensures forall d :: d in ds ==> IndexOf(ns, d) == IndexOf(ns0, d)
  {
    forall j | 0 <= j < |ds|
      ensures Keys(ns, ds)[j] == Keys(ns0, ds)[j] && Vals(ns, ds)[j] == KidVals(ns0, k, ds)[j]
    {
      assert ds[j] in ds;
    }
  }
}
