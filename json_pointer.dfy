/**
 * The JSON Pointer operations (RFC 6901) the way the library runs them: the
 * target is copied into a tree of nodes, the tokens are walked down that
 * tree, the tree is edited at the node found, and the tree is folded back
 * into a value from the root. Each operation is proved to compute the
 * function of the same name in module PointerSpec.
 */
module JsonPointer {
  import opened JsonValues
  import opened PointerSyntax
  import Spec = PointerSpec
  import opened ShadowModel
  import opened ShadowFold
  import opened ShadowBuild
  import opened ShadowEdit
  import opened NodeRefs

  /** A pointer the grammar accepts; the constructor rejects every other string. */
  type Pointer = s: string | MatchesPointer(s) witness ""

  /** The constructor: a string outside the grammar is an invalid pointer. */
  function NewPointer(s: string): (r: Result<Pointer>)
    ensures r.Ok? <==> WellFormed(s)
    ensures r.Ok? <==> MatchesPointer(s)
    ensures r.Ok? ==> r.value == s
    ensures r.Err? ==> r.error == InvalidPointer
  {
    MatchesPointerIff(s);
    if MatchesPointer(s) then Ok(s) else Err(InvalidPointer)
  }

  // ---------------------------------------------------------------------
  // What the walk leaves behind

  /** The node of the tree built for the document that stands for location `p`. */
  ghost function NodeAt(ns: seq<Node>, p: seq<Step>): nat
    requires |ns| > 0
  {
    Span(ns, 0, |ns|, p).0
  }

  /** The tree with a node that holds nothing appended as last child of node `q`. */
  ghost function WithPlaceholder(ns: seq<Node>, q: nat, index: int, key: string): seq<Node>
    requires q < |ns|
  {
    ns[q := ns[q].(children := ns[q].children + [|ns|])] + [Node(None, q, index, key, [])]
  }

  /**
   * The walk ends as the resolution does: with its error and the tree
   * untouched, at the node of an existing location, or at a new node that
   * holds nothing, put under the object or array it would be added to.
   */
  ghost predicate Located(ns0: seq<Node>, ns: seq<Node>, doc: Structure, toks: seq<string>, r: Result<nat>)
    requires |ns0| > 0
  {
    match Spec.Resolve(doc, toks)
    case Err(e) => r == Err(e) && ns == ns0
    case Ok(At(p)) => r == Ok(NodeAt(ns0, p)) && ns == ns0
    case Ok(NewMember(p, k)) =>
      r == Ok(|ns0|) && NodeAt(ns0, p) < |ns0| && ns == WithPlaceholder(ns0, NodeAt(ns0, p), -2, k)
    case Ok(EndSlot(p)) =>
      r == Ok(|ns0|) && NodeAt(ns0, p) < |ns0|
      && ns == WithPlaceholder(ns0, NodeAt(ns0, p), |GetAt(doc, p).value.elems|, "")
  }

  /** Node `cur` sits in an array exactly when step `s` is an index, in an object when it is a name. */
  ghost predicate ParentFits(ns: seq<Node>, cur: nat, s: Step)
  {
    && cur < |ns| && 0 <= ns[cur].parent < |ns| && ns[ns[cur].parent].val.Some?
    && (ns[ns[cur].parent].val.value.Arr? <==> s.Idx?)
    && (ns[ns[cur].parent].val.value.Obj? <==> s.Key?)
  }

  /**
   * The walk has taken `i` tokens and stands at node `cur`, the node of the
   * existing location `p`, whose stretch ends at `hi`; resolving the rest
   * from there gives the resolution of all the tokens.
   */
  ghost predicate WalkState(ns: seq<Node>, doc: Structure, toks: seq<string>, i: nat, p: seq<Step>, cur: nat, hi: nat)
  {
    (&& |ns| > 0 && i <= |toks| && Has(doc, p)
     && (cur, hi) == Span(ns, 0, |ns|, p)
     && Shadows(ns, cur, hi, GetAt(doc, p).value)
     && Spec.Resolve(doc, toks) == Spec.WithinPath(p, Spec.Walk(GetAt(doc, p).value, toks[i..], Spec.KindAt(p, Spec.RootParent)))
     && (p != [] ==> ParentFits(ns, cur, p[|p| - 1]))) == true
  }

  lemma {:induction false} WithinPathSnoc(p: seq<Step>, s: Step, r: Result<Spec.Loc>)
    ensures Spec.WithinPath(p, Spec.Within(s, r)) == Spec.WithinPath(p + [s], r)
    decreases |p|
  {
    if p == [] {
      assert Spec.WithinPath([s], r) == Spec.Within(s, Spec.WithinPath([], r));
    } else {
      assert (p + [s])[0] == p[0] && (p + [s])[1..] == p[1..] + [s];
      WithinPathSnoc(p[1..], s, r);
    }
  }

  lemma {:induction false} WalkStart(ns: seq<Node>, doc: Structure, toks: seq<string>)
    requires Shadows(ns, 0, |ns|, doc)
    ensures WalkState(ns, doc, toks, 0, [], 0, |ns|)
  {
    assert toks[0..] == toks;
  }

  /** One step down from the walk's node to its child for step `s`. */
  lemma {:induction false} WalkStep(ns: seq<Node>, doc: Structure, toks: seq<string>, i: nat, p: seq<Step>, cur: nat, hi: nat, s: Step)
    requires Shadows(ns, 0, |ns|, doc) && WalkState(ns, doc, toks, i, p, cur, hi) && i < |toks|
    requires Has(GetAt(doc, p).value, [s])
    requires Spec.Walk(GetAt(doc, p).value, toks[i..], Spec.KindAt(p, Spec.RootParent))
      == Spec.Within(s, Spec.Walk(Child(GetAt(doc, p).value, s), toks[i + 1..], Spec.KindAt(p + [s], Spec.RootParent)))
    ensures cur < |ns| && ChildSpan(ns, cur, hi, s).0 < |ns|
    ensures var c := ChildSpan(ns, cur, hi, s); WalkState(ns, doc, toks, i + 1, p + [s], c.0, c.1)
  {
    var v := GetAt(doc, p).value;
    ChildSpanShadows(ns, cur, hi, v, s);
    ShadowsUnfold(ns, cur, hi, v);
    GetAtAppend(doc, p, [s]);
    assert GetAt(v, [s]) == Some(Child(v, s));
    SpanAppend(ns, 0, |ns|, doc, p, s);
    WithinPathSnoc(p, s, Spec.Walk(Child(v, s), toks[i + 1..], Spec.KindAt(p + [s], Spec.RootParent)));
    var c := ChildSpan(ns, cur, hi, s);
    assert ns[c.0].parent == cur;
    assert (p + [s])[|p + [s]| - 1] == s;
  }

  /** An existing member named by the next token: the walk goes on from that member. */
  lemma {:induction false} MemberWalk(v: Json, toks: seq<string>, i: nat, p: seq<Step>)
    requires v.Obj? && i < |toks| && toks[i] in v.members
    ensures Has(v, [Key(toks[i])])
    ensures Spec.Walk(v, toks[i..], Spec.KindAt(p, Spec.RootParent))
      == Spec.Within(Key(toks[i]), Spec.Walk(Child(v, Key(toks[i])), toks[i + 1..], Spec.KindAt(p + [Key(toks[i])], Spec.RootParent)))
  {
    assert toks[i..] == [toks[i]] + toks[i + 1..];
    Spec.WalkMember(v.members, toks[i], toks[i + 1..], Spec.KindAt(p, Spec.RootParent));
  }

  /** An existing element named by the next token: the walk goes on from that element. */
  lemma {:induction false} ElementWalk(v: Json, toks: seq<string>, i: nat, p: seq<Step>)
    requires v.Arr? && i < |toks| && IsIndex(toks[i]) && ParseIndex(toks[i]) < |v.elems|
    ensures Has(v, [Idx(ParseIndex(toks[i]))])
    ensures Spec.Walk(v, toks[i..], Spec.KindAt(p, Spec.RootParent))
      == Spec.Within(Idx(ParseIndex(toks[i])), Spec.Walk(Child(v, Idx(ParseIndex(toks[i]))), toks[i + 1..], Spec.KindAt(p + [Idx(ParseIndex(toks[i]))], Spec.RootParent)))
  {
    assert toks[i..] == [toks[i]] + toks[i + 1..];
    assert toks[i] != "-" by { assert IsDigit(toks[i][0]); }
  }

  /** An existing member named by the next token. */
  lemma {:induction false} StepMember(ns: seq<Node>, doc: Structure, toks: seq<string>, i: nat, p: seq<Step>, cur: nat, hi: nat)
    requires Shadows(ns, 0, |ns|, doc) && WalkState(ns, doc, toks, i, p, cur, hi) && i < |toks|
    requires GetAt(doc, p).value.Obj? && toks[i] in GetAt(doc, p).value.members
    ensures cur < |ns| && ChildSpan(ns, cur, hi, Key(toks[i])).0 < |ns|
    ensures var c := ChildSpan(ns, cur, hi, Key(toks[i])); WalkState(ns, doc, toks, i + 1, p + [Key(toks[i])], c.0, c.1)
  {
    MemberWalk(GetAt(doc, p).value, toks, i, p);
    WalkStep(ns, doc, toks, i, p, cur, hi, Key(toks[i]));
  }

  /** An existing element named by the next token. */
  lemma {:induction false} StepElement(ns: seq<Node>, doc: Structure, toks: seq<string>, i: nat, p: seq<Step>, cur: nat, hi: nat)
    requires Shadows(ns, 0, |ns|, doc) && WalkState(ns, doc, toks, i, p, cur, hi) && i < |toks|
    requires GetAt(doc, p).value.Arr? && IsIndex(toks[i]) && ParseIndex(toks[i]) < |GetAt(doc, p).value.elems|
    ensures cur < |ns| && ChildSpan(ns, cur, hi, Idx(ParseIndex(toks[i]))).0 < |ns|
    ensures var c := ChildSpan(ns, cur, hi, Idx(ParseIndex(toks[i])));
      WalkState(ns, doc, toks, i + 1, p + [Idx(ParseIndex(toks[i]))], c.0, c.1)
  {
    ElementWalk(GetAt(doc, p).value, toks, i, p);
    WalkStep(ns, doc, toks, i, p, cur, hi, Idx(ParseIndex(toks[i])));
  }

  /** The walk stops at the next token with outcome `w`, found below the location `p`. */
  lemma {:induction false} StepStops(ns: seq<Node>, doc: Structure, toks: seq<string>, i: nat, p: seq<Step>, cur: nat, hi: nat, w: Result<Spec.Loc>)
    requires WalkState(ns, doc, toks, i, p, cur, hi) && i < |toks|
    requires Spec.Walk(GetAt(doc, p).value, [toks[i]] + toks[i + 1..], Spec.KindAt(p, Spec.RootParent)) == w
    ensures w.Err? ==> Spec.Resolve(doc, toks) == w
    ensures w == Ok(Spec.At([])) ==> Spec.Resolve(doc, toks) == Ok(Spec.At(p))
    ensures w == Ok(Spec.EndSlot([])) ==> Spec.Resolve(doc, toks) == Ok(Spec.EndSlot(p))
    ensures w.Ok? && w.value.NewMember? && w.value.parent == [] ==>
      Spec.Resolve(doc, toks) == Ok(Spec.NewMember(p, w.value.key))
  {
    assert toks[i..] == [toks[i]] + toks[i + 1..];
    assert p + [] == p;
    Spec.WithinPathAt(p, []);
    if w.Err? {
      Spec.WithinPathErr(p, w.error);
    } else if w.value.NewMember? {
      Spec.WithinPathNew(p, [], w.value.key);
    }
  }

  /** The walk stops with an error, or at the node of an existing location; the tree is untouched. */
  lemma {:induction false} LocatedStop(ns: seq<Node>, doc: Structure, toks: seq<string>, p: seq<Step>, cur: nat, r: Result<nat>)
    requires |ns| > 0 && cur == NodeAt(ns, p)
    requires (r.Err? && Spec.Resolve(doc, toks) == Err(r.error)) || (r == Ok(cur) && Spec.Resolve(doc, toks) == Ok(Spec.At(p)))
    ensures Located(ns, ns, doc, toks, r)
  {
  }

  /** The walk stops at a new node put under node `cur` as its last child. */
  lemma {:induction false} LocatedPlaceholder(ns0: seq<Node>, ns1: seq<Node>, doc: Structure, toks: seq<string>, p: seq<Step>, cur: nat, index: int, key: string)
    requires 0 < |ns0| && cur == NodeAt(ns0, p) < |ns0| && |ns1| == |ns0| + 1
    requires forall x :: 0 <= x < |ns0| && x != cur ==> ns1[x] == ns0[x]
    requires ns1[cur] == ns0[cur].(children := ns0[cur].children + [|ns0|])
    requires ns1[|ns0|] == Node(None, cur, index, key, [])
    requires || (Spec.Resolve(doc, toks) == Ok(Spec.NewMember(p, key)) && index == -2)
             || (Spec.Resolve(doc, toks) == Ok(Spec.EndSlot(p)) && key == "" && Has(doc, p)
                 && GetAt(doc, p).value.Arr? && index == |GetAt(doc, p).value.elems|)
    ensures Located(ns0, ns1, doc, toks, Ok(|ns0|))
  {
    assert ns1 == WithPlaceholder(ns0, cur, index, key);
  }

  // ---------------------------------------------------------------------
  // getValue0

  /** What one token does to the walk: it goes on from a node, or it stops with a result. */
  datatype Next = GoOn(node: nat) | Stop(result: Result<nat>)

  /**
   * The token walk of a resolution on the tree built for `doc`: the pointer
   * "" is the root; otherwise each token is taken in turn by the node the
   * walk stands at, according to what that node holds.
   */
  method Locate(tree: NodeTree, ptr: Pointer, ghost doc: Structure) returns (r: Result<nat>)
    requires Tree(tree.nodes) && AllExist(tree.nodes) && Shadows(tree.nodes, 0, |tree.nodes|, doc)
    modifies tree
    ensures Tree(tree.nodes)
    ensures Located(old(tree.nodes), tree.nodes, doc, Tokens(ptr), r)
  {
    ghost var ns0 := tree.nodes;
    if ptr == [] {
      LocatedStop(ns0, doc, [], [], 0, Ok(0));
      return Ok(0);
    }
    var toks := RawTokens(ptr);
    if toks == [] {
      toks := [""];
    }
    assert toks == Tokens(ptr);
    WalkStart(ns0, doc, toks);
    var cur: nat, i := 0, 0;
    ghost var p: seq<Step>, hi: nat := [], |ns0|;
    while i < |toks|
      invariant tree.nodes == ns0
      invariant WalkState(ns0, doc, toks, i, p, cur, hi)
      decreases |toks| - i
    {
      var v := tree.nodes[cur].val.value;
      var next: Next;
      if v.Obj? {
        next, p, hi := OnObject(tree, toks, i, cur, doc, p, hi);
      } else if v.Arr? {
        next, p, hi := OnArray(tree, toks, i, cur, doc, p, hi);
      } else {
        next := OnScalar(tree, toks, i, cur, doc, p, hi);
      }
      match next
      case Stop(result) =>
        return result;
      case GoOn(node) =>
        cur := node;
      i := i + 1;
    }
    WalkEnd(ns0, doc, toks, p, cur, hi);
    return Ok(cur);
  }

  /** With every token walked, the walk ends at the node of the location the pointer resolves to. */
  lemma {:induction false} WalkEnd(ns: seq<Node>, doc: Structure, toks: seq<string>, p: seq<Step>, cur: nat, hi: nat)
    requires WalkState(ns, doc, toks, |toks|, p, cur, hi)
    ensures Located(ns, ns, doc, toks, Ok(cur))
  {
    Spec.WithinPathAt(p, []);
    assert p + [] == p;
    LocatedStop(ns, doc, toks, p, cur, Ok(cur));
  }

  /**
   * A token on an object: the member of that name, or, for the last token
   * only, a new node that holds nothing for a member to be added.
   */
  method OnObject(tree: NodeTree, toks: seq<string>, i: nat, cur: nat, ghost doc: Structure, ghost p: seq<Step>, ghost hi: nat)
    returns (next: Next, ghost p1: seq<Step>, ghost hi1: nat)
    requires Tree(tree.nodes) && Shadows(tree.nodes, 0, |tree.nodes|, doc)
    requires WalkState(tree.nodes, doc, toks, i, p, cur, hi) && i < |toks| && GetAt(doc, p).value.Obj?
    modifies tree
    ensures Tree(tree.nodes)
    ensures next.GoOn? ==> tree.nodes == old(tree.nodes) && WalkState(tree.nodes, doc, toks, i + 1, p1, next.node, hi1)
    ensures next.Stop? ==> Located(old(tree.nodes), tree.nodes, doc, toks, next.result)
  {
    ghost var ns0 := tree.nodes;
    var token := toks[i];
    ObjectKeys(ns0, cur, hi, GetAt(doc, p).value.members);
    var c := tree.GetChild(cur, token);
    if c.Some? {
      StepMember(ns0, doc, toks, i, p, cur, hi);
      return GoOn(c.value), p + [Key(token)], ChildSpan(ns0, cur, hi, Key(token)).1;
    }
    if i != |toks| - 1 {
      StepStops(ns0, doc, toks, i, p, cur, hi, Err(EndReached));
      LocatedStop(ns0, doc, toks, p, cur, Err(EndReached));
      return Stop(Err(EndReached)), p, hi;
    }
    StepStops(ns0, doc, toks, i, p, cur, hi, Ok(Spec.NewMember([], token)));
    var n := tree.AddChild(cur, None, -2, token);
    LocatedPlaceholder(ns0, tree.nodes, doc, toks, p, cur, -2, token);
    return Stop(Ok(n)), p, hi;
  }

  /**
   * A token on an array: "-" or the index one past the end, for the last
   * token only, gives a new node that holds nothing at the end; a smaller
   * index the element; anything else is an error.
   */
  method OnArray(tree: NodeTree, toks: seq<string>, i: nat, cur: nat, ghost doc: Structure, ghost p: seq<Step>, ghost hi: nat)
    returns (next: Next, ghost p1: seq<Step>, ghost hi1: nat)
    requires Tree(tree.nodes) && Shadows(tree.nodes, 0, |tree.nodes|, doc)
    requires WalkState(tree.nodes, doc, toks, i, p, cur, hi) && i < |toks| && GetAt(doc, p).value.Arr?
    modifies tree
    ensures Tree(tree.nodes)
    ensures next.GoOn? ==> tree.nodes == old(tree.nodes) && WalkState(tree.nodes, doc, toks, i + 1, p1, next.node, hi1)
    ensures next.Stop? ==> Located(old(tree.nodes), tree.nodes, doc, toks, next.result)
  {
    ghost var ns0 := tree.nodes;
    var token := toks[i];
    var size := |tree.nodes[cur].val.value.elems|;
    ShadowsUnfold(ns0, cur, hi, GetAt(doc, p).value);
    p1, hi1 := p, hi;
    if token == "-" {
      next := OnArrayEnd(tree, toks, i, cur, doc, p, hi);
      return;
    }
    if !IsIndex(token) {
      StepStops(ns0, doc, toks, i, p, cur, hi, Err(NotAnIndex));
      LocatedStop(ns0, doc, toks, p, cur, Err(NotAnIndex));
      return Stop(Err(NotAnIndex)), p, hi;
    }
    var index := ParseIndex(token);
    if index > size {
      StepStops(ns0, doc, toks, i, p, cur, hi, Err(OutOfBounds));
      LocatedStop(ns0, doc, toks, p, cur, Err(OutOfBounds));
      return Stop(Err(OutOfBounds)), p, hi;
    } else if index == size {
      next := OnArrayEnd(tree, toks, i, cur, doc, p, hi);
      return;
    }
    StepElement(ns0, doc, toks, i, p, cur, hi);
    return GoOn(tree.nodes[cur].children[index]), p + [Idx(index)], ChildSpan(ns0, cur, hi, Idx(index)).1;
  }

  /** "-", or the index one past the end, on an array: for the last token only, a new node at the end. */
  method OnArrayEnd(tree: NodeTree, toks: seq<string>, i: nat, cur: nat, ghost doc: Structure, ghost p: seq<Step>, ghost hi: nat)
    returns (next: Next)
    requires Tree(tree.nodes) && Shadows(tree.nodes, 0, |tree.nodes|, doc)
    requires WalkState(tree.nodes, doc, toks, i, p, cur, hi) && i < |toks| && GetAt(doc, p).value.Arr?
    requires toks[i] == "-" || (IsIndex(toks[i]) && ParseIndex(toks[i]) == |GetAt(doc, p).value.elems|)
    modifies tree
    ensures Tree(tree.nodes) && next.Stop?
    ensures Located(old(tree.nodes), tree.nodes, doc, toks, next.result)
  {
    ghost var ns0 := tree.nodes;
    var size := |tree.nodes[cur].val.value.elems|;
    ShadowsUnfold(ns0, cur, hi, GetAt(doc, p).value);
    if i != |toks| - 1 {
      StepStops(ns0, doc, toks, i, p, cur, hi, Err(EndReached));
      LocatedStop(ns0, doc, toks, p, cur, Err(EndReached));
      return Stop(Err(EndReached));
    }
    StepStops(ns0, doc, toks, i, p, cur, hi, Ok(Spec.EndSlot([])));
    var n := tree.AddChild(cur, None, size, "");
    LocatedPlaceholder(ns0, tree.nodes, doc, toks, p, cur, size, "");
    return Stop(Ok(n));
  }

  /**
   * A token on a scalar: only as the last token, and only when the scalar
   * sits in an array and the token is an index; the walk then stays at the
   * scalar.
   */
  method OnScalar(tree: NodeTree, toks: seq<string>, i: nat, cur: nat, ghost doc: Structure, ghost p: seq<Step>, ghost hi: nat)
    returns (next: Next)
    requires Tree(tree.nodes) && Shadows(tree.nodes, 0, |tree.nodes|, doc)
    requires WalkState(tree.nodes, doc, toks, i, p, cur, hi) && i < |toks| && !GetAt(doc, p).value.IsStructure()
    ensures next.GoOn? ==> WalkState(tree.nodes, doc, toks, i + 1, p, next.node, hi)
    ensures next.Stop? ==> Located(tree.nodes, tree.nodes, doc, toks, next.result)
  {
    ghost var ns0 := tree.nodes;
    var token := toks[i];
    if i != |toks| - 1 {
      StepStops(ns0, doc, toks, i, p, cur, hi, Err(EndReached));
      LocatedStop(ns0, doc, toks, p, cur, Err(EndReached));
      return Stop(Err(EndReached));
    }
    var parent := tree.nodes[tree.nodes[cur].parent].val.value;
    if parent.Arr? && !IsIndex(token) {
      StepStops(ns0, doc, toks, i, p, cur, hi, Err(NotAnIndex));
      LocatedStop(ns0, doc, toks, p, cur, Err(NotAnIndex));
      return Stop(Err(NotAnIndex));
    }
    if parent.Obj? {
      StepStops(ns0, doc, toks, i, p, cur, hi, Err(NotAnIndex));
      LocatedStop(ns0, doc, toks, p, cur, Err(NotAnIndex));
      return Stop(Err(NotAnIndex));
    }
    StepStops(ns0, doc, toks, i, p, cur, hi, Ok(Spec.At([])));
    assert toks[i + 1..] == [];
    return GoOn(cur);
  }

  // ---------------------------------------------------------------------
  // What the walk found, and the edits made there

  /**
   * The node the walk ends at holds the value of an existing location and
   * is the root exactly for the empty location; a new node holds nothing.
   */
  lemma {:induction false} FoundNode(ns0: seq<Node>, ns: seq<Node>, doc: Structure, toks: seq<string>, n: nat)
    requires Shadows(ns0, 0, |ns0|, doc) && Located(ns0, ns, doc, toks, Ok(n))
    ensures n < |ns| && Spec.Resolve(doc, toks).Ok?
    ensures var loc := Spec.Resolve(doc, toks).value;
      && (loc.At? ==> ns == ns0 && n == NodeAt(ns0, loc.path) && ns[n].val == Some(GetAt(doc, loc.path).value)
                      && (loc.path == [] <==> n == 0))
      && (!loc.At? ==> ns[n].val.None?)
  {
    match Spec.Resolve(doc, toks)
    case Ok(At(p)) =>
      SpanShadows(ns0, 0, |ns0|, doc, p);
    case _ =>
  }

  /**
   * The node of location `q + [s]` is a child of the node of `q`, at the
   * position step `s` names, carrying the index or name of that step.
   */
  lemma {:induction false} ParentOf(ns: seq<Node>, doc: Structure, q: seq<Step>, s: Step)
    requires Shadows(ns, 0, |ns|, doc) && Has(doc, q + [s])
    ensures Has(doc, q) && NodeAt(ns, q) < NodeAt(ns, q + [s]) < |ns|
    ensures var e := Span(ns, 0, |ns|, q); var x := NodeAt(ns, q + [s]); var cs := ns[e.0].children;
      && e.1 <= |ns| && Shadows(ns, e.0, e.1, GetAt(doc, q).value)
      && ns[x].parent == e.0
      && ChildPos(ns, cs, s) < |cs| && cs[ChildPos(ns, cs, s)] == x
      && (s.Idx? ==> GetAt(doc, q).value.Arr? && s.index < |GetAt(doc, q).value.elems| && ns[x].index == s.index)
      && (s.Key? ==> GetAt(doc, q).value.Obj? && s.key in GetAt(doc, q).value.members && ns[x].key == s.key)
  {
    Spec.PrefixHas(doc, q, [s]);
    GetAtAppend(doc, q, [s]);
    var v := GetAt(doc, q).value;
    assert Has(v, [s]);
    SpanShadows(ns, 0, |ns|, doc, q);
    SpanAppend(ns, 0, |ns|, doc, q, s);
    var e := Span(ns, 0, |ns|, q);
    ChildSpanShadows(ns, e.0, e.1, v, s);
    ShadowsUnfold(ns, e.0, e.1, v);
    var cs := ns[e.0].children;
    var j := ChildPos(ns, cs, s);
    if s.Idx? {
      KidShadows(ns, e.0, e.1, v, j);
    }
  }

  /** Only the node of location `q` changed, and it kept its index and name. */
  ghost predicate EditedNode(ns0: seq<Node>, ns1: seq<Node>, doc: Structure, q: seq<Step>)
    requires |ns0| > 0
  {
    var x := NodeAt(ns0, q);
    && x < |ns0| && OnlyNodeChanged(ns0, ns1, x)
    && ns1[x].index == ns0[x].index && ns1[x].key == ns0[x].key
  }

  /** Folding again after an edit of the node of `q` writes that node's new fold at `q`. */
  lemma {:induction false} EditedAt(ns0: seq<Node>, ns1: seq<Node>, doc: Structure, q: seq<Step>)
    requires Shadows(ns0, 0, |ns0|, doc) && Has(doc, q) && EditedNode(ns0, ns1, doc, q)
    ensures Denote(ns1, 0) == SetAt(doc, q, Denote(ns1, NodeAt(ns0, q)))
  {
    SpanShadows(ns0, 0, |ns0|, doc, q);
    Propagate(ns0, ns1, 0, |ns0|, doc, q);
  }

  /** A child put at position `i` of the node of array location `q` inserts its fold into that array. */
  lemma {:induction false} ElementAdded(ns0: seq<Node>, ns1: seq<Node>, doc: Structure, q: seq<Step>, i: nat, c: nat, v: Json)
    requires Shadows(ns0, 0, |ns0|, doc) && Has(doc, q)
    requires GetAt(doc, q).value.Arr? && i <= |GetAt(doc, q).value.elems|
    requires EditedNode(ns0, ns1, doc, q) && |ns0| <= c < |ns1|
    requires var x := NodeAt(ns0, q);
      i <= |ns0[x].children| && ns1[x] == ns0[x].(children := InsertChild(ns0[x].children, i, c))
    requires ns1[c].index == i && Denote(ns1, c) == v
    ensures Denote(ns1, 0) == Spec.AddUnder(doc, q, Idx(i), v)
  {
    var e := Span(ns0, 0, |ns0|, q);
    var a := GetAt(doc, q).value.elems;
    SpanShadows(ns0, 0, |ns0|, doc, q);
    ArrayKidsKept(ns0, ns1, e.0, e.1, a);
    ArrayInsertFold(ns1, e.0, ns0[e.0].children, a, i, c, v);
    EditedAt(ns0, ns1, doc, q);
  }

  /** A child named `k` appended under the node of object location `q` sets member `k` to its fold. */
  lemma {:induction false} MemberAdded(ns0: seq<Node>, ns1: seq<Node>, doc: Structure, q: seq<Step>, k: string, c: nat, v: Json)
    requires Shadows(ns0, 0, |ns0|, doc) && Has(doc, q) && GetAt(doc, q).value.Obj?
    requires EditedNode(ns0, ns1, doc, q) && |ns0| <= c < |ns1|
    requires var x := NodeAt(ns0, q); ns1[x] == ns0[x].(children := ns0[x].children + [c])
    requires ns1[c].key == k && Denote(ns1, c) == v
    ensures Denote(ns1, 0) == Spec.AddUnder(doc, q, Key(k), v)
  {
    var e := Span(ns0, 0, |ns0|, q);
    var m := GetAt(doc, q).value.members;
    SpanShadows(ns0, 0, |ns0|, doc, q);
    ObjectKidsKept(ns0, ns1, e.0, e.1, m);
    ObjectSetFold(ns1, e.0, ns0[e.0].children, m, k, c, v);
    EditedAt(ns0, ns1, doc, q);
  }

  /** The fold of a container edit at `q`, written back at `q`, is the container edit of the document. */
  lemma {:induction false} RemoveUnderAt(doc: Structure, q: seq<Step>, s: Step, d: Json)
    requires Has(doc, q + [s])
    requires Has(doc, q) && GetAt(doc, q).value.IsStructure()
    requires s.Idx? ==>
      GetAt(doc, q).value.Arr? && s.index < |GetAt(doc, q).value.elems| && d == Arr(DeleteElem(GetAt(doc, q).value.elems, s.index))
    requires s.Key? ==> GetAt(doc, q).value.Obj? && d == Obj(GetAt(doc, q).value.members - {s.key})
    ensures Spec.RemoveUnder(doc, q, s) == SetAt(doc, q, d)
  {
  }

  /**
   * Emptying the node of location `q` and taking its child for step `s` out
   * of its child list removes that member or element from the fold.
   */
  lemma {:induction false} ChildRemoved(ns0: seq<Node>, ns1: seq<Node>, doc: Structure, q: seq<Step>, s: Step, empty: Json)
    requires Shadows(ns0, 0, |ns0|, doc) && Has(doc, q + [s])
    requires NodeAt(ns0, q) < |ns0| && empty == (if s.Idx? then Arr([]) else Obj(map[]))
    requires var x := NodeAt(ns0, q);
      ns1 == ns0[x := ns0[x].(val := Some(empty), children := Without(ns0[x].children, NodeAt(ns0, q + [s])))]
    ensures Denote(ns1, 0) == Spec.RemoveUnder(doc, q, s)
  {
    Spec.PrefixHas(doc, q, [s]);
    var v := GetAt(doc, q).value;
    if s.Idx? {
      ElementRemoved(ns0, ns1, doc, q, s.index);
      RemoveUnderAt(doc, q, s, Arr(DeleteElem(v.elems, s.index)));
    } else {
      MemberRemoved(ns0, ns1, doc, q, s.key);
      RemoveUnderAt(doc, q, s, Obj(v.members - {s.key}));
    }
    EditedAt(ns0, ns1, doc, q);
  }

  /** Emptying an array node and taking out its child at index `j` deletes element `j`. */
  lemma {:induction false} ElementRemoved(ns0: seq<Node>, ns1: seq<Node>, doc: Structure, q: seq<Step>, j: nat)
    requires Shadows(ns0, 0, |ns0|, doc) && Has(doc, q + [Idx(j)])
    requires NodeAt(ns0, q) < |ns0|
    requires var x := NodeAt(ns0, q);
      ns1 == ns0[x := ns0[x].(val := Some(Arr([])), children := Without(ns0[x].children, NodeAt(ns0, q + [Idx(j)])))]
    ensures Has(doc, q) && GetAt(doc, q).value.Arr? && j < |GetAt(doc, q).value.elems|
    ensures Denote(ns1, NodeAt(ns0, q)) == Arr(DeleteElem(GetAt(doc, q).value.elems, j))
  {
    ParentOf(ns0, doc, q, Idx(j));
    var e := Span(ns0, 0, |ns0|, q);
    var a := GetAt(doc, q).value.elems;
    assert OnlyNodeChanged(ns0, ns1, e.0);
    ArrayKidsKept(ns0, ns1, e.0, e.1, a);
    ArrayRemoveFold(ns1, e.0, ns0[e.0].children, a, j);
  }

  /** Emptying an object node and taking out its child named `k` deletes member `k`. */
  lemma {:induction false} MemberRemoved(ns0: seq<Node>, ns1: seq<Node>, doc: Structure, q: seq<Step>, k: string)
    requires Shadows(ns0, 0, |ns0|, doc) && Has(doc, q + [Key(k)])
    requires NodeAt(ns0, q) < |ns0|
    requires var x := NodeAt(ns0, q);
      ns1 == ns0[x := ns0[x].(val := Some(Obj(map[])), children := Without(ns0[x].children, NodeAt(ns0, q + [Key(k)])))]
    ensures Has(doc, q) && GetAt(doc, q).value.Obj? && k in GetAt(doc, q).value.members
    ensures Denote(ns1, NodeAt(ns0, q)) == Obj(GetAt(doc, q).value.members - {k})
  {
    ParentOf(ns0, doc, q, Key(k));
    var e := Span(ns0, 0, |ns0|, q);
    var v := GetAt(doc, q).value;
    var cs := ns0[e.0].children;
    assert OnlyNodeChanged(ns0, ns1, e.0);
    OldKids(ns0, ns1, e.0, e.1, v);
    SameKeyPos(ns0, ns1, cs, k);
    ObjectKidsKept(ns0, ns1, e.0, e.1, v.members);
    ObjectRemoveFold(ns1, e.0, cs, v.members, k);
  }

  /** Two trees that agree on the nodes `cs` find the same first node named `k` among them. */
  lemma {:induction false} SameKeyPos(ns0: seq<Node>, ns1: seq<Node>, cs: seq<nat>, k: string)
    requires forall i :: 0 <= i < |cs| ==> cs[i] < |ns0| && cs[i] < |ns1| && ns1[cs[i]] == ns0[cs[i]]
    ensures KeyPos(ns1, cs, k) == KeyPos(ns0, cs, k)
  {
    forall i | 0 <= i < |cs| ensures KeyOf(ns1, cs[i]) == KeyOf(ns0, cs[i]) {
    }
  }

  /** What folding the tree from its root gives, for a root that folds to `d`. */
  function RootResult(d: Json): (r: Result<Structure>)
    ensures r.Ok? <==> d.IsStructure()
    ensures r.Ok? ==> r.value == d
    ensures r.Err? ==> r.error == ScalarRoot
  {
    if d.IsStructure() then Ok(d) else Err(ScalarRoot)
  }

  /** add at a new location: the new node, given `v`, makes the member or the last element `v`. */
  lemma {:induction false} Filled(ns0: seq<Node>, ns1: seq<Node>, ns: seq<Node>, doc: Structure, toks: seq<string>, n: nat, v: Json)
    requires Shadows(ns0, 0, |ns0|, doc) && Located(ns0, ns1, doc, toks, Ok(n))
    requires Spec.Resolve(doc, toks).Ok? && !Spec.Resolve(doc, toks).value.At?
    requires n < |ns1| && ns == ns1[n := ns1[n].(val := Some(v))]
    ensures Spec.Add(doc, toks, v) == RootResult(Denote(ns, 0))
  {
    match Spec.Resolve(doc, toks).value
    case NewMember(q, k) =>
      FilledMember(ns0, ns1, ns, doc, q, k, v);
    case EndSlot(q) =>
      FilledEnd(ns0, ns1, ns, doc, q, v);
  }

  lemma {:induction false} FilledMember(ns0: seq<Node>, ns1: seq<Node>, ns: seq<Node>, doc: Structure, q: seq<Step>, k: string, v: Json)
    requires Shadows(ns0, 0, |ns0|, doc) && Has(doc, q) && GetAt(doc, q).value.Obj?
    requires |ns0| > 0 && NodeAt(ns0, q) < |ns0| && ns1 == WithPlaceholder(ns0, NodeAt(ns0, q), -2, k)
    requires ns == ns1[|ns0| := ns1[|ns0|].(val := Some(v))]
    ensures Denote(ns, 0) == Spec.AddUnder(doc, q, Key(k), v)
  {
    assert Denote(ns, |ns0|) == v;
    MemberAdded(ns0, ns, doc, q, k, |ns0|, v);
  }

  lemma {:induction false} FilledEnd(ns0: seq<Node>, ns1: seq<Node>, ns: seq<Node>, doc: Structure, q: seq<Step>, v: Json)
    requires Shadows(ns0, 0, |ns0|, doc) && Has(doc, q) && GetAt(doc, q).value.Arr?
    requires |ns0| > 0 && NodeAt(ns0, q) < |ns0|
    requires ns1 == WithPlaceholder(ns0, NodeAt(ns0, q), |GetAt(doc, q).value.elems|, "")
    requires ns == ns1[|ns0| := ns1[|ns0|].(val := Some(v))]
    ensures Denote(ns, 0) == Spec.AddUnder(doc, q, Idx(|GetAt(doc, q).value.elems|), v)
  {
    assert Denote(ns, |ns0|) == v;
    SpanShadows(ns0, 0, |ns0|, doc, q);
    ShadowsUnfold(ns0, NodeAt(ns0, q), Span(ns0, 0, |ns0|, q).1, GetAt(doc, q).value);
    ElementAdded(ns0, ns, doc, q, |GetAt(doc, q).value.elems|, |ns0|, v);
  }

  /** replace: the node of the location, given `v` and no children, folds to the document with `v` there. */
  lemma {:induction false} Replaced(ns0: seq<Node>, ns1: seq<Node>, ns: seq<Node>, doc: Structure, toks: seq<string>, v: Json)
    requires Shadows(ns0, 0, |ns0|, doc)
    requires Spec.Resolve(doc, toks).Ok? && Spec.Resolve(doc, toks).value.At?
    requires var n := NodeAt(ns0, Spec.Resolve(doc, toks).value.path);
      && n < |ns0| && ns1 == ns0[n := ns0[n].(val := Some(v))]
      && ns == ns1[n := ns1[n].(children := [])]
    ensures Spec.Replace(doc, toks, v) == RootResult(Denote(ns, 0))
  {
    var p := Spec.Resolve(doc, toks).value.path;
    assert ns == ns0[NodeAt(ns0, p) := ns0[NodeAt(ns0, p)].(val := Some(v), children := [])];
    assert Denote(ns, NodeAt(ns0, p)) == v;
    EditedAt(ns0, ns, doc, p);
  }

  /**
   * The parent of the node of an existing location below the root is the
   * node of the location one step shorter, an array exactly when the last
   * step is an index.
   */
  lemma {:induction false} ParentKind(ns: seq<Node>, doc: Structure, toks: seq<string>)
    requires Shadows(ns, 0, |ns|, doc)
    requires Spec.Resolve(doc, toks).Ok? && Spec.Resolve(doc, toks).value.At? && Spec.Resolve(doc, toks).value.path != []
    ensures var p := Spec.Resolve(doc, toks).value.path; var x := NodeAt(ns, p); var y := NodeAt(ns, p[..|p| - 1]);
      && y < x < |ns| && ns[x].parent == y && ns[y].val.Some?
      && (ns[y].val.value.Arr? <==> p[|p| - 1].Idx?)
  {
    var p := Spec.Resolve(doc, toks).value.path;
    var q, s := p[..|p| - 1], p[|p| - 1];
    assert p == q + [s];
    ParentOf(ns, doc, q, s);
  }

  /** remove below the root: the emptied parent without the node folds to the document without that location. */
  lemma {:induction false} Removed(ns0: seq<Node>, ns1: seq<Node>, ns: seq<Node>, doc: Structure, toks: seq<string>, empty: Json)
    requires Shadows(ns0, 0, |ns0|, doc)
    requires Spec.Resolve(doc, toks).Ok? && Spec.Resolve(doc, toks).value.At? && Spec.Resolve(doc, toks).value.path != []
    requires var p := Spec.Resolve(doc, toks).value.path; var y := NodeAt(ns0, p[..|p| - 1]);
      && y < |ns0| && empty == (if p[|p| - 1].Idx? then Arr([]) else Obj(map[]))
      && ns1 == ns0[y := ns0[y].(val := Some(empty))]
      && ns == ns1[y := ns1[y].(children := Without(ns1[y].children, NodeAt(ns0, p)))]
    ensures Spec.Remove(doc, toks) == RootResult(Denote(ns, 0))
  {
    var p := Spec.Resolve(doc, toks).value.path;
    var q, s := p[..|p| - 1], p[|p| - 1];
    LastSplit(p);
    EditedTwice(ns0, ns1, ns, NodeAt(ns0, q), Some(empty), NodeAt(ns0, p));
    ChildRemoved(ns0, ns, doc, q, s, empty);
  }

  /** A nonempty location is its parent location and one more step. */
  lemma {:induction false} LastSplit(p: seq<Step>)
    requires p != []
    ensures p == p[..|p| - 1] + [p[|p| - 1]]
  {
  }

  /** A node given a value and then rid of child `c` is the node edited in both fields at once. */
  lemma {:induction false} EditedTwice(ns0: seq<Node>, ns1: seq<Node>, ns: seq<Node>, y: nat, w: Option<Json>, c: nat)
    requires y < |ns0| && ns1 == ns0[y := ns0[y].(val := w)]
    requires ns == ns1[y := ns1[y].(children := Without(ns1[y].children, c))]
    ensures ns == ns0[y := ns0[y].(val := w, children := Without(ns0[y].children, c))]
  {
  }

  // ---------------------------------------------------------------------
  // The operations

  /**
   * foldNodesFrom: the tree is folded from its root; a root that does not
   * fold to an object or an array is refused.
   */
  method FoldNodesFrom(tree: NodeTree, node: nat) returns (r: Result<Structure>)
    requires Tree(tree.nodes) && node < |tree.nodes|
    modifies tree
    ensures r == RootResult(Denote(old(tree.nodes), 0))
  {
    var root := tree.RootOf(node);
    tree.Rebuild(root);
    var v := tree.nodes[root].val;
    if v.Some? && v.value.IsStructure() {
      return Ok(v.value);
    }
    return Err(ScalarRoot);
  }

  /** getValue: the value at an existing location; a location that does not exist yet is no element. */
  method GetValue(ptr: Pointer, target: Structure) returns (r: Result<Json>)
    ensures r == Spec.GetValue(target, Tokens(ptr))
  {
    var tree := new NodeTree(target);
    ghost var ns0 := tree.nodes;
    var found := Locate(tree, ptr, target);
    if found.Err? {
      return Err(found.error);
    }
    FoundNode(ns0, tree.nodes, target, Tokens(ptr), found.value);
    var w := tree.nodes[found.value].val;
    if w.None? {
      return Err(NoSuchElement);
    }
    return Ok(w.value);
  }

  /** testValue: as getValue, with a location that does not exist yet giving nothing instead of an error. */
  method TestValue(ptr: Pointer, target: Structure) returns (r: Result<Option<Json>>)
    ensures r == Spec.TestValue(target, Tokens(ptr))
  {
    var tree := new NodeTree(target);
    ghost var ns0 := tree.nodes;
    var found := Locate(tree, ptr, target);
    if found.Err? {
      return Err(found.error);
    }
    FoundNode(ns0, tree.nodes, target, Tokens(ptr), found.value);
    return Ok(tree.nodes[found.value].val);
  }

  /**
   * add: at an existing location a new node is put beside the one found,
   * into the same array position or under the same name; at a new location
   * the new node found takes the value. The tree is then folded. The root
   * has no parent to add beside.
   */
  method Add(ptr: Pointer, target: Structure, value: Json) returns (r: Result<Structure>)
    ensures r == Spec.Add(target, Tokens(ptr), value)
  {
    var tree := new NodeTree(target);
    ghost var ns0 := tree.nodes;
    var found := Locate(tree, ptr, target);
    if found.Err? {
      return Err(found.error);
    }
    var node := found.value;
    FoundNode(ns0, tree.nodes, target, Tokens(ptr), node);
    if tree.nodes[node].val.Some? {
      if tree.nodes[node].parent < 0 {
        return Err(NoParent);
      }
      AddBeside(tree, node, value, target, Tokens(ptr));
    } else {
      ghost var ns1 := tree.nodes;
      tree.SetVal(node, Some(value));
      Filled(ns0, ns1, tree.nodes, target, Tokens(ptr), node, value);
    }
    r := FoldNodesFrom(tree, node);
  }

  /** add at an existing location: a sibling for `value` goes into the parent of node `node`. */
  method AddBeside(tree: NodeTree, node: nat, value: Json, ghost doc: Structure, ghost toks: seq<string>)
    requires Tree(tree.nodes) && Shadows(tree.nodes, 0, |tree.nodes|, doc)
    requires Spec.Resolve(doc, toks).Ok? && Spec.Resolve(doc, toks).value.At?
    requires var p := Spec.Resolve(doc, toks).value.path; p != [] && node == NodeAt(tree.nodes, p)
    modifies tree
    ensures Tree(tree.nodes) && |old(tree.nodes)| <= |tree.nodes|
    ensures Spec.Add(doc, toks, value) == RootResult(Denote(tree.nodes, 0))
  {
    ghost var ns0 := tree.nodes;
    ghost var p := Spec.Resolve(doc, toks).value.path;
    ghost var q, s := p[..|p| - 1], p[|p| - 1];
    LastSplit(p);
    ParentOf(ns0, doc, q, s);
    var parent := tree.nodes[node].parent;
    ShadowsUnfold(ns0, parent, Span(ns0, 0, |ns0|, q).1, GetAt(doc, q).value);
    if tree.nodes[parent].val.value.Arr? {
      var c := tree.AddChild(parent, Some(value), tree.nodes[node].index, "");
      DenoteShadow(tree.nodes, c, |tree.nodes|, value);
      ElementAdded(ns0, tree.nodes, doc, q, s.index, c, value);
    } else {
      var c := tree.AddChild(parent, Some(value), -2, tree.nodes[node].key);
      DenoteShadow(tree.nodes, c, |tree.nodes|, value);
      MemberAdded(ns0, tree.nodes, doc, q, s.key, c, value);
    }
  }

  /** replace: the node found takes `value` and drops its children; the tree is then folded. */
  method Replace(ptr: Pointer, target: Structure, value: Json) returns (r: Result<Structure>)
    ensures r == Spec.Replace(target, Tokens(ptr), value)
  {
    var tree := new NodeTree(target);
    ghost var ns0 := tree.nodes;
    var found := Locate(tree, ptr, target);
    if found.Err? {
      return Err(found.error);
    }
    var node := found.value;
    FoundNode(ns0, tree.nodes, target, Tokens(ptr), node);
    if tree.nodes[node].val.None? {
      return Err(NoSuchElement);
    }
    tree.SetVal(node, Some(value));
    ghost var ns1 := tree.nodes;
    tree.ClearChildren(node);
    Replaced(ns0, ns1, tree.nodes, target, Tokens(ptr), value);
    r := FoldNodesFrom(tree, node);
  }

  /**
   * remove: the root gives the empty structure of its kind; otherwise the
   * parent of the node found is emptied, loses that node, and the tree is
   * folded from it.
   */
  method Remove(ptr: Pointer, target: Structure) returns (r: Result<Structure>)
    ensures r == Spec.Remove(target, Tokens(ptr))
  {
    var tree := new NodeTree(target);
    ghost var ns0 := tree.nodes;
    var found := Locate(tree, ptr, target);
    if found.Err? {
      return Err(found.error);
    }
    var node := found.value;
    FoundNode(ns0, tree.nodes, target, Tokens(ptr), node);
    if tree.nodes[node].val.None? {
      return Err(NoSuchElement);
    }
    if tree.nodes[node].parent < 0 {
      return Ok(EmptyLike(tree.nodes[node].val.value));
    }
    r := RemoveBelow(tree, node, target, Tokens(ptr));
  }

  /** remove below the root: the parent of node `node` is emptied, loses it, and the tree is folded. */
  method RemoveBelow(tree: NodeTree, node: nat, ghost doc: Structure, ghost toks: seq<string>) returns (r: Result<Structure>)
    requires Tree(tree.nodes) && Shadows(tree.nodes, 0, |tree.nodes|, doc)
    requires Spec.Resolve(doc, toks).Ok? && Spec.Resolve(doc, toks).value.At?
    requires var p := Spec.Resolve(doc, toks).value.path; p != [] && node == NodeAt(tree.nodes, p)
    modifies tree
    ensures r == Spec.Remove(doc, toks)
  {
    ghost var ns0 := tree.nodes;
    ParentKind(ns0, doc, toks);
    var parent := tree.nodes[node].parent;
    var empty := if tree.nodes[parent].val.value.Arr? then Arr([]) else Obj(map[]);
    tree.SetVal(parent, Some(empty));
    ghost var ns1 := tree.nodes;
    tree.RemoveChild(parent, node);
    Removed(ns0, ns1, tree.nodes, doc, toks, empty);
    r := FoldNodesFrom(tree, parent);
  }
}
