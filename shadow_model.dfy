/**
 * The shadow tree a JSON Pointer operation builds over its target: one node
 * per value, holding the value itself, its parent, its position (an array
 * index, or -2 under an object), its member name, and its children. The
 * nodes live in one sequence and refer to each other by position; a child
 * always comes after its parent.
 *
 * `Denote` is what folding the tree back into a value computes, and
 * `Shadows` says that a stretch of nodes is the tree built for a given value.
 */
module ShadowModel {
  import opened JsonValues

  /**
   * One tree node. `val` is None for a placeholder that stands for a member
   * or element about to be added; `parent` is -1 at the root; `key` is ""
   * under an array.
   */
  datatype Node = Node(val: Option<Json>, parent: int, index: int, key: string, children: seq<nat>)

  /** The root is node 0, every other node's parent comes before it, every child after its parent. */
  ghost predicate Linked(ns: seq<Node>)
  {
    && |ns| > 0
    && ns[0].parent == -1
    && (forall k :: 0 < k < |ns| ==> 0 <= ns[k].parent < k)
    && (forall k, j :: 0 <= k < |ns| && 0 <= j < |ns[k].children| ==> k < ns[k].children[j] < |ns|)
  }

  /** Every node holds a value: no placeholder is left. */
  ghost predicate AllExist(ns: seq<Node>)
  {
    forall k :: 0 <= k < |ns| ==> ns[k].val.Some?
  }

  function IndexOf(ns: seq<Node>, c: nat): int
  {
    if c < |ns| then ns[c].index else -2
  }

  function KeyOf(ns: seq<Node>, c: nat): string
  {
    if c < |ns| then ns[c].key else ""
  }

  function ValOf(ns: seq<Node>, c: nat): Json
  {
    if c < |ns| && ns[c].val.Some? then ns[c].val.value else Null
  }

  /** The member names of the nodes `cs`, in order. */
  function Keys(ns: seq<Node>, cs: seq<nat>): (r: seq<string>)
    ensures |r| == |cs|
  {
    seq(|cs|, j requires 0 <= j < |cs| => KeyOf(ns, cs[j]))
  }

  /** The values the nodes `cs` hold now, in order. */
  function Vals(ns: seq<Node>, cs: seq<nat>): (r: seq<Json>)
    ensures |r| == |cs|
  {
    seq(|cs|, j requires 0 <= j < |cs| => ValOf(ns, cs[j]))
  }

  /** The position in `cs` of the first node named `key`, or |cs| when there is none. */
  function KeyPos(ns: seq<Node>, cs: seq<nat>, key: string): (j: nat)
    ensures j <= |cs|
    ensures j < |cs| ==> KeyOf(ns, cs[j]) == key
    ensures forall i :: 0 <= i < j ==> KeyOf(ns, cs[i]) != key
    ensures j < |cs| <==> key in Keys(ns, cs)
  {
    if cs == [] then 0
    else if KeyOf(ns, cs[0]) == key then
      assert Keys(ns, cs)[0] == key;
      0
    else
      var j := KeyPos(ns, cs[1..], key);
      assert Keys(ns, cs) == [KeyOf(ns, cs[0])] + Keys(ns, cs[1..]);
      1 + j
  }

  /** `cs` without the first occurrence of `c`, as a list removal does it. */
  function Without(cs: seq<nat>, c: nat): (r: seq<nat>)
    ensures c in cs ==> |r| == |cs| - 1
    ensures c !in cs ==> r == cs
  {
    if cs == [] then []
    else if cs[0] == c then cs[1..]
    else [cs[0]] + Without(cs[1..], c)
  }

  lemma {:induction false} WithoutAt(cs: seq<nat>, j: nat)
    requires j < |cs|
    requires forall i :: 0 <= i < j ==> cs[i] != cs[j]
    ensures Without(cs, cs[j]) == cs[..j] + cs[j + 1..]
    decreases j
  {
    if j > 0 {
      WithoutAt(cs[1..], j - 1);
      assert cs[1..][..j - 1] == cs[1..j];
      assert cs[1..][j..] == cs[j + 1..];
      assert [cs[0]] + cs[1..j] == cs[..j];
    }
  }

  // ---------------------------------------------------------------------
  // Sorting children by their index field (a stable sort)

  predicate IndexSorted(ns: seq<Node>, cs: seq<nat>)
  {
    forall i, j :: 0 <= i < j < |cs| ==> IndexOf(ns, cs[i]) <= IndexOf(ns, cs[j])
  }

  /** `c` placed before the first node of `s` whose index is not smaller. */
  function InsertByIndex(ns: seq<Node>, c: nat, s: seq<nat>): (r: seq<nat>)
    ensures |r| == |s| + 1
    ensures multiset(r) == multiset(s) + multiset{c}
  {
    if s == [] || IndexOf(ns, c) <= IndexOf(ns, s[0]) then
      [c] + s
    else
      assert s == [s[0]] + s[1..];
      [s[0]] + InsertByIndex(ns, c, s[1..])
  }

  /** The stable insertion sort by index: equal indices keep their order. */
  function SortByIndex(ns: seq<Node>, cs: seq<nat>): (r: seq<nat>)
    ensures |r| == |cs|
    ensures multiset(r) == multiset(cs)
  {
    if cs == [] then []
    else
      assert cs == [cs[0]] + cs[1..];
      InsertByIndex(ns, cs[0], SortByIndex(ns, cs[1..]))
  }

  lemma {:induction false} InsertSorted(ns: seq<Node>, c: nat, s: seq<nat>)
    requires IndexSorted(ns, s)
    ensures IndexSorted(ns, InsertByIndex(ns, c, s))
    decreases |s|
  {
    if !(s == [] || IndexOf(ns, c) <= IndexOf(ns, s[0])) {
      var t := InsertByIndex(ns, c, s[1..]);
      InsertSorted(ns, c, s[1..]);
      forall i | 0 <= i < |t| ensures IndexOf(ns, s[0]) <= IndexOf(ns, t[i]) {
        assert t[i] in multiset(t);
        if t[i] != c {
          assert t[i] in multiset(s[1..]);
          var x :| 0 <= x < |s[1..]| && s[1..][x] == t[i];
          assert s[x + 1] == t[i];
        }
      }
    }
  }

  /** The sort yields children in index order. */
  lemma {:induction false} SortIsSorted(ns: seq<Node>, cs: seq<nat>)
    ensures IndexSorted(ns, SortByIndex(ns, cs))
    decreases |cs|
  {
    if cs != [] {
      SortIsSorted(ns, cs[1..]);
      InsertSorted(ns, cs[0], SortByIndex(ns, cs[1..]));
    }
  }

  /** Children already in index order stay as they are. */
  lemma {:induction false} SortSorted(ns: seq<Node>, cs: seq<nat>)
    requires IndexSorted(ns, cs)
    ensures SortByIndex(ns, cs) == cs
    decreases |cs|
  {
    if cs != [] {
      SortSorted(ns, cs[1..]);
      assert cs == [cs[0]] + cs[1..];
    }
  }

  /** The sort reads nothing but the index fields of the nodes it sorts. */
  lemma {:induction false} SortSameIndices(ns0: seq<Node>, ns1: seq<Node>, cs: seq<nat>)
    requires forall c :: c in cs ==> IndexOf(ns0, c) == IndexOf(ns1, c)
    ensures SortByIndex(ns0, cs) == SortByIndex(ns1, cs)
    decreases |cs|
  {
    if cs != [] {
      SortSameIndices(ns0, ns1, cs[1..]);
      var t := SortByIndex(ns0, cs[1..]);
      forall x | x in t ensures IndexOf(ns0, x) == IndexOf(ns1, x) {
        assert x in multiset(t);
        assert x in multiset(cs[1..]);
      }
      InsertSameIndices(ns0, ns1, cs[0], t);
    }
  }

  lemma {:induction false} InsertSameIndices(ns0: seq<Node>, ns1: seq<Node>, c: nat, s: seq<nat>)
    requires IndexOf(ns0, c) == IndexOf(ns1, c)
    requires forall x :: x in s ==> IndexOf(ns0, x) == IndexOf(ns1, x)
    ensures InsertByIndex(ns0, c, s) == InsertByIndex(ns1, c, s)
    decreases |s|
  {
    if s != [] {
      InsertSameIndices(ns0, ns1, c, s[1..]);
    }
  }

  // ---------------------------------------------------------------------
  // Building an object from (name, value) pairs: a later pair wins

  function MembersOf(keys: seq<string>, vals: seq<Json>): (r: map<string, Json>)
    requires |keys| == |vals|
    ensures keys != [] ==> keys[|keys| - 1] in r && r[keys[|keys| - 1]] == vals[|vals| - 1]
  {
    if keys == [] then map[]
    else MembersOf(keys[..|keys| - 1], vals[..|vals| - 1])[keys[|keys| - 1] := vals[|vals| - 1]]
  }

  predicate Distinct(keys: seq<string>)
  {
    forall i, j :: 0 <= i < j < |keys| ==> keys[i] != keys[j]
  }

  /** The object built from the pairs has exactly the names of the pairs. */
  lemma {:induction false} MembersOfKeys(keys: seq<string>, vals: seq<Json>)
    requires |keys| == |vals|
    ensures forall k :: k in MembersOf(keys, vals) <==> k in keys
    decreases |keys|
  {
    if keys != [] {
      var n := |keys| - 1;
      MembersOfKeys(keys[..n], vals[..n]);
      assert keys == keys[..n] + [keys[n]];
    }
  }

  /** With distinct names the pair at position `j` is kept. */
  lemma {:induction false} MembersOfAt(keys: seq<string>, vals: seq<Json>, j: nat)
    requires |keys| == |vals| && Distinct(keys) && j < |keys|
    ensures keys[j] in MembersOf(keys, vals) && MembersOf(keys, vals)[keys[j]] == vals[j]
    decreases |keys|
  {
    var n := |keys| - 1;
    if j < n {
      var ks := keys[..n];
      var vs := vals[..n];
      DistinctPrefix(keys, n);
      MembersOfAt(ks, vs, j);
      assert ks[j] == keys[j] && vs[j] == vals[j];
      assert keys[j] != keys[n];
    }
  }

  lemma {:induction false} DistinctPrefix(keys: seq<string>, n: nat)
    requires Distinct(keys) && n <= |keys|
    ensures Distinct(keys[..n])
  {
    var ks := keys[..n];
    forall a, b | 0 <= a < b < |ks| ensures ks[a] != ks[b] {
      assert ks[a] == keys[a] && ks[b] == keys[b];
    }
  }

  /** Distinct names covering the members of `m`, each with its member value, build `m`. */
  lemma {:induction false} MembersOfExact(keys: seq<string>, vals: seq<Json>, m: map<string, Json>)
    requires |keys| == |vals| && Distinct(keys)
    requires forall k :: k in m <==> k in keys
    requires forall j :: 0 <= j < |keys| ==> keys[j] in m && vals[j] == m[keys[j]]
    ensures MembersOf(keys, vals) == m
  {
    MembersOfKeys(keys, vals);
    var r := MembersOf(keys, vals);
    forall k | k in m ensures r[k] == m[k] {
      var j :| 0 <= j < |keys| && keys[j] == k;
      MembersOfAt(keys, vals, j);
    }
  }

  // ---------------------------------------------------------------------
  // Folding: the value a node stands for once its children are folded in

  /**
   * A leaf, or a structure without children, stands for its own value; an
   * object for the members its children name, a later child winning; an
   * array for its children's values sorted by their index field.
   */
  ghost function Denote(ns: seq<Node>, k: nat): Json
    requires k < |ns|
    decreases |ns| - k, 1
  {
    var n := ns[k];
    if n.val.None? then Null
    else if n.children == [] then n.val.value
    else match n.val.value
      case Obj(_) => Obj(MembersOf(Keys(ns, n.children), KidVals(ns, k, n.children)))
      case Arr(_) => Arr(KidVals(ns, k, SortByIndex(ns, n.children)))
      case v => v
  }

  /** The folded values of the children `cs` of node `k`. */
  ghost function KidVals(ns: seq<Node>, k: nat, cs: seq<nat>): (r: seq<Json>)
    requires k < |ns|
    ensures |r| == |cs|
    decreases |ns| - k, 0
  {
    seq(|cs|, j requires 0 <= j < |cs| => if k < cs[j] < |ns| then Denote(ns, cs[j]) else Null)
  }

  // ---------------------------------------------------------------------
  // The tree built for a value

  /** The children of node `k` lie one after another in (k, hi), the first right after `k`. */
  ghost predicate Layout(ns: seq<Node>, k: nat, hi: nat)
    requires k < |ns|
  {
    var cs := ns[k].children;
    && hi <= |ns|
    && (cs == [] ==> hi == k + 1)
    && (cs != [] ==> cs[0] == k + 1)
    && (forall j :: 0 <= j < |cs| ==> k < cs[j] < hi && ns[cs[j]].parent == k)
    && (forall i, j :: 0 <= i < j < |cs| ==> cs[i] < cs[j])
  }

  /** Where the stretch of the child at position `j` ends. */
  function End(ns: seq<Node>, k: nat, hi: nat, j: nat): nat
    requires k < |ns|
  {
    if j + 1 < |ns[k].children| then ns[k].children[j + 1] else hi
  }

  /** Below node `k`, the stretch [k, hi) is the tree built for `v`. */
  ghost predicate ShadowsBelow(ns: seq<Node>, k: nat, hi: nat, v: Json)
    decreases v, 0
  {
    && k < hi <= |ns|
    && Layout(ns, k, hi)
    && var cs := ns[k].children;
    match v
    case Arr(a) =>
      && |cs| == |a|
      && forall j :: 0 <= j < |cs| ==> ns[cs[j]].index == j && Shadows(ns, cs[j], End(ns, k, hi, j), a[j])
    case Obj(m) =>
      && Distinct(Keys(ns, cs))
      && (forall key :: key in m <==> key in Keys(ns, cs))
      && forall j :: 0 <= j < |cs| ==>
           ns[cs[j]].index == -2 && ns[cs[j]].key in m && Shadows(ns, cs[j], End(ns, k, hi, j), m[ns[cs[j]].key])
    case _ => cs == []
  }

  /** The stretch [k, hi) is the tree built for `v`, and node `k` holds `v`. */
  ghost predicate Shadows(ns: seq<Node>, k: nat, hi: nat, v: Json)
    decreases v, 1
  {
    k < |ns| && ns[k].val == Some(v) && ShadowsBelow(ns, k, hi, v)
  }

  /** What the tree built for `v` says about the children of its top node. */
  lemma {:induction false} ShadowsUnfold(ns: seq<Node>, k: nat, hi: nat, v: Json)
    requires Shadows(ns, k, hi, v)
    ensures k < hi <= |ns| && Layout(ns, k, hi) && ns[k].val == Some(v)
    ensures v.Arr? ==> |ns[k].children| == |v.elems|
    ensures v.Obj? ==> forall i :: 0 <= i < |ns[k].children| ==> ns[ns[k].children[i]].key in v.members
    ensures !v.IsStructure() ==> ns[k].children == []
  {
  }

  /** The stretch of a child lies inside its parent's stretch, after the child. */
  lemma {:induction false} ChildStretch(ns: seq<Node>, k: nat, hi: nat, j: nat)
    requires k < |ns| && Layout(ns, k, hi) && j < |ns[k].children|
    ensures k < ns[k].children[j] < End(ns, k, hi, j) <= hi
    ensures forall i :: 0 <= i < j ==> End(ns, k, hi, i) <= ns[k].children[j]
    ensures forall i :: j < i < |ns[k].children| ==> End(ns, k, hi, j) <= ns[k].children[i]
  {
  }

  lemma {:induction false} LayoutFrame(ns0: seq<Node>, ns1: seq<Node>, k: nat, hi: nat)
    requires k < hi <= |ns0| && hi <= |ns1| && Layout(ns0, k, hi)
    requires forall i :: k <= i < hi ==> ns1[i] == ns0[i]
    ensures ns1[k] == ns0[k] && Layout(ns1, k, hi)
    ensures forall j :: 0 <= j < |ns0[k].children| ==> ns1[ns0[k].children[j]] == ns0[ns0[k].children[j]]
    ensures Keys(ns1, ns0[k].children) == Keys(ns0, ns0[k].children)
    ensures forall j :: 0 <= j < |ns0[k].children| ==> End(ns1, k, hi, j) == End(ns0, k, hi, j)
  {
    var cs := ns0[k].children;
    assert ns1[k] == ns0[k];
    forall j | 0 <= j < |cs| ensures ns1[cs[j]] == ns0[cs[j]] {
      assert k < cs[j] < hi;
    }
  }

  /** A tree reads nothing outside its stretch. */
  lemma {:induction false} ShadowsFrame(ns0: seq<Node>, ns1: seq<Node>, k: nat, hi: nat, v: Json)
    requires Shadows(ns0, k, hi, v) && hi <= |ns0| && hi <= |ns1|
    requires forall i :: k <= i < hi ==> ns1[i] == ns0[i]
    ensures Shadows(ns1, k, hi, v)
    decreases v, 1
  {
    LayoutFrame(ns0, ns1, k, hi);
    match v
    case Arr(a) => ElementsFrame(ns0, ns1, k, hi, a);
    case Obj(m) => MembersFrame(ns0, ns1, k, hi, m);
    case _ =>
  }

  lemma {:induction false} ElementsFrame(ns0: seq<Node>, ns1: seq<Node>, k: nat, hi: nat, a: seq<Json>)
    requires Shadows(ns0, k, hi, Arr(a)) && hi <= |ns0| && hi <= |ns1|
    requires forall i :: k <= i < hi ==> ns1[i] == ns0[i]
    requires k < hi && ns1[k] == ns0[k] && Layout(ns1, k, hi)
    ensures ShadowsBelow(ns1, k, hi, Arr(a))
    decreases Arr(a), 0
  {
    var cs := ns0[k].children;
    ShadowsUnfold(ns0, k, hi, Arr(a));
    forall j | 0 <= j < |cs| ensures Shadows(ns1, cs[j], End(ns1, k, hi, j), a[j]) {
      ChildStretch(ns0, k, hi, j);
      ShadowsFrame(ns0, ns1, cs[j], End(ns0, k, hi, j), a[j]);
    }
  }

  lemma {:induction false} MembersFrame(ns0: seq<Node>, ns1: seq<Node>, k: nat, hi: nat, m: map<string, Json>)
    requires Shadows(ns0, k, hi, Obj(m)) && hi <= |ns0| && hi <= |ns1|
    requires forall i :: k <= i < hi ==> ns1[i] == ns0[i]
    requires k < hi && ns1[k] == ns0[k] && Layout(ns1, k, hi)
    requires forall j :: 0 <= j < |ns0[k].children| ==> ns1[ns0[k].children[j]] == ns0[ns0[k].children[j]]
    requires Keys(ns1, ns0[k].children) == Keys(ns0, ns0[k].children)
    ensures ShadowsBelow(ns1, k, hi, Obj(m))
    decreases Obj(m), 0
  {
    var cs := ns0[k].children;
    ObjectKeys(ns0, k, hi, m);
    forall j | 0 <= j < |cs|
      ensures ns1[cs[j]].index == -2 && ns1[cs[j]].key in m && Shadows(ns1, cs[j], End(ns1, k, hi, j), m[ns1[cs[j]].key])
    {
      ObjectChild(ns0, k, hi, m, j);
      ChildStretch(ns0, k, hi, j);
      ShadowsFrame(ns0, ns1, cs[j], End(ns0, k, hi, j), m[ns0[cs[j]].key]);
    }
  }

  /** Each child of an object's tree is a member: named in the object, and the tree built for that member's value. */
  lemma {:induction false} ObjectChild(ns: seq<Node>, k: nat, hi: nat, m: map<string, Json>, j: nat)
    requires Shadows(ns, k, hi, Obj(m)) && j < |ns[k].children|
    ensures ns[k].children[j] < |ns| && ns[ns[k].children[j]].index == -2 && ns[ns[k].children[j]].key in m
    ensures Shadows(ns, ns[k].children[j], End(ns, k, hi, j), m[ns[ns[k].children[j]].key])
  {
  }

  // ---------------------------------------------------------------------
  // The value each child was built for

  /** The value the child at position `i` of node `k` was built for. */
  function KidValue(ns: seq<Node>, k: nat, v: Json, i: nat): Json
    requires k < |ns|
  {
    var cs := ns[k].children;
    if v.Arr? && i < |v.elems| then v.elems[i]
    else if v.Obj? && i < |cs| && KeyOf(ns, cs[i]) in v.members then v.members[KeyOf(ns, cs[i])]
    else Null
  }

  lemma {:induction false} KidShadows(ns: seq<Node>, k: nat, hi: nat, v: Json, i: nat)
    requires Shadows(ns, k, hi, v) && i < |ns[k].children|
    ensures Layout(ns, k, hi)
    ensures Shadows(ns, ns[k].children[i], End(ns, k, hi, i), KidValue(ns, k, v, i))
    ensures v.Arr? ==> ns[ns[k].children[i]].index == i
  {
  }

  /** The names of an object's children are distinct and are exactly its member names. */
  lemma {:induction false} ObjectKeys(ns: seq<Node>, k: nat, hi: nat, m: map<string, Json>)
    requires Shadows(ns, k, hi, Obj(m))
    ensures Distinct(Keys(ns, ns[k].children))
    ensures forall key :: key in m <==> key in Keys(ns, ns[k].children)
  {
  }

  /** An array node whose children are in index order folds to their values. */
  lemma {:induction false} FoldArray(ns: seq<Node>, k: nat, a: seq<Json>)
    requires k < |ns| && ns[k].val.Some? && ns[k].val.value.Arr?
    requires ns[k].children != [] && |ns[k].children| == |a|
    requires forall x :: 0 <= x < |a| ==> k < ns[k].children[x] < |ns|
    requires IndexSorted(ns, ns[k].children)
    requires forall x :: 0 <= x < |a| ==> Denote(ns, ns[k].children[x]) == a[x]
    ensures Denote(ns, k) == Arr(a)
  {
    SortSorted(ns, ns[k].children);
    assert KidVals(ns, k, ns[k].children) == a;
  }

  /** An object node whose children carry distinct names folds to those members. */
  lemma {:induction false} FoldObject(ns: seq<Node>, k: nat, m: map<string, Json>)
    requires k < |ns| && ns[k].val.Some? && ns[k].val.value.Obj? && ns[k].children != []
    requires forall x :: 0 <= x < |ns[k].children| ==> k < ns[k].children[x] < |ns|
    requires Distinct(Keys(ns, ns[k].children))
    requires forall key :: key in m <==> key in Keys(ns, ns[k].children)
    requires forall x :: 0 <= x < |ns[k].children| ==>
      KeyOf(ns, ns[k].children[x]) in m && Denote(ns, ns[k].children[x]) == m[KeyOf(ns, ns[k].children[x])]
    ensures Denote(ns, k) == Obj(m)
  {
    var cs := ns[k].children;
    var vals := KidVals(ns, k, cs);
    forall x | 0 <= x < |cs| ensures Keys(ns, cs)[x] in m && vals[x] == m[Keys(ns, cs)[x]] {
    }
    MembersOfExact(Keys(ns, cs), vals, m);
  }

  /** Folding the tree built for `v` gives back `v`. */
  lemma {:induction false} DenoteShadow(ns: seq<Node>, k: nat, hi: nat, v: Json)
    requires Shadows(ns, k, hi, v)
    ensures Denote(ns, k) == v
    decreases hi - k
  {
    ShadowsUnfold(ns, k, hi, v);
    var cs := ns[k].children;
    if cs != [] {
      forall x | 0 <= x < |cs|
        ensures k < cs[x] < |ns| && Denote(ns, cs[x]) == KidValue(ns, k, v, x)
        ensures v.Arr? ==> IndexOf(ns, cs[x]) == x
      {
        KidShadows(ns, k, hi, v, x);
        ChildStretch(ns, k, hi, x);
        DenoteShadow(ns, cs[x], End(ns, k, hi, x), KidValue(ns, k, v, x));
      }
      if v.Arr? {
        FoldArray(ns, k, v.elems);
      } else {
        ObjectKeys(ns, k, hi, v.members);
        FoldObject(ns, k, v.members);
      }
    }
  }

  /** A child whose stretch did not change still folds to the value it was built for. */
  lemma {:induction false} KidKept(ns0: seq<Node>, ns1: seq<Node>, k: nat, hi: nat, v: Json, i: nat)
    requires Shadows(ns0, k, hi, v) && hi <= |ns0| <= |ns1| && i < |ns0[k].children|
    requires forall x :: ns0[k].children[i] <= x < End(ns0, k, hi, i) && x < |ns0| ==> ns1[x] == ns0[x]
    ensures ns0[k].children[i] < |ns0|
    ensures ns1[ns0[k].children[i]] == ns0[ns0[k].children[i]]
    ensures Denote(ns1, ns0[k].children[i]) == KidValue(ns0, k, v, i)
  {
    var c := ns0[k].children[i];
    KidShadows(ns0, k, hi, v, i);
    ChildStretch(ns0, k, hi, i);
    ShadowsFrame(ns0, ns1, c, End(ns0, k, hi, i), KidValue(ns0, k, v, i));
    DenoteShadow(ns1, c, End(ns0, k, hi, i), KidValue(ns0, k, v, i));
  }

  // ---------------------------------------------------------------------
  // Following a location through the tree

  /** The value one step below `v`. */
  function Child(v: Json, s: Step): Json
    requires Has(v, [s])
  {
    match s
    case Key(k) => v.members[k]
    case Idx(i) => v.elems[i]
  }

  lemma {:induction false} HasHead(v: Json, p: seq<Step>)
    requires Has(v, p) && p != []
    ensures Has(v, [p[0]]) && Has(Child(v, p[0]), p[1..])
    ensures GetAt(v, p) == GetAt(Child(v, p[0]), p[1..])
  {
  }

  /** The position among the children `cs` of the child for step `s`. */
  function ChildPos(ns: seq<Node>, cs: seq<nat>, s: Step): nat
  {
    match s
    case Idx(i) => i
    case Key(key) => KeyPos(ns, cs, key)
  }

  /**
   * The child of `k` for step `s` and the end of its stretch; (k, hi) when
   * there is no such child.
   */
  function ChildSpan(ns: seq<Node>, k: nat, hi: nat, s: Step): (nat, nat)
    requires k < |ns|
  {
    var cs := ns[k].children;
    var j := ChildPos(ns, cs, s);
    if j < |cs| then (cs[j], End(ns, k, hi, j)) else (k, hi)
  }

  /** In the tree built for `v`, the child for an existing step is the tree built for that member. */
  lemma {:induction false} ChildSpanShadows(ns: seq<Node>, k: nat, hi: nat, v: Json, s: Step)
    requires Shadows(ns, k, hi, v) && Has(v, [s])
    ensures ChildPos(ns, ns[k].children, s) < |ns[k].children|
    ensures var c := ChildSpan(ns, k, hi, s);
      k < c.0 < c.1 <= hi && Shadows(ns, c.0, c.1, Child(v, s))
  {
    var cs := ns[k].children;
    var j := ChildPos(ns, cs, s);
    if s.Key? {
      assert s.key in Keys(ns, cs);
      assert KeyOf(ns, cs[j]) == s.key;
    }
    KidShadows(ns, k, hi, v, j);
    ChildStretch(ns, k, hi, j);
  }

  /** The node for location `p` below node `k`, and the end of its stretch. */
  function Span(ns: seq<Node>, k: nat, hi: nat, p: seq<Step>): (nat, nat)
    requires k < |ns|
    decreases p
  {
    if p == [] then (k, hi)
    else
      var c := ChildSpan(ns, k, hi, p[0]);
      if c.0 < |ns| then Span(ns, c.0, c.1, p[1..]) else (k, hi)
  }

  /** In the tree built for `v`, the node for an existing location is the tree built for its value. */
  lemma {:induction false} SpanShadows(ns: seq<Node>, k: nat, hi: nat, v: Json, p: seq<Step>)
    requires Shadows(ns, k, hi, v) && Has(v, p)
    ensures var e := Span(ns, k, hi, p);
      k <= e.0 < e.1 <= hi && Shadows(ns, e.0, e.1, GetAt(v, p).value) && (p != [] ==> k < e.0)
    decreases p
  {
    ShadowsUnfold(ns, k, hi, v);
    if p != [] {
      HasHead(v, p);
      ChildSpanShadows(ns, k, hi, v, p[0]);
      var c := ChildSpan(ns, k, hi, p[0]);
      SpanShadows(ns, c.0, c.1, Child(v, p[0]), p[1..]);
    }
  }

  /** One more step at the end of a location is one more child step from its node. */
  lemma {:induction false} SpanAppend(ns: seq<Node>, k: nat, hi: nat, v: Json, p: seq<Step>, s: Step)
    requires Shadows(ns, k, hi, v) && Has(v, p)
    ensures Span(ns, k, hi, p).0 < |ns|
    ensures var e := Span(ns, k, hi, p);
      Span(ns, k, hi, p + [s]) == (var c := ChildSpan(ns, e.0, e.1, s); if c.0 < |ns| then c else e)
    decreases p
  {
    SpanShadows(ns, k, hi, v, p);
    if p == [] {
      assert p + [s] == [s];
    } else {
      HasHead(v, p);
      SnocTail(p, s);
      ChildSpanShadows(ns, k, hi, v, p[0]);
      var c := ChildSpan(ns, k, hi, p[0]);
      SpanAppend(ns, c.0, c.1, Child(v, p[0]), p[1..], s);
    }
  }

  /** A step appended to a nonempty location keeps its first step and is appended to the rest. */
  lemma {:induction false} SnocTail(p: seq<Step>, s: Step)
    requires p != []
    ensures (p + [s])[0] == p[0] && (p + [s])[1..] == p[1..] + [s]
  {
  }

  // ---------------------------------------------------------------------
  // Editing one stretch and folding again

  /** Inside [k, hi), only the stretch `e` changed, and the node of `e` kept its index and name. */
  ghost predicate EditedOnly(ns0: seq<Node>, ns1: seq<Node>, k: nat, hi: nat, e: (nat, nat))
  {
    && hi <= |ns0| <= |ns1|
    && e.0 < |ns0|
    && (forall i :: k <= i < hi && !(e.0 <= i < e.1) ==> ns1[i] == ns0[i])
    && ns1[e.0].index == ns0[e.0].index
    && ns1[e.0].key == ns0[e.0].key
  }

  /** The node `k` and the children other than the edited one are as they were. */
  lemma {:induction false} OtherKids(ns0: seq<Node>, ns1: seq<Node>, k: nat, hi: nat, v: Json, s: Step)
    requires Shadows(ns0, k, hi, v) && Has(v, [s])
    requires EditedOnly(ns0, ns1, k, hi, ChildSpan(ns0, k, hi, s))
    ensures ns1[k] == ns0[k] && Layout(ns0, k, hi)
    ensures ChildPos(ns0, ns0[k].children, s) < |ns0[k].children|
    ensures var cs := ns0[k].children; var j := ChildPos(ns0, cs, s);
      forall x :: 0 <= x < |cs| && x != j ==>
        ns1[cs[x]] == ns0[cs[x]] && Denote(ns1, cs[x]) == KidValue(ns0, k, v, x)
  {
    var cs := ns0[k].children;
    var j := ChildPos(ns0, cs, s);
    ChildSpanShadows(ns0, k, hi, v, s);
    ShadowsUnfold(ns0, k, hi, v);
    ChildStretch(ns0, k, hi, j);
    forall x | 0 <= x < |cs| && x != j
      ensures ns1[cs[x]] == ns0[cs[x]] && Denote(ns1, cs[x]) == KidValue(ns0, k, v, x)
    {
      ChildStretch(ns0, k, hi, x);
      KidKept(ns0, ns1, k, hi, v, x);
    }
  }

  /** Every child keeps its index field and its name. */
  lemma {:induction false} SameLabels(ns0: seq<Node>, ns1: seq<Node>, k: nat, hi: nat, v: Json, s: Step)
    requires Shadows(ns0, k, hi, v) && Has(v, [s])
    requires EditedOnly(ns0, ns1, k, hi, ChildSpan(ns0, k, hi, s))
    ensures var cs := ns0[k].children;
      && (forall x :: 0 <= x < |cs| ==> KeyOf(ns1, cs[x]) == KeyOf(ns0, cs[x]) && IndexOf(ns1, cs[x]) == IndexOf(ns0, cs[x]))
      && Keys(ns1, cs) == Keys(ns0, cs)
  {
    var cs := ns0[k].children;
    var j := ChildPos(ns0, cs, s);
    ChildSpanShadows(ns0, k, hi, v, s);
    ShadowsUnfold(ns0, k, hi, v);
    ChildStretch(ns0, k, hi, j);
    forall x | 0 <= x < |cs|
      ensures KeyOf(ns1, cs[x]) == KeyOf(ns0, cs[x]) && IndexOf(ns1, cs[x]) == IndexOf(ns0, cs[x])
    {
      if x != j {
        assert k < cs[x] < hi;
        assert !(cs[j] <= cs[x] < End(ns0, k, hi, j));
      }
    }
    assert Keys(ns1, cs) == Keys(ns0, cs);
  }

  /** Changing one element's stretch changes that element of the folded array. */
  lemma {:induction false} StepArray(ns0: seq<Node>, ns1: seq<Node>, k: nat, hi: nat, a: seq<Json>, i: nat)
    requires Shadows(ns0, k, hi, Arr(a)) && i < |a|
    requires EditedOnly(ns0, ns1, k, hi, ChildSpan(ns0, k, hi, Idx(i)))
    ensures Denote(ns1, k) == Arr(a[i := Denote(ns1, ChildSpan(ns0, k, hi, Idx(i)).0)])
  {
    var cs := ns0[k].children;
    OtherKids(ns0, ns1, k, hi, Arr(a), Idx(i));
    SameLabels(ns0, ns1, k, hi, Arr(a), Idx(i));
    forall x | 0 <= x < |cs| ensures IndexOf(ns1, cs[x]) == x {
      KidShadows(ns0, k, hi, Arr(a), x);
    }
    FoldArray(ns1, k, a[i := Denote(ns1, cs[i])]);
  }

  /** Distinct names with one value changed build the map with that member changed. */
  lemma {:induction false} MembersAfterEdit(keys: seq<string>, vals: seq<Json>, m: map<string, Json>, j: nat, d: Json)
    requires |keys| == |vals| && j < |keys| && Distinct(keys)
    requires forall key :: key in m <==> key in keys
    requires forall x :: 0 <= x < |keys| && x != j ==> vals[x] == m[keys[x]]
    requires vals[j] == d
    ensures MembersOf(keys, vals) == m[keys[j] := d]
  {
    var m1 := m[keys[j] := d];
    forall x | 0 <= x < |keys| ensures keys[x] in m1 && vals[x] == m1[keys[x]] {
      if x != j { assert keys[x] != keys[j]; }
    }
    MembersOfExact(keys, vals, m1);
  }

  /** Changing one member's stretch changes that member of the folded object. */
  lemma {:induction false} StepObject(ns0: seq<Node>, ns1: seq<Node>, k: nat, hi: nat, m: map<string, Json>, key: string)
    requires Shadows(ns0, k, hi, Obj(m)) && key in m
    requires EditedOnly(ns0, ns1, k, hi, ChildSpan(ns0, k, hi, Key(key)))
    ensures Denote(ns1, k) == Obj(m[key := Denote(ns1, ChildSpan(ns0, k, hi, Key(key)).0)])
  {
    var cs := ns0[k].children;
    var j := ChildPos(ns0, cs, Key(key));
    OtherKids(ns0, ns1, k, hi, Obj(m), Key(key));
    SameLabels(ns0, ns1, k, hi, Obj(m), Key(key));
    ObjectKeys(ns0, k, hi, m);
    var vals := KidVals(ns1, k, cs);
    forall x | 0 <= x < |cs| && x != j ensures vals[x] == m[Keys(ns1, cs)[x]] {
      assert vals[x] == Denote(ns1, cs[x]);
    }
    MembersAfterEdit(Keys(ns1, cs), vals, m, j, Denote(ns1, cs[j]));
  }

  /** Changing the stretch of the child for step `s` writes its new fold at `[s]`. */
  lemma {:induction false} StepAny(ns0: seq<Node>, ns1: seq<Node>, k: nat, hi: nat, v: Json, s: Step)
    requires Shadows(ns0, k, hi, v) && Has(v, [s])
    requires EditedOnly(ns0, ns1, k, hi, ChildSpan(ns0, k, hi, s))
    ensures Denote(ns1, k) == SetAt(v, [s], Denote(ns1, ChildSpan(ns0, k, hi, s).0))
  {
    match s
    case Idx(i) => StepArray(ns0, ns1, k, hi, v.elems, i);
    case Key(key) => StepObject(ns0, ns1, k, hi, v.members, key);
  }

  /** An edit confined to the node for `p` below a child is confined to that child. */
  lemma {:induction false} EditedStep(ns0: seq<Node>, ns1: seq<Node>, k: nat, hi: nat, v: Json, p: seq<Step>)
    requires Shadows(ns0, k, hi, v) && Has(v, p) && p != []
    requires EditedOnly(ns0, ns1, k, hi, Span(ns0, k, hi, p))
    ensures Has(v, [p[0]]) && Has(Child(v, p[0]), p[1..])
    ensures var c := ChildSpan(ns0, k, hi, p[0]);
      && k < c.0 < |ns0|
      && Shadows(ns0, c.0, c.1, Child(v, p[0]))
      && Span(ns0, k, hi, p) == Span(ns0, c.0, c.1, p[1..])
      && EditedOnly(ns0, ns1, c.0, c.1, Span(ns0, c.0, c.1, p[1..]))
      && EditedOnly(ns0, ns1, k, hi, c)
  {
    HasHead(v, p);
    ChildSpanShadows(ns0, k, hi, v, p[0]);
    var c := ChildSpan(ns0, k, hi, p[0]);
    SpanShadows(ns0, c.0, c.1, Child(v, p[0]), p[1..]);
    var e := Span(ns0, c.0, c.1, p[1..]);
    assert Span(ns0, k, hi, p) == e;
    if p[1..] != [] {
      assert ns1[c.0] == ns0[c.0];
    }
  }

  /** The two writes of one propagation step make one write at the whole location. */
  lemma {:induction false} WriteThrough(v: Json, p: seq<Step>, d: Json, w: Json, top: Json)
    requires p != [] && Has(v, [p[0]]) && Has(Child(v, p[0]), p[1..])
    requires d == SetAt(Child(v, p[0]), p[1..], w)
    requires top == SetAt(v, [p[0]], d)
    ensures Has(v, p) && top == SetAt(v, p, w)
  {
    assert [p[0]] + p[1..] == p;
    SetAtAppend(v, [p[0]], p[1..], w);
  }

  /**
   * When only the stretch of the node for location `p` changed, folding the
   * whole tree writes that node's new value at `p` and leaves the rest as it was.
   */
  lemma {:induction false} Propagate(ns0: seq<Node>, ns1: seq<Node>, k: nat, hi: nat, v: Json, p: seq<Step>)
    requires Shadows(ns0, k, hi, v) && Has(v, p)
    requires EditedOnly(ns0, ns1, k, hi, Span(ns0, k, hi, p))
    ensures Denote(ns1, k) == SetAt(v, p, Denote(ns1, Span(ns0, k, hi, p).0))
    decreases p
  {
    if p != [] {
      EditedStep(ns0, ns1, k, hi, v, p);
      var c := ChildSpan(ns0, k, hi, p[0]);
      var e := Span(ns0, k, hi, p);
      Propagate(ns0, ns1, c.0, c.1, Child(v, p[0]), p[1..]);
      StepAny(ns0, ns1, k, hi, v, p[0]);
      WriteThrough(v, p, Denote(ns1, c.0), Denote(ns1, e.0), Denote(ns1, k));
    }
  }
}
