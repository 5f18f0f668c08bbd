/** The FP-tree's nodes. Every `TreeNode` the tree allocates is an entry
    of an arena (a sequence held by the tree); a pointer is an index into
    it and `nullptr` is `NIL`. The root is entry 0. Nodes are only ever
    appended, so a parent, an earlier sibling and an earlier node of a
    cross-link chain always have a smaller index than the node itself. */
module Arena {
  import opened Ordering
  import opened Transactions
  import opened Patterns

  const NIL: int := -1
  /** The label of the root node (`new TreeNode(-1)`). */
  const ROOT_ITEM: Item := -1

  datatype TreeNode = TreeNode(item: Item, count: nat, leftChild: int, rightSibling: int, crossLink: int, parent: int)

  /** A header-table entry: the first and the last node of a cross-link
      chain. */
  datatype HeadTail = HeadTail(head: int, tail: int)

  type Nodes = seq<TreeNode>

  function RootNode(): TreeNode
  {
    TreeNode(ROOT_ITEM, 1, NIL, NIL, NIL, NIL)
  }

  /** `new TreeNode(x, this)`: count 1, no links. */
  function NewNode(x: Item, p: nat): TreeNode
  {
    TreeNode(x, 1, NIL, NIL, NIL, p)
  }

  // ---------------------------------------------------------------------
  // Parent structure and root paths
  // ---------------------------------------------------------------------

  /** The root is entry 0 and every other node's parent comes before it. */
  ghost predicate ParentsBefore(ns: Nodes)
  {
    |ns| >= 1 && ns[0].parent == NIL &&
    forall n :: 1 <= n < |ns| ==> 0 <= ns[n].parent < n
  }

  /** The labels on the way from the root (excluded) down to `n`. */
  ghost function PathOf(ns: Nodes, n: nat): seq<Item>
    requires ParentsBefore(ns) && n < |ns|
    decreases n
  {
    if n == 0 then [] else PathOf(ns, ns[n].parent) + [ns[n].item]
  }

  /** Same labels and parents: the root paths agree. */
  ghost predicate SameParents(ns: Nodes, ms: Nodes)
  {
    |ns| == |ms| && forall n :: 0 <= n < |ns| ==> ms[n].item == ns[n].item && ms[n].parent == ns[n].parent
  }

  /** Same labels, parents and counts. */
  ghost predicate SameCounts(ns: Nodes, ms: Nodes)
  {
    SameParents(ns, ms) && forall n :: 0 <= n < |ns| ==> ms[n].count == ns[n].count
  }

  /** Same labels, parents and child/sibling links. */
  ghost predicate SameLinks(ns: Nodes, ms: Nodes)
  {
    SameParents(ns, ms) &&
    forall n :: 0 <= n < |ns| ==> ms[n].leftChild == ns[n].leftChild && ms[n].rightSibling == ns[n].rightSibling
  }

  lemma {:induction false} PathOfSame(ns: Nodes, ms: Nodes, n: nat)
    requires ParentsBefore(ns) && SameParents(ns, ms) && n < |ns|
    ensures ParentsBefore(ms) && PathOf(ms, n) == PathOf(ns, n)
    decreases n
  {
    if n > 0 {
      PathOfSame(ns, ms, ns[n].parent);
    }
  }

  /** Appending a node below an existing one leaves every old root path
      as it was. */
  lemma {:induction false} PathOfAppend(ns: Nodes, e: TreeNode, n: nat)
    requires ParentsBefore(ns) && 0 <= e.parent < |ns| && n < |ns|
    ensures ParentsBefore(ns + [e])
    ensures PathOf(ns + [e], n) == PathOf(ns, n)
    decreases n
  {
    if n > 0 {
      PathOfAppend(ns, e, ns[n].parent);
    }
  }

  /** The appended node's root path is its parent's, extended by its
      label. */
  lemma PathOfNew(ns: Nodes, e: TreeNode)
    requires ParentsBefore(ns) && 0 <= e.parent < |ns|
    ensures ParentsBefore(ns + [e])
    ensures PathOf(ns + [e], |ns|) == PathOf(ns, e.parent) + [e.item]
  {
    PathOfAppend(ns, e, e.parent);
  }

  lemma PathOfNonEmpty(ns: Nodes, n: nat)
    requires ParentsBefore(ns) && n < |ns|
    ensures PathOf(ns, n) == [] <==> n == 0
  {
  }

  // ---------------------------------------------------------------------
  // Child lists
  // ---------------------------------------------------------------------

  /** `kids[p]` is the child list of node `p`, in sibling order: the list
      `left_child` starts and `right_sibling` follows. Children are in
      creation order, every non-root node is a child of its parent. */
  ghost predicate Shape(ns: Nodes, kids: seq<seq<nat>>)
  {
    ChildLists(ns, kids) && FirstChildren(ns, kids) && NextSiblings(ns, kids)
  }

  ghost predicate ChildLists(ns: Nodes, kids: seq<seq<nat>>)
  {
    |kids| == |ns| &&
    (forall p, i :: 0 <= p < |ns| && 0 <= i < |kids[p]| ==> p < kids[p][i] < |ns| && ns[kids[p][i]].parent == p) &&
    (forall p, i, j :: 0 <= p < |ns| && 0 <= i < j < |kids[p]| ==> kids[p][i] < kids[p][j]) &&
    (forall n :: 1 <= n < |ns| && 0 <= ns[n].parent < |ns| ==> n in kids[ns[n].parent])
  }

  ghost predicate FirstChildren(ns: Nodes, kids: seq<seq<nat>>)
    requires |kids| == |ns|
  {
    forall p :: 0 <= p < |ns| ==> ns[p].leftChild == (if kids[p] == [] then NIL else kids[p][0])
  }

  ghost predicate NextSiblings(ns: Nodes, kids: seq<seq<nat>>)
    requires |kids| == |ns|
  {
    forall p, i :: 0 <= p < |ns| && 0 <= i < |kids[p]| && kids[p][i] < |ns| ==>
      ns[kids[p][i]].rightSibling == (if i + 1 < |kids[p]| then kids[p][i + 1] else NIL)
  }

  lemma ShapeSameLinks(ns: Nodes, ms: Nodes, kids: seq<seq<nat>>)
    requires Shape(ns, kids) && SameLinks(ns, ms)
    ensures Shape(ms, kids)
  {
  }

  /** The sibling link that a new last child of `p` is hung on: `p`'s
      `left_child` when `p` has no child yet, otherwise the last child's
      `right_sibling`. Nothing else changes. */
  function Relink(ns: Nodes, siblings: seq<nat>, p: nat, node: int): (r: Nodes)
    requires p < |ns| && forall i :: 0 <= i < |siblings| ==> siblings[i] < |ns|
    ensures SameCounts(ns, r)
    ensures forall m :: 0 <= m < |ns| ==> r[m].crossLink == ns[m].crossLink
    ensures siblings == [] ==> r[p].leftChild == node
    ensures siblings != [] ==> r[siblings[|siblings| - 1]].rightSibling == node
    ensures forall m :: 0 <= m < |ns| && (siblings == [] || m != siblings[|siblings| - 1]) ==> r[m].rightSibling == ns[m].rightSibling
    ensures forall m :: 0 <= m < |ns| && (siblings != [] || m != p) ==> r[m].leftChild == ns[m].leftChild
  {
    if siblings == [] then ns[p := ns[p].(leftChild := node)]
    else
      var last := siblings[|siblings| - 1];
      ns[last := ns[last].(rightSibling := node)]
  }

  /** A new last child keeps the child lists well formed. */
  lemma ShapeNewChild(ns: Nodes, kids: seq<seq<nat>>, p: nat, x: Item)
    requires ParentsBefore(ns) && Shape(ns, kids) && p < |ns|
    ensures ParentsBefore(Relink(ns, kids[p], p, |ns|) + [NewNode(x, p)])
    ensures Shape(Relink(ns, kids[p], p, |ns|) + [NewNode(x, p)], kids[p := kids[p] + [|ns|]] + [[]])
  {
    var ms := Relink(ns, kids[p], p, |ns|) + [NewNode(x, p)];
    var ks := kids[p := kids[p] + [|ns|]] + [[]];
    ChildListsNewChild(ns, kids, p, x, ms, ks);
    FirstChildrenNewChild(ns, kids, p, x, ms, ks);
    NextSiblingsNewChild(ns, kids, p, x, ms, ks);
  }

  lemma ChildListsNewChild(ns: Nodes, kids: seq<seq<nat>>, p: nat, x: Item, ms: Nodes, ks: seq<seq<nat>>)
    requires ParentsBefore(ns) && ChildLists(ns, kids) && p < |ns|
    requires ms == Relink(ns, kids[p], p, |ns|) + [NewNode(x, p)]
    requires ks == kids[p := kids[p] + [|ns|]] + [[]]
    ensures ParentsBefore(ms) && ChildLists(ms, ks)
  {
    ChildrenBelowNewChild(ns, kids, p, x, ms, ks);
    ChildrenAscendNewChild(ns, kids, p, ks);
    ParentsListNewChild(ns, kids, p, x, ms, ks);
  }

  lemma ChildrenBelowNewChild(ns: Nodes, kids: seq<seq<nat>>, p: nat, x: Item, ms: Nodes, ks: seq<seq<nat>>)
    requires ParentsBefore(ns) && ChildLists(ns, kids) && p < |ns|
    requires ms == Relink(ns, kids[p], p, |ns|) + [NewNode(x, p)]
    requires ks == kids[p := kids[p] + [|ns|]] + [[]]
    ensures ParentsBefore(ms)
    ensures forall q, i :: 0 <= q < |ms| && 0 <= i < |ks[q]| ==> q < ks[q][i] < |ms| && ms[ks[q][i]].parent == q
  {
    forall q, i | 0 <= q < |ms| && 0 <= i < |ks[q]|
      ensures q < ks[q][i] < |ms| && ms[ks[q][i]].parent == q
    {
      if q == p && i == |kids[p]| {
      } else {
        assert ks[q][i] == kids[q][i];
      }
    }
  }

  lemma ChildrenAscendNewChild(ns: Nodes, kids: seq<seq<nat>>, p: nat, ks: seq<seq<nat>>)
    requires ChildLists(ns, kids) && p < |ns|
    requires ks == kids[p := kids[p] + [|ns|]] + [[]]
    ensures forall q, i, j :: 0 <= q < |ks| && 0 <= i < j < |ks[q]| ==> ks[q][i] < ks[q][j]
  {
    forall q, i, j | 0 <= q < |ks| && 0 <= i < j < |ks[q]|
      ensures ks[q][i] < ks[q][j]
    {
      if q == p && j == |kids[p]| {
        assert ks[q][i] == kids[p][i];
      } else {
        assert ks[q][i] == kids[q][i] && ks[q][j] == kids[q][j];
      }
    }
  }

  lemma ParentsListNewChild(ns: Nodes, kids: seq<seq<nat>>, p: nat, x: Item, ms: Nodes, ks: seq<seq<nat>>)
    requires ParentsBefore(ns) && ChildLists(ns, kids) && p < |ns|
    requires ms == Relink(ns, kids[p], p, |ns|) + [NewNode(x, p)]
    requires ks == kids[p := kids[p] + [|ns|]] + [[]]
    ensures forall n :: 1 <= n < |ms| && 0 <= ms[n].parent < |ms| ==> n in ks[ms[n].parent]
  {
    forall n | 1 <= n < |ms| && 0 <= ms[n].parent < |ms|
      ensures n in ks[ms[n].parent]
    {
      if n == |ns| {
        assert ks[p][|kids[p]|] == n;
      } else {
        var q := ns[n].parent;
        assert n in kids[q];
        var i :| 0 <= i < |kids[q]| && kids[q][i] == n;
        assert ks[q][i] == n;
      }
    }
  }

  lemma FirstChildrenNewChild(ns: Nodes, kids: seq<seq<nat>>, p: nat, x: Item, ms: Nodes, ks: seq<seq<nat>>)
    requires ParentsBefore(ns) && ChildLists(ns, kids) && FirstChildren(ns, kids) && p < |ns|
    requires ms == Relink(ns, kids[p], p, |ns|) + [NewNode(x, p)]
    requires ks == kids[p := kids[p] + [|ns|]] + [[]]
    ensures FirstChildren(ms, ks)
  {
    forall q | 0 <= q < |ms|
      ensures ms[q].leftChild == (if ks[q] == [] then NIL else ks[q][0])
    {
      if q == |ns| {
      } else if q == p {
        if kids[p] != [] {
          assert ks[q][0] == kids[p][0];
        }
      } else {
        assert ms[q].leftChild == ns[q].leftChild;
      }
    }
  }

  lemma NextSiblingsNewChild(ns: Nodes, kids: seq<seq<nat>>, p: nat, x: Item, ms: Nodes, ks: seq<seq<nat>>)
    requires ParentsBefore(ns) && ChildLists(ns, kids) && NextSiblings(ns, kids) && p < |ns|
    requires ms == Relink(ns, kids[p], p, |ns|) + [NewNode(x, p)]
    requires ks == kids[p := kids[p] + [|ns|]] + [[]]
    ensures NextSiblings(ms, ks)
  {
    forall q, i | 0 <= q < |ms| && 0 <= i < |ks[q]| && ks[q][i] < |ms|
      ensures ms[ks[q][i]].rightSibling == (if i + 1 < |ks[q]| then ks[q][i + 1] else NIL)
    {
      if q == p && i == |kids[p]| {
      } else if q == p && i + 1 == |kids[p]| {
        assert ks[q][i] == kids[p][|kids[p]| - 1];
      } else {
        var c := kids[q][i];
        assert ks[q][i] == c;
        if i + 1 < |kids[q]| {
          assert ks[q][i + 1] == kids[q][i + 1];
        }
        assert ms[c].rightSibling == ns[c].rightSibling;
      }
    }
  }

  // ---------------------------------------------------------------------
  // add_item_to_child
  // ---------------------------------------------------------------------

  /** `p->add_item_to_child(x)`: scans the children of `p` from
      `left_child` along `right_sibling`. If one is labelled `x`, its count
      rises by one and it is returned with `false`; nothing else changes.
      Otherwise a new node labelled `x` with count 1 and parent `p` is
      appended as the last sibling and returned with `true`; the only old
      field that changes is the link it hangs on. */
  method AddItemToChild(ns: Nodes, ghost kids: seq<seq<nat>>, p: nat, x: Item)
    returns (ms: Nodes, node: nat, created: bool)
    requires |kids| == |ns| && p < |ns| && FirstChildren(ns, kids) && NextSiblings(ns, kids)
    requires forall i :: 0 <= i < |kids[p]| ==> p < kids[p][i] < |ns|
    ensures created <==> forall i :: 0 <= i < |kids[p]| ==> ns[kids[p][i]].item != x
    ensures created ==> node == |ns| && ms == Relink(ns, kids[p], p, node) + [NewNode(x, p)]
    ensures !created ==> (node in kids[p] && 1 <= node < |ns| && ns[node].item == x &&
                          ms == ns[node := ns[node].(count := ns[node].count + 1)])
  {
    if ns[p].leftChild == NIL {
      assert kids[p] == [];
      node := |ns|;
      ms := ns[p := ns[p].(leftChild := node)] + [NewNode(x, p)];
      created := true;
      return;
    }
    var prev := NIL;
    var child := ns[p].leftChild;
    ghost var j := 0;
    while child != NIL
      invariant 0 <= j <= |kids[p]|
      invariant child == (if j < |kids[p]| then kids[p][j] else NIL)
      invariant prev == (if j == 0 then NIL else kids[p][j - 1])
      invariant forall i :: 0 <= i < j ==> ns[kids[p][i]].item != x
      decreases |kids[p]| - j
    {
      assert j < |kids[p]| && child == kids[p][j] && kids[p][j] in kids[p];
      if ns[child].item == x {
        node := child;
        ms := ns[node := ns[node].(count := ns[node].count + 1)];
        created := false;
        return;
      }
      assert ns[kids[p][j]].rightSibling == (if j + 1 < |kids[p]| then kids[p][j + 1] else NIL);
      prev := child;
      child := ns[child].rightSibling;
      j := j + 1;
    }
    assert j == |kids[p]| > 0;
    node := |ns|;
    ms := ns[prev := ns[prev].(rightSibling := node)] + [NewNode(x, p)];
    created := true;
  }

  // ---------------------------------------------------------------------
  // Cross-link chains
  // ---------------------------------------------------------------------

  /** The first node at or after `from` labelled `a`, or `NIL`. */
  function NextWith(ns: Nodes, a: Item, from: nat): (r: int)
    ensures r == NIL || (from <= r < |ns| && ns[r].item == a)
    ensures r == NIL ==> forall m :: from <= m < |ns| ==> ns[m].item != a
    ensures r != NIL ==> forall m :: from <= m < r ==> ns[m].item != a
    decreases |ns| - from
  {
    if from >= |ns| then NIL else if ns[from].item == a then from else NextWith(ns, a, from + 1)
  }

  /** The last non-root node before `upto` labelled `a`, or `NIL`. */
  function LastWith(ns: Nodes, a: Item, upto: nat): (r: int)
    requires upto <= |ns|
    ensures r == NIL || (1 <= r < upto && ns[r].item == a)
    ensures r == NIL ==> forall m :: 1 <= m < upto ==> ns[m].item != a
    ensures r != NIL ==> forall m :: r < m < upto ==> ns[m].item != a
    decreases upto
  {
    if upto <= 1 then NIL else if ns[upto - 1].item == a then upto - 1 else LastWith(ns, a, upto - 1)
  }

  /** The nodes at or after `from` labelled `a`, in creation order. */
  ghost function ChainFrom(ns: Nodes, a: Item, from: nat): seq<nat>
    decreases |ns| - from
  {
    if from >= |ns| then [] else (if ns[from].item == a then [from] else []) + ChainFrom(ns, a, from + 1)
  }

  /** Every non-root node's `cross_link` is the next node created with the
      same label, or `NIL` for the last one. */
  ghost predicate CrossLinked(ns: Nodes)
  {
    forall n :: 1 <= n < |ns| ==> ns[n].crossLink == NextWith(ns, ns[n].item, n + 1)
  }

  /** Every header entry holds the first and the last node of its item's
      chain (`NIL`, `NIL` while the item has no node). */
  ghost predicate HeaderOK(ns: Nodes, ht: map<HeaderKey, HeadTail>)
  {
    forall k :: k in ht ==> ht[k] == HeadTail(NextWith(ns, k.item, 1), LastWith(ns, k.item, |ns|))
  }

  /** Every header key is `get_key` of its item. */
  ghost predicate KeysMatch(counter: map<Item, int>, ht: map<HeaderKey, HeadTail>)
  {
    forall k :: k in ht ==> k == KeyOf(counter, k.item)
  }

  /** Every label in the tree has its header entry. */
  ghost predicate LabelsKeyed(ns: Nodes, counter: map<Item, int>, ht: map<HeaderKey, HeadTail>)
  {
    forall n :: 1 <= n < |ns| ==> KeyOf(counter, ns[n].item) in ht
  }

  ghost predicate SameItems(ns: Nodes, ms: Nodes)
  {
    |ns| == |ms| && forall n :: 0 <= n < |ns| ==> ms[n].item == ns[n].item
  }

  /** Arenas with the same labels have the same chains. */
  lemma NextWithSame(ns: Nodes, ms: Nodes, a: Item, from: nat)
    requires SameItems(ns, ms)
    ensures NextWith(ms, a, from) == NextWith(ns, a, from)
    ensures ChainFrom(ms, a, from) == ChainFrom(ns, a, from)
  {
    NextWithSameItems(ns, ms, a, from);
    ChainFromSameItems(ns, ms, a, from);
  }

  lemma {:induction false} NextWithSameItems(ns: Nodes, ms: Nodes, a: Item, from: nat)
    requires SameItems(ns, ms)
    ensures NextWith(ms, a, from) == NextWith(ns, a, from)
    decreases |ns| - from
  {
    if from < |ns| {
      assert ms[from].item == ns[from].item;
      NextWithSameItems(ns, ms, a, from + 1);
    }
  }

  /** Every node from `from` on with label `a` is on the chain, at some
      position `i`. */
  lemma {:induction false} ChainFromHolds(ns: Nodes, a: Item, from: nat, n: nat) returns (i: nat)
    requires from <= n < |ns| && ns[n].item == a
    ensures i < |ChainFrom(ns, a, from)| && ChainFrom(ns, a, from)[i] == n
    decreases n - from
  {
    var head := if ns[from].item == a then [from] else [];
    assert ChainFrom(ns, a, from) == head + ChainFrom(ns, a, from + 1);
    if n == from {
      i := 0;
    } else {
      var k := ChainFromHolds(ns, a, from + 1, n);
      i := |head| + k;
    }
  }

  lemma {:induction false} ChainFromSameItems(ns: Nodes, ms: Nodes, a: Item, from: nat)
    requires SameItems(ns, ms)
    ensures ChainFrom(ms, a, from) == ChainFrom(ns, a, from)
    decreases |ns| - from
  {
    if from < |ns| {
      ChainFromSameItems(ns, ms, a, from + 1);
      var head := if ns[from].item == a then [from] else [];
      assert ms[from].item == ns[from].item;
      assert ChainFrom(ms, a, from) == head + ChainFrom(ms, a, from + 1);
    }
  }

  lemma {:induction false} LastWithSame(ns: Nodes, ms: Nodes, a: Item, upto: nat)
    requires SameItems(ns, ms) && upto <= |ns|
    ensures LastWith(ms, a, upto) == LastWith(ns, a, upto)
    decreases upto
  {
    if upto > 1 {
      LastWithSame(ns, ms, a, upto - 1);
    }
  }

  lemma {:induction false} LastWithPrefix(ns: Nodes, ms: Nodes, a: Item, upto: nat)
    requires upto <= |ns| <= |ms| && ms[..|ns|] == ns
    ensures LastWith(ms, a, upto) == LastWith(ns, a, upto)
    decreases upto
  {
    if upto > 1 {
      assert ms[upto - 1] == ns[upto - 1];
      LastWithPrefix(ns, ms, a, upto - 1);
    }
  }

  /** A node labelled `a` with no later node labelled `a` is the chain's
      tail. */
  lemma LastIsTail(ns: Nodes, a: Item, n: nat)
    requires 1 <= n < |ns| && ns[n].item == a && NextWith(ns, a, n + 1) == NIL
    ensures LastWith(ns, a, |ns|) == n
  {
  }

  /** Walking a chain: when no node is found from `from`, the chain from
      there is empty. */
  lemma {:induction false} ChainEnd(ns: Nodes, a: Item, from: nat)
    requires NextWith(ns, a, from) == NIL
    ensures ChainFrom(ns, a, from) == []
    decreases |ns| - from
  {
    if from < |ns| {
      ChainEnd(ns, a, from + 1);
    }
  }

  /** Walking a chain: the node found from `from` is followed by the
      chain after it, and its `cross_link` leads there. */
  lemma ChainStep(ns: Nodes, a: Item, from: nat, c: int)
    requires 1 <= from && CrossLinked(ns) && c == NextWith(ns, a, from) && c != NIL
    ensures ChainFrom(ns, a, from) == [c] + ChainFrom(ns, a, c + 1)
    ensures ns[c].crossLink == NextWith(ns, a, c + 1)
  {
    ChainSkip(ns, a, from, c);
  }

  /** The chain from `from` starts at the next node labelled `a`. */
  lemma {:induction false} ChainSkip(ns: Nodes, a: Item, from: nat, c: int)
    requires c == NextWith(ns, a, from) && c != NIL
    ensures ChainFrom(ns, a, from) == [c] + ChainFrom(ns, a, c + 1)
    decreases |ns| - from
  {
    if ns[from].item != a {
      ChainSkip(ns, a, from + 1, c);
    }
  }

  lemma {:induction false} ChainFromLabels(ns: Nodes, a: Item, from: nat)
    ensures forall i :: 0 <= i < |ChainFrom(ns, a, from)| ==>
      from <= ChainFrom(ns, a, from)[i] < |ns| && ns[ChainFrom(ns, a, from)[i]].item == a
    decreases |ns| - from
  {
    if from < |ns| {
      ChainFromLabels(ns, a, from + 1);
    }
  }

  lemma {:induction false} NextWithAppend(ns: Nodes, e: TreeNode, a: Item, from: nat)
    requires from <= |ns|
    ensures NextWith(ns + [e], a, from) ==
      if NextWith(ns, a, from) != NIL then NextWith(ns, a, from) else if e.item == a then |ns| else NIL
    decreases |ns| - from
  {
    var ms := ns + [e];
    if from < |ns| {
      assert ms[from] == ns[from];
      NextWithAppend(ns, e, a, from + 1);
    }
  }

  /** Hanging a new node labelled `x` onto the tail of `x`'s chain keeps
      every `cross_link` the next node of its label. `ms` is the arena
      after `add_item_to_child` created the node. */
  lemma CrossLinkNew(ns: Nodes, ms: Nodes, x: Item)
    requires CrossLinked(ns) && |ms| == |ns| + 1 && ms[|ns|].item == x && ms[|ns|].crossLink == NIL
    requires forall m :: 0 <= m < |ns| ==> ms[m].item == ns[m].item && ms[m].crossLink == ns[m].crossLink
    ensures CrossLinked(Splice(ms, LastWith(ns, x, |ns|), |ns|))
  {
    var t := LastWith(ns, x, |ns|);
    var ls := Splice(ms, t, |ns|);
    assert Spliced(ns, ms[|ns|], ls, t);
    forall n | 1 <= n < |ls|
      ensures ls[n].crossLink == NextWith(ls, ls[n].item, n + 1)
    {
      CrossLinkNewAt(ns, ms[|ns|], ls, t, n);
    }
  }

  /** One node of the spliced arena `ls`: the old tail `t` of the chain
      of `e.item` now links to the new node `e`, every other node keeps
      its link. */
  ghost predicate Spliced(ns: Nodes, e: TreeNode, ls: Nodes, t: int)
  {
    CrossLinked(ns) && e.crossLink == NIL && |ls| == |ns| + 1 && ls[|ns|] == e &&
    (t == NIL || 1 <= t < |ns|) &&
    (forall m :: 0 <= m < |ns| ==> ls[m].item == ns[m].item) &&
    (forall m :: 0 <= m < |ns| && m != t ==> ls[m].crossLink == ns[m].crossLink) &&
    (t != NIL ==> ls[t].crossLink == |ns|)
  }

  lemma CrossLinkNewAt(ns: Nodes, e: TreeNode, ls: Nodes, t: int, n: nat)
    requires Spliced(ns, e, ls, t) && t == LastWith(ns, e.item, |ns|) && 1 <= n < |ls|
    ensures ls[n].crossLink == NextWith(ls, ls[n].item, n + 1)
  {
    var b := ls[n].item;
    if n < |ns| {
      SplicedNext(ns, e, ls, t, b, n + 1);
      if n == t {
        SplicedTail(ns, e, ls, t);
      } else {
        SplicedOther(ns, e, ls, t, n);
      }
    }
  }

  /** The next node of a label in the spliced arena: the old one, else
      the new node when it carries the label. */
  lemma SplicedNext(ns: Nodes, e: TreeNode, ls: Nodes, t: int, b: Item, from: nat)
    requires Spliced(ns, e, ls, t) && from <= |ns|
    ensures NextWith(ls, b, from) ==
      if NextWith(ns, b, from) != NIL then NextWith(ns, b, from) else if e.item == b then |ns| else NIL
  {
    assert SameItems(ns + [e], ls);
    NextWithSameItems(ns + [e], ls, b, from);
    NextWithAppend(ns, e, b, from);
  }

  /** The old tail of the chain had no successor; it now links to the
      new node. */
  lemma SplicedTail(ns: Nodes, e: TreeNode, ls: Nodes, t: int)
    requires Spliced(ns, e, ls, t) && t == LastWith(ns, e.item, |ns|) && t != NIL
    ensures ls[t].item == e.item && NextWith(ns, e.item, t + 1) == NIL && ls[t].crossLink == |ns|
  {
  }

  /** Any other node keeps its link, and it does not end the chain of
      `e.item` unless it lies before the old tail. */
  lemma SplicedOther(ns: Nodes, e: TreeNode, ls: Nodes, t: int, n: nat)
    requires Spliced(ns, e, ls, t) && t == LastWith(ns, e.item, |ns|) && 1 <= n < |ns| && n != t
    ensures ls[n].crossLink == NextWith(ns, ls[n].item, n + 1)
    ensures ls[n].item == e.item ==> NextWith(ns, ls[n].item, n + 1) != NIL
  {
    if ls[n].item == e.item && NextWith(ns, e.item, n + 1) == NIL {
      LastIsTail(ns, e.item, n);
    }
  }

  /** The entry `header_table[get_key(x)]` reads, with a missing key read
      as (`NIL`, `NIL`), is `x`'s chain. */
  lemma HeaderEntry(ns: Nodes, counter: map<Item, int>, ht: map<HeaderKey, HeadTail>, x: Item)
    requires HeaderOK(ns, ht) && LabelsKeyed(ns, counter, ht)
    ensures var key := KeyOf(counter, x);
      (if key in ht then ht[key] else HeadTail(NIL, NIL)) == HeadTail(NextWith(ns, x, 1), LastWith(ns, x, |ns|))
  {
    var key := KeyOf(counter, x);
    if key !in ht {
      forall m | 1 <= m < |ns|
        ensures ns[m].item != x
      {
        assert KeyOf(counter, ns[m].item) in ht;
      }
    }
  }

  /** Splicing the new node (index `|ns|`) in as the chain's tail keeps
      every header entry the head and tail of its chain. */
  lemma HeaderNew(ns: Nodes, ls: Nodes, counter: map<Item, int>, ht: map<HeaderKey, HeadTail>, x: Item)
    requires HeaderOK(ns, ht) && LabelsKeyed(ns, counter, ht) && KeysMatch(counter, ht) && |ns| >= 1
    requires |ls| == |ns| + 1 && ls[|ns|].item == x && forall m :: 0 <= m < |ns| ==> ls[m].item == ns[m].item
    ensures var key := KeyOf(counter, x);
      var entry := if key in ht then ht[key] else HeadTail(NIL, NIL);
      var entry' := if entry.head == NIL then HeadTail(|ns|, |ns|) else HeadTail(entry.head, |ns|);
      HeaderOK(ls, ht[key := entry']) && LabelsKeyed(ls, counter, ht[key := entry']) &&
      KeysMatch(counter, ht[key := entry'])
  {
    var key := KeyOf(counter, x);
    var entry := if key in ht then ht[key] else HeadTail(NIL, NIL);
    var entry' := if entry.head == NIL then HeadTail(|ns|, |ns|) else HeadTail(entry.head, |ns|);
    var ht' := ht[key := entry'];
    HeaderEntry(ns, counter, ht, x);
    assert ls[..|ns|][..|ns|] == ls[..|ns|];
    assert SameItems(ns, ls[..|ns|]);
    assert ls == ls[..|ns|] + [ls[|ns|]];
    forall k | k in ht'
      ensures ht'[k] == HeadTail(NextWith(ls, k.item, 1), LastWith(ls, k.item, |ls|))
    {
      NextWithSame(ns, ls[..|ns|], k.item, 1);
      NextWithAppend(ls[..|ns|], ls[|ns|], k.item, 1);
      LastWithSame(ns, ls[..|ns|], k.item, |ns|);
      LastWithPrefix(ls[..|ns|], ls, k.item, |ns|);
      assert LastWith(ls, k.item, |ls|) == if x == k.item && |ns| >= 1 then |ns| else LastWith(ls, k.item, |ns|);
    }
  }

  // ---------------------------------------------------------------------
  // Node counts against the transactions inserted so far
  // ---------------------------------------------------------------------

  /** `idx` maps every root path in the tree to its node: distinct nodes
      have distinct root paths. */
  ghost predicate Indexed(ns: Nodes, idx: map<seq<Item>, nat>)
    requires ParentsBefore(ns)
  {
    (forall path :: path in idx ==> 1 <= idx[path] < |ns| && PathOf(ns, idx[path]) == path) &&
    (forall n :: 1 <= n < |ns| ==> PathOf(ns, n) in idx && idx[PathOf(ns, n)] == n)
  }

  /** With the transactions `done` inserted and the current one inserted
      up to `cur`, each node counts the transactions (the current one
      included) that begin with its root path. */
  ghost predicate Counted(ns: Nodes, done: TransactionDB, cur: seq<Item>)
    requires ParentsBefore(ns)
  {
    forall n :: 1 <= n < |ns| ==>
      ns[n].count == PrefixCount(done, PathOf(ns, n)) + (if IsPrefix(PathOf(ns, n), cur) then 1 else 0)
  }

  /** Every non-empty prefix of an inserted transaction has a node. */
  ghost predicate Complete(idx: map<seq<Item>, nat>, done: TransactionDB, cur: seq<Item>)
  {
    forall path :: path != [] && (PrefixCount(done, path) > 0 || IsPrefix(path, cur)) ==> path in idx
  }

  ghost predicate Positive(ns: Nodes)
  {
    forall n :: 1 <= n < |ns| ==> ns[n].count >= 1
  }

  /** The counting invariant of `construct_fp_tree`. */
  ghost predicate Inserted(ns: Nodes, idx: map<seq<Item>, nat>, done: TransactionDB, cur: seq<Item>)
  {
    ParentsBefore(ns) && Indexed(ns, idx) && Counted(ns, done, cur) && Complete(idx, done, cur) && Positive(ns)
  }

  lemma PrefixSnoc(path: seq<Item>, cur: seq<Item>, x: Item)
    ensures IsPrefix(path, cur + [x]) <==> IsPrefix(path, cur) || path == cur + [x]
  {
    if IsPrefix(path, cur + [x]) && |path| <= |cur| {
      assert (cur + [x])[..|path|] == cur[..|path|];
    }
    if IsPrefix(path, cur) {
      assert (cur + [x])[..|path|] == cur[..|path|];
    }
  }

  lemma PathsDistinct(ns: Nodes, idx: map<seq<Item>, nat>, a: nat, b: nat)
    requires ParentsBefore(ns) && Indexed(ns, idx) && a < |ns| && b < |ns| && a != b
    ensures PathOf(ns, a) != PathOf(ns, b)
  {
    PathOfNonEmpty(ns, a);
    PathOfNonEmpty(ns, b);
  }

  /** In a tree whose root paths are indexed, as `construct_fp_tree`
      keeps it, the children of one node carry pairwise distinct labels. */
  lemma SiblingLabelsDistinct(ns: Nodes, idx: map<seq<Item>, nat>, kids: seq<seq<nat>>, p: nat, i: nat, j: nat)
    requires ParentsBefore(ns) && Indexed(ns, idx) && Shape(ns, kids) && p < |ns|
    requires i < j < |kids[p]|
    ensures ns[kids[p][i]].item != ns[kids[p][j]].item
  {
    var a, b := kids[p][i], kids[p][j];
    PathsDistinct(ns, idx, a, b);
    assert PathOf(ns, a) == PathOf(ns, p) + [ns[a].item];
    assert PathOf(ns, b) == PathOf(ns, p) + [ns[b].item];
  }

  /** The tree before any transaction: only the root. */
  lemma InsertedStart()
    ensures Inserted([RootNode()], map[], [], [])
  {
  }

  /** `add_item_to_child` found the child `c` for the next item `x`: its
      count rises by one and the current prefix grows by `x`. */
  lemma InsertedBump(ns: Nodes, idx: map<seq<Item>, nat>, done: TransactionDB, cur: seq<Item>, x: Item, c: nat)
    requires Inserted(ns, idx, done, cur) && 1 <= c < |ns| && PathOf(ns, c) == cur + [x]
    ensures Inserted(ns[c := ns[c].(count := ns[c].count + 1)], idx, done, cur + [x])
    ensures PathOf(ns[c := ns[c].(count := ns[c].count + 1)], c) == cur + [x]
  {
    var ms := ns[c := ns[c].(count := ns[c].count + 1)];
    assert SameParents(ns, ms);
    forall n | 0 <= n < |ns|
      ensures PathOf(ms, n) == PathOf(ns, n)
    {
      PathOfSame(ns, ms, n);
    }
    forall n | 1 <= n < |ms|
      ensures ms[n].count == PrefixCount(done, PathOf(ms, n)) + (if IsPrefix(PathOf(ms, n), cur + [x]) then 1 else 0)
    {
      PrefixSnoc(PathOf(ns, n), cur, x);
      if n != c {
        PathsDistinct(ns, idx, n, c);
      }
    }
    forall path | path != [] && (PrefixCount(done, path) > 0 || IsPrefix(path, cur + [x]))
      ensures path in idx
    {
      PrefixSnoc(path, cur, x);
    }
  }

  /** Root paths after a node labelled `x` is created below `p`. */
  lemma NewPaths(ns: Nodes, ms: Nodes, x: Item, p: nat)
    requires ParentsBefore(ns) && p < |ns|
    requires |ms| == |ns| + 1 && SameParents(ns, ms[..|ns|]) && ms[|ns|].item == x && ms[|ns|].parent == p
    ensures ParentsBefore(ms)
    ensures forall n :: 0 <= n < |ns| ==> PathOf(ms, n) == PathOf(ns, n)
    ensures PathOf(ms, |ns|) == PathOf(ns, p) + [x]
  {
    var N := |ns|;
    assert ms == ms[..N] + [ms[N]];
    forall n | 0 <= n < N
      ensures PathOf(ms[..N], n) == PathOf(ns, n)
    {
      PathOfSame(ns, ms[..N], n);
    }
    forall n | 0 <= n < N
      ensures PathOf(ms, n) == PathOf(ns, n)
    {
      PathOfAppend(ms[..N], ms[N], n);
    }
    PathOfNew(ms[..N], ms[N]);
  }

  /** `add_item_to_child` created the node for `x` below `p`, whose root
      path is `cur`: the new node counts one, being the first insertion of
      the prefix `cur + [x]`. `ms` is the arena after the creation (with
      or without the cross-link splice). */
  lemma InsertedNew(ns: Nodes, ms: Nodes, idx: map<seq<Item>, nat>, done: TransactionDB, cur: seq<Item>, x: Item, p: nat)
    requires Inserted(ns, idx, done, cur) && p < |ns| && PathOf(ns, p) == cur && cur + [x] !in idx
    requires |ms| == |ns| + 1 && SameCounts(ns, ms[..|ns|]) && ms[|ns|].item == x && ms[|ns|].parent == p
    requires ms[|ns|].count == 1
    ensures Inserted(ms, idx[cur + [x] := |ns|], done, cur + [x])
  {
    NewPaths(ns, ms, x, p);
    NewCounted(ns, ms, idx, done, cur, x, p);
    NewIndexed(ns, ms, idx, cur, x, p);
    NewComplete(idx, done, cur, x, |ns|);
    forall n | 1 <= n < |ms|
      ensures ms[n].count >= 1
    {
      if n < |ns| {
        assert ms[n] == ms[..|ns|][n];
      }
    }
  }

  lemma NewComplete(idx: map<seq<Item>, nat>, done: TransactionDB, cur: seq<Item>, x: Item, node: nat)
    requires Complete(idx, done, cur)
    ensures Complete(idx[cur + [x] := node], done, cur + [x])
  {
    forall path | path != [] && (PrefixCount(done, path) > 0 || IsPrefix(path, cur + [x]))
      ensures path in idx[cur + [x] := node]
    {
      PrefixSnoc(path, cur, x);
    }
  }

  lemma NewIndexed(ns: Nodes, ms: Nodes, idx: map<seq<Item>, nat>, cur: seq<Item>, x: Item, p: nat)
    requires ParentsBefore(ns) && Indexed(ns, idx) && p < |ns| && PathOf(ns, p) == cur && cur + [x] !in idx
    requires |ms| == |ns| + 1 && ParentsBefore(ms)
    requires forall n :: 0 <= n < |ns| ==> PathOf(ms, n) == PathOf(ns, n)
    requires PathOf(ms, |ns|) == PathOf(ns, p) + [x]
    ensures Indexed(ms, idx[cur + [x] := |ns|])
  {
  }

  lemma NewCounted(ns: Nodes, ms: Nodes, idx: map<seq<Item>, nat>, done: TransactionDB, cur: seq<Item>, x: Item, p: nat)
    requires Inserted(ns, idx, done, cur) && p < |ns| && PathOf(ns, p) == cur && cur + [x] !in idx
    requires |ms| == |ns| + 1 && SameCounts(ns, ms[..|ns|]) && ms[|ns|].item == x && ms[|ns|].parent == p
    requires ms[|ns|].count == 1
    requires ParentsBefore(ms)
    requires forall n :: 0 <= n < |ns| ==> PathOf(ms, n) == PathOf(ns, n)
    requires PathOf(ms, |ns|) == PathOf(ns, p) + [x]
    ensures Counted(ms, done, cur + [x])
  {
    forall n | 1 <= n < |ms|
      ensures ms[n].count == PrefixCount(done, PathOf(ms, n)) + (if IsPrefix(PathOf(ms, n), cur + [x]) then 1 else 0)
    {
      PrefixSnoc(PathOf(ms, n), cur, x);
      if n == |ns| {
        assert PrefixCount(done, cur + [x]) == 0;
      } else {
        assert ms[n] == ms[..|ns|][n];
      }
    }
  }

  /** The current transaction is fully inserted: it joins `done`. */
  lemma InsertedFinish(ns: Nodes, idx: map<seq<Item>, nat>, done: TransactionDB, t: seq<Item>)
    requires Inserted(ns, idx, done, t)
    ensures Inserted(ns, idx, done + [t], [])
  {
    assert (done + [t])[..|done|] == done;
  }

  /** With the child lists well formed, the prefix `cur + [x]` has no node
      when `p` (whose root path is `cur`) has no child labelled `x`. */
  lemma NoChildNoNode(ns: Nodes, kids: seq<seq<nat>>, idx: map<seq<Item>, nat>, cur: seq<Item>, x: Item, p: nat)
    requires ParentsBefore(ns) && ChildLists(ns, kids) && Indexed(ns, idx) && p < |ns| && PathOf(ns, p) == cur
    requires forall i :: 0 <= i < |kids[p]| ==> ns[kids[p][i]].item != x
    ensures cur + [x] !in idx
  {
    if cur + [x] in idx {
      var m := idx[cur + [x]];
      assert 1 <= m < |ns| && PathOf(ns, m) == cur + [x];
      var q := ns[m].parent;
      assert PathOf(ns, m) == PathOf(ns, q) + [ns[m].item];
      assert PathOf(ns, q) == (cur + [x])[..|cur|] == cur;
      assert ns[m].item == x;
      if q != p {
        PathsDistinct(ns, idx, p, q);
      }
    }
  }

  /** The child found for `x` below `p` has root path `cur + [x]`. */
  lemma ChildPath(ns: Nodes, kids: seq<seq<nat>>, cur: seq<Item>, x: Item, p: nat, c: nat)
    requires ParentsBefore(ns) && ChildLists(ns, kids) && p < |ns| && PathOf(ns, p) == cur
    requires c in kids[p] && ns[c].item == x
    ensures 1 <= c < |ns| && PathOf(ns, c) == cur + [x]
  {
    var i :| 0 <= i < |kids[p]| && kids[p][i] == c;
  }

  /** After the last transaction: every non-root node counts exactly the
      transactions that begin with its root path, and a non-empty
      sequence of items has a node precisely when some transaction begins
      with it. */
  lemma TreeCounts(ns: Nodes, idx: map<seq<Item>, nat>, db: TransactionDB)
    requires Inserted(ns, idx, db, [])
    ensures forall n :: 1 <= n < |ns| ==> ns[n].count == PrefixCount(db, PathOf(ns, n)) >= 1
    ensures forall path :: path != [] ==> (path in idx <==> PrefixCount(db, path) > 0)
  {
    forall n | 1 <= n < |ns|
      ensures ns[n].count == PrefixCount(db, PathOf(ns, n)) >= 1
    {
      PathOfNonEmpty(ns, n);
    }
    forall path | path != [] && path in idx
      ensures PrefixCount(db, path) > 0
    {
      assert ns[idx[path]].count >= 1;
    }
  }

  // ---------------------------------------------------------------------
  // One step of construct_fp_tree
  // ---------------------------------------------------------------------

  /** The invariant of `construct_fp_tree`'s inner loop, besides the
      child lists: `done` inserted, the current transaction inserted up to
      `cur`, whose node is `curr`; cross-links and header table in order. */
  ghost predicate Building(ns: Nodes, idx: map<seq<Item>, nat>, ht: map<HeaderKey, HeadTail>,
                           counter: map<Item, int>, done: TransactionDB, cur: seq<Item>, curr: nat)
  {
    Inserted(ns, idx, done, cur) && CrossLinked(ns) && HeaderOK(ns, ht) &&
    KeysMatch(counter, ht) && LabelsKeyed(ns, counter, ht) && curr < |ns| && PathOf(ns, curr) == cur
  }

  /** `root = new TreeNode(-1)` over a header table of empty entries. */
  lemma BuildingStart(ht: map<HeaderKey, HeadTail>, counter: map<Item, int>)
    requires KeysMatch(counter, ht) && forall k :: k in ht ==> ht[k] == HeadTail(NIL, NIL)
    ensures Building([RootNode()], map[], ht, counter, [], [], 0) && Shape([RootNode()], [[]])
  {
    InsertedStart();
  }

  /** An item's chain is empty at the head exactly when it is empty at the
      tail. */
  lemma ChainEmptyBoth(ns: Nodes, x: Item)
    requires |ns| >= 1
    ensures NextWith(ns, x, 1) == NIL <==> LastWith(ns, x, |ns|) == NIL
  {
    if LastWith(ns, x, |ns|) != NIL {
      assert ns[LastWith(ns, x, |ns|)].item == x;
    }
  }

  /** The child `c` labelled `x` exists below `curr`: its count rises. */
  lemma BuildingBump(ns: Nodes, kids: seq<seq<nat>>, idx: map<seq<Item>, nat>, ht: map<HeaderKey, HeadTail>,
                     counter: map<Item, int>, done: TransactionDB, cur: seq<Item>, x: Item, curr: nat, c: nat)
    requires Building(ns, idx, ht, counter, done, cur, curr) && ChildLists(ns, kids)
    requires c in kids[curr] && ns[c].item == x
    ensures Building(ns[c := ns[c].(count := ns[c].count + 1)], idx, ht, counter, done, cur + [x], c)
  {
    ChildPath(ns, kids, cur, x, curr, c);
    InsertedBump(ns, idx, done, cur, x, c);
    BumpLinks(ns, ht, c);
    BumpLabels(ns, counter, ht, c);
  }

  lemma BumpLabels(ns: Nodes, counter: map<Item, int>, ht: map<HeaderKey, HeadTail>, c: nat)
    requires LabelsKeyed(ns, counter, ht) && c < |ns|
    ensures LabelsKeyed(ns[c := ns[c].(count := ns[c].count + 1)], counter, ht)
  {
    var ms := ns[c := ns[c].(count := ns[c].count + 1)];
    forall n | 1 <= n < |ms|
      ensures KeyOf(counter, ms[n].item) in ht
    {
      assert ms[n].item == ns[n].item;
    }
  }

  /** A count update leaves cross-links and header entries as they were. */
  lemma BumpLinks(ns: Nodes, ht: map<HeaderKey, HeadTail>, c: nat)
    requires CrossLinked(ns) && HeaderOK(ns, ht) && c < |ns|
    ensures CrossLinked(ns[c := ns[c].(count := ns[c].count + 1)])
    ensures HeaderOK(ns[c := ns[c].(count := ns[c].count + 1)], ht)
  {
    var ms := ns[c := ns[c].(count := ns[c].count + 1)];
    assert SameItems(ns, ms);
    forall n | 1 <= n < |ms|
      ensures ms[n].crossLink == NextWith(ms, ms[n].item, n + 1)
    {
      NextWithSame(ns, ms, ms[n].item, n + 1);
    }
    forall k | k in ht
      ensures ht[k] == HeadTail(NextWith(ms, k.item, 1), LastWith(ms, k.item, |ms|))
    {
      NextWithSame(ns, ms, k.item, 1);
      LastWithSame(ns, ms, k.item, |ns|);
    }
  }

  /** The arena after `add_item_to_child` created a node labelled `x`
      below `p` (hung on `p`'s sibling list) and the node was spliced in
      as the tail of `x`'s chain. */
  ghost function Created(ns: Nodes, kids: seq<seq<nat>>, p: nat, x: Item): Nodes
    requires p < |ns| && p < |kids| && forall i :: 0 <= i < |kids[p]| ==> kids[p][i] < |ns|
  {
    Splice(Relink(ns, kids[p], p, |ns|) + [NewNode(x, p)], LastWith(ns, x, |ns|), |ns|)
  }

  /** `tail->cross_link = node` on the node `t`, if there is one. */
  ghost function Splice(ms: Nodes, t: int, node: int): (ls: Nodes)
    requires t == NIL || 0 <= t < |ms|
    ensures SameLinks(ms, ls) && SameCounts(ms, ls)
    ensures forall m :: 0 <= m < |ms| && m != t ==> ls[m].crossLink == ms[m].crossLink
  {
    if t == NIL then ms else ms[t := ms[t].(crossLink := node)]
  }

  /** The header update for a created node: an empty entry becomes
      (`node`, `node`); otherwise the old tail's `cross_link` and the
      entry's tail move to `node`. */
  method AppendToChain(ms: Nodes, entry: HeadTail, node: int) returns (ls: Nodes, e: HeadTail)
    requires entry.tail == NIL || 0 <= entry.tail < |ms|
    requires entry.head == NIL <==> entry.tail == NIL
    ensures ls == Splice(ms, entry.tail, node)
    ensures e == (if entry.head == NIL then HeadTail(node, node) else HeadTail(entry.head, node))
    ensures entry.tail != NIL ==> ls[entry.tail].crossLink == node
  {
    ls := ms;
    if entry.head == NIL {
      e := HeadTail(node, node);
    } else {
      ls := ls[entry.tail := ls[entry.tail].(crossLink := node)];
      e := HeadTail(entry.head, ls[entry.tail].crossLink);
    }
  }

  /** What `AddItemToChild` and `AppendToChain` produce together is the
      arena `Created` describes. */
  lemma SpliceIsCreated(ns: Nodes, kids: seq<seq<nat>>, p: nat, x: Item, ms: Nodes, t: int, ls: Nodes)
    requires p < |ns| && p < |kids| && forall i :: 0 <= i < |kids[p]| ==> kids[p][i] < |ns|
    requires ms == Relink(ns, kids[p], p, |ns|) + [NewNode(x, p)]
    requires t == LastWith(ns, x, |ns|) && ls == Splice(ms, t, |ns|)
    ensures ls == Created(ns, kids, p, x)
  {
  }

  /** The splice changes only a `cross_link`: the child lists stay well
      formed. */
  lemma CreatedShape(ns: Nodes, kids: seq<seq<nat>>, p: nat, x: Item)
    requires ParentsBefore(ns) && Shape(ns, kids) && p < |ns|
    ensures ParentsBefore(Created(ns, kids, p, x)) && Shape(Created(ns, kids, p, x), kids[p := kids[p] + [|ns|]] + [[]])
  {
    var ms := Relink(ns, kids[p], p, |ns|) + [NewNode(x, p)];
    ShapeNewChild(ns, kids, p, x);
    ShapeSameLinks(ms, Created(ns, kids, p, x), kids[p := kids[p] + [|ns|]] + [[]]);
    PathOfSame(ms, Created(ns, kids, p, x), 0);
  }

  /** Labels, parents and counts of the old nodes stay put; the new node
      counts one. */
  lemma CreatedFields(ns: Nodes, kids: seq<seq<nat>>, p: nat, x: Item)
    requires p < |ns| && p < |kids| && forall i :: 0 <= i < |kids[p]| ==> kids[p][i] < |ns|
    ensures var ls := Created(ns, kids, p, x);
      |ls| == |ns| + 1 && SameCounts(ns, ls[..|ns|]) && ls[|ns|].item == x && ls[|ns|].parent == p && ls[|ns|].count == 1
  {
    var ms := Relink(ns, kids[p], p, |ns|) + [NewNode(x, p)];
    var ls := Created(ns, kids, p, x);
    assert SameCounts(ns, ms[..|ns|]);
    assert SameCounts(ns, ls[..|ns|]);
  }

  /** The splice keeps cross-links and header entries in order; the
      counter after `get_key`'s default insert gives every item the same
      key. */
  lemma CreatedLinks(ns: Nodes, ms: Nodes, ls: Nodes, ht: map<HeaderKey, HeadTail>,
                     counter: map<Item, int>, counter': map<Item, int>, x: Item)
    requires CrossLinked(ns) && HeaderOK(ns, ht) && KeysMatch(counter, ht) && LabelsKeyed(ns, counter, ht) && |ns| >= 1
    requires |ms| == |ns| + 1 && ms[|ns|].item == x && ms[|ns|].crossLink == NIL
    requires forall m :: 0 <= m < |ns| ==> ms[m].item == ns[m].item && ms[m].crossLink == ns[m].crossLink
    requires ls == Splice(ms, LastWith(ns, x, |ns|), |ns|)
    requires forall i :: KeyOf(counter', i) == KeyOf(counter, i)
    ensures var ht' := ht[KeyOf(counter, x) := Appended(ht, KeyOf(counter, x), |ns|)];
      CrossLinked(ls) && HeaderOK(ls, ht') && KeysMatch(counter', ht') && LabelsKeyed(ls, counter', ht')
  {
    CrossLinkNew(ns, ms, x);
    HeaderNew(ns, ls, counter, ht, x);
  }

  /** The header entry for `key` once the node `node` joined its chain:
      head and tail when the chain was empty, otherwise the new tail. */
  function Appended(ht: map<HeaderKey, HeadTail>, key: HeaderKey, node: int): HeadTail
  {
    var entry := if key in ht then ht[key] else HeadTail(NIL, NIL);
    if entry.head == NIL then HeadTail(node, node) else HeadTail(entry.head, node)
  }

  /** A count update leaves the child lists as they were. */
  lemma BumpShape(ns: Nodes, kids: seq<seq<nat>>, c: nat)
    requires Shape(ns, kids) && c < |ns|
    ensures Shape(ns[c := ns[c].(count := ns[c].count + 1)], kids)
  {
    ShapeSameLinks(ns, ns[c := ns[c].(count := ns[c].count + 1)], kids);
  }

  /** No child below `curr` is labelled `x`: the node created for it
      counts one, and its header entry is the head and tail of its chain.
      `counter'` is the counter after `get_key`'s default insert. */
  lemma BuildingNew(ns: Nodes, kids: seq<seq<nat>>, idx: map<seq<Item>, nat>, ht: map<HeaderKey, HeadTail>,
                    counter: map<Item, int>, counter': map<Item, int>, done: TransactionDB, cur: seq<Item>, x: Item, curr: nat,
                    ls: Nodes, ht': map<HeaderKey, HeadTail>)
    requires curr < |kids| == |ns| && forall i :: 0 <= i < |kids[curr]| ==> kids[curr][i] < |ns|
    requires Building(ns, idx, ht, counter, done, cur, curr)
    requires cur + [x] !in idx
    requires forall i :: KeyOf(counter', i) == KeyOf(counter, i)
    requires ls == Created(ns, kids, curr, x)
    requires ht' == ht[KeyOf(counter, x) := Appended(ht, KeyOf(counter, x), |ns|)]
    ensures Building(ls, idx[cur + [x] := |ns|], ht', counter', done, cur + [x], |ns|)
  {
    CreatedInserted(ns, kids, idx, done, cur, x, curr, ls);
    CreatedLinksAt(ns, kids, curr, x, ht, counter, counter');
  }

  /** `CreatedLinks` for the arena `Created` describes. */
  lemma CreatedLinksAt(ns: Nodes, kids: seq<seq<nat>>, p: nat, x: Item, ht: map<HeaderKey, HeadTail>,
                       counter: map<Item, int>, counter': map<Item, int>)
    requires p < |ns| && p < |kids| && forall i :: 0 <= i < |kids[p]| ==> kids[p][i] < |ns|
    requires CrossLinked(ns) && HeaderOK(ns, ht) && KeysMatch(counter, ht) && LabelsKeyed(ns, counter, ht)
    requires forall i :: KeyOf(counter', i) == KeyOf(counter, i)
    ensures var ls, ht' := Created(ns, kids, p, x), ht[KeyOf(counter, x) := Appended(ht, KeyOf(counter, x), |ns|)];
      CrossLinked(ls) && HeaderOK(ls, ht') && KeysMatch(counter', ht') && LabelsKeyed(ls, counter', ht')
  {
    var rs := Relink(ns, kids[p], p, |ns|);
    var ms := rs + [NewNode(x, p)];
    assert ms[|ns|] == NewNode(x, p);
    assert forall m :: 0 <= m < |ns| ==> ms[m] == rs[m];
    CreatedLinks(ns, ms, Created(ns, kids, p, x), ht, counter, counter', x);
  }

  /** The created node counts one and has root path `cur + [x]`. */
  lemma CreatedInserted(ns: Nodes, kids: seq<seq<nat>>, idx: map<seq<Item>, nat>, done: TransactionDB, cur: seq<Item>,
                        x: Item, curr: nat, ls: Nodes)
    requires curr < |kids| == |ns| && forall i :: 0 <= i < |kids[curr]| ==> kids[curr][i] < |ns|
    requires Inserted(ns, idx, done, cur) && PathOf(ns, curr) == cur && cur + [x] !in idx
    requires ls == Created(ns, kids, curr, x)
    ensures Inserted(ls, idx[cur + [x] := |ns|], done, cur + [x]) && |ns| < |ls| && PathOf(ls, |ns|) == cur + [x]
  {
    CreatedFields(ns, kids, curr, x);
    InsertedNew(ns, ls, idx, done, cur, x, curr);
    NewPaths(ns, ls, x, curr);
  }

  /** The current transaction is fully inserted; the next starts at the
      root. */
  lemma BuildingFinish(ns: Nodes, idx: map<seq<Item>, nat>, ht: map<HeaderKey, HeadTail>,
                       counter: map<Item, int>, done: TransactionDB, cur: seq<Item>, t: seq<Item>, curr: nat)
    requires Building(ns, idx, ht, counter, done, cur, curr) && cur == t
    ensures Building(ns, idx, ht, counter, done + [t], [], 0)
  {
    InsertedFinish(ns, idx, done, t);
  }

  // ---------------------------------------------------------------------
  // Pattern paths (find_all_pattern_paths)
  // ---------------------------------------------------------------------

  ghost predicate InArena(ns: Nodes, chain: seq<nat>)
  {
    forall i :: 0 <= i < |chain| ==> chain[i] < |ns|
  }

  /** The map `find_all_pattern_paths` builds from a run of nodes: the
      label set of each node's root path gains the node's count. */
  ghost function PatternPaths(ns: Nodes, chain: seq<nat>): FrequentPatterns
    requires ParentsBefore(ns) && InArena(ns, chain)
  {
    if chain == [] then map[]
    else
      var n := chain[|chain| - 1];
      AddWeight(PatternPaths(ns, chain[..|chain| - 1]), ItemSet(PathOf(ns, n)), ns[n].count)
  }

  /** The total count of a run of nodes. */
  ghost function CountSum(ns: Nodes, chain: seq<nat>): nat
    requires InArena(ns, chain)
  {
    if chain == [] then 0 else CountSum(ns, chain[..|chain| - 1]) + ns[chain[|chain| - 1]].count
  }

  /** The total count of the nodes of a run whose root-path label set is
      `pat`. */
  ghost function CountWhere(ns: Nodes, chain: seq<nat>, pat: Pattern): nat
    requires ParentsBefore(ns) && InArena(ns, chain)
  {
    if chain == [] then 0
    else
      var n := chain[|chain| - 1];
      CountWhere(ns, chain[..|chain| - 1], pat) + (if ItemSet(PathOf(ns, n)) == pat then ns[n].count else 0)
  }

  /** The keys are exactly the label sets of the chain's nodes; each maps
      to the summed count of the nodes that share it, and a label set no
      node has weighs nothing. */
  lemma {:induction false} PatternPathsWeights(ns: Nodes, chain: seq<nat>, pat: Pattern)
    requires ParentsBefore(ns) && InArena(ns, chain)
    ensures pat in PatternPaths(ns, chain) <==> exists i :: 0 <= i < |chain| && ItemSet(PathOf(ns, chain[i])) == pat
    ensures pat in PatternPaths(ns, chain) ==> PatternPaths(ns, chain)[pat] == CountWhere(ns, chain, pat)
    ensures pat !in PatternPaths(ns, chain) ==> CountWhere(ns, chain, pat) == 0
  {
    if chain != [] {
      var pre := chain[..|chain| - 1];
      PatternPathsWeights(ns, pre, pat);
      if pat in PatternPaths(ns, pre) {
        var i :| 0 <= i < |pre| && ItemSet(PathOf(ns, pre[i])) == pat;
        assert chain[i] == pre[i];
      }
      if i :| 0 <= i < |chain| - 1 && ItemSet(PathOf(ns, chain[i])) == pat {
        assert pre[i] == chain[i];
      }
    }
  }

  /** The weights of the map add up to the total count of the run. */
  lemma {:induction false} PatternPathsTotal(ns: Nodes, chain: seq<nat>)
    requires ParentsBefore(ns) && InArena(ns, chain)
    ensures SumValues(PatternPaths(ns, chain)) == CountSum(ns, chain)
  {
    if chain != [] {
      var n := chain[|chain| - 1];
      PatternPathsTotal(ns, chain[..|chain| - 1]);
      AddWeightSum(PatternPaths(ns, chain[..|chain| - 1]), ItemSet(PathOf(ns, n)), ns[n].count);
    }
  }

  /** For a run of non-root nodes labelled `a`, every label set holds
      `a`. */
  lemma {:induction false} PatternPathsContain(ns: Nodes, chain: seq<nat>, a: Item)
    requires ParentsBefore(ns) && InArena(ns, chain)
    requires forall i :: 0 <= i < |chain| ==> 1 <= chain[i] && ns[chain[i]].item == a
    ensures forall pat :: pat in PatternPaths(ns, chain) ==> a in pat
  {
    if chain != [] {
      var n := chain[|chain| - 1];
      PatternPathsContain(ns, chain[..|chain| - 1], a);
      assert PathOf(ns, n)[|PathOf(ns, n)| - 1] == a;
    }
  }

  /** What `find_all_pattern_paths(a)` collects: the label sets of the
      root paths of `a`'s chain, weighted by the nodes' counts. */
  ghost function PathsOf(ns: Nodes, a: Item): FrequentPatterns
    requires ParentsBefore(ns)
  {
    ChainFromLabels(ns, a, 1);
    PatternPaths(ns, ChainFrom(ns, a, 1))
  }

  /** The collected label sets are exactly those of the root paths of
      `a`'s nodes; each holds `a`, and the weights add up to the total count
      of `a`'s nodes. */
  lemma PathsOfProperties(ns: Nodes, a: Item)
    requires ParentsBefore(ns)
    ensures InArena(ns, ChainFrom(ns, a, 1))
    ensures forall pat :: pat in PathsOf(ns, a) <==>
      exists n :: 1 <= n < |ns| && ns[n].item == a && ItemSet(PathOf(ns, n)) == pat
    ensures forall pat :: pat in PathsOf(ns, a) ==> a in pat
    ensures SumValues(PathsOf(ns, a)) == CountSum(ns, ChainFrom(ns, a, 1))
  {
    var chain := ChainFrom(ns, a, 1);
    ChainFromLabels(ns, a, 1);
    PatternPathsContain(ns, chain, a);
    PatternPathsTotal(ns, chain);
    forall pat
      ensures pat in PathsOf(ns, a) <==> exists n :: 1 <= n < |ns| && ns[n].item == a && ItemSet(PathOf(ns, n)) == pat
    {
      PatternPathsWeights(ns, chain, pat);
      if n :| 1 <= n < |ns| && ns[n].item == a && ItemSet(PathOf(ns, n)) == pat {
        var i := ChainFromHolds(ns, a, 1, n);
      }
    }
  }
}
