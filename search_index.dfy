/**
 * The search index of `useTreeSearch` and the helpers a search function
 * receives: a map from id to node, from id to parent id, and from parent id
 * to the ids of its children, and the lookups built on them.
 */
module Index {
  import opened TreeModel

  /** `{ nodeMap, parentMap, childrenMap }` */
  datatype SearchIndex = SearchIndex(nodeMap: map<Id, Node>, parentMap: map<Id, Id>, childrenMap: map<Id, seq<Id>>)

  /** `m.get(k)` */
  function Lookup<V>(m: map<Id, V>, k: Id): (r: Option<V>)
    ensures r.Some? <==> k in m
    ensures r.Some? ==> r.value == m[k]
  {
    if k in m then Some(m[k]) else None
  }

  // ---------------------------------------------------------------------
  // Building the index

  /** `new Map(tree.map(node => [node.id, node]))`: a later node with the same id replaces an earlier one. */
  function NodeMapOf(tree: seq<Node>): (m: map<Id, Node>)
    ensures forall k :: k in m <==> exists n :: n in tree && n.id == k
    ensures forall k :: k in m ==> m[k] in tree && m[k].id == k
  {
    if tree == [] then map[]
    else
      var last := tree[|tree| - 1];
      assert forall n :: n in tree <==> n in tree[..|tree| - 1] || n == last by {
        assert tree == tree[..|tree| - 1] + [last];
      }
      NodeMapOf(tree[..|tree| - 1])[last.id := last]
  }

  /** `new Map(tree.map(node => [node.id, node.parent]))` */
  function ParentMapOf(tree: seq<Node>): map<Id, Id> {
    if tree == [] then map[]
    else
      var last := tree[|tree| - 1];
      ParentMapOf(tree[..|tree| - 1])[last.id := last.parent]
  }

  /** The `childrenMap` loop: every node with a truthy parent is appended to that parent's list. */
  function ChildrenMapOf(tree: seq<Node>): map<Id, seq<Id>> {
    if tree == [] then map[]
    else
      var last := tree[|tree| - 1];
      var m := ChildrenMapOf(tree[..|tree| - 1]);
      if Truthy(last.parent) then m[last.parent := ChildrenOrEmpty(m, last.parent) + [last.id]] else m
  }

  /** `childrenMap.get(id) || []` */
  function ChildrenOrEmpty(m: map<Id, seq<Id>>, id: Id): seq<Id> {
    if id in m then m[id] else []
  }

  function IndexOf(tree: seq<Node>): SearchIndex {
    SearchIndex(NodeMapOf(tree), ParentMapOf(tree), ChildrenMapOf(tree))
  }

  /** The index memo of `useTreeSearch`. */
  method BuildIndex(tree: seq<Node>) returns (idx: SearchIndex)
    ensures idx == IndexOf(tree)
  {
    var nodeMap: map<Id, Node> := map[];
    var parentMap: map<Id, Id> := map[];
    var i := 0;
    while i < |tree|
      invariant 0 <= i <= |tree|
      invariant nodeMap == NodeMapOf(tree[..i])
      invariant parentMap == ParentMapOf(tree[..i])
    {
      assert tree[..i + 1][..i] == tree[..i];
      nodeMap := nodeMap[tree[i].id := tree[i]];
      parentMap := parentMap[tree[i].id := tree[i].parent];
      i := i + 1;
    }
    var childrenMap: map<Id, seq<Id>> := map[];
    i := 0;
    while i < |tree|
      invariant 0 <= i <= |tree|
      invariant childrenMap == ChildrenMapOf(tree[..i])
    {
      assert tree[..i + 1][..i] == tree[..i];
      var node := tree[i];
      if Truthy(node.parent) {
        var siblings := ChildrenOrEmpty(childrenMap, node.parent);
        siblings := siblings + [node.id];
        childrenMap := childrenMap[node.parent := siblings];
      }
      i := i + 1;
    }
    assert tree[..|tree|] == tree;
    idx := SearchIndex(nodeMap, parentMap, childrenMap);
  }

  // ---------------------------------------------------------------------
  // What the index holds

  /** Position `j` holds the last node of the tree carrying `k`. */
  ghost predicate LastWith(tree: seq<Node>, k: Id, j: int) {
    0 <= j < |tree| && tree[j].id == k && forall i :: j < i < |tree| ==> tree[i].id != k
  }

  /** The position of the last node carrying `k`, or `-1`. */
  ghost function LastIndexOf(tree: seq<Node>, k: Id): int {
    if tree == [] then -1
    else if tree[|tree| - 1].id == k then |tree| - 1
    else LastIndexOf(tree[..|tree| - 1], k)
  }

  lemma {:induction false} LastIndexIsLast(tree: seq<Node>, k: Id)
    ensures -1 <= LastIndexOf(tree, k) < |tree|
    ensures LastIndexOf(tree, k) >= 0 ==> LastWith(tree, k, LastIndexOf(tree, k))
  {
    if tree != [] && tree[|tree| - 1].id != k {
      var init := tree[..|tree| - 1];
      LastIndexIsLast(init, k);
      if LastIndexOf(init, k) >= 0 {
        assert tree == init + [tree[|tree| - 1]];
        LastWithSnoc(init, tree[|tree| - 1], k, LastIndexOf(init, k));
      }
    }
  }

  lemma {:induction false} NodeMapAtLast(tree: seq<Node>, k: Id)
    requires k in NodeMapOf(tree)
    ensures 0 <= LastIndexOf(tree, k) < |tree| && tree[LastIndexOf(tree, k)] == NodeMapOf(tree)[k]
  {
    var init, last := tree[..|tree| - 1], tree[|tree| - 1];
    assert NodeMapOf(tree) == NodeMapOf(init)[last.id := last];
    if last.id != k {
      NodeMapAtLast(init, k);
      LastIndexIsLast(init, k);
      assert tree[LastIndexOf(init, k)] == init[LastIndexOf(init, k)];
    }
  }

  /** The node stored under `k` is the last node of the tree carrying `k`. */
  lemma NodeMapIsLast(tree: seq<Node>, k: Id)
    requires k in NodeMapOf(tree)
    ensures exists j :: LastWith(tree, k, j) && tree[j] == NodeMapOf(tree)[k]
  {
    NodeMapAtLast(tree, k);
    LastIndexIsLast(tree, k);
  }

  lemma LastWithSnoc(init: seq<Node>, last: Node, k: Id, j: int)
    requires LastWith(init, k, j) && last.id != k
    ensures LastWith(init + [last], k, j) && (init + [last])[j] == init[j]
  {
    var t := init + [last];
    forall i | j < i < |t| ensures t[i].id != k {
      if i < |init| {
        assert t[i] == init[i];
      }
    }
  }

  /** With unique ids, the node stored under a node's id is that node. */
  lemma NodeMapUnique(tree: seq<Node>, n: Node)
    requires UniqueIds(tree) && n in tree
    ensures n.id in NodeMapOf(tree) && NodeMapOf(tree)[n.id] == n
  {
    NodeMapIsLast(tree, n.id);
    var j :| LastWith(tree, n.id, j) && tree[j] == NodeMapOf(tree)[n.id];
    var a :| 0 <= a < |tree| && tree[a] == n;
  }

  /** `parentMap` has the keys of `nodeMap` and holds the parent of the node stored there. */
  lemma {:induction false} ParentMapAgrees(tree: seq<Node>)
    ensures forall k :: k in ParentMapOf(tree) <==> k in NodeMapOf(tree)
    ensures forall k :: k in ParentMapOf(tree) ==> ParentMapOf(tree)[k] == NodeMapOf(tree)[k].parent
  {
    if tree != [] {
      ParentMapAgrees(tree[..|tree| - 1]);
    }
  }

  lemma IdsSnoc(s: seq<Node>, x: Node)
    ensures Ids(s + [x]) == Ids(s) + [x.id]
  {
  }

  lemma {:induction false} ChildrenOfSnoc(tree: seq<Node>, p: Id)
    requires tree != []
    ensures ChildrenOf(tree, p) == ChildrenOf(tree[..|tree| - 1], p)
              + (if tree[|tree| - 1].parent == p then [tree[|tree| - 1]] else [])
  {
  }

  /**
   * `childrenMap` has an entry exactly for each truthy id that is some
   * node's parent, and that entry lists the ids of its children in tree
   * order.
   */
  lemma {:induction false} ChildrenMapAgrees(tree: seq<Node>, p: Id)
    ensures p in ChildrenMapOf(tree) <==> Truthy(p) && ChildrenOf(tree, p) != []
    ensures p in ChildrenMapOf(tree) ==> ChildrenMapOf(tree)[p] == Ids(ChildrenOf(tree, p))
  {
    if tree != [] {
      var init, last := tree[..|tree| - 1], tree[|tree| - 1];
      ChildrenMapAgrees(init, p);
      ChildrenOfSnoc(tree, p);
      if Truthy(last.parent) && last.parent == p {
        IdsSnoc(ChildrenOf(init, p), last);
      }
    }
  }

  /** `childrenMap.get(p) || []` lists the ids of the children of a truthy `p`, and nothing for a falsy one. */
  lemma ChildIdsOfTree(tree: seq<Node>, p: Id)
    ensures ChildrenOrEmpty(ChildrenMapOf(tree), p) == if Truthy(p) then Ids(ChildrenOf(tree, p)) else []
  {
    ChildrenMapAgrees(tree, p);
  }

  // ---------------------------------------------------------------------
  // The helpers

  /** `getNode(id)` */
  function GetNode(idx: SearchIndex, id: Id): Option<Node> {
    Lookup(idx.nodeMap, id)
  }

  /** `getParent(id)`: the node of a truthy parent id, if the index holds one. */
  function GetParent(idx: SearchIndex, id: Id): Option<Node> {
    var parentId := Lookup(idx.parentMap, id);
    if TruthyOpt(parentId) then GetNode(idx, parentId.value) else None
  }

  /** `ids.map(id => nodeMap.get(id)).filter(node => node !== undefined)` */
  function NodesOf(idx: SearchIndex, ids: seq<Id>): (r: seq<Node>)
    ensures |r| <= |ids|
    ensures forall n :: n in r <==> exists k :: k in ids && k in idx.nodeMap && idx.nodeMap[k] == n
  {
    if ids == [] then []
    else
      assert forall k :: k in ids <==> k == ids[0] || k in ids[1..] by {
        assert ids == [ids[0]] + ids[1..];
      }
      (if ids[0] in idx.nodeMap then [idx.nodeMap[ids[0]]] else []) + NodesOf(idx, ids[1..])
  }

  /** `getChildren(id)` */
  function GetChildren(idx: SearchIndex, id: Id): seq<Node> {
    NodesOf(idx, ChildrenOrEmpty(idx.childrenMap, id))
  }

  /** On the index of a tree, `getNode` finds exactly the ids of the tree, and with unique ids the node itself. */
  lemma GetNodeOfTree(tree: seq<Node>, id: Id)
    ensures GetNode(IndexOf(tree), id).Some? <==> exists n :: n in tree && n.id == id
    ensures GetNode(IndexOf(tree), id).Some? ==>
              GetNode(IndexOf(tree), id).value in tree && GetNode(IndexOf(tree), id).value.id == id
    ensures UniqueIds(tree) ==> forall n :: n in tree && n.id == id ==> GetNode(IndexOf(tree), id) == Some(n)
  {
    if UniqueIds(tree) {
      forall n | n in tree && n.id == id ensures GetNode(IndexOf(tree), id) == Some(n) {
        NodeMapUnique(tree, n);
      }
    }
  }

  /**
   * With unique ids, `getParent` of a node of the tree is the node its
   * truthy `parent` names, and nothing when the parent is falsy or absent.
   */
  lemma GetParentOfTree(tree: seq<Node>, n: Node)
    requires UniqueIds(tree) && n in tree
    ensures GetParent(IndexOf(tree), n.id).Some? <==> Truthy(n.parent) && exists m :: m in tree && m.id == n.parent
    ensures GetParent(IndexOf(tree), n.id).Some? ==> GetParent(IndexOf(tree), n.id) == Find(tree, n.parent)
  {
    NodeMapUnique(tree, n);
    ParentMapAgrees(tree);
    var f := Find(tree, n.parent);
    if f.Some? {
      NodeMapUnique(tree, f.value);
    }
  }

  lemma {:induction false} NodesOfIds(tree: seq<Node>, cs: seq<Node>)
    requires UniqueIds(tree)
    requires forall c :: c in cs ==> c in tree
    ensures NodesOf(IndexOf(tree), Ids(cs)) == cs
  {
    if cs != [] {
      NodeMapUnique(tree, cs[0]);
      assert Ids(cs)[1..] == Ids(cs[1..]);
      NodesOfIds(tree, cs[1..]);
    }
  }

  /** With unique ids, `getChildren` of a truthy id gives its children in tree order, and of a falsy id nothing. */
  lemma GetChildrenOfTree(tree: seq<Node>, p: Id)
    requires UniqueIds(tree)
    ensures GetChildren(IndexOf(tree), p) == if Truthy(p) then ChildrenOf(tree, p) else []
  {
    ChildIdsOfTree(tree, p);
    if Truthy(p) {
      NodesOfIds(tree, ChildrenOf(tree, p));
    }
  }

  // ---------------------------------------------------------------------
  // Ancestors and descendants

  /** The index has no cycle: parents rank above their children. */
  ghost predicate IndexRanked(idx: SearchIndex, rk: Ranking) {
    && (forall k :: k in idx.parentMap ==> rk.rank(k) < rk.rank(idx.parentMap[k]) <= rk.bound)
    && (forall p, c :: p in idx.childrenMap && c in idx.childrenMap[p] ==> rk.rank(c) < rk.rank(p))
  }

  lemma IndexOfRanked(tree: seq<Node>, rk: Ranking)
    requires Ranked(tree, rk)
    ensures IndexRanked(IndexOf(tree), rk)
  {
    ParentMapAgrees(tree);
    var cm := ChildrenMapOf(tree);
    forall p, c | p in cm && c in cm[p] ensures rk.rank(c) < rk.rank(p) {
      ChildrenMapAgrees(tree, p);
      var k :| 0 <= k < |Ids(ChildrenOf(tree, p))| && Ids(ChildrenOf(tree, p))[k] == c;
      assert ChildrenOf(tree, p)[k] in ChildrenOf(tree, p);
    }
  }

  /** The nodes the `getAllParents` loop collects from `currentId` on. */
  ghost function AncestorsFrom(idx: SearchIndex, current: Option<Id>, rk: Ranking): seq<Node>
    requires IndexRanked(idx, rk)
    requires current.Some? ==> rk.rank(current.value) <= rk.bound
    decreases if current.Some? then rk.bound - rk.rank(current.value) + 1 else 0
  {
    if !TruthyOpt(current) then []
    else
      var id := current.value;
      (if id in idx.nodeMap then [idx.nodeMap[id]] else []) + AncestorsFrom(idx, Lookup(idx.parentMap, id), rk)
  }

  ghost function Ancestors(idx: SearchIndex, id: Id, rk: Ranking): seq<Node>
    requires IndexRanked(idx, rk)
  {
    AncestorsFrom(idx, Lookup(idx.parentMap, id), rk)
  }

  /** `getAllParents(id)`: the nearest parent first, up to the first falsy or unknown parent id. */
  method GetAllParents(idx: SearchIndex, id: Id, ghost rk: Ranking) returns (parents: seq<Node>)
    requires IndexRanked(idx, rk)
    ensures parents == Ancestors(idx, id, rk)
  {
    parents := [];
    var currentId := Lookup(idx.parentMap, id);
    while TruthyOpt(currentId)
      invariant currentId.Some? ==> rk.rank(currentId.value) <= rk.bound
      invariant parents + AncestorsFrom(idx, currentId, rk) == Ancestors(idx, id, rk)
      decreases if currentId.Some? then rk.bound - rk.rank(currentId.value) + 1 else 0
    {
      var parent := Lookup(idx.nodeMap, currentId.value);
      ghost var before := parents;
      var next := Lookup(idx.parentMap, currentId.value);
      ghost var found := if parent.Some? then [parent.value] else [];
      assert AncestorsFrom(idx, currentId, rk) == found + AncestorsFrom(idx, next, rk);
      if parent.Some? {
        parents := parents + [parent.value];
      }
      assert parents == before + found;
      ConcatAssoc(before, found, AncestorsFrom(idx, next, rk));
      currentId := next;
    }
  }

  /** The parent chain read off the tree: the node the truthy `parent` names (the first with that id), then its chain. */
  ghost function ParentChain(tree: seq<Node>, n: Node, rk: Ranking): seq<Node>
    requires Ranked(tree, rk) && n in tree
    decreases rk.bound - rk.rank(n.id)
  {
    if !Truthy(n.parent) then []
    else match Find(tree, n.parent)
      case None => []
      case Some(p) => [p] + ParentChain(tree, p, rk)
  }

  /** With unique ids, `getAllParents` of a node is its parent chain in the tree. */
  lemma AncestorsAreParentChain(tree: seq<Node>, n: Node, rk: Ranking)
    requires Ranked(tree, rk) && UniqueIds(tree) && n in tree
    ensures IndexRanked(IndexOf(tree), rk)
    ensures Ancestors(IndexOf(tree), n.id, rk) == ParentChain(tree, n, rk)
  {
    IndexOfRanked(tree, rk);
    IndexMirrors(tree);
    AncestorsMirror(tree, IndexOf(tree), n, rk);
  }

  /** With unique ids, the index of a tree mirrors it. */
  lemma IndexMirrors(tree: seq<Node>)
    requires UniqueIds(tree)
    ensures Mirrors(tree, IndexOf(tree))
  {
    var idx := IndexOf(tree);
    forall m | m in tree ensures Lookup(idx.nodeMap, m.id) == Some(m) && Lookup(idx.parentMap, m.id) == Some(m.parent) {
      StoredNode(tree, m);
    }
    forall id | Find(tree, id).None? ensures id !in idx.nodeMap && id !in idx.parentMap {
      UnstoredId(tree, id);
    }
    forall p ensures ChildrenOrEmpty(idx.childrenMap, p) == if Truthy(p) then Ids(ChildrenOf(tree, p)) else [] {
      ChildIdsOfTree(tree, p);
    }
  }

  /**
   * An index that stores every tree node under its id and nothing else, and
   * lists under each truthy id the ids of its children in tree order.
   */
  ghost predicate Mirrors(tree: seq<Node>, idx: SearchIndex) {
    && (forall m :: m in tree ==> Lookup(idx.nodeMap, m.id) == Some(m) && Lookup(idx.parentMap, m.id) == Some(m.parent))
    && (forall id :: Find(tree, id).None? ==> id !in idx.nodeMap && id !in idx.parentMap)
    && (forall p :: ChildrenOrEmpty(idx.childrenMap, p) == if Truthy(p) then Ids(ChildrenOf(tree, p)) else [])
  }

  lemma {:induction false} AncestorsMirror(tree: seq<Node>, idx: SearchIndex, n: Node, rk: Ranking)
    requires Ranked(tree, rk) && IndexRanked(idx, rk) && Mirrors(tree, idx) && n in tree
    ensures Ancestors(idx, n.id, rk) == ParentChain(tree, n, rk)
    decreases rk.bound - rk.rank(n.id)
  {
    assert Lookup(idx.parentMap, n.id) == Some(n.parent);
    if Truthy(n.parent) {
      var f := Find(tree, n.parent);
      if f.Some? {
        var p := f.value;
        assert Lookup(idx.nodeMap, p.id) == Some(p);
        assert AncestorsFrom(idx, Some(n.parent), rk)
            == [p] + AncestorsFrom(idx, Lookup(idx.parentMap, p.id), rk);
        AncestorsMirror(tree, idx, p, rk);
      } else {
        assert n.parent !in idx.parentMap;
        assert AncestorsFrom(idx, Some(n.parent), rk) == [] + AncestorsFrom(idx, None, rk);
      }
    }
  }

  /** With unique ids, a tree node is stored under its id, with its parent. */
  lemma StoredNode(tree: seq<Node>, n: Node)
    requires UniqueIds(tree) && n in tree
    ensures Lookup(IndexOf(tree).nodeMap, n.id) == Some(n)
    ensures Lookup(IndexOf(tree).parentMap, n.id) == Some(n.parent)
  {
    ParentMapAgrees(tree);
    NodeMapUnique(tree, n);
  }

  /** An id no tree node carries is in neither map. */
  lemma UnstoredId(tree: seq<Node>, id: Id)
    requires Find(tree, id).None?
    ensures id !in IndexOf(tree).nodeMap && id !in IndexOf(tree).parentMap
  {
    ParentMapAgrees(tree);
  }

  /** Every ancestor is a node of the tree, and the chain strictly climbs the ranking, so no node repeats. */
  lemma {:induction false} ParentChainClimbs(tree: seq<Node>, n: Node, rk: Ranking)
    requires Ranked(tree, rk) && n in tree
    ensures var a := ParentChain(tree, n, rk);
            && (forall x :: x in a ==> x in tree && rk.rank(n.id) < rk.rank(x.id))
            && (a != [] ==> a[0].id == n.parent)
            && (forall i :: 0 < i < |a| ==> a[i].id == a[i - 1].parent)
            && (forall i, j :: 0 <= i < j < |a| ==> rk.rank(a[i].id) < rk.rank(a[j].id))
    decreases rk.bound - rk.rank(n.id)
  {
    if Truthy(n.parent) && Find(tree, n.parent).Some? {
      var p := Find(tree, n.parent).value;
      ParentChainClimbs(tree, p, rk);
      var a := ParentChain(tree, n, rk);
      assert a == [p] + ParentChain(tree, p, rk);
      forall i, j | 0 <= i < j < |a| ensures rk.rank(a[i].id) < rk.rank(a[j].id) {
        if i > 0 {
          assert a[i] == ParentChain(tree, p, rk)[i - 1];
        }
        assert a[j] == ParentChain(tree, p, rk)[j - 1];
      }
    }
  }

  /** The nodes `traverse(id)` pushes: each stored child, followed by its own descendants. */
  ghost function Descendants(idx: SearchIndex, id: Id, rk: Ranking): seq<Node>
    requires IndexRanked(idx, rk)
    decreases rk.rank(id), 1
  {
    DescendantsOf(idx, id, ChildrenOrEmpty(idx.childrenMap, id), rk)
  }

  ghost function DescendantsOf(idx: SearchIndex, p: Id, cs: seq<Id>, rk: Ranking): seq<Node>
    requires IndexRanked(idx, rk)
    requires forall c :: c in cs ==> rk.rank(c) < rk.rank(p)
    decreases rk.rank(p), 0, |cs|
  {
    if cs == [] then []
    else
      (if cs[0] in idx.nodeMap then [idx.nodeMap[cs[0]]] + Descendants(idx, cs[0], rk) else [])
      + DescendantsOf(idx, p, cs[1..], rk)
  }

  /** `traverse(nodeId)`: appends to `children` the descendants of `nodeId`, depth first. */
  method Traverse(idx: SearchIndex, nodeId: Id, children: seq<Node>, ghost rk: Ranking) returns (out: seq<Node>)
    requires IndexRanked(idx, rk)
    ensures out == children + Descendants(idx, nodeId, rk)
    decreases rk.rank(nodeId), 1
  {
    var childrenIds := ChildrenOrEmpty(idx.childrenMap, nodeId);
    out := children;
    var i := 0;
    assert childrenIds[i..] == childrenIds;
    while i < |childrenIds|
      invariant 0 <= i <= |childrenIds|
      invariant out + DescendantsOf(idx, nodeId, childrenIds[i..], rk)
             == children + DescendantsOf(idx, nodeId, childrenIds, rk)
    {
      var childId := childrenIds[i];
      assert childrenIds[i..][0] == childId && childrenIds[i..][1..] == childrenIds[i + 1..];
      ghost var rest := DescendantsOf(idx, nodeId, childrenIds[i + 1..], rk);
      ghost var sub := if childId in idx.nodeMap then [idx.nodeMap[childId]] + Descendants(idx, childId, rk) else [];
      ghost var before := out;
      var child := Lookup(idx.nodeMap, childId);
      if child.Some? {
        out := out + [child.value];
        ghost var pushed := out;
        out := Traverse(idx, childId, out, rk);
        ConcatAssoc(before, [child.value], Descendants(idx, childId, rk));
      }
      assert out == before + sub;
      ConcatAssoc(before, sub, rest);
      i := i + 1;
    }
  }

  /** `getAllChildren(id)` */
  method GetAllChildren(idx: SearchIndex, id: Id, ghost rk: Ranking) returns (children: seq<Node>)
    requires IndexRanked(idx, rk)
    ensures children == Descendants(idx, id, rk)
  {
    children := Traverse(idx, id, [], rk);
  }

  /** The descendants read off the tree: below a truthy id, each child followed by its own descendants. */
  ghost function Subtree(tree: seq<Node>, id: Id, rk: Ranking): seq<Node>
    requires Ranked(tree, rk)
    decreases rk.rank(id), 1
  {
    if Truthy(id) then SubtreesOf(tree, id, ChildrenOf(tree, id), rk) else []
  }

  ghost function SubtreesOf(tree: seq<Node>, p: Id, cs: seq<Node>, rk: Ranking): seq<Node>
    requires Ranked(tree, rk)
    requires forall c :: c in cs ==> c in tree && c.parent == p
    decreases rk.rank(p), 0, |cs|
  {
    if cs == [] then [] else [cs[0]] + Subtree(tree, cs[0].id, rk) + SubtreesOf(tree, p, cs[1..], rk)
  }

  /** With unique ids, `getAllChildren` of an id is its subtree in the tree, depth first. */
  lemma DescendantsAreSubtree(tree: seq<Node>, id: Id, rk: Ranking)
    requires Ranked(tree, rk) && UniqueIds(tree)
    ensures IndexRanked(IndexOf(tree), rk)
    ensures Descendants(IndexOf(tree), id, rk) == Subtree(tree, id, rk)
  {
    IndexOfRanked(tree, rk);
    IndexMirrors(tree);
    DescendantsMirror(tree, IndexOf(tree), id, rk);
  }

  lemma {:induction false} DescendantsMirror(tree: seq<Node>, idx: SearchIndex, id: Id, rk: Ranking)
    requires Ranked(tree, rk) && IndexRanked(idx, rk) && Mirrors(tree, idx)
    ensures Descendants(idx, id, rk) == Subtree(tree, id, rk)
    decreases rk.rank(id), 1
  {
    assert ChildrenOrEmpty(idx.childrenMap, id) == if Truthy(id) then Ids(ChildrenOf(tree, id)) else [];
    if Truthy(id) {
      ChildIdsBelow(tree, id, ChildrenOf(tree, id), rk);
      SubtreesMirror(tree, idx, id, ChildrenOf(tree, id), rk);
    }
  }

  lemma ChildIdsBelow(tree: seq<Node>, p: Id, cs: seq<Node>, rk: Ranking)
    requires Ranked(tree, rk)
    requires forall c :: c in cs ==> c in tree && c.parent == p
    ensures forall c :: c in Ids(cs) ==> rk.rank(c) < rk.rank(p)
  {
    forall c | c in Ids(cs) ensures rk.rank(c) < rk.rank(p) {
      var k :| 0 <= k < |cs| && Ids(cs)[k] == c;
      assert cs[k] in cs;
    }
  }

  lemma {:induction false} SubtreesMirror(tree: seq<Node>, idx: SearchIndex, p: Id, cs: seq<Node>, rk: Ranking)
    requires Ranked(tree, rk) && IndexRanked(idx, rk) && Mirrors(tree, idx)
    requires forall c :: c in cs ==> c in tree && c.parent == p
    requires forall c :: c in Ids(cs) ==> rk.rank(c) < rk.rank(p)
    ensures DescendantsOf(idx, p, Ids(cs), rk) == SubtreesOf(tree, p, cs, rk)
    decreases rk.rank(p), 0, |cs|
  {
    if cs != [] {
      var c, rest := cs[0], cs[1..];
      var ids := Ids(cs);
      assert ids[0] == c.id && ids[1..] == Ids(rest);
      assert c in tree;
      assert Lookup(idx.nodeMap, c.id) == Some(c);
      assert DescendantsOf(idx, p, ids, rk) == [c] + Descendants(idx, c.id, rk) + DescendantsOf(idx, p, Ids(rest), rk);
      DescendantsMirror(tree, idx, c.id, rk);
      assert forall x :: x in rest ==> x in cs;
      SubtreesMirror(tree, idx, p, rest, rk);
    }
  }

  /** Every descendant is a node of the tree ranked below the id, so no node is its own descendant. */
  lemma {:induction false} SubtreeBelow(tree: seq<Node>, id: Id, rk: Ranking)
    requires Ranked(tree, rk)
    ensures forall x :: x in Subtree(tree, id, rk) ==> x in tree && rk.rank(x.id) < rk.rank(id)
    decreases rk.rank(id), 1
  {
    if Truthy(id) {
      SubtreesBelow(tree, id, ChildrenOf(tree, id), rk);
    }
  }

  lemma {:induction false} SubtreesBelow(tree: seq<Node>, p: Id, cs: seq<Node>, rk: Ranking)
    requires Ranked(tree, rk)
    requires forall c :: c in cs ==> c in tree && c.parent == p
    ensures forall x :: x in SubtreesOf(tree, p, cs, rk) ==> x in tree && rk.rank(x.id) < rk.rank(p)
    decreases rk.rank(p), 0, |cs|
  {
    if cs != [] {
      SubtreeBelow(tree, cs[0].id, rk);
      SubtreesBelow(tree, p, cs[1..], rk);
    }
  }

  /** The subtree holds every child of a truthy id, and every child of each of its members with a truthy id. */
  lemma {:induction false} SubtreeClosed(tree: seq<Node>, id: Id, rk: Ranking, x: Node, n: Node)
    requires Ranked(tree, rk)
    requires n in tree
    requires (Truthy(id) && n.parent == id) || (x in Subtree(tree, id, rk) && Truthy(x.id) && n.parent == x.id)
    ensures n in Subtree(tree, id, rk)
    decreases rk.rank(id), 1
  {
    SubtreesClosed(tree, id, ChildrenOf(tree, id), rk, x, n);
  }

  lemma {:induction false} SubtreesClosed(tree: seq<Node>, p: Id, cs: seq<Node>, rk: Ranking, x: Node, n: Node)
    requires Ranked(tree, rk) && Truthy(p)
    requires forall c :: c in cs ==> c in tree && c.parent == p
    requires n in tree
    requires (n.parent == p && n in cs) || (x in SubtreesOf(tree, p, cs, rk) && Truthy(x.id) && n.parent == x.id)
    ensures n in SubtreesOf(tree, p, cs, rk)
    decreases rk.rank(p), 0, |cs|
  {
    if cs != [] {
      var c := cs[0];
      var sub := Subtree(tree, c.id, rk);
      var rest := SubtreesOf(tree, p, cs[1..], rk);
      assert SubtreesOf(tree, p, cs, rk) == [c] + sub + rest;
      if n.parent == p && n in cs {
        if n != c {
          SubtreesClosed(tree, p, cs[1..], rk, x, n);
        }
      } else if x == c {
        SubtreeClosed(tree, c.id, rk, x, n);
      } else if x in sub {
        SubtreeClosed(tree, c.id, rk, x, n);
      } else {
        SubtreesClosed(tree, p, cs[1..], rk, x, n);
      }
    }
  }

  // ---------------------------------------------------------------------
  // The walks return stored nodes

  /** Every node is stored under its own id, as in the index of a tree. */
  ghost predicate Keyed(idx: SearchIndex) {
    forall k :: k in idx.nodeMap ==> idx.nodeMap[k].id == k
  }

  lemma IndexOfKeyed(tree: seq<Node>)
    ensures Keyed(IndexOf(tree))
  {
  }

  lemma {:induction false} AncestorsStored(idx: SearchIndex, current: Option<Id>, rk: Ranking)
    requires IndexRanked(idx, rk) && Keyed(idx)
    requires current.Some? ==> rk.rank(current.value) <= rk.bound
    ensures forall x :: x in AncestorsFrom(idx, current, rk) ==> x.id in idx.nodeMap && idx.nodeMap[x.id] == x
    decreases if current.Some? then rk.bound - rk.rank(current.value) + 1 else 0
  {
    if TruthyOpt(current) {
      AncestorsStored(idx, Lookup(idx.parentMap, current.value), rk);
    }
  }

  lemma {:induction false} DescendantsStored(idx: SearchIndex, id: Id, rk: Ranking)
    requires IndexRanked(idx, rk) && Keyed(idx)
    ensures forall x :: x in Descendants(idx, id, rk) ==> x.id in idx.nodeMap && idx.nodeMap[x.id] == x
    decreases rk.rank(id), 1
  {
    DescendantsOfStored(idx, id, ChildrenOrEmpty(idx.childrenMap, id), rk);
  }

  lemma {:induction false} DescendantsOfStored(idx: SearchIndex, p: Id, cs: seq<Id>, rk: Ranking)
    requires IndexRanked(idx, rk) && Keyed(idx)
    requires forall c :: c in cs ==> rk.rank(c) < rk.rank(p)
    ensures forall x :: x in DescendantsOf(idx, p, cs, rk) ==> x.id in idx.nodeMap && idx.nodeMap[x.id] == x
    decreases rk.rank(p), 0, |cs|
  {
    if cs != [] {
      if cs[0] in idx.nodeMap {
        DescendantsStored(idx, cs[0], rk);
      }
      DescendantsOfStored(idx, p, cs[1..], rk);
    }
  }

  /** When every id is stored, the lookup keeps them all, position by position. */
  lemma {:induction false} NodesOfStored(idx: SearchIndex, ids: seq<Id>)
    requires forall k :: k in ids ==> k in idx.nodeMap
    ensures |NodesOf(idx, ids)| == |ids|
    ensures forall j :: 0 <= j < |ids| ==> NodesOf(idx, ids)[j] == idx.nodeMap[ids[j]]
  {
    if ids != [] {
      NodesOfStored(idx, ids[1..]);
    }
  }
}
