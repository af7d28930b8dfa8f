/**
 * The root container: it flattens the visible part of the tree (the
 * children of its parent id, and below every open folder its children, one
 * level deeper) into rows, decides whether to window them, and lays out one
 * placeholder before every row and one after the last. Containers below the
 * root render nothing.
 */
module Container {
  import opened TreeModel

  /** `{ node, depth }`, one visible row. */
  datatype Row = Row(node: Node, depth: int)

  /** A folder whose children are listed under it: droppable and open. */
  predicate Expands(node: Node, openIds: seq<Id>) {
    node.droppable && node.id in openIds
  }

  // ---------------------------------------------------------------------
  // The visible rows

  /** The rows `collectNodes(p, depth)` appends: the children of `p`, each followed by its own rows when it expands. */
  ghost function Flatten(tree: seq<Node>, openIds: seq<Id>, p: Id, depth: int, rk: Ranking): (rows: seq<Row>)
    requires Ranked(tree, rk)
    ensures forall r :: r in rows ==> r.node in tree && r.depth >= depth
    decreases rk.rank(p), 1
  {
    FlattenSiblings(tree, openIds, p, ChildrenOf(tree, p), depth, rk)
  }

  /** The rows for a run of siblings under `p`, in order. */
  ghost function FlattenSiblings(tree: seq<Node>, openIds: seq<Id>, p: Id, ns: seq<Node>, depth: int, rk: Ranking): (rows: seq<Row>)
    requires Ranked(tree, rk)
    requires forall n :: n in ns ==> n in tree && n.parent == p
    ensures forall r :: r in rows ==> r.node in tree && r.depth >= depth
    decreases rk.rank(p), 0, |ns|
  {
    if ns == [] then []
    else
      [Row(ns[0], depth)]
      + (if Expands(ns[0], openIds) then Flatten(tree, openIds, ns[0].id, depth + 1, rk) else [])
      + FlattenSiblings(tree, openIds, p, ns[1..], depth, rk)
  }

  /**
   * `collectNodes(parentId, depth)`: appends to `result` the rows of the
   * children of `parentId`, recursing into every open folder. The ghost
   * ranking stands for the acyclicity the recursion needs to end.
   */
  method CollectNodes(tree: seq<Node>, openIds: seq<Id>, parentId: Id, depth: int, result: seq<Row>, ghost rk: Ranking)
    returns (out: seq<Row>)
    requires Ranked(tree, rk)
    ensures out == result + Flatten(tree, openIds, parentId, depth, rk)
    decreases rk.rank(parentId), 1
  {
    var nodes := ChildrenOf(tree, parentId);
    out := result;
    var i := 0;
    assert nodes[i..] == nodes;
    while i < |nodes|
      invariant 0 <= i <= |nodes|
      invariant out + FlattenSiblings(tree, openIds, parentId, nodes[i..], depth, rk)
             == result + FlattenSiblings(tree, openIds, parentId, nodes, depth, rk)
    {
      var node := nodes[i];
      UnfoldSiblings(tree, openIds, parentId, nodes, i, depth, rk);
      ghost var rest := FlattenSiblings(tree, openIds, parentId, nodes[i + 1..], depth, rk);
      ghost var sub := if Expands(node, openIds) then Flatten(tree, openIds, node.id, depth + 1, rk) else [];
      ghost var before := out;
      out := out + [Row(node, depth)];
      if node.droppable && node.id in openIds {
        out := CollectNodes(tree, openIds, node.id, depth + 1, out, rk);
      }
      assert out == before + [Row(node, depth)] + sub;
      ConcatAssoc(before + [Row(node, depth)], sub, rest);
      ConcatAssoc(before, [Row(node, depth)], sub);
      ConcatAssoc(before, [Row(node, depth)] + sub, rest);
      i := i + 1;
    }
  }

  lemma UnfoldSiblings(tree: seq<Node>, openIds: seq<Id>, p: Id, ns: seq<Node>, i: int, d: int, rk: Ranking)
    requires Ranked(tree, rk)
    requires forall n :: n in ns ==> n in tree && n.parent == p
    requires 0 <= i < |ns|
    ensures FlattenSiblings(tree, openIds, p, ns[i..], d, rk)
         == [Row(ns[i], d)]
            + (if Expands(ns[i], openIds) then Flatten(tree, openIds, ns[i].id, d + 1, rk) else [])
            + FlattenSiblings(tree, openIds, p, ns[i + 1..], d, rk)
  {
    assert ns[i..][0] == ns[i] && ns[i..][1..] == ns[i + 1..];
  }

  /** `visibleNodes`: the rows of the container for `parentId` at `depth`. */
  method VisibleNodes(tree: seq<Node>, openIds: seq<Id>, parentId: Id, depth: int, ghost rk: Ranking)
    returns (rows: seq<Row>)
    requires Ranked(tree, rk)
    ensures rows == Flatten(tree, openIds, parentId, depth, rk)
  {
    rows := CollectNodes(tree, openIds, parentId, depth, [], rk);
  }

  // ---------------------------------------------------------------------
  // What the visible rows are

  /** The nodes of the rows at depth `d`, in order. */
  function NodesAt(rows: seq<Row>, d: int): seq<Node> {
    if rows == [] then []
    else (if rows[0].depth == d then [rows[0].node] else []) + NodesAt(rows[1..], d)
  }

  lemma {:induction false} NodesAtMembers(rows: seq<Row>, d: int, n: Node)
    ensures n in NodesAt(rows, d) <==> Row(n, d) in rows
  {
    if rows != [] {
      NodesAtMembers(rows[1..], d, n);
      assert rows == [rows[0]] + rows[1..];
    }
  }

  lemma {:induction false} NodesAtConcat(a: seq<Row>, b: seq<Row>, d: int)
    ensures NodesAt(a + b, d) == NodesAt(a, d) + NodesAt(b, d)
  {
    if a == [] {
      assert a + b == b;
    } else {
      var ab := a + b;
      var head := if a[0].depth == d then [a[0].node] else [];
      assert ab[0] == a[0] && ab[1..] == a[1..] + b;
      assert NodesAt(ab, d) == head + NodesAt(a[1..] + b, d);
      assert NodesAt(a, d) == head + NodesAt(a[1..], d);
      NodesAtConcat(a[1..], b, d);
      ConcatAssoc(head, NodesAt(a[1..], d), NodesAt(b, d));
    }
  }

  lemma {:induction false} NodesAtDeeper(rows: seq<Row>, d: int)
    requires forall r :: r in rows ==> r.depth > d
    ensures NodesAt(rows, d) == []
  {
    if rows != [] {
      NodesAtDeeper(rows[1..], d);
    }
  }

  /** A row followed by deeper rows contributes just its node to its own level. */
  lemma TopOfBlock(c: Node, sub: seq<Row>, rest: seq<Row>, d: int)
    requires forall r :: r in sub ==> r.depth > d
    ensures NodesAt([Row(c, d)] + sub + rest, d) == [c] + NodesAt(rest, d)
  {
    assert NodesAt([Row(c, d)], d) == [c] + NodesAt([], d);
    NodesAtDeeper(sub, d);
    NodesAtConcat([Row(c, d)], sub, d);
    NodesAtConcat([Row(c, d)] + sub, rest, d);
  }

  /** The rows of a run of siblings at its own depth are the siblings themselves. */
  lemma {:induction false} SiblingsTopLevel(tree: seq<Node>, openIds: seq<Id>, p: Id, ns: seq<Node>, d: int, rk: Ranking)
    requires Ranked(tree, rk)
    requires forall n :: n in ns ==> n in tree && n.parent == p
    ensures NodesAt(FlattenSiblings(tree, openIds, p, ns, d, rk), d) == ns
    decreases |ns|
  {
    if ns != [] {
      var c := ns[0];
      var sub := if Expands(c, openIds) then Flatten(tree, openIds, c.id, d + 1, rk) else [];
      var rest := FlattenSiblings(tree, openIds, p, ns[1..], d, rk);
      assert FlattenSiblings(tree, openIds, p, ns, d, rk) == [Row(c, d)] + sub + rest;
      TopOfBlock(c, sub, rest, d);
      SiblingsTopLevel(tree, openIds, p, ns[1..], d, rk);
      assert ns == [c] + ns[1..];
    }
  }

  /**
   * Row `k` hangs where it belongs: it is a child of the container's parent
   * at the container's depth, or some earlier row one level shallower is
   * its parent and is an open folder.
   */
  ghost predicate HasParentRow(rows: seq<Row>, k: int, p: Id, d: int, openIds: seq<Id>)
    requires 0 <= k < |rows|
  {
    || (rows[k].depth == d && rows[k].node.parent == p)
    || exists j :: 0 <= j < k && rows[j].depth == rows[k].depth - 1
                   && rows[j].node.id == rows[k].node.parent && Expands(rows[j].node, openIds)
  }

  ghost predicate WellNested(rows: seq<Row>, p: Id, d: int, openIds: seq<Id>) {
    forall k :: 0 <= k < |rows| ==> HasParentRow(rows, k, p, d, openIds)
  }

  lemma WellNestedConcat(a: seq<Row>, b: seq<Row>, p: Id, d: int, openIds: seq<Id>)
    requires WellNested(a, p, d, openIds) && WellNested(b, p, d, openIds)
    ensures WellNested(a + b, p, d, openIds)
  {
    var ab := a + b;
    forall k | 0 <= k < |ab| ensures HasParentRow(ab, k, p, d, openIds) {
      if k < |a| {
        assert ab[k] == a[k];
        assert HasParentRow(a, k, p, d, openIds);
        if !(a[k].depth == d && a[k].node.parent == p) {
          var j :| 0 <= j < k && a[j].depth == a[k].depth - 1
                   && a[j].node.id == a[k].node.parent && Expands(a[j].node, openIds);
          assert ab[j] == a[j];
        }
      } else {
        var kb := k - |a|;
        assert ab[k] == b[kb];
        assert HasParentRow(b, kb, p, d, openIds);
        if !(b[kb].depth == d && b[kb].node.parent == p) {
          var j :| 0 <= j < kb && b[j].depth == b[kb].depth - 1
                   && b[j].node.id == b[kb].node.parent && Expands(b[j].node, openIds);
          assert ab[j + |a|] == b[j];
        }
      }
    }
  }

  /** An open folder's row followed by its own well-nested rows one level deeper. */
  lemma NestBlock(c: Node, sub: seq<Row>, p: Id, d: int, openIds: seq<Id>)
    requires c.parent == p && Expands(c, openIds)
    requires WellNested(sub, c.id, d + 1, openIds)
    ensures WellNested([Row(c, d)] + sub, p, d, openIds)
  {
    var rows := [Row(c, d)] + sub;
    forall k | 0 <= k < |rows| ensures HasParentRow(rows, k, p, d, openIds) {
      if k > 0 {
        var ks := k - 1;
        assert rows[k] == sub[ks];
        assert HasParentRow(sub, ks, c.id, d + 1, openIds);
        if sub[ks].depth == d + 1 && sub[ks].node.parent == c.id {
          assert rows[0] == Row(c, d);
        } else {
          var j :| 0 <= j < ks && sub[j].depth == sub[ks].depth - 1
                   && sub[j].node.id == sub[ks].node.parent && Expands(sub[j].node, openIds);
          assert rows[j + 1] == sub[j];
        }
      }
    }
  }

  lemma {:induction false} FlattenWellNested(tree: seq<Node>, openIds: seq<Id>, p: Id, d: int, rk: Ranking)
    requires Ranked(tree, rk)
    ensures WellNested(Flatten(tree, openIds, p, d, rk), p, d, openIds)
    decreases rk.rank(p), 1
  {
    SiblingsWellNested(tree, openIds, p, ChildrenOf(tree, p), d, rk);
  }

  lemma {:induction false} SiblingsWellNested(tree: seq<Node>, openIds: seq<Id>, p: Id, ns: seq<Node>, d: int, rk: Ranking)
    requires Ranked(tree, rk)
    requires forall n :: n in ns ==> n in tree && n.parent == p
    ensures WellNested(FlattenSiblings(tree, openIds, p, ns, d, rk), p, d, openIds)
    decreases rk.rank(p), 0, |ns|
  {
    if ns != [] {
      var c := ns[0];
      var sub := if Expands(c, openIds) then Flatten(tree, openIds, c.id, d + 1, rk) else [];
      if Expands(c, openIds) {
        FlattenWellNested(tree, openIds, c.id, d + 1, rk);
        NestBlock(c, sub, p, d, openIds);
      } else {
        assert [Row(c, d)] + sub == [Row(c, d)];
      }
      SiblingsWellNested(tree, openIds, p, ns[1..], d, rk);
      WellNestedConcat([Row(c, d)] + sub, FlattenSiblings(tree, openIds, p, ns[1..], d, rk), p, d, openIds);
    }
  }

  /** Below every open folder's row, each of its children has a row one level deeper. */
  ghost predicate Complete(rows: seq<Row>, tree: seq<Node>, openIds: seq<Id>) {
    forall j, c :: 0 <= j < |rows| && Expands(rows[j].node, openIds) && c in tree && c.parent == rows[j].node.id
      ==> Row(c, rows[j].depth + 1) in rows
  }

  lemma CompleteConcat(a: seq<Row>, b: seq<Row>, tree: seq<Node>, openIds: seq<Id>)
    requires Complete(a, tree, openIds) && Complete(b, tree, openIds)
    ensures Complete(a + b, tree, openIds)
  {
    var ab := a + b;
    forall j, c | 0 <= j < |ab| && Expands(ab[j].node, openIds) && c in tree && c.parent == ab[j].node.id
      ensures Row(c, ab[j].depth + 1) in ab
    {
      if j < |a| {
        assert ab[j] == a[j];
      } else {
        assert ab[j] == b[j - |a|];
      }
    }
  }

  lemma {:induction false} FlattenComplete(tree: seq<Node>, openIds: seq<Id>, p: Id, d: int, rk: Ranking)
    requires Ranked(tree, rk)
    ensures Complete(Flatten(tree, openIds, p, d, rk), tree, openIds)
    decreases rk.rank(p), 1
  {
    SiblingsComplete(tree, openIds, p, ChildrenOf(tree, p), d, rk);
  }

  lemma {:induction false} SiblingsComplete(tree: seq<Node>, openIds: seq<Id>, p: Id, ns: seq<Node>, d: int, rk: Ranking)
    requires Ranked(tree, rk)
    requires forall n :: n in ns ==> n in tree && n.parent == p
    ensures Complete(FlattenSiblings(tree, openIds, p, ns, d, rk), tree, openIds)
    decreases rk.rank(p), 0, |ns|
  {
    if ns != [] {
      var c := ns[0];
      var sub := if Expands(c, openIds) then Flatten(tree, openIds, c.id, d + 1, rk) else [];
      var rest := FlattenSiblings(tree, openIds, p, ns[1..], d, rk);
      if Expands(c, openIds) {
        FlattenComplete(tree, openIds, c.id, d + 1, rk);
        SiblingsTopLevel(tree, openIds, c.id, ChildrenOf(tree, c.id), d + 1, rk);
        RowsForNodes(sub, d + 1, ChildrenOf(tree, c.id));
        CompleteBlock(c, sub, tree, openIds, d);
      } else {
        assert [Row(c, d)] + sub == [Row(c, d)];
      }
      SiblingsComplete(tree, openIds, p, ns[1..], d, rk);
      CompleteConcat([Row(c, d)] + sub, rest, tree, openIds);
    }
  }

  /** An open folder's row followed by rows that list its children one level deeper. */
  lemma CompleteBlock(c: Node, sub: seq<Row>, tree: seq<Node>, openIds: seq<Id>, d: int)
    requires Complete(sub, tree, openIds)
    requires forall x :: x in tree && x.parent == c.id ==> Row(x, d + 1) in sub
    ensures Complete([Row(c, d)] + sub, tree, openIds)
  {
    var block := [Row(c, d)] + sub;
    forall j, x | 0 <= j < |block| && Expands(block[j].node, openIds) && x in tree && x.parent == block[j].node.id
      ensures Row(x, block[j].depth + 1) in block
    {
      if j == 0 {
        assert block[j] == Row(c, d);
        assert Row(x, d + 1) in sub;
      } else {
        assert block[j] == sub[j - 1];
        assert Row(x, sub[j - 1].depth + 1) in sub;
      }
    }
  }

  /** Rows whose top level lists some nodes hold a row one level down for each of them. */
  lemma RowsForNodes(sub: seq<Row>, d: int, kids: seq<Node>)
    requires NodesAt(sub, d) == kids
    ensures forall x :: x in kids ==> Row(x, d) in sub
  {
    forall x | x in kids ensures Row(x, d) in sub {
      NodesAtMembers(sub, d, x);
    }
  }

  // ---------------------------------------------------------------------
  // Pre-order: a folder's rows come straight after it

  /**
   * The rows a row's node contributes below it: its subtree, starting one
   * level deeper, when it is an open folder, none otherwise.
   */
  ghost function SubRows(tree: seq<Node>, openIds: seq<Id>, rk: Ranking): Row -> seq<Row> {
    (r: Row) => if Ranked(tree, rk) && Expands(r.node, openIds) then Flatten(tree, openIds, r.node.id, r.depth + 1, rk) else []
  }

  /**
   * Row `j` is followed at once by the rows `sub` gives for it, and the row
   * after that block, if any, is no deeper than row `j`: a later sibling or
   * a row further up.
   */
  ghost predicate BlockAt(rows: seq<Row>, j: int, sub: Row -> seq<Row>)
    requires 0 <= j < |rows|
  {
    var s := sub(rows[j]);
    && j + 1 + |s| <= |rows|
    && rows[j + 1..j + 1 + |s|] == s
    && (j + 1 + |s| < |rows| ==> rows[j + 1 + |s|].depth <= rows[j].depth)
  }

  /** Every row is followed by its block of `sub` rows before any later sibling or any row further up. */
  ghost predicate PreOrder(rows: seq<Row>, sub: Row -> seq<Row>) {
    forall j :: 0 <= j < |rows| ==> BlockAt(rows, j, sub)
  }

  lemma BlockShift(a: seq<Row>, b: seq<Row>, j: int, sub: Row -> seq<Row>)
    requires 0 <= j < |b| && BlockAt(b, j, sub)
    ensures BlockAt(a + b, |a| + j, sub)
  {
    var s := sub(b[j]);
    var ab := a + b;
    assert ab[|a| + j] == b[j];
    assert ab[|a| + j + 1..|a| + j + 1 + |s|] == b[j + 1..j + 1 + |s|];
    if j + 1 + |s| < |b| {
      assert ab[|a| + j + 1 + |s|] == b[j + 1 + |s|];
    }
  }

  lemma BlockExtend(a: seq<Row>, b: seq<Row>, j: int, sub: Row -> seq<Row>)
    requires 0 <= j < |a| && BlockAt(a, j, sub)
    requires b != [] ==> b[0].depth <= a[j].depth
    ensures BlockAt(a + b, j, sub)
  {
    var s := sub(a[j]);
    var ab := a + b;
    assert ab[j] == a[j];
    assert ab[j + 1..j + 1 + |s|] == a[j + 1..j + 1 + |s|];
    if j + 1 + |s| < |a| {
      assert ab[j + 1 + |s|] == a[j + 1 + |s|];
    } else if j + 1 + |s| < |ab| {
      assert ab[j + 1 + |s|] == b[0];
    }
  }

  /** A row followed by its block, itself in pre-order, is in pre-order. */
  lemma HeadPreOrder(head: Row, sub: Row -> seq<Row>)
    requires PreOrder(sub(head), sub)
    ensures PreOrder([head] + sub(head), sub)
  {
    var block := [head] + sub(head);
    assert block[0] == head && block[1..1 + |sub(head)|] == sub(head);
    assert BlockAt(block, 0, sub);
    forall j | 1 <= j < |block| ensures BlockAt(block, j, sub) {
      BlockShift([head], sub(head), j - 1, sub);
    }
  }

  /** Two runs in pre-order, the first no shallower than `d` and the second starting at `d`, make one. */
  lemma ConcatPreOrder(a: seq<Row>, b: seq<Row>, d: int, sub: Row -> seq<Row>)
    requires PreOrder(a, sub) && PreOrder(b, sub)
    requires forall r :: r in a ==> r.depth >= d
    requires b != [] ==> b[0].depth == d
    ensures PreOrder(a + b, sub)
  {
    forall j | 0 <= j < |a + b| ensures BlockAt(a + b, j, sub) {
      if j < |a| {
        assert a[j] in a;
        BlockExtend(a, b, j, sub);
      } else {
        BlockShift(a, b, j - |a|, sub);
      }
    }
  }

  /** The rows of a container are in pre-order: each folder's subtree rows come straight after its row. */
  lemma {:induction false} FlattenPreOrder(tree: seq<Node>, openIds: seq<Id>, p: Id, d: int, rk: Ranking)
    requires Ranked(tree, rk)
    ensures PreOrder(Flatten(tree, openIds, p, d, rk), SubRows(tree, openIds, rk))
    decreases rk.rank(p), 1
  {
    SiblingsPreOrder(tree, openIds, p, ChildrenOf(tree, p), d, rk);
  }

  lemma {:induction false} SiblingsPreOrder(tree: seq<Node>, openIds: seq<Id>, p: Id, ns: seq<Node>, d: int, rk: Ranking)
    requires Ranked(tree, rk)
    requires forall n :: n in ns ==> n in tree && n.parent == p
    ensures var rows := FlattenSiblings(tree, openIds, p, ns, d, rk);
            && PreOrder(rows, SubRows(tree, openIds, rk))
            && (rows != [] ==> rows[0].depth == d)
    decreases rk.rank(p), 0, |ns|
  {
    if ns != [] {
      var sub := SubRows(tree, openIds, rk);
      var head := Row(ns[0], d);
      var below := if Expands(ns[0], openIds) then Flatten(tree, openIds, ns[0].id, d + 1, rk) else [];
      assert sub(head) == below;
      if Expands(ns[0], openIds) {
        FlattenPreOrder(tree, openIds, ns[0].id, d + 1, rk);
      }
      var rest := FlattenSiblings(tree, openIds, p, ns[1..], d, rk);
      SiblingsPreOrder(tree, openIds, p, ns[1..], d, rk);
      HeadPreOrder(head, sub);
      ConcatPreOrder([head] + below, rest, d, sub);
      assert [head] + below + rest == FlattenSiblings(tree, openIds, p, ns, d, rk);
    }
  }

  /** A folder `1` under `p` that holds a file `2`. */
  function FolderTree(p: Id): seq<Node> {
    [Node(Num(1), p, "Folder 1", true), Node(Num(2), Num(1), "File 2", false)]
  }

  /** Open, the folder's row is followed by the file's one level deeper; closed, the folder's row stands alone. */
  lemma FolderScenario(p: Id, d: int, rk: Ranking)
    requires Ranked(FolderTree(p), rk)
    ensures Flatten(FolderTree(p), [Num(1)], p, d, rk) == [Row(FolderTree(p)[0], d), Row(FolderTree(p)[1], d + 1)]
    ensures Flatten(FolderTree(p), [], p, d, rk) == [Row(FolderTree(p)[0], d)]
  {
    var tree := FolderTree(p);
    var folder, file := tree[0], tree[1];
    assert folder in tree && file in tree;
    assert p != Num(1);
    var first := tree[..1];
    assert first == [folder] && first[..0] == [] && tree[|tree| - 1] == file && tree[..|tree| - 1] == first;
    assert ChildrenOf(first, p) == ChildrenOf([], p) + [folder];
    assert ChildrenOf(tree, p) == ChildrenOf(first, p);
    assert ChildrenOf(first, Num(1)) == ChildrenOf([], Num(1));
    assert ChildrenOf(tree, Num(1)) == ChildrenOf(first, Num(1)) + [file];
    assert ChildrenOf(tree, p)[1..] == [] && ChildrenOf(tree, Num(1))[1..] == [];
    assert Flatten(tree, [Num(1)], Num(1), d + 1, rk) == [Row(file, d + 1)] by {
      assert FlattenSiblings(tree, [Num(1)], Num(1), [file], d + 1, rk)
          == [Row(file, d + 1)] + [] + FlattenSiblings(tree, [Num(1)], Num(1), [], d + 1, rk);
    }
    assert FlattenSiblings(tree, [Num(1)], p, [folder], d, rk)
        == [Row(folder, d)] + Flatten(tree, [Num(1)], Num(1), d + 1, rk) + FlattenSiblings(tree, [Num(1)], p, [], d, rk);
    assert FlattenSiblings(tree, [], p, [folder], d, rk)
        == [Row(folder, d)] + [] + FlattenSiblings(tree, [], p, [], d, rk);
  }

  /**
   * The rows of a container: its parent's children at its own depth in tree
   * order, only nodes of the tree and never shallower than the container,
   * each deeper row directly below an open folder that is its parent, and
   * every child of every listed open folder listed one level deeper; and in
   * pre-order, every row followed at once by the rows of its subtree.
   */
  lemma VisibleRowsShape(tree: seq<Node>, openIds: seq<Id>, p: Id, d: int, rk: Ranking)
    requires Ranked(tree, rk)
    ensures var rows := Flatten(tree, openIds, p, d, rk);
            && NodesAt(rows, d) == ChildrenOf(tree, p)
            && (forall r :: r in rows ==> r.node in tree && r.depth >= d)
            && WellNested(rows, p, d, openIds)
            && Complete(rows, tree, openIds)
            && PreOrder(rows, SubRows(tree, openIds, rk))
  {
    SiblingsTopLevel(tree, openIds, p, ChildrenOf(tree, p), d, rk);
    FlattenPreOrder(tree, openIds, p, d, rk);
    FlattenWellNested(tree, openIds, p, d, rk);
    FlattenComplete(tree, openIds, p, d, rk);
  }

  /** With no open folder among them, a run of siblings gives one row each, at the same depth. */
  lemma {:induction false} ClosedSiblings(tree: seq<Node>, openIds: seq<Id>, p: Id, ns: seq<Node>, d: int, rk: Ranking)
    requires Ranked(tree, rk)
    requires forall n :: n in ns ==> n in tree && n.parent == p
    requires forall n :: n in ns ==> !Expands(n, openIds)
    ensures var rows := FlattenSiblings(tree, openIds, p, ns, d, rk);
            |rows| == |ns| && forall k :: 0 <= k < |ns| ==> rows[k] == Row(ns[k], d)
    decreases |ns|
  {
    if ns != [] {
      ClosedSiblings(tree, openIds, p, ns[1..], d, rk);
      var rows := FlattenSiblings(tree, openIds, p, ns, d, rk);
      assert rows == [Row(ns[0], d)] + FlattenSiblings(tree, openIds, p, ns[1..], d, rk);
    }
  }

  /** A container whose children are all closed or files lists exactly those children. */
  lemma ClosedContainer(tree: seq<Node>, openIds: seq<Id>, p: Id, d: int, rk: Ranking)
    requires Ranked(tree, rk)
    requires forall n :: n in tree && n.parent == p ==> !Expands(n, openIds)
    ensures var rows := Flatten(tree, openIds, p, d, rk);
            var cs := ChildrenOf(tree, p);
            |rows| == |cs| && forall k :: 0 <= k < |cs| ==> rows[k] == Row(cs[k], d)
  {
    ClosedSiblings(tree, openIds, p, ChildrenOf(tree, p), d, rk);
  }

  // ---------------------------------------------------------------------
  // Placeholders of the plain list

  /** The props of one `Placeholder`; the trailing one has no `index`. */
  datatype Slot = Slot(depth: int, listCount: int, dropTargetId: Id, index: Option<int>)

  /** One placeholder before each row (targeting `node.parent || ""`), and one after the last targeting the container's parent. */
  function Placeholders(rows: seq<Row>, parentId: Id, depth: int): (slots: seq<Slot>)
    ensures |slots| == |rows| + 1
  {
    seq(|rows|, k requires 0 <= k < |rows| => Slot(rows[k].depth, |rows|, OrEmpty(rows[k].node.parent), Some(k)))
    + [Slot(depth, |rows|, parentId, None)]
  }

  /**
   * Every placeholder counts all the rows. The one before row `k` has that
   * row's depth and index; it targets the container's parent (through
   * `|| ""`) when the row is at the container's depth, and otherwise the
   * open folder row above that holds the row. The trailing one targets the
   * container's parent at the container's depth.
   */
  lemma PlaceholderTargets(tree: seq<Node>, openIds: seq<Id>, p: Id, d: int, rk: Ranking)
    requires Ranked(tree, rk)
    ensures var rows := Flatten(tree, openIds, p, d, rk);
            var slots := Placeholders(rows, p, d);
            && |slots| == |rows| + 1
            && (forall k :: 0 <= k < |slots| ==> slots[k].listCount == |rows|)
            && slots[|rows|] == Slot(d, |rows|, p, None)
            && (forall k :: 0 <= k < |rows| ==> slots[k].index == Some(k) && slots[k].depth == rows[k].depth)
            && (forall k :: 0 <= k < |rows| && rows[k].depth == d ==> slots[k].dropTargetId == OrEmpty(p))
            && (forall k :: 0 <= k < |rows| && rows[k].depth != d ==>
                  exists j :: 0 <= j < k && Expands(rows[j].node, openIds) && rows[j].depth == rows[k].depth - 1
                              && slots[k].dropTargetId == OrEmpty(rows[j].node.id))
  {
    var rows := Flatten(tree, openIds, p, d, rk);
    var slots := Placeholders(rows, p, d);
    FlattenWellNested(tree, openIds, p, d, rk);
    forall k | 0 <= k < |rows| && rows[k].depth == d ensures slots[k].dropTargetId == OrEmpty(p) {
      assert HasParentRow(rows, k, p, d, openIds);
      assert forall j :: 0 <= j < k ==> rows[j] in rows;
    }
    forall k | 0 <= k < |rows| && rows[k].depth != d
      ensures exists j :: 0 <= j < k && Expands(rows[j].node, openIds) && rows[j].depth == rows[k].depth - 1
                          && slots[k].dropTargetId == OrEmpty(rows[j].node.id)
    {
      assert HasParentRow(rows, k, p, d, openIds);
    }
  }

  /**
   * Under a falsy root id such as `0`, the placeholders of the top-level
   * rows target `""` while the trailing one targets the root id itself.
   */
  lemma FalsyRootPlaceholders(tree: seq<Node>, openIds: seq<Id>, p: Id, d: int, rk: Ranking)
    requires Ranked(tree, rk) && !Truthy(p)
    ensures var rows := Flatten(tree, openIds, p, d, rk);
            var slots := Placeholders(rows, p, d);
            && (forall k :: 0 <= k < |rows| && rows[k].depth == d ==> slots[k].dropTargetId == Str(""))
            && slots[|rows|].dropTargetId == p
  {
    PlaceholderTargets(tree, openIds, p, d, rk);
  }

  // ---------------------------------------------------------------------
  // Windowing

  /** `x || fallback` on an optional number. */
  function OrNumber(x: Option<int>, fallback: int): (r: int)
    ensures x.Some? && x.value != 0 ==> r == x.value
    ensures !(x.Some? && x.value != 0) ==> r == fallback
  {
    if x.Some? && x.value != 0 then x.value else fallback
  }

  /** `x || fallback` on an optional string. */
  function OrText(x: Option<string>, fallback: string): (r: string)
    ensures x.Some? && x.value != "" ==> r == x.value
    ensures !(x.Some? && x.value != "") ==> r == fallback
  {
    if x.Some? && x.value != "" then x.value else fallback
  }

  /** `virtualizeOptions?.threshold || 50` */
  function Threshold(opts: Option<VirtualizeOptions>): int {
    OrNumber(if opts.Some? then opts.value.threshold else None, 50)
  }

  /** `shouldUseVirtual`: a root container, windowing enabled, and at least the threshold of rows. */
  predicate ShouldUseVirtual(isRoot: bool, opts: Option<VirtualizeOptions>, count: int) {
    isRoot && opts.Some? && opts.value.enabled && count >= Threshold(opts)
  }

  /** Without a threshold (or with `0`), windowing starts at 50 rows. */
  lemma DefaultThreshold(opts: Option<VirtualizeOptions>, count: int)
    requires opts.Some? && opts.value.enabled
    requires opts.value.threshold.None? || opts.value.threshold == Some(0)
    ensures ShouldUseVirtual(true, opts, count) <==> count >= 50
  {
  }

  /** Windowing never applies below the root, and once it applies it keeps applying as rows are added. */
  lemma VirtualMonotone(isRoot: bool, opts: Option<VirtualizeOptions>, count: int, more: int)
    requires count <= more
    ensures !ShouldUseVirtual(false, opts, count)
    ensures ShouldUseVirtual(isRoot, opts, count) ==> ShouldUseVirtual(isRoot, opts, more)
  {
  }

  /** The settings handed to the windowing library, with the defaults `|| 32`, `|| 5` and `|| "600px"`. */
  datatype Virtualizer = Virtualizer(count: int, itemHeight: int, overscan: int, containerHeight: string)

  function VirtualizerOf(opts: Option<VirtualizeOptions>, count: int): (v: Virtualizer)
    ensures v.count == count
    ensures opts.None? ==> v == Virtualizer(count, 32, 5, "600px")
  {
    var o := if opts.Some? then opts.value else VirtualizeOptions(false, None, None, None, None);
    Virtualizer(count, OrNumber(o.itemHeight, 32), OrNumber(o.overscan, 5), OrText(o.containerHeight, "600px"))
  }

  /** A windowed row: keyed by the node's id, indented 24 pixels per level. */
  datatype VirtualRow = VirtualRow(key: Id, depth: int, paddingLeft: int)

  function VirtualRows(rows: seq<Row>): (items: seq<VirtualRow>)
    ensures |items| == |rows|
  {
    seq(|rows|, k requires 0 <= k < |rows| => VirtualRow(rows[k].node.id, rows[k].depth, rows[k].depth * 24))
  }

  // ---------------------------------------------------------------------
  // The container

  /** What a container renders: nothing below the root, a windowed list, or a plain list with its placeholders. */
  datatype ContainerView =
    | Nothing
    | Windowed(settings: Virtualizer, items: seq<VirtualRow>)
    | Plain(rows: seq<Row>, slots: seq<Slot>)

  /**
   * `Container(props)`: collects the visible rows, renders nothing when the
   * container is not the root's, windows them when `shouldUseVirtual`
   * holds, and otherwise lists them with their placeholders.
   */
  method RenderContainer(state: TreeState, parentId: Id, depth: int, ghost rk: Ranking) returns (view: ContainerView)
    requires Ranked(state.tree, rk)
    ensures parentId != state.rootId <==> view.Nothing?
    ensures var rows := Flatten(state.tree, state.openIds, parentId, depth, rk);
            && (view.Windowed? <==> parentId == state.rootId && ShouldUseVirtual(true, state.virtualizeOptions, |rows|))
            && (view.Windowed? ==>
                  && view.settings == VirtualizerOf(state.virtualizeOptions, |rows|)
                  && |view.items| == |rows|
                  && forall k :: 0 <= k < |rows| ==>
                       view.items[k] == VirtualRow(rows[k].node.id, rows[k].depth, 24 * rows[k].depth))
            && (view.Plain? ==> view.rows == rows && view.slots == Placeholders(rows, parentId, depth))
  {
    var isRootContainer := parentId == state.rootId;
    var visibleNodes := VisibleNodes(state.tree, state.openIds, parentId, depth, rk);
    var shouldUseVirtual := ShouldUseVirtual(isRootContainer, state.virtualizeOptions, |visibleNodes|);
    if !isRootContainer {
      return Nothing;
    }
    if shouldUseVirtual {
      return Windowed(VirtualizerOf(state.virtualizeOptions, |visibleNodes|), VirtualRows(visibleNodes));
    }
    return Plain(visibleNodes, Placeholders(visibleNodes, parentId, depth));
  }
}
