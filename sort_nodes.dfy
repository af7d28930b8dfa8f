/**
 * `sortNodes`: orders a list of siblings by the tree's sort policy. With
 * `insertDroppableFirst` the droppable nodes go first and each group is
 * either kept in input order (`sort: false`) or sorted on its own; without
 * it the whole list is sorted in place or returned as it is.
 */
module SortNodes {
  import opened TreeModel
  import opened Sorting

  /** The two settings `sortNodes` reads from the tree context. */
  datatype SortPolicy = SortPolicy(sort: SortOrder, insertDroppableFirst: bool)

  predicate IsDroppable(n: Node) { n.droppable }

  predicate IsNotDroppable(n: Node) { !n.droppable }

  /** `typeof sort === "function" ? sort : compareItems` */
  function CallbackOf(sort: SortOrder, compareItems: SortCallback): (cmp: SortCallback)
    ensures sort.ByCallback? ==> forall a, b :: cmp(a, b) == sort.callback(a, b)
    ensures !sort.ByCallback? ==> forall a, b :: cmp(a, b) == compareItems(a, b)
  {
    if sort.ByCallback? then sort.callback else compareItems
  }

  /** What `sortNodes` returns, as a function of its input sequence. */
  ghost function Arranged(nodes: seq<Node>, policy: SortPolicy, compareItems: SortCallback): seq<Node>
  {
    var cmp := CallbackOf(policy.sort, compareItems);
    if policy.insertDroppableFirst then
      var droppable := Filter(IsDroppable, nodes);
      var nonDroppable := Filter(IsNotDroppable, nodes);
      if policy.sort.Unsorted? then droppable + nonDroppable
      else StableSort(cmp, droppable) + StableSort(cmp, nonDroppable)
    else if policy.sort.Unsorted? then nodes
    else StableSort(cmp, nodes)
  }

  /** A fresh array holding `s`, as an array literal or spread does. */
  method ArrayOf(s: seq<Node>) returns (a: array<Node>)
    ensures fresh(a) && a[..] == s
  {
    a := new Node[|s|](i requires 0 <= i < |s| => s[i]);
  }

  /**
   * `sortNodes(nodes, treeContext)`. The droppable-first branch filters into
   * new arrays and leaves `nodes` alone; the other branch sorts `nodes` in
   * place (or not at all) and returns that same array.
   */
  method SortNodes(nodes: array<Node>, policy: SortPolicy, compareItems: SortCallback) returns (r: array<Node>)
    modifies nodes
    ensures r[..] == Arranged(old(nodes[..]), policy, compareItems)
    ensures policy.insertDroppableFirst ==> fresh(r) && nodes[..] == old(nodes[..])
    ensures !policy.insertDroppableFirst ==> r == nodes
  {
    var sortCallback := CallbackOf(policy.sort, compareItems);
    if policy.insertDroppableFirst {
      var droppableNodes := Filter(IsDroppable, nodes[..]);
      var nonDroppableNodes := Filter(IsNotDroppable, nodes[..]);
      if policy.sort.Unsorted? {
        r := ArrayOf(droppableNodes + nonDroppableNodes);
        return;
      }
      var d := ArrayOf(droppableNodes);
      SortInPlace(d, sortCallback);
      var n := ArrayOf(nonDroppableNodes);
      SortInPlace(n, sortCallback);
      r := ArrayOf(d[..] + n[..]);
      return;
    }
    if !policy.sort.Unsorted? {
      SortInPlace(nodes, sortCallback);
    }
    r := nodes;
  }

  // ---------------------------------------------------------------------
  // Properties of the arrangement

  lemma {:induction false} PartitionPermutes(s: seq<Node>)
    ensures multiset(Filter(IsDroppable, s)) + multiset(Filter(IsNotDroppable, s)) == multiset(s)
  {
    if s != [] {
      var x, t := s[0], s[1..];
      assert s == [x] + t;
      PartitionPermutes(t);
      if x.droppable {
        assert Filter(IsDroppable, s) == [x] + Filter(IsDroppable, t);
        assert Filter(IsNotDroppable, s) == Filter(IsNotDroppable, t);
      } else {
        assert Filter(IsDroppable, s) == Filter(IsDroppable, t);
        assert Filter(IsNotDroppable, s) == [x] + Filter(IsNotDroppable, t);
      }
    }
  }

  /** Every policy returns a rearrangement of its input: same length, same nodes, same multiplicities. */
  lemma ArrangedPermutes(nodes: seq<Node>, policy: SortPolicy, compareItems: SortCallback)
    ensures |Arranged(nodes, policy, compareItems)| == |nodes|
    ensures multiset(Arranged(nodes, policy, compareItems)) == multiset(nodes)
  {
    var cmp := CallbackOf(policy.sort, compareItems);
    var d, n := Filter(IsDroppable, nodes), Filter(IsNotDroppable, nodes);
    PartitionPermutes(nodes);
    StableSortPermutes(cmp, d);
    StableSortPermutes(cmp, n);
    StableSortPermutes(cmp, nodes);
  }

  /** The droppable nodes of the arrangement, and the others, under the droppable-first policy. */
  lemma GroupsOfArranged(nodes: seq<Node>, policy: SortPolicy, compareItems: SortCallback)
    requires policy.insertDroppableFirst
    ensures var r := Arranged(nodes, policy, compareItems);
            var cmp := CallbackOf(policy.sort, compareItems);
            var d, n := Filter(IsDroppable, nodes), Filter(IsNotDroppable, nodes);
            var sd := if policy.sort.Unsorted? then d else StableSort(cmp, d);
            var sn := if policy.sort.Unsorted? then n else StableSort(cmp, n);
            && r == sd + sn
            && (forall x :: x in sd ==> x.droppable)
            && (forall x :: x in sn ==> !x.droppable)
            && Filter(IsDroppable, r) == sd
            && Filter(IsNotDroppable, r) == sn
  {
    var cmp := CallbackOf(policy.sort, compareItems);
    var d, n := Filter(IsDroppable, nodes), Filter(IsNotDroppable, nodes);
    var sd := if policy.sort.Unsorted? then d else StableSort(cmp, d);
    var sn := if policy.sort.Unsorted? then n else StableSort(cmp, n);
    StableSortPermutes(cmp, d);
    StableSortPermutes(cmp, n);
    SameNodes(d, sd, true);
    SameNodes(n, sn, false);
    SplitGroups(sd, sn);
  }

  /** A rearrangement of nodes of one droppability has that droppability too. */
  lemma SameNodes(s: seq<Node>, t: seq<Node>, droppable: bool)
    requires multiset(t) == multiset(s)
    requires forall x :: x in s ==> x.droppable == droppable
    ensures forall x :: x in t ==> x.droppable == droppable
  {
    forall x | x in t ensures x.droppable == droppable {
      assert x in multiset(t);
      assert x in s;
    }
  }

  /** Filtering droppable nodes followed by the others gives back each part. */
  lemma SplitGroups(sd: seq<Node>, sn: seq<Node>)
    requires forall x :: x in sd ==> x.droppable
    requires forall x :: x in sn ==> !x.droppable
    ensures Filter(IsDroppable, sd + sn) == sd
    ensures Filter(IsNotDroppable, sd + sn) == sn
  {
    FilterConcat(IsDroppable, sd, sn);
    FilterConcat(IsNotDroppable, sd, sn);
    FilterAll(IsDroppable, sd);
    FilterNone(IsDroppable, sn);
    FilterNone(IsNotDroppable, sd);
    FilterAll(IsNotDroppable, sn);
  }

  /** With `insertDroppableFirst`, no droppable node follows a non-droppable one. */
  lemma ArrangedDroppableFirst(nodes: seq<Node>, policy: SortPolicy, compareItems: SortCallback)
    requires policy.insertDroppableFirst
    ensures var r := Arranged(nodes, policy, compareItems);
            forall i, j :: 0 <= i < |r| && 0 <= j < |r| && r[i].droppable && !r[j].droppable ==> i < j
  {
    GroupsOfArranged(nodes, policy, compareItems);
    var cmp := CallbackOf(policy.sort, compareItems);
    var d, n := Filter(IsDroppable, nodes), Filter(IsNotDroppable, nodes);
    var sd := if policy.sort.Unsorted? then d else StableSort(cmp, d);
    var sn := if policy.sort.Unsorted? then n else StableSort(cmp, n);
    DroppableBeforeRest(sd, sn);
  }

  lemma DroppableBeforeRest(sd: seq<Node>, sn: seq<Node>)
    requires forall x :: x in sd ==> x.droppable
    requires forall x :: x in sn ==> !x.droppable
    ensures var r := sd + sn;
            forall i, j :: 0 <= i < |r| && 0 <= j < |r| && r[i].droppable && !r[j].droppable ==> i < j
  {
    var r := sd + sn;
    forall k | 0 <= k < |sd| ensures r[k].droppable {
      assert r[k] == sd[k];
    }
    forall k | |sd| <= k < |r| ensures !r[k].droppable {
      assert r[k] == sn[k - |sd|];
    }
  }

  /** `sort: false` with `insertDroppableFirst`: each group keeps its input order. */
  lemma UnsortedGroupsKeepOrder(nodes: seq<Node>, policy: SortPolicy, compareItems: SortCallback)
    requires policy.insertDroppableFirst && policy.sort.Unsorted?
    ensures Filter(IsDroppable, Arranged(nodes, policy, compareItems)) == Filter(IsDroppable, nodes)
    ensures Filter(IsNotDroppable, Arranged(nodes, policy, compareItems)) == Filter(IsNotDroppable, nodes)
  {
    GroupsOfArranged(nodes, policy, compareItems);
  }

  /** `sort: false` without `insertDroppableFirst`: the input comes back unchanged. */
  lemma UnsortedIsIdentity(nodes: seq<Node>, policy: SortPolicy, compareItems: SortCallback)
    requires !policy.insertDroppableFirst && policy.sort.Unsorted?
    ensures Arranged(nodes, policy, compareItems) == nodes
  {
  }

  /**
   * A sorting policy orders the whole list, or each group under
   * `insertDroppableFirst`, by the chosen comparator, and keeps nodes the
   * comparator ranks equal in their input order.
   */
  lemma ArrangedSorted(nodes: seq<Node>, policy: SortPolicy, compareItems: SortCallback)
    requires !policy.sort.Unsorted?
    requires Consistent(CallbackOf(policy.sort, compareItems))
    ensures var r := Arranged(nodes, policy, compareItems);
            var cmp := CallbackOf(policy.sort, compareItems);
            if policy.insertDroppableFirst then
              && Sorted(cmp, Filter(IsDroppable, r))
              && Sorted(cmp, Filter(IsNotDroppable, r))
              && StableFor(cmp, Filter(IsDroppable, r), Filter(IsDroppable, nodes))
              && StableFor(cmp, Filter(IsNotDroppable, r), Filter(IsNotDroppable, nodes))
            else Sorted(cmp, r) && StableFor(cmp, r, nodes)
  {
    var cmp := CallbackOf(policy.sort, compareItems);
    if policy.insertDroppableFirst {
      GroupsOfArranged(nodes, policy, compareItems);
      var d, n := Filter(IsDroppable, nodes), Filter(IsNotDroppable, nodes);
      StableSortSorted(cmp, d);
      StableSortSorted(cmp, n);
      StableSortStable(cmp, d);
      StableSortStable(cmp, n);
    } else {
      StableSortSorted(cmp, nodes);
      StableSortStable(cmp, nodes);
    }
  }

  lemma ArrangedEmpty(policy: SortPolicy, compareItems: SortCallback)
    ensures Arranged([], policy, compareItems) == []
  {
  }

  /** Arranging an arrangement again with the same policy changes nothing. */
  lemma ArrangedIdempotent(nodes: seq<Node>, policy: SortPolicy, compareItems: SortCallback)
    requires !policy.sort.Unsorted? ==> Consistent(CallbackOf(policy.sort, compareItems))
    ensures Arranged(Arranged(nodes, policy, compareItems), policy, compareItems)
         == Arranged(nodes, policy, compareItems)
  {
    var cmp := CallbackOf(policy.sort, compareItems);
    var r := Arranged(nodes, policy, compareItems);
    if policy.insertDroppableFirst {
      GroupsOfArranged(nodes, policy, compareItems);
      GroupsOfArranged(r, policy, compareItems);
      if !policy.sort.Unsorted? {
        var d, n := Filter(IsDroppable, nodes), Filter(IsNotDroppable, nodes);
        StableSortIdempotent(cmp, d);
        StableSortIdempotent(cmp, n);
      }
    } else if !policy.sort.Unsorted? {
      StableSortIdempotent(cmp, nodes);
    }
  }

  /** A list whose nodes are all droppable (or all not) stays so, at full length, under every policy. */
  lemma UniformDroppability(nodes: seq<Node>, policy: SortPolicy, compareItems: SortCallback, droppable: bool)
    requires forall x :: x in nodes ==> x.droppable == droppable
    ensures |Arranged(nodes, policy, compareItems)| == |nodes|
    ensures forall x :: x in Arranged(nodes, policy, compareItems) ==> x.droppable == droppable
  {
    ArrangedPermutes(nodes, policy, compareItems);
    var r := Arranged(nodes, policy, compareItems);
    forall x | x in r ensures x.droppable == droppable {
      assert x in multiset(r);
      assert x in multiset(nodes);
    }
  }

  // ---------------------------------------------------------------------
  // The four-node fixture of the unit tests, and the comparator by numeric id

  const MockNodes: seq<Node> := [
    Node(Num(1), Num(0), "B Folder", true),
    Node(Num(2), Num(0), "A File", false),
    Node(Num(3), Num(0), "A Folder", true),
    Node(Num(4), Num(0), "C File", false)]

  /** `(a, b) => a.id - b.id` on numeric ids. */
  function ById(a: Node, b: Node): int {
    if a.id.Num? && b.id.Num? then a.id.n - b.id.n else 0
  }

  /** The fixture's droppable nodes are 1 and 3, the others 2 and 4. */
  lemma FixtureGroups()
    ensures Filter(IsDroppable, MockNodes) == [MockNodes[0], MockNodes[2]]
    ensures Filter(IsNotDroppable, MockNodes) == [MockNodes[1], MockNodes[3]]
  {
    var t1 := MockNodes[1..];
    var t2 := t1[1..];
    var t3 := t2[1..];
    assert t3[1..] == [];
    assert Filter(IsDroppable, t3) == [];
    assert Filter(IsDroppable, t2) == [MockNodes[2]];
    assert Filter(IsNotDroppable, t3) == [MockNodes[3]];
    assert Filter(IsNotDroppable, t1) == [MockNodes[1], MockNodes[3]];
  }

  /** `sort: false` returns the fixture as it is, or grouped as 1, 3, 2, 4 under `insertDroppableFirst`. */
  lemma UnsortedScenario(compareItems: SortCallback)
    ensures Arranged(MockNodes, SortPolicy(Unsorted, false), compareItems) == MockNodes
    ensures Arranged(MockNodes, SortPolicy(Unsorted, true), compareItems)
         == [MockNodes[0], MockNodes[2], MockNodes[1], MockNodes[3]]
  {
    FixtureGroups();
  }

  /** The id comparator orders the fixture 1, 2, 3, 4. */
  lemma CustomSortScenario(compareItems: SortCallback)
    ensures Arranged(MockNodes, SortPolicy(ByCallback(ById), false), compareItems) == MockNodes
  {
    FixtureSortedById();
    SortedIsFixpoint(ById, MockNodes);
  }

  /** Under `insertDroppableFirst` the id comparator orders the fixture 1, 3, 2, 4. */
  lemma CustomGroupedScenario(compareItems: SortCallback)
    ensures Arranged(MockNodes, SortPolicy(ByCallback(ById), true), compareItems)
         == [MockNodes[0], MockNodes[2], MockNodes[1], MockNodes[3]]
  {
    FixtureGroups();
    FixtureSortedById();
    SortedIsFixpoint(ById, [MockNodes[0], MockNodes[2]]);
    SortedIsFixpoint(ById, [MockNodes[1], MockNodes[3]]);
  }

  lemma FixtureSortedById()
    ensures Sorted(ById, MockNodes)
    ensures Sorted(ById, [MockNodes[0], MockNodes[2]])
    ensures Sorted(ById, [MockNodes[1], MockNodes[3]])
  {
  }
}
