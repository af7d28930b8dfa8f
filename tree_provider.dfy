/**
 * `TreeProvider`: the search memo that narrows the tree to the matches and
 * the nodes above them, the context value built from the props and their
 * defaults, and the drop and veto callbacks it hands down. The helpers it
 * imports (`getTreeItem`, `getDestIndex`, `getModifiedIndex`, `mutateTree`,
 * `mutateTreeWithIndex`) and the open-state hook are parameters.
 */
module TreeProvider {
  import opened TreeModel
  import opened Text
  import opened Index
  import opened TreeSearch
  import opened Container

  // ---------------------------------------------------------------------
  // Props

  /**
   * A host's veto on a drop: the tree and the drop's description. Its answer
   * is `boolean | void`; `None` is an `undefined` answer, which leaves the
   * decision to the library's default rule.
   */
  type CanDropCallback = (seq<Node>, DropOptions) -> Option<bool>
  /** A host's veto on a drag: the dragged node, if the tree has it. */
  type CanDragCallback = Option<Node> -> bool

  /** The props the provider reads; an optional prop the host leaves out is `None`. */
  datatype TreeProps = TreeProps(
    tree: seq<Node>,
    rootId: Id,
    sort: Option<SortOrder>,
    insertDroppableFirst: Option<bool>,
    virtualizeOptions: Option<VirtualizeOptions>,
    searchTerm: Option<string>,
    canDrop: Option<CanDropCallback>,
    canDrag: Option<CanDragCallback>)

  /** `!props.searchTerm` fails: a term is given and is not empty. */
  predicate HasTerm(term: Option<string>) {
    term.Some? && term.value != ""
  }

  // ---------------------------------------------------------------------
  // The search memo

  /** The memo's result. */
  datatype SearchMemo = SearchMemo(filteredTree: seq<Node>, searchPaths: seq<Id>, searchResults: seq<Node>)

  /** `node.text.toLowerCase().includes(term)`, for an already lower-cased `term`. */
  function TextMatches(term: string): Node -> bool {
    (n: Node) => Contains(Lower(n.text), term)
  }

  /** `paths.has(node.id)` */
  function InPaths(paths: seq<Id>): Node -> bool {
    (n: Node) => n.id in paths
  }

  /**
   * The ids the inner `while` loop adds for one match: the node's own id,
   * then the id of each node `find` returns for the current `parent`, until
   * `find` returns nothing. Unlike `getAllParents` it does not stop at a
   * falsy parent id: a node whose id is `0` or `""` is still found.
   */
  ghost function Chain(tree: seq<Node>, n: Node, rk: Ranking): seq<Id>
    requires Ranked(tree, rk) && n in tree
    decreases rk.bound - rk.rank(n.id)
  {
    [n.id] + match Find(tree, n.parent)
      case None => []
      case Some(p) => Chain(tree, p, rk)
  }

  /** The `paths` set after the `forEach` has handled the matches `ms`. */
  ghost function PathsOf(tree: seq<Node>, ms: seq<Node>, rk: Ranking): seq<Id>
    requires Ranked(tree, rk) && forall m :: m in ms ==> m in tree
  {
    if ms == [] then []
    else AddAll(PathsOf(tree, ms[..|ms| - 1], rk), Chain(tree, ms[|ms| - 1], rk))
  }

  /** What the memo computes, for a tree without cycles. */
  ghost function MemoSpec(tree: seq<Node>, term: Option<string>, rk: Ranking): SearchMemo
    requires Ranked(tree, rk)
  {
    if !HasTerm(term) then SearchMemo(tree, [], [])
    else
      var matches := Filter(TextMatches(Lower(term.value)), tree);
      var paths := PathsOf(tree, matches, rk);
      SearchMemo(Filter(InPaths(paths), tree), paths, matches)
  }

  lemma PathsOfSnoc(tree: seq<Node>, ms: seq<Node>, i: int, rk: Ranking)
    requires Ranked(tree, rk) && forall m :: m in ms ==> m in tree
    requires 0 <= i < |ms|
    ensures PathsOf(tree, ms[..i + 1], rk) == AddAll(PathsOf(tree, ms[..i], rk), Chain(tree, ms[i], rk))
  {
    assert ms[..i + 1][..i] == ms[..i];
  }

  /** The inner loop: walks up from `node`, adding each id, until `find` comes back empty. */
  method AddChain(tree: seq<Node>, paths: seq<Id>, node: Node, ghost rk: Ranking) returns (r: seq<Id>)
    requires Ranked(tree, rk) && node in tree
    ensures r == AddAll(paths, Chain(tree, node, rk))
  {
    r := paths;
    var current := node;
    while true
      invariant current in tree
      invariant AddAll(r, Chain(tree, current, rk)) == AddAll(paths, Chain(tree, node, rk))
      decreases rk.bound - rk.rank(current.id)
    {
      var chain := Chain(tree, current, rk);
      assert chain[0] == current.id;
      r := Add(r, current.id);
      var parent := Find(tree, current.parent);
      if parent.None? {
        assert chain == [current.id];
        return;
      }
      assert chain[1..] == Chain(tree, parent.value, rk);
      current := parent.value;
    }
  }

  /** The `useMemo` search: the matches, the ids on their parent chains, and the tree filtered to those ids. */
  method SearchTree(tree: seq<Node>, searchTerm: Option<string>, ghost rk: Ranking) returns (memo: SearchMemo)
    requires Ranked(tree, rk)
    ensures memo == MemoSpec(tree, searchTerm, rk)
  {
    if !HasTerm(searchTerm) {
      return SearchMemo(tree, [], []);
    }
    var term := Lower(searchTerm.value);
    var matches := Filter(TextMatches(term), tree);
    var paths: seq<Id> := [];
    for i := 0 to |matches|
      invariant paths == PathsOf(tree, matches[..i], rk)
    {
      PathsOfSnoc(tree, matches, i, rk);
      paths := AddChain(tree, paths, matches[i], rk);
    }
    assert matches[..|matches|] == matches;
    var filtered := Filter(InPaths(paths), tree);
    memo := SearchMemo(filtered, paths, matches);
  }

  // ---------------------------------------------------------------------
  // Properties of the memo

  /** Without a term (absent or empty) the memo keeps the whole tree and finds nothing. */
  lemma EmptyTermKeepsTree(tree: seq<Node>, term: Option<string>, rk: Ranking)
    requires Ranked(tree, rk) && !HasTerm(term)
    ensures MemoSpec(tree, term, rk) == SearchMemo(tree, [], [])
  {
  }

  /**
   * The provider's matches are exactly the tree-ordered matches of the
   * default search function of `useTreeSearch`, whatever helpers it is given.
   */
  lemma ResultsAreDefaultSearch(tree: seq<Node>, term: string, idx: SearchIndex, rk: Ranking)
    requires Ranked(tree, rk) && term != ""
    ensures MemoSpec(tree, Some(term), rk).searchResults == Filter(MatchesBy(DefaultSearch, term, idx), tree)
    ensures forall n :: n in MemoSpec(tree, Some(term), rk).searchResults <==>
              n in tree && exists i :: OccursAt(Lower(n.text), Lower(term), i)
  {
    FilterSame(TextMatches(Lower(term)), MatchesBy(DefaultSearch, term, idx), tree);
  }

  /** `x` lies on the chain of one of the matches `ms`. */
  ghost predicate OnSomeChain(tree: seq<Node>, ms: seq<Node>, rk: Ranking, x: Id)
    requires Ranked(tree, rk) && forall m :: m in ms ==> m in tree
  {
    exists m :: m in ms && x in Chain(tree, m, rk)
  }

  /** An id is on the chain of one of `init + [last]` when it is on one of `init`'s or on `last`'s. */
  lemma OnSomeChainSnoc(tree: seq<Node>, init: seq<Node>, last: Node, rk: Ranking, x: Id)
    requires Ranked(tree, rk) && last in tree && forall m :: m in init ==> m in tree
    ensures OnSomeChain(tree, init + [last], rk, x) <==> OnSomeChain(tree, init, rk, x) || x in Chain(tree, last, rk)
  {
    OnSomeChainGrows(tree, init, last, rk, x);
    OnSomeChainSplits(tree, init, last, rk, x);
  }

  lemma OnSomeChainGrows(tree: seq<Node>, init: seq<Node>, last: Node, rk: Ranking, x: Id)
    requires Ranked(tree, rk) && last in tree && forall m :: m in init ==> m in tree
    ensures OnSomeChain(tree, init, rk, x) || x in Chain(tree, last, rk) ==> OnSomeChain(tree, init + [last], rk, x)
  {
    var ms := init + [last];
    if OnSomeChain(tree, init, rk, x) {
      var m :| m in init && x in Chain(tree, m, rk);
      assert m in ms;
    } else if x in Chain(tree, last, rk) {
      assert last in ms;
    }
  }

  lemma OnSomeChainSplits(tree: seq<Node>, init: seq<Node>, last: Node, rk: Ranking, x: Id)
    requires Ranked(tree, rk) && last in tree && forall m :: m in init ==> m in tree
    ensures OnSomeChain(tree, init + [last], rk, x) ==> OnSomeChain(tree, init, rk, x) || x in Chain(tree, last, rk)
  {
    var ms := init + [last];
    if OnSomeChain(tree, ms, rk, x) {
      var m :| m in ms && x in Chain(tree, m, rk);
      if m != last {
        assert m in init;
      }
    }
  }

  lemma {:induction false} PathsMembers(tree: seq<Node>, ms: seq<Node>, rk: Ranking, x: Id)
    requires Ranked(tree, rk) && forall m :: m in ms ==> m in tree
    ensures x in PathsOf(tree, ms, rk) <==> OnSomeChain(tree, ms, rk, x)
  {
    if ms != [] {
      var init, last := ms[..|ms| - 1], ms[|ms| - 1];
      assert ms == init + [last];
      assert forall m :: m in init ==> m in ms;
      var before := PathsOf(tree, init, rk);
      var chain := Chain(tree, last, rk);
      assert PathsOf(tree, ms, rk) == AddAll(before, chain);
      PathsMembers(tree, init, rk, x);
      AddAllMembers(before, chain);
      OnSomeChainSnoc(tree, init, last, rk, x);
    }
  }

  lemma {:induction false} PathsNoDuplicates(tree: seq<Node>, ms: seq<Node>, rk: Ranking)
    requires Ranked(tree, rk) && forall m :: m in ms ==> m in tree
    ensures NoDuplicates(PathsOf(tree, ms, rk))
  {
    if ms != [] {
      var init := ms[..|ms| - 1];
      assert forall m :: m in init ==> m in ms;
      PathsNoDuplicates(tree, init, rk);
      AddAllNoDuplicates(PathsOf(tree, init, rk), Chain(tree, ms[|ms| - 1], rk));
    }
  }

  /** Each id on a chain belongs to a tree node whose parent, if the tree has it, is on the chain too. */
  lemma {:induction false} ChainSteps(tree: seq<Node>, n: Node, rk: Ranking, x: Id)
    requires Ranked(tree, rk) && n in tree && x in Chain(tree, n, rk)
    ensures exists d :: d in tree && d.id == x && (Find(tree, d.parent).Some? ==> d.parent in Chain(tree, n, rk))
    decreases rk.bound - rk.rank(n.id)
  {
    var f := Find(tree, n.parent);
    if x == n.id {
      if f.Some? {
        assert Chain(tree, n, rk) == [n.id] + Chain(tree, f.value, rk);
        assert Chain(tree, f.value, rk)[0] == n.parent;
      }
    } else {
      assert f.Some?;
      var p := f.value;
      assert Chain(tree, n, rk) == [n.id] + Chain(tree, p, rk);
      ChainSteps(tree, p, rk, x);
      var d :| d in tree && d.id == x && (Find(tree, d.parent).Some? ==> d.parent in Chain(tree, p, rk));
    }
  }

  lemma IdsCons(p: Node, rest: seq<Node>)
    ensures Ids([p] + rest) == [p.id] + Ids(rest)
  {
  }

  /** When no node has a falsy id, the chain is the node followed by the `getAllParents` chain of `useTreeSearch`. */
  lemma {:induction false} ChainIsParentChain(tree: seq<Node>, n: Node, rk: Ranking)
    requires Ranked(tree, rk) && n in tree
    requires forall m :: m in tree ==> Truthy(m.id)
    ensures Chain(tree, n, rk) == [n.id] + Ids(ParentChain(tree, n, rk))
    decreases rk.bound - rk.rank(n.id)
  {
    var f := Find(tree, n.parent);
    if f.Some? {
      var p := f.value;
      assert Truthy(n.parent);
      ChainIsParentChain(tree, p, rk);
      assert ParentChain(tree, n, rk) == [p] + ParentChain(tree, p, rk);
      IdsCons(p, ParentChain(tree, p, rk));
    } else {
      assert ParentChain(tree, n, rk) == [];
    }
  }

  /** The paths of some tree nodes and the tree filtered to them. */
  lemma PathsOfMatches(tree: seq<Node>, ms: seq<Node>, rk: Ranking)
    requires Ranked(tree, rk) && forall m :: m in ms ==> m in tree
    ensures NoDuplicates(PathsOf(tree, ms, rk))
    ensures forall x :: x in PathsOf(tree, ms, rk) <==> OnSomeChain(tree, ms, rk, x)
    ensures forall n :: n in Filter(InPaths(PathsOf(tree, ms, rk)), tree) <==> n in tree && n.id in PathsOf(tree, ms, rk)
    ensures forall m :: m in ms ==> m in Filter(InPaths(PathsOf(tree, ms, rk)), tree)
  {
    var paths := PathsOf(tree, ms, rk);
    PathsNoDuplicates(tree, ms, rk);
    forall x ensures x in paths <==> OnSomeChain(tree, ms, rk, x) {
      PathsMembers(tree, ms, rk, x);
    }
    forall m | m in ms ensures m.id in paths {
      assert Chain(tree, m, rk)[0] == m.id;
      PathsMembers(tree, ms, rk, m.id);
    }
  }

  /**
   * For a term: the paths have no repeated id and hold exactly the ids on
   * the matches' chains; the filtered tree holds the tree's nodes on those
   * paths in tree order, so it holds every match.
   */
  lemma MemoPaths(tree: seq<Node>, term: Option<string>, rk: Ranking)
    requires Ranked(tree, rk) && HasTerm(term)
    ensures var memo := MemoSpec(tree, term, rk);
            && NoDuplicates(memo.searchPaths)
            && (forall x :: x in memo.searchPaths <==> OnSomeChain(tree, memo.searchResults, rk, x))
            && memo.filteredTree == Filter(InPaths(memo.searchPaths), tree)
            && (forall n :: n in memo.filteredTree <==> n in tree && n.id in memo.searchPaths)
            && (forall m :: m in memo.searchResults ==> m in memo.filteredTree)
  {
    var ms := Filter(TextMatches(Lower(term.value)), tree);
    PathsOfMatches(tree, ms, rk);
  }

  /** With unique ids, the paths of some matches are closed upwards through the tree's parent links. */
  lemma PathsClosedUpwards(tree: seq<Node>, ms: seq<Node>, rk: Ranking)
    requires Ranked(tree, rk) && UniqueIds(tree) && forall m :: m in ms ==> m in tree
    ensures var paths := PathsOf(tree, ms, rk);
            forall n, p :: n in tree && n.id in paths && p in tree && p.id == n.parent ==> p.id in paths
  {
    var paths := PathsOf(tree, ms, rk);
    forall n, p | n in tree && n.id in paths && p in tree && p.id == n.parent ensures p.id in paths {
      PathsMembers(tree, ms, rk, n.id);
      var m :| m in ms && n.id in Chain(tree, m, rk);
      ChainSteps(tree, m, rk, n.id);
      var d :| d in tree && d.id == n.id && (Find(tree, d.parent).Some? ==> d.parent in Chain(tree, m, rk));
      SameIdSameNode(tree, d, n);
      assert Find(tree, n.parent).Some?;
      PathsMembers(tree, ms, rk, p.id);
    }
  }

  /** With unique ids, the filtered tree is closed upwards: the parent of a kept node, when the tree has it, is kept too. */
  lemma MemoClosedUpwards(tree: seq<Node>, term: Option<string>, rk: Ranking)
    requires Ranked(tree, rk) && UniqueIds(tree) && HasTerm(term)
    ensures var memo := MemoSpec(tree, term, rk);
            forall n, p :: n in memo.filteredTree && p in tree && p.id == n.parent ==> p in memo.filteredTree
  {
    var ms := Filter(TextMatches(Lower(term.value)), tree);
    PathsOfMatches(tree, ms, rk);
    PathsClosedUpwards(tree, ms, rk);
  }

  lemma SameIdSameNode(tree: seq<Node>, a: Node, b: Node)
    requires UniqueIds(tree) && a in tree && b in tree && a.id == b.id
    ensures a == b
  {
    var i :| 0 <= i < |tree| && tree[i] == a;
    var j :| 0 <= j < |tree| && tree[j] == b;
  }

  // ---------------------------------------------------------------------
  // The context value

  /** The virtualisation defaults: off, 50 rows, 32 pixels, 5 rows of overscan, `"600px"`. */
  const DefaultVirtualize := VirtualizeOptions(false, Some(50), Some(32), Some(5), Some("600px"))

  /** `{...defaults, ...given}`: every setting the host gives replaces the default. */
  function MergeVirtualize(defaults: VirtualizeOptions, given: VirtualizeOptions): (r: VirtualizeOptions)
    ensures r.enabled == given.enabled
    ensures given.threshold.Some? ==> r.threshold == given.threshold
    ensures given.threshold.None? ==> r.threshold == defaults.threshold
    ensures given.itemHeight.Some? ==> r.itemHeight == given.itemHeight
    ensures given.itemHeight.None? ==> r.itemHeight == defaults.itemHeight
    ensures given.overscan.Some? ==> r.overscan == given.overscan
    ensures given.overscan.None? ==> r.overscan == defaults.overscan
    ensures given.containerHeight.Some? ==> r.containerHeight == given.containerHeight
    ensures given.containerHeight.None? ==> r.containerHeight == defaults.containerHeight
  {
    VirtualizeOptions(
      given.enabled,
      if given.threshold.Some? then given.threshold else defaults.threshold,
      if given.itemHeight.Some? then given.itemHeight else defaults.itemHeight,
      if given.overscan.Some? then given.overscan else defaults.overscan,
      if given.containerHeight.Some? then given.containerHeight else defaults.containerHeight)
  }

  /**
   * The `value` object: the defaults, then every prop (so a given
   * `virtualizeOptions` replaces the merged one), then the search-narrowed
   * tree, the open ids and the search results.
   */
  method ProvideContext(props: TreeProps, openIds: seq<Id>, ghost rk: Ranking) returns (state: TreeState)
    requires Ranked(props.tree, rk)
    ensures var memo := MemoSpec(props.tree, props.searchTerm, rk);
            && state.tree == (if HasTerm(props.searchTerm) then memo.filteredTree else props.tree)
            && state.searchResults == memo.searchResults
    ensures state.rootId == props.rootId && state.openIds == openIds
    ensures state.sort == props.sort.GetOr(ByDefault)
    ensures state.insertDroppableFirst == props.insertDroppableFirst.GetOr(true)
    ensures state.virtualizeOptions == Some(props.virtualizeOptions.GetOr(DefaultVirtualize))
  {
    var memo := SearchTree(props.tree, props.searchTerm, rk);
    var merged := if props.virtualizeOptions.Some? then MergeVirtualize(DefaultVirtualize, props.virtualizeOptions.value) else DefaultVirtualize;
    var virtualize := if props.virtualizeOptions.Some? then props.virtualizeOptions.value else merged;
    state := TreeState(
      if HasTerm(props.searchTerm) then memo.filteredTree else props.tree,
      props.rootId,
      props.sort.GetOr(ByDefault),
      props.insertDroppableFirst.GetOr(true),
      openIds,
      Some(virtualize),
      memo.searchResults);
  }

  /** Whatever the term, the context tree is the memo's filtered tree, a subset of the props' tree. */
  lemma ContextTreeIsFiltered(tree: seq<Node>, term: Option<string>, rk: Ranking)
    requires Ranked(tree, rk)
    ensures var memo := MemoSpec(tree, term, rk);
            && (if HasTerm(term) then memo.filteredTree else tree) == memo.filteredTree
            && forall n :: n in memo.filteredTree ==> n in tree
  {
  }

  /**
   * The given `virtualizeOptions` replacing the merged ones changes nothing
   * the container sees: its `||` fallbacks are the same defaults, so the
   * windowing decision and the settings handed to the windowing library agree.
   * Without the prop, windowing stays off and the settings are the defaults.
   */
  lemma VirtualizeMergeHarmless(given: VirtualizeOptions, isRoot: bool, count: int)
    ensures ShouldUseVirtual(isRoot, Some(MergeVirtualize(DefaultVirtualize, given)), count)
            == ShouldUseVirtual(isRoot, Some(given), count)
    ensures VirtualizerOf(Some(MergeVirtualize(DefaultVirtualize, given)), count)
            == VirtualizerOf(Some(given), count)
    ensures !ShouldUseVirtual(isRoot, Some(DefaultVirtualize), count)
    ensures VirtualizerOf(Some(DefaultVirtualize), count) == VirtualizerOf(None, count)
  {
  }

  // ---------------------------------------------------------------------
  // Dropping

  /** The description of a drop handed to the host. The drag monitor is not modelled. */
  datatype DropOptions = DropOptions(
    dragSourceId: Option<Id>,
    dropTargetId: Id,
    dragSource: Option<Node>,
    dropTarget: Option<Node>,
    destinationIndex: Option<int>,
    relativeIndex: Option<int>)

  /** The imported helpers the drop handler calls, whose behaviour is not modelled. */
  datatype DropHelpers = DropHelpers(
    getTreeItem: (seq<Node>, Id) -> Option<Node>,
    getDestIndex: (seq<Node>, Id, int) -> int,
    getModifiedIndex: (seq<Node>, Id, Id, int) -> (int, int),
    mutateTree: (seq<Node>, Id, Id) -> seq<Node>,
    mutateTreeWithIndex: (seq<Node>, Id, Id, int) -> seq<Node>)

  /** One call of the host's `onDrop`: the new tree and the options. */
  datatype DropCall = DropCall(tree: seq<Node>, options: DropOptions)

  /** The tree the mutation works on: the props' tree, with the source appended when the tree does not have it. */
  function WorkingTree(helpers: DropHelpers, tree: seq<Node>, source: Node): (r: seq<Node>)
    ensures r == tree || r == tree + [source]
    ensures source in r || helpers.getTreeItem(tree, source.id).Some?
  {
    if helpers.getTreeItem(tree, source.id).None? then tree + [source] else tree
  }

  /** The `onDrop` handler of the context: what it passes to the host's `onDrop`. */
  method OnDrop(props: TreeProps, helpers: DropHelpers, dragSource: Option<Node>, dropTargetId: Id, placeholderIndex: int)
    returns (call: DropCall)
    ensures call.options.dropTargetId == dropTargetId
    ensures call.options.dropTarget == helpers.getTreeItem(props.tree, dropTargetId)
    ensures call.options.dragSource == dragSource
    ensures call.options.dragSourceId == (if dragSource.Some? then Some(dragSource.value.id) else None)
    ensures call.options.destinationIndex.Some? <==> props.sort == Some(Unsorted)
    ensures call.options.relativeIndex == (if props.sort == Some(Unsorted) then Some(placeholderIndex) else None)
    ensures dragSource.None? ==> call.tree == props.tree
    ensures dragSource.None? && props.sort == Some(Unsorted) ==>
              call.options.destinationIndex == Some(helpers.getDestIndex(props.tree, dropTargetId, placeholderIndex))
    ensures dragSource.Some? ==>
              var src := dragSource.value;
              var work := WorkingTree(helpers, props.tree, src);
              && (props.sort == Some(Unsorted) ==>
                    && call.tree == helpers.mutateTreeWithIndex(work, src.id, dropTargetId, placeholderIndex)
                    && call.options.destinationIndex == Some(helpers.getModifiedIndex(work, src.id, dropTargetId, placeholderIndex).1))
              && (props.sort != Some(Unsorted) ==> call.tree == helpers.mutateTree(work, src.id, dropTargetId))
  {
    if dragSource.None? {
      var options := DropOptions(None, dropTargetId, None, helpers.getTreeItem(props.tree, dropTargetId), None, None);
      if props.sort == Some(Unsorted) {
        options := options.(destinationIndex := Some(helpers.getDestIndex(props.tree, dropTargetId, placeholderIndex)));
        options := options.(relativeIndex := Some(placeholderIndex));
      }
      return DropCall(props.tree, options);
    }
    var src := dragSource.value;
    var options := DropOptions(Some(src.id), dropTargetId, Some(src), helpers.getTreeItem(props.tree, dropTargetId), None, None);
    var tree := props.tree;
    if helpers.getTreeItem(tree, src.id).None? {
      tree := tree + [src];
    }
    if props.sort == Some(Unsorted) {
      var (_, destIndex) := helpers.getModifiedIndex(tree, src.id, dropTargetId, placeholderIndex);
      options := options.(destinationIndex := Some(destIndex));
      options := options.(relativeIndex := Some(placeholderIndex));
      return DropCall(helpers.mutateTreeWithIndex(tree, src.id, dropTargetId, placeholderIndex), options);
    }
    return DropCall(helpers.mutateTree(tree, src.id, dropTargetId), options);
  }

  /**
   * When `getTreeItem` finds exactly the nodes `find` finds, the working
   * tree always holds a node with the source's id, and it is the props'
   * tree unchanged exactly when that tree already has one.
   */
  lemma WorkingTreeHasSource(helpers: DropHelpers, tree: seq<Node>, source: Node)
    requires forall t, id :: helpers.getTreeItem(t, id).Some? <==> Find(t, id).Some?
    ensures exists n :: n in WorkingTree(helpers, tree, source) && n.id == source.id
    ensures WorkingTree(helpers, tree, source) == tree <==> exists n :: n in tree && n.id == source.id
  {
    if Find(tree, source.id).None? {
      assert WorkingTree(helpers, tree, source) == tree + [source];
      assert source in tree + [source];
      assert |tree + [source]| != |tree|;
    }
  }

  // ---------------------------------------------------------------------
  // Vetoes

  /** The context's `canDrop`: the host's callback, given the props' tree and the drop described, or absent; its answer, `undefined` included, is passed on as it is. */
  function WrapCanDrop(props: TreeProps, getTreeItem: (seq<Node>, Id) -> Option<Node>):
    (r: Option<(Option<Id>, Id, Option<Node>) -> Option<bool>>)
    ensures r.Some? <==> props.canDrop.Some?
    ensures r.Some? ==> forall sourceId, targetId, item ::
              r.value(sourceId, targetId, item)
              == props.canDrop.value(props.tree, DropOptions(sourceId, targetId, item, getTreeItem(props.tree, targetId), None, None))
  {
    if props.canDrop.None? then None
    else
      var cb := props.canDrop.value;
      var tree := props.tree;
      Some((sourceId: Option<Id>, targetId: Id, item: Option<Node>) =>
        cb(tree, DropOptions(sourceId, targetId, item, getTreeItem(tree, targetId), None, None)))
  }

  /** The context's `canDrag`: the host's callback applied to the node the props' tree has for the id, or absent. */
  function WrapCanDrag(props: TreeProps, getTreeItem: (seq<Node>, Id) -> Option<Node>): (r: Option<Id -> bool>)
    ensures r.Some? <==> props.canDrag.Some?
    ensures r.Some? ==> forall id :: r.value(id) == props.canDrag.value(getTreeItem(props.tree, id))
  {
    if props.canDrag.None? then None
    else
      var cb := props.canDrag.value;
      var tree := props.tree;
      Some((id: Id) => cb(getTreeItem(tree, id)))
  }
}
