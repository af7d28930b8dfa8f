/**
 * `useTreeSearch`: scans the tree in order with a search function, keeps
 * at most `maxResults` matches, and gathers into an insertion-ordered set
 * the ids of the matches and, by option, of their ancestors and their
 * descendants; `filteredTree` lists the nodes of that set.
 */
module TreeSearch {
  import opened TreeModel
  import opened Text
  import opened Index

  /** A search function: the term, a node, and the helpers built on the index. */
  type SearchFunction = (string, Node, SearchIndex) -> bool

  /** `defaultSearchFn`: the lower-cased text contains the lower-cased term. */
  function DefaultSearch(term: string, node: Node, helpers: SearchIndex): bool {
    Contains(Lower(node.text), Lower(term))
  }

  /** The default search ignores letter case, in the term and in the text, and finds every literal occurrence. */
  lemma DefaultSearchIgnoresCase(term: string, node: Node, helpers: SearchIndex)
    ensures DefaultSearch(term, node, helpers) == DefaultSearch(Lower(term), node, helpers)
    ensures DefaultSearch(term, node, helpers) == DefaultSearch(term, node.(text := Lower(node.text)), helpers)
    ensures (exists i :: OccursAt(node.text, term, i)) ==> DefaultSearch(term, node, helpers)
  {
    LowerIdempotent(term);
    LowerIdempotent(node.text);
    if exists i :: OccursAt(node.text, term, i) {
      var i :| OccursAt(node.text, term, i);
      LowerKeepsOccurrence(node.text, term, i);
    }
  }

  /** The options a caller may pass; every one is optional. */
  datatype TreeSearchOptions = TreeSearchOptions(
    searchFn: Option<SearchFunction>,
    includeParents: Option<bool>,
    includeChildren: Option<bool>,
    minSearchLength: Option<int>,
    maxResults: Option<int>)

  /** `searchOptions` once the defaults are filled in. */
  datatype Settings = Settings(includeParents: bool, includeChildren: bool, minSearchLength: int, maxResults: int)

  /** `x ?? fallback` */
  function OrElse<T>(x: Option<T>, fallback: T): T {
    if x.Some? then x.value else fallback
  }

  /** The `searchOptions` memo: `?? true`, `?? false`, `?? 2` and `?? 1000`. */
  function SettingsOf(options: Option<TreeSearchOptions>): (st: Settings)
    ensures options.None? ==> st == Settings(true, false, 2, 1000)
    ensures options.Some? && options.value.maxResults == Some(0) ==> st.maxResults == 0
  {
    if options.None? then Settings(true, false, 2, 1000)
    else
      var o := options.value;
      Settings(OrElse(o.includeParents, true), OrElse(o.includeChildren, false),
               OrElse(o.minSearchLength, 2), OrElse(o.maxResults, 1000))
  }

  /** `options?.searchFn || defaultSearchFn` */
  function SearchFnOf(options: Option<TreeSearchOptions>): SearchFunction {
    if options.Some? && options.value.searchFn.Some? then options.value.searchFn.value else DefaultSearch
  }

  /** The node test of the scan, as one value so that every use of it is the same function. */
  function MatchesBy(searchFn: SearchFunction, term: string, idx: SearchIndex): Node -> bool {
    n => searchFn(term, n, idx)
  }

  /** What the hook returns. */
  datatype SearchResult = SearchResult(
    matches: seq<Node>,
    openIds: seq<Id>,
    filteredTree: seq<Node>,
    totalMatches: int,
    hasMore: bool)

  // ---------------------------------------------------------------------
  // The insertion-ordered id set

  /** `set.add(x)` on a set kept as the sequence of its elements in insertion order. */
  function Add(s: seq<Id>, x: Id): seq<Id> {
    if x in s then s else s + [x]
  }

  /** `xs.forEach(x => set.add(x))` */
  function AddAll(s: seq<Id>, xs: seq<Id>): seq<Id>
    decreases |xs|
  {
    if xs == [] then s else AddAll(Add(s, xs[0]), xs[1..])
  }

  lemma {:induction false} AddAllMembers(s: seq<Id>, xs: seq<Id>)
    ensures forall x :: x in AddAll(s, xs) <==> x in s || x in xs
    decreases |xs|
  {
    if xs != [] {
      AddAllMembers(Add(s, xs[0]), xs[1..]);
      assert xs == [xs[0]] + xs[1..];
    }
  }

  lemma {:induction false} AddAllNoDuplicates(s: seq<Id>, xs: seq<Id>)
    requires NoDuplicates(s)
    ensures NoDuplicates(AddAll(s, xs))
    decreases |xs|
  {
    if xs != [] {
      AddAllNoDuplicates(Add(s, xs[0]), xs[1..]);
    }
  }

  lemma {:induction false} AddAllConcat(s: seq<Id>, a: seq<Id>, b: seq<Id>)
    ensures AddAll(s, a + b) == AddAll(AddAll(s, a), b)
    decreases |a|
  {
    if a == [] {
      assert a + b == b;
    } else {
      assert (a + b)[0] == a[0] && (a + b)[1..] == a[1..] + b;
      AddAllConcat(Add(s, a[0]), a[1..], b);
    }
  }

  /** The `forEach` that adds the ids of some nodes to the set. */
  method AddIds(s: seq<Id>, nodes: seq<Node>) returns (r: seq<Id>)
    ensures r == AddAll(s, Ids(nodes))
  {
    r := s;
    var i := 0;
    while i < |nodes|
      invariant 0 <= i <= |nodes|
      invariant r == AddAll(s, Ids(nodes[..i]))
    {
      assert Ids(nodes[..i + 1]) == Ids(nodes[..i]) + [nodes[i].id];
      AddAllConcat(s, Ids(nodes[..i]), [nodes[i].id]);
      r := Add(r, nodes[i].id);
      i := i + 1;
    }
    assert nodes[..i] == nodes;
  }

  // ---------------------------------------------------------------------
  // The specification of the hook

  /** What one match adds to the set: its id, then its ancestors' and its descendants' ids as the options ask. */
  ghost function Contribution(idx: SearchIndex, st: Settings, n: Node, rk: Ranking): seq<Id>
    requires IndexRanked(idx, rk)
  {
    [n.id]
    + (if st.includeParents then Ids(Ancestors(idx, n.id, rk)) else [])
    + (if st.includeChildren then Ids(Descendants(idx, n.id, rk)) else [])
  }

  /** The set after the contributions of `ms`, in order. */
  ghost function ResultIds(idx: SearchIndex, st: Settings, ms: seq<Node>, rk: Ranking): seq<Id>
    requires IndexRanked(idx, rk)
  {
    if ms == [] then []
    else AddAll(ResultIds(idx, st, ms[..|ms| - 1], rk), Contribution(idx, st, ms[|ms| - 1], rk))
  }

  /** How many matches the scan keeps before `matches.length >= maxResults` stops it. */
  function Cap(found: int, maxResults: int): int {
    if maxResults <= 0 then 0 else if found < maxResults then found else maxResults
  }

  ghost function SearchSpec(tree: seq<Node>, searchTerm: string, options: Option<TreeSearchOptions>, rk: Ranking): SearchResult
    requires Ranked(tree, rk)
  {
    var st := SettingsOf(options);
    var idx := IndexOf(tree);
    IndexOfRanked(tree, rk);
    if searchTerm == "" || Utf16Length(searchTerm) < st.minSearchLength then SearchResult([], [], tree, 0, false)
    else
      var all := Filter(MatchesBy(SearchFnOf(options), searchTerm, idx), tree);
      assert 0 <= Cap(|all|, st.maxResults) <= |all|;
      var matches := all[..Cap(|all|, st.maxResults)];
      var openIds := ResultIds(idx, st, matches, rk);
      SearchResult(matches, openIds, NodesOf(idx, openIds), |matches|, |matches| >= st.maxResults)
  }

  lemma {:induction false} FilterPrefix(p: Node -> bool, tree: seq<Node>, i: int)
    requires 0 <= i <= |tree|
    ensures |Filter(p, tree[..i])| <= |Filter(p, tree)|
    ensures Filter(p, tree[..i]) == Filter(p, tree)[..|Filter(p, tree[..i])|]
  {
    assert tree == tree[..i] + tree[i..];
    FilterConcat(p, tree[..i], tree[i..]);
  }

  lemma FilterSnoc(p: Node -> bool, tree: seq<Node>, i: int)
    requires 0 <= i < |tree|
    ensures Filter(p, tree[..i + 1]) == Filter(p, tree[..i]) + (if p(tree[i]) then [tree[i]] else [])
  {
    assert tree[..i + 1] == tree[..i] + [tree[i]];
    FilterConcat(p, tree[..i], [tree[i]]);
  }

  /** One step of the scan: the node at `i` joins the matches exactly when it matches. */
  lemma ScanStep(p: Node -> bool, tree: seq<Node>, i: int, matches: seq<Node>)
    requires 0 <= i < |tree| && matches == Filter(p, tree[..i])
    ensures p(tree[i]) ==> Filter(p, tree[..i + 1]) == matches + [tree[i]]
    ensures !p(tree[i]) ==> Filter(p, tree[..i + 1]) == matches
  {
    FilterSnoc(p, tree, i);
  }

  lemma ResultIdsSnoc(idx: SearchIndex, st: Settings, ms: seq<Node>, n: Node, rk: Ranking)
    requires IndexRanked(idx, rk)
    ensures ResultIds(idx, st, ms + [n], rk) == AddAll(ResultIds(idx, st, ms, rk), Contribution(idx, st, n, rk))
  {
    assert (ms + [n])[..|ms|] == ms;
  }

  /** The body of the scan for a match: add its id, then its ancestors' and descendants' ids as asked. */
  method AddMatch(resultIds: seq<Id>, node: Node, idx: SearchIndex, st: Settings, ghost rk: Ranking)
    returns (r: seq<Id>)
    requires IndexRanked(idx, rk)
    ensures r == AddAll(resultIds, Contribution(idx, st, node, rk))
  {
    r := Add(resultIds, node.id);
    assert r == AddAll(resultIds, [node.id]);
    ghost var parentIds: seq<Id> := [];
    ghost var childIds: seq<Id> := [];
    if st.includeParents {
      var parents := GetAllParents(idx, node.id, rk);
      parentIds := Ids(parents);
      r := AddIds(r, parents);
    }
    if st.includeChildren {
      var children := GetAllChildren(idx, node.id, rk);
      childIds := Ids(children);
      r := AddIds(r, children);
    }
    AddAllConcat(resultIds, [node.id], parentIds);
    AddAllConcat(resultIds, [node.id] + parentIds, childIds);
  }

  /** Where the scan stops: the matches it keeps are the first `Cap` matches of the whole tree. */
  lemma ScanStops(p: Node -> bool, tree: seq<Node>, i: int, matches: seq<Node>, maxResults: int)
    requires 0 <= i <= |tree|
    requires matches == Filter(p, tree[..i])
    requires |matches| <= if maxResults <= 0 then 0 else maxResults
    requires i == |tree| || |matches| >= maxResults
    ensures 0 <= Cap(|Filter(p, tree)|, maxResults) <= |Filter(p, tree)|
    ensures matches == Filter(p, tree)[..Cap(|Filter(p, tree)|, maxResults)]
  {
    FilterPrefix(p, tree, i);
    assert tree[..|tree|] == tree;
  }

  /**
   * `useTreeSearch(tree, searchTerm, options)`. The search helpers are the
   * index itself; the ghost ranking stands for the acyclicity the ancestor
   * and descendant walks need to end.
   */
  method UseTreeSearch(tree: seq<Node>, searchTerm: string, options: Option<TreeSearchOptions>, ghost rk: Ranking)
    returns (res: SearchResult)
    requires Ranked(tree, rk)
    ensures res == SearchSpec(tree, searchTerm, options, rk)
  {
    var searchFn := SearchFnOf(options);
    var searchOptions := SettingsOf(options);
    var searchIndex := BuildIndex(tree);
    IndexOfRanked(tree, rk);
    if searchTerm == "" || Utf16Length(searchTerm) < searchOptions.minSearchLength {
      return SearchResult([], [], tree, 0, false);
    }
    var matches, resultIds := Scan(tree, searchTerm, searchFn, searchIndex, searchOptions, rk);
    var filteredTree := NodesOf(searchIndex, resultIds);
    res := SearchResult(matches, resultIds, filteredTree, |matches|, |matches| >= searchOptions.maxResults);
  }

  /** The state after the `for` loop has tested the first `i` nodes. */
  ghost predicate Scanned(p: Node -> bool, tree: seq<Node>, i: int, matches: seq<Node>, resultIds: seq<Id>,
                          idx: SearchIndex, st: Settings, rk: Ranking)
    requires IndexRanked(idx, rk)
  {
    && 0 <= i <= |tree|
    && matches == Filter(p, tree[..i])
    && |matches| <= (if st.maxResults <= 0 then 0 else st.maxResults)
    && resultIds == ResultIds(idx, st, matches, rk)
  }

  /** The body of the `for` loop for the node at `i`, once it is reached: a match is kept and its ids are added. */
  method Visit(tree: seq<Node>, i: int, matches: seq<Node>, resultIds: seq<Id>, searchTerm: string,
               searchFn: SearchFunction, idx: SearchIndex, st: Settings, ghost rk: Ranking)
    returns (matches': seq<Node>, resultIds': seq<Id>)
    requires IndexRanked(idx, rk) && i < |tree| && |matches| < st.maxResults
    requires Scanned(MatchesBy(searchFn, searchTerm, idx), tree, i, matches, resultIds, idx, st, rk)
    ensures Scanned(MatchesBy(searchFn, searchTerm, idx), tree, i + 1, matches', resultIds', idx, st, rk)
    ensures matches' == Filter(MatchesBy(searchFn, searchTerm, idx), tree[..i + 1])
    ensures |matches'| <= |matches| + 1
    ensures resultIds' == ResultIds(idx, st, matches', rk)
  {
    ScanStep(MatchesBy(searchFn, searchTerm, idx), tree, i, matches);
    matches', resultIds' := matches, resultIds;
    var node := tree[i];
    if searchFn(searchTerm, node, idx) {
      ResultIdsSnoc(idx, st, matches, node, rk);
      matches' := matches + [node];
      resultIds' := AddMatch(resultIds, node, idx, st, rk);
    }
  }

  /**
   * The `for` loop of the search: tests the nodes in tree order, stops
   * before the next node once `maxResults` matches are kept, and adds each
   * match's ids to the result set.
   */
  method Scan(tree: seq<Node>, searchTerm: string, searchFn: SearchFunction, idx: SearchIndex, st: Settings, ghost rk: Ranking)
    returns (matches: seq<Node>, resultIds: seq<Id>)
    requires IndexRanked(idx, rk)
    ensures var all := Filter(MatchesBy(searchFn, searchTerm, idx), tree);
            && 0 <= Cap(|all|, st.maxResults) <= |all|
            && matches == all[..Cap(|all|, st.maxResults)]
    ensures resultIds == ResultIds(idx, st, matches, rk)
  {
    ghost var p := MatchesBy(searchFn, searchTerm, idx);
    resultIds := [];
    matches := [];
    var i := 0;
    while i < |tree|
      invariant Scanned(p, tree, i, matches, resultIds, idx, st, rk)
    {
      if |matches| >= st.maxResults {
        break;
      }
      matches, resultIds := Visit(tree, i, matches, resultIds, searchTerm, searchFn, idx, st, rk);
      i := i + 1;
    }
    ScanStops(p, tree, i, matches, st.maxResults);
  }

  // ---------------------------------------------------------------------
  // Properties of the result

  /** A term that is empty or shorter than `minSearchLength` finds nothing and leaves the tree whole. */
  lemma ShortTermFindsNothing(tree: seq<Node>, searchTerm: string, options: Option<TreeSearchOptions>, rk: Ranking)
    requires Ranked(tree, rk)
    requires searchTerm == "" || Utf16Length(searchTerm) < SettingsOf(options).minSearchLength
    ensures SearchSpec(tree, searchTerm, options, rk) == SearchResult([], [], tree, 0, false)
  {
  }

  /** With the default options a single emoji, two code units long, is long enough to be searched. */
  lemma EmojiTermIsSearched(tree: seq<Node>, rk: Ranking)
    requires Ranked(tree, rk)
    ensures var r := SearchSpec(tree, "\U{1F600}", None, rk);
            var all := Filter(MatchesBy(SearchFnOf(None), "\U{1F600}", IndexOf(tree)), tree);
            && |r.matches| == (if |all| < 1000 then |all| else 1000)
            && r.matches == all[..|r.matches|]
  {
    EmojiLength();
    SearchMatches(tree, "\U{1F600}", None, rk);
  }

  /**
   * The matches are the first matching nodes of the tree in tree order, as
   * many as `maxResults` allows; `hasMore` holds exactly when the limit is
   * not positive or at least that many nodes match, so it also holds when
   * exactly `maxResults` nodes match and none is left out.
   */
  lemma SearchMatches(tree: seq<Node>, searchTerm: string, options: Option<TreeSearchOptions>, rk: Ranking)
    requires Ranked(tree, rk)
    requires searchTerm != "" && Utf16Length(searchTerm) >= SettingsOf(options).minSearchLength
    ensures var r := SearchSpec(tree, searchTerm, options, rk);
            var fn := SearchFnOf(options);
            var max := SettingsOf(options).maxResults;
            var all := Filter(MatchesBy(fn, searchTerm, IndexOf(tree)), tree);
            && (forall m :: m in r.matches ==> m in tree && fn(searchTerm, m, IndexOf(tree)))
            && |r.matches| <= |all|
            && r.matches == all[..|r.matches|]
            && |r.matches| == (if max <= 0 then 0 else if |all| < max then |all| else max)
            && r.totalMatches == |r.matches|
            && (r.hasMore <==> max <= 0 || |all| >= max)
            && (!r.hasMore ==> r.matches == all)
  {
    var all := Filter(MatchesBy(SearchFnOf(options), searchTerm, IndexOf(tree)), tree);
    var r := SearchSpec(tree, searchTerm, options, rk);
    forall m | m in r.matches ensures m in all {
      var k :| 0 <= k < |r.matches| && r.matches[k] == m;
      assert all[k] == m;
    }
  }

  lemma {:induction false} ResultIdsMembers(idx: SearchIndex, st: Settings, ms: seq<Node>, rk: Ranking, x: Id)
    requires IndexRanked(idx, rk)
    ensures x in ResultIds(idx, st, ms, rk) <==> exists m :: m in ms && x in Contribution(idx, st, m, rk)
  {
    if ms != [] {
      var init, last := ms[..|ms| - 1], ms[|ms| - 1];
      ResultIdsMembers(idx, st, init, rk, x);
      AddAllMembers(ResultIds(idx, st, init, rk), Contribution(idx, st, last, rk));
      assert ms == init + [last];
    }
  }

  lemma {:induction false} ResultIdsNoDuplicates(idx: SearchIndex, st: Settings, ms: seq<Node>, rk: Ranking)
    requires IndexRanked(idx, rk)
    ensures NoDuplicates(ResultIds(idx, st, ms, rk))
  {
    if ms != [] {
      ResultIdsNoDuplicates(idx, st, ms[..|ms| - 1], rk);
      AddAllNoDuplicates(ResultIds(idx, st, ms[..|ms| - 1], rk), Contribution(idx, st, ms[|ms| - 1], rk));
    }
  }

  /** Every id a node contributes is a stored id. */
  lemma ContributionStored(idx: SearchIndex, st: Settings, m: Node, rk: Ranking)
    requires IndexRanked(idx, rk) && Keyed(idx) && m.id in idx.nodeMap
    ensures forall x :: x in Contribution(idx, st, m, rk) ==> x in idx.nodeMap
  {
    var anc, desc := Ancestors(idx, m.id, rk), Descendants(idx, m.id, rk);
    AncestorsStored(idx, Lookup(idx.parentMap, m.id), rk);
    DescendantsStored(idx, m.id, rk);
    assert forall j :: 0 <= j < |anc| ==> Ids(anc)[j] in idx.nodeMap by {
      forall j | 0 <= j < |anc| ensures Ids(anc)[j] in idx.nodeMap {
        assert anc[j] in anc;
      }
    }
    assert forall j :: 0 <= j < |desc| ==> Ids(desc)[j] in idx.nodeMap by {
      forall j | 0 <= j < |desc| ensures Ids(desc)[j] in idx.nodeMap {
        assert desc[j] in desc;
      }
    }
  }

  /** The nodes looked up for stored ids of a tree's index are tree nodes with those ids. */
  lemma NodesOfTree(tree: seq<Node>, ids: seq<Id>)
    requires forall k :: k in ids ==> k in IndexOf(tree).nodeMap
    ensures |NodesOf(IndexOf(tree), ids)| == |ids|
    ensures forall k :: 0 <= k < |ids| ==> NodesOf(IndexOf(tree), ids)[k].id == ids[k] && NodesOf(IndexOf(tree), ids)[k] in tree
  {
    var idx := IndexOf(tree);
    NodesOfStored(idx, ids);
    forall k | 0 <= k < |ids| ensures NodesOf(idx, ids)[k].id == ids[k] && NodesOf(idx, ids)[k] in tree {
      assert ids[k] in ids;
      assert NodesOf(idx, ids)[k] == idx.nodeMap[ids[k]];
    }
  }

  /**
   * `openIds` has no repeated id; it holds an id exactly when some kept
   * match contributes it (the match itself, its ancestors when
   * `includeParents`, its descendants when `includeChildren`); and, for a
   * term that is searched, `filteredTree` is the node of each of those ids,
   * in the same order.
   */
  lemma SearchOpenIds(tree: seq<Node>, searchTerm: string, options: Option<TreeSearchOptions>, rk: Ranking)
    requires Ranked(tree, rk)
    ensures IndexRanked(IndexOf(tree), rk)
    ensures NoDuplicates(SearchSpec(tree, searchTerm, options, rk).openIds)
    ensures var r := SearchSpec(tree, searchTerm, options, rk);
            forall x :: x in r.openIds <==> exists m :: m in r.matches && x in Contribution(IndexOf(tree), SettingsOf(options), m, rk)
    ensures var r := SearchSpec(tree, searchTerm, options, rk);
            searchTerm != "" && Utf16Length(searchTerm) >= SettingsOf(options).minSearchLength ==>
              && |r.filteredTree| == |r.openIds|
              && forall k :: 0 <= k < |r.openIds| ==> r.filteredTree[k].id == r.openIds[k] && r.filteredTree[k] in tree
  {
    IndexOfRanked(tree, rk);
    var st := SettingsOf(options);
    if !(searchTerm == "" || Utf16Length(searchTerm) < st.minSearchLength) {
      SearchMatches(tree, searchTerm, options, rk);
      OpenIdsOfMatches(tree, st, SearchSpec(tree, searchTerm, options, rk).matches, rk);
    }
  }

  /** The ids opened for some tree nodes, and the nodes looked up for them. */
  lemma OpenIdsOfMatches(tree: seq<Node>, st: Settings, ms: seq<Node>, rk: Ranking)
    requires Ranked(tree, rk)
    requires forall m :: m in ms ==> m in tree
    ensures IndexRanked(IndexOf(tree), rk)
    ensures NoDuplicates(ResultIds(IndexOf(tree), st, ms, rk))
    ensures forall x :: x in ResultIds(IndexOf(tree), st, ms, rk) <==> exists m :: m in ms && x in Contribution(IndexOf(tree), st, m, rk)
    ensures var ids := ResultIds(IndexOf(tree), st, ms, rk);
            && |NodesOf(IndexOf(tree), ids)| == |ids|
            && forall k :: 0 <= k < |ids| ==> NodesOf(IndexOf(tree), ids)[k].id == ids[k] && NodesOf(IndexOf(tree), ids)[k] in tree
  {
    IndexOfRanked(tree, rk);
    var idx := IndexOf(tree);
    var ids := ResultIds(idx, st, ms, rk);
    ResultIdsNoDuplicates(idx, st, ms, rk);
    forall x ensures x in ids <==> exists m :: m in ms && x in Contribution(idx, st, m, rk) {
      ResultIdsMembers(idx, st, ms, rk, x);
    }
    IndexOfKeyed(tree);
    forall x | x in ids ensures x in idx.nodeMap {
      var m :| m in ms && x in Contribution(idx, st, m, rk);
      ContributionStored(idx, st, m, rk);
    }
    NodesOfTree(tree, ids);
  }

  /** A kept match has its own id, its ancestors' ids and its descendants' ids opened as the settings say. */
  lemma MatchOpensPaths(tree: seq<Node>, st: Settings, m: Node, rk: Ranking)
    requires Ranked(tree, rk) && UniqueIds(tree) && m in tree
    ensures IndexRanked(IndexOf(tree), rk)
    ensures m.id in Contribution(IndexOf(tree), st, m, rk)
    ensures st.includeParents ==> forall a :: a in ParentChain(tree, m, rk) ==> a.id in Contribution(IndexOf(tree), st, m, rk)
    ensures st.includeChildren ==> forall d :: d in Subtree(tree, m.id, rk) ==> d.id in Contribution(IndexOf(tree), st, m, rk)
  {
    IndexOfRanked(tree, rk);
    var idx := IndexOf(tree);
    AncestorsAreParentChain(tree, m, rk);
    DescendantsAreSubtree(tree, m.id, rk);
    var anc, desc := Ancestors(idx, m.id, rk), Descendants(idx, m.id, rk);
    forall a | a in anc ensures a.id in Ids(anc) {
      var j :| 0 <= j < |anc| && anc[j] == a;
      assert Ids(anc)[j] == a.id;
    }
    forall d | d in desc ensures d.id in Ids(desc) {
      var j :| 0 <= j < |desc| && desc[j] == d;
      assert Ids(desc)[j] == d.id;
    }
  }

  /**
   * With unique ids, every node on the parent chain of a kept match (when
   * `includeParents`) and every node of its subtree (when `includeChildren`)
   * is listed in `openIds`.
   */
  lemma SearchOpensPaths(tree: seq<Node>, searchTerm: string, options: Option<TreeSearchOptions>, rk: Ranking)
    requires Ranked(tree, rk) && UniqueIds(tree)
    ensures var r := SearchSpec(tree, searchTerm, options, rk);
            var st := SettingsOf(options);
            && (forall m :: m in r.matches ==> m.id in r.openIds)
            && (st.includeParents ==> forall m, a :: m in r.matches && a in ParentChain(tree, m, rk) ==> a.id in r.openIds)
            && (st.includeChildren ==> forall m, d :: m in r.matches && d in Subtree(tree, m.id, rk) ==> d.id in r.openIds)
  {
    IndexOfRanked(tree, rk);
    var idx, st := IndexOf(tree), SettingsOf(options);
    var r := SearchSpec(tree, searchTerm, options, rk);
    SearchOpenIds(tree, searchTerm, options, rk);
    if !(searchTerm == "" || Utf16Length(searchTerm) < st.minSearchLength) {
      SearchMatches(tree, searchTerm, options, rk);
    }
    forall m | m in r.matches
      ensures m.id in r.openIds
      ensures st.includeParents ==> forall a :: a in ParentChain(tree, m, rk) ==> a.id in r.openIds
      ensures st.includeChildren ==> forall d :: d in Subtree(tree, m.id, rk) ==> d.id in r.openIds
    {
      MatchOpensPaths(tree, st, m, rk);
    }
  }
}
