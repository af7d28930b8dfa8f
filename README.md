# react-dnd-treeview core, modelled in Dafny

react-dnd-treeview renders a flat list of nodes (`id`, `parent`, `droppable`,
`text`) as a drag-and-drop tree. This project models the parts of it that
decide *what* is shown and *what a drop means*:

- `sortNodes` (`types.dfy`, `stable_sort.dfy`, `sort_nodes.dfy`): the sibling
  ordering. JavaScript's `Array.prototype.sort` is stable, so it is modelled by a
  reference stable insertion sort (`Sorting.StableSort`). An in-place insertion
  sort on an `array` is proved equal to it. A uniqueness lemma shows that any
  sorted, stable rearrangement is that same sequence. So every stable sorting
  algorithm gives this result when the comparator is consistent in the
  ECMAScript sense: `cmp(a, b) <= 0` is a total preorder and the sign is
  antisymmetric. The proofs assume only the preorder.
- `Container` (`container.dfy`): the root container.
  - It collects the visible rows depth first. Each row is a child, then the rows of its subtree when it is an open folder.
  - It decides whether to window the rows.
  - It lists the rows with their placeholders.
- `useTreeSearch` (`search_index.dfy`, `text.dfy`, `tree_search.dfy`): the search hook.
  - It builds the node, parent and children maps and the helpers over them (`getAllParents`, `getAllChildren`, ...).
  - It scans the tree in order, up to `maxResults` matches.
  - It collects, in insertion order, the ids to open: each match, plus its ancestors and descendants as the options ask.
- `TreeProvider` (`tree_provider.dfy`): the context builder.
  - The search memo narrows the tree to the matches and the nodes above them.
  - It builds the context value from the props and their defaults.
  - It provides the `onDrop`, `canDrop` and `canDrag` callbacks.

JavaScript details are written out:
- Identifiers are numbers or strings with JavaScript truthiness: `0` and `""` are falsy.
- `||` and `??` fallbacks are explicit.
- `length` counts UTF-16 code units: two for a character outside the Basic Multilingual Plane.
- A `Map` keeps the last entry for a repeated key.
- `find` returns the first match.
- A `Set` is the sequence of its elements in insertion order.

In JavaScript a tree may have a cycle in its parent links. Then a walk that
starts on or below the cycle may not end. Here a ghost `Ranking` (a rank per id
that strictly grows from child to parent) stands for acyclicity, and every walk
up or down the tree terminates on it.

Each loop of the source is a `method` with a `while` loop, or a recursive
method, proved equal to a ghost specification function. The properties are
lemmas about those functions.

## Model

| member | source | states |
|---|---|---|
| TreeModel.Find | src/providers/TreeProvider.tsx:60 | `find` returns a node exactly when some node has the id, and that node is in the tree and carries the id |
| TreeModel.ChildrenOf | src/Container.tsx:250 | the nodes whose `parent` is the id, exactly the tree's such nodes |
| TreeModel.OrEmpty | src/Container.tsx:349 | `id \|\| ""` keeps a truthy id and turns a falsy one into `""` |
| Sorting.SortInPlace | src/utils/sortNodes.ts:25 | sorting the array in place leaves it equal to the stable sort of its old contents |
| Sorting.InsertLast | src/utils/sortNodes.ts:25 | one insertion step: the first `i+1` cells become the old element `i` inserted after every element no greater than it, and the rest of the array is unchanged |
| Sorting.StableSortPermutes | src/utils/sortNodes.ts:25 | the stable sort is a permutation of its input |
| Sorting.StableSortSorted | src/utils/sortNodes.ts:25 | under a consistent comparator the stable sort is ordered by the comparator |
| Sorting.StableSortStable | src/utils/sortNodes.ts:25 | elements the comparator sees as equal keep their relative order |
| Sorting.StableSortUnique | src/utils/sortNodes.ts:25 | any sorted and stable rearrangement of the input is the stable sort, so the result does not depend on the sorting algorithm |
| Sorting.SortedStableUnique | src/utils/sortNodes.ts:25 | two sorted sequences with the same elements in each equivalence class, in the same order, are equal |
| Sorting.SortedIsFixpoint | src/utils/sortNodes.ts:25 | sorting an already sorted sequence changes nothing |
| Sorting.StableSortIdempotent | src/utils/sortNodes.ts:25 | sorting twice is sorting once |
| Sorting.EquivClassMembers | src/utils/sortNodes.ts:25 | the class of a key holds exactly the elements equivalent to it |
| SortNodes.CallbackOf | src/utils/sortNodes.ts:8-9 | a given sort function is used, otherwise `compareItems` |
| SortNodes.SortNodes | src/utils/sortNodes.ts:4-26 | the result is the arrangement of the old nodes; with `insertDroppableFirst` it is a new array and the input is untouched; without it, the input array itself is sorted and returned |
| SortNodes.PartitionPermutes | src/utils/sortNodes.ts:12-13 | the droppable and non-droppable groups together hold exactly the input nodes |
| SortNodes.ArrangedPermutes | src/utils/sortNodes.ts:4-26 | every arrangement is a permutation of the nodes |
| SortNodes.GroupsOfArranged | src/utils/sortNodes.ts:11-22 | with `insertDroppableFirst` the result is the droppable group (sorted unless `sort === false`) followed by the non-droppable group, and filtering the result by droppability gives back each group |
| SortNodes.ArrangedDroppableFirst | src/utils/sortNodes.ts:11-22 | with `insertDroppableFirst` every droppable node comes before every non-droppable one |
| SortNodes.UnsortedGroupsKeepOrder | src/utils/sortNodes.ts:15-17 | with `sort === false` each group keeps its input order |
| SortNodes.UnsortedIsIdentity | src/utils/sortNodes.ts:25 | without grouping and with `sort === false` the nodes come back as given |
| SortNodes.ArrangedSorted | src/utils/sortNodes.ts:11-25 | when sorting, each group (or the whole list) is sorted by the callback and stable |
| SortNodes.ArrangedIdempotent | src/utils/sortNodes.ts:4-26 | arranging an arranged list changes nothing |
| SortNodes.ArrangedEmpty | src/utils/sortNode.test.ts:97-100 | the empty-array test case: the empty list stays empty |
| SortNodes.UniformDroppability | src/utils/sortNode.test.ts:102-126 | all-droppable or all-non-droppable input keeps its length and its droppability |
| SortNodes.UnsortedScenario | src/utils/sortNode.test.ts:33-77 | the fixture is unchanged by `sort: false`, and grouped with `sort: false` it is 1, 3, 2, 4 |
| SortNodes.CustomSortScenario | src/utils/sortNode.test.ts:38-49 | the id comparator leaves the fixture in order 1, 2, 3, 4 |
| SortNodes.CustomGroupedScenario | src/utils/sortNode.test.ts:79-93 | grouped and sorted by id the fixture is 1, 3, 2, 4 |
| Container.CollectNodes | src/Container.tsx:249-257 | `collectNodes` appends to the result exactly the rows of the parent's subtree as the specification function lists them |
| Container.VisibleNodes | src/Container.tsx:246-261 | `visibleNodes` is the list of rows of the container's parent at the container's depth |
| Container.VisibleRowsShape | src/Container.tsx:246-261 | the rows at the container's depth are the parent's children in tree order; every row is a tree node no shallower than the container; every deeper row sits under an earlier open-folder row that is its parent; every child of every open listed folder is listed one level deeper; and the rows are in pre-order |
| Container.FlattenPreOrder | src/Container.tsx:251-256 | pre-order: each row is followed at once by exactly the rows of its subtree (starting one level deeper) when it is an open folder, and the row after that block is no deeper than it, so a later sibling or a row further up |
| Container.SiblingsPreOrder | src/Container.tsx:250-256 | a run of siblings lists each sibling, then its subtree, then the next sibling, starting at the container's depth |
| Container.FolderScenario | src/Container.tsx:249-257 | a folder holding a file lists its row and then the file's one level deeper when open, and its row alone when closed |
| Container.SiblingsTopLevel | src/Container.tsx:250-256 | the top-level rows of a run of siblings are those siblings |
| Container.FlattenWellNested | src/Container.tsx:251-255 | each row of the list is a child of the container's parent at its depth or hangs under an open folder row one level up |
| Container.FlattenComplete | src/Container.tsx:253-254 | every child of a listed open folder has its row one level deeper |
| Container.ClosedContainer | src/Container.tsx:250-256 | when no child is an open folder, the rows are the children, one each, at the container's depth |
| Container.Placeholders | src/Container.tsx:344-359 | one placeholder per row plus a trailing one |
| Container.PlaceholderTargets | src/Container.tsx:344-359 | every placeholder counts all rows; the one before row `k` has the row's depth and index `k`, and targets the container's parent (through `\|\| ""`) at the container's depth or otherwise the open folder above that holds the row; the trailing one targets the container's parent itself |
| Container.FalsyRootPlaceholders | src/Container.tsx:349 | under a falsy root id such as `0` the top-level placeholders target `""` while the trailing one targets the root id |
| Container.OrNumber | src/Container.tsx:268 | `x \|\| fallback` on a number: a given non-zero value, else the fallback |
| Container.OrText | src/Container.tsx:305 | `x \|\| fallback` on a string: a given non-empty value, else the fallback |
| Container.DefaultThreshold | src/Container.tsx:264-269 | with windowing enabled and no threshold (or `0`), the root container windows its rows exactly from 50 rows on |
| Container.VirtualMonotone | src/Container.tsx:264-269 | windowing never applies to a non-root container, and once it applies it keeps applying as rows are added |
| Container.VirtualizerOf | src/Container.tsx:284-296 | the windowing settings count every row and, without options, are 32 pixels, 5 rows of overscan and `"600px"` |
| Container.RenderContainer | src/Container.tsx:243-361 | a non-root container renders nothing; the root container windows its rows exactly when `shouldUseVirtual` holds, with one windowed entry per row index, the entries the visible window draws from, each carrying its id, depth and a 24-pixel indent per level; otherwise it lists its rows with their placeholders |
| Index.NodeMapOf | src/hooks/useTreeSearch.ts:45 | `nodeMap` has a key exactly for each id of the tree, and stores a tree node with that id |
| Index.NodeMapIsLast | src/hooks/useTreeSearch.ts:45 | for a repeated id the map keeps the last node with it |
| Index.NodeMapUnique | src/hooks/useTreeSearch.ts:45 | with unique ids, each node is stored under its own id |
| Index.ParentMapAgrees | src/hooks/useTreeSearch.ts:45-46 | `parentMap` has the keys of `nodeMap` and holds the parent of the node stored under each |
| Index.ChildrenMapAgrees | src/hooks/useTreeSearch.ts:47-55 | `childrenMap` has an entry exactly for each truthy id that is some node's parent, listing its children's ids in tree order |
| Index.ChildIdsOfTree | src/hooks/useTreeSearch.ts:51 | `childrenMap.get(p) \|\| []` is the children's ids for a truthy `p` and empty for a falsy one |
| Index.BuildIndex | src/hooks/useTreeSearch.ts:44-58 | the index memo yields the three maps of the tree |
| Index.NodesOf | src/hooks/useTreeSearch.ts:69-71 | looking ids up and dropping the missing keeps exactly the stored nodes of those ids, never more than the ids |
| Index.NodesOfStored | src/hooks/useTreeSearch.ts:139-141 | when every id is stored, the lookup keeps them all, position by position |
| Index.GetNodeOfTree | src/hooks/useTreeSearch.ts:62 | `getNode` finds exactly the tree's ids, and with unique ids the node itself |
| Index.GetParentOfTree | src/hooks/useTreeSearch.ts:63-66 | with unique ids, `getParent` gives the node the truthy `parent` names, and nothing when it is falsy or absent |
| Index.NodesOfIds | src/hooks/useTreeSearch.ts:69-71 | with unique ids, looking up the ids of some tree nodes gives back those nodes |
| Index.GetChildrenOfTree | src/hooks/useTreeSearch.ts:67-72 | with unique ids, `getChildren` of a truthy id is its children in tree order, and of a falsy id nothing |
| Index.IndexOfRanked | src/hooks/useTreeSearch.ts:44-58 | the index of an acyclic tree is acyclic: parents rank above their children in both maps |
| Index.GetAllParents | src/hooks/useTreeSearch.ts:73-82 | the loop collects the ancestors, nearest first, until a falsy or unknown parent id |
| Index.AncestorsAreParentChain | src/hooks/useTreeSearch.ts:73-82 | with unique ids, `getAllParents` of a node is its parent chain in the tree |
| Index.ParentChainClimbs | src/hooks/useTreeSearch.ts:73-82 | every ancestor is a tree node; the first is the node's parent and each next one the parent of the one before; the chain strictly climbs, so no node repeats |
| Index.AncestorsStored | src/hooks/useTreeSearch.ts:73-82 | every collected ancestor is the node stored under its id |
| Index.Traverse | src/hooks/useTreeSearch.ts:85-94 | `traverse` appends the descendants of the id, depth first |
| Index.GetAllChildren | src/hooks/useTreeSearch.ts:83-97 | `getAllChildren` is the descendants of the id |
| Index.DescendantsAreSubtree | src/hooks/useTreeSearch.ts:83-97 | with unique ids, `getAllChildren` is the subtree of the id read off the tree, depth first |
| Index.DescendantsStored | src/hooks/useTreeSearch.ts:83-97 | every collected descendant is the node stored under its id |
| Index.SubtreeBelow | src/hooks/useTreeSearch.ts:83-97 | every descendant is a tree node ranked below the id, so no node is its own descendant |
| Index.SubtreeClosed | src/hooks/useTreeSearch.ts:83-97 | the subtree holds every child of a truthy id and every child of each of its members |
| Text.LowerChar | src/hooks/useTreeSearch.ts:14 | lower-casing one character leaves no upper-case ASCII letter and keeps every other character |
| Text.Lower | src/hooks/useTreeSearch.ts:14 | `toLowerCase` keeps the length and lower-cases each character |
| Text.CodeUnits | src/hooks/useTreeSearch.ts:104 | a character is one UTF-16 code unit, or two exactly when it lies outside the Basic Multilingual Plane |
| Text.Utf16Length | src/hooks/useTreeSearch.ts:104 | `length` is between the number of characters and twice it, and equals the number of characters exactly when every character lies in the Basic Multilingual Plane |
| Text.EmojiLength | src/hooks/useTreeSearch.ts:104 | a single emoji is one character but has length 2 |
| Text.Contains | src/hooks/useTreeSearch.ts:14 | `includes` holds exactly when the term occurs at some position |
| Text.LowerIdempotent | src/hooks/useTreeSearch.ts:14 | lower-casing twice is lower-casing once |
| Text.LowerKeepsOccurrence | src/hooks/useTreeSearch.ts:14 | an occurrence stays an occurrence after lower-casing both sides |
| TreeSearch.DefaultSearchIgnoresCase | src/hooks/useTreeSearch.ts:9-15 | the default search ignores letter case in the term and in the text, and finds every literal occurrence |
| TreeSearch.SettingsOf | src/hooks/useTreeSearch.ts:29-42 | without options the settings are parents on, children off, length 2, 1000 results; a given `0` limit is kept, since `??` does not replace it |
| TreeSearch.AddAllMembers | src/hooks/useTreeSearch.ts:123-134 | adding ids to the set gives exactly the old elements and the new ids |
| TreeSearch.AddAllNoDuplicates | src/hooks/useTreeSearch.ts:123-134 | the set never holds an id twice |
| TreeSearch.AddAllConcat | src/hooks/useTreeSearch.ts:123-134 | adding two runs of ids is adding one, then the other |
| TreeSearch.AddIds | src/hooks/useTreeSearch.ts:126-128 | the `forEach` adds each node's id in order |
| TreeSearch.AddMatch | src/hooks/useTreeSearch.ts:122-135 | a match adds its id, then its ancestors' ids when `includeParents`, then its descendants' ids when `includeChildren` |
| TreeSearch.Visit | src/hooks/useTreeSearch.ts:121-136 | one step of the scan keeps a node exactly when the search function accepts it and adds what it contributes |
| TreeSearch.Scan | src/hooks/useTreeSearch.ts:114-137 | the loop keeps the first matches of the tree in order, as many as `maxResults` allows, and the ids they contribute |
| TreeSearch.ScanStops | src/hooks/useTreeSearch.ts:119 | stopping when `maxResults` matches are kept, or at the end of the tree, yields exactly the capped prefix of all matches |
| TreeSearch.UseTreeSearch | src/hooks/useTreeSearch.ts:17-160 | the hook's result is the specification's result for the tree, term and options |
| TreeSearch.ShortTermFindsNothing | src/hooks/useTreeSearch.ts:104-112 | an empty term, or one whose `length` in UTF-16 code units is below `minSearchLength`, finds nothing, opens nothing and leaves the tree whole |
| TreeSearch.EmojiTermIsSearched | src/hooks/useTreeSearch.ts:104-137 | with the default options a one-emoji term, of length 2, is searched: the result is the first matches in tree order, up to 1000 |
| TreeSearch.SearchMatches | src/hooks/useTreeSearch.ts:114-149 | for a searched term, the matches are accepted tree nodes and are the first matches in tree order; there are as many as `maxResults` allows; `totalMatches` is their number; `hasMore` holds exactly when the limit is not positive or at least that many nodes match |
| TreeSearch.ResultIdsMembers | src/hooks/useTreeSearch.ts:114-137 | an id is in the set exactly when some kept match contributes it |
| TreeSearch.ResultIdsNoDuplicates | src/hooks/useTreeSearch.ts:114-137 | the set never holds an id twice |
| TreeSearch.ContributionStored | src/hooks/useTreeSearch.ts:122-135 | every id a stored match contributes is itself stored |
| TreeSearch.NodesOfTree | src/hooks/useTreeSearch.ts:139-141 | looking up ids stored in the index of a tree gives tree nodes with those ids, one per id |
| TreeSearch.OpenIdsOfMatches | src/hooks/useTreeSearch.ts:114-146 | for tree nodes: the set has no repeats, holds exactly their contributions, and looking it up gives the node of each id in order |
| TreeSearch.SearchOpenIds | src/hooks/useTreeSearch.ts:139-146 | `openIds` has no repeats and holds exactly what the kept matches contribute; for a searched term `filteredTree` is the node of each of those ids, in the same order |
| TreeSearch.MatchOpensPaths | src/hooks/useTreeSearch.ts:122-135 | with unique ids a match contributes its own id, its parent chain when `includeParents` and its subtree when `includeChildren` |
| TreeSearch.SearchOpensPaths | src/hooks/useTreeSearch.ts:121-145 | with unique ids, every kept match, every node on its parent chain (with `includeParents`) and every node of its subtree (with `includeChildren`) is in `openIds` |
| TreeProvider.AddChain | src/providers/TreeProvider.tsx:57-63 | the inner loop adds the node's id and the ids up its `find` chain until `find` comes back empty |
| TreeProvider.PathsOfSnoc | src/providers/TreeProvider.tsx:56-64 | the `forEach` over one more match adds that match's chain |
| TreeProvider.SearchTree | src/providers/TreeProvider.tsx:41-73 | the memo is the specification's matches, paths and filtered tree |
| TreeProvider.EmptyTermKeepsTree | src/providers/TreeProvider.tsx:42-48 | without a term (absent or empty) the memo keeps the tree and finds nothing |
| TreeProvider.ResultsAreDefaultSearch | src/providers/TreeProvider.tsx:50-53 | the provider's matches are the tree-ordered matches of the default search function of the search hook, i.e. the nodes whose lower-cased text contains the lower-cased term |
| TreeProvider.PathsMembers | src/providers/TreeProvider.tsx:55-64 | an id is in `paths` exactly when it lies on the chain of some match |
| TreeProvider.PathsNoDuplicates | src/providers/TreeProvider.tsx:55-64 | `paths` has no repeated id |
| TreeProvider.ChainSteps | src/providers/TreeProvider.tsx:57-63 | each id on a chain is a tree node's, and that node's parent, when the tree has it, is on the chain too |
| TreeProvider.ChainIsParentChain | src/providers/TreeProvider.tsx:57-63 | when no id is falsy, the chain is the node followed by its `getAllParents` parent chain |
| TreeProvider.PathsOfMatches | src/providers/TreeProvider.tsx:55-66 | for given matches: the paths have no repeats and hold exactly the ids on their chains; the filtered tree holds the nodes on the paths and so every match |
| TreeProvider.MemoPaths | src/providers/TreeProvider.tsx:50-72 | for a term, `searchPaths` has no repeats and holds exactly the ids on the matches' chains; `filteredTree` is the tree filtered to them, in tree order, and holds every match |
| TreeProvider.PathsClosedUpwards | src/providers/TreeProvider.tsx:55-64 | with unique ids the paths are closed upwards through parent links |
| TreeProvider.MemoClosedUpwards | src/providers/TreeProvider.tsx:66 | with unique ids the parent of every kept node, when the tree has it, is kept too |
| TreeProvider.MergeVirtualize | src/providers/TreeProvider.tsx:107-114 | `enabled` is the given one; each of `threshold`, `itemHeight`, `overscan` and `containerHeight` is the given value when present and the default otherwise |
| TreeProvider.ProvideContext | src/providers/TreeProvider.tsx:96-118 | the context has the filtered tree when a term is given, the memo's results, the props' root and the open ids; `sort` and `insertDroppableFirst` default to `true`; a given `virtualizeOptions` replaces the merged one through `...props` |
| TreeProvider.ContextTreeIsFiltered | src/providers/TreeProvider.tsx:116 | whatever the term, the context tree is the memo's filtered tree, and holds only nodes of the props' tree |
| TreeProvider.VirtualizeMergeHarmless | src/providers/TreeProvider.tsx:107-115 | the replaced merge changes neither the windowing decision nor the windowing settings the container computes; without the prop, windowing stays off with the default settings |
| TreeProvider.WorkingTree | src/providers/TreeProvider.tsx:146-150 | the tree to mutate is the props' tree or it with the source appended, and it holds the source whenever `getTreeItem` does not find it |
| TreeProvider.WorkingTreeHasSource | src/providers/TreeProvider.tsx:146-150 | when `getTreeItem` agrees with `find`, the working tree always has the source's id, and is the props' tree exactly when that tree has it |
| TreeProvider.OnDrop | src/providers/TreeProvider.tsx:119-175 | the call handed to the host: the target and its node; the source and its id when dragged from the tree; indices exactly when `sort === false`; the props' tree for an external drop, otherwise the helpers' mutation of the working tree |
| TreeProvider.WrapCanDrop | src/providers/TreeProvider.tsx:176-185 | `canDrop` exists exactly when the host gives one, and asks it with the props' tree, the ids, the dragged item and the target's node, passing its answer on unchanged, an `undefined` answer (no opinion) included |
| TreeProvider.WrapCanDrag | src/providers/TreeProvider.tsx:186-188 | `canDrag` exists exactly when the host gives one, and asks it with the props' tree's node for the id |

## Left out

- Rendering: JSX, class names, styles, `Node`, `Placeholder` and the list components are not modelled. The container's output is a datatype of rows, placeholder slots and windowed items.
- The windowing library (`@tanstack/react-virtual`) is not modelled: its offsets, sizes and scroll element come from the browser. It is represented by the windowed items in index order.
- The drag monitor of react-dnd is left out: `useDropRoot` and `monitor` are not modelled. `monitor.getItem()` is a parameter of `canDrop`.
- The imported helpers are parameters with no modelled behaviour: `compareItems`, `getTreeItem`, `getDestIndex`, `getModifiedIndex`, `mutateTree` and `mutateTreeWithIndex`.
  - The default `compareItems` ordering scenario (sortNode.test.ts lines 22-31) is therefore not stated.
- `useOpenIdsHelper` is left out; the open ids are a parameter.
- The provider's effects and imperative handle are not modelled (TreeProvider.tsx lines 75-90): notifying `onSearchResultsChange`, opening the search paths, and `open`/`close`/`openAll`/`closeAll`. `onToggle` is left out for the same reason.
- Props other than those the core reads are not modelled: the list and placeholder components, `extraAcceptTypes`, `enableAnimateExpand`, `dropTargetOffset`, `initialOpen`, `rootProps`.
- The node's `data` payload is an opaque pass-through and is not modelled.
- React memoisation (`useMemo`, `useCallback`) is not modelled: each memo is the value it computes.
- A prop explicitly set to `undefined` is not distinguished from one left out.
- `droppable` is a boolean: a missing value is `false`.
- Numbers are unbounded integers; floating point and `NaN` are not modelled.
- Case folding (`toLowerCase`) covers the ASCII letters only; Unicode case mapping is not modelled.
- Strings are sequences of Unicode characters, so lone surrogates are not modelled. `length` is counted in UTF-16 code units. `includes` compares characters, which agrees with its code-unit comparison on well-formed strings.
- Trees with a cycle in their parent links are excluded by the ranking, including cyclic trees on which every walk the source starts ends. A cycle traps only the walks that reach it, and a node on a cycle is a child only of nodes on it. `collectNodes` and `traverse` loop only when they start at an id on the cycle. `getAllParents` and the provider's `while (current)` loop run forever only from a node on or below it.
- Sorting.StableSortUnique: stated only for a comparator whose `cmp(a, b) <= 0` is a total preorder. Only then, and with an antisymmetric sign, is the result independent of the engine's algorithm. An inconsistent callback leaves the result to the engine.
- Container.VirtualRows: states only one entry per row index; what each entry holds is stated by `Container.RenderContainer`. Which entries the window actually draws (`getVirtualItems()`, depending on scroll position) is not modelled.
- `containerHeight` may be a number or a string; the model takes a string only.
- TreeSearch.SearchMatches: `hasMore` is stated as the source computes it, `matches.length >= maxResults`. It is also true when exactly `maxResults` nodes match and none is left out.
- The commented-out earlier versions of `Container` in Container.tsx (lines 1-212 and 364-495) are not modelled.
