/**
 * The data model shared by the tree engine: identifiers, nodes and the
 * sequence helpers the other modules build on.
 */
module TreeModel {

  datatype Option<T> = None | Some(value: T) {
    function GetOr(default: T): T {
      if Some? then value else default
    }
  }

  /** A node identifier is a JavaScript number or string; `===` is equality of these values. */
  datatype Id = Num(n: int) | Str(s: string)

  /** JavaScript truthiness of an identifier: `0` and `""` are falsy, everything else is truthy. */
  predicate Truthy(id: Id) {
    match id
    case Num(n) => n != 0
    case Str(s) => s != ""
  }

  /** Truthiness of a value that may be `undefined` (a missing map entry, say). */
  predicate TruthyOpt(id: Option<Id>) {
    id.Some? && Truthy(id.value)
  }

  /** `id || ""` */
  function OrEmpty(id: Id): (r: Id)
    ensures Truthy(id) ==> r == id
    ensures !Truthy(id) ==> r == Str("")
  {
    if Truthy(id) then id else Str("")
  }

  /** A record of the flat tree. An absent `droppable` is `false`. */
  datatype Node = Node(id: Id, parent: Id, text: string, droppable: bool)

  /** A user or default comparator: negative, zero or positive, as for `Array.prototype.sort`. */
  type SortCallback = (Node, Node) -> int

  /** The `sort` setting: `false`, `true` (the default comparator) or a comparator of the host's. */
  datatype SortOrder = Unsorted | ByDefault | ByCallback(callback: SortCallback)

  /** The virtualisation settings a host may pass; only `enabled` is mandatory. */
  datatype VirtualizeOptions = VirtualizeOptions(
    enabled: bool,
    threshold: Option<int>,
    itemHeight: Option<int>,
    overscan: Option<int>,
    containerHeight: Option<string>)

  /** The part of the tree context that the containers read. */
  datatype TreeState = TreeState(
    tree: seq<Node>,
    rootId: Id,
    sort: SortOrder,
    insertDroppableFirst: bool,
    openIds: seq<Id>,
    virtualizeOptions: Option<VirtualizeOptions>,
    searchResults: seq<Node>)

  /**
   * A witness that the parent graph of a tree has no cycle: every node ranks
   * strictly below its parent, and no parent ranks above `bound`. Such a
   * ranking exists exactly when following `parent` links never returns to a
   * node, so it stands for the acyclicity the traversals rely on.
   */
  datatype Ranking = Ranking(rank: Id -> nat, bound: nat)

  ghost predicate Ranked(tree: seq<Node>, rk: Ranking) {
    forall n :: n in tree ==> rk.rank(n.id) < rk.rank(n.parent) <= rk.bound
  }

  lemma ConcatAssoc<T>(a: seq<T>, b: seq<T>, c: seq<T>)
    ensures a + b + c == a + (b + c)
  {
  }

  /** `s.filter(p)` */
  function Filter<T(!new)>(p: T -> bool, s: seq<T>): (r: seq<T>)
    ensures |r| <= |s|
    ensures forall x :: x in r <==> x in s && p(x)
  {
    if s == [] then []
    else if p(s[0]) then [s[0]] + Filter(p, s[1..])
    else Filter(p, s[1..])
  }

  lemma {:induction false} FilterConcat<T(!new)>(p: T -> bool, a: seq<T>, b: seq<T>)
    ensures Filter(p, a + b) == Filter(p, a) + Filter(p, b)
  {
    if a != [] {
      var ab := a + b;
      var head := if p(a[0]) then [a[0]] else [];
      assert ab[0] == a[0] && ab[1..] == a[1..] + b;
      assert Filter(p, ab) == head + Filter(p, a[1..] + b);
      assert Filter(p, a) == head + Filter(p, a[1..]);
      FilterConcat(p, a[1..], b);
      ConcatAssoc(head, Filter(p, a[1..]), Filter(p, b));
    } else {
      assert a + b == b;
    }
  }

  /** Filtering by a predicate every element satisfies leaves the sequence as it is. */
  lemma {:induction false} FilterAll<T(!new)>(p: T -> bool, s: seq<T>)
    requires forall x :: x in s ==> p(x)
    ensures Filter(p, s) == s
  {
    if s != [] {
      FilterAll(p, s[1..]);
    }
  }

  /** Filtering by a predicate no element satisfies gives the empty sequence. */
  lemma {:induction false} FilterNone<T(!new)>(p: T -> bool, s: seq<T>)
    requires forall x :: x in s ==> !p(x)
    ensures Filter(p, s) == []
  {
    if s != [] {
      FilterNone(p, s[1..]);
    }
  }

  /** `tree.filter(n => n.parent === p)`: the children of `p`, in tree order. */
  function ChildrenOf(tree: seq<Node>, p: Id): (r: seq<Node>)
    ensures forall n :: n in r <==> n in tree && n.parent == p
  {
    if tree == [] then []
    else
      var last := tree[|tree| - 1];
      ChildrenOf(tree[..|tree| - 1], p) + (if last.parent == p then [last] else [])
  }

  /** `tree.find(n => n.id === id)`: the first node carrying `id`. */
  function Find(tree: seq<Node>, id: Id): (r: Option<Node>)
    ensures r.Some? <==> exists n :: n in tree && n.id == id
    ensures r.Some? ==> r.value in tree && r.value.id == id
  {
    if tree == [] then None
    else if tree[0].id == id then Some(tree[0])
    else Find(tree[1..], id)
  }

  /** The ids of a sequence of nodes, position by position. */
  function Ids(s: seq<Node>): (r: seq<Id>)
    ensures |r| == |s|
    ensures forall k :: 0 <= k < |s| ==> r[k] == s[k].id
  {
    seq(|s|, k requires 0 <= k < |s| => s[k].id)
  }

  ghost predicate UniqueIds(tree: seq<Node>) {
    forall i, j :: 0 <= i < |tree| && 0 <= j < |tree| && tree[i].id == tree[j].id ==> i == j
  }

  predicate NoDuplicates<T(==)>(s: seq<T>) {
    forall i, j :: 0 <= i < j < |s| ==> s[i] != s[j]
  }

  /** Filtering by two predicates that agree on every element gives the same result. */
  lemma {:induction false} FilterSame<T(!new)>(p: T -> bool, q: T -> bool, s: seq<T>)
    requires forall x :: x in s ==> p(x) == q(x)
    ensures Filter(p, s) == Filter(q, s)
  {
    if s != [] {
      FilterSame(p, q, s[1..]);
    }
  }
}
