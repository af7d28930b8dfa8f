/**
 * `Array.prototype.sort(compare)` on an array of nodes. The language
 * standard requires the sort to be stable, so under a consistent comparator
 * its result is determined: the one sorted rearrangement that keeps equal
 * elements in their original order. `StableSort` is that result, built by
 * insertion from the back; `SortInPlace` is an in-place insertion sort proved
 * to produce it, and `SortedStableUnique` shows that any other stable sort
 * produces the same sequence.
 */
module Sorting {
  import opened TreeModel

  /** `a` may stay before `b`: the comparator does not ask to swap them. */
  predicate Le(cmp: SortCallback, a: Node, b: Node) {
    cmp(a, b) <= 0
  }

  /**
   * `cmp(a, b) <= 0` is a total preorder. ECMAScript's consistent comparator
   * for `Array.prototype.sort` asks for this and also for an antisymmetric
   * sign (`cmp(a, b) < 0` exactly when `cmp(b, a) > 0`); only the preorder is
   * assumed here.
   */
  ghost predicate Consistent(cmp: SortCallback) {
    && (forall a: Node, b: Node :: Le(cmp, a, b) || Le(cmp, b, a))
    && (forall a: Node, b: Node, c: Node :: Le(cmp, a, b) && Le(cmp, b, c) ==> Le(cmp, a, c))
  }

  ghost predicate Equiv(cmp: SortCallback, a: Node, b: Node) {
    Le(cmp, a, b) && Le(cmp, b, a)
  }

  ghost predicate Sorted(cmp: SortCallback, s: seq<Node>) {
    forall i, j :: 0 <= i < j < |s| ==> Le(cmp, s[i], s[j])
  }

  /**
   * Inserts `x` into `t` the way an insertion sort does: scanning from the
   * back, it passes every element that must not precede `x` and stops at the
   * first one that may.
   */
  ghost function InsertBack(cmp: SortCallback, x: Node, t: seq<Node>): seq<Node>
    decreases |t|
  {
    if t == [] then [x]
    else if Le(cmp, t[|t| - 1], x) then t + [x]
    else InsertBack(cmp, x, t[..|t| - 1]) + [t[|t| - 1]]
  }

  /** The stable sort of `s`: each element in turn is inserted into the sorted prefix before it. */
  ghost function StableSort(cmp: SortCallback, s: seq<Node>): seq<Node>
  {
    if s == [] then []
    else InsertBack(cmp, s[|s| - 1], StableSort(cmp, s[..|s| - 1]))
  }

  /** The elements of `s` equivalent to `k`, in their order in `s`. */
  ghost function EquivClass(cmp: SortCallback, k: Node, s: seq<Node>): seq<Node>
  {
    if s == [] then []
    else EquivClass(cmp, k, s[..|s| - 1]) + (if Equiv(cmp, s[|s| - 1], k) then [s[|s| - 1]] else [])
  }

  /** A stable rearrangement of `s` keeps, for every key, the equivalent elements in their order in `s`. */
  ghost predicate StableFor(cmp: SortCallback, r: seq<Node>, s: seq<Node>) {
    forall k: Node :: EquivClass(cmp, k, r) == EquivClass(cmp, k, s)
  }

  // ---------------------------------------------------------------------
  // The in-place sort

  /** `a.sort(cmp)`: sorts `a` in place and leaves the stable sort of the old contents. */
  method SortInPlace(a: array<Node>, cmp: SortCallback)
    modifies a
    ensures a[..] == StableSort(cmp, old(a[..]))
  {
    ghost var s := a[..];
    var i := 0;
    while i < a.Length
      invariant 0 <= i <= a.Length
      invariant a[..i] == StableSort(cmp, s[..i])
      invariant a[i..] == s[i..]
    {
      assert a[i] == a[i..][0] == s[i..][0] == s[i];
      assert a[i + 1..] == a[i..][1..] == s[i..][1..] == s[i + 1..];
      assert s[..i + 1][..i] == s[..i];
      InsertLast(a, i, cmp);
      i := i + 1;
    }
    assert s[..a.Length] == s;
  }

  /** One round of insertion sort: moves `a[i]` into the sorted prefix `a[..i]`. */
  method InsertLast(a: array<Node>, i: nat, cmp: SortCallback)
    requires i < a.Length
    modifies a
    ensures a[..i + 1] == InsertBack(cmp, old(a[i]), old(a[..i]))
    ensures a[i + 1..] == old(a[i + 1..])
  {
    var x := a[i];
    ghost var t := a[..i];
    ghost var rest := a[i + 1..];
    assert a[..] == a[..i] + [a[i]] + a[i + 1..];
    assert t[i..] == [] && t[..i] == t;
    var j := i;
    while j > 0 && cmp(a[j - 1], x) > 0
      invariant 0 <= j <= i
      invariant a[..] == t[..j] + [a[j]] + t[j..] + rest
      invariant InsertBack(cmp, x, t) == InsertBack(cmp, x, t[..j]) + t[j..]
    {
      InsertBackPasses(cmp, x, t, j);
      ShiftStep(t, rest, j, a[j]);
      a[j] := a[j - 1];
      j := j - 1;
    }
    InsertBackStops(cmp, x, t, j);
    FillHole(t, rest, j, a[j], x);
    a[j] := x;
  }

  /** Moving `t[j - 1]` into the hole at `j` moves the hole one place to the front. */
  lemma ShiftStep(t: seq<Node>, rest: seq<Node>, j: nat, h: Node)
    requires 0 < j <= |t|
    ensures (t[..j] + [h] + t[j..] + rest)[j - 1] == t[j - 1]
    ensures (t[..j] + [h] + t[j..] + rest)[j := t[j - 1]] == t[..j - 1] + [t[j - 1]] + t[j - 1..] + rest
  {
    var u := t[..j] + [h] + t[j..] + rest;
    var v := t[..j - 1] + [t[j - 1]] + t[j - 1..] + rest;
    assert |u[j := t[j - 1]]| == |v|;
    forall k | 0 <= k < |v| ensures u[j := t[j - 1]][k] == v[k] {
      if k < j - 1 {
      } else if k == j - 1 {
      } else if k == j {
      } else if k <= |t| {
        assert v[k] == t[k - 1];
      } else {
        assert v[k] == rest[k - |t| - 1];
      }
    }
  }

  /** Putting `x` into the hole at `j` leaves `t[..j] + [x] + t[j..]` before `rest`. */
  lemma FillHole(t: seq<Node>, rest: seq<Node>, j: nat, h: Node, x: Node)
    requires j <= |t|
    ensures var w := (t[..j] + [h] + t[j..] + rest)[j := x];
            && w[..|t| + 1] == t[..j] + [x] + t[j..]
            && w[|t| + 1..] == rest
  {
    var w := (t[..j] + [h] + t[j..] + rest)[j := x];
    assert w == t[..j] + [x] + t[j..] + rest;
  }

  /** Passing over `t[j - 1]`, which must not precede `x`. */
  lemma InsertBackPasses(cmp: SortCallback, x: Node, t: seq<Node>, j: nat)
    requires 0 < j <= |t|
    requires !Le(cmp, t[j - 1], x)
    ensures InsertBack(cmp, x, t[..j]) + t[j..] == InsertBack(cmp, x, t[..j - 1]) + t[j - 1..]
  {
    assert t[..j][..j - 1] == t[..j - 1];
    assert t[j - 1..] == [t[j - 1]] + t[j..];
  }

  /** Stopping at the front or behind an element that may precede `x`. */
  lemma InsertBackStops(cmp: SortCallback, x: Node, t: seq<Node>, j: nat)
    requires j <= |t|
    requires j > 0 ==> Le(cmp, t[j - 1], x)
    ensures InsertBack(cmp, x, t[..j]) == t[..j] + [x]
  {
  }

  // ---------------------------------------------------------------------
  // StableSort is a permutation

  lemma {:induction false} InsertBackPermutes(cmp: SortCallback, x: Node, t: seq<Node>)
    ensures |InsertBack(cmp, x, t)| == |t| + 1
    ensures multiset(InsertBack(cmp, x, t)) == multiset(t) + multiset{x}
    decreases |t|
  {
    if t != [] && !Le(cmp, t[|t| - 1], x) {
      var init := t[..|t| - 1];
      InsertBackPermutes(cmp, x, init);
      assert t == init + [t[|t| - 1]];
    }
  }

  lemma {:induction false} StableSortPermutes(cmp: SortCallback, s: seq<Node>)
    ensures |StableSort(cmp, s)| == |s|
    ensures multiset(StableSort(cmp, s)) == multiset(s)
  {
    if s != [] {
      var init := s[..|s| - 1];
      StableSortPermutes(cmp, init);
      InsertBackPermutes(cmp, s[|s| - 1], StableSort(cmp, init));
      assert s == init + [s[|s| - 1]];
    }
  }

  // ---------------------------------------------------------------------
  // StableSort sorts

  lemma {:induction false} InsertBackSorted(cmp: SortCallback, x: Node, t: seq<Node>)
    requires Consistent(cmp)
    requires Sorted(cmp, t)
    ensures Sorted(cmp, InsertBack(cmp, x, t))
    decreases |t|
  {
    if t == [] {
    } else if Le(cmp, t[|t| - 1], x) {
      var r := t + [x];
      forall i, j | 0 <= i < j < |r| ensures Le(cmp, r[i], r[j]) {
        if j == |t| && i < |t| - 1 {
          assert Le(cmp, t[i], t[|t| - 1]);
        }
      }
    } else {
      var last := t[|t| - 1];
      var init := t[..|t| - 1];
      InsertBackSorted(cmp, x, init);
      InsertBackPermutes(cmp, x, init);
      var u := InsertBack(cmp, x, init);
      assert Le(cmp, x, last);
      forall e | e in u ensures Le(cmp, e, last) {
        assert e in multiset(u);
        if e != x {
          assert e in multiset(init);
          var i :| 0 <= i < |init| && init[i] == e;
          assert Le(cmp, t[i], t[|t| - 1]);
        }
      }
      var r := u + [last];
      forall i, j | 0 <= i < j < |r| ensures Le(cmp, r[i], r[j]) {
        if j == |u| {
          assert u[i] in u;
        }
      }
    }
  }

  lemma {:induction false} StableSortSorted(cmp: SortCallback, s: seq<Node>)
    requires Consistent(cmp)
    ensures Sorted(cmp, StableSort(cmp, s))
  {
    if s != [] {
      StableSortSorted(cmp, s[..|s| - 1]);
      InsertBackSorted(cmp, s[|s| - 1], StableSort(cmp, s[..|s| - 1]));
    }
  }

  // ---------------------------------------------------------------------
  // StableSort is stable

  lemma {:induction false} EquivClassConcat(cmp: SortCallback, k: Node, a: seq<Node>, b: seq<Node>)
    ensures EquivClass(cmp, k, a + b) == EquivClass(cmp, k, a) + EquivClass(cmp, k, b)
    decreases |b|
  {
    if b == [] {
      assert a + b == a;
    } else {
      var init := b[..|b| - 1];
      assert (a + b)[..|a + b| - 1] == a + init;
      assert (a + b)[|a + b| - 1] == b[|b| - 1];
      EquivClassConcat(cmp, k, a, init);
    }
  }

  lemma {:induction false} InsertBackStable(cmp: SortCallback, k: Node, x: Node, t: seq<Node>)
    requires Consistent(cmp)
    ensures EquivClass(cmp, k, InsertBack(cmp, x, t)) == EquivClass(cmp, k, t) + EquivClass(cmp, k, [x])
    decreases |t|
  {
    if t == [] {
      assert [x][..0] == [];
    } else if Le(cmp, t[|t| - 1], x) {
      EquivClassConcat(cmp, k, t, [x]);
    } else {
      var last := t[|t| - 1];
      var init := t[..|t| - 1];
      InsertBackStable(cmp, k, x, init);
      assert InsertBack(cmp, x, t) == InsertBack(cmp, x, init) + [last];
      EquivClassConcat(cmp, k, InsertBack(cmp, x, init), [last]);
      EquivClassConcat(cmp, k, init, [last]);
      assert t == init + [last];
      assert [x][..0] == [] && [last][..0] == [];
      var ei, ex, el := EquivClass(cmp, k, init), EquivClass(cmp, k, [x]), EquivClass(cmp, k, [last]);
      // `last` and `x` cannot both be equivalent to `k`, since `x` may not follow `last`.
      assert !(Equiv(cmp, last, k) && Equiv(cmp, x, k));
      assert ex == [] || el == [];
      assert ex + el == el + ex;
      ConcatAssoc(ei, ex, el);
      ConcatAssoc(ei, el, ex);
    }
  }

  lemma {:induction false} StableSortStable(cmp: SortCallback, s: seq<Node>)
    requires Consistent(cmp)
    ensures StableFor(cmp, StableSort(cmp, s), s)
  {
    if s != [] {
      var init := s[..|s| - 1];
      var last := s[|s| - 1];
      StableSortStable(cmp, init);
      forall k: Node ensures EquivClass(cmp, k, StableSort(cmp, s)) == EquivClass(cmp, k, s) {
        InsertBackStable(cmp, k, last, StableSort(cmp, init));
        EquivClassConcat(cmp, k, init, [last]);
        assert s == init + [last];
        assert [last][..0] == [];
      }
    }
  }

  // ---------------------------------------------------------------------
  // Sorted input is left alone; sorting is idempotent

  lemma {:induction false} SortedIsFixpoint(cmp: SortCallback, s: seq<Node>)
    requires Sorted(cmp, s)
    ensures StableSort(cmp, s) == s
  {
    if s != [] {
      var init := s[..|s| - 1];
      assert Sorted(cmp, init);
      SortedIsFixpoint(cmp, init);
      if |init| > 0 {
        assert Le(cmp, s[|s| - 2], s[|s| - 1]);
      }
      assert init + [s[|s| - 1]] == s;
    }
  }

  lemma StableSortIdempotent(cmp: SortCallback, s: seq<Node>)
    requires Consistent(cmp)
    ensures StableSort(cmp, StableSort(cmp, s)) == StableSort(cmp, s)
  {
    StableSortSorted(cmp, s);
    SortedIsFixpoint(cmp, StableSort(cmp, s));
  }

  // ---------------------------------------------------------------------
  // Uniqueness: a stable sort has only one possible result

  lemma {:induction false} EquivClassMembers(cmp: SortCallback, k: Node, s: seq<Node>)
    ensures forall e :: e in EquivClass(cmp, k, s) <==> e in s && Equiv(cmp, e, k)
  {
    if s != [] {
      EquivClassMembers(cmp, k, s[..|s| - 1]);
      assert s == s[..|s| - 1] + [s[|s| - 1]];
    }
  }

  /** In a sorted sequence every element may precede the last one. */
  lemma SortedLastIsMaximum(cmp: SortCallback, r: seq<Node>, e: Node)
    requires Consistent(cmp)
    requires Sorted(cmp, r) && e in r
    ensures Le(cmp, e, r[|r| - 1])
  {
    var i :| 0 <= i < |r| && r[i] == e;
    if i < |r| - 1 {
      assert Le(cmp, r[i], r[|r| - 1]);
    } else {
      assert Le(cmp, e, e) || Le(cmp, e, e);
    }
  }

  /** With equal classes, the last element of `r2` may precede the last element of `r1`. */
  lemma LastDominates(cmp: SortCallback, r1: seq<Node>, r2: seq<Node>)
    requires Consistent(cmp)
    requires Sorted(cmp, r1) && r1 != [] && r2 != []
    requires forall k: Node :: EquivClass(cmp, k, r1) == EquivClass(cmp, k, r2)
    ensures Le(cmp, r2[|r2| - 1], r1[|r1| - 1])
  {
    var y := r2[|r2| - 1];
    assert Le(cmp, y, y) || Le(cmp, y, y);
    EquivClassMembers(cmp, y, r1);
    EquivClassMembers(cmp, y, r2);
    assert y in EquivClass(cmp, y, r2);
    var e :| e in r1 && Equiv(cmp, e, y);
    SortedLastIsMaximum(cmp, r1, e);
    assert Le(cmp, y, e);
  }

  /** A nonempty sequence has a nonempty class: that of its last element. */
  lemma SameEmptiness(cmp: SortCallback, r1: seq<Node>, r2: seq<Node>)
    requires Consistent(cmp)
    requires forall k: Node :: EquivClass(cmp, k, r1) == EquivClass(cmp, k, r2)
    ensures r1 != [] ==> r2 != []
  {
    if r1 != [] {
      var k := r1[|r1| - 1];
      assert Le(cmp, k, k) || Le(cmp, k, k);
      EquivClassMembers(cmp, k, r1);
      assert k in EquivClass(cmp, k, r1);
      assert EquivClass(cmp, k, r2) != [];
    }
  }

  /** Two sorted sequences with the same classes end in the same element. */
  lemma SameLast(cmp: SortCallback, r1: seq<Node>, r2: seq<Node>)
    requires Consistent(cmp)
    requires Sorted(cmp, r1) && Sorted(cmp, r2) && r1 != [] && r2 != []
    requires forall k: Node :: EquivClass(cmp, k, r1) == EquivClass(cmp, k, r2)
    ensures r1[|r1| - 1] == r2[|r2| - 1]
  {
    var x, y := r1[|r1| - 1], r2[|r2| - 1];
    var i1, i2 := r1[..|r1| - 1], r2[..|r2| - 1];
    LastDominates(cmp, r1, r2);
    LastDominates(cmp, r2, r1);
    assert Le(cmp, x, x) || Le(cmp, x, x);
    assert EquivClass(cmp, x, r1) == EquivClass(cmp, x, i1) + [x];
    assert EquivClass(cmp, x, r2) == EquivClass(cmp, x, i2) + [y];
    assert EquivClass(cmp, x, r1) == EquivClass(cmp, x, r2);
    var c1, c2 := EquivClass(cmp, x, i1), EquivClass(cmp, x, i2);
    assert |c1| == |c2| && (c1 + [x])[|c1|] == x && (c2 + [y])[|c2|] == y;
  }

  /** The class of `k` in `i + [x]` is its class in `i`, followed by `x` when `x` is in it. */
  lemma ClassSnoc(cmp: SortCallback, k: Node, i: seq<Node>, x: Node)
    ensures EquivClass(cmp, k, i + [x]) == EquivClass(cmp, k, i) + (if Equiv(cmp, x, k) then [x] else [])
  {
    assert (i + [x])[..|i|] == i;
  }

  /** Dropping the same last element from both keeps the classes equal. */
  lemma SameInitClasses(cmp: SortCallback, i1: seq<Node>, i2: seq<Node>, x: Node)
    requires forall k: Node :: EquivClass(cmp, k, i1 + [x]) == EquivClass(cmp, k, i2 + [x])
    ensures forall k: Node :: EquivClass(cmp, k, i1) == EquivClass(cmp, k, i2)
  {
    forall k: Node ensures EquivClass(cmp, k, i1) == EquivClass(cmp, k, i2) {
      ClassSnoc(cmp, k, i1, x);
      ClassSnoc(cmp, k, i2, x);
      DropTail(EquivClass(cmp, k, i1), EquivClass(cmp, k, i2), if Equiv(cmp, x, k) then [x] else []);
    }
  }

  /** Equal sequences with equal tails have equal heads. */
  lemma DropTail(c1: seq<Node>, c2: seq<Node>, tail: seq<Node>)
    requires c1 + tail == c2 + tail
    ensures c1 == c2
  {
    assert |c1| == |c2|;
    assert c1 == (c1 + tail)[..|c1|];
  }

  /** Two sorted sequences with the same equivalence classes, in the same orders, are equal. */
  lemma {:induction false} SortedStableUnique(cmp: SortCallback, r1: seq<Node>, r2: seq<Node>)
    requires Consistent(cmp)
    requires Sorted(cmp, r1) && Sorted(cmp, r2)
    requires forall k: Node :: EquivClass(cmp, k, r1) == EquivClass(cmp, k, r2)
    ensures r1 == r2
    decreases |r1|
  {
    SameEmptiness(cmp, r1, r2);
    SameEmptiness(cmp, r2, r1);
    if r1 != [] {
      var i1, i2 := r1[..|r1| - 1], r2[..|r2| - 1];
      SameLast(cmp, r1, r2);
      assert r1 == i1 + [r1[|r1| - 1]] && r2 == i2 + [r1[|r1| - 1]];
      SameInitClasses(cmp, i1, i2, r1[|r1| - 1]);
      assert Sorted(cmp, i1) && Sorted(cmp, i2);
      SortedStableUnique(cmp, i1, i2);
      assert r1 == i1 + [r1[|r1| - 1]] && r2 == i2 + [r2[|r2| - 1]];
    }
  }

  /** Any sorted, stable rearrangement of `s` is `StableSort(cmp, s)`. */
  lemma StableSortUnique(cmp: SortCallback, s: seq<Node>, r: seq<Node>)
    requires Consistent(cmp)
    requires Sorted(cmp, r) && StableFor(cmp, r, s)
    ensures r == StableSort(cmp, s)
  {
    StableSortSorted(cmp, s);
    StableSortStable(cmp, s);
    SortedStableUnique(cmp, r, StableSort(cmp, s));
  }
}
