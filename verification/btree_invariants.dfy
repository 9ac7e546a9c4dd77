/**
 The B-tree invariants that insertion keeps: search-tree order, every leaf at the same
 depth, and the t-1 .. 2t-1 fill of every non-root node. Together they give `Valid`
 after any sequence of inserts, and with it the lookup guarantees of `BTreeSearch`.
 */
module BTreeInvariants {

  import opened Wrappers
  import opened BTree
  import opened BTreeSearch
  import opened BTreeInsert

  // ---------------------------------------------------------------------------
  // Order

  /** A pair inserted between its neighbours keeps a sorted list sorted. */
  lemma SortedInsert<V>(es: seq<Entry<V>>, i: nat, e: Entry<V>)
    requires Sorted(es) && i <= |es|
    requires i > 0 ==> es[i - 1].key <= e.key
    requires i < |es| ==> e.key <= es[i].key
    ensures Sorted(es[..i] + [e] + es[i..])
  {
    var r := es[..i] + [e] + es[i..];
    forall a, b | 0 <= a < b < |r|
      ensures r[a].key <= r[b].key
    {
      if a < i && b > i {
        assert r[a] == es[a] && r[b] == es[b - 1];
        assert es[a].key <= es[i - 1].key;
      } else if a == i && b > i {
        assert r[b] == es[b - 1] && es[i].key <= es[b - 1].key;
      } else if a < i && b == i {
        assert r[a] == es[a] && es[a].key <= es[i - 1].key;
      } else if a > i {
        assert r[a] == es[a - 1] && r[b] == es[b - 1];
      }
    }
  }

  /** The left half of a split search-tree node lies between the node's lower bound and the middle key. */
  lemma SplitLeftOrdered<V>(y: Node<V>, t: nat, lo: Option<int>, hi: Option<int>)
    requires SearchTree(y, lo, hi) && |y.entries| == 2 * t - 1
    ensures WellFormed(y)
    ensures SearchTree(Split(y, t).left, lo, Some(y.entries[t - 1].key))
  {
    SearchTreeWellFormed(y, lo, hi);
    var es := y.entries;
    var m := es[t - 1].key;
    var left := Split(y, t).left;
    assert left.entries == es[..t - 1];
    forall j | 0 <= j < t - 1
      ensures Above(lo, left.entries[j].key) && Below(left.entries[j].key, Some(m))
    {
      assert left.entries[j] == es[j];
    }
    if y.Internal? {
      var cs := y.children;
      assert left.children == cs[..t];
      forall k | 0 <= k < t
        ensures SearchTree(left.children[k], ChildLo(left.entries, k, lo), ChildHi(left.entries, k, Some(m)))
      {
        assert left.children[k] == cs[k];
        assert ChildLo(left.entries, k, lo) == ChildLo(es, k, lo);
        assert ChildHi(left.entries, k, Some(m)) == ChildHi(es, k, hi);
      }
    }
  }

  /** The right half of a split search-tree node lies between the middle key and the node's upper bound. */
  lemma SplitRightOrdered<V>(y: Node<V>, t: nat, lo: Option<int>, hi: Option<int>)
    requires SearchTree(y, lo, hi) && |y.entries| == 2 * t - 1
    ensures WellFormed(y)
    ensures SearchTree(Split(y, t).right, Some(y.entries[t - 1].key), hi)
  {
    SearchTreeWellFormed(y, lo, hi);
    var es := y.entries;
    var m := es[t - 1].key;
    var right := Split(y, t).right;
    assert right.entries == es[t..];
    forall j | 0 <= j < t - 1
      ensures Above(Some(m), right.entries[j].key) && Below(right.entries[j].key, hi)
    {
      assert right.entries[j] == es[t + j];
    }
    if y.Internal? {
      var cs := y.children;
      assert right.children == cs[t..];
      forall k | 0 <= k < t
        ensures SearchTree(right.children[k], ChildLo(right.entries, k, Some(m)), ChildHi(right.entries, k, hi))
      {
        assert right.children[k] == cs[t + k];
        assert ChildLo(right.entries, k, Some(m)) == ChildLo(es, t + k, lo);
        assert ChildHi(right.entries, k, hi) == ChildHi(es, t + k, hi);
      }
    }
  }

  /** `SplitChild` keeps a search tree ordered within the same bounds. */
  lemma SplitChildOrdered<V>(x: Node<V>, i: nat, t: nat, lo: Option<int>, hi: Option<int>)
    requires SearchTree(x, lo, hi) && x.Internal? && i < |x.children|
    requires |x.children[i].entries| == 2 * t - 1
    ensures WellFormed(x)
    ensures SearchTree(SplitChild(x, i, t), lo, hi)
  {
    SearchTreeWellFormed(x, lo, hi);
    var es, cs := x.entries, x.children;
    var y := cs[i];
    var cl, ch := ChildLo(es, i, lo), ChildHi(es, i, hi);
    var h := Split(y, t);
    var m := y.entries[t - 1];
    assert h.median == m;
    SplitLeftOrdered(y, t, cl, ch);
    SplitRightOrdered(y, t, cl, ch);
    assert Above(cl, m.key) && Below(m.key, ch);
    var r := SplitChild(x, i, t);
    assert r.entries == es[..i] + [m] + es[i..];
    assert r.children == cs[..i] + [h.left, h.right] + cs[i + 1..];
    SeparatorOrdered(es, i, m, lo, hi);
    SpliceOrdered(es, cs, i, m, h.left, h.right, lo, hi);
  }

  /** A pair that fits between its neighbours and inside child `i`'s bounds fits the node. */
  lemma SeparatorOrdered<V>(es: seq<Entry<V>>, i: nat, m: Entry<V>, lo: Option<int>, hi: Option<int>)
    requires Sorted(es) && i <= |es|
    requires forall j :: 0 <= j < |es| ==> Above(lo, es[j].key) && Below(es[j].key, hi)
    requires Above(ChildLo(es, i, lo), m.key) && Below(m.key, ChildHi(es, i, hi))
    ensures Sorted(es[..i] + [m] + es[i..])
    ensures forall j :: 0 <= j < |es| + 1 ==>
      Above(lo, (es[..i] + [m] + es[i..])[j].key) && Below((es[..i] + [m] + es[i..])[j].key, hi)
  {
    var es' := es[..i] + [m] + es[i..];
    SortedInsert(es, i, m);
    forall j | 0 <= j < |es'|
      ensures Above(lo, es'[j].key) && Below(es'[j].key, hi)
    {
      if j < i {
        assert es'[j] == es[j];
      } else if j > i {
        assert es'[j] == es[j - 1];
      } else {
        if i > 0 {
          assert Above(lo, es[i - 1].key);
        }
        if i < |es| {
          assert Below(es[i].key, hi);
        }
      }
    }
  }

  /** Child `i` replaced by two halves around a new separator `m`: every child keeps to its bounds. */
  lemma SpliceOrdered<V>(es: seq<Entry<V>>, cs: seq<Node<V>>, i: nat, m: Entry<V>, a: Node<V>, b: Node<V>,
                         lo: Option<int>, hi: Option<int>)
    requires |cs| == |es| + 1 && i < |cs|
    requires forall k :: 0 <= k < |cs| ==> SearchTree(cs[k], ChildLo(es, k, lo), ChildHi(es, k, hi))
    requires SearchTree(a, ChildLo(es, i, lo), Some(m.key)) && SearchTree(b, Some(m.key), ChildHi(es, i, hi))
    ensures var es', cs' := es[..i] + [m] + es[i..], cs[..i] + [a, b] + cs[i + 1..];
      forall k :: 0 <= k < |cs'| ==> SearchTree(cs'[k], ChildLo(es', k, lo), ChildHi(es', k, hi))
  {
    var es', cs' := es[..i] + [m] + es[i..], cs[..i] + [a, b] + cs[i + 1..];
    forall k | 0 <= k < |cs'|
      ensures SearchTree(cs'[k], ChildLo(es', k, lo), ChildHi(es', k, hi))
    {
      if k < i {
        assert cs'[k] == cs[k] && es'[k] == es[k];
        assert ChildLo(es', k, lo) == ChildLo(es, k, lo);
        assert ChildHi(es', k, hi) == ChildHi(es, k, hi);
      } else if k == i {
        assert ChildLo(es', k, lo) == ChildLo(es, i, lo);
      } else if k == i + 1 {
        assert ChildHi(es', k, hi) == ChildHi(es, i, hi);
      } else {
        assert cs'[k] == cs[k - 1] && es'[k - 1] == es[k - 2];
        assert ChildLo(es', k, lo) == ChildLo(es, k - 1, lo);
        assert ChildHi(es', k, hi) == ChildHi(es, k - 1, hi);
      }
    }
  }

  /** Replacing child `j` by a node ordered within that child's bounds keeps the parent ordered. */
  lemma ReplaceChildOrdered<V>(x: Node<V>, j: nat, c: Node<V>, lo: Option<int>, hi: Option<int>)
    requires SearchTree(x, lo, hi) && x.Internal? && j < |x.children|
    requires SearchTree(c, ChildLo(x.entries, j, lo), ChildHi(x.entries, j, hi))
    ensures SearchTree(Internal(x.entries, x.children[j := c]), lo, hi)
  {
  }

  /** The child `InsertNonFull` descends into admits the key. */
  lemma KeyFitsChild<V>(x: Node<V>, x': Node<V>, i: nat, j: nat, key: int, lo: Option<int>, hi: Option<int>)
    requires x.Internal? && WellFormed(x) && Above(lo, key) && Below(key, hi)
    requires i == InsertionPoint(x.entries, key) && x'.Internal? && WellFormed(x')
    requires x' == x ==> j == i
    requires x' != x ==>
      && |x'.entries| == |x.entries| + 1
      && x'.entries[..i] == x.entries[..i] && x'.entries[i + 1..] == x.entries[i..]
      && j == (if key > x'.entries[i].key then i + 1 else i)
    ensures j < |x'.children|
    ensures Above(ChildLo(x'.entries, j, lo), key) && Below(key, ChildHi(x'.entries, j, hi))
  {
    var es, es' := x.entries, x'.entries;
    if x' != x {
      if j == i + 1 {
        if i + 1 < |es'| {
          assert es'[i + 1] == es'[i + 1..][0] == es[i];
        }
      } else if i > 0 {
        assert es'[i - 1] == es'[..i][i - 1] == es[i - 1];
      }
    }
  }

  /** The node `InsertNonFull` descends from stays ordered, and the child it enters admits the key. */
  lemma PreparedOrdered<V>(x: Node<V>, key: int, t: nat, lo: Option<int>, hi: Option<int>)
    requires SearchTree(x, lo, hi) && x.Internal? && WellFormed(x) && Above(lo, key) && Below(key, hi)
    ensures SearchTree(Prepared(x, key, t), lo, hi)
    ensures Above(ChildLo(Prepared(x, key, t).entries, Slot(x, key, t), lo), key)
    ensures Below(key, ChildHi(Prepared(x, key, t).entries, Slot(x, key, t), hi))
  {
    var i := InsertionPoint(x.entries, key);
    if MustSplit(x, i, t) {
      SplitChildOrdered(x, i, t, lo, hi);
    }
    KeyFitsChild(x, Prepared(x, key, t), i, Slot(x, key, t), key, lo, hi);
  }

  /** `InsertNonFull` keeps a search tree ordered, for a key within its bounds. */
  lemma {:induction false} InsertNonFullOrdered<V>(x: Node<V>, key: int, value: V, t: nat, lo: Option<int>, hi: Option<int>)
    requires SearchTree(x, lo, hi) && Above(lo, key) && Below(key, hi)
    ensures WellFormed(x)
    ensures SearchTree(InsertNonFull(x, key, value, t), lo, hi)
    decreases Height(x)
  {
    SearchTreeWellFormed(x, lo, hi);
    match x
    case Leaf(es) =>
      SeparatorOrdered(es, InsertionPoint(es, key), Entry(key, value), lo, hi);
    case Internal(_, _) =>
      var x', j := Prepared(x, key, t), Slot(x, key, t);
      PreparedOrdered(x, key, t, lo, hi);
      InsertNonFullOrdered(x'.children[j], key, value, t, ChildLo(x'.entries, j, lo), ChildHi(x'.entries, j, hi));
      ReplaceChildOrdered(x', j, InsertNonFull(x'.children[j], key, value, t), lo, hi);
  }

  // ---------------------------------------------------------------------------
  // Balance

  /** Both halves of a split node keep the node's depth to its leaves. */
  lemma SplitBalanced<V>(y: Node<V>, t: nat, h: nat)
    requires WellFormed(y) && |y.entries| == 2 * t - 1 && BalancedAt(y, h)
    ensures BalancedAt(Split(y, t).left, h) && BalancedAt(Split(y, t).right, h)
  {
    if y.Internal? {
      var cs := y.children;
      var halves := Split(y, t);
      assert halves.left.children == cs[..t] && halves.right.children == cs[t..];
      assert forall k :: 0 <= k < t ==> halves.left.children[k] == cs[k];
      assert forall k :: 0 <= k < t ==> halves.right.children[k] == cs[t + k];
    }
  }

  /** `SplitChild` keeps every leaf at the same depth. */
  lemma SplitChildBalanced<V>(x: Node<V>, i: nat, t: nat, h: nat)
    requires x.Internal? && WellFormed(x) && i < |x.children| && BalancedAt(x, h)
    requires |x.children[i].entries| == 2 * t - 1
    ensures BalancedAt(SplitChild(x, i, t), h)
  {
    var cs := x.children;
    var halves := Split(cs[i], t);
    SplitBalanced(cs[i], t, h - 1);
    var r := SplitChild(x, i, t);
    assert r.children == cs[..i] + [halves.left, halves.right] + cs[i + 1..];
    forall k | 0 <= k < |r.children|
      ensures BalancedAt(r.children[k], h - 1)
    {
      if k < i {
        assert r.children[k] == cs[k];
      } else if k > i + 1 {
        assert r.children[k] == cs[k - 1];
      }
    }
  }

  /** The node `InsertNonFull` descends from keeps every leaf at the same depth. */
  lemma PreparedBalanced<V>(x: Node<V>, key: int, t: nat, h: nat)
    requires x.Internal? && WellFormed(x) && BalancedAt(x, h)
    ensures BalancedAt(Prepared(x, key, t), h)
  {
    var i := InsertionPoint(x.entries, key);
    if MustSplit(x, i, t) {
      SplitChildBalanced(x, i, t, h);
    }
  }

  /** `InsertNonFull` keeps every leaf at the same depth. */
  lemma {:induction false} InsertNonFullBalanced<V>(x: Node<V>, key: int, value: V, t: nat, h: nat)
    requires WellFormed(x) && BalancedAt(x, h)
    ensures BalancedAt(InsertNonFull(x, key, value, t), h)
    decreases Height(x)
  {
    if x.Internal? {
      var x', j := Prepared(x, key, t), Slot(x, key, t);
      PreparedBalanced(x, key, t, h);
      InsertNonFullBalanced(x'.children[j], key, value, t, h - 1);
      ReplaceChildBalanced(x', j, InsertNonFull(x'.children[j], key, value, t), h);
    }
  }

  /** Replacing a child by a node of the same depth keeps the parent balanced. */
  lemma ReplaceChildBalanced<V>(x: Node<V>, j: nat, c: Node<V>, h: nat)
    requires x.Internal? && j < |x.children| && BalancedAt(x, h) && BalancedAt(c, h - 1)
    ensures BalancedAt(Internal(x.entries, x.children[j := c]), h)
  {
  }

  // ---------------------------------------------------------------------------
  // Fill

  /** Every child of the node is `Filled`. */
  ghost predicate ChildrenFilled<V>(n: Node<V>, t: nat)
  {
    n.Internal? ==> forall i :: 0 <= i < |n.children| ==> Filled(n.children[i], t)
  }

  /** Both halves of a full node hold t-1 pairs and keep its filled children. */
  lemma SplitFilled<V>(y: Node<V>, t: nat)
    requires WellFormed(y) && |y.entries| == 2 * t - 1 && ChildrenFilled(y, t)
    ensures Filled(Split(y, t).left, t) && Filled(Split(y, t).right, t)
  {
    if y.Internal? {
      var cs := y.children;
      var halves := Split(y, t);
      assert halves.left.children == cs[..t] && halves.right.children == cs[t..];
      assert forall k :: 0 <= k < t ==> halves.left.children[k] == cs[k];
      assert forall k :: 0 <= k < t ==> halves.right.children[k] == cs[t + k];
    }
  }

  /** `SplitChild` of a full filled child leaves every child filled. */
  lemma SplitChildFilled<V>(x: Node<V>, i: nat, t: nat)
    requires x.Internal? && WellFormed(x) && i < |x.children| && ChildrenFilled(x, t)
    requires |x.children[i].entries| == 2 * t - 1
    ensures ChildrenFilled(SplitChild(x, i, t), t)
  {
    var cs := x.children;
    var halves := Split(cs[i], t);
    SplitFilled(cs[i], t);
    var r := SplitChild(x, i, t);
    assert r.children == cs[..i] + [halves.left, halves.right] + cs[i + 1..];
    forall k | 0 <= k < |r.children|
      ensures Filled(r.children[k], t)
    {
      if k < i {
        assert r.children[k] == cs[k];
      } else if k > i + 1 {
        assert r.children[k] == cs[k - 1];
      }
    }
  }

  /**
   The node `InsertNonFull` descends from keeps its children filled, and the child it
   enters is not full: a full one is split first.
   */
  lemma PreparedFilled<V>(x: Node<V>, key: int, t: nat)
    requires x.Internal? && WellFormed(x) && ChildrenFilled(x, t)
    ensures ChildrenFilled(Prepared(x, key, t), t)
    ensures |Prepared(x, key, t).children[Slot(x, key, t)].entries| < 2 * t - 1
  {
    var i := InsertionPoint(x.entries, key);
    if MustSplit(x, i, t) {
      SplitChildFilled(x, i, t);
    }
  }

  /** `InsertNonFull` on a node whose children are filled leaves them filled. */
  lemma {:induction false} InsertNonFullFilled<V>(x: Node<V>, key: int, value: V, t: nat)
    requires WellFormed(x) && ChildrenFilled(x, t)
    ensures ChildrenFilled(InsertNonFull(x, key, value, t), t)
    decreases Height(x)
  {
    if x.Internal? {
      var x', j := Prepared(x, key, t), Slot(x, key, t);
      PreparedFilled(x, key, t);
      var y := x'.children[j];
      InsertNonFullFilled(y, key, value, t);
      ReplaceChildFilled(x', j, InsertNonFull(y, key, value, t), t);
    }
  }

  /** Replacing a child by a filled node keeps the children filled. */
  lemma ReplaceChildFilled<V>(x: Node<V>, j: nat, c: Node<V>, t: nat)
    requires x.Internal? && j < |x.children| && ChildrenFilled(x, t) && Filled(c, t)
    ensures ChildrenFilled(Internal(x.entries, x.children[j := c]), t)
  {
  }

  // ---------------------------------------------------------------------------
  // The whole index

  /** A new index of minimum degree at least 2 is valid. */
  lemma NewValid<V>(t: nat)
    requires t >= 2
    ensures Valid(New<V>(t))
  {
  }

  /** The root `Insert` descends from: ordered, balanced, with filled children and room for a pair. */
  lemma GrowValid<V>(tree: Tree<V>)
    requires Valid(tree)
    ensures var root := if |tree.root.entries| == 2 * tree.t - 1 then Grow(tree.root, tree.t) else tree.root;
      && WellFormed(root) && Ordered(root) && ChildrenFilled(root, tree.t)
      && |root.entries| < 2 * tree.t - 1
      && BalancedAt(root, if root == tree.root then Height(tree.root) else Height(tree.root) + 1)
  {
    var t, root := tree.t, tree.root;
    if |root.entries| == 2 * t - 1 {
      GrowOrdered(root, t);
      GrowBalanced(root, t, Height(root));
      GrowFilled(root, t);
      assert Grow(root, t) != root by {
        assert |Grow(root, t).entries| == 1 < 2 * t - 1;
      }
    }
  }

  /** Splitting a full ordered root under a new root gives an ordered root. */
  lemma GrowOrdered<V>(root: Node<V>, t: nat)
    requires WellFormed(root) && Ordered(root) && |root.entries| == 2 * t - 1
    ensures Ordered(Grow(root, t))
  {
    var s := Internal([], [root]);
    assert SearchTree(s, None, None);
    SplitChildOrdered(s, 0, t, None, None);
  }

  /** Splitting a full root under a new root puts every leaf one level deeper. */
  lemma GrowBalanced<V>(root: Node<V>, t: nat, h: nat)
    requires WellFormed(root) && BalancedAt(root, h) && |root.entries| == 2 * t - 1
    ensures BalancedAt(Grow(root, t), h + 1)
  {
    var s := Internal([], [root]);
    assert BalancedAt(s, h + 1);
    SplitChildBalanced(s, 0, t, h + 1);
  }

  /** Splitting a full root whose children are filled under a new root gives filled children. */
  lemma GrowFilled<V>(root: Node<V>, t: nat)
    requires WellFormed(root) && RootFilled(root, t) && |root.entries| == 2 * t - 1 && t >= 2
    ensures ChildrenFilled(Grow(root, t), t)
  {
    var s := Internal([], [root]);
    assert Filled(root, t);
    SplitChildFilled(s, 0, t);
  }

  /** Insertion keeps the index valid. */
  lemma InsertValid<V>(tree: Tree<V>, key: int, value: V)
    requires Valid(tree)
    ensures Valid(Insert(tree, key, value))
  {
    var t := tree.t;
    var root := if |tree.root.entries| == 2 * t - 1 then Grow(tree.root, t) else tree.root;
    var h := if root == tree.root then Height(tree.root) else Height(tree.root) + 1;
    GrowValid(tree);
    InsertNonFullOrdered(root, key, value, t, None, None);
    InsertNonFullBalanced(root, key, value, t, h);
    InsertNonFullFilled(root, key, value, t);
    var r := InsertNonFull(root, key, value, t);
    BalancedHeight(r, h);
    assert Insert(tree, key, value) == Tree(t, r);
  }

  /** Every index built by inserts into a new index of minimum degree at least 2 is valid. */
  lemma {:induction false} BuildValid<V>(t: nat, pairs: seq<Entry<V>>)
    requires t >= 2
    ensures Valid(Build(t, pairs))
  {
    if |pairs| == 0 {
      NewValid<V>(t);
    } else {
      var last := pairs[|pairs| - 1];
      BuildValid(t, pairs[..|pairs| - 1]);
      InsertValid(Build(t, pairs[..|pairs| - 1]), last.key, last.value);
    }
  }

  // ---------------------------------------------------------------------------
  // Lookup after insertion

  /** After a key not yet stored is inserted, `Get` returns exactly the inserted pair. */
  lemma GetAfterInsert<V>(tree: Tree<V>, key: int, value: V)
    requires Valid(tree)
    requires forall e :: e in Contents(tree.root) ==> e.key != key
    ensures Get(Insert(tree, key, value), key) == Some(Entry(key, value))
  {
    var tree' := Insert(tree, key, value);
    InsertValid(tree, key, value);
    assert Entry(key, value) in Contents(tree'.root);
    GetComplete(tree', key);
  }

  /** Inserting a pair changes no lookup of another key: it finds a pair before exactly when it finds one after. */
  lemma InsertKeepsOtherKeys<V>(tree: Tree<V>, key: int, value: V, other: int)
    requires Valid(tree) && other != key
    ensures Get(Insert(tree, key, value), other).Some? <==> Get(tree, other).Some?
  {
    var tree' := Insert(tree, key, value);
    InsertValid(tree, key, value);
    GetComplete(tree, other);
    GetComplete(tree', other);
    if Get(tree', other).Some? {
      var e := Get(tree', other).value;
      assert e in Contents(tree.root);
    }
  }

  /** No two pairs in `pairs` share a key. */
  ghost predicate DistinctKeys<V>(pairs: seq<Entry<V>>)
  {
    forall i, j :: 0 <= i < j < |pairs| ==> pairs[i].key != pairs[j].key
  }

  /** In an index built from pairs with distinct keys, `Get` finds every pair by its key. */
  lemma GetAfterBuild<V>(t: nat, pairs: seq<Entry<V>>, k: nat)
    requires t >= 2 && DistinctKeys(pairs) && k < |pairs|
    ensures Get(Build(t, pairs), pairs[k].key) == Some(pairs[k])
  {
    var tree := Build(t, pairs);
    BuildValid(t, pairs);
    assert pairs[k] in multiset(pairs);
    GetComplete(tree, pairs[k].key);
    var e := Get(tree, pairs[k].key).value;
    assert e in multiset(pairs);
    var j :| 0 <= j < |pairs| && pairs[j] == e;
  }
}
