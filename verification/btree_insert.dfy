/**
 Insertion into the B-tree index (`Insert`, `SplitChild`, `InsertNonFull`), with the
 pairs kept together: a split moves each value with its key.

 The operations are pure: each returns the rebuilt node instead of mutating it.
 Every one keeps the tree well formed and adds exactly the inserted pair to the
 stored pairs; the order, balance and fill invariants are proved in `BTreeInvariants`.
 */
module BTreeInsert {

  import opened Wrappers
  import opened BTree

  /** A full node cut around its middle pair. */
  datatype Halves<V> = Halves(left: Node<V>, median: Entry<V>, right: Node<V>)

  /**
   The node-level half of `SplitChild`: a node with 2t-1 pairs becomes a left node with
   the first t-1 pairs (and first t children), the middle pair, and a right node with
   the last t-1 pairs (and last t children). Nothing is lost or added.
   */
  function Split<V(==)>(y: Node<V>, t: nat): (h: Halves<V>)
    requires WellFormed(y) && |y.entries| == 2 * t - 1
    ensures WellFormed(h.left) && WellFormed(h.right)
    ensures h.left.Leaf? == y.Leaf? && h.right.Leaf? == y.Leaf?
    ensures |h.left.entries| == t - 1 && |h.right.entries| == t - 1
    ensures Contents(h.left) + multiset{h.median} + Contents(h.right) == Contents(y)
    ensures Height(h.left) <= Height(y) && Height(h.right) <= Height(y)
  {
    var es := y.entries;
    match y
    case Leaf(_) =>
      SplitPairs(es, t);
      Halves(Leaf(es[..t - 1]), es[t - 1], Leaf(es[t..]))
    case Internal(_, cs) =>
      SplitPairs(es, t);
      SplitChildren(cs, t);
      Halves(Internal(es[..t - 1], cs[..t]), es[t - 1], Internal(es[t..], cs[t..]))
  }

  /** The pairs of a full node, cut around the middle one. */
  lemma SplitPairs<V>(es: seq<Entry<V>>, t: nat)
    requires |es| == 2 * t - 1
    ensures multiset(es[..t - 1]) + multiset{es[t - 1]} + multiset(es[t..]) == multiset(es)
  {
    assert es == es[..t - 1] + [es[t - 1]] + es[t..];
  }

  /** The children of a full node, cut in two halves of `t`. */
  lemma SplitChildren<V>(cs: seq<Node<V>>, t: nat)
    requires |cs| == 2 * t && forall k :: 0 <= k < |cs| ==> WellFormed(cs[k])
    ensures forall k :: 0 <= k < t ==> WellFormed(cs[..t][k])
    ensures forall k :: 0 <= k < t ==> WellFormed(cs[t..][k])
    ensures multiset(EntriesOf(cs[..t])) + multiset(EntriesOf(cs[t..])) == multiset(EntriesOf(cs))
    ensures MaxHeight(cs[..t]) <= MaxHeight(cs) && MaxHeight(cs[t..]) <= MaxHeight(cs)
  {
    assert cs == cs[..t] + cs[t..];
    EntriesOfAppend(cs[..t], cs[t..]);
    SliceHeight(cs, 0, t);
    SliceHeight(cs, t, |cs|);
    assert cs[0..t] == cs[..t] && cs[t..|cs|] == cs[t..];
  }

  /**
   `SplitChild(x, i)`: child `i` of `x`, which holds 2t-1 pairs, is replaced by its two
   halves, and its middle pair moves up into `x` at position `i`. The stored pairs are
   unchanged; every other pair and child keeps its place.
   */
  function SplitChild<V(==)>(x: Node<V>, i: nat, t: nat): (r: Node<V>)
    requires x.Internal? && WellFormed(x) && i < |x.children|
    requires |x.children[i].entries| == 2 * t - 1
    ensures r.Internal? && WellFormed(r)
    ensures Contents(r) == Contents(x)
    ensures |r.entries| == |x.entries| + 1 && |r.children| == |x.children| + 1
    ensures r.entries[..i] == x.entries[..i] && r.entries[i + 1..] == x.entries[i..]
    ensures r.children[..i] == x.children[..i] && r.children[i + 2..] == x.children[i + 1..]
    ensures |r.children[i].entries| == t - 1 && |r.children[i + 1].entries| == t - 1
    ensures forall k :: 0 <= k < |r.children| ==> Height(r.children[k]) < Height(x)
  {
    var es, cs := x.entries, x.children;
    var h := Split(cs[i], t);
    var es' := es[..i] + [h.median] + es[i..];
    var cs' := Splice(cs, i, h.left, h.right);
    SpliceEntries(cs, i, h.left, h.right);
    SpliceHeight(cs, i, h.left, h.right);
    InsertPairs(es, i, h.median);
    assert es'[..i] == es[..i] && es'[i + 1..] == es[i..];
    var r := Internal(es', cs');
    assert Contents(r) == multiset(es') + multiset(EntriesOf(cs'));
    Regroup(multiset(es), multiset(es'), multiset(EntriesOf(cs)), multiset(EntriesOf(cs')),
            Contents(cs[i]), Contents(h.left), Contents(h.right), h.median);
    r
  }

  /**
   Where `SplitChild` puts the split child's pairs: its middle pair (key and value) at
   position `i` of the parent, its first t-1 pairs in child `i`, its last t-1 in child
   `i + 1`.
   */
  lemma SplitChildParts<V>(x: Node<V>, i: nat, t: nat)
    requires x.Internal? && WellFormed(x) && i < |x.children|
    requires |x.children[i].entries| == 2 * t - 1
    ensures SplitChild(x, i, t).entries[i] == x.children[i].entries[t - 1]
    ensures SplitChild(x, i, t).children[i].entries == x.children[i].entries[..t - 1]
    ensures SplitChild(x, i, t).children[i + 1].entries == x.children[i].entries[t..]
  {
    var h := Split(x.children[i], t);
    assert (x.entries[..i] + [h.median] + x.entries[i..])[i] == h.median;
  }

  /** The multiset bookkeeping of a split: a pair moves up and a child's pairs are shared by two. */
  lemma Regroup<T>(es: multiset<T>, es': multiset<T>, cs: multiset<T>, cs': multiset<T>,
                   y: multiset<T>, a: multiset<T>, b: multiset<T>, m: T)
    requires es' == es + multiset{m}
    requires cs' + y == cs + a + b
    requires a + multiset{m} + b == y
    ensures es' + cs' == es + cs
  {
    forall e
      ensures (es' + cs')[e] == (es + cs)[e]
    {
      assert es'[e] == es[e] + multiset{m}[e];
      assert (cs' + y)[e] == (cs + a + b)[e];
      assert a[e] + multiset{m}[e] + b[e] == y[e];
    }
  }

  /** `cs` with child `i` replaced by `a` and `b`. */
  function Splice<V(==)>(cs: seq<Node<V>>, i: nat, a: Node<V>, b: Node<V>): (r: seq<Node<V>>)
    requires i < |cs|
    requires forall k :: 0 <= k < |cs| ==> WellFormed(cs[k])
    requires WellFormed(a) && WellFormed(b)
    ensures |r| == |cs| + 1 && r[i] == a && r[i + 1] == b
    ensures r[..i] == cs[..i] && r[i + 2..] == cs[i + 1..]
    ensures forall k :: 0 <= k < |r| ==> WellFormed(r[k])
  {
    var r := cs[..i] + [a, b] + cs[i + 1..];
    assert r[..i] == cs[..i] && r[i + 2..] == cs[i + 1..];
    assert forall k :: i + 2 <= k < |r| ==> r[k] == cs[k - 1];
    r
  }

  /** Inserting a pair at position `i` adds it to the multiset of pairs. */
  lemma InsertPairs<V>(es: seq<Entry<V>>, i: nat, e: Entry<V>)
    requires i <= |es|
    ensures multiset(es[..i] + [e] + es[i..]) == multiset(es) + multiset{e}
  {
    assert es == es[..i] + es[i..];
  }

  /** The pairs of a children list after child `i` is replaced by two nodes. */
  lemma SpliceEntries<V>(cs: seq<Node<V>>, i: nat, a: Node<V>, b: Node<V>)
    requires i < |cs|
    requires forall k :: 0 <= k < |cs| ==> WellFormed(cs[k])
    requires WellFormed(a) && WellFormed(b)
    ensures multiset(EntriesOf(Splice(cs, i, a, b))) + multiset(Entries(cs[i]))
         == multiset(EntriesOf(cs)) + multiset(Entries(a)) + multiset(Entries(b))
  {
    var r := Splice(cs, i, a, b);
    assert r == cs[..i] + [a, b] + cs[i + 1..];
    EntriesOfAround(cs, i);
    EntriesOfAppend(cs[..i] + [a, b], cs[i + 1..]);
    EntriesOfAppend(cs[..i], [a, b]);
    assert [a, b][1..] == [b];
    assert EntriesOf([b]) == Entries(b) + EntriesOf([]);
  }

  /** Replacing child `i` by two nodes no taller than it keeps every child below the parent. */
  lemma SpliceHeight<V>(cs: seq<Node<V>>, i: nat, a: Node<V>, b: Node<V>)
    requires i < |cs| && Height(a) <= Height(cs[i]) && Height(b) <= Height(cs[i])
    requires forall k :: 0 <= k < |cs| ==> WellFormed(cs[k])
    requires WellFormed(a) && WellFormed(b)
    ensures forall k :: 0 <= k < |cs| + 1 ==> Height(Splice(cs, i, a, b)[k]) <= MaxHeight(cs)
  {
    var r := Splice(cs, i, a, b);
    forall k | 0 <= k < |r|
      ensures Height(r[k]) <= MaxHeight(cs)
    {
      if k < i {
        assert r[k] == r[..i][k];
        MaxHeightIsUpperBound(cs, k);
      } else if k <= i + 1 {
        MaxHeightIsUpperBound(cs, i);
      } else {
        assert r[k] == r[i + 2..][k - i - 2];
        MaxHeightIsUpperBound(cs, k - 1);
      }
    }
  }

  /** A child that gains one pair makes its parent gain that pair. */
  lemma ReplaceChild<V>(x: Node<V>, j: nat, c: Node<V>, e: Entry<V>)
    requires x.Internal? && j < |x.children| && WellFormed(x) && WellFormed(c)
    requires Contents(c) == Contents(x.children[j]) + multiset{e}
    ensures WellFormed(Internal(x.entries, x.children[j := c]))
    ensures Contents(Internal(x.entries, x.children[j := c])) == Contents(x) + multiset{e}
  {
    var cs, cs' := x.children, x.children[j := c];
    assert forall k :: 0 <= k < |cs'| ==> WellFormed(cs'[k]);
    EntriesOfAround(cs, j);
    EntriesOfAround(cs', j);
    assert cs'[..j] == cs[..j] && cs'[j + 1..] == cs[j + 1..];
    assert multiset(EntriesOf(cs')) == multiset(EntriesOf(cs)) + multiset{e};
  }

  /** Whether `InsertNonFull` must split child `i` before descending into it. */
  predicate MustSplit<V(==)>(x: Node<V>, i: nat, t: nat)
    requires x.Internal? && i < |x.children|
  {
    |x.children[i].entries| == 2 * t - 1
  }

  /**
   The node `InsertNonFull` descends from in an internal node `x`: `x` itself, or `x`
   after `SplitChild` when the child to the right of the pairs not greater than the key
   is full. It stores the same pairs as `x`.
   */
  function Prepared<V(==)>(x: Node<V>, key: int, t: nat): (x': Node<V>)
    requires x.Internal? && WellFormed(x)
    ensures x'.Internal? && WellFormed(x') && Contents(x') == Contents(x)
    ensures |x.entries| <= |x'.entries| <= |x.entries| + 1
  {
    var i := InsertionPoint(x.entries, key);
    if MustSplit(x, i, t) then SplitChild(x, i, t) else x
  }

  /**
   The child of `Prepared(x, key, t)` that `InsertNonFull` descends into: the one right of
   the pairs not greater than the key, moved one to the right when the key is greater
   than the pair a split brought up. It is lower than `x`.
   */
  function Slot<V(==)>(x: Node<V>, key: int, t: nat): (j: nat)
    requires x.Internal? && WellFormed(x)
    ensures j < |Prepared(x, key, t).children|
    ensures Height(Prepared(x, key, t).children[j]) < Height(x)
  {
    var i := InsertionPoint(x.entries, key);
    var x' := Prepared(x, key, t);
    var j := if MustSplit(x, i, t) && key > x'.entries[i].key then i + 1 else i;
    ChildBelow(x, x', j);
    j
  }

  /**
   `InsertNonFull(x, key, value)`: in a leaf, the pair goes after every pair whose key is
   not greater; in an internal node, the walk splits the child it is about to enter if
   that child is full (`Prepared`), picks the child (`Slot`) and inserts there. Exactly
   one pair is added to the subtree, and the node itself gains at most one pair.
   */
  function InsertNonFull<V(==)>(x: Node<V>, key: int, value: V, t: nat): (r: Node<V>)
    requires WellFormed(x)
    ensures WellFormed(r) && r.Leaf? == x.Leaf?
    ensures Contents(r) == Contents(x) + multiset{Entry(key, value)}
    ensures |x.entries| <= |r.entries| <= |x.entries| + 1
    decreases Height(x)
  {
    match x
    case Leaf(es) =>
      var i := InsertionPoint(es, key);
      InsertPairs(es, i, Entry(key, value));
      Leaf(es[..i] + [Entry(key, value)] + es[i..])
    case Internal(_, _) =>
      var x', j := Prepared(x, key, t), Slot(x, key, t);
      var c := InsertNonFull(x'.children[j], key, value, t);
      ReplaceChild(x', j, c, Entry(key, value));
      Internal(x'.entries, x'.children[j := c])
  }

  /** A child of `x` or, when `x'` came from a split, any child of `x'`, is lower than `x`. */
  lemma ChildBelow<V>(x: Node<V>, x': Node<V>, j: nat)
    requires x.Internal? && x'.Internal? && j < |x'.children|
    requires x' == x || forall k :: 0 <= k < |x'.children| ==> Height(x'.children[k]) < Height(x)
    ensures Height(x'.children[j]) < Height(x)
  {
    if x' == x {
      MaxHeightIsUpperBound(x.children, j);
    }
  }

  /** The root a full root is split into: a fresh internal node with the old root as its only child. */
  function Grow<V(==)>(root: Node<V>, t: nat): (r: Node<V>)
    requires WellFormed(root) && |root.entries| == 2 * t - 1
    ensures r.Internal? && WellFormed(r) && |r.entries| == 1
    ensures Contents(r) == Contents(root)
  {
    var s := Internal([], [root]);
    assert EntriesOf([root]) == Entries(root) + EntriesOf([]);
    SplitChild(s, 0, t)
  }

  /**
   `Insert(key, value)`: a full root is first split under a new root, so the tree grows
   one level; then the pair is inserted from the root down. The index afterwards stores
   exactly the old pairs plus the new one.
   */
  function Insert<V(==)>(tree: Tree<V>, key: int, value: V): (r: Tree<V>)
    requires WellFormed(tree.root)
    ensures r.t == tree.t && WellFormed(r.root)
    ensures Contents(r.root) == Contents(tree.root) + multiset{Entry(key, value)}
  {
    var root := if |tree.root.entries| == 2 * tree.t - 1 then Grow(tree.root, tree.t) else tree.root;
    Tree(tree.t, InsertNonFull(root, key, value, tree.t))
  }

  /** The index built by inserting `pairs` one after another into an empty index. */
  function Build<V(==)>(t: nat, pairs: seq<Entry<V>>): (r: Tree<V>)
    ensures r.t == t && WellFormed(r.root)
    ensures Contents(r.root) == multiset(pairs)
  {
    if |pairs| == 0 then New(t)
    else
      var last := pairs[|pairs| - 1];
      assert pairs == pairs[..|pairs| - 1] + [last];
      Insert(Build(t, pairs[..|pairs| - 1]), last.key, last.value)
  }
}
