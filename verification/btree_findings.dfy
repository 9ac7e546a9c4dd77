/**
 Two discrepancies in the B-tree index, each shown on a concrete input.

 `SplitChild` moves keys but not values. The source keeps a node's keys and values in
 two parallel lists; the split moves the middle key up and the upper keys to the new
 node, while every value list stays where it was. After a split the parent has one key
 more than values and the new node has keys and no values, so a lookup that finds a
 moved key reads the value list at an index it does not have. `BTreeInsert.SplitChild`
 moves each value with its key.

 `LessThanOrEqualTo` and `LessThan` test the loop condition the wrong way round. Their
 scans collect the leading keys while `key.CompareTo(Keys[i]) <= 0` (resp. `< 0`), that
 is while the stored key is at least (resp. above) the bound: the test of the
 greater-than scans. On a search tree that returns nothing below the bound.
 `BTreeSearch.LessThanOrEqualTo` and `BTreeSearch.LessThan` collect while the stored key
 is at most (resp. below) the bound.
 */
module BTreeFindings {

  import opened Wrappers
  import opened BTree
  import opened BTreeSearch
  import opened BTreeInsert

  // ---------------------------------------------------------------------------
  // SplitChild as written

  /** A node as the source stores it: the leaf flag and three parallel lists. */
  datatype RawNode<V> = RawNode(isLeaf: bool, keys: seq<int>, values: seq<V>, children: seq<RawNode<V>>)

  /** Every key of the node has its value at the same index. */
  predicate Paired<V>(n: RawNode<V>)
  {
    |n.keys| == |n.values|
  }

  /**
   `SplitChild(x, i)` as written: child `y` keeps its first t-1 keys (and first t
   children), its key t-1 is inserted into `x` at `i`, a new node `z` gets the last t-1
   keys (and last t children) and an empty value list. No value list changes.
   */
  function SourceSplitChild<V>(x: RawNode<V>, i: nat, t: nat): (r: RawNode<V>)
    requires 1 <= t && i < |x.children| && i <= |x.keys|
    requires |x.children[i].keys| == 2 * t - 1
    requires !x.children[i].isLeaf ==> |x.children[i].children| == 2 * t
  {
    var y := x.children[i];
    var z := RawNode(y.isLeaf, y.keys[t..], [], if y.isLeaf then [] else y.children[t..]);
    var y' := y.(keys := y.keys[..t - 1], children := if y.isLeaf then y.children else y.children[..t]);
    x.(keys := x.keys[..i] + [y.keys[t - 1]] + x.keys[i..], children := x.children[..i] + [y', z] + x.children[i + 1..])
  }

  /**
   Whatever the input, a split as written leaves the parent with one key more than it
   has values, the split child with t values more than keys, and (for t >= 2) the new
   node with keys and no values.
   */
  lemma SourceSplitUnpairs<V>(x: RawNode<V>, i: nat, t: nat)
    requires 1 <= t && i < |x.children| && i <= |x.keys|
    requires |x.children[i].keys| == 2 * t - 1
    requires !x.children[i].isLeaf ==> |x.children[i].children| == 2 * t
    requires Paired(x) && Paired(x.children[i])
    ensures var r := SourceSplitChild(x, i, t);
      && |r.keys| == |r.values| + 1
      && |r.children[i].values| == |r.children[i].keys| + t
      && |r.children[i + 1].keys| == t - 1 && |r.children[i + 1].values| == 0
  {
    var r := SourceSplitChild(x, i, t);
    assert r.children[i] == x.children[i].(keys := x.children[i].keys[..t - 1],
      children := if x.children[i].isLeaf then x.children[i].children else x.children[i].children[..t]);
  }

  /**
   The first root split of a tree of degree 2 holding keys 1, 2, 3 with values 10, 20,
   30: the new root holds key 2 and no value, and key 3 sits in a node without values.
   */
  lemma SourceSplitExample()
    ensures var y := RawNode(true, [1, 2, 3], [10, 20, 30], []);
      var r := SourceSplitChild(RawNode(false, [], [], [y]), 0, 2);
      && r.keys == [2] && r.values == []
      && r.children[0].keys == [1] && r.children[0].values == [10, 20, 30]
      && r.children[1].keys == [3] && r.children[1].values == []
  {
  }

  /**
   The same split with pairs: the root holds the pair (2, 20) and each half holds its
   own pair.
   */
  lemma CorrectedSplitExample()
    ensures var y := Leaf([Entry(1, 10), Entry(2, 20), Entry(3, 30)]);
      var r := SplitChild(Internal([], [y]), 0, 2);
      && r.entries == [Entry(2, 20)]
      && r.children[0].entries == [Entry(1, 10)]
      && r.children[1].entries == [Entry(3, 30)]
  {
    var y := Leaf([Entry(1, 10), Entry(2, 20), Entry(3, 30)]);
    SplitChildParts(Internal([], [y]), 0, 2);
  }

  // ---------------------------------------------------------------------------
  // The less-than scans as written

  /** `LessThanOrEqualTo(bound)` as written: collect the leading pairs while the key is >= bound. */
  function SourceLessThanOrEqualTo<V(==)>(tree: Tree<V>, bound: int): (r: seq<Entry<V>>)
    requires WellFormed(tree.root)
    ensures forall j :: 0 <= j < |r| ==> r[j] in Entries(tree.root) && r[j].key >= bound
  {
    Scan(tree.root, Downward, KeyAtLeast(bound))
  }

  /** `LessThan(bound)` as written: collect the leading pairs while the key is > bound. */
  function SourceLessThan<V(==)>(tree: Tree<V>, bound: int): (r: seq<Entry<V>>)
    requires WellFormed(tree.root)
    ensures forall j :: 0 <= j < |r| ==> r[j] in Entries(tree.root) && r[j].key > bound
  {
    Scan(tree.root, Downward, KeyAbove(bound))
  }

  /**
   A tree holding one pair with key 5, and bound 10: the scans as written return nothing;
   the corrected scans return the pair.
   */
  lemma LessThanExample()
    ensures var tree := Tree(2, Leaf([Entry(5, 50)]));
      && SourceLessThanOrEqualTo(tree, 10) == []
      && SourceLessThan(tree, 10) == []
      && LessThanOrEqualTo(tree, 10) == [Entry(5, 50)]
      && LessThan(tree, 10) == [Entry(5, 50)]
  {
    var es := [Entry(5, 50)];
    assert es[1..] == [];
    assert Filter(es, KeyAtMost(10)) == [Entry(5, 50)];
    assert Filter(es, KeyBelow(10)) == [Entry(5, 50)];
  }
}
