/**
 The in-memory B-tree index of minimum degree `t` (class `BTree<K,V>`): nodes, the
 stored pairs of a subtree, and the structural invariants the operations keep.

 A node holds (key, value) pairs rather than two parallel lists, so a value always
 travels with its key; keys are `int`. The index never rejects a duplicate key, so
 keys within a node are non-decreasing and the separator bounds are inclusive on
 both sides.
 */
module BTree {

  import opened Wrappers

  /** One stored pair (`Tuple<K,V>`). */
  datatype Entry<V> = Entry(key: int, value: V)

  /** A node (`BTree.Node`): a leaf, or an internal node with one more child than pairs. */
  datatype Node<V> =
    | Leaf(entries: seq<Entry<V>>)
    | Internal(entries: seq<Entry<V>>, children: seq<Node<V>>)

  /** The index object: its minimum degree and its root. */
  datatype Tree<V> = Tree(t: nat, root: Node<V>)

  /** `new BTree<K,V>(t)`: a single empty leaf. */
  function New<V(==)>(t: nat): (r: Tree<V>)
    ensures r.t == t && |Entries(r.root)| == 0
  {
    Tree(t, Leaf([]))
  }

  // ---------------------------------------------------------------------------
  // Stored pairs

  /**
   The pairs stored in a subtree, the node's own pairs first and then each child's
   from left to right: the order in which the range scans emit them.
   */
  function Entries<V(==)>(n: Node<V>): seq<Entry<V>>
  {
    match n
    case Leaf(es) => es
    case Internal(es, cs) => es + EntriesOf(cs)
  }

  function EntriesOf<V(==)>(cs: seq<Node<V>>): seq<Entry<V>>
  {
    if |cs| == 0 then [] else Entries(cs[0]) + EntriesOf(cs[1..])
  }

  /** The abstract content of a subtree: a multiset of pairs. */
  function Contents<V(==)>(n: Node<V>): multiset<Entry<V>>
  {
    multiset(Entries(n))
  }

  lemma {:induction false} EntriesOfAppend<V>(xs: seq<Node<V>>, ys: seq<Node<V>>)
    ensures EntriesOf(xs + ys) == EntriesOf(xs) + EntriesOf(ys)
  {
    if |xs| == 0 {
      assert xs + ys == ys;
    } else {
      assert (xs + ys)[1..] == xs[1..] + ys;
      EntriesOfAppend(xs[1..], ys);
    }
  }

  /** The pairs of a children list, cut around child `j`. */
  lemma EntriesOfAround<V>(cs: seq<Node<V>>, j: nat)
    requires j < |cs|
    ensures EntriesOf(cs) == EntriesOf(cs[..j]) + Entries(cs[j]) + EntriesOf(cs[j + 1..])
  {
    assert cs == cs[..j] + cs[j..];
    EntriesOfAppend(cs[..j], cs[j..]);
    assert cs[j..][1..] == cs[j + 1..];
  }

  /** Every pair of a children list lies in one of the children, and conversely. */
  lemma {:induction false} InSomeChild<V>(cs: seq<Node<V>>, e: Entry<V>) returns (j: nat)
    requires e in EntriesOf(cs)
    ensures j < |cs| && e in Entries(cs[j])
  {
    if e in Entries(cs[0]) {
      j := 0;
    } else {
      var k := InSomeChild(cs[1..], e);
      j := k + 1;
    }
  }

  lemma ChildEntriesIn<V>(cs: seq<Node<V>>, j: nat, e: Entry<V>)
    requires j < |cs| && e in Entries(cs[j])
    ensures e in EntriesOf(cs)
  {
    EntriesOfAround(cs, j);
  }

  /** The pairs of a contiguous run of children are pairs of the whole list. */
  lemma SliceEntriesIn<V>(cs: seq<Node<V>>, from: nat, to: nat, e: Entry<V>)
    requires from <= to <= |cs| && e in EntriesOf(cs[from..to])
    ensures e in EntriesOf(cs)
  {
    var j := InSomeChild(cs[from..to], e);
    assert cs[from..to][j] == cs[from + j];
    ChildEntriesIn(cs, from + j, e);
  }

  // ---------------------------------------------------------------------------
  // Structural invariants

  /** Every internal node has exactly one more child than pairs. */
  ghost predicate WellFormed<V>(n: Node<V>)
  {
    match n
    case Leaf(_) => true
    case Internal(es, cs) =>
      |cs| == |es| + 1 && forall i :: 0 <= i < |cs| ==> WellFormed(cs[i])
  }

  ghost predicate Sorted<V>(es: seq<Entry<V>>)
  {
    forall i, j :: 0 <= i < j < |es| ==> es[i].key <= es[j].key
  }

  /** `k` lies above the optional lower bound `lo` (inclusive). */
  predicate Above(lo: Option<int>, k: int)
  {
    lo.None? || lo.value <= k
  }

  /** `k` lies below the optional upper bound `hi` (inclusive). */
  predicate Below(k: int, hi: Option<int>)
  {
    hi.None? || k <= hi.value
  }

  /** The lower bound for child `i`: the separator to its left, or the node's own bound. */
  function ChildLo<V(==)>(es: seq<Entry<V>>, i: nat, lo: Option<int>): Option<int>
    requires i <= |es|
  {
    if i == 0 then lo else Some(es[i - 1].key)
  }

  /** The upper bound for child `i`: the separator to its right, or the node's own bound. */
  function ChildHi<V(==)>(es: seq<Entry<V>>, i: nat, hi: Option<int>): Option<int>
    requires i <= |es|
  {
    if i == |es| then hi else Some(es[i].key)
  }

  /**
   Search-tree order of a subtree whose keys must lie in [lo, hi]: the node's keys are
   non-decreasing and within the bounds, and child `i` lies between the separators
   `keys[i-1]` and `keys[i]`.
   */
  ghost predicate SearchTree<V>(n: Node<V>, lo: Option<int>, hi: Option<int>)
  {
    && Sorted(n.entries)
    && (forall j :: 0 <= j < |n.entries| ==> Above(lo, n.entries[j].key) && Below(n.entries[j].key, hi))
    && match n
       case Leaf(_) => true
       case Internal(es, cs) =>
         && |cs| == |es| + 1
         && forall i :: 0 <= i < |cs| ==> SearchTree(cs[i], ChildLo(es, i, lo), ChildHi(es, i, hi))
  }

  ghost predicate Ordered<V>(n: Node<V>)
  {
    SearchTree(n, None, None)
  }

  /** Every leaf of the subtree lies `h` levels below it. */
  ghost predicate BalancedAt<V>(n: Node<V>, h: nat)
  {
    match n
    case Leaf(_) => h == 0
    case Internal(_, cs) => h > 0 && forall i :: 0 <= i < |cs| ==> BalancedAt(cs[i], h - 1)
  }

  /** Every node of the subtree holds between t-1 and 2t-1 pairs. */
  ghost predicate Filled<V>(n: Node<V>, t: nat)
  {
    && t - 1 <= |n.entries| <= 2 * t - 1
    && (n.Internal? ==> forall i :: 0 <= i < |n.children| ==> Filled(n.children[i], t))
  }

  /** The root may hold fewer pairs; every other node is `Filled`. */
  ghost predicate RootFilled<V>(n: Node<V>, t: nat)
  {
    && |n.entries| <= 2 * t - 1
    && (n.Internal? ==> forall i :: 0 <= i < |n.children| ==> Filled(n.children[i], t))
  }

  /** The invariant of a B-tree of minimum degree t >= 2. */
  ghost predicate Valid<V>(tree: Tree<V>)
  {
    && tree.t >= 2
    && WellFormed(tree.root)
    && Ordered(tree.root)
    && BalancedAt(tree.root, Height(tree.root))
    && RootFilled(tree.root, tree.t)
  }

  // ---------------------------------------------------------------------------
  // Height

  /** Length of the longest path from the node down to a leaf. */
  function Height<V(==)>(n: Node<V>): nat
  {
    match n
    case Leaf(_) => 0
    case Internal(_, cs) => 1 + MaxHeight(cs)
  }

  function MaxHeight<V(==)>(cs: seq<Node<V>>): nat
  {
    if |cs| == 0 then 0
    else
      var rest := MaxHeight(cs[1..]);
      if Height(cs[0]) < rest then rest else Height(cs[0])
  }

  lemma {:induction false} MaxHeightIsUpperBound<V>(cs: seq<Node<V>>, i: nat)
    requires i < |cs|
    ensures Height(cs[i]) <= MaxHeight(cs)
  {
    if i > 0 {
      MaxHeightIsUpperBound(cs[1..], i - 1);
    }
  }

  lemma {:induction false} MaxHeightIsLeast<V>(cs: seq<Node<V>>, h: nat)
    requires forall i :: 0 <= i < |cs| ==> Height(cs[i]) <= h
    ensures MaxHeight(cs) <= h
  {
    if |cs| > 0 {
      MaxHeightIsLeast(cs[1..], h);
    }
  }

  /** The children list's height bounds that of any of its contiguous slices. */
  lemma SliceHeight<V>(cs: seq<Node<V>>, a: nat, b: nat)
    requires a <= b <= |cs|
    ensures MaxHeight(cs[a..b]) <= MaxHeight(cs)
  {
    forall i | 0 <= i < b - a
      ensures Height(cs[a..b][i]) <= MaxHeight(cs)
    {
      MaxHeightIsUpperBound(cs, a + i);
    }
    MaxHeightIsLeast(cs[a..b], MaxHeight(cs));
  }

  /** In a balanced subtree the height is the common depth of its leaves. */
  lemma {:induction false} BalancedHeight<V>(n: Node<V>, h: nat)
    requires WellFormed(n) && BalancedAt(n, h)
    ensures Height(n) == h
  {
    if n.Internal? {
      var cs := n.children;
      forall i | 0 <= i < |cs|
        ensures Height(cs[i]) == h - 1
      {
        BalancedHeight(cs[i], h - 1);
      }
      MaxHeightIsLeast(cs, h - 1);
      MaxHeightIsUpperBound(cs, 0);
    }
  }

  // ---------------------------------------------------------------------------
  // Scanning a node's pairs

  /** `k < bound`: the key compares below the bound. */
  function KeyBelow(bound: int): int -> bool
  {
    k => k < bound
  }

  /** `k <= bound`. */
  function KeyAtMost(bound: int): int -> bool
  {
    k => k <= bound
  }

  /** `k > bound`. */
  function KeyAbove(bound: int): int -> bool
  {
    k => k > bound
  }

  /** `k >= bound`. */
  function KeyAtLeast(bound: int): int -> bool
  {
    k => k >= bound
  }

  /** The negation of a test on keys. */
  function Not(p: int -> bool): int -> bool
  {
    k => !p(k)
  }

  /**
   The number of leading pairs whose key satisfies `p`: where a `while (i < Keys.Count
   && ...) i++` loop stops.
   */
  function CountWhile<V(==)>(es: seq<Entry<V>>, p: int -> bool): (i: nat)
    ensures i <= |es|
    ensures forall j :: 0 <= j < i ==> p(es[j].key)
    ensures i < |es| ==> !p(es[i].key)
  {
    if |es| == 0 || !p(es[0].key) then 0 else 1 + CountWhile(es[1..], p)
  }

  /**
   Where `InsertNonFull`'s backwards loop stops: scanning from the last pair, step left
   past every pair whose key is greater than `key`.
   */
  function InsertionPoint<V(==)>(es: seq<Entry<V>>, key: int): (i: nat)
    ensures i <= |es|
    ensures forall j :: i <= j < |es| ==> key < es[j].key
    ensures i > 0 ==> es[i - 1].key <= key
  {
    if |es| == 0 || es[|es| - 1].key <= key then |es|
    else InsertionPoint(es[..|es| - 1], key)
  }

  /** The pairs of `s` whose key satisfies `keep`, in order and with their multiplicity. */
  function Filter<V(==)>(s: seq<Entry<V>>, keep: int -> bool): seq<Entry<V>>
  {
    if |s| == 0 then []
    else (if keep(s[0].key) then [s[0]] else []) + Filter(s[1..], keep)
  }

  /** Every pair a filter keeps is a pair of `s` that satisfies `keep`. */
  lemma {:induction false} FilterSound<V>(s: seq<Entry<V>>, keep: int -> bool)
    ensures forall j :: 0 <= j < |Filter(s, keep)| ==> Filter(s, keep)[j] in s && keep(Filter(s, keep)[j].key)
  {
    if |s| > 0 {
      FilterSound(s[1..], keep);
      var head: seq<Entry<V>> := if keep(s[0].key) then [s[0]] else [];
      var tail := Filter(s[1..], keep);
      forall j | 0 <= j < |head + tail|
        ensures (head + tail)[j] in s && keep((head + tail)[j].key)
      {
        if j >= |head| {
          assert (head + tail)[j] == tail[j - |head|];
          assert tail[j - |head|] in s[1..];
        }
      }
    }
  }

  lemma {:induction false} FilterAppend<V>(a: seq<Entry<V>>, b: seq<Entry<V>>, keep: int -> bool)
    ensures Filter(a + b, keep) == Filter(a, keep) + Filter(b, keep)
  {
    if |a| == 0 {
      assert a + b == b;
    } else {
      assert (a + b)[1..] == a[1..] + b;
      FilterAppend(a[1..], b, keep);
    }
  }

  /** No pair of `s` satisfies `keep`. */
  ghost predicate NoneKept<V>(s: seq<Entry<V>>, keep: int -> bool)
  {
    forall i :: 0 <= i < |s| ==> !keep(s[i].key)
  }

  lemma {:induction false} FilterNone<V>(s: seq<Entry<V>>, keep: int -> bool)
    requires NoneKept(s, keep)
    ensures Filter(s, keep) == []
  {
    if |s| > 0 {
      FilterNone(s[1..], keep);
    }
  }

  lemma {:induction false} FilterAll<V>(s: seq<Entry<V>>, keep: int -> bool)
    requires forall i :: 0 <= i < |s| ==> keep(s[i].key)
    ensures Filter(s, keep) == s
  {
    if |s| > 0 {
      FilterAll(s[1..], keep);
    }
  }

  /** A filter keeps exactly the occurrences of the pairs it selects. */
  lemma {:induction false} FilterCount<V>(s: seq<Entry<V>>, keep: int -> bool, e: Entry<V>)
    ensures multiset(Filter(s, keep))[e] == if keep(e.key) then multiset(s)[e] else 0
  {
    if |s| > 0 {
      assert s == [s[0]] + s[1..];
      FilterCount(s[1..], keep, e);
    }
  }

  // ---------------------------------------------------------------------------
  // Consequences of the search-tree order

  /** Every pair stored in a search-tree subtree respects the subtree's bounds. */
  lemma {:induction false} SearchTreeBounds<V>(n: Node<V>, lo: Option<int>, hi: Option<int>, e: Entry<V>)
    requires SearchTree(n, lo, hi) && e in Entries(n)
    ensures Above(lo, e.key) && Below(e.key, hi)
  {
    if e !in n.entries {
      var cs := n.children;
      var j := InSomeChild(cs, e);
      SearchTreeBounds(cs[j], ChildLo(n.entries, j, lo), ChildHi(n.entries, j, hi), e);
    }
  }

  /** A search tree is well formed. */
  lemma {:induction false} SearchTreeWellFormed<V>(n: Node<V>, lo: Option<int>, hi: Option<int>)
    requires SearchTree(n, lo, hi)
    ensures WellFormed(n)
  {
    if n.Internal? {
      forall i | 0 <= i < |n.children|
        ensures WellFormed(n.children[i])
      {
        SearchTreeWellFormed(n.children[i], ChildLo(n.entries, i, lo), ChildHi(n.entries, i, hi));
      }
    }
  }
}
