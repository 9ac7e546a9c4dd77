/**
 Point lookup (`Get`/`Search`) and the four threshold scans of the B-tree index
 (`LargerThanOrEqualTo`, `LargerThan`, `LessThanOrEqualTo`, `LessThan` and their
 `Find*` helpers).

 The two larger-than scans share one recursion shape and the two less-than scans
 another; `Scan` is that recursion, parameterised by the direction and by the
 predicate on keys a pair must satisfy to be collected. A scan emits a node's pairs
 before its children's, so its result follows `Entries`, not ascending key order.
 */
module BTreeSearch {

  import opened Wrappers
  import opened BTree

  // ---------------------------------------------------------------------------
  // Point lookup

  /**
   `Search(x, key)`: skip the pairs with smaller keys; return the pair found there if its
   key matches; otherwise give up at a leaf or descend into the child at that position.
   Whatever it returns is a stored pair with the requested key.
   */
  function Search<V(==)>(x: Node<V>, key: int): (r: Option<Entry<V>>)
    requires WellFormed(x)
    ensures r.Some? ==> r.value.key == key && r.value in Entries(x)
  {
    var i := CountWhile(x.entries, KeyBelow(key));
    if i < |x.entries| && x.entries[i].key == key then Some(x.entries[i])
    else if x.Leaf? then None
    else
      var r := Search(x.children[i], key);
      ChildEntriesInNode(x, i, r);
      r
  }

  /** A pair found in child `i` is a pair of the node. */
  lemma ChildEntriesInNode<V>(x: Node<V>, i: nat, r: Option<Entry<V>>)
    requires x.Internal? && i < |x.children|
    requires r.Some? ==> r.value in Entries(x.children[i])
    ensures r.Some? ==> r.value in Entries(x)
  {
    if r.Some? {
      ChildEntriesIn(x.children, i, r.value);
    }
  }

  /** `Get(key)`: look the key up from the root. */
  function Get<V(==)>(tree: Tree<V>, key: int): (r: Option<Entry<V>>)
    requires WellFormed(tree.root)
    ensures r.Some? ==> r.value.key == key && r.value in Contents(tree.root)
  {
    Search(tree.root, key)
  }

  /**
   In a search tree, lookup fails exactly when no stored pair has the key: `Search`
   returns a pair with key `k` if and only if `k` is stored.
   */
  lemma {:induction false} SearchComplete<V>(x: Node<V>, lo: Option<int>, hi: Option<int>, key: int)
    requires SearchTree(x, lo, hi)
    ensures WellFormed(x)
    ensures Search(x, key).None? <==> forall e :: e in Entries(x) ==> e.key != key
  {
    SearchTreeWellFormed(x, lo, hi);
    var es := x.entries;
    var i := CountWhile(es, KeyBelow(key));
    if i < |es| && es[i].key == key {
      assert es[i] in Entries(x);
    } else {
      // No pair of the node itself has the key.
      forall j | 0 <= j < |es|
        ensures es[j].key != key
      {
        if j >= i {
          assert key < es[i].key <= es[j].key;
        }
      }
      if x.Internal? {
        var cs := x.children;
        SearchComplete(cs[i], ChildLo(es, i, lo), ChildHi(es, i, hi), key);
        // No pair of another child has the key either.
        forall e | e in EntriesOf(cs) && e !in Entries(cs[i])
          ensures e.key != key
        {
          var j := InSomeChild(cs, e);
          SearchTreeBounds(cs[j], ChildLo(es, j, lo), ChildHi(es, j, hi), e);
          if j < i {
            assert e.key <= es[j].key < key;
          } else {
            assert j > i;
            assert es[i].key <= es[j - 1].key <= e.key;
          }
        }
        forall e | e in Entries(cs[i])
          ensures e in Entries(x)
        {
          ChildEntriesIn(cs, i, e);
        }
      }
    }
  }

  /** `Get` on a valid index finds a pair exactly when some stored pair carries the key. */
  lemma GetComplete<V>(tree: Tree<V>, key: int)
    requires Valid(tree)
    ensures Get(tree, key).Some? <==> exists e :: e in Contents(tree.root) && e.key == key
  {
    SearchComplete(tree.root, None, None, key);
  }

  // ---------------------------------------------------------------------------
  // Threshold scans

  /** The two recursion shapes of the scans. */
  datatype Direction =
    | Upward   // FindLargerThan*: skip the leading pairs that fail, emit the rest that pass, scan the children from there rightwards
    | Downward // FindLessThan*: emit the leading pairs that pass, scan the children up to one past them

  /**
   One `Find*` helper on node `x`: the pairs it appends to the result list, in order.
   Whatever the tree, every pair emitted is stored in `x` and satisfies `keep`.
   */
  function Scan<V(==)>(x: Node<V>, dir: Direction, keep: int -> bool): (r: seq<Entry<V>>)
    requires WellFormed(x)
    ensures forall j :: 0 <= j < |r| ==> r[j] in Entries(x) && keep(r[j].key)
    decreases x, 1
  {
    var es := x.entries;
    match dir
    case Upward =>
      var i := CountWhile(es, Not(keep));
      var own := Filter(es[i..], keep);
      FilterSound(es[i..], keep);
      assert forall j :: 0 <= j < |own| ==> own[j] in es;
      if x.Leaf? then own
      else
        var rest := ScanChildren(x, i, |x.children|, dir, keep);
        SliceEntriesInAll(x.children, i, |x.children|);
        own + rest
    case Downward =>
      var i := CountWhile(es, keep);
      if x.Leaf? then es[..i]
      else
        var rest := ScanChildren(x, 0, i + 1, dir, keep);
        SliceEntriesInAll(x.children, 0, i + 1);
        es[..i] + rest
  }

  lemma SliceEntriesInAll<V>(cs: seq<Node<V>>, from: nat, to: nat)
    requires from <= to <= |cs|
    ensures forall e :: e in EntriesOf(cs[from..to]) ==> e in EntriesOf(cs)
  {
    forall e | e in EntriesOf(cs[from..to])
      ensures e in EntriesOf(cs)
    {
      SliceEntriesIn(cs, from, to, e);
    }
  }

  /** The recursive calls on children `from` up to (not including) `to`, concatenated. */
  function ScanChildren<V(==)>(x: Node<V>, from: nat, to: nat, dir: Direction, keep: int -> bool): (r: seq<Entry<V>>)
    requires x.Internal? && WellFormed(x) && from <= to <= |x.children|
    ensures forall j :: 0 <= j < |r| ==> r[j] in EntriesOf(x.children[from..to]) && keep(r[j].key)
    decreases x, 0, to - from
  {
    if from == to then []
    else
      var head := Scan(x.children[from], dir, keep);
      var rest := ScanChildren(x, from + 1, to, dir, keep);
      assert x.children[from..to][1..] == x.children[from + 1..to];
      head + rest
  }

  /**
   `LargerThanOrEqualTo(bound)`: the stored pairs with key >= bound. Every pair returned
   is stored with such a key; on a search tree the result is exactly those pairs, each
   as often as it is stored, in `Entries` order.
   */
  function LargerThanOrEqualTo<V(==)>(tree: Tree<V>, bound: int): (r: seq<Entry<V>>)
    requires WellFormed(tree.root)
    ensures forall j :: 0 <= j < |r| ==> r[j] in Contents(tree.root) && r[j].key >= bound
    ensures Ordered(tree.root) ==> r == Filter(Entries(tree.root), KeyAtLeast(bound))
  {
    ScanExactWhenOrdered(tree.root, Upward, KeyAtLeast(bound));
    Scan(tree.root, Upward, KeyAtLeast(bound))
  }

  /** `LargerThan(bound)`: as `LargerThanOrEqualTo`, for key > bound. */
  function LargerThan<V(==)>(tree: Tree<V>, bound: int): (r: seq<Entry<V>>)
    requires WellFormed(tree.root)
    ensures forall j :: 0 <= j < |r| ==> r[j] in Contents(tree.root) && r[j].key > bound
    ensures Ordered(tree.root) ==> r == Filter(Entries(tree.root), KeyAbove(bound))
  {
    ScanExactWhenOrdered(tree.root, Upward, KeyAbove(bound));
    Scan(tree.root, Upward, KeyAbove(bound))
  }

  /**
   `LessThanOrEqualTo(bound)` with the loop test its name promises (collect while
   key <= bound): exactly the stored pairs with key <= bound on a search tree.
   */
  function LessThanOrEqualTo<V(==)>(tree: Tree<V>, bound: int): (r: seq<Entry<V>>)
    requires WellFormed(tree.root)
    ensures forall j :: 0 <= j < |r| ==> r[j] in Contents(tree.root) && r[j].key <= bound
    ensures Ordered(tree.root) ==> r == Filter(Entries(tree.root), KeyAtMost(bound))
  {
    ScanExactWhenOrdered(tree.root, Downward, KeyAtMost(bound));
    Scan(tree.root, Downward, KeyAtMost(bound))
  }

  /** `LessThan(bound)` with the loop test its name promises (collect while key < bound). */
  function LessThan<V(==)>(tree: Tree<V>, bound: int): (r: seq<Entry<V>>)
    requires WellFormed(tree.root)
    ensures forall j :: 0 <= j < |r| ==> r[j] in Contents(tree.root) && r[j].key < bound
    ensures Ordered(tree.root) ==> r == Filter(Entries(tree.root), KeyBelow(bound))
  {
    ScanExactWhenOrdered(tree.root, Downward, KeyBelow(bound));
    Scan(tree.root, Downward, KeyBelow(bound))
  }

  /** One step of an upward scan: the node's passing pairs from the first one on, then children from there. */
  lemma ScanUpwardStep<V>(x: Node<V>, keep: int -> bool)
    requires WellFormed(x)
    ensures var i := CountWhile(x.entries, Not(keep));
      Scan(x, Upward, keep) ==
        Filter(x.entries[i..], keep) + (if x.Leaf? then [] else ScanChildren(x, i, |x.children|, Upward, keep))
  {
  }

  /** One step of a downward scan: the node's leading passing pairs, then children up to one past them. */
  lemma ScanDownwardStep<V>(x: Node<V>, keep: int -> bool)
    requires WellFormed(x)
    ensures var i := CountWhile(x.entries, keep);
      Scan(x, Downward, keep) ==
        x.entries[..i] + (if x.Leaf? then [] else ScanChildren(x, 0, i + 1, Downward, keep))
  {
  }

  /**
   The closure a scan direction relies on: an upward scan needs `keep` to hold of every
   key above one it holds of, a downward scan of every key below.
   */
  ghost predicate ClosedFor(dir: Direction, keep: int -> bool)
  {
    match dir
    case Upward => forall a, b :: a <= b && keep(a) ==> keep(b)
    case Downward => forall a, b :: a <= b && keep(b) ==> keep(a)
  }

  lemma ScanExactWhenOrdered<V>(x: Node<V>, dir: Direction, keep: int -> bool)
    requires WellFormed(x)
    requires dir == Upward ==> forall a, b :: a <= b && keep(a) ==> keep(b)
    requires dir == Downward ==> forall a, b :: a <= b && keep(b) ==> keep(a)
    ensures Ordered(x) ==> Scan(x, dir, keep) == Filter(Entries(x), keep)
  {
    if Ordered(x) {
      ScanExact(x, None, None, dir, keep);
    }
  }

  /**
   On a search tree, a scan whose predicate is closed in its direction returns exactly
   the stored pairs that satisfy the predicate, in `Entries` order.
   */
  lemma {:induction false} ScanExact<V>(x: Node<V>, lo: Option<int>, hi: Option<int>, dir: Direction, keep: int -> bool)
    requires SearchTree(x, lo, hi) && ClosedFor(dir, keep)
    ensures WellFormed(x)
    ensures Scan(x, dir, keep) == Filter(Entries(x), keep)
    decreases x, 2
  {
    match dir
    case Upward => UpwardExact(x, lo, hi, keep);
    case Downward => DownwardExact(x, lo, hi, keep);
  }

  lemma {:induction false} UpwardExact<V>(x: Node<V>, lo: Option<int>, hi: Option<int>, keep: int -> bool)
    requires SearchTree(x, lo, hi) && ClosedFor(Upward, keep)
    ensures WellFormed(x)
    ensures Scan(x, Upward, keep) == Filter(Entries(x), keep)
    decreases x, 1
  {
    SearchTreeWellFormed(x, lo, hi);
    var es := x.entries;
    var i := CountWhile(es, Not(keep));
    SkipFailing(es, i, keep);
    ScanUpwardStep(x, keep);
    if x.Internal? {
      var cs := x.children;
      LeftChildrenFail(x, lo, hi, i, keep);
      ScanChildrenExact(x, lo, hi, i, |cs|, Upward, keep);
      SkipFailingChildren(es, cs, i, keep);
    }
  }

  /** Filtering is unaffected by dropping a prefix of failing pairs. */
  lemma SkipFailing<V>(es: seq<Entry<V>>, i: nat, keep: int -> bool)
    requires i <= |es| && forall j :: 0 <= j < i ==> Not(keep)(es[j].key)
    ensures Filter(es, keep) == Filter(es[i..], keep)
  {
    assert es == es[..i] + es[i..];
    FilterAppend(es[..i], es[i..], keep);
    FilterNone(es[..i], keep);
  }

  /** With the leading children failing, a node's filter is its own pairs' filter plus the later children's. */
  lemma SkipFailingChildren<V>(es: seq<Entry<V>>, cs: seq<Node<V>>, i: nat, keep: int -> bool)
    requires i <= |cs|
    requires NoneKept(EntriesOf(cs[..i]), keep)
    ensures Filter(es + EntriesOf(cs), keep) == Filter(es, keep) + Filter(EntriesOf(cs[i..|cs|]), keep)
  {
    var left, right := EntriesOf(cs[..i]), EntriesOf(cs[i..|cs|]);
    assert cs == cs[..i] + cs[i..|cs|];
    EntriesOfAppend(cs[..i], cs[i..|cs|]);
    FilterNone(left, keep);
    calc {
      Filter(es + EntriesOf(cs), keep);
      Filter(es + (left + right), keep);
      { FilterAppend(es, left + right, keep); }
      Filter(es, keep) + Filter(left + right, keep);
      { FilterAppend(left, right, keep); }
      Filter(es, keep) + (Filter(left, keep) + Filter(right, keep));
      Filter(es, keep) + Filter(right, keep);
    }
  }

  /** Children left of the first passing separator hold only failing keys. */
  lemma LeftChildrenFail<V>(x: Node<V>, lo: Option<int>, hi: Option<int>, i: nat, keep: int -> bool)
    requires SearchTree(x, lo, hi) && x.Internal? && ClosedFor(Upward, keep)
    requires i <= |x.entries| && forall j :: 0 <= j < i ==> !keep(x.entries[j].key)
    ensures NoneKept(EntriesOf(x.children[..i]), keep)
  {
    var es, cs := x.entries, x.children;
    var left := EntriesOf(cs[..i]);
    forall p | 0 <= p < |left|
      ensures !keep(left[p].key)
    {
      var e := left[p];
      var j := InSomeChild(cs[..i], e);
      assert cs[..i][j] == cs[j];
      SearchTreeBounds(cs[j], ChildLo(es, j, lo), ChildHi(es, j, hi), e);
      assert e.key <= es[j].key && !keep(es[j].key);
    }
  }

  lemma {:induction false} DownwardExact<V>(x: Node<V>, lo: Option<int>, hi: Option<int>, keep: int -> bool)
    requires SearchTree(x, lo, hi) && ClosedFor(Downward, keep)
    ensures WellFormed(x)
    ensures Scan(x, Downward, keep) == Filter(Entries(x), keep)
    decreases x, 1
  {
    SearchTreeWellFormed(x, lo, hi);
    var es := x.entries;
    var i := CountWhile(es, keep);
    if i < |es| {
      forall p | i <= p < |es|
        ensures !keep(es[p].key)
      {
        assert es[i].key <= es[p].key;
      }
    }
    TakePassing(es, i, keep);
    ScanDownwardStep(x, keep);
    if x.Internal? {
      var cs := x.children;
      RightChildrenFail(x, lo, hi, i, keep);
      ScanChildrenExact(x, lo, hi, 0, i + 1, Downward, keep);
      TakePassingChildren(es, cs, i, keep);
    }
  }

  /** A run of passing pairs followed only by failing ones filters to the run. */
  lemma TakePassing<V>(es: seq<Entry<V>>, i: nat, keep: int -> bool)
    requires i <= |es| && forall j :: 0 <= j < i ==> keep(es[j].key)
    requires forall j :: i <= j < |es| ==> !keep(es[j].key)
    ensures Filter(es, keep) == es[..i]
  {
    assert es == es[..i] + es[i..];
    FilterAppend(es[..i], es[i..], keep);
    FilterAll(es[..i], keep);
    FilterNone(es[i..], keep);
  }

  /** With the children past `i` failing, a node's filter is its passing run plus the earlier children's. */
  lemma TakePassingChildren<V>(es: seq<Entry<V>>, cs: seq<Node<V>>, i: nat, keep: int -> bool)
    requires i <= |es| && i < |cs|
    requires Filter(es, keep) == es[..i]
    requires NoneKept(EntriesOf(cs[i + 1..]), keep)
    ensures Filter(es + EntriesOf(cs), keep) == es[..i] + Filter(EntriesOf(cs[0..i + 1]), keep)
  {
    var left, right := EntriesOf(cs[0..i + 1]), EntriesOf(cs[i + 1..]);
    assert cs == cs[0..i + 1] + cs[i + 1..];
    EntriesOfAppend(cs[0..i + 1], cs[i + 1..]);
    FilterNone(right, keep);
    calc {
      Filter(es + EntriesOf(cs), keep);
      Filter(es + (left + right), keep);
      { FilterAppend(es, left + right, keep); }
      Filter(es, keep) + Filter(left + right, keep);
      { FilterAppend(left, right, keep); }
      es[..i] + (Filter(left, keep) + Filter(right, keep));
      es[..i] + Filter(left, keep);
    }
  }

  /** Children right of the first failing separator hold only failing keys. */
  lemma RightChildrenFail<V>(x: Node<V>, lo: Option<int>, hi: Option<int>, i: nat, keep: int -> bool)
    requires SearchTree(x, lo, hi) && x.Internal? && ClosedFor(Downward, keep)
    requires i <= |x.entries| && (i < |x.entries| ==> !keep(x.entries[i].key))
    ensures NoneKept(EntriesOf(x.children[i + 1..]), keep)
  {
    var es, cs := x.entries, x.children;
    var right := EntriesOf(cs[i + 1..]);
    forall p | 0 <= p < |right|
      ensures !keep(right[p].key)
    {
      var e := right[p];
      var j := InSomeChild(cs[i + 1..], e);
      var c := i + 1 + j;
      assert cs[i + 1..][j] == cs[c];
      SearchTreeBounds(cs[c], ChildLo(es, c, lo), ChildHi(es, c, hi), e);
      assert es[i].key <= es[c - 1].key <= e.key && !keep(es[i].key);
    }
  }

  lemma {:induction false} ScanChildrenExact<V>(x: Node<V>, lo: Option<int>, hi: Option<int>, from: nat, to: nat, dir: Direction, keep: int -> bool)
    requires SearchTree(x, lo, hi) && x.Internal? && from <= to <= |x.children| && ClosedFor(dir, keep)
    ensures WellFormed(x)
    ensures ScanChildren(x, from, to, dir, keep) == Filter(EntriesOf(x.children[from..to]), keep)
    decreases x, 0, to - from
  {
    SearchTreeWellFormed(x, lo, hi);
    var cs := x.children;
    if from < to {
      ScanExact(cs[from], ChildLo(x.entries, from, lo), ChildHi(x.entries, from, hi), dir, keep);
      ScanChildrenExact(x, lo, hi, from + 1, to, dir, keep);
      var run := cs[from..to];
      assert run[0] == cs[from] && run[1..] == cs[from + 1..to];
      assert EntriesOf(run) == Entries(cs[from]) + EntriesOf(cs[from + 1..to]);
      FilterAppend(Entries(cs[from]), EntriesOf(cs[from + 1..to]), keep);
    } else {
      assert cs[from..to] == [];
    }
  }
}
