/**
 * What splits, joins and rebuilt nodes do to the items under a node, to
 * its search-tree order and to the rule that no leaf below the root is
 * empty. The steals and the merge of tbp/inter.go are built from these
 * three pieces (see Removal), so their properties follow from the ones
 * proved here.
 */
module Rebalance {
  import opened Bytes
  import opened Codec
  import opened Items
  import opened Wrappers
  import opened Nodes
  import opened Internal
  import opened Order
  import opened Removal

  /** A subtree that is filled and, when it is a leaf, holds an item. */
  ghost predicate Occupied(c: Node) {
    (c.Leaf? ==> |c.items| > 0) && Filled(c)
  }

  /** A join holds the items of both siblings, left then right. */
  lemma JoinFlatten(a: Node, s: Item, b: Node)
    requires a.Leaf? == b.Leaf?
    ensures Flatten(Join(a, s, b)) == Flatten(a) + Flatten(b)
  {
    if a.Inter? {
      FlattenAllConcat(a.children, b.children);
    }
  }

  /**
   * The separators of an ordered, filled internal node sort strictly above
   * its lower bound: its first child holds an item at or above the bound
   * and below the first separator.
   */
  lemma StrictLower(t: Node, lo: Bytes, hi: Option<Bytes>, h: nat, M: nat)
    requires Shaped(t, h, M) && t.Inter? && Filled(t) && Ordered(t, Some(lo), hi)
    ensures KeysAbove(t.items, lo)
  {
    if |t.items| > 0 {
      var c, first := t.children[0], Key(t.items[0]);
      assert Ordered(c, ChildLo(t.items, 0, Some(lo)), ChildHi(t.items, 0, hi));
      FilledFlatten(c, h - 1, M);
      OrderedFlatten(c, Some(lo), Some(first));
      LessEqLess(lo, Key(Flatten(c)[0]), first);
      forall i | 0 <= i < |t.items|
        ensures WellFormed(t.items[i]) && Less(lo, Key(t.items[i]))
      {
        if i > 0 {
          LessTransitive(lo, first, Key(t.items[i]));
        }
      }
    }
  }

  /** Items below a separator, then the separator, then items from it on, within the outer bounds. */
  lemma WithinAround(a: seq<Item>, s: Item, b: seq<Item>, lo: Option<Bytes>, hi: Option<Bytes>)
    requires WellFormed(s) && Within(Key(s), lo, hi)
    requires AllWithin(a, lo, Some(Key(s))) && AllWithin(b, Some(Key(s)), hi)
    ensures AllWithin(a + b, lo, hi) && AllWithin(a + [s] + b, lo, hi)
  {
    AllWithinWiden(a, lo, Some(Key(s)), lo, hi);
    AllWithinWiden(b, Some(Key(s)), hi, lo, hi);
    AllWithinConcat(a, b, lo, hi);
    AllWithinConcat(a, [s], lo, hi);
    AllWithinConcat(a + [s], b, lo, hi);
  }

  /**
   * Joining two siblings ordered on either side of a separator gives a node
   * ordered within the outer bounds; internal siblings need the right one's
   * separators strictly above the separator pulled down.
   */
  lemma JoinOrdered(a: Node, s: Item, b: Node, lo: Option<Bytes>, hi: Option<Bytes>)
    requires a.Leaf? == b.Leaf? && WellFormed(s) && Within(Key(s), lo, hi)
    requires Ordered(a, lo, Some(Key(s))) && Ordered(b, Some(Key(s)), hi)
    requires b.Inter? ==> KeysAbove(b.items, Key(s))
    ensures Ordered(Join(a, s, b), lo, hi)
  {
    var j := Join(a, s, b);
    WithinAround(a.items, s, b.items, lo, hi);
    if a.Leaf? {
      SortedJoin(a.items, b.items, Key(s));
    } else {
      SortedSplice(a.items, s, b.items);
      JoinChildren(a, s, b, lo, hi);
    }
  }

  lemma JoinChildren(a: Node, s: Item, b: Node, lo: Option<Bytes>, hi: Option<Bytes>)
    requires a.Inter? && b.Inter? && WellFormed(s)
    requires Ordered(a, lo, Some(Key(s))) && Ordered(b, Some(Key(s)), hi)
    ensures AllWellFormed(Join(a, s, b).items)
    ensures |Join(a, s, b).children| == |Join(a, s, b).items| + 1
    ensures ChildrenOrdered(Join(a, s, b).items, Join(a, s, b).children, lo, hi)
  {
    var seps, cs := a.items + [s] + b.items, a.children + b.children;
    WellFormedSplice(a.items, s, b.items);
    forall j | 0 <= j < |cs|
      ensures Ordered(cs[j], ChildLo(seps, j, lo), ChildHi(seps, j, hi))
    {
      if j < |a.children| {
        JoinLeftChild(a, s, b, lo, hi, j);
      } else {
        JoinRightChild(a, s, b, lo, hi, j - |a.children|);
      }
    }
  }

  /** Child j of the left sibling keeps its bounds in the join. */
  lemma JoinLeftChild(a: Node, s: Item, b: Node, lo: Option<Bytes>, hi: Option<Bytes>, j: nat)
    requires a.Inter? && b.Inter? && WellFormed(s) && Ordered(a, lo, Some(Key(s))) && j < |a.children|
    requires |a.children| == |a.items| + 1 && AllWellFormed(a.items + [s] + b.items)
    ensures var seps := a.items + [s] + b.items;
      Ordered(a.children[j], ChildLo(seps, j, lo), ChildHi(seps, j, hi))
  {
    var seps := a.items + [s] + b.items;
    assert Ordered(a.children[j], ChildLo(a.items, j, lo), ChildHi(a.items, j, Some(Key(s))));
    if j > 0 {
      assert seps[j - 1] == a.items[j - 1];
    }
    if j < |a.items| {
      assert seps[j] == a.items[j];
    } else {
      assert seps[j] == s;
    }
  }

  /** Child k of the right sibling keeps its bounds in the join, at index |a.children| + k. */
  lemma JoinRightChild(a: Node, s: Item, b: Node, lo: Option<Bytes>, hi: Option<Bytes>, k: nat)
    requires a.Inter? && b.Inter? && WellFormed(s) && Ordered(b, Some(Key(s)), hi) && k < |b.children|
    requires |a.children| == |a.items| + 1 && |b.children| == |b.items| + 1
    requires AllWellFormed(a.items + [s] + b.items)
    ensures var seps, j := a.items + [s] + b.items, |a.children| + k;
      (a.children + b.children)[j] == b.children[k] &&
      Ordered(b.children[k], ChildLo(seps, j, lo), ChildHi(seps, j, hi))
  {
    var seps, j := a.items + [s] + b.items, |a.children| + k;
    assert Ordered(b.children[k], ChildLo(b.items, k, Some(Key(s))), ChildHi(b.items, k, hi));
    if k > 0 {
      assert seps[j - 1] == b.items[k - 1];
    } else {
      assert seps[j - 1] == s;
    }
    if k < |b.items| {
      assert seps[j] == b.items[k];
    }
  }

  /** A join of two filled siblings is filled. */
  lemma JoinFilled(a: Node, s: Item, b: Node)
    requires a.Leaf? == b.Leaf? && Filled(a) && Filled(b)
    ensures Filled(Join(a, s, b))
  {
    if a.Inter? {
      var cs := a.children + b.children;
      forall j | 0 <= j < |cs|
        ensures (cs[j].Leaf? ==> |cs[j].items| > 0) && Filled(cs[j])
      {
        if j < |a.children| {
          assert cs[j] == a.children[j];
        } else {
          assert cs[j] == b.children[j - |a.children|];
        }
      }
    }
  }

  /** Both halves of a split of a filled node are filled. */
  lemma SplitFilled(t: Node, at: nat)
    requires at < |t.items| && (t.Inter? ==> |t.children| == |t.items| + 1) && Filled(t)
    ensures Filled(Split(t, at).1) && Filled(Split(t, at).2)
  {
    if t.Inter? {
      var (_, l, r) := Split(t, at);
      assert l.children == t.children[..at + 1];
      assert r.children == t.children[at + 1..];
      forall j | 0 <= j < |r.children|
        ensures (r.children[j].Leaf? ==> |r.children[j].items| > 0) && Filled(r.children[j])
      {
        assert r.children[j] == t.children[at + 1 + j];
      }
    }
  }

  /** A rebuilt node holds the node's items when the new run of children holds those of the old run. */
  lemma RebuiltFlatten(n: Node, a: nat, b: nat, mid: seq<Item>, ncs: seq<Node>)
    requires n.Inter? && |n.children| == |n.items| + 1 && a <= b <= |n.items|
    requires FlattenAll(ncs) == FlattenAll(n.children[a..b + 1])
    ensures Flatten(Rebuilt(n, a, b, mid, ncs)) == Flatten(n)
  {
    var cs := n.children;
    assert Spliced(cs, a, b + 1, ncs) == cs[..a] + ncs + cs[b + 1..];
    assert cs == cs[..a] + cs[a..b + 1] + cs[b + 1..];
    FlattenAllConcat(cs[..a], ncs);
    FlattenAllConcat(cs[..a] + ncs, cs[b + 1..]);
    FlattenAllConcat(cs[..a], cs[a..b + 1]);
    FlattenAllConcat(cs[..a] + cs[a..b + 1], cs[b + 1..]);
  }

  /**
   * A rebuilt node is ordered when the new separators are sorted, fit
   * strictly between the separators around them and within the stretch's
   * bounds, and the new children are ordered between them.
   */
  lemma RebuiltOrdered(n: Node, a: nat, b: nat, mid: seq<Item>, ncs: seq<Node>, lo: Option<Bytes>, hi: Option<Bytes>)
    requires n.Inter? && Ordered(n, lo, hi) && a <= b <= |n.items|
    requires Sorted(mid) && |ncs| == |mid| + 1
    requires a > 0 ==> KeysAbove(mid, Key(n.items[a - 1]))
    requires b < |n.items| ==> KeysBelow(mid, Key(n.items[b]))
    requires AllWithin(mid, ChildLo(n.items, a, lo), ChildHi(n.items, b, hi))
    requires ChildrenOrdered(mid, ncs, ChildLo(n.items, a, lo), ChildHi(n.items, b, hi))
    ensures Ordered(Rebuilt(n, a, b, mid, ncs), lo, hi)
  {
    var seps := n.items;
    SepsReplace(seps, a, b, mid);
    ChildBounds(seps, a, lo, hi);
    ChildBounds(seps, b, lo, hi);
    AllWithinWiden(mid, ChildLo(seps, a, lo), ChildHi(seps, b, hi), lo, hi);
    WithinSpliced(seps, a, b, mid, lo, hi);
    ChildrenReplace(seps, n.children, a, b, mid, ncs, lo, hi);
  }

  /** A rebuilt node is filled when the node was and every new child is occupied. */
  lemma RebuiltFilled(n: Node, a: nat, b: nat, mid: seq<Item>, ncs: seq<Node>)
    requires n.Inter? && |n.children| == |n.items| + 1 && a <= b <= |n.items| && Filled(n)
    requires forall k :: 0 <= k < |ncs| ==> Occupied(ncs[k])
    ensures Filled(Rebuilt(n, a, b, mid, ncs))
  {
    var cs := n.children;
    var r := Spliced(cs, a, b + 1, ncs);
    forall j | 0 <= j < |r|
      ensures Occupied(r[j])
    {
      if j < a {
        assert r[j] == cs[j];
      } else if j < a + |ncs| {
        assert r[a + (j - a)] == ncs[j - a];
      } else {
        assert r[(j - a - |ncs| + b + 1) - (b + 1) + a + |ncs|] == cs[j - a - |ncs| + b + 1];
      }
    }
  }

  /** One separator and the two children around it, each ordered on its side. */
  lemma PairOrdered(x: Item, c0: Node, c1: Node, lo: Option<Bytes>, hi: Option<Bytes>)
    requires WellFormed(x) && Ordered(c0, lo, Some(Key(x))) && Ordered(c1, Some(Key(x)), hi)
    ensures ChildrenOrdered([x], [c0, c1], lo, hi)
  {
    assert ChildHi([x], 0, hi) == Some(Key(x)) && ChildLo([x], 1, lo) == Some(Key(x));
  }

  /** A single child ordered within the bounds. */
  lemma SingleOrdered(c: Node, lo: Option<Bytes>, hi: Option<Bytes>)
    requires Ordered(c, lo, hi)
    ensures ChildrenOrdered([], [c], lo, hi)
  {
  }

  /** The items under two children, left then right. */
  lemma FlattenAllPair(x: Node, y: Node)
    ensures FlattenAll([x, y]) == Flatten(x) + Flatten(y)
  {
    assert [x, y][..1] == [x];
    FlattenAllOne(x);
  }

  /** The requirements shared by the lemmas about a rebuild of children a and a+1 into two. */
  ghost predicate PairFits(n: Node, a: nat, x: Item, c0: Node, c1: Node, lo: Option<Bytes>, hi: Option<Bytes>)
  {
    && n.Inter? && Ordered(n, lo, hi) && Filled(n) && a < |n.items| && WellFormed(x)
    && FlattenAll([c0, c1]) == Flatten(n.children[a]) + Flatten(n.children[a + 1])
    && Within(Key(x), ChildLo(n.items, a, lo), ChildHi(n.items, a + 1, hi))
    && (a > 0 ==> Less(Key(n.items[a - 1]), Key(x)))
    && Ordered(c0, ChildLo(n.items, a, lo), Some(Key(x))) && Ordered(c1, Some(Key(x)), ChildHi(n.items, a + 1, hi))
    && Occupied(c0) && Occupied(c1)
  }

  lemma PairFlatten(n: Node, a: nat, x: Item, c0: Node, c1: Node, lo: Option<Bytes>, hi: Option<Bytes>)
    requires PairFits(n, a, x, c0, c1, lo, hi)
    ensures Flatten(Rebuilt(n, a, a + 1, [x], [c0, c1])) == Flatten(n)
  {
    var cs := n.children;
    assert cs[a..a + 2] == [cs[a], cs[a + 1]];
    FlattenAllPair(cs[a], cs[a + 1]);
    RebuiltFlatten(n, a, a + 1, [x], [c0, c1]);
  }

  lemma PairRebuiltOrdered(n: Node, a: nat, x: Item, c0: Node, c1: Node, lo: Option<Bytes>, hi: Option<Bytes>)
    requires PairFits(n, a, x, c0, c1, lo, hi)
    ensures Ordered(Rebuilt(n, a, a + 1, [x], [c0, c1]), lo, hi)
  {
    PairOrdered(x, c0, c1, ChildLo(n.items, a, lo), ChildHi(n.items, a + 1, hi));
    RebuiltOrdered(n, a, a + 1, [x], [c0, c1], lo, hi);
  }

  /**
   * Children a and a+1 replaced by two occupied children holding their
   * items, ordered on either side of a new separator x that fits between
   * the separators around it.
   */
  lemma RebuiltPairKeeps(n: Node, a: nat, x: Item, c0: Node, c1: Node, lo: Option<Bytes>, hi: Option<Bytes>)
    requires PairFits(n, a, x, c0, c1, lo, hi)
    ensures Flatten(Rebuilt(n, a, a + 1, [x], [c0, c1])) == Flatten(n)
    ensures Ordered(Rebuilt(n, a, a + 1, [x], [c0, c1]), lo, hi)
    ensures Filled(Rebuilt(n, a, a + 1, [x], [c0, c1]))
  {
    PairFlatten(n, a, x, c0, c1, lo, hi);
    PairRebuiltOrdered(n, a, x, c0, c1, lo, hi);
    RebuiltFilled(n, a, a + 1, [x], [c0, c1]);
  }

  /** The requirements shared by the lemmas about a merge of children a and a+1. */
  ghost predicate OneFits(n: Node, a: nat, c: Node, lo: Option<Bytes>, hi: Option<Bytes>)
  {
    && n.Inter? && Ordered(n, lo, hi) && Filled(n) && a < |n.items|
    && FlattenAll([c]) == Flatten(n.children[a]) + Flatten(n.children[a + 1])
    && Ordered(c, ChildLo(n.items, a, lo), ChildHi(n.items, a + 1, hi)) && Occupied(c)
  }

  lemma OneFlatten(n: Node, a: nat, c: Node, lo: Option<Bytes>, hi: Option<Bytes>)
    requires OneFits(n, a, c, lo, hi)
    ensures Flatten(Rebuilt(n, a, a + 1, [], [c])) == Flatten(n)
  {
    var cs := n.children;
    assert cs[a..a + 2] == [cs[a], cs[a + 1]];
    FlattenAllPair(cs[a], cs[a + 1]);
    RebuiltFlatten(n, a, a + 1, [], [c]);
  }

  lemma OneRebuiltOrdered(n: Node, a: nat, c: Node, lo: Option<Bytes>, hi: Option<Bytes>)
    requires OneFits(n, a, c, lo, hi)
    ensures Ordered(Rebuilt(n, a, a + 1, [], [c]), lo, hi)
  {
    SingleOrdered(c, ChildLo(n.items, a, lo), ChildHi(n.items, a + 1, hi));
    RebuiltOrdered(n, a, a + 1, [], [c], lo, hi);
  }

  /** Children a and a+1 replaced by one occupied child holding their items, ordered across both. */
  lemma RebuiltOneKeeps(n: Node, a: nat, c: Node, lo: Option<Bytes>, hi: Option<Bytes>)
    requires OneFits(n, a, c, lo, hi)
    ensures Flatten(Rebuilt(n, a, a + 1, [], [c])) == Flatten(n)
    ensures Ordered(Rebuilt(n, a, a + 1, [], [c]), lo, hi)
    ensures Filled(Rebuilt(n, a, a + 1, [], [c]))
  {
    OneFlatten(n, a, c, lo, hi);
    OneRebuiltOrdered(n, a, c, lo, hi);
    RebuiltFilled(n, a, a + 1, [], [c]);
  }
}
