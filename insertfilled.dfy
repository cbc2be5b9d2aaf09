/**
 * Insert keeps every leaf below the root non-empty: a split of a child
 * holding more than max/2 items at max/2 leaves items on both sides when
 * max >= 2, and a leaf insert never shrinks a leaf.
 */
module InsertFilling {
  import opened Bytes
  import opened Codec
  import opened Items
  import opened Wrappers
  import opened Nodes
  import opened Internal
  import opened Rebalance
  import opened RemoveRefinement
  import LeafSpec

  /** Both halves of a split of a node holding more than at >= 1 items keep their leaves non-empty. */
  lemma SplitOccupied(t: Node, at: nat)
    requires 1 <= at < |t.items| && (t.Inter? ==> |t.children| == |t.items| + 1) && Filled(t)
    ensures Occupied(Split(t, at).1) && Occupied(Split(t, at).2)
  {
    SplitFilled(t, at);
  }

  /** Splitting child i, holding more than max/2 items, keeps the node's leaves non-empty. */
  lemma SplitChildFilled(n: Node, i: nat, h: nat, M: nat)
    requires Shaped(n, h, M) && M >= 2 && n.Inter? && Filled(n)
    requires i < |n.children| && M / 2 < |n.children[i].items|
    ensures n.children[i].Inter? ==> |n.children[i].children| == |n.children[i].items| + 1
    ensures Filled(SplitChild(n, i, M))
  {
    ShapedChild(n, i, h, M);
    var first := Fork(n.children[i], n.owner);
    ForkKeeps(n.children[i], n.owner, 0, 0, None, None);
    var (middle, left, right) := Split(first, M / 2);
    SplitOccupied(first, M / 2);
    var r := SplitChild(n, i, M);
    var cs := n.children;
    assert r.children == cs[..i] + [left, right] + cs[i + 1..];
    forall k | 0 <= k < |r.children|
      ensures (r.children[k].Leaf? ==> |r.children[k].items| > 0) && Filled(r.children[k])
    {
      if k < i {
        assert r.children[k] == cs[k];
      } else if k > i + 1 {
        assert r.children[k] == cs[k - 1];
      }
    }
  }

  /** The descent step of insert keeps the node's leaves non-empty. */
  lemma DescendFilled(n: Node, key: Bytes, h: nat)
    requires Shaped(n, h, n.max) && n.max >= 2 && n.Inter? && Filled(n)
    ensures Filled(Descend(n, key, h).0)
  {
    var (i, found) := Find(n.items, key);
    ShapedChild(n, i, h, n.max);
    if !found && |n.children[i].items| >= n.max {
      SplitChildFilled(n, i, h, n.max);
    }
  }

  /**
   * Insert keeps every leaf below the root non-empty, and the subtree it
   * returns is not an empty leaf.
   */
  lemma {:induction false} InsertFilled(n: Node, key: Bytes, val: Bytes, h: nat)
    requires Shaped(n, h, n.max) && n.max >= 2 && 0 < |key| < Pow32 && Filled(n)
    ensures Occupied(Insert(n, key, val, h).0)
    decreases h
  {
    match n
    case Leaf(o, m, items) =>
      var (i, found) := Find(n.items, key);
      assert Insert(n, key, val, h).0.items == ItemInserted(items, i, found, key, val);
    case Inter(o, m, _, _) =>
      var (n', j) := Descend(n, key, h);
      DescendFilled(n, key, h);
      ShapedChild(n', j, h, m);
      var c := Fork(n'.children[j], o);
      ForkKeeps(n'.children[j], o, h - 1, m, None, None);
      InsertFilled(c, key, val, h - 1);
      var (c', added) := Insert(c, key, val, h - 1);
      ReplaceChildFilled(n', j, c');
      assert Insert(n, key, val, h).0 == n'.(children := n'.children[j := c']);
  }
}
