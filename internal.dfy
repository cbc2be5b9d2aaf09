/**
 * The internal-node operations of tbp/inter.go and the node dispatchers of
 * tbp/node.go, on node values: split, the proactive child split made
 * before descending on insert, and the recursive insert.
 */
module Internal {
  import opened Bytes
  import opened Codec
  import opened Items
  import opened Wrappers
  import opened Nodes
  import LeafSpec

  /**
   * split(i) (node.go:111-122, leaf.go:18-26, inter.go:42-52): the middle
   * item and the two halves. A leaf keeps items[..i] and the new leaf gets
   * items[i..], so the middle is copied up and stays in the right leaf. An
   * internal node keeps items[..i] and children[..i+1]; the new node gets
   * items[i+1..] and children[i+1..], so the middle moves up.
   */
  function Split(t: Node, at: nat): (r: (Item, Node, Node))
    requires at < |t.items|
    requires t.Inter? ==> |t.children| == |t.items| + 1
    ensures r.1.Leaf? == t.Leaf? && r.2.Leaf? == t.Leaf?
    ensures r.1.owner == t.owner && r.2.owner == t.owner
    ensures r.1.max == t.max && r.2.max == t.max
    ensures |r.1.items| == at
    ensures t.Leaf? ==> r.1.items + r.2.items == t.items && r.2.items[0] == r.0
    ensures t.Inter? ==> r.1.items + [r.0] + r.2.items == t.items
    ensures t.Inter? ==> r.1.children + r.2.children == t.children
    ensures t.Inter? ==> |r.1.children| == |r.1.items| + 1 && |r.2.children| == |r.2.items| + 1
  {
    match t
    case Leaf(o, m, items) =>
      (items[at], Leaf(o, m, items[..at]), Leaf(o, m, items[at..]))
    case Inter(o, m, items, cs) =>
      assert items == items[..at] + [items[at]] + items[at + 1..];
      assert cs == cs[..at + 1] + cs[at + 1..];
      (items[at], Inter(o, m, items[..at], cs[..at + 1]), Inter(o, m, items[at + 1..], cs[at + 1..]))
  }

  /**
   * splitChild(i, max) (inter.go:54-59): fork child i into this node's
   * pool, split it at max/2, insert the middle item as separator i and the
   * new node as child i+1.
   */
  function SplitChild(n: Node, i: nat, max: nat): (r: Node)
    requires n.Inter? && |n.children| == |n.items| + 1 && i < |n.children|
    requires max / 2 < |n.children[i].items|
    requires n.children[i].Inter? ==> |n.children[i].children| == |n.children[i].items| + 1
    ensures r.Inter? && r.owner == n.owner && r.max == n.max
    ensures |r.items| == |n.items| + 1 && |r.children| == |n.children| + 1
    ensures r.items[..i] == n.items[..i] && r.items[i + 1..] == n.items[i..]
    ensures r.children[..i] == n.children[..i] && r.children[i + 2..] == n.children[i + 1..]
  {
    var first := Fork(n.children[i], n.owner);
    var (middle, left, right) := Split(first, max / 2);
    n.(items := ItemInserted(n.items, i, false, [], middle),
       children := n.children[..i] + [left, right] + n.children[i + 1..])
  }

  /**
   * maybeSplit(i) (inter.go:61-68): split child i when it holds at least
   * as many items as this node's capacity, and say whether it did.
   */
  function MaybeSplit(n: Node, i: nat): (r: (Node, bool))
    requires n.Inter? && |n.children| == |n.items| + 1 && i < |n.children|
    requires n.max > 0
    requires n.children[i].Inter? ==> |n.children[i].children| == |n.children[i].items| + 1
    ensures r.1 <==> |n.children[i].items| >= n.max
    ensures !r.1 ==> r.0 == n
    ensures r.1 ==> r.0 == SplitChild(n, i, n.max)
  {
    if |n.children[i].items| < n.max then (n, false) else (SplitChild(n, i, n.max), true)
  }

  /** A split child keeps the node's shape. */
  lemma SplitChildShaped(n: Node, i: nat, h: nat, M: nat)
    requires Shaped(n, h, M) && n.Inter? && i < |n.children|
    requires M / 2 < |n.children[i].items|
    ensures n.children[i].Inter? ==> |n.children[i].children| == |n.children[i].items| + 1
    ensures Shaped(SplitChild(n, i, M), h, M)
  {
    var c := n.children[i];
    ShapedChild(n, i, h, M);
    ForkKeeps(c, n.owner, h - 1, M, None, None);
    var (middle, left, right) := Split(Fork(c, n.owner), M / 2);
    SplitShaped(Fork(c, n.owner), M / 2, h - 1, M);
    var r := SplitChild(n, i, M);
    assert r.items == n.items[..i] + [middle] + n.items[i..];
    WellFormedSplice(n.items[..i], middle, n.items[i..]);
    assert r.children == n.children[..i] + [left, right] + n.children[i + 1..];
    AllShapedSplice(n.children[..i], [left, right], n.children[i + 1..], h - 1, M);
  }

  /** Both halves of a split are shaped like the node split, and the middle is well formed. */
  lemma SplitShaped(t: Node, at: nat, h: nat, M: nat)
    requires Shaped(t, h, M) && at < |t.items|
    ensures var (middle, left, right) := Split(t, at);
      WellFormed(middle) && Shaped(left, h, M) && Shaped(right, h, M)
  {
    var (middle, left, right) := Split(t, at);
    assert middle == t.items[at];
    if t.Inter? {
      assert left.children == t.children[..at + 1] && right.children == t.children[at + 1..];
    }
  }

  /**
   * The first half of insert on an internal node (inter.go:148-151): find
   * the key among the separators; descend right of an equal separator;
   * otherwise split a full child and descend right of the new separator
   * when it sorts at or before the key. The node after any split, and the
   * index of the child to descend into.
   */
  function Descend(n: Node, key: Bytes, ghost h: nat): (r: (Node, nat))
    requires Shaped(n, h, n.max) && n.max > 0 && n.Inter?
    ensures Shaped(r.0, h, n.max) && r.0.Inter? && r.0.owner == n.owner
    ensures r.1 < |r.0.children| && |r.0.items| >= |n.items|
  {
    var (i, found) := Find(n.items, key);
    ShapedChild(n, i, h, n.max);
    var (n', split) := if found then (n, false) else MaybeSplit(n, i);
    if split then
      SplitChildShaped(n, i, h, n.max);
      (n', if LessEq(Key(n'.items[i]), key) then i + 1 else i)
    else
      (n', if found then i + 1 else i)
  }

  /**
   * insert (node.go:124-133, leaf.go:28-32, inter.go:147-153): a leaf
   * inserts in place; an internal node descends as Descend says into the
   * child, forked into this node's pool first, where the source forks no
   * child (README.md, "Left out"). h is the height of the subtree and
   * bounds the recursion.
   */
  function Insert(n: Node, key: Bytes, val: Bytes, ghost h: nat): (r: (Node, bool))
    requires Shaped(n, h, n.max) && n.max > 0 && 0 < |key| < Pow32
    ensures Shaped(r.0, h, n.max) && r.0.owner == n.owner
    ensures r.0.Leaf? == n.Leaf? && (n.Inter? ==> |r.0.items| >= |n.items|)
    decreases h
  {
    match n
    case Leaf(o, m, items) =>
      var (items', added) := LeafSpec.Insert(items, key, val);
      LeafSpec.InsertWellFormed(items, key, val);
      (Leaf(o, m, items'), added)
    case Inter(o, m, _, _) =>
      var (n', j) := Descend(n, key, h);
      var c := Fork(n'.children[j], o);
      ShapedChild(n', j, h, m);
      ForkKeeps(n'.children[j], o, h - 1, m, None, None);
      var (c', added) := Insert(c, key, val, h - 1);
      ReplaceChildShaped(n', j, c', h, m);
      (n'.(children := n'.children[j := c']), added)
  }
}
