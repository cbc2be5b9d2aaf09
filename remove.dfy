/**
 * Removal from internal nodes (tbp/inter.go:70-185), on node values: the
 * two steals and the merge that make sure the child a removal descends
 * into can spare an item, and the recursive remove that repairs the
 * separator before a child whose first item changed.
 *
 * Each steal is a split of the donor sibling and a join of one half with
 * the recipient across the parent's separator; the merge is a join. The
 * lemmas here say so, and the properties of splits and joins carry over.
 */
module Removal {
  import opened Bytes
  import opened Codec
  import opened Items
  import opened Wrappers
  import opened Nodes
  import opened Internal
  import opened Order
  import LeafSpec

  /**
   * The child remove descends into before any rebalancing (inter.go:156-171):
   * the last for the maximum, the first for the minimum, and for a key the
   * child right of an equal separator or at the key's insertion index.
   */
  function Route(seps: seq<Item>, key: Bytes, mode: LeafSpec.Mode): (r: nat)
    requires AllWellFormed(seps)
    ensures r <= |seps|
  {
    match mode
    case Max => |seps|
    case Min => 0
    case ByKey => var (i, found) := Find(seps, key); if found then i + 1 else i
  }

  /**
   * Two sibling nodes of one kind and the separator between them as one
   * node: leaves concatenate their items (a leaf separator is a copy of the
   * right leaf's first item), internal nodes pull the separator down
   * between their separators and concatenate their children.
   */
  function Join(a: Node, s: Item, b: Node): (r: Node)
    requires a.Leaf? == b.Leaf?
    ensures r.Leaf? == a.Leaf? && r.owner == a.owner && r.max == a.max
    ensures a.Leaf? ==> r.items == a.items + b.items
    ensures a.Inter? ==> r.items == a.items + [s] + b.items && r.children == a.children + b.children
  {
    match a
    case Leaf(o, m, items) => Leaf(o, m, items + b.items)
    case Inter(_, _, items, cs) => a.(items := items + [s] + b.items, children := cs + b.children)
  }

  /** Node n with separators a..b replaced by mid and children a..b+1 by ncs. */
  function Rebuilt(n: Node, a: nat, b: nat, mid: seq<Item>, ncs: seq<Node>): (r: Node)
    requires n.Inter? && |n.children| == |n.items| + 1 && a <= b <= |n.items|
    ensures r.Inter? && r.owner == n.owner && r.max == n.max
    ensures r.items == Spliced(n.items, a, b, mid) && r.children == Spliced(n.children, a, b + 1, ncs)
  {
    n.(items := Spliced(n.items, a, b, mid), children := Spliced(n.children, a, b + 1, ncs))
  }

  /**
   * stealLeft(i) (inter.go:70-83), corrected as recorded under Findings:
   * fork children i-1 and i into this node's pool; move the left sibling's
   * last item to the front of child i. For leaves that item also becomes
   * separator i-1. For internal nodes separator i-1 moves down to the front
   * of child i, the left sibling's last separator moves up in its place,
   * and the left sibling's last child becomes child i's first.
   */
  function StealLeft(n: Node, i: nat): (r: Node)
    requires n.Inter? && |n.children| == |n.items| + 1 && 0 < i < |n.children|
    requires n.children[i - 1].Leaf? == n.children[i].Leaf? && |n.children[i - 1].items| > 0
    requires n.children[i - 1].Inter? ==> |n.children[i - 1].children| == |n.children[i - 1].items| + 1
    ensures r.Inter? && r.owner == n.owner && r.max == n.max
    ensures |r.items| == |n.items| && |r.children| == |n.children|
    ensures |r.children[i].items| == |n.children[i].items| + 1
    ensures r.items == n.items[i - 1 := r.items[i - 1]]
    ensures r.children == n.children[i - 1 := r.children[i - 1]][i := r.children[i]]
  {
    var right := Fork(n.children[i], n.owner);
    var left := Fork(n.children[i - 1], n.owner);
    var k := |left.items| - 1;
    var stolen := left.items[k];
    var left' :=
      if left.Leaf? then Leaf(left.owner, left.max, ItemRemoved(left.items, k))
      else left.(items := ItemRemoved(left.items, k), children := ChildRemoved(left.children, k + 1));
    var right' :=
      if right.Leaf? then Leaf(right.owner, right.max, ItemInserted(right.items, 0, false, [], stolen))
      else right.(items := ItemInserted(right.items, 0, false, [], n.items[i - 1]),
                  children := ChildInserted(right.children, 0, left.children[k + 1]));
    n.(items := n.items[i - 1 := stolen], children := n.children[i - 1 := left'][i := right'])
  }

  /**
   * stealRight(i) (inter.go:85-98), corrected as recorded under Findings:
   * fork children i and i+1; move the right sibling's first item to the end
   * of child i. For leaves separator i becomes the right sibling's new
   * first item. For internal nodes separator i moves down to the end of
   * child i, the right sibling's first separator moves up in its place,
   * and the right sibling's first child becomes child i's last.
   */
  function StealRight(n: Node, i: nat): (r: Node)
    requires n.Inter? && |n.children| == |n.items| + 1 && i < |n.items|
    requires n.children[i].Leaf? == n.children[i + 1].Leaf?
    requires |n.children[i + 1].items| > (if n.children[i + 1].Leaf? then 1 else 0)
    requires n.children[i + 1].Inter? ==> |n.children[i + 1].children| == |n.children[i + 1].items| + 1
    ensures r.Inter? && r.owner == n.owner && r.max == n.max
    ensures |r.items| == |n.items| && |r.children| == |n.children|
    ensures |r.children[i].items| == |n.children[i].items| + 1
    ensures r.items == n.items[i := r.items[i]]
    ensures r.children == n.children[i := r.children[i]][i + 1 := r.children[i + 1]]
  {
    var left := Fork(n.children[i], n.owner);
    var right := Fork(n.children[i + 1], n.owner);
    var stolen := right.items[0];
    var rest := ItemRemoved(right.items, 0);
    if left.Leaf? then
      var left' := Leaf(left.owner, left.max, ItemInserted(left.items, |left.items|, false, [], stolen));
      n.(items := n.items[i := rest[0]], children := n.children[i := left'][i + 1 := Leaf(right.owner, right.max, rest)])
    else
      var left' := left.(items := ItemInserted(left.items, |left.items|, false, [], n.items[i]),
                         children := ChildInserted(left.children, |left.children|, right.children[0]));
      var right' := right.(items := rest, children := ChildRemoved(right.children, 0));
      n.(items := n.items[i := stolen], children := n.children[i := left'][i + 1 := right'])
  }

  /**
   * mergeRight(i) (inter.go:100-128): fork child i and fold child i+1 and
   * separator i into it (separator i is dropped between leaves and pulled
   * down between internal nodes); the node loses separator i and child i+1.
   */
  function MergeRight(n: Node, i: nat): (r: Node)
    requires n.Inter? && |n.children| == |n.items| + 1 && i < |n.items|
    requires n.children[i].Leaf? == n.children[i + 1].Leaf?
    ensures r.Inter? && r.owner == n.owner && r.max == n.max
    ensures |r.items| == |n.items| - 1 && |r.children| == |n.children| - 1
    ensures |r.children[i].items| == |n.children[i].items| + |n.children[i + 1].items| + (if n.children[i].Leaf? then 0 else 1)
  {
    var left := Fork(n.children[i], n.owner);
    var right := n.children[i + 1];
    var left' :=
      if left.Leaf? then Leaf(left.owner, left.max, left.items + right.items)
      else left.(items := left.items + [n.items[i]] + right.items, children := left.children + right.children);
    n.(items := ItemRemoved(n.items, i), children := ChildRemoved(n.children[i := left'], i + 1))
  }

  /**
   * stealRemove(i, min) (inter.go:130-145): steal from the left sibling
   * when it has more than min items, else from the right one, else merge
   * child i with its right sibling (with its left one when it is the last
   * child). The rebalanced node and the index of the child now holding
   * what child i held.
   */
  function StealRemove(n: Node, i: nat, min: nat, ghost h: nat): (r: (Node, nat))
    requires Shaped(n, h, n.max) && n.Inter? && i < |n.children| && |n.items| >= 1 && min >= 1
    ensures Shaped(r.0, h, n.max) && r.0.Inter? && r.0.owner == n.owner
    ensures r.1 < |r.0.children| && |r.0.items| + 1 >= |n.items|
    ensures r.0.children[r.1].Inter? ==> |r.0.children[r.1].items| >= 1
  {
    ShapedChild(n, i, h, n.max);
    if i > 0 && |n.children[i - 1].items| > min then
      StealLeftShaped(n, i, h, n.max);
      (StealLeft(n, i), i)
    else if i < |n.items| && |n.children[i + 1].items| > min then
      StealRightShaped(n, i, h, n.max);
      (StealRight(n, i), i)
    else
      var j := if i >= |n.items| then i - 1 else i;
      MergeRightShaped(n, j, h, n.max);
      (MergeRight(n, j), j)
  }

  /**
   * The separator repair after the child's remove (inter.go:177-184), with
   * the fix recorded under Findings: a new first item of child j > 0
   * becomes separator j-1 and goes no further; a new first item of child 0
   * is the node's new first item and is passed up.
   */
  function Propagate(n: Node, j: nat, first: Option<Item>): (r: (Node, Option<Item>))
    requires n.Inter? && |n.children| == |n.items| + 1 && j < |n.children|
    ensures r.0.Inter? && r.0.owner == n.owner && r.0.max == n.max && r.0.children == n.children
    ensures |r.0.items| == |n.items|
    ensures first.None? ==> r == (n, None)
    ensures first.Some? && j > 0 ==> r == (n.(items := n.items[j - 1 := first.value]), None)
    ensures first.Some? && j == 0 ==> r == (n, first)
  {
    match first
    case None => (n, None)
    case Some(x) => if j > 0 then (n.(items := n.items[j - 1 := x]), None) else (n, first)
  }

  /**
   * The nodes remove can work on without a merge at index -1
   * (inter.go:171-174, 138-142): a leaf, an internal node with a separator,
   * or one with no separator whose lone child needs no rebalancing.
   */
  predicate Removable(n: Node)
  {
    n.Leaf? || |n.items| >= 1 || (|n.children| >= 1 && |n.children[0].items| > n.max / 2)
  }

  /**
   * The descent step of remove on an internal node (inter.go:156-173):
   * route, and when the chosen child holds at most max/2 items rebalance it
   * with a sibling. The node after any rebalancing and the child to descend
   * into, which then holds more than max/2 items.
   */
  function Prepare(n: Node, key: Bytes, mode: LeafSpec.Mode, ghost h: nat): (r: (Node, nat))
    requires Shaped(n, h, n.max) && n.max >= 2 && n.Inter? && Removable(n)
    ensures Shaped(r.0, h, n.max) && r.0.Inter? && r.0.owner == n.owner
    ensures r.1 < |r.0.children| && |r.0.items| + 1 >= |n.items|
    ensures r.0.children[r.1].Inter? ==> |r.0.children[r.1].items| >= 1
  {
    var i := Route(n.items, key, mode);
    ShapedChild(n, i, h, n.max);
    if |n.children[i].items| <= n.max / 2 then StealRemove(n, i, n.max / 2, h) else (n, i)
  }

  /**
   * remove (node.go:144-153, leaf.go:34-62, inter.go:155-185), with the
   * fixes recorded under Findings: a leaf removes as LeafSpec.Remove says;
   * an internal node routes, rebalances a child holding at most max/2
   * items, forks the child into its pool, removes from it, and repairs the
   * separator. The node, the new first item to pass up, and whether an
   * item was removed.
   */
  function Remove(n: Node, key: Bytes, mode: LeafSpec.Mode, ghost h: nat): (r: (Node, Option<Item>, bool))
    requires Shaped(n, h, n.max) && n.max >= 2 && Removable(n)
    ensures Shaped(r.0, h, n.max) && r.0.owner == n.owner && r.0.Leaf? == n.Leaf?
    ensures r.1.Some? ==> WellFormed(r.1.value)
    ensures r.0.Inter? ==> |r.0.items| + 1 >= |n.items|
    decreases h
  {
    match n
    case Leaf(o, m, items) =>
      LeafSpec.RemoveWellFormed(items, key, mode);
      var (rest, first, found) := LeafSpec.Remove(items, key, mode);
      (Leaf(o, m, rest), first, found)
    case Inter(o, m, seps, cs) =>
      var (n', j) := Prepare(n, key, mode, h);
      ShapedChild(n', j, h, m);
      var c := Fork(n'.children[j], o);
      ForkKeeps(n'.children[j], o, h - 1, m, None, None);
      var (c', first, found) := Remove(c, key, mode, h - 1);
      ReplaceChildShaped(n', j, c', h, m);
      var n'' := n'.(children := n'.children[j := c']);
      var (n''', first') := Propagate(n'', j, first);
      PropagateShaped(n'', j, first, h, m);
      (n''', first', found)
  }

  /** Writing a well-formed first item into a separator keeps the shape. */
  lemma PropagateShaped(n: Node, j: nat, first: Option<Item>, h: nat, M: nat)
    requires Shaped(n, h, M) && n.Inter? && j < |n.children|
    requires first.Some? ==> WellFormed(first.value)
    ensures Shaped(Propagate(n, j, first).0, h, M)
  {
  }

  /** stealLeft is a split of the left sibling at its last item and a join of the tail with child i. */
  lemma StealLeftRotates(n: Node, i: nat, h: nat, M: nat)
    requires Shaped(n, h, M) && n.Inter? && 0 < i < |n.children| && |n.children[i - 1].items| > 0
    ensures n.children[i - 1].Leaf? == n.children[i].Leaf?
    ensures n.children[i - 1].Inter? ==> |n.children[i - 1].children| == |n.children[i - 1].items| + 1
    ensures var left, right := Fork(n.children[i - 1], n.owner), Fork(n.children[i], n.owner);
      var (stolen, l1, l2) := Split(left, |left.items| - 1);
      StealLeft(n, i) == Rebuilt(n, i - 1, i, [stolen], [l1, Join(l2, n.items[i - 1], right)])
  {
    ShapedChild(n, i - 1, h, M);
    ShapedChild(n, i, h, M);
    var left, right := Fork(n.children[i - 1], n.owner), Fork(n.children[i], n.owner);
    var (stolen, l1, l2) := Split(left, |left.items| - 1);
    StealLeftRotation(n, i, left, right, stolen, l1, l2);
  }

  /** The node stealLeft leaves, given the forked siblings and the split of the left one. */
  lemma StealLeftRotation(n: Node, i: nat, left: Node, right: Node, stolen: Item, l1: Node, l2: Node)
    requires n.Inter? && |n.children| == |n.items| + 1 && 0 < i < |n.children|
    requires n.children[i - 1].Leaf? == n.children[i].Leaf? && |n.children[i - 1].items| > 0
    requires n.children[i - 1].Inter? ==> |n.children[i - 1].children| == |n.children[i - 1].items| + 1
    requires n.children[i - 1].max == n.children[i].max
    requires left == Fork(n.children[i - 1], n.owner) && right == Fork(n.children[i], n.owner)
    requires Split(left, |left.items| - 1) == (stolen, l1, l2)
    ensures StealLeft(n, i) == Rebuilt(n, i - 1, i, [stolen], [l1, Join(l2, n.items[i - 1], right)])
  {
    var r := StealLeft(n, i);
    StealLeftChildren(n, i, left, right, stolen, l1, l2);
    SplicedOne(n.items, i - 1, stolen);
    SplicedPair(n.children, i - 1, l1, Join(l2, n.items[i - 1], right));
    RebuiltBy(n, i - 1, i, [stolen], [l1, Join(l2, n.items[i - 1], right)], r);
  }


  /** The children and separator stealLeft leaves are the split's head and middle, and its tail joined with child i. */
  lemma StealLeftChildren(n: Node, i: nat, left: Node, right: Node, stolen: Item, l1: Node, l2: Node)
    requires n.Inter? && |n.children| == |n.items| + 1 && 0 < i < |n.children|
    requires n.children[i - 1].Leaf? == n.children[i].Leaf? && |n.children[i - 1].items| > 0
    requires n.children[i - 1].Inter? ==> |n.children[i - 1].children| == |n.children[i - 1].items| + 1
    requires n.children[i - 1].max == n.children[i].max
    requires left == Fork(n.children[i - 1], n.owner) && right == Fork(n.children[i], n.owner)
    requires Split(left, |left.items| - 1) == (stolen, l1, l2)
    ensures StealLeft(n, i).items[i - 1] == stolen
    ensures StealLeft(n, i).children[i - 1] == l1
    ensures StealLeft(n, i).children[i] == Join(l2, n.items[i - 1], right)
  {
    var k := |left.items| - 1;
    if left.Inter? {
      assert l1.children == left.children[..k + 1] == ChildRemoved(left.children, k + 1);
      assert l2.children == [left.children[k + 1]];
    } else {
      assert l2.items == [stolen];
    }
  }

  /**
   * stealRight is a split of the right sibling (after its first item for
   * leaves, at it for internal nodes) and a join of child i with the head.
   */
  lemma StealRightRotates(n: Node, i: nat, h: nat, M: nat)
    requires Shaped(n, h, M) && n.Inter? && i < |n.items|
    requires |n.children[i + 1].items| > (if n.children[i + 1].Leaf? then 1 else 0)
    ensures n.children[i].Leaf? == n.children[i + 1].Leaf?
    ensures n.children[i + 1].Inter? ==> |n.children[i + 1].children| == |n.children[i + 1].items| + 1
    ensures var left, right := Fork(n.children[i], n.owner), Fork(n.children[i + 1], n.owner);
      var (sep, r1, r2) := Split(right, if right.Leaf? then 1 else 0);
      StealRight(n, i) == Rebuilt(n, i, i + 1, [sep], [Join(left, n.items[i], r1), r2])
  {
    ShapedChild(n, i, h, M);
    ShapedChild(n, i + 1, h, M);
    var left, right := Fork(n.children[i], n.owner), Fork(n.children[i + 1], n.owner);
    var (sep, r1, r2) := Split(right, if right.Leaf? then 1 else 0);
    StealRightRotation(n, i, left, right, sep, r1, r2);
  }

  /** The node stealRight leaves, given the forked siblings and the split of the right one. */
  lemma StealRightRotation(n: Node, i: nat, left: Node, right: Node, sep: Item, r1: Node, r2: Node)
    requires n.Inter? && |n.children| == |n.items| + 1 && i < |n.items|
    requires n.children[i].Leaf? == n.children[i + 1].Leaf?
    requires |n.children[i + 1].items| > (if n.children[i + 1].Leaf? then 1 else 0)
    requires n.children[i + 1].Inter? ==> |n.children[i + 1].children| == |n.children[i + 1].items| + 1
    requires left == Fork(n.children[i], n.owner) && right == Fork(n.children[i + 1], n.owner)
    requires Split(right, if right.Leaf? then 1 else 0) == (sep, r1, r2)
    ensures StealRight(n, i) == Rebuilt(n, i, i + 1, [sep], [Join(left, n.items[i], r1), r2])
  {
    var r := StealRight(n, i);
    StealRightChildren(n, i, left, right, sep, r1, r2);
    SplicedOne(n.items, i, sep);
    SplicedPair(n.children, i, Join(left, n.items[i], r1), r2);
    RebuiltBy(n, i, i + 1, [sep], [Join(left, n.items[i], r1), r2], r);
  }


  /** The two children stealRight leaves are child i joined with the split's head, and the split's tail. */
  lemma StealRightChildren(n: Node, i: nat, left: Node, right: Node, sep: Item, r1: Node, r2: Node)
    requires n.Inter? && |n.children| == |n.items| + 1 && i < |n.items|
    requires n.children[i].Leaf? == n.children[i + 1].Leaf?
    requires |n.children[i + 1].items| > (if n.children[i + 1].Leaf? then 1 else 0)
    requires n.children[i + 1].Inter? ==> |n.children[i + 1].children| == |n.children[i + 1].items| + 1
    requires left == Fork(n.children[i], n.owner) && right == Fork(n.children[i + 1], n.owner)
    requires Split(right, if right.Leaf? then 1 else 0) == (sep, r1, r2)
    ensures StealRight(n, i).items[i] == sep
    ensures StealRight(n, i).children[i] == Join(left, n.items[i], r1)
    ensures StealRight(n, i).children[i + 1] == r2
  {
    if right.Inter? {
      assert r1.children == [right.children[0]];
      assert r2.children == right.children[1..] == ChildRemoved(right.children, 0);
    } else {
      assert r1.items == [right.items[0]];
    }
  }

  /** mergeRight is a join of children i and i+1 across separator i. */
  lemma MergeRightJoins(n: Node, i: nat, h: nat, M: nat)
    requires Shaped(n, h, M) && n.Inter? && i < |n.items|
    ensures n.children[i].Leaf? == n.children[i + 1].Leaf?
    ensures MergeRight(n, i) == Rebuilt(n, i, i + 1, [], [Join(Fork(n.children[i], n.owner), n.items[i], n.children[i + 1])])
  {
    ShapedChild(n, i, h, M);
    ShapedChild(n, i + 1, h, M);
    var r := MergeRight(n, i);
    var s := Rebuilt(n, i, i + 1, [], [Join(Fork(n.children[i], n.owner), n.items[i], n.children[i + 1])]);
    assert r.items == s.items;
    SplicedMerge(n.children, i, Join(Fork(n.children[i], n.owner), n.items[i], n.children[i + 1]));
  }

  /** A join of two shaped siblings across a well-formed separator is shaped. */
  lemma JoinShaped(a: Node, s: Item, b: Node, h: nat, M: nat)
    requires Shaped(a, h, M) && Shaped(b, h, M) && WellFormed(s)
    ensures a.Leaf? == b.Leaf? && Shaped(Join(a, s, b), h, M)
  {
    if a.Inter? {
      WellFormedSplice(a.items, s, b.items);
      AllShapedSplice(a.children, b.children, [], h - 1, M);
      assert a.children + b.children + [] == a.children + b.children;
    }
  }

  /** A rebuilt node is shaped when its new separators and children are. */
  lemma RebuiltShaped(n: Node, a: nat, b: nat, mid: seq<Item>, ncs: seq<Node>, h: nat, M: nat)
    requires Shaped(n, h, M) && n.Inter? && a <= b <= |n.items| && |ncs| == |mid| + 1
    requires AllWellFormed(mid) && AllShaped(ncs, h - 1, M)
    ensures Shaped(Rebuilt(n, a, b, mid, ncs), h, M)
  {
    SplicedWellFormed(n.items, a, b, mid);
    var cs := n.children;
    assert cs[..a] + cs[b + 1..] == cs[..a] + cs[b + 1..];
    AllShapedSplice(cs[..a], ncs, cs[b + 1..], h - 1, M);
  }

  /** A node that agrees with a rebuild of n in every field is that rebuild. */
  lemma RebuiltBy(n: Node, a: nat, b: nat, mid: seq<Item>, ncs: seq<Node>, r: Node)
    requires n.Inter? && |n.children| == |n.items| + 1 && a <= b <= |n.items|
    requires r.Inter? && r.owner == n.owner && r.max == n.max
    requires r.items == Spliced(n.items, a, b, mid) && r.children == Spliced(n.children, a, b + 1, ncs)
    ensures r == Rebuilt(n, a, b, mid, ncs)
  {
  }

  /** A node whose separator a and the children around it are replaced by shaped ones is shaped. */
  lemma RotatedShaped(n: Node, a: nat, sep: Item, c0: Node, c1: Node, h: nat, M: nat)
    requires Shaped(n, h, M) && n.Inter? && a < |n.items|
    requires WellFormed(sep) && Shaped(c0, h - 1, M) && Shaped(c1, h - 1, M)
    ensures Shaped(Rebuilt(n, a, a + 1, [sep], [c0, c1]), h, M)
  {
    RebuiltShaped(n, a, a + 1, [sep], [c0, c1], h, M);
  }

  lemma StealLeftShaped(n: Node, i: nat, h: nat, M: nat)
    requires Shaped(n, h, M) && n.Inter? && 0 < i < |n.children| && |n.children[i - 1].items| > 0
    ensures n.children[i - 1].Leaf? == n.children[i].Leaf?
    ensures n.children[i - 1].Inter? ==> |n.children[i - 1].children| == |n.children[i - 1].items| + 1
    ensures Shaped(StealLeft(n, i), h, M)
  {
    ShapedChild(n, i - 1, h, M);
    ShapedChild(n, i, h, M);
    var left, right := Fork(n.children[i - 1], n.owner), Fork(n.children[i], n.owner);
    ForkKeeps(n.children[i - 1], n.owner, h - 1, M, None, None);
    ForkKeeps(n.children[i], n.owner, h - 1, M, None, None);
    var (stolen, l1, l2) := Split(left, |left.items| - 1);
    StealLeftRotation(n, i, left, right, stolen, l1, l2);
    RotatedLeftAt(n, i, h, M, left, right, stolen, l1, l2);
  }

  /** The left rotation's node is shaped, given the forked siblings and the split of the left one. */
  lemma RotatedLeftAt(n: Node, i: nat, h: nat, M: nat, left: Node, right: Node, stolen: Item, l1: Node, l2: Node)
    requires Shaped(n, h, M) && n.Inter? && 0 < i < |n.children|
    requires Shaped(left, h - 1, M) && Shaped(right, h - 1, M) && |left.items| > 0
    requires Split(left, |left.items| - 1) == (stolen, l1, l2)
    ensures Shaped(Rebuilt(n, i - 1, i, [stolen], [l1, Join(l2, n.items[i - 1], right)]), h, M)
  {
    DonateLastShaped(left, n.items[i - 1], right, h - 1, M);
    RotatedShaped(n, i - 1, stolen, l1, Join(l2, n.items[i - 1], right), h, M);
  }

  /** The halves of a left sibling split at its last item, the tail joined to the right sibling, are shaped. */
  lemma DonateLastShaped(left: Node, s: Item, right: Node, h: nat, M: nat)
    requires Shaped(left, h, M) && Shaped(right, h, M) && WellFormed(s) && |left.items| > 0
    ensures left.Leaf? == right.Leaf? && (left.Inter? ==> |left.children| == |left.items| + 1)
    ensures WellFormed(Split(left, |left.items| - 1).0)
    ensures Shaped(Split(left, |left.items| - 1).1, h, M)
    ensures Shaped(Join(Split(left, |left.items| - 1).2, s, right), h, M)
  {
    SplitShaped(left, |left.items| - 1, h, M);
    JoinShaped(Split(left, |left.items| - 1).2, s, right, h, M);
  }

  lemma StealRightShaped(n: Node, i: nat, h: nat, M: nat)
    requires Shaped(n, h, M) && n.Inter? && i < |n.items|
    requires |n.children[i + 1].items| > (if n.children[i + 1].Leaf? then 1 else 0)
    ensures n.children[i].Leaf? == n.children[i + 1].Leaf?
    ensures n.children[i + 1].Inter? ==> |n.children[i + 1].children| == |n.children[i + 1].items| + 1
    ensures Shaped(StealRight(n, i), h, M)
  {
    ShapedChild(n, i, h, M);
    ShapedChild(n, i + 1, h, M);
    var left, right := Fork(n.children[i], n.owner), Fork(n.children[i + 1], n.owner);
    ForkKeeps(n.children[i], n.owner, h - 1, M, None, None);
    ForkKeeps(n.children[i + 1], n.owner, h - 1, M, None, None);
    var at := if right.Leaf? then 1 else 0;
    var (sep, r1, r2) := Split(right, at);
    StealRightRotation(n, i, left, right, sep, r1, r2);
    RotatedRightAt(n, i, h, M, left, right, at, sep, r1, r2);
  }

  /** The right rotation's node is shaped, given the forked siblings and the split of the right one. */
  lemma RotatedRightAt(n: Node, i: nat, h: nat, M: nat, left: Node, right: Node, at: nat, sep: Item, r1: Node, r2: Node)
    requires Shaped(n, h, M) && n.Inter? && i < |n.items|
    requires Shaped(left, h - 1, M) && Shaped(right, h - 1, M) && at < |right.items|
    requires Split(right, at) == (sep, r1, r2)
    ensures Shaped(Rebuilt(n, i, i + 1, [sep], [Join(left, n.items[i], r1), r2]), h, M)
  {
    DonateFirstShaped(left, n.items[i], right, at, h - 1, M);
    RotatedShaped(n, i, sep, Join(left, n.items[i], r1), r2, h, M);
  }

  /** The halves of a right sibling split near its front, the head joined to the left sibling, are shaped. */
  lemma DonateFirstShaped(left: Node, s: Item, right: Node, at: nat, h: nat, M: nat)
    requires Shaped(left, h, M) && Shaped(right, h, M) && WellFormed(s) && at < |right.items|
    ensures left.Leaf? == right.Leaf? && (right.Inter? ==> |right.children| == |right.items| + 1)
    ensures WellFormed(Split(right, at).0)
    ensures Shaped(Join(left, s, Split(right, at).1), h, M)
    ensures Shaped(Split(right, at).2, h, M)
  {
    SplitShaped(right, at, h, M);
    JoinShaped(left, s, Split(right, at).1, h, M);
  }

  lemma MergeRightShaped(n: Node, i: nat, h: nat, M: nat)
    requires Shaped(n, h, M) && n.Inter? && i < |n.items|
    ensures n.children[i].Leaf? == n.children[i + 1].Leaf?
    ensures Shaped(MergeRight(n, i), h, M)
  {
    MergeRightJoins(n, i, h, M);
    ShapedChild(n, i, h, M);
    ShapedChild(n, i + 1, h, M);
    ForkKeeps(n.children[i], n.owner, h - 1, M, None, None);
    JoinShaped(Fork(n.children[i], n.owner), n.items[i], n.children[i + 1], h - 1, M);
    RebuiltShaped(n, i, i + 1, [], [Join(Fork(n.children[i], n.owner), n.items[i], n.children[i + 1])], h, M);
  }
}
