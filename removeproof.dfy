/**
 * The rebalancing before a removal descends (tbp/inter.go:70-173) keeps
 * the items under the node, its search-tree order and its filled leaves,
 * and leaves the key's child (or the first or last child) as the one to
 * descend into, holding enough items to give one up.
 */
module RemoveProof {
  import opened Bytes
  import opened Codec
  import opened Items
  import opened Wrappers
  import opened Nodes
  import opened Internal
  import opened Order
  import opened Removal
  import opened Rebalance
  import opened InsertProof
  import LeafSpec

  /** Child j is the one a removal in the given mode must descend into. */
  ghost predicate Targets(seps: seq<Item>, j: nat, key: Bytes, mode: LeafSpec.Mode) {
    AllWellFormed(seps) && j <= |seps| &&
    match mode
    case ByKey => Routes(seps, j, key)
    case Min => j == 0
    case Max => j == |seps|
  }

  /** The child the source routes to is the target. */
  lemma RouteTargets(seps: seq<Item>, key: Bytes, mode: LeafSpec.Mode)
    requires Sorted(seps)
    ensures Targets(seps, Route(seps, key, mode), key, mode)
  {
    if mode == LeafSpec.ByKey {
      FindSpec(seps, key);
    }
  }

  /** A left sibling with two items or more gives its last one across separator s. */
  lemma DonateLastKeeps(left: Node, s: Item, right: Node, m: Item, l1: Node, l2: Node,
                        L: Option<Bytes>, H: Option<Bytes>, h: nat, M: nat)
    requires Shaped(left, h, M) && Shaped(right, h, M) && WellFormed(s) && |left.items| >= 2
    requires Split(left, |left.items| - 1) == (m, l1, l2)
    requires Ordered(left, L, Some(Key(s))) && Ordered(right, Some(Key(s)), H)
    requires H.Some? ==> Less(Key(s), H.value)
    requires Filled(right)
    ensures left.Leaf? == right.Leaf? && WellFormed(m) && Less(Key(m), Key(s))
    ensures L.Some? ==> Less(L.value, Key(m))
    ensures Ordered(l1, L, Some(Key(m))) && Ordered(Join(l2, s, right), Some(Key(m)), H)
  {
    var k := |left.items| - 1;
    SplitOrderedLeft(left, k, L, Some(Key(s)));
    SplitOrderedRight(left, k, L, Some(Key(s)));
    if right.Inter? {
      StrictLower(right, Key(s), H, h, M);
    }
    JoinOrdered(l2, s, right, Some(Key(m)), H);
  }

  /** The two nodes a left donation leaves are occupied. */
  lemma DonateLastOccupied(left: Node, s: Item, right: Node, m: Item, l1: Node, l2: Node, h: nat, M: nat)
    requires Shaped(left, h, M) && Shaped(right, h, M) && |left.items| >= 2 && Filled(left) && Filled(right)
    requires Split(left, |left.items| - 1) == (m, l1, l2)
    ensures Occupied(l1) && Occupied(Join(l2, s, right))
  {
    SplitFilled(left, |left.items| - 1);
    JoinFilled(l2, s, right);
  }

  /** Concatenation regroups. */
  lemma ConcatAssoc(a: seq<Item>, b: seq<Item>, c: seq<Item>)
    ensures a + (b + c) == (a + b) + c
  {
  }

  /** The two nodes a left donation leaves hold the siblings' items. */
  lemma DonateLastFlatten(left: Node, s: Item, right: Node, m: Item, l1: Node, l2: Node)
    requires left.Leaf? == right.Leaf? && |left.items| >= 1
    requires left.Inter? ==> |left.children| == |left.items| + 1
    requires Split(left, |left.items| - 1) == (m, l1, l2)
    ensures FlattenAll([l1, Join(l2, s, right)]) == Flatten(left) + Flatten(right)
  {
    SplitFlatten(left, |left.items| - 1);
    JoinFlatten(l2, s, right);
    FlattenAllPair(l1, Join(l2, s, right));
    ConcatAssoc(Flatten(l1), Flatten(l2), Flatten(right));
  }

  /** A right sibling with two items or more gives its first one across separator s. */
  lemma DonateFirstKeeps(left: Node, s: Item, right: Node, m: Item, r1: Node, r2: Node,
                         L: Option<Bytes>, H: Option<Bytes>, h: nat, M: nat)
    requires Shaped(left, h, M) && Shaped(right, h, M) && WellFormed(s) && |right.items| >= 2
    requires Split(right, if right.Leaf? then 1 else 0) == (m, r1, r2)
    requires Ordered(left, L, Some(Key(s))) && Ordered(right, Some(Key(s)), H)
    requires L.Some? ==> LessEq(L.value, Key(s))
    requires Filled(right)
    ensures left.Leaf? == right.Leaf? && WellFormed(m) && Less(Key(s), Key(m))
    ensures H.Some? ==> Less(Key(m), H.value)
    ensures Ordered(Join(left, s, r1), L, Some(Key(m))) && Ordered(r2, Some(Key(m)), H)
  {
    var at := if right.Leaf? then 1 else 0;
    SplitOrderedLeft(right, at, Some(Key(s)), H);
    SplitOrderedRight(right, at, Some(Key(s)), H);
    if right.Inter? {
      StrictLower(right, Key(s), H, h, M);
      assert m == right.items[0];
    }
    JoinOrdered(left, s, r1, L, Some(Key(m)));
  }

  /** The two nodes a right donation leaves are occupied. */
  lemma DonateFirstOccupied(left: Node, s: Item, right: Node, m: Item, r1: Node, r2: Node, h: nat, M: nat)
    requires Shaped(left, h, M) && Shaped(right, h, M) && |right.items| >= 2 && Filled(left) && Filled(right)
    requires Split(right, if right.Leaf? then 1 else 0) == (m, r1, r2)
    ensures Occupied(Join(left, s, r1)) && Occupied(r2)
  {
    SplitFilled(right, if right.Leaf? then 1 else 0);
    JoinFilled(left, s, r1);
  }

  /** The two nodes a right donation leaves hold the siblings' items. */
  lemma DonateFirstFlatten(left: Node, s: Item, right: Node, m: Item, r1: Node, r2: Node, h: nat, M: nat)
    requires Shaped(left, h, M) && Shaped(right, h, M) && |right.items| >= 2
    requires Split(right, if right.Leaf? then 1 else 0) == (m, r1, r2)
    ensures FlattenAll([Join(left, s, r1), r2]) == Flatten(left) + Flatten(right)
  {
    SplitFlatten(right, if right.Leaf? then 1 else 0);
    JoinFlatten(left, s, r1);
    FlattenAllPair(Join(left, s, r1), r2);
  }

  /** Two siblings joined across separator s. */
  lemma JoinKeeps(left: Node, s: Item, right: Node, L: Option<Bytes>, H: Option<Bytes>, h: nat, M: nat)
    requires Shaped(left, h, M) && Shaped(right, h, M) && WellFormed(s) && Within(Key(s), L, H)
    requires Ordered(left, L, Some(Key(s))) && Ordered(right, Some(Key(s)), H)
    requires Occupied(left) && Filled(right)
    ensures left.Leaf? == right.Leaf?
    ensures Ordered(Join(left, s, right), L, H) && Occupied(Join(left, s, right))
    ensures FlattenAll([Join(left, s, right)]) == Flatten(left) + Flatten(right)
  {
    if right.Inter? {
      StrictLower(right, Key(s), H, h, M);
    }
    JoinOrdered(left, s, right, L, H);
    JoinFilled(left, s, right);
    JoinFlatten(left, s, right);
    FlattenAllOne(Join(left, s, right));
  }

  /** The bounds of children i and i+1 meet at separator i, which lies within the node's bounds. */
  lemma Neighbours(n: Node, i: nat, lo: Option<Bytes>, hi: Option<Bytes>)
    requires n.Inter? && Ordered(n, lo, hi) && i < |n.items|
    ensures Ordered(n.children[i], ChildLo(n.items, i, lo), Some(Key(n.items[i])))
    ensures Ordered(n.children[i + 1], Some(Key(n.items[i])), ChildHi(n.items, i + 1, hi))
    ensures Within(Key(n.items[i]), ChildLo(n.items, i, lo), ChildHi(n.items, i + 1, hi))
  {
    var seps := n.items;
    assert Ordered(n.children[i], ChildLo(seps, i, lo), ChildHi(seps, i, hi));
    assert Ordered(n.children[i + 1], ChildLo(seps, i + 1, lo), ChildHi(seps, i + 1, hi));
    if i > 0 {
      assert Less(Key(seps[i - 1]), Key(seps[i]));
    }
    if i + 1 < |seps| {
      assert Less(Key(seps[i]), Key(seps[i + 1]));
    }
  }

  /**
   * What the rebalancing knows about children a and a+1 of n once it has
   * forked them (or kept them): their shape, items, bounds and filled leaves.
   */
  ghost predicate Siblings(n: Node, a: nat, left: Node, right: Node, h: nat, lo: Option<Bytes>, hi: Option<Bytes>)
    requires n.Inter? && a < |n.items| && |n.children| == |n.items| + 1 && h > 0 && AllWellFormed(n.items)
  {
    var s, L, H := n.items[a], ChildLo(n.items, a, lo), ChildHi(n.items, a + 1, hi);
    && Shaped(left, h - 1, n.max) && Shaped(right, h - 1, n.max) && left.Leaf? == right.Leaf?
    && Flatten(left) == Flatten(n.children[a]) && Flatten(right) == Flatten(n.children[a + 1])
    && WellFormed(s) && Within(Key(s), L, H)
    && Ordered(left, L, Some(Key(s))) && Ordered(right, Some(Key(s)), H)
    && Occupied(left) && Occupied(right)
  }

  /** Forked neighbours of an ordered, filled, shaped node are Siblings. */
  lemma ForkSiblings(n: Node, a: nat, left: Node, right: Node, h: nat, lo: Option<Bytes>, hi: Option<Bytes>)
    requires Shaped(n, h, n.max) && n.Inter? && a < |n.items| && Ordered(n, lo, hi) && Filled(n)
    requires left == Fork(n.children[a], n.owner)
    requires right == n.children[a + 1] || right == Fork(n.children[a + 1], n.owner)
    ensures h > 0 && Siblings(n, a, left, right, h, lo, hi)
  {
    var seps, cs, M := n.items, n.children, n.max;
    ShapedChild(n, a, h, M);
    ShapedChild(n, a + 1, h, M);
    var s := seps[a];
    Neighbours(n, a, lo, hi);
    ForkKeeps(cs[a], n.owner, h - 1, M, ChildLo(seps, a, lo), Some(Key(s)));
    ForkKeeps(cs[a + 1], n.owner, h - 1, M, Some(Key(s)), ChildHi(seps, a + 1, hi));
  }

  /** A left steal leaves children that fit the rebuilt node. */
  lemma RotatedLeftFits(n: Node, i: nat, h: nat, lo: Option<Bytes>, hi: Option<Bytes>,
                        left: Node, right: Node, stolen: Item, l1: Node, l2: Node)
    requires n.Inter? && 0 < i < |n.children| && |n.children| == |n.items| + 1 && h > 0
    requires Ordered(n, lo, hi) && Filled(n) && Siblings(n, i - 1, left, right, h, lo, hi)
    requires |left.items| >= 2 && (left.Inter? ==> |left.children| == |left.items| + 1)
    requires Split(left, |left.items| - 1) == (stolen, l1, l2)
    ensures WellFormed(stolen) && Less(Key(stolen), Key(n.items[i - 1]))
    ensures PairFits(n, i - 1, stolen, l1, Join(l2, n.items[i - 1], right), lo, hi)
  {
    var s := n.items[i - 1];
    var L, H := ChildLo(n.items, i - 1, lo), ChildHi(n.items, i, hi);
    DonateLastOccupied(left, s, right, stolen, l1, l2, h - 1, n.max);
    DonateLastFlatten(left, s, right, stolen, l1, l2);
    DonateLastKeeps(left, s, right, stolen, l1, l2, L, H, h - 1, n.max);
    if H.Some? {
      LessTransitive(Key(stolen), Key(s), H.value);
    }
  }

  /** A right steal leaves children that fit the rebuilt node. */
  lemma RotatedRightFits(n: Node, i: nat, h: nat, lo: Option<Bytes>, hi: Option<Bytes>,
                         left: Node, right: Node, sep: Item, r1: Node, r2: Node)
    requires n.Inter? && i < |n.items| && |n.children| == |n.items| + 1 && h > 0
    requires Ordered(n, lo, hi) && Filled(n) && Siblings(n, i, left, right, h, lo, hi)
    requires |right.items| >= 2 && (right.Inter? ==> |right.children| == |right.items| + 1)
    requires Split(right, if right.Leaf? then 1 else 0) == (sep, r1, r2)
    ensures WellFormed(sep) && Less(Key(n.items[i]), Key(sep))
    ensures PairFits(n, i, sep, Join(left, n.items[i], r1), r2, lo, hi)
  {
    var s := n.items[i];
    var L, H := ChildLo(n.items, i, lo), ChildHi(n.items, i + 1, hi);
    DonateFirstOccupied(left, s, right, sep, r1, r2, h - 1, n.max);
    DonateFirstFlatten(left, s, right, sep, r1, r2, h - 1, n.max);
    DonateFirstKeeps(left, s, right, sep, r1, r2, L, H, h - 1, n.max);
    if L.Some? {
      LessEqLess(L.value, Key(s), Key(sep));
    }
    if i > 0 {
      LessTransitive(Key(n.items[i - 1]), Key(s), Key(sep));
    }
  }

  /** A merge leaves a child that fits the rebuilt node. */
  lemma MergedFits(n: Node, i: nat, h: nat, lo: Option<Bytes>, hi: Option<Bytes>, left: Node)
    requires n.Inter? && i < |n.items| && |n.children| == |n.items| + 1 && h > 0
    requires Ordered(n, lo, hi) && Filled(n) && Siblings(n, i, left, n.children[i + 1], h, lo, hi)
    ensures OneFits(n, i, Join(left, n.items[i], n.children[i + 1]), lo, hi)
  {
    var s := n.items[i];
    JoinKeeps(left, s, n.children[i + 1], ChildLo(n.items, i, lo), ChildHi(n.items, i + 1, hi), h - 1, n.max);
  }

  /** Lowering separator i-1 keeps child i the target. */
  lemma TargetsLowered(seps: seq<Item>, i: nat, x: Item, key: Bytes, mode: LeafSpec.Mode)
    requires AllWellFormed(seps) && 0 < i <= |seps| && WellFormed(x) && Less(Key(x), Key(seps[i - 1]))
    requires Targets(seps, i, key, mode)
    ensures Targets(Spliced(seps, i - 1, i, [x]), i, key, mode)
  {
    var r := Spliced(seps, i - 1, i, [x]);
    SplicedWellFormed(seps, i - 1, i, [x]);
    assert r[i - 1 + 0] == x;
    if mode == LeafSpec.ByKey {
      LessLessEq(Key(x), Key(seps[i - 1]), key);
      if i < |seps| {
        assert r[i - i + (i - 1) + 1] == seps[i];
      }
    }
  }

  /** Raising separator i keeps child i the target. */
  lemma TargetsRaised(seps: seq<Item>, i: nat, x: Item, key: Bytes, mode: LeafSpec.Mode)
    requires AllWellFormed(seps) && i < |seps| && WellFormed(x) && Less(Key(seps[i]), Key(x))
    requires Targets(seps, i, key, mode)
    ensures Targets(Spliced(seps, i, i + 1, [x]), i, key, mode)
  {
    var r := Spliced(seps, i, i + 1, [x]);
    SplicedWellFormed(seps, i, i + 1, [x]);
    assert r[i + 0] == x;
    if mode == LeafSpec.ByKey {
      LessTransitive(key, Key(seps[i]), Key(x));
    }
  }

  /** After dropping separator j, child j is the target when child j or j+1 was. */
  lemma TargetsMerged(seps: seq<Item>, j: nat, key: Bytes, mode: LeafSpec.Mode)
    requires Sorted(seps) && j < |seps|
    requires Targets(seps, j, key, mode) || Targets(seps, j + 1, key, mode)
    ensures Targets(Spliced(seps, j, j + 1, []), j, key, mode)
  {
    var r := Spliced(seps, j, j + 1, []);
    SplicedWellFormed(seps, j, j + 1, []);
    if mode == LeafSpec.ByKey {
      if j < |r| {
        assert r[(j + 1) - (j + 1) + j + 0] == seps[j + 1];
        if Routes(seps, j, key) {
          LessTransitive(key, Key(seps[j]), Key(seps[j + 1]));
        }
      }
      if j > 0 && Routes(seps, j + 1, key) {
        LessLessEq(Key(seps[j - 1]), Key(seps[j]), key);
      }
    }
  }

  /** stealLeft keeps the items, the order, the filled leaves and the target. */
  lemma StealLeftKeeps(n: Node, i: nat, h: nat, lo: Option<Bytes>, hi: Option<Bytes>, key: Bytes, mode: LeafSpec.Mode)
    requires Shaped(n, h, n.max) && n.Inter? && 0 < i < |n.children| && |n.children[i - 1].items| >= 2
    requires Ordered(n, lo, hi) && Filled(n) && Targets(n.items, i, key, mode)
    ensures n.children[i - 1].Leaf? == n.children[i].Leaf?
    ensures n.children[i - 1].Inter? ==> |n.children[i - 1].children| == |n.children[i - 1].items| + 1
    ensures Flatten(StealLeft(n, i)) == Flatten(n) && Ordered(StealLeft(n, i), lo, hi) && Filled(StealLeft(n, i))
    ensures Targets(StealLeft(n, i).items, i, key, mode)
  {
    StealLeftRotates(n, i, h, n.max);
    var left, right := Fork(n.children[i - 1], n.owner), Fork(n.children[i], n.owner);
    ForkSiblings(n, i - 1, left, right, h, lo, hi);
    var (stolen, l1, l2) := Split(left, |left.items| - 1);
    RotatedLeftFits(n, i, h, lo, hi, left, right, stolen, l1, l2);
    RebuiltPairKeeps(n, i - 1, stolen, l1, Join(l2, n.items[i - 1], right), lo, hi);
    TargetsLowered(n.items, i, stolen, key, mode);
  }

  /** stealRight keeps the items, the order, the filled leaves and the target. */
  lemma StealRightKeeps(n: Node, i: nat, h: nat, lo: Option<Bytes>, hi: Option<Bytes>, key: Bytes, mode: LeafSpec.Mode)
    requires Shaped(n, h, n.max) && n.Inter? && i < |n.items| && |n.children[i + 1].items| >= 2
    requires Ordered(n, lo, hi) && Filled(n) && Targets(n.items, i, key, mode)
    ensures n.children[i].Leaf? == n.children[i + 1].Leaf?
    ensures n.children[i + 1].Inter? ==> |n.children[i + 1].children| == |n.children[i + 1].items| + 1
    ensures Flatten(StealRight(n, i)) == Flatten(n) && Ordered(StealRight(n, i), lo, hi) && Filled(StealRight(n, i))
    ensures Targets(StealRight(n, i).items, i, key, mode)
  {
    StealRightRotates(n, i, h, n.max);
    var left, right := Fork(n.children[i], n.owner), Fork(n.children[i + 1], n.owner);
    ForkSiblings(n, i, left, right, h, lo, hi);
    var (sep, r1, r2) := Split(right, if right.Leaf? then 1 else 0);
    RotatedRightFits(n, i, h, lo, hi, left, right, sep, r1, r2);
    RebuiltPairKeeps(n, i, sep, Join(left, n.items[i], r1), r2, lo, hi);
    TargetsRaised(n.items, i, sep, key, mode);
  }

  /** mergeRight keeps the items, the order, the filled leaves, and makes the merged child the target. */
  lemma MergeRightKeeps(n: Node, j: nat, h: nat, lo: Option<Bytes>, hi: Option<Bytes>, key: Bytes, mode: LeafSpec.Mode)
    requires Shaped(n, h, n.max) && n.Inter? && j < |n.items|
    requires Ordered(n, lo, hi) && Filled(n)
    requires Targets(n.items, j, key, mode) || Targets(n.items, j + 1, key, mode)
    ensures n.children[j].Leaf? == n.children[j + 1].Leaf?
    ensures Flatten(MergeRight(n, j)) == Flatten(n) && Ordered(MergeRight(n, j), lo, hi) && Filled(MergeRight(n, j))
    ensures Targets(MergeRight(n, j).items, j, key, mode)
  {
    MergeRightJoins(n, j, h, n.max);
    var left := Fork(n.children[j], n.owner);
    ForkSiblings(n, j, left, n.children[j + 1], h, lo, hi);
    MergedFits(n, j, h, lo, hi, left);
    RebuiltOneKeeps(n, j, Join(left, n.items[j], n.children[j + 1]), lo, hi);
    TargetsMerged(n.items, j, key, mode);
  }

  /**
   * What the descent step of remove promises about the node it leaves and
   * the child index it picks: the same items as n, in order, with filled
   * leaves; the key's (or the first or last) child; and, for a leaf child,
   * two items or more so that one can go.
   */
  ghost predicate Prepared(n: Node, r: Node, j: nat, key: Bytes, mode: LeafSpec.Mode, lo: Option<Bytes>, hi: Option<Bytes>)
  {
    && r.Inter? && j < |r.children|
    && Flatten(r) == Flatten(n) && Ordered(r, lo, hi) && Filled(r)
    && Targets(r.items, j, key, mode)
    && (r.children[j].Leaf? ==> |r.children[j].items| >= 2)
  }

  /** A left steal prepares child i. */
  lemma StealLeftPrepared(n: Node, i: nat, h: nat, lo: Option<Bytes>, hi: Option<Bytes>, key: Bytes, mode: LeafSpec.Mode)
    requires Shaped(n, h, n.max) && n.Inter? && 0 < i < |n.children| && |n.children[i - 1].items| >= 2
    requires Ordered(n, lo, hi) && Filled(n) && Targets(n.items, i, key, mode)
    ensures n.children[i - 1].Leaf? == n.children[i].Leaf?
    ensures n.children[i - 1].Inter? ==> |n.children[i - 1].children| == |n.children[i - 1].items| + 1
    ensures Prepared(n, StealLeft(n, i), i, key, mode, lo, hi)
  {
    assert n.children[i].Leaf? ==> |n.children[i].items| >= 1;
    StealLeftKeeps(n, i, h, lo, hi, key, mode);
  }

  /** A right steal prepares child i. */
  lemma StealRightPrepared(n: Node, i: nat, h: nat, lo: Option<Bytes>, hi: Option<Bytes>, key: Bytes, mode: LeafSpec.Mode)
    requires Shaped(n, h, n.max) && n.Inter? && i < |n.items| && |n.children[i + 1].items| >= 2
    requires Ordered(n, lo, hi) && Filled(n) && Targets(n.items, i, key, mode)
    ensures n.children[i].Leaf? == n.children[i + 1].Leaf?
    ensures n.children[i + 1].Inter? ==> |n.children[i + 1].children| == |n.children[i + 1].items| + 1
    ensures Prepared(n, StealRight(n, i), i, key, mode, lo, hi)
  {
    assert n.children[i].Leaf? ==> |n.children[i].items| >= 1;
    StealRightKeeps(n, i, h, lo, hi, key, mode);
  }

  /** A merge prepares child j, which held the target or sat left of it. */
  lemma MergePrepared(n: Node, j: nat, h: nat, lo: Option<Bytes>, hi: Option<Bytes>, key: Bytes, mode: LeafSpec.Mode)
    requires Shaped(n, h, n.max) && n.Inter? && j < |n.items|
    requires Ordered(n, lo, hi) && Filled(n)
    requires Targets(n.items, j, key, mode) || Targets(n.items, j + 1, key, mode)
    ensures n.children[j].Leaf? == n.children[j + 1].Leaf?
    ensures Prepared(n, MergeRight(n, j), j, key, mode, lo, hi)
  {
    MergeRightKeeps(n, j, h, lo, hi, key, mode);
    MergedHolds(n, j, h);
  }

  /** A merged leaf holds two items or more: both leaves it came from held one. */
  lemma MergedHolds(n: Node, j: nat, h: nat)
    requires Shaped(n, h, n.max) && n.Inter? && j < |n.items| && Filled(n)
    requires n.children[j].Leaf? == n.children[j + 1].Leaf?
    ensures MergeRight(n, j).children[j].Leaf? ==> |MergeRight(n, j).children[j].items| >= 2
  {
    assert n.children[j].Leaf? ==> |n.children[j].items| >= 1;
    assert n.children[j + 1].Leaf? ==> |n.children[j + 1].items| >= 1;
  }

  /** Refilling child i of a node keeps its items, its order and its filled leaves, and prepares the target child. */
  lemma StealRemoveKeeps(n: Node, i: nat, min: nat, h: nat, lo: Option<Bytes>, hi: Option<Bytes>, key: Bytes, mode: LeafSpec.Mode)
    requires Shaped(n, h, n.max) && n.Inter? && i < |n.children| && |n.items| >= 1 && min >= 1
    requires Ordered(n, lo, hi) && Filled(n) && Targets(n.items, i, key, mode)
    ensures Prepared(n, StealRemove(n, i, min, h).0, StealRemove(n, i, min, h).1, key, mode, lo, hi)
  {
    if i > 0 && |n.children[i - 1].items| > min {
      StealRemoveLeft(n, i, min, h, lo, hi, key, mode);
    } else if i < |n.items| && |n.children[i + 1].items| > min {
      StealRemoveRight(n, i, min, h, lo, hi, key, mode);
    } else {
      StealRemoveMerge(n, i, min, h, lo, hi, key, mode);
    }
  }

  /** The left-steal branch of StealRemoveKeeps. */
  lemma StealRemoveLeft(n: Node, i: nat, min: nat, h: nat, lo: Option<Bytes>, hi: Option<Bytes>, key: Bytes, mode: LeafSpec.Mode)
    requires Shaped(n, h, n.max) && n.Inter? && i < |n.children| && |n.items| >= 1 && min >= 1
    requires Ordered(n, lo, hi) && Filled(n) && Targets(n.items, i, key, mode)
    requires i > 0 && |n.children[i - 1].items| > min
    ensures Prepared(n, StealRemove(n, i, min, h).0, StealRemove(n, i, min, h).1, key, mode, lo, hi)
  {
    StealLeftPrepared(n, i, h, lo, hi, key, mode);
    assert StealRemove(n, i, min, h) == (StealLeft(n, i), i);
  }

  /** The right-steal branch of StealRemoveKeeps. */
  lemma StealRemoveRight(n: Node, i: nat, min: nat, h: nat, lo: Option<Bytes>, hi: Option<Bytes>, key: Bytes, mode: LeafSpec.Mode)
    requires Shaped(n, h, n.max) && n.Inter? && i < |n.children| && |n.items| >= 1 && min >= 1
    requires Ordered(n, lo, hi) && Filled(n) && Targets(n.items, i, key, mode)
    requires !(i > 0 && |n.children[i - 1].items| > min) && i < |n.items| && |n.children[i + 1].items| > min
    ensures Prepared(n, StealRemove(n, i, min, h).0, StealRemove(n, i, min, h).1, key, mode, lo, hi)
  {
    StealRightPrepared(n, i, h, lo, hi, key, mode);
    assert StealRemove(n, i, min, h) == (StealRight(n, i), i);
  }

  /** The merge branch of StealRemoveKeeps. */
  lemma StealRemoveMerge(n: Node, i: nat, min: nat, h: nat, lo: Option<Bytes>, hi: Option<Bytes>, key: Bytes, mode: LeafSpec.Mode)
    requires Shaped(n, h, n.max) && n.Inter? && i < |n.children| && |n.items| >= 1 && min >= 1
    requires Ordered(n, lo, hi) && Filled(n) && Targets(n.items, i, key, mode)
    requires !(i > 0 && |n.children[i - 1].items| > min)
    requires !(i < |n.items| && |n.children[i + 1].items| > min)
    ensures Prepared(n, StealRemove(n, i, min, h).0, StealRemove(n, i, min, h).1, key, mode, lo, hi)
  {
    var j := MergeAt(n, i, min, h);
    MergePrepared(n, j, h, lo, hi, key, mode);
  }

  /** Where neither sibling can lend, stealRemove merges child i with its right sibling, or with its left one when i is last. */
  lemma MergeAt(n: Node, i: nat, min: nat, h: nat) returns (j: nat)
    requires Shaped(n, h, n.max) && n.Inter? && i < |n.children| && |n.items| >= 1 && min >= 1
    requires !(i > 0 && |n.children[i - 1].items| > min)
    requires !(i < |n.items| && |n.children[i + 1].items| > min)
    ensures j < |n.items| && (j == i || j + 1 == i)
    ensures |n.children| == |n.items| + 1 && n.children[j].Leaf? == n.children[j + 1].Leaf?
    ensures StealRemove(n, i, min, h) == (MergeRight(n, j), j)
  {
    if i >= |n.items| {
      j := i - 1;
    } else {
      j := i;
    }
    MergeRightShaped(n, j, h, n.max);
  }

  /** The descent step of remove keeps the items, the order and the filled leaves, and picks the target. */
  lemma PrepareKeeps(n: Node, key: Bytes, mode: LeafSpec.Mode, h: nat, lo: Option<Bytes>, hi: Option<Bytes>)
    requires Shaped(n, h, n.max) && n.max >= 2 && n.Inter? && Removable(n)
    requires Ordered(n, lo, hi) && Filled(n)
    ensures Prepared(n, Prepare(n, key, mode, h).0, Prepare(n, key, mode, h).1, key, mode, lo, hi)
  {
    var i := Route(n.items, key, mode);
    RouteTargets(n.items, key, mode);
    if |n.children[i].items| <= n.max / 2 {
      StealRemoveKeeps(n, i, n.max / 2, h, lo, hi, key, mode);
    }
  }
}
