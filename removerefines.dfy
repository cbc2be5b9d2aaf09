/**
 * Remove on a whole tree is remove on one big leaf (tbp/inter.go:155-185,
 * tbp/leaf.go:34-62): the in-order items change exactly as LeafSpec.Remove
 * changes a leaf's items, the tree reports the same removal and the same
 * new first item, and it stays ordered with every leaf below the root
 * holding an item.
 */
module RemoveRefinement {
  import opened Bytes
  import opened Codec
  import opened Items
  import opened Wrappers
  import opened Nodes
  import opened Internal
  import opened Order
  import opened Removal
  import opened Rebalance
  import opened RemoveProof
  import opened InsertProof
  import LeafSpec

  /** The items left after one is removed from in-bounds items lie in the same bounds. */
  lemma AllWithinRemoved(items: seq<Item>, i: nat, lo: Option<Bytes>, hi: Option<Bytes>)
    requires AllWithin(items, lo, hi) && i < |items|
    ensures AllWithin(ItemRemoved(items, i), lo, hi)
  {
    var rest := ItemRemoved(items, i);
    assert forall j :: 0 <= j < |rest| ==> rest[j] == items[if j < i then j else j + 1];
  }

  /** A leaf removal keeps the items sorted and within the leaf's bounds. */
  lemma LeafRemoveKeeps(items: seq<Item>, key: Bytes, mode: LeafSpec.Mode, lo: Option<Bytes>, hi: Option<Bytes>)
    requires Sorted(items) && AllWithin(items, lo, hi)
    ensures Sorted(LeafSpec.Remove(items, key, mode).0) && AllWithin(LeafSpec.Remove(items, key, mode).0, lo, hi)
  {
    if |items| > 0 {
      match mode
      case ByKey =>
        LeafSpec.RemoveByKeySpec(items, key);
        var (i, found) := Find(items, key);
        if found {
          AllWithinRemoved(items, i, lo, hi);
        }
      case Min =>
        LeafSpec.RemoveMinSpec(items, key);
        AllWithinRemoved(items, 0, lo, hi);
      case Max =>
        LeafSpec.RemoveMaxSpec(items, key);
        AllWithinRemoved(items, |items| - 1, lo, hi);
    }
  }

  /** A filled child with two items or one separator has two items or more under it. */
  lemma TwoItems(c: Node, h: nat, M: nat)
    requires Shaped(c, h, M) && Filled(c)
    requires c.Leaf? ==> |c.items| >= 2
    requires c.Inter? ==> |c.items| >= 1
    ensures |Flatten(c)| >= 2
  {
    if c.Inter? {
      var cs := c.children;
      var k := |cs| - 1;
      ShapedChild(c, 0, h, M);
      ShapedChild(c, k, h, M);
      FilledFlatten(cs[0], h - 1, M);
      FilledFlatten(cs[k], h - 1, M);
      FlattenAllAround(cs, 0);
      assert cs[..0] == [];
      assert cs[1..][..k - 1] + [cs[k]] == cs[1..];
      assert FlattenAll(cs[1..]) == FlattenAll(cs[1..][..k - 1]) + Flatten(cs[k]);
    }
  }

  /** Under a filled node, the children before child j > 0 hold an item. */
  lemma PrefixHolds(n: Node, j: nat, h: nat, M: nat)
    requires Shaped(n, h, M) && n.Inter? && Filled(n) && 0 < j < |n.children|
    ensures FlattenAll(n.children[..j]) != []
  {
    ShapedChild(n, j - 1, h, M);
    FilledFlatten(n.children[j - 1], h - 1, M);
    FlattenAllPrefix(n.children, j - 1);
  }

  /**
   * The items of a node split around its target child: everything before
   * sorts below the key and everything after above it; the minimum's child
   * has nothing before it and the maximum's nothing after it.
   */
  lemma TargetFrame(n: Node, j: nat, key: Bytes, mode: LeafSpec.Mode, lo: Option<Bytes>, hi: Option<Bytes>)
    requires n.Inter? && Ordered(n, lo, hi) && Targets(n.items, j, key, mode)
    ensures j < |n.children|
    ensures Flatten(n) == FlattenAll(n.children[..j]) + Flatten(n.children[j]) + FlattenAll(n.children[j + 1..])
    ensures mode == LeafSpec.ByKey ==> KeysBelow(FlattenAll(n.children[..j]), key) && KeysAbove(FlattenAll(n.children[j + 1..]), key)
    ensures mode == LeafSpec.Min ==> FlattenAll(n.children[..j]) == []
    ensures mode == LeafSpec.Max ==> FlattenAll(n.children[j + 1..]) == []
  {
    var cs := n.children;
    if mode == LeafSpec.ByKey {
      ChildFrame(n, j, key, lo, hi);
    } else {
      FlattenAllAround(cs, j);
      assert cs[..0] == [];
      assert cs[|cs|..] == [];
    }
  }

  /**
   * Removing from the target child is removing from the node's items:
   * the same items go, the same removal is reported, and the new first
   * item is the node's only when the child is the first one.
   */
  lemma RemoveIntoChild(n: Node, j: nat, c: Node, c': Node, key: Bytes, mode: LeafSpec.Mode, lo: Option<Bytes>, hi: Option<Bytes>)
    requires n.Inter? && Ordered(n, lo, hi) && Targets(n.items, j, key, mode)
    requires j < |n.children| && (j > 0 ==> FlattenAll(n.children[..j]) != [])
    requires Flatten(c) == Flatten(n.children[j]) && |Flatten(c)| >= 2 && AllWellFormed(Flatten(c))
    requires Flatten(c') == LeafSpec.Remove(Flatten(c), key, mode).0
    requires Ordered(c', ChildLo(n.items, j, lo), ChildHi(n.items, j, hi))
    ensures AllWellFormed(Flatten(n))
    ensures Flatten(n.(children := n.children[j := c'])) == LeafSpec.Remove(Flatten(n), key, mode).0
    ensures LeafSpec.Remove(Flatten(n), key, mode).2 == LeafSpec.Remove(Flatten(c), key, mode).2
    ensures LeafSpec.Remove(Flatten(n), key, mode).1 == (if j == 0 then LeafSpec.Remove(Flatten(c), key, mode).1 else None)
    ensures Ordered(n.(children := n.children[j := c']), lo, hi)
  {
    OrderedFlatten(n, lo, hi);
    TargetFrame(n, j, key, mode, lo, hi);
    var a, b, z := FlattenAll(n.children[..j]), Flatten(c), FlattenAll(n.children[j + 1..]);
    if j == 0 {
      assert n.children[..0] == [];
    }
    LeafSpec.RemoveFrame(a, b, z, key, mode);
    LeafSpec.RemoveFrameFirst(a, b, z, key, mode);
    ReplaceChildFlatten(n, j, c');
    ReplaceChildOrdered(n, j, c', lo, hi);
  }

  /** Replacing a child of a filled node with an occupied one keeps it filled. */
  lemma ReplaceChildFilled(n: Node, j: nat, c: Node)
    requires n.Inter? && Filled(n) && j < |n.children| && Occupied(c)
    ensures Filled(n.(children := n.children[j := c]))
  {
    var cs := n.children[j := c];
    assert forall k :: 0 <= k < |cs| ==> cs[k] == (if k == j then c else n.children[k]);
  }

  /**
   * A filled, ordered subtree whose first item is x is ordered from x on:
   * its lower bound can be raised to its first item.
   */
  lemma {:induction false} OrderedTighten(t: Node, lo: Option<Bytes>, hi: Option<Bytes>, h: nat, M: nat)
    requires Shaped(t, h, M) && Filled(t) && Ordered(t, lo, hi) && (t.Leaf? ==> |t.items| > 0)
    ensures |Flatten(t)| > 0 && WellFormed(Flatten(t)[0])
    ensures Ordered(t, Some(Key(Flatten(t)[0])), hi)
    decreases t
  {
    FilledFlatten(t, h, M);
    OrderedFlatten(t, lo, hi);
    match t
    case Leaf(_, _, items) =>
      LeafTighten(items, lo, hi);
    case Inter(_, _, seps, cs) =>
      ShapedChild(t, 0, h, M);
      OrderedChild(t, 0, lo, hi);
      OrderedTighten(cs[0], ChildLo(seps, 0, lo), ChildHi(seps, 0, hi), h - 1, M);
      InterTightenStep(t, lo, hi);
  }

  /** The step of OrderedTighten at an internal node, given its first child ordered from its own first item on. */
  lemma InterTightenStep(t: Node, lo: Option<Bytes>, hi: Option<Bytes>)
    requires t.Inter? && Ordered(t, lo, hi)
    requires |Flatten(t.children[0])| > 0 && WellFormed(Flatten(t.children[0])[0])
    requires Ordered(t.children[0], Some(Key(Flatten(t.children[0])[0])), ChildHi(t.items, 0, hi))
    ensures |Flatten(t)| > 0 && Flatten(t)[0] == Flatten(t.children[0])[0]
    ensures Ordered(t, Some(Key(Flatten(t)[0])), hi)
  {
    var cs := t.children;
    var x := Flatten(cs[0])[0];
    OrderedChild(t, 0, lo, hi);
    OrderedFlatten(cs[0], ChildLo(t.items, 0, lo), ChildHi(t.items, 0, hi));
    FlattenAllAround(cs, 0);
    assert cs[..0] == [];
    InterTighten(t, lo, hi, x);
  }

  /** Sorted items within [lo, hi) lie within [first item, hi). */
  lemma LeafTighten(items: seq<Item>, lo: Option<Bytes>, hi: Option<Bytes>)
    requires Sorted(items) && AllWithin(items, lo, hi) && |items| > 0
    ensures AllWithin(items, Some(Key(items[0])), hi)
  {
    forall i | 0 <= i < |items|
      ensures Within(Key(items[i]), Some(Key(items[0])), hi)
    {
      if i == 0 {
        LessEqRefl(Key(items[0]));
      }
    }
  }

  /** An internal node whose first child is ordered from x on, x below every separator, is ordered from x on. */
  lemma InterTighten(t: Node, lo: Option<Bytes>, hi: Option<Bytes>, x: Item)
    requires t.Inter? && Ordered(t, lo, hi) && WellFormed(x)
    requires Ordered(t.children[0], Some(Key(x)), ChildHi(t.items, 0, hi))
    requires Within(Key(x), lo, ChildHi(t.items, 0, hi))
    ensures Ordered(t, Some(Key(x)), hi)
  {
    var seps, cs := t.items, t.children;
    forall i | 0 <= i < |seps|
      ensures Within(Key(seps[i]), Some(Key(x)), hi)
    {
      if i > 0 {
        LessTransitive(Key(x), Key(seps[0]), Key(seps[i]));
      }
    }
    forall k | 0 <= k < |cs|
      ensures Ordered(cs[k], ChildLo(seps, k, Some(Key(x))), ChildHi(seps, k, hi))
    {
      if k > 0 {
        assert Ordered(cs[k], ChildLo(seps, k, lo), ChildHi(seps, k, hi));
      }
    }
  }

  /**
   * The separator repair keeps the items, the order and the filled leaves:
   * the new first item of child j > 0 sits between the separators around
   * it, and only child 0's new first item is passed up.
   */
  lemma PropagateKeeps(n: Node, j: nat, first: Option<Item>, lo: Option<Bytes>, hi: Option<Bytes>, h: nat)
    requires Shaped(n, h, n.max) && n.Inter? && j < |n.children| && Ordered(n, lo, hi) && Filled(n)
    requires first.Some? ==> |Flatten(n.children[j])| > 0 && first.value == Flatten(n.children[j])[0]
    ensures Flatten(Propagate(n, j, first).0) == Flatten(n)
    ensures Ordered(Propagate(n, j, first).0, lo, hi) && Filled(Propagate(n, j, first).0)
    ensures Propagate(n, j, first).1 == (if j == 0 then first else None)
  {
    if first.Some? && j > 0 {
      SeparatorRaised(n, j, first.value, lo, hi, h);
    }
  }

  /** Separator j-1 replaced by the first item x of child j. */
  lemma SeparatorRaised(n: Node, j: nat, x: Item, lo: Option<Bytes>, hi: Option<Bytes>, h: nat)
    requires Shaped(n, h, n.max) && n.Inter? && 0 < j < |n.children| && Ordered(n, lo, hi) && Filled(n)
    requires |Flatten(n.children[j])| > 0 && x == Flatten(n.children[j])[0]
    ensures Flatten(n.(items := n.items[j - 1 := x])) == Flatten(n)
    ensures Ordered(n.(items := n.items[j - 1 := x]), lo, hi) && Filled(n.(items := n.items[j - 1 := x]))
  {
    var cs := n.children;
    SeparatorFits(n, j, x, lo, hi, h);
    RebuiltPairKeeps(n, j - 1, x, cs[j - 1], cs[j], lo, hi);
    SeparatorRebuilt(n, j, x);
  }

  /** The first item of child j fits as separator j-1 between children j-1 and j. */
  lemma SeparatorFits(n: Node, j: nat, x: Item, lo: Option<Bytes>, hi: Option<Bytes>, h: nat)
    requires Shaped(n, h, n.max) && n.Inter? && 0 < j < |n.children| && Ordered(n, lo, hi) && Filled(n)
    requires |Flatten(n.children[j])| > 0 && x == Flatten(n.children[j])[0]
    ensures PairFits(n, j - 1, x, n.children[j - 1], n.children[j], lo, hi)
  {
    var seps, cs := n.items, n.children;
    var s := seps[j - 1];
    var L, H := ChildLo(seps, j - 1, lo), ChildHi(seps, j, hi);
    Neighbours(n, j - 1, lo, hi);
    FirstOfChild(n, j, x, lo, hi, h);
    OrderedWiden(cs[j - 1], L, Some(Key(s)), L, Some(Key(x)));
    if L.Some? {
      LessEqTransitive(L.value, Key(s), Key(x));
    }
    if j > 1 {
      LessLessEq(Key(seps[j - 2]), Key(s), Key(x));
    }
    FlattenAllPair(cs[j - 1], cs[j]);
    assert Occupied(cs[j - 1]) && Occupied(cs[j]);
  }

  /** Child j is ordered from its first item x on, and x lies within child j's bounds. */
  lemma FirstOfChild(n: Node, j: nat, x: Item, lo: Option<Bytes>, hi: Option<Bytes>, h: nat)
    requires Shaped(n, h, n.max) && n.Inter? && 0 < j < |n.children| && Ordered(n, lo, hi) && Filled(n)
    requires |Flatten(n.children[j])| > 0 && x == Flatten(n.children[j])[0]
    ensures WellFormed(x) && Within(Key(x), Some(Key(n.items[j - 1])), ChildHi(n.items, j, hi))
    ensures Ordered(n.children[j], Some(Key(x)), ChildHi(n.items, j, hi))
  {
    var c, L, H := n.children[j], Some(Key(n.items[j - 1])), ChildHi(n.items, j, hi);
    assert Ordered(c, L, H);
    ShapedChild(n, j, h, n.max);
    assert c.Leaf? ==> |c.items| > 0;
    OrderedTighten(c, L, H, h - 1, n.max);
    OrderedFlatten(c, L, H);
  }

  /** Rebuilding children j-1 and j around x only replaces separator j-1. */
  lemma SeparatorRebuilt(n: Node, j: nat, x: Item)
    requires n.Inter? && |n.children| == |n.items| + 1 && 0 < j < |n.children|
    ensures Rebuilt(n, j - 1, j, [x], [n.children[j - 1], n.children[j]]) == n.(items := n.items[j - 1 := x])
  {
    var cs := n.children;
    SplicedOne(n.items, j - 1, x);
    SplicedPair(cs, j - 1, cs[j - 1], cs[j]);
    assert cs[j - 1 := cs[j - 1]][j := cs[j]] == cs;
  }

  /**
   * Remove on an ordered, filled tree of height h is remove on its items:
   * the items left, the new first item reported and whether an item was
   * removed are those a leaf remove gives on the tree's in-order items,
   * and the tree stays ordered within its bounds and filled.
   */
  lemma {:induction false} RemoveRefines(n: Node, key: Bytes, mode: LeafSpec.Mode, h: nat, lo: Option<Bytes>, hi: Option<Bytes>)
    requires Shaped(n, h, n.max) && n.max >= 2 && Removable(n)
    requires Ordered(n, lo, hi) && Filled(n)
    ensures AllWellFormed(Flatten(n))
    ensures Flatten(Remove(n, key, mode, h).0) == LeafSpec.Remove(Flatten(n), key, mode).0
    ensures Remove(n, key, mode, h).1 == LeafSpec.Remove(Flatten(n), key, mode).1
    ensures Remove(n, key, mode, h).2 == LeafSpec.Remove(Flatten(n), key, mode).2
    ensures Ordered(Remove(n, key, mode, h).0, lo, hi) && Filled(Remove(n, key, mode, h).0)
    decreases h, 1
  {
    OrderedFlatten(n, lo, hi);
    match n
    case Leaf(o, m, items) =>
      LeafRemoveKeeps(items, key, mode, lo, hi);
      LeafSpec.RemoveWellFormed(items, key, mode);
      var (rest, first, found) := LeafSpec.Remove(items, key, mode);
      assert Remove(n, key, mode, h) == (Leaf(o, m, rest), first, found);
    case Inter(_, _, _, _) =>
      RemoveInterRefines(n, key, mode, h, lo, hi);
  }

  /** The child remove descends into, forked: ready for the induction hypothesis. */
  lemma ChildReady(n: Node, r: Node, j: nat, key: Bytes, mode: LeafSpec.Mode, h: nat, lo: Option<Bytes>, hi: Option<Bytes>)
    requires Shaped(r, h, n.max) && n.max >= 2 && Prepared(n, r, j, key, mode, lo, hi)
    requires r.children[j].Inter? ==> |r.children[j].items| >= 1
    ensures h > 0 && AllWellFormed(r.items)
    ensures var c := Fork(r.children[j], n.owner);
      && Shaped(c, h - 1, n.max) && c.max == n.max && (c.Inter? ==> |c.items| >= 1)
      && Ordered(c, ChildLo(r.items, j, lo), ChildHi(r.items, j, hi)) && Filled(c)
      && Flatten(c) == Flatten(r.children[j]) && |Flatten(c)| >= 2
    ensures j > 0 ==> FlattenAll(r.children[..j]) != []
  {
    var cs := r.children;
    ShapedChild(r, j, h, n.max);
    OrderedChild(r, j, lo, hi);
    ForkKeeps(cs[j], n.owner, h - 1, n.max, ChildLo(r.items, j, lo), ChildHi(r.items, j, hi));
    TwoItems(Fork(cs[j], n.owner), h - 1, n.max);
    if j > 0 {
      PrefixHolds(r, j, h, n.max);
    }
  }

  /** t, with first and found, is what removing from the items s gives, kept in order within lo and hi. */
  ghost predicate Removes(s: seq<Item>, t: Node, first: Option<Item>, found: bool,
                          key: Bytes, mode: LeafSpec.Mode, lo: Option<Bytes>, hi: Option<Bytes>)
    requires AllWellFormed(s)
  {
    (Flatten(t), first, found) == LeafSpec.Remove(s, key, mode) && Ordered(t, lo, hi) && Filled(t)
  }

  /**
   * Putting the child back after the recursive remove and raising the
   * separator in front of it gives a node holding the leaf-level removal.
   */
  lemma ReassembleKeeps(n: Node, j: nat, c: Node, c': Node, first: Option<Item>, found: bool,
                        key: Bytes, mode: LeafSpec.Mode, h: nat, M: nat, lo: Option<Bytes>, hi: Option<Bytes>)
    requires Shaped(n, h, M) && n.Inter? && j < |n.children| && Shaped(c', h - 1, M)
    requires Ordered(n, lo, hi) && Filled(n) && Targets(n.items, j, key, mode)
    requires j > 0 ==> FlattenAll(n.children[..j]) != []
    requires Flatten(c) == Flatten(n.children[j]) && |Flatten(c)| >= 2 && AllWellFormed(Flatten(c))
    requires Removes(Flatten(c), c', first, found, key, mode, ChildLo(n.items, j, lo), ChildHi(n.items, j, hi))
    ensures AllWellFormed(Flatten(n))
    ensures Removes(Flatten(n), Propagate(n.(children := n.children[j := c']), j, first).0,
                    Propagate(n.(children := n.children[j := c']), j, first).1, found, key, mode, lo, hi)
  {
    RemoveIntoChild(n, j, c, c', key, mode, lo, hi);
    LeafSpec.RemoveShape(Flatten(c), key, mode);
    assert c'.Leaf? ==> c'.items == Flatten(c');
    ReplaceChildFilled(n, j, c');
    var n'' := n.(children := n.children[j := c']);
    ReplaceChildShaped(n, j, c', h, M);
    PropagateKeeps(n'', j, first, lo, hi, h);
  }

  /** The forked child an internal remove descends into meets RemoveRefines' requirements. */
  lemma InterStepReady(n: Node, key: Bytes, mode: LeafSpec.Mode, h: nat, lo: Option<Bytes>, hi: Option<Bytes>)
    requires Shaped(n, h, n.max) && n.max >= 2 && n.Inter? && Removable(n)
    requires Ordered(n, lo, hi) && Filled(n)
    ensures h > 0
    ensures var (n', j) := Prepare(n, key, mode, h);
      var c := Fork(n'.children[j], n.owner);
      && Shaped(c, h - 1, c.max) && c.max >= 2 && (c.Inter? ==> |c.items| >= 1)
      && Ordered(c, ChildLo(n'.items, j, lo), ChildHi(n'.items, j, hi)) && Filled(c)
  {
    var (n', j) := Prepare(n, key, mode, h);
    PrepareKeeps(n, key, mode, h, lo, hi);
    ChildReady(n, n', j, key, mode, h, lo, hi);
  }

  /** One step of the internal remove, written out. */
  lemma RemoveInterUnfold(n: Node, key: Bytes, mode: LeafSpec.Mode, h: nat)
    requires Shaped(n, h, n.max) && n.max >= 2 && n.Inter? && Removable(n)
    ensures h > 0
    ensures var (n', j) := Prepare(n, key, mode, h);
      var c := Fork(n'.children[j], n.owner);
      Shaped(c, h - 1, c.max) && c.max == n.max && (c.Inter? ==> |c.items| >= 1) &&
      var (c', first, found) := Remove(c, key, mode, h - 1);
      j < |n'.children| &&
      Remove(n, key, mode, h) == (Propagate(n'.(children := n'.children[j := c']), j, first).0,
                                  Propagate(n'.(children := n'.children[j := c']), j, first).1, found)
  {
    var (n', j) := Prepare(n, key, mode, h);
    ShapedChild(n', j, h, n.max);
    ForkKeeps(n'.children[j], n.owner, h - 1, n.max, None, None);
  }

  /** Given the removal from the child, the internal remove holds the removal from all its items. */
  lemma InterStepDone(n: Node, key: Bytes, mode: LeafSpec.Mode, h: nat, lo: Option<Bytes>, hi: Option<Bytes>)
    requires Shaped(n, h, n.max) && n.max >= 2 && n.Inter? && Removable(n)
    requires Ordered(n, lo, hi) && Filled(n) && AllWellFormed(Flatten(n))
    requires var (n', j) := Prepare(n, key, mode, h);
      var c := Fork(n'.children[j], n.owner);
      && h > 0 && Shaped(c, h - 1, c.max) && c.max >= 2 && (c.Inter? ==> |c.items| >= 1) && AllWellFormed(Flatten(c))
      && Removes(Flatten(c), Remove(c, key, mode, h - 1).0, Remove(c, key, mode, h - 1).1, Remove(c, key, mode, h - 1).2,
                 key, mode, ChildLo(n'.items, j, lo), ChildHi(n'.items, j, hi))
    ensures Removes(Flatten(n), Remove(n, key, mode, h).0, Remove(n, key, mode, h).1, Remove(n, key, mode, h).2, key, mode, lo, hi)
  {
    var (n', j) := Prepare(n, key, mode, h);
    var c := Fork(n'.children[j], n.owner);
    var (c', first, found) := Remove(c, key, mode, h - 1);
    var n'' := n'.(children := n'.children[j := c']);
    assert Flatten(n') == Flatten(n) && AllWellFormed(Flatten(n')) &&
      Removes(Flatten(n'), Propagate(n'', j, first).0, Propagate(n'', j, first).1, found, key, mode, lo, hi) by {
      PrepareKeeps(n, key, mode, h, lo, hi);
      ChildReady(n, n', j, key, mode, h, lo, hi);
      ReassembleKeeps(n', j, c, c', first, found, key, mode, h, n.max, lo, hi);
    }
    RemoveInterUnfold(n, key, mode, h);
  }

  /** RemoveRefines for an internal node, given it for the subtrees below. */
  lemma {:induction false} RemoveInterRefines(n: Node, key: Bytes, mode: LeafSpec.Mode, h: nat, lo: Option<Bytes>, hi: Option<Bytes>)
    requires Shaped(n, h, n.max) && n.max >= 2 && n.Inter? && Removable(n)
    requires Ordered(n, lo, hi) && Filled(n) && AllWellFormed(Flatten(n))
    ensures Removes(Flatten(n), Remove(n, key, mode, h).0, Remove(n, key, mode, h).1, Remove(n, key, mode, h).2, key, mode, lo, hi)
    decreases h, 0
  {
    var (n', j) := Prepare(n, key, mode, h);
    InterStepReady(n, key, mode, h, lo, hi);
    RemoveRefines(Fork(n'.children[j], n.owner), key, mode, h - 1, ChildLo(n'.items, j, lo), ChildHi(n'.items, j, hi));
    InterStepDone(n, key, mode, h, lo, hi);
  }
}
