/**
 * Insert on a tree behaves as insert on one big leaf: the items under the
 * tree after Internal.Insert are the items LeafSpec.Insert gives for the
 * items under the tree before, the new-key report agrees, and the
 * search-tree order is kept. Splits keep the items and the order.
 */
module InsertProof {
  import opened Bytes
  import opened Codec
  import opened Items
  import opened Wrappers
  import opened Nodes
  import opened Internal
  import opened Order
  import LeafSpec

  /** The two halves of a split hold the items of the node split, in order. */
  lemma SplitFlatten(t: Node, at: nat)
    requires at < |t.items| && (t.Inter? ==> |t.children| == |t.items| + 1)
    ensures Flatten(Split(t, at).1) + Flatten(Split(t, at).2) == Flatten(t)
  {
    if t.Inter? {
      assert t.children == t.children[..at + 1] + t.children[at + 1..];
      FlattenAllConcat(t.children[..at + 1], t.children[at + 1..]);
    } else {
      assert t.items == t.items[..at] + t.items[at..];
    }
  }

  /** The left half of a split is ordered below the middle. */
  lemma SplitOrderedLeft(t: Node, at: nat, lo: Option<Bytes>, hi: Option<Bytes>)
    requires Ordered(t, lo, hi) && at < |t.items|
    ensures WellFormed(Split(t, at).0)
    ensures Ordered(Split(t, at).1, lo, Some(Key(Split(t, at).0)))
  {
    var seps := t.items;
    WithinBefore(seps, at, lo, hi);
    if t.Inter? {
      ChildrenSlice(seps, t.children, 0, at, lo, hi);
      assert seps[0..at] == seps[..at];
      assert t.children[0..at + 1] == t.children[..at + 1];
    }
  }

  /** The middle of a split lies within the bounds, strictly above the lower one past index 0. */
  lemma SplitMiddle(t: Node, at: nat, lo: Option<Bytes>, hi: Option<Bytes>)
    requires Ordered(t, lo, hi) && at < |t.items|
    ensures WellFormed(Split(t, at).0)
    ensures Within(Key(Split(t, at).0), lo, hi)
    ensures 0 < at && lo.Some? ==> Less(lo.value, Key(Split(t, at).0))
  {
    if 0 < at {
      AboveLower(t.items, at, lo, hi);
    }
    WithinFrom(t.items, at, at, lo, hi);
  }

  /** The right half of a split is ordered from the middle on. */
  lemma SplitRightHalf(t: Node, at: nat, lo: Option<Bytes>, hi: Option<Bytes>)
    requires Ordered(t, lo, hi) && at < |t.items|
    ensures WellFormed(Split(t, at).0)
    ensures Ordered(Split(t, at).2, Some(Key(Split(t, at).0)), hi)
  {
    if t.Leaf? {
      WithinFrom(t.items, at, at, lo, hi);
    } else {
      SplitRightChildren(t, at, lo, hi);
    }
  }

  /** SplitRightHalf for an internal node: the separators and children from at+1 on. */
  lemma SplitRightChildren(t: Node, at: nat, lo: Option<Bytes>, hi: Option<Bytes>)
    requires Ordered(t, lo, hi) && at < |t.items| && t.Inter?
    ensures WellFormed(t.items[at])
    ensures Ordered(Inter(t.owner, t.max, t.items[at + 1..], t.children[at + 1..]), Some(Key(t.items[at])), hi)
  {
    var seps := t.items;
    WithinFrom(seps, at, at + 1, lo, hi);
    ChildrenSlice(seps, t.children, at + 1, |seps|, lo, hi);
    assert seps[at + 1..|seps|] == seps[at + 1..];
    assert t.children[at + 1..|seps| + 1] == t.children[at + 1..];
  }

  /**
   * The right half of a split is ordered from the middle on, and the
   * middle lies within the bounds, strictly above the lower one when the
   * split index is positive.
   */
  lemma SplitOrderedRight(t: Node, at: nat, lo: Option<Bytes>, hi: Option<Bytes>)
    requires Ordered(t, lo, hi) && at < |t.items|
    ensures WellFormed(Split(t, at).0)
    ensures Ordered(Split(t, at).2, Some(Key(Split(t, at).0)), hi)
    ensures Within(Key(Split(t, at).0), lo, hi)
    ensures 0 < at && lo.Some? ==> Less(lo.value, Key(Split(t, at).0))
  {
    SplitMiddle(t, at, lo, hi);
    SplitRightHalf(t, at, lo, hi);
  }

  /** Splitting a full child keeps the node's items. */
  lemma SplitChildFlatten(n: Node, i: nat, M: nat)
    requires n.Inter? && |n.children| == |n.items| + 1 && i < |n.children|
    requires M / 2 < |n.children[i].items|
    requires n.children[i].Inter? ==> |n.children[i].children| == |n.children[i].items| + 1
    ensures Flatten(SplitChild(n, i, M)) == Flatten(n)
  {
    var cs := n.children;
    var first := Fork(cs[i], n.owner);
    var (middle, left, right) := Split(first, M / 2);
    SplitFlatten(first, M / 2);
    ForkKeeps(cs[i], n.owner, 0, 0, None, None);
    var cs' := cs[..i] + [left, right] + cs[i + 1..];
    assert SplitChild(n, i, M).children == cs';
    FlattenAllConcat(cs[..i] + [left, right], cs[i + 1..]);
    FlattenAllConcat(cs[..i], [left, right]);
    FlattenAllConcat([left], [right]);
    assert [left] + [right] == [left, right];
    FlattenAllOne(left);
    FlattenAllOne(right);
    FlattenAllAround(cs, i);
  }

  /** The split of child i, forked into the node's pool, with its middle and halves ordered. */
  lemma SplitChildParts(n: Node, i: nat, h: nat, lo: Option<Bytes>, hi: Option<Bytes>)
    requires Shaped(n, h, n.max) && n.max >= 2 && n.Inter? && Ordered(n, lo, hi)
    requires i < |n.children| && |n.children[i].items| >= n.max
    ensures n.children[i].Inter? ==> |n.children[i].children| == |n.children[i].items| + 1
    ensures var sp := Split(Fork(n.children[i], n.owner), n.max / 2);
      var L, H := ChildLo(n.items, i, lo), ChildHi(n.items, i, hi);
      && WellFormed(sp.0) && Ordered(sp.1, L, Some(Key(sp.0))) && Ordered(sp.2, Some(Key(sp.0)), H)
      && Within(Key(sp.0), L, H) && (L.Some? ==> Less(L.value, Key(sp.0)))
  {
    ShapedChild(n, i, h, n.max);
    var L, H := ChildLo(n.items, i, lo), ChildHi(n.items, i, hi);
    var first := Fork(n.children[i], n.owner);
    ForkKeeps(n.children[i], n.owner, 0, 0, L, H);
    SplitOrderedLeft(first, n.max / 2, L, H);
    SplitOrderedRight(first, n.max / 2, L, H);
  }

  /** splitChild puts the middle item in at separator i and the two halves at children i and i+1. */
  lemma SplitChildSpliced(n: Node, i: nat, M: nat)
    requires n.Inter? && |n.children| == |n.items| + 1 && i < |n.children|
    requires M / 2 < |n.children[i].items|
    requires n.children[i].Inter? ==> |n.children[i].children| == |n.children[i].items| + 1
    ensures var sp := Split(Fork(n.children[i], n.owner), M / 2);
      SplitChild(n, i, M) ==
      Inter(n.owner, n.max, Spliced(n.items, i, i, [sp.0]), Spliced(n.children, i, i + 1, [sp.1, sp.2]))
  {
    var r := SplitChild(n, i, M);
    assert r.items == Spliced(n.items, i, i, [r.items[i]]);
    assert r.children == Spliced(n.children, i, i + 1, [r.children[i], r.children[i + 1]]);
  }

  /** An ordered middle item and halves put in at child i keep the node ordered. */
  lemma SplicedHalvesOrdered(n: Node, i: nat, lo: Option<Bytes>, hi: Option<Bytes>, middle: Item, left: Node, right: Node)
    requires n.Inter? && Ordered(n, lo, hi) && i < |n.children|
    requires WellFormed(middle)
    requires Ordered(left, ChildLo(n.items, i, lo), Some(Key(middle)))
    requires Ordered(right, Some(Key(middle)), ChildHi(n.items, i, hi))
    requires Within(Key(middle), ChildLo(n.items, i, lo), ChildHi(n.items, i, hi))
    requires ChildLo(n.items, i, lo).Some? ==> Less(ChildLo(n.items, i, lo).value, Key(middle))
    ensures AllWellFormed(Spliced(n.items, i, i, [middle]))
    ensures Ordered(Inter(n.owner, n.max, Spliced(n.items, i, i, [middle]), Spliced(n.children, i, i + 1, [left, right])), lo, hi)
  {
    var seps, cs := n.items, n.children;
    var L, H := ChildLo(seps, i, lo), ChildHi(seps, i, hi);
    assert ChildrenOrdered([middle], [left, right], L, H);
    ChildrenReplace(seps, cs, i, i, [middle], [left, right], lo, hi);
    SepsReplace(seps, i, i, [middle]);
    ChildBounds(seps, i, lo, hi);
    AllWithinWiden([middle], L, H, lo, hi);
    WithinSpliced(seps, i, i, [middle], lo, hi);
  }

  /** Splitting a full child at half the capacity keeps the node ordered. */
  lemma SplitChildOrdered(n: Node, i: nat, h: nat, lo: Option<Bytes>, hi: Option<Bytes>)
    requires Shaped(n, h, n.max) && n.max >= 2 && n.Inter? && Ordered(n, lo, hi)
    requires i < |n.children| && |n.children[i].items| >= n.max
    ensures n.children[i].Inter? ==> |n.children[i].children| == |n.children[i].items| + 1
    ensures Ordered(SplitChild(n, i, n.max), lo, hi)
    ensures SplitChild(n, i, n.max).items == Spliced(n.items, i, i, [Split(Fork(n.children[i], n.owner), n.max / 2).0])
  {
    SplitChildParts(n, i, h, lo, hi);
    var sp := Split(Fork(n.children[i], n.owner), n.max / 2);
    SplitChildSpliced(n, i, n.max);
    SplicedHalvesOrdered(n, i, lo, hi, sp.0, sp.1, sp.2);
  }

  /** Replacing child j keeps the items under the other children in place. */
  lemma ReplaceChildFlatten(n: Node, j: nat, c: Node)
    requires n.Inter? && j < |n.children|
    ensures Flatten(n.(children := n.children[j := c])) ==
      FlattenAll(n.children[..j]) + Flatten(c) + FlattenAll(n.children[j + 1..])
  {
    var cs' := n.children[j := c];
    FlattenAllAround(cs', j);
    assert cs'[..j] == n.children[..j];
    assert cs'[j + 1..] == n.children[j + 1..];
  }

  /** Replacing child j by a subtree ordered within its place keeps the node ordered. */
  lemma ReplaceChildOrdered(n: Node, j: nat, c: Node, lo: Option<Bytes>, hi: Option<Bytes>)
    requires n.Inter? && Ordered(n, lo, hi) && j < |n.children|
    requires Ordered(c, ChildLo(n.items, j, lo), ChildHi(n.items, j, hi))
    ensures Ordered(n.(children := n.children[j := c]), lo, hi)
  {
    var r := n.(children := n.children[j := c]);
    forall k | 0 <= k < |r.children|
      ensures Ordered(r.children[k], ChildLo(r.items, k, lo), ChildHi(r.items, k, hi))
    {
      if k != j {
        assert r.children[k] == n.children[k];
      }
    }
  }

  /** After splitting the child a key routes to, the key routes left or right of the new separator. */
  lemma SplitRoutes(seps: seq<Item>, r: seq<Item>, i: nat, key: Bytes)
    requires Sorted(seps) && AllWellFormed(r) && i <= |seps| && |r| == |seps| + 1
    requires r[..i] == seps[..i] && r[i + 1..] == seps[i..]
    requires KeysBelow(seps[..i], key) && KeysAbove(seps[i..], key)
    ensures Routes(r, if LessEq(Key(r[i]), key) then i + 1 else i, key)
  {
    if i > 0 {
      assert r[..i][i - 1] == seps[..i][i - 1];
    }
    if i < |seps| {
      assert r[i + 1..][0] == seps[i..][0];
    }
    LessTotal(Key(r[i]), key);
  }

  /** Descend when it splits the child the key routes to. */
  lemma DescendSplit(n: Node, key: Bytes, h: nat, lo: Option<Bytes>, hi: Option<Bytes>)
    requires Shaped(n, h, n.max) && n.max >= 2 && n.Inter? && Ordered(n, lo, hi)
    requires !Find(n.items, key).1 && |n.children[Find(n.items, key).0].items| >= n.max
    ensures Flatten(Descend(n, key, h).0) == Flatten(n)
    ensures Ordered(Descend(n, key, h).0, lo, hi)
    ensures Routes(Descend(n, key, h).0.items, Descend(n, key, h).1, key)
  {
    var seps := n.items;
    var i := Find(seps, key).0;
    FindSpec(seps, key);
    ShapedChild(n, i, h, n.max);
    var r := SplitChild(n, i, n.max);
    SplitChildFlatten(n, i, n.max);
    SplitChildOrdered(n, i, h, lo, hi);
    SplitRoutes(seps, r.items, i, key);
    assert Descend(n, key, h) == (r, if LessEq(Key(r.items[i]), key) then i + 1 else i);
  }

  /**
   * Descend keeps the node's items and order, and picks the child the key
   * routes to.
   */
  lemma DescendSpec(n: Node, key: Bytes, h: nat, lo: Option<Bytes>, hi: Option<Bytes>)
    requires Shaped(n, h, n.max) && n.max >= 2 && n.Inter? && Ordered(n, lo, hi)
    ensures Flatten(Descend(n, key, h).0) == Flatten(n)
    ensures Ordered(Descend(n, key, h).0, lo, hi)
    ensures Routes(Descend(n, key, h).0.items, Descend(n, key, h).1, key)
  {
    var seps := n.items;
    var (i, found) := Find(seps, key);
    FindSpec(seps, key);
    ShapedChild(n, i, h, n.max);
    if !found && |n.children[i].items| >= n.max {
      DescendSplit(n, key, h, lo, hi);
    } else if found {
      if i + 1 < |seps| {
        assert seps[i + 1..][0] == seps[i + 1];
      }
      LessEqRefl(key);
    } else {
      if i > 0 {
        assert seps[..i][i - 1] == seps[i - 1];
      }
      if i < |seps| {
        assert seps[i..][0] == seps[i];
      }
    }
  }

  /** An insert keeps items within bounds that hold the key. */
  lemma InsertWithin(items: seq<Item>, key: Bytes, val: Bytes, lo: Option<Bytes>, hi: Option<Bytes>)
    requires Sorted(items) && 0 < |key| < Pow32
    requires AllWithin(items, lo, hi) && Within(key, lo, hi)
    ensures AllWithin(LeafSpec.Insert(items, key, val).0, lo, hi)
  {
    var x, i, found := LeafSpec.InsertSplit(items, key, val);
    var mid := if found then [items[i]] else [];
    var tail := if found then items[i + 1..] else items[i..];
    AllWithinParts(items[..i] + mid, tail, lo, hi);
    AllWithinParts(items[..i], mid, lo, hi);
    assert AllWithin([x], lo, hi);
    AllWithinConcat(items[..i], [x], lo, hi);
    AllWithinConcat(items[..i] + [x], tail, lo, hi);
  }

  /**
   * Inserting into the child a key routes to, and putting the result back,
   * is inserting into the node's items.
   */
  lemma InsertIntoChild(n: Node, j: nat, c: Node, c': Node, key: Bytes, val: Bytes, lo: Option<Bytes>, hi: Option<Bytes>)
    requires n.Inter? && Ordered(n, lo, hi) && Routes(n.items, j, key)
    requires AllWellFormed(Flatten(n))
    requires Flatten(c) == Flatten(n.children[j])
    requires AllWellFormed(Flatten(c)) && Flatten(c') == LeafSpec.Insert(Flatten(c), key, val).0
    requires Ordered(c', ChildLo(n.items, j, lo), ChildHi(n.items, j, hi))
    ensures Flatten(n.(children := n.children[j := c'])) == LeafSpec.Insert(Flatten(n), key, val).0
    ensures LeafSpec.Insert(Flatten(c), key, val).1 == LeafSpec.Insert(Flatten(n), key, val).1
    ensures Ordered(n.(children := n.children[j := c']), lo, hi)
  {
    ChildFrame(n, j, key, lo, hi);
    var a, b, z := FlattenAll(n.children[..j]), Flatten(c), FlattenAll(n.children[j + 1..]);
    LeafSpec.InsertFrame(a, b, z, key, val);
    ReplaceChildFlatten(n, j, c');
    ReplaceChildOrdered(n, j, c', lo, hi);
  }

  /**
   * The child an internal node's insert descends into: after Descend it is
   * shaped one level lower, ordered between its separators, has the key in
   * its bounds and, forked, has the items it had.
   */
  lemma DescendChild(n: Node, key: Bytes, h: nat, lo: Option<Bytes>, hi: Option<Bytes>)
    requires Shaped(n, h, n.max) && n.max >= 2 && n.Inter? && Ordered(n, lo, hi) && Within(key, lo, hi)
    ensures var (n', j) := Descend(n, key, h);
      var c := Fork(n'.children[j], n.owner);
      var L, H := ChildLo(n'.items, j, lo), ChildHi(n'.items, j, hi);
      && Flatten(n') == Flatten(n) && Ordered(n', lo, hi) && Routes(n'.items, j, key)
      && Shaped(c, h - 1, n.max) && c.max == n.max && Ordered(c, L, H) && Within(key, L, H)
      && Flatten(c) == Flatten(n'.children[j])
  {
    var (n', j) := Descend(n, key, h);
    DescendSpec(n, key, h, lo, hi);
    OrderedChild(n', j, lo, hi);
    DescendFork(n', j, h, n.max, ChildLo(n'.items, j, lo), ChildHi(n'.items, j, hi), n.owner);
  }

  /** The forked child keeps the shape, items and bounds of the child. */
  lemma DescendFork(n': Node, j: nat, h: nat, M: nat, L: Option<Bytes>, H: Option<Bytes>, o: Cow.Pool?)
    requires Shaped(n', h, M) && n'.Inter? && j < |n'.children| && Ordered(n'.children[j], L, H)
    ensures Shaped(Fork(n'.children[j], o), h - 1, M) && Fork(n'.children[j], o).max == M
    ensures Ordered(Fork(n'.children[j], o), L, H) && Flatten(Fork(n'.children[j], o)) == Flatten(n'.children[j])
  {
    ShapedChild(n', j, h, M);
    ForkKeeps(n'.children[j], o, h - 1, M, L, H);
  }

  /**
   * Insert on an ordered tree of height h is insert on its items: the new
   * items are those a leaf insert gives, the new-key report agrees, and
   * the tree stays ordered within any bounds that hold the key.
   */
  lemma {:induction false} InsertRefines(n: Node, key: Bytes, val: Bytes, h: nat, lo: Option<Bytes>, hi: Option<Bytes>)
    requires Shaped(n, h, n.max) && n.max >= 2 && 0 < |key| < Pow32
    requires Ordered(n, lo, hi) && Within(key, lo, hi)
    ensures AllWellFormed(Flatten(n))
    ensures Flatten(Insert(n, key, val, h).0) == LeafSpec.Insert(Flatten(n), key, val).0
    ensures Insert(n, key, val, h).1 == LeafSpec.Insert(Flatten(n), key, val).1
    ensures Ordered(Insert(n, key, val, h).0, lo, hi)
    decreases h, 1
  {
    OrderedFlatten(n, lo, hi);
    match n
    case Leaf(o, m, items) =>
      assert Insert(n, key, val, h) == (Leaf(o, m, LeafSpec.Insert(items, key, val).0), LeafSpec.Insert(items, key, val).1);
      LeafSpec.InsertSpec(items, key, val);
      InsertWithin(items, key, val, lo, hi);
      LeafSpec.InsertWellFormed(items, key, val);
    case Inter(_, _, _, _) =>
      InsertInterRefines(n, key, val, h, lo, hi);
  }

  /** InsertRefines for an internal node, given it for the subtrees below. */
  lemma {:induction false} InsertInterRefines(n: Node, key: Bytes, val: Bytes, h: nat, lo: Option<Bytes>, hi: Option<Bytes>)
    requires Shaped(n, h, n.max) && n.max >= 2 && 0 < |key| < Pow32 && n.Inter?
    requires Ordered(n, lo, hi) && Within(key, lo, hi) && AllWellFormed(Flatten(n))
    ensures Flatten(Insert(n, key, val, h).0) == LeafSpec.Insert(Flatten(n), key, val).0
    ensures Insert(n, key, val, h).1 == LeafSpec.Insert(Flatten(n), key, val).1
    ensures Ordered(Insert(n, key, val, h).0, lo, hi)
    decreases h, 0
  {
    var (n', j) := Descend(n, key, h);
    var c := Fork(n'.children[j], n.owner);
    DescendChild(n, key, h, lo, hi);
    InsertRefines(c, key, val, h - 1, ChildLo(n'.items, j, lo), ChildHi(n'.items, j, hi));
    var (c', added) := Insert(c, key, val, h - 1);
    InsertIntoChild(n', j, c, c', key, val, lo, hi);
    assert Insert(n, key, val, h) == (n'.(children := n'.children[j := c']), added);
  }
}
