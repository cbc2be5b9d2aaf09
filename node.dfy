/**
 * Tree nodes (tbp/node.go:17-21, tbp/leaf.go:5-7, tbp/inter.go:8-11) as
 * values: the in-order items a subtree stands for, the shape every tree
 * keeps (uniform height, one more child than separators, one capacity),
 * and the search-tree order with the bounds each child inherits.
 */
module Nodes {
  import opened Bytes
  import opened Codec
  import opened Items
  import opened Wrappers
  import Cow

  /**
   * A leaf holds key/value items in key order; an internal node holds
   * separators (copies of leaf items) and one more child than separators.
   * max is the capacity of the items slice (cap(n.items) in the source),
   * owner the pool the node was handed out by.
   */
  datatype Node =
    | Leaf(owner: Cow.Pool?, max: nat, items: seq<Item>)
    | Inter(owner: Cow.Pool?, max: nat, items: seq<Item>, children: seq<Node>)

  /** The items of the leaves under t, left to right. */
  function Flatten(t: Node): seq<Item>
    decreases t, 1
  {
    match t
    case Leaf(_, _, items) => items
    case Inter(_, _, _, cs) => FlattenAll(cs)
  }

  /** The items of the leaves under cs, left to right. */
  function FlattenAll(cs: seq<Node>): seq<Item>
    decreases cs, 0
  {
    if cs == [] then [] else FlattenAll(cs[..|cs| - 1]) + Flatten(cs[|cs| - 1])
  }

  /**
   * Every leaf sits at depth h, every internal node has one more child
   * than separators, every item is well formed and every node has the
   * capacity M the tree was made with.
   */
  ghost predicate Shaped(t: Node, h: nat, M: nat)
    decreases t, 1
  {
    t.max == M && AllWellFormed(t.items) &&
    match t
    case Leaf(_, _, _) => h == 0
    case Inter(_, _, items, cs) =>
      h > 0 && |cs| == |items| + 1 && AllShaped(cs, h - 1, M)
  }

  /** Every node of cs is shaped at height h. */
  ghost predicate AllShaped(cs: seq<Node>, h: nat, M: nat)
    decreases cs, 0
  {
    forall j :: 0 <= j < |cs| ==> Shaped(cs[j], h, M)
  }

  /** Shaped runs of children around shaped children make a shaped run. */
  lemma AllShapedSplice(pre: seq<Node>, mid: seq<Node>, post: seq<Node>, h: nat, M: nat)
    requires AllShaped(pre, h, M) && AllShaped(mid, h, M) && AllShaped(post, h, M)
    ensures AllShaped(pre + mid + post, h, M)
  {
    var s := pre + mid + post;
    forall i | 0 <= i < |s|
      ensures Shaped(s[i], h, M)
    {
      if i < |pre| {
        assert s[i] == pre[i];
      } else if i < |pre| + |mid| {
        assert s[i] == mid[i - |pre|];
      } else {
        assert s[i] == post[i - |pre| - |mid|];
      }
    }
  }

  /** k lies in [lo, hi); a missing bound is no bound. */
  ghost predicate Within(k: Bytes, lo: Option<Bytes>, hi: Option<Bytes>) {
    (lo.Some? ==> LessEq(lo.value, k)) && (hi.Some? ==> Less(k, hi.value))
  }

  /** Every item of s is well formed and its key lies in [lo, hi). */
  ghost predicate AllWithin(s: seq<Item>, lo: Option<Bytes>, hi: Option<Bytes>) {
    forall i :: 0 <= i < |s| ==> WellFormed(s[i]) && Within(Key(s[i]), lo, hi)
  }

  /** The lower bound of child j: the separator before it, or the node's own. */
  function ChildLo(seps: seq<Item>, j: nat, lo: Option<Bytes>): (r: Option<Bytes>)
    requires AllWellFormed(seps) && j <= |seps|
    ensures j > 0 ==> r == Some(Key(seps[j - 1]))
  {
    if j == 0 then lo else Some(Key(seps[j - 1]))
  }

  /** The upper bound of child j: the separator after it, or the node's own. */
  function ChildHi(seps: seq<Item>, j: nat, hi: Option<Bytes>): (r: Option<Bytes>)
    requires AllWellFormed(seps) && j <= |seps|
    ensures j < |seps| ==> r == Some(Key(seps[j]))
  {
    if j == |seps| then hi else Some(Key(seps[j]))
  }

  /**
   * The search-tree order of a subtree whose keys must lie in [lo, hi):
   * a leaf's items are sorted and in bounds; an internal node's separators
   * are sorted and in bounds, and child j is ordered within the separators
   * around it. A separator only bounds its neighbours: it need not be a key
   * the tree still holds.
   */
  ghost predicate Ordered(t: Node, lo: Option<Bytes>, hi: Option<Bytes>)
    decreases t, 1
  {
    Sorted(t.items) && AllWithin(t.items, lo, hi) &&
    match t
    case Leaf(_, _, _) => true
    case Inter(_, _, seps, cs) => |cs| == |seps| + 1 && ChildrenOrdered(seps, cs, lo, hi)
  }

  /** Each child is ordered within the separators around it. */
  ghost predicate ChildrenOrdered(seps: seq<Item>, cs: seq<Node>, lo: Option<Bytes>, hi: Option<Bytes>)
    requires AllWellFormed(seps) && |cs| == |seps| + 1
    decreases cs, 0
  {
    forall j :: 0 <= j < |cs| ==> Ordered(cs[j], ChildLo(seps, j, lo), ChildHi(seps, j, hi))
  }

  /**
   * No leaf below the root is empty (the root may be). Splits and the
   * rebalancing before a removal keep every leaf they hand a key to, or
   * take one from, holding at least one item.
   */
  ghost predicate Filled(t: Node)
    decreases t
  {
    match t
    case Leaf(_, _, _) => true
    case Inter(_, _, _, cs) =>
      forall j :: 0 <= j < |cs| ==> (cs[j].Leaf? ==> |cs[j].items| > 0) && Filled(cs[j])
  }

  /** A filled shaped subtree that is not an empty leaf has items under it. */
  lemma {:induction false} FilledFlatten(t: Node, h: nat, M: nat)
    requires Shaped(t, h, M) && Filled(t) && (t.Leaf? ==> |t.items| > 0)
    ensures |Flatten(t)| > 0
    decreases t
  {
    if t.Inter? {
      var cs := t.children;
      var last := cs[|cs| - 1];
      FilledFlatten(last, h - 1, M);
      assert FlattenAll(cs) == FlattenAll(cs[..|cs| - 1]) + Flatten(last);
    }
  }

  /**
   * mutableFor (node.go:94-109, leaf.go:9-16, inter.go:13-21): the node
   * itself when the pool already owns it, otherwise a copy stamped with the
   * pool. The copy's items and children are those of the node.
   */
  function Fork(t: Node, cow: Cow.Pool?): (r: Node)
    ensures r.owner == cow && r.max == t.max && r.items == t.items
    ensures r.Leaf? == t.Leaf? && (r.Inter? ==> r.children == t.children)
    ensures t.owner == cow ==> r == t
  {
    if t.owner == cow then t else t.(owner := cow)
  }

  /** Forking keeps a subtree's items, shape and order. */
  lemma ForkKeeps(t: Node, cow: Cow.Pool?, h: nat, M: nat, lo: Option<Bytes>, hi: Option<Bytes>)
    ensures Flatten(Fork(t, cow)) == Flatten(t)
    ensures Shaped(t, h, M) ==> Shaped(Fork(t, cow), h, M)
    ensures Ordered(t, lo, hi) ==> Ordered(Fork(t, cow), lo, hi)
    ensures Filled(t) ==> Filled(Fork(t, cow))
  {
  }

  /** The items under a concatenation of children are the concatenation of their items. */
  lemma {:induction false} FlattenAllConcat(a: seq<Node>, b: seq<Node>)
    ensures FlattenAll(a + b) == FlattenAll(a) + FlattenAll(b)
    decreases |b|
  {
    if b == [] {
      assert a + b == a;
    } else {
      var b' := b[..|b| - 1];
      assert (a + b)[..|a + b| - 1] == a + b';
      assert b[..|b| - 1] == b';
      FlattenAllConcat(a, b');
    }
  }

  /** The items under one child are that child's items. */
  lemma FlattenAllOne(c: Node)
    ensures FlattenAll([c]) == Flatten(c)
  {
    assert [c][..0] == [];
  }

  /** The items under children 0..j+1 are those under 0..j, then child j's. */
  lemma FlattenAllPrefix(cs: seq<Node>, j: nat)
    requires j < |cs|
    ensures FlattenAll(cs[..j + 1]) == FlattenAll(cs[..j]) + Flatten(cs[j])
  {
    assert cs[..j + 1][..j] == cs[..j];
  }

  /** The items under cs split around child j. */
  lemma FlattenAllAround(cs: seq<Node>, j: nat)
    requires j < |cs|
    ensures FlattenAll(cs) == FlattenAll(cs[..j]) + Flatten(cs[j]) + FlattenAll(cs[j + 1..])
  {
    var pre, post := cs[..j + 1], cs[j + 1..];
    assert pre + post == cs;
    FlattenAllConcat(pre, post);
    FlattenAllPrefix(cs, j);
  }

  /** Children whose items all lie in [lo, hi) have all their items there together. */
  lemma {:induction false} FlattenAllWithin(cs: seq<Node>, lo: Option<Bytes>, hi: Option<Bytes>)
    requires forall j :: 0 <= j < |cs| ==> AllWithin(Flatten(cs[j]), lo, hi)
    ensures AllWithin(FlattenAll(cs), lo, hi)
    decreases |cs|
  {
    if cs != [] {
      var init := cs[..|cs| - 1];
      assert forall j :: 0 <= j < |init| ==> init[j] == cs[j];
      FlattenAllWithin(init, lo, hi);
      AllWithinConcat(FlattenAll(init), Flatten(cs[|cs| - 1]), lo, hi);
    }
  }

  lemma AllWithinConcat(a: seq<Item>, b: seq<Item>, lo: Option<Bytes>, hi: Option<Bytes>)
    requires AllWithin(a, lo, hi) && AllWithin(b, lo, hi)
    ensures AllWithin(a + b, lo, hi)
  {
    forall i | 0 <= i < |a + b|
      ensures WellFormed((a + b)[i]) && Within(Key((a + b)[i]), lo, hi)
    {
      if i < |a| {
        assert (a + b)[i] == a[i];
      } else {
        assert (a + b)[i] == b[i - |a|];
      }
    }
  }

  /** Widening the bounds keeps items within them. */
  lemma AllWithinWiden(s: seq<Item>, lo: Option<Bytes>, hi: Option<Bytes>, lo': Option<Bytes>, hi': Option<Bytes>)
    requires AllWithin(s, lo, hi)
    requires lo'.Some? ==> lo.Some? && LessEq(lo'.value, lo.value)
    requires hi'.Some? ==> hi.Some? && LessEq(hi.value, hi'.value)
    ensures AllWithin(s, lo', hi')
  {
    forall i | 0 <= i < |s|
      ensures Within(Key(s[i]), lo', hi')
    {
      if lo'.Some? {
        LessEqTransitive(lo'.value, lo.value, Key(s[i]));
      }
      if hi'.Some? {
        LessLessEq(Key(s[i]), hi.value, hi'.value);
      }
    }
  }

  /** An ordered subtree's items are sorted and lie within its bounds. */
  lemma {:induction false} OrderedFlatten(t: Node, lo: Option<Bytes>, hi: Option<Bytes>)
    requires Ordered(t, lo, hi)
    ensures Sorted(Flatten(t)) && AllWithin(Flatten(t), lo, hi)
    decreases t, 1
  {
    if t.Inter? {
      var cs := t.children;
      OrderedPrefix(t, |cs| - 1, lo, hi);
      assert cs[..|cs|] == cs;
    }
  }

  /**
   * Sorted items within [lo, k) followed by sorted items within [k, hi)
   * are sorted and within [lo, hi).
   */
  lemma JoinAt(pre: seq<Item>, post: seq<Item>, lo: Option<Bytes>, k: Bytes, hi: Option<Bytes>)
    requires Sorted(pre) && AllWithin(pre, lo, Some(k))
    requires Sorted(post) && AllWithin(post, Some(k), hi)
    requires lo.Some? ==> LessEq(lo.value, k)
    requires hi.Some? ==> Less(k, hi.value)
    ensures Sorted(pre + post) && AllWithin(pre + post, lo, hi)
  {
    assert KeysBelow(pre, k);
    assert KeysFrom(post, k);
    SortedJoin(pre, post, k);
    AllWithinWiden(pre, lo, Some(k), lo, hi);
    AllWithinWiden(post, Some(k), hi, lo, hi);
    AllWithinConcat(pre, post, lo, hi);
  }

  /**
   * The items under the first j + 1 children of an ordered node are sorted
   * and lie below the separator after child j.
   */
  lemma {:induction false} OrderedPrefix(t: Node, j: nat, lo: Option<Bytes>, hi: Option<Bytes>)
    requires t.Inter? && Ordered(t, lo, hi) && j < |t.children|
    ensures Sorted(FlattenAll(t.children[..j + 1]))
    ensures AllWithin(FlattenAll(t.children[..j + 1]), lo, ChildHi(t.items, j, hi))
    decreases t, 0, j, 1
  {
    if j == 0 {
      var c := t.children;
      OrderedFlatten(c[0], ChildLo(t.items, 0, lo), ChildHi(t.items, 0, hi));
      FlattenAllPrefix(c, 0);
      assert c[..0] == [];
    } else {
      OrderedPrefix(t, j - 1, lo, hi);
      OrderedPrefixStep(t, j, lo, hi);
    }
  }

  /** The step of OrderedPrefix: adding child j to the items under the children before it. */
  lemma OrderedPrefixStep(t: Node, j: nat, lo: Option<Bytes>, hi: Option<Bytes>)
    requires t.Inter? && Ordered(t, lo, hi) && 0 < j < |t.children|
    requires Sorted(FlattenAll(t.children[..j]))
    requires AllWithin(FlattenAll(t.children[..j]), lo, ChildHi(t.items, j - 1, hi))
    ensures Sorted(FlattenAll(t.children[..j + 1]))
    ensures AllWithin(FlattenAll(t.children[..j + 1]), lo, ChildHi(t.items, j, hi))
    decreases t, 0, j, 0
  {
    var seps, cs := t.items, t.children;
    var k := Key(seps[j - 1]);
    OrderedFlatten(cs[j], ChildLo(seps, j, lo), ChildHi(seps, j, hi));
    FlattenAllPrefix(cs, j);
    assert ChildHi(seps, j, hi).Some? ==> Less(k, ChildHi(seps, j, hi).value) by {
      if j < |seps| {
        assert Less(Key(seps[j - 1]), Key(seps[j]));
      }
    }
    JoinAt(FlattenAll(cs[..j]), Flatten(cs[j]), lo, k, ChildHi(seps, j, hi));
  }

  /** The items under children j+1.. of an ordered node lie from separator j on. */
  lemma OrderedSuffix(t: Node, j: nat, lo: Option<Bytes>, hi: Option<Bytes>)
    requires t.Inter? && Ordered(t, lo, hi) && j < |t.items|
    ensures AllWithin(FlattenAll(t.children[j + 1..]), Some(Key(t.items[j])), hi)
  {
    var seps, cs := t.items, t.children;
    var rest := cs[j + 1..];
    var k := Key(seps[j]);
    forall c | 0 <= c < |rest|
      ensures AllWithin(Flatten(rest[c]), Some(k), hi)
    {
      var m := j + 1 + c;
      assert rest[c] == cs[m];
      OrderedFlatten(cs[m], ChildLo(seps, m, lo), ChildHi(seps, m, hi));
      assert LessEq(k, Key(seps[m - 1])) by {
        if m - 1 > j {
          assert Less(Key(seps[j]), Key(seps[m - 1]));
        }
      }
      var hi' := ChildHi(seps, m, hi);
      assert hi.Some? ==> hi'.Some? && LessEq(hi'.value, hi.value) by {
        if m < |seps| {
          assert Within(Key(seps[m]), lo, hi);
        }
      }
      AllWithinWiden(Flatten(cs[m]), ChildLo(seps, m, lo), hi', Some(k), hi);
    }
    FlattenAllWithin(rest, Some(k), hi);
  }

  /** Key k belongs under child j of a node with separators seps. */
  ghost predicate Routes(seps: seq<Item>, j: nat, k: Bytes) {
    AllWellFormed(seps) && j <= |seps| &&
    (j > 0 ==> LessEq(Key(seps[j - 1]), k)) &&
    (j < |seps| ==> Less(k, Key(seps[j])))
  }

  /**
   * In an ordered node, the items under the children before the child a
   * key routes to sort before the key, and those after it sort after it.
   */
  lemma ChildFrame(t: Node, j: nat, k: Bytes, lo: Option<Bytes>, hi: Option<Bytes>)
    requires t.Inter? && Ordered(t, lo, hi) && Routes(t.items, j, k)
    ensures Flatten(t) == FlattenAll(t.children[..j]) + Flatten(t.children[j]) + FlattenAll(t.children[j + 1..])
    ensures KeysBelow(FlattenAll(t.children[..j]), k)
    ensures KeysAbove(FlattenAll(t.children[j + 1..]), k)
  {
    FlattenAllAround(t.children, j);
    ChildFrameBelow(t, j, k, lo, hi);
    ChildFrameAbove(t, j, k, lo, hi);
  }

  /** The items under the children before the one k routes to lie below k. */
  lemma ChildFrameBelow(t: Node, j: nat, k: Bytes, lo: Option<Bytes>, hi: Option<Bytes>)
    requires t.Inter? && Ordered(t, lo, hi) && Routes(t.items, j, k)
    ensures KeysBelow(FlattenAll(t.children[..j]), k)
  {
    var seps, cs := t.items, t.children;
    if j > 0 {
      OrderedPrefix(t, j - 1, lo, hi);
      assert cs[..j - 1 + 1] == cs[..j];
      AllWithinWiden(FlattenAll(cs[..j]), lo, Some(Key(seps[j - 1])), None, Some(k));
    } else {
      assert cs[..j] == [];
    }
  }

  /** The items under the children after the one k routes to lie above k. */
  lemma ChildFrameAbove(t: Node, j: nat, k: Bytes, lo: Option<Bytes>, hi: Option<Bytes>)
    requires t.Inter? && Ordered(t, lo, hi) && Routes(t.items, j, k)
    ensures KeysAbove(FlattenAll(t.children[j + 1..]), k)
  {
    var seps, cs := t.items, t.children;
    if j < |seps| {
      OrderedSuffix(t, j, lo, hi);
      AllWithinWiden(FlattenAll(cs[j + 1..]), Some(Key(seps[j])), hi, Some(Key(seps[j])), None);
      var c := FlattenAll(cs[j + 1..]);
      forall i | 0 <= i < |c|
        ensures WellFormed(c[i]) && Less(k, Key(c[i]))
      {
        LessLessEq(k, Key(seps[j]), Key(c[i]));
      }
    } else {
      assert cs[j + 1..] == [];
    }
  }

  /** childInsert (inter.go:29-33): c placed at idx, the other children kept in order around it. */
  function ChildInserted(cs: seq<Node>, idx: nat, c: Node): (r: seq<Node>)
    requires idx <= |cs|
    ensures |r| == |cs| + 1 && r[idx] == c
    ensures r[..idx] == cs[..idx] && r[idx + 1..] == cs[idx..]
  {
    cs[..idx] + [c] + cs[idx..]
  }

  /** childRemove (inter.go:35-40): child idx taken out, the others kept in order. */
  function ChildRemoved(cs: seq<Node>, idx: nat): (r: seq<Node>)
    requires idx < |cs|
    ensures |r| == |cs| - 1 && r[..idx] == cs[..idx] && r[idx..] == cs[idx + 1..]
  {
    cs[..idx] + cs[idx + 1..]
  }

  /** Removing a child just inserted gives back the children as they were. */
  lemma ChildInsertRemove(cs: seq<Node>, idx: nat, c: Node)
    requires idx <= |cs|
    ensures ChildRemoved(ChildInserted(cs, idx, c), idx) == cs
  {
    var r := ChildInserted(cs, idx, c);
    assert ChildRemoved(r, idx) == r[..idx] + r[idx + 1..];
    assert cs == cs[..idx] + cs[idx..];
  }

  /** Inserting the child just removed, where it was, gives back the children as they were. */
  lemma ChildRemoveInsert(cs: seq<Node>, idx: nat)
    requires idx < |cs|
    ensures ChildInserted(ChildRemoved(cs, idx), idx, cs[idx]) == cs
  {
    var r := ChildRemoved(cs, idx);
    assert r[..idx] == cs[..idx] && r[idx..] == cs[idx + 1..];
    assert cs == cs[..idx] + [cs[idx]] + cs[idx + 1..];
  }

  /** A child of a shaped node is shaped one level lower. */
  lemma ShapedChild(n: Node, j: nat, h: nat, M: nat)
    requires Shaped(n, h, M) && n.Inter? && j < |n.children|
    ensures h > 0 && Shaped(n.children[j], h - 1, M)
    ensures n.children[j].max == M && AllWellFormed(n.children[j].items)
    ensures n.children[j].Leaf? <==> h == 1
    ensures n.children[j].Inter? ==> |n.children[j].children| == |n.children[j].items| + 1
  {
  }

  /** A child of an ordered node is ordered within the separators around it. */
  lemma OrderedChild(r: Node, j: nat, lo: Option<Bytes>, hi: Option<Bytes>)
    requires r.Inter? && AllWellFormed(r.items) && Ordered(r, lo, hi) && j < |r.children|
    ensures Ordered(r.children[j], ChildLo(r.items, j, lo), ChildHi(r.items, j, hi))
  {
    assert ChildrenOrdered(r.items, r.children, lo, hi);
  }

  /** Replacing a child of a shaped node by a subtree of the same height keeps the shape. */
  lemma ReplaceChildShaped(n: Node, j: nat, c: Node, h: nat, M: nat)
    requires Shaped(n, h, M) && n.Inter? && j < |n.children| && Shaped(c, h - 1, M)
    ensures Shaped(n.(children := n.children[j := c]), h, M)
  {
    var r := n.(children := n.children[j := c]);
    forall k | 0 <= k < |r.children|
      ensures Shaped(r.children[k], h - 1, M)
    {
      if k != j {
        assert r.children[k] == n.children[k];
      }
    }
  }
}
