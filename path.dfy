/**
 * The walk from the root to a node that Get, Iter and the iterators make
 * (tree.go:89-188, iter.go): a stack of internal nodes and, for each, the
 * index of the child the walk went down. What lies left and right of such
 * a walk, and the descent a lookup or a positioning makes by key, minimum
 * or maximum.
 */
module Paths {
  import opened Bytes
  import opened Codec
  import opened Items
  import opened Wrappers
  import opened Nodes
  import opened Removal
  import opened RemoveProof
  import opened RemoveRefinement
  import opened Rebalance
  import opened Order
  import LeafSpec

  /**
   * ns and ix are a walk from root down to focus: as long as each other,
   * entry d is an internal node, ix[d] one of its child indexes, and that
   * child is the next entry (focus for the last entry).
   */
  ghost predicate Path(root: Node, ns: seq<Node>, ix: seq<int>, focus: Node)
    decreases |ns|
  {
    |ns| == |ix| &&
    if ns == [] then focus == root
    else
      var k := |ns| - 1;
      ns[k].Inter? && 0 <= ix[k] < |ns[k].children| && ns[k].children[ix[k]] == focus &&
      Path(root, ns[..k], ix[..k], ns[k])
  }

  /** The items under the children of n left of child i. */
  ghost function LeftOf(n: Node, i: int): seq<Item> {
    if n.Inter? && 0 <= i <= |n.children| then FlattenAll(n.children[..i]) else []
  }

  /** The items under the children of n right of child i. */
  ghost function RightOf(n: Node, i: int): seq<Item> {
    if n.Inter? && 0 <= i < |n.children| then FlattenAll(n.children[i + 1..]) else []
  }

  /** The items a walk leaves to its left, outermost first. */
  ghost function Prefix(ns: seq<Node>, ix: seq<int>): seq<Item>
    requires |ns| == |ix|
    decreases |ns|
  {
    if ns == [] then []
    else
      var k := |ns| - 1;
      Prefix(ns[..k], ix[..k]) + LeftOf(ns[k], ix[k])
  }

  /** The items a walk leaves to its right, innermost first. */
  ghost function Suffix(ns: seq<Node>, ix: seq<int>): seq<Item>
    requires |ns| == |ix|
    decreases |ns|
  {
    if ns == [] then []
    else
      var k := |ns| - 1;
      RightOf(ns[k], ix[k]) + Suffix(ns[..k], ix[..k])
  }

  /** Going down child c of the last node of a walk extends the walk, and what lies either side of it. */
  lemma PathPush(root: Node, ns: seq<Node>, ix: seq<int>, p: Node, c: int)
    requires Path(root, ns, ix, p) && p.Inter? && 0 <= c < |p.children|
    ensures Path(root, ns + [p], ix + [c], p.children[c])
    ensures Prefix(ns + [p], ix + [c]) == Prefix(ns, ix) + FlattenAll(p.children[..c])
    ensures Suffix(ns + [p], ix + [c]) == FlattenAll(p.children[c + 1..]) + Suffix(ns, ix)
  {
    assert (ns + [p])[..|ns|] == ns;
    assert (ix + [c])[..|ix|] == ix;
  }

  /** Climbing back from the last entry of a walk shortens it, and what lies either side of it. */
  lemma PathPop(root: Node, ns: seq<Node>, ix: seq<int>, focus: Node)
    requires Path(root, ns, ix, focus) && ns != []
    ensures var k := |ns| - 1;
      && Path(root, ns[..k], ix[..k], ns[k])
      && ns[k].Inter? && 0 <= ix[k] < |ns[k].children| && ns[k].children[ix[k]] == focus
      && Prefix(ns, ix) == Prefix(ns[..k], ix[..k]) + FlattenAll(ns[k].children[..ix[k]])
      && Suffix(ns, ix) == FlattenAll(ns[k].children[ix[k] + 1..]) + Suffix(ns[..k], ix[..k])
  {
  }

  /**
   * Climbing back from the last entry (p, c) of a walk to focus gives the
   * shorter walk ns, ix to p; the items left of it and under p's children
   * before c (up to and including c) are those left of the walk (and under
   * focus).
   */
  lemma PathClimb(root: Node, ns0: seq<Node>, ix0: seq<int>, focus: Node,
                  ns: seq<Node>, ix: seq<int>, p: Node, c: int)
    requires Path(root, ns0, ix0, focus) && ns0 != []
    requires ns == ns0[..|ns0| - 1] && ix == ix0[..|ix0| - 1] && p == ns0[|ns0| - 1] && c == ix0[|ix0| - 1]
    ensures Path(root, ns, ix, p) && p.Inter? && 0 <= c < |p.children| && p.children[c] == focus
    ensures |Prefix(ns, ix)| + |FlattenAll(p.children[..c])| == |Prefix(ns0, ix0)|
    ensures |Prefix(ns, ix)| + |FlattenAll(p.children[..c + 1])| == |Prefix(ns0, ix0)| + |Flatten(focus)|
  {
    PathPop(root, ns0, ix0, focus);
    FlattenAllPrefix(p.children, c);
  }

  /**
   * Going down child c of the last node p of a walk: the items left of the
   * longer walk and under child c are those left of the walk and under
   * p's children up to and including c.
   */
  lemma PathDescend(root: Node, ns: seq<Node>, ix: seq<int>, p: Node, c: int)
    requires Path(root, ns, ix, p) && p.Inter? && 0 <= c < |p.children|
    ensures Path(root, ns + [p], ix + [c], p.children[c])
    ensures |Prefix(ns + [p], ix + [c])| + |Flatten(p.children[c])| == |Prefix(ns, ix)| + |FlattenAll(p.children[..c + 1])|
  {
    PathPush(root, ns, ix, p, c);
    FlattenAllPrefix(p.children, c);
  }

  /** The items under the root are those left of a walk, under its end, and right of it. */
  lemma {:induction false} PathFlatten(root: Node, ns: seq<Node>, ix: seq<int>, focus: Node)
    requires Path(root, ns, ix, focus)
    ensures Flatten(root) == Prefix(ns, ix) + Flatten(focus) + Suffix(ns, ix)
    decreases |ns|
  {
    if ns != [] {
      var k := |ns| - 1;
      var p, c := ns[k], ix[k];
      PathFlatten(root, ns[..k], ix[..k], p);
      FlattenAllAround(p.children, c);
      var a, b := Prefix(ns[..k], ix[..k]), Suffix(ns[..k], ix[..k]);
      var l, r := FlattenAll(p.children[..c]), FlattenAll(p.children[c + 1..]);
      Regroup(a, l, Flatten(focus), r, b);
    }
  }

  /** Item i of the leaf a walk ends at is item |Prefix| + i of the tree. */
  lemma PathItem(root: Node, ns: seq<Node>, ix: seq<int>, focus: Node, i: int)
    requires Path(root, ns, ix, focus) && focus.Leaf? && 0 <= i < |focus.items|
    ensures |Prefix(ns, ix)| + i < |Flatten(root)| && Flatten(root)[|Prefix(ns, ix)| + i] == focus.items[i]
  {
    PathFlatten(root, ns, ix, focus);
    assert Flatten(focus) == focus.items;
    MiddleItem(Prefix(ns, ix), focus.items, Suffix(ns, ix), i);
  }

  /** The place just past the leaf a walk ends at is within the tree's items. */
  lemma PathEnd(root: Node, ns: seq<Node>, ix: seq<int>, focus: Node)
    requires Path(root, ns, ix, focus) && focus.Leaf?
    ensures |Prefix(ns, ix)| + |focus.items| <= |Flatten(root)|
  {
    PathFlatten(root, ns, ix, focus);
    assert Flatten(focus) == focus.items;
  }

  /** Item i of the middle of three sequences, counted in the whole. */
  lemma MiddleItem(a: seq<Item>, m: seq<Item>, b: seq<Item>, i: int)
    requires 0 <= i < |m|
    ensures |a| + i < |a + m + b| && (a + m + b)[|a| + i] == m[i]
  {
  }

  /**
   * A walk in a shaped tree is no longer than its height and ends at a
   * node of the remaining height; in a filled tree every node below the
   * root it reaches is filled and not an empty leaf.
   */
  lemma {:induction false} PathShaped(root: Node, ns: seq<Node>, ix: seq<int>, focus: Node, h: nat, M: nat)
    requires Path(root, ns, ix, focus) && Shaped(root, h, M) && Filled(root)
    ensures |ns| <= h && Shaped(focus, h - |ns|, M) && Filled(focus)
    ensures ns != [] ==> Occupied(focus)
    decreases |ns|
  {
    if ns != [] {
      var k := |ns| - 1;
      PathShaped(root, ns[..k], ix[..k], ns[k], h, M);
      ShapedChild(ns[k], ix[k], h - k, M);
    }
  }

  /** The walk's flanks, as the descent by key, minimum or maximum leaves them. */
  ghost predicate Flanked(pre: seq<Item>, post: seq<Item>, key: Bytes, mode: LeafSpec.Mode) {
    match mode
    case ByKey => KeysBelow(pre, key) && KeysAbove(post, key)
    case Min => pre == []
    case Max => post == []
  }

  /**
   * A walk that has so far gone down the child Route picks at every level:
   * it ends at a node ordered within [lo, hi), and its flanks are as the
   * mode says.
   */
  ghost predicate Routed(root: Node, ns: seq<Node>, ix: seq<int>, n: Node, key: Bytes, mode: LeafSpec.Mode,
                         lo: Option<Bytes>, hi: Option<Bytes>)
  {
    Path(root, ns, ix, n) && AllWellFormed(n.items) && Ordered(n, lo, hi) &&
    Flanked(Prefix(ns, ix), Suffix(ns, ix), key, mode)
  }

  /** The walk starts at the root, ordered within no bounds. */
  lemma RoutedRoot(root: Node, key: Bytes, mode: LeafSpec.Mode)
    requires AllWellFormed(root.items) && Ordered(root, None, None)
    ensures Routed(root, [], [], root, key, mode, None, None)
  {
  }

  /** Flanks widened by what a step leaves either side of the routed child stay flanks. */
  lemma FlankedStep(pre: seq<Item>, l: seq<Item>, r: seq<Item>, post: seq<Item>, key: Bytes, mode: LeafSpec.Mode)
    requires Flanked(pre, post, key, mode)
    requires mode == LeafSpec.ByKey ==> KeysBelow(l, key) && KeysAbove(r, key)
    requires mode == LeafSpec.Min ==> l == []
    requires mode == LeafSpec.Max ==> r == []
    ensures Flanked(pre + l, r + post, key, mode)
  {
    if mode == LeafSpec.ByKey {
      assert forall i :: 0 <= i < |pre + l| ==> (pre + l)[i] == if i < |pre| then pre[i] else l[i - |pre|];
      assert forall i :: 0 <= i < |r + post| ==> (r + post)[i] == if i < |r| then r[i] else post[i - |r|];
    }
  }

  /** One more step down the routed child keeps the walk routed. */
  lemma RoutedStep(root: Node, ns: seq<Node>, ix: seq<int>, n: Node, key: Bytes, mode: LeafSpec.Mode,
                   lo: Option<Bytes>, hi: Option<Bytes>, h: nat, M: nat, j: nat)
    requires Routed(root, ns, ix, n, key, mode, lo, hi) && n.Inter? && Shaped(n, h, M)
    requires j == Route(n.items, key, mode)
    ensures j < |n.children|
    ensures Shaped(n.children[j], h - 1, M)
    ensures Routed(root, ns + [n], ix + [j], n.children[j], key, mode, ChildLo(n.items, j, lo), ChildHi(n.items, j, hi))
  {
    var l, r := FlattenAll(n.children[..j]), FlattenAll(n.children[j + 1..]);
    assert j < |n.children| && Shaped(n.children[j], h - 1, M) &&
           Ordered(n.children[j], ChildLo(n.items, j, lo), ChildHi(n.items, j, hi)) &&
           (mode == LeafSpec.ByKey ==> KeysBelow(l, key) && KeysAbove(r, key)) &&
           (mode == LeafSpec.Min ==> l == []) && (mode == LeafSpec.Max ==> r == []) by {
      RouteTargets(n.items, key, mode);
      TargetFrame(n, j, key, mode, lo, hi);
      ShapedChild(n, j, h, M);
      OrderedChild(n, j, lo, hi);
    }
    PathPush(root, ns, ix, n, j);
    FlankedStep(Prefix(ns, ix), l, r, Suffix(ns, ix), key, mode);
  }

  /**
   * Where a routed walk ends at a leaf: the tree's items are the flanks
   * around the leaf's items, and those items are sorted.
   */
  lemma RoutedLeaf(root: Node, ns: seq<Node>, ix: seq<int>, n: Node, key: Bytes, mode: LeafSpec.Mode,
                   lo: Option<Bytes>, hi: Option<Bytes>)
    requires Routed(root, ns, ix, n, key, mode, lo, hi)
    ensures Flatten(root) == Prefix(ns, ix) + Flatten(n) + Suffix(ns, ix)
    ensures n.Leaf? ==> Sorted(n.items)
  {
    PathFlatten(root, ns, ix, n);
  }

  /** Every key of s sorts at or before k. */
  ghost predicate KeysUpTo(s: seq<Item>, k: Bytes) {
    forall i :: 0 <= i < |s| ==> WellFormed(s[i]) && LessEq(Key(s[i]), k)
  }

  /** A tree whose root is shaped at height h, ordered within no bounds and filled. */
  ghost predicate Sound(t: Node, h: nat) {
    t.max >= 2 && Shaped(t, h, t.max) && Ordered(t, None, None) && Filled(t)
  }

  /** The items of a sound tree in key order, as iteration visits them. */
  ghost function TreeItems(t: Node, h: nat): (r: seq<Item>)
    requires Sound(t, h)
    ensures Sorted(r) && r == Flatten(t)
  {
    OrderedFlatten(t, None, None);
    Flatten(t)
  }

  /** Runs of keys below k (or at most k, or above k) concatenate to one. */
  lemma KeysConcat(a: seq<Item>, b: seq<Item>, k: Bytes)
    ensures KeysBelow(a, k) && KeysBelow(b, k) ==> KeysBelow(a + b, k)
    ensures KeysUpTo(a, k) && KeysUpTo(b, k) ==> KeysUpTo(a + b, k)
    ensures KeysAbove(a, k) && KeysAbove(b, k) ==> KeysAbove(a + b, k)
  {
    assert forall i :: 0 <= i < |a + b| ==> (a + b)[i] == if i < |a| then a[i] else b[i - |a|];
  }

  /** A run cut at i and q, inside flanks below and above k, cut the same way in the whole sequence. */
  lemma FlankedCut(pre: seq<Item>, items: seq<Item>, post: seq<Item>, i: nat, q: nat, key: Bytes)
    requires KeysBelow(pre, key) && KeysAbove(post, key) && i <= q <= |items|
    requires KeysBelow(items[..i], key) && KeysUpTo(items[..q], key) && KeysAbove(items[q..], key)
    ensures var all := pre + items + post;
      && KeysBelow(all[..|pre| + i], key) && KeysUpTo(all[..|pre| + q], key) && KeysAbove(all[|pre| + q..], key)
  {
    var all := pre + items + post;
    assert all[..|pre| + i] == pre + items[..i];
    KeysConcat(pre, items[..i], key);
    assert all[..|pre| + q] == pre + items[..q];
    KeysConcat(pre, items[..q], key);
    assert all[|pre| + q..] == items[q..] + post;
    KeysConcat(items[q..], post, key);
  }

  /**
   * Where Find puts key in a leaf's items, seen among all the items of a
   * sorted tree, the leaf's starting pre items in: at p, every key before
   * sorts below key, and key is there when found; q, one past p when
   * found, splits all into keys at most key and keys above it.
   */
  ghost predicate Placed(all: seq<Item>, pre: nat, items: seq<Item>, key: Bytes)
    requires AllWellFormed(items)
  {
    var i, found := Find(items, key).0, Find(items, key).1;
    var p := pre + i;
    var q := if found then p + 1 else p;
    && Sorted(all) && p <= q <= |all| && (i < |items| ==> p < |all| && all[p] == items[i])
    && KeysBelow(all[..p], key) && KeysUpTo(all[..q], key) && KeysAbove(all[q..], key)
    && (found ==> Key(all[p]) == key)
  }

  /**
   * The search in a sorted run flanked by keys below and above k, seen in
   * the whole sequence: at p, the run's index offset by the left flank,
   * every key before sorts below k, and k is there when found; q, one past
   * p when found, splits the sequence into keys at most k and keys above.
   */
  lemma FindAmong(pre: seq<Item>, items: seq<Item>, post: seq<Item>, key: Bytes)
    requires Sorted(items) && KeysBelow(pre, key) && KeysAbove(post, key) && Sorted(pre + items + post)
    ensures Placed(pre + items + post, |pre|, items, key)
  {
    var i, found := Find(items, key).0, Find(items, key).1;
    var q := if found then i + 1 else i;
    FindCuts(items, key, i, found, q);
    FlankedCut(pre, items, post, i, q, key);
    if i < |items| {
      assert (pre + items + post)[|pre| + i] == items[i];
    }
  }

  /**
   * Find cuts a sorted run at i, and at q one past i when found, into keys
   * below k, keys at most k and keys above k.
   */
  lemma FindCuts(items: seq<Item>, key: Bytes, i: nat, found: bool, q: nat)
    requires Sorted(items) && i == Find(items, key).0 && found == Find(items, key).1
    requires q == if found then i + 1 else i
    ensures i <= q <= |items| && (found ==> Key(items[i]) == key)
    ensures KeysBelow(items[..i], key) && KeysUpTo(items[..q], key) && KeysAbove(items[q..], key)
  {
    FindSpec(items, key);
    if found {
      assert items[..i + 1] == items[..i] + [items[i]];
      LessEqRefl(key);
      KeysConcat(items[..i], [items[i]], key);
    }
  }

  /** FindAmong for the leaf a key's walk ends at, in the whole tree. */
  lemma FindInTree(root: Node, ns: seq<Node>, ix: seq<int>, n: Node, key: Bytes, lo: Option<Bytes>, hi: Option<Bytes>)
    requires Routed(root, ns, ix, n, key, LeafSpec.ByKey, lo, hi) && n.Leaf? && Ordered(root, None, None)
    ensures AllWellFormed(n.items) && Placed(Flatten(root), |Prefix(ns, ix)|, n.items, key)
  {
    RoutedLeaf(root, ns, ix, n, key, LeafSpec.ByKey, lo, hi);
    OrderedFlatten(root, None, None);
    FindAmong(Prefix(ns, ix), n.items, Suffix(ns, ix), key);
  }

  /**
   * The leaf the minimum's (or maximum's) walk ends at holds the tree's
   * first (or last) items: it is empty only when the whole tree is.
   */
  lemma EndInTree(root: Node, ns: seq<Node>, ix: seq<int>, n: Node, key: Bytes, mode: LeafSpec.Mode,
                  lo: Option<Bytes>, hi: Option<Bytes>, h: nat)
    requires Routed(root, ns, ix, n, key, mode, lo, hi) && n.Leaf? && mode != LeafSpec.ByKey && Sound(root, h)
    ensures var all := Flatten(root);
      && (|n.items| == 0 <==> all == [])
      && (mode == LeafSpec.Min && |n.items| > 0 ==> all[0] == n.items[0])
      && (mode == LeafSpec.Max && |n.items| > 0 ==> |Prefix(ns, ix)| + |n.items| == |all| && all[|all| - 1] == n.items[|n.items| - 1])
  {
    RoutedLeaf(root, ns, ix, n, key, mode, lo, hi);
    PathShaped(root, ns, ix, n, h, root.max);
  }
}
