/**
 * The tree handle of tbp/tree.go: a root node, the number of items, and
 * the copy-on-write pool the tree forks nodes into. Every operation is
 * proved against the tree's items in key order: Insert and Remove change
 * them as one big leaf would (LeafSpec), Get reads the key's item or the
 * first or last one, and Iter starts an iterator at the key's place. An
 * error result stands for a panic of the source; the tree is then left
 * as it was.
 */
module Trees {
  import opened Bytes
  import opened Codec
  import opened Items
  import opened Wrappers
  import opened Nodes
  import opened Internal
  import opened Removal
  import opened Rebalance
  import opened RemoveProof
  import opened RemoveRefinement
  import opened InsertProof
  import opened InsertFilling
  import opened Paths
  import opened Iterators
  import LeafSpec
  import Cow

  /** What Iter returns: an ascending or a descending iterator (the Iterator interface, iter.go:8-14). */
  datatype Cursor = Ascending(up: AscendIterator) | Descending(down: DescendIterator)

  /**
   * The growth step of Insert (tree.go:46-51): a new internal root in the
   * old root's pool and with its capacity, whose only child, the old root,
   * is split in two at max/2.
   */
  function Grown(n: Node): (r: Node)
    requires |n.items| > n.max / 2 && (n.Inter? ==> |n.children| == |n.items| + 1)
    ensures r.Inter? && |r.items| == 1 && |r.children| == 2 && r.owner == n.owner && r.max == n.max
  {
    SplitChild(Inter(n.owner, n.max, [], [n]), 0, n.max)
  }

  /** The grown root is shaped one level taller. */
  lemma GrowShaped(n: Node, h: nat)
    requires Shaped(n, h, n.max) && n.max >= 2 && |n.items| >= n.max
    ensures Shaped(Grown(n), h + 1, n.max)
  {
    var m := Inter(n.owner, n.max, [], [n]);
    assert Shaped(m, h + 1, n.max);
    SplitChildShaped(m, 0, h + 1, n.max);
  }

  /** The grown root holds the old root's items. */
  lemma GrowFlatten(n: Node, h: nat)
    requires Shaped(n, h, n.max) && n.max >= 2 && |n.items| >= n.max
    ensures Flatten(Grown(n)) == Flatten(n)
  {
    var m := Inter(n.owner, n.max, [], [n]);
    SplitChildFlatten(m, 0, n.max);
    FlattenAllOne(n);
  }

  /** The grown root keeps the key order. */
  lemma GrowOrdered(n: Node, h: nat)
    requires Shaped(n, h, n.max) && n.max >= 2 && |n.items| >= n.max && Ordered(n, None, None)
    ensures Ordered(Grown(n), None, None)
  {
    var m := Inter(n.owner, n.max, [], [n]);
    assert Shaped(m, h + 1, n.max) && Ordered(m, None, None);
    SplitChildOrdered(m, 0, h + 1, None, None);
  }

  /** The grown root has no empty leaf. */
  lemma GrowFilled(n: Node, h: nat)
    requires Shaped(n, h, n.max) && n.max >= 2 && |n.items| >= n.max && Filled(n)
    ensures Filled(Grown(n))
  {
    var m := Inter(n.owner, n.max, [], [n]);
    assert Shaped(m, h + 1, n.max) && Filled(m);
    SplitChildFilled(m, 0, h + 1, n.max);
  }

  /** Growing a full sound root keeps its items and gives a sound tree one level taller. */
  lemma GrowKeeps(n: Node, h: nat)
    requires Sound(n, h) && |n.items| >= n.max
    ensures Sound(Grown(n), h + 1) && Flatten(Grown(n)) == Flatten(n)
  {
    GrowShaped(n, h);
    GrowFlatten(n, h);
    GrowOrdered(n, h);
    GrowFilled(n, h);
  }

  /**
   * The root collapse of Remove (tree.go:70-74): a root with one separator
   * merges its two children, and the merged child becomes the root.
   */
  function Collapsed(n: Node, ghost h: nat): (r: Node)
    requires Shaped(n, h, n.max) && n.Inter? && |n.items| == 1
    ensures r.owner == n.owner && r.max == n.max
    ensures |r.items| == |n.children[0].items| + |n.children[1].items| + (if n.children[0].Leaf? then 0 else 1)
  {
    MergeRightShaped(n, 0, h, n.max);
    ShapedChild(MergeRight(n, 0), 0, h, n.max);
    MergeRight(n, 0).children[0]
  }

  /**
   * Collapsing a sound root with one separator keeps its items and gives a
   * sound tree one level lower, in the same pool, whose root, if internal,
   * still has a separator.
   */
  lemma CollapseKeeps(n: Node, h: nat)
    requires Sound(n, h) && n.Inter? && |n.items| == 1
    ensures h >= 1 && Sound(Collapsed(n, h), h - 1) && Flatten(Collapsed(n, h)) == Flatten(n)
    ensures Collapsed(n, h).owner == n.owner
    ensures Collapsed(n, h).Inter? ==> |Collapsed(n, h).items| >= 1
  {
    MergeRightShaped(n, 0, h, n.max);
    var m := MergeRight(n, 0);
    MergeRightKeeps(n, 0, h, None, None, [], LeafSpec.Min);
    ShapedChild(m, 0, h, n.max);
    OrderedChild(m, 0, None, None);
    FlattenAllOne(m.children[0]);
    assert m.children == [m.children[0]];
  }

  /**
   * The index Get and Iter read in the leaf their walk ends at
   * (tree.go:110-117, 154-167): the last item for the maximum, the first
   * for the minimum, and for a key the first item at or after it, less one
   * when descending and the key is not there.
   */
  function LeafIndex(items: seq<Item>, k: Bytes, mode: LeafSpec.Mode, reverse: bool): (r: int)
    requires AllWellFormed(items)
    ensures -1 <= r <= |items|
    ensures mode != LeafSpec.Max && !reverse ==> 0 <= r
    ensures mode == LeafSpec.Max || (reverse && mode == LeafSpec.ByKey) ==> r < |items|
  {
    if mode == LeafSpec.Max then |items| - 1
    else if mode == LeafSpec.Min then 0
    else if reverse && !Find(items, k).1 then Find(items, k).0 - 1
    else Find(items, k).0
  }

  /** By key, the index is where Find puts the key; descending, one less when the key is absent. */
  lemma LeafIndexByKey(items: seq<Item>, k: Bytes)
    requires AllWellFormed(items)
    ensures LeafIndex(items, k, LeafSpec.ByKey, false) == Find(items, k).0
    ensures LeafIndex(items, k, LeafSpec.ByKey, true) + 1 == Find(items, k).0 + (if Find(items, k).1 then 1 else 0)
  {
  }

  /**
   * An ascending start from a key above every item of the leaf lands just
   * past the leaf's last item, where there is nothing to read (see Findings).
   */
  lemma AscendStartPastEnd(items: seq<Item>, k: Bytes)
    requires Sorted(items) && KeysBelow(items, k)
    ensures LeafIndex(items, k, LeafSpec.ByKey, false) == |items|
  {
    forall j | 0 <= j < |items|
      ensures !Less(k, Key(items[j]))
    {
      CompareAntisymmetric(k, Key(items[j]));
    }
    SearchIndexUnique(items, k, |items|);
  }

  /** p splits all into keys below k and keys at or after k: where an ascending Iter from k starts. */
  ghost predicate AscendsFrom(all: seq<Item>, p: int, k: Bytes) {
    0 <= p <= |all| && KeysBelow(all[..p], k) && KeysFrom(all[p..], k)
  }

  /**
   * p is an item of all that splits it into keys at most k, up to p, and
   * keys above k: where a descending Iter from k starts.
   */
  ghost predicate DescendsFrom(all: seq<Item>, p: int, k: Bytes) {
    0 <= p < |all| && KeysUpTo(all[..p + 1], k) && KeysAbove(all[p + 1..], k)
  }

  /** An ascending Iter from k that starts at index i of a leaf whose items follow pre others starts where it should. */
  ghost predicate AscendsAt(all: seq<Item>, pre: nat, i: int, k: Bytes) {
    AscendsFrom(all, pre + i, k)
  }

  /** The ascending start p, reached at index i of a leaf whose items follow pre others. */
  lemma AscendsSplit(all: seq<Item>, pre: nat, i: int, p: int, k: Bytes)
    requires AscendsFrom(all, p, k) && pre + i == p
    ensures AscendsAt(all, pre, i, k)
  {
  }

  /** A descending Iter from k that starts at index i of a leaf whose items follow pre others starts where it should. */
  ghost predicate DescendsAt(all: seq<Item>, pre: nat, i: int, k: Bytes) {
    i != -1 ==> DescendsFrom(all, pre + i, k)
  }

  /**
   * A descending Iter for the maximum that starts at index i of a leaf whose
   * items follow pre others sits on the last item, or is exhausted when there is none.
   */
  ghost predicate LastAt(all: seq<Item>, pre: nat, i: int) {
    (i == -1 <==> all == []) && (i != -1 ==> pre + i == |all| - 1)
  }

  /** Where an ascending Iter from k starts, every key is below k exactly when that place is the end. */
  lemma BelowAll(s: seq<Item>, p: nat, k: Bytes)
    requires AscendsFrom(s, p, k)
    ensures KeysBelow(s, k) <==> p == |s|
  {
    if p == |s| {
      assert s[..p] == s;
    } else {
      assert s[p..][0] == s[p];
      CompareAntisymmetric(k, Key(s[p]));
    }
  }

  /** p is the place of the first item of s whose key sorts after k. */
  ghost predicate FirstAfter(s: seq<Item>, k: Bytes, p: int) {
    0 <= p < |s| && WellFormed(s[p]) && KeysBelow(s[..p], k) && Less(k, Key(s[p]))
  }

  /** Keys below k up to p and above k from p on leave k out. */
  lemma Lacks(s: seq<Item>, p: nat, k: Bytes)
    requires p <= |s| && KeysBelow(s[..p], k) && KeysAbove(s[p..], k)
    ensures !HasKey(s, k)
  {
    forall j | 0 <= j < |s| && WellFormed(s[j])
      ensures Key(s[j]) != k
    {
      if j < p {
        assert s[..p][j] == s[j];
      } else {
        assert s[p..][j - p] == s[j];
      }
    }
  }

  /** The empty key sorts at or before every key. */
  lemma FromEmpty(s: seq<Item>)
    requires AllWellFormed(s)
    ensures KeysFrom(s, [])
  {
  }

  /** From where a search puts k, every key sorts at or after k. */
  lemma StartsFrom(s: seq<Item>, p: nat, q: nat, k: Bytes)
    requires p <= q <= p + 1 && q <= |s| && KeysAbove(s[q..], k)
    requires q == p + 1 ==> WellFormed(s[p]) && Key(s[p]) == k
    ensures KeysFrom(s[p..], k)
  {
    forall j | 0 <= j < |s| - p
      ensures WellFormed(s[p..][j]) && LessEq(k, Key(s[p..][j]))
    {
      if p + j < q {
        Order.LessEqRefl(k);
      } else {
        assert s[p..][j] == s[q..][p + j - q];
      }
    }
  }

  /** A place with keys below k before it and keys above k from it on is the first after k. */
  lemma AfterAt(s: seq<Item>, p: nat, k: Bytes)
    requires p < |s| && KeysBelow(s[..p], k) && KeysAbove(s[p..], k)
    ensures FirstAfter(s, k, p)
  {
    assert s[p..][0] == s[p];
  }

  /**
   * What Get reads by key at the end of its walk, seen among all the
   * tree's items: the key's own item when the tree holds the key,
   * otherwise the first item after it, when the leaf has one.
   */
  lemma GetByKey(rt: Node, ns: seq<Node>, ix: seq<int>, n: Node, k: Bytes, lo: Option<Bytes>, hi: Option<Bytes>)
    requires Routed(rt, ns, ix, n, k, LeafSpec.ByKey, lo, hi) && n.Leaf? && Ordered(rt, None, None)
    ensures Sorted(Flatten(rt))
    ensures var all, i := Flatten(rt), LeafIndex(n.items, k, LeafSpec.ByKey, false);
      && 0 <= i
      && (k in Contents(all) ==> i < |n.items| && Contents(all)[k] == Val(n.items[i]))
      && (k !in Contents(all) && i < |n.items| ==> exists q :: FirstAfter(all, k, q) && Val(all[q]) == Val(n.items[i]))
  {
    FindInTree(rt, ns, ix, n, k, lo, hi);
    GetPlaced(Flatten(rt), |Prefix(ns, ix)|, n.items, k);
  }

  /** GetByKey among all the items, from where Find places the key. */
  lemma GetPlaced(all: seq<Item>, pre: nat, items: seq<Item>, k: Bytes)
    requires AllWellFormed(items) && Placed(all, pre, items, k)
    ensures Sorted(all)
    ensures var i := LeafIndex(items, k, LeafSpec.ByKey, false);
      && 0 <= i
      && (k in Contents(all) ==> i < |items| && Contents(all)[k] == Val(items[i]))
      && (k !in Contents(all) && i < |items| ==> exists q :: FirstAfter(all, k, q) && Val(all[q]) == Val(items[i]))
  {
    LeafIndexByKey(items, k);
    var i, found := Find(items, k).0, Find(items, k).1;
    GetAmong(all, pre + i, found, i < |items|, k);
  }

  /**
   * What Get reads at the end of its walk, seen among all the tree's
   * items: by key, the key's value when the tree holds the key, and
   * otherwise the first item after it when the leaf has one; for the
   * minimum or maximum, the first or last item, present exactly when the
   * tree is not empty.
   */
  lemma GetRead(rt: Node, ns: seq<Node>, ix: seq<int>, n: Node, k: Bytes, mode: LeafSpec.Mode,
                lo: Option<Bytes>, hi: Option<Bytes>, h: nat)
    requires Routed(rt, ns, ix, n, k, mode, lo, hi) && n.Leaf? && Sound(rt, h)
    ensures Sorted(Flatten(rt))
    ensures var all, i := Flatten(rt), LeafIndex(n.items, k, mode, false);
      && (mode == LeafSpec.ByKey && k in Contents(all) ==> 0 <= i < |n.items| && Val(n.items[i]) == Contents(all)[k])
      && (mode == LeafSpec.ByKey && k !in Contents(all) && 0 <= i < |n.items| ==>
            exists q :: FirstAfter(all, k, q) && Val(all[q]) == Val(n.items[i]))
      && (mode != LeafSpec.ByKey ==> (0 <= i < |n.items| <==> all != []))
      && (mode == LeafSpec.Min && all != [] ==> n.items[i] == all[0])
      && (mode == LeafSpec.Max && all != [] ==> n.items[i] == all[|all| - 1])
  {
    if mode == LeafSpec.ByKey {
      GetByKey(rt, ns, ix, n, k, lo, hi);
    } else {
      GetAtEnd(rt, ns, ix, n, k, mode, lo, hi, h);
    }
  }

  /** For the minimum or maximum, Get reads the first or last item, present exactly when the tree is not empty. */
  lemma GetAtEnd(rt: Node, ns: seq<Node>, ix: seq<int>, n: Node, k: Bytes, mode: LeafSpec.Mode,
                 lo: Option<Bytes>, hi: Option<Bytes>, h: nat)
    requires Routed(rt, ns, ix, n, k, mode, lo, hi) && n.Leaf? && Sound(rt, h) && mode != LeafSpec.ByKey
    ensures Sorted(Flatten(rt))
    ensures var all, i := Flatten(rt), LeafIndex(n.items, k, mode, false);
      && (0 <= i < |n.items| <==> all != [])
      && (mode == LeafSpec.Min && all != [] ==> n.items[i] == all[0])
      && (mode == LeafSpec.Max && all != [] ==> n.items[i] == all[|all| - 1])
  {
    OrderedFlatten(rt, None, None);
    EndInTree(rt, ns, ix, n, k, mode, lo, hi, h);
  }

  /**
   * Where a search puts k among sorted items, at place q, inside the
   * leaf or not: the key's item when the items hold k, otherwise the
   * first item after k, when the leaf has one.
   */
  lemma GetAmong(all: seq<Item>, q: nat, found: bool, inLeaf: bool, k: Bytes)
    requires Sorted(all) && q <= |all| && (found ==> inLeaf) && (inLeaf ==> q < |all|)
    requires KeysBelow(all[..q], k) && (found ==> Key(all[q]) == k) && (!found ==> KeysAbove(all[q..], k))
    ensures k in Contents(all) ==> inLeaf && Contents(all)[k] == Val(all[q])
    ensures k !in Contents(all) && inLeaf ==> FirstAfter(all, k, q)
  {
    ContentsHasKey(all, k);
    if found {
      ContentsAt(all, q);
    } else {
      Lacks(all, q, k);
      if inLeaf {
        AfterAt(all, q, k);
      }
    }
  }

  /**
   * Insert below a sound root: the subtree stays sound, and its items
   * change as LeafSpec.Insert says.
   */
  lemma InsertStep(n: Node, key: Bytes, val: Bytes, h: nat)
    requires Sound(n, h) && 0 < |key| < Pow32
    ensures Sorted(Flatten(n))
    ensures Sound(Internal.Insert(n, key, val, h).0, h)
    ensures Flatten(Internal.Insert(n, key, val, h).0) == LeafSpec.Insert(Flatten(n), key, val).0
    ensures Internal.Insert(n, key, val, h).1 == LeafSpec.Insert(Flatten(n), key, val).1
  {
    OrderedFlatten(n, None, None);
    InsertRefines(n, key, val, h, None, None);
    InsertFilled(n, key, val, h);
  }

  /**
   * The new root of Insert (tree.go:45-52): the old root forked into the
   * pool, grown by a level when full, with the item inserted below it.
   * It is sound at the height returned, holds the items LeafSpec.Insert
   * gives, and reports the key new as LeafSpec.Insert does.
   */
  method InsertInto(r: Node, cow: Cow.Pool?, key: Bytes, val: Bytes, ghost h: nat)
    returns (n: Node, added: bool, ghost h': nat)
    requires Sound(r, h) && 0 < |key| < Pow32
    ensures Sorted(Flatten(r))
    ensures Sound(n, h') && n.owner == cow
    ensures h' == if |r.items| >= r.max then h + 1 else h
    ensures Flatten(n) == LeafSpec.Insert(Flatten(r), key, val).0
    ensures added == LeafSpec.Insert(Flatten(r), key, val).1
  {
    InsertRoot(r, cow, h);
    n, h' := Fork(r, cow), h;
    if |n.items| >= n.max {
      n, h' := Grown(n), h + 1;
    }
    InsertStep(n, key, val, h');
    n, added := Internal.Insert(n, key, val, h').0, Internal.Insert(n, key, val, h').1;
  }

  /** LeafSpec.Insert adds an item exactly when the key is new. */
  lemma InsertSize(s: seq<Item>, key: Bytes, val: Bytes)
    requires Sorted(s) && 0 < |key| < Pow32
    ensures |LeafSpec.Insert(s, key, val).0| == |s| + (if LeafSpec.Insert(s, key, val).1 then 1 else 0)
  {
    LeafSpec.InsertSpec(s, key, val);
  }

  /** LeafSpec.Insert as a map update: the key gets the value, and the items grow exactly when the key is new. */
  lemma InsertMapping(s: seq<Item>, key: Bytes, val: Bytes)
    requires Sorted(s) && 0 < |key| < Pow32
    ensures var (s', added) := LeafSpec.Insert(s, key, val);
      && Sorted(s')
      && Contents(s') == Contents(s)[key := val]
      && (added <==> key !in Contents(s))
      && |s'| == |s| + (if added then 1 else 0)
  {
    LeafSpec.InsertSpec(s, key, val);
    ContentsHasKey(s, key);
  }

  /**
   * Remove below a sound root whose separators, if any, are not all gone:
   * the subtree stays sound, and its items change as LeafSpec.Remove says.
   */
  lemma RemoveStep(n: Node, key: Bytes, mode: LeafSpec.Mode, h: nat)
    requires Sound(n, h) && Removable(n)
    ensures Sorted(Flatten(n))
    ensures var (n', _, found) := Removal.Remove(n, key, mode, h);
      && Sound(n', h)
      && Flatten(n') == LeafSpec.Remove(Flatten(n), key, mode).0
      && found == LeafSpec.Remove(Flatten(n), key, mode).2
      && |Flatten(n')| == |Flatten(n)| - (if found then 1 else 0)
  {
    OrderedFlatten(n, None, None);
    RemoveRefines(n, key, mode, h, None, None);
    LeafSpec.RemoveShape(Flatten(n), key, mode);
  }

  /**
   * The loop of the walk in Iter (tree.go:135-151): from root rt of height
   * h down the child the mode picks, pushing each internal node and the
   * index taken, to a leaf.
   */
  method WalkFrom(rt: Node, k: Bytes, mode: LeafSpec.Mode, ghost h: nat)
    returns (ns: seq<Node>, ix: seq<int>, n: Node, ghost lo: Option<Bytes>, ghost hi: Option<Bytes>)
    requires Sound(rt, h)
    ensures Routed(rt, ns, ix, n, k, mode, lo, hi) && n.Leaf?
  {
    ns, ix, n, lo, hi := [], [], rt, None, None;
    ghost var d := h;
    RoutedRoot(rt, k, mode);
    while n.Inter?
      invariant Routed(rt, ns, ix, n, k, mode, lo, hi) && Shaped(n, d, rt.max)
      decreases d
    {
      var i := Route(n.items, k, mode);
      RoutedStep(rt, ns, ix, n, k, mode, lo, hi, d, rt.max, i);
      lo, hi := ChildLo(n.items, i, lo), ChildHi(n.items, i, hi);
      ns, ix, n, d := ns + [n], ix + [i], n.children[i], d - 1;
    }
  }

  /**
   * Remove on a root (tree.go:69-78): fork it into the pool cow, collapse
   * it when it holds one separator, and remove the key by mode; the items
   * change as LeafSpec.Remove says.
   */
  method RemoveFrom(r: Node, cow: Cow.Pool?, key: Bytes, mode: LeafSpec.Mode, ghost h: nat)
    returns (n: Node, found: bool, ghost h': nat)
    requires Sound(r, h) && (r.Inter? ==> |r.items| >= 1)
    ensures Sorted(Flatten(r))
    ensures Sound(n, h') && n.owner == cow
    ensures h' == if r.Inter? && |r.items| == 1 then h - 1 else h
    ensures Flatten(n) == LeafSpec.Remove(Flatten(r), key, mode).0
    ensures found == LeafSpec.Remove(Flatten(r), key, mode).2
    ensures |Flatten(n)| == |Flatten(r)| - (if found then 1 else 0)
  {
    RemoveRoot(r, cow, h);
    n, h' := Fork(r, cow), h;
    if n.Inter? && |n.items| == 1 {
      n, h' := Collapsed(n, h'), h' - 1;
    }
    RemoveStep(n, key, mode, h');
    n, found := Removal.Remove(n, key, mode, h').0, Removal.Remove(n, key, mode, h').2;
  }

  /**
   * The root Insert works on: forked into the pool, and grown by one level
   * when full. It is sound at the height returned and holds the same items.
   */
  lemma InsertRoot(r: Node, cow: Cow.Pool?, h: nat)
    requires Sound(r, h)
    ensures var n := Fork(r, cow);
      && Sound(n, h) && Flatten(n) == Flatten(r)
      && (|n.items| >= n.max ==> Sound(Grown(n), h + 1) && Flatten(Grown(n)) == Flatten(r))
  {
    var n := Fork(r, cow);
    ForkKeeps(r, cow, h, r.max, None, None);
    if |n.items| >= n.max {
      GrowKeeps(n, h);
    }
  }

  /**
   * The root Remove works on: forked into the pool, and collapsed when it
   * has one separator. It is sound at the height returned and holds the
   * same items.
   */
  lemma RemoveRoot(r: Node, cow: Cow.Pool?, h: nat)
    requires Sound(r, h)
    ensures var n := Fork(r, cow);
      && Sound(n, h) && Flatten(n) == Flatten(r)
      && (n.Inter? && |n.items| == 1 ==>
            h >= 1 && Sound(Collapsed(n, h), h - 1) && Flatten(Collapsed(n, h)) == Flatten(r) &&
            (Collapsed(n, h).Inter? ==> |Collapsed(n, h).items| >= 1))
  {
    var n := Fork(r, cow);
    ForkKeeps(r, cow, h, r.max, None, None);
    if n.Inter? && |n.items| == 1 {
      CollapseKeeps(n, h);
    }
  }

  /** Where an ascending Iter by key starts: at the first item of the tree whose key is at or after k. */
  lemma AscendByKey(rt: Node, ns: seq<Node>, ix: seq<int>, n: Node, k: Bytes, lo: Option<Bytes>, hi: Option<Bytes>)
    requires Routed(rt, ns, ix, n, k, LeafSpec.ByKey, lo, hi) && n.Leaf? && Ordered(rt, None, None)
    ensures AscendsAt(Flatten(rt), |Prefix(ns, ix)|, LeafIndex(n.items, k, LeafSpec.ByKey, false), k)
  {
    FindInTree(rt, ns, ix, n, k, lo, hi);
    AscendPlaced(Flatten(rt), |Prefix(ns, ix)|, n.items, k);
  }

  /** AscendByKey among all the items, from where Find places the key. */
  lemma AscendPlaced(all: seq<Item>, pre: nat, items: seq<Item>, k: Bytes)
    requires AllWellFormed(items) && Placed(all, pre, items, k)
    ensures AscendsAt(all, pre, LeafIndex(items, k, LeafSpec.ByKey, false), k)
  {
    LeafIndexByKey(items, k);
    var i, found := Find(items, k).0, Find(items, k).1;
    StartsFrom(all, pre + i, if found then pre + i + 1 else pre + i, k);
  }

  /** An ascending Iter from the empty key starts at the tree's first item, after no key and before all. */
  lemma AscendFromMin(rt: Node, ns: seq<Node>, ix: seq<int>, n: Node, k: Bytes, lo: Option<Bytes>, hi: Option<Bytes>)
    requires Routed(rt, ns, ix, n, k, LeafSpec.Min, lo, hi) && n.Leaf? && Ordered(rt, None, None) && |k| == 0
    ensures AscendsAt(Flatten(rt), |Prefix(ns, ix)|, LeafIndex(n.items, k, LeafSpec.Min, false), k)
    ensures Flatten(rt) == [] ==> n.items == []
  {
    RoutedLeaf(rt, ns, ix, n, k, LeafSpec.Min, lo, hi);
    OrderedFlatten(rt, None, None);
    assert k == [];
    FromEmpty(Flatten(rt));
    assert Flatten(rt)[0..] == Flatten(rt);
  }

  /**
   * Where an ascending Iter starts: at the first item of the tree whose
   * key is at or after k, and in an empty leaf when the tree is empty.
   */
  lemma AscendStart(rt: Node, ns: seq<Node>, ix: seq<int>, n: Node, k: Bytes, mode: LeafSpec.Mode,
                    lo: Option<Bytes>, hi: Option<Bytes>)
    requires Routed(rt, ns, ix, n, k, mode, lo, hi) && n.Leaf? && Ordered(rt, None, None)
    requires mode == (if |k| == 0 then LeafSpec.Min else LeafSpec.ByKey)
    ensures AscendsAt(Flatten(rt), |Prefix(ns, ix)|, LeafIndex(n.items, k, mode, false), k)
    ensures Flatten(rt) == [] ==> n.items == []
  {
    if mode == LeafSpec.ByKey {
      RoutedLeaf(rt, ns, ix, n, k, mode, lo, hi);
      AscendByKey(rt, ns, ix, n, k, lo, hi);
    } else {
      AscendFromMin(rt, ns, ix, n, k, lo, hi);
    }
  }

  /**
   * Where a descending Iter by key starts: at the last item of the tree
   * whose key is at or before k, when the leaf has it.
   */
  lemma DescendByKey(rt: Node, ns: seq<Node>, ix: seq<int>, n: Node, k: Bytes, lo: Option<Bytes>, hi: Option<Bytes>)
    requires Routed(rt, ns, ix, n, k, LeafSpec.ByKey, lo, hi) && n.Leaf? && Ordered(rt, None, None)
    ensures DescendsAt(Flatten(rt), |Prefix(ns, ix)|, LeafIndex(n.items, k, LeafSpec.ByKey, true), k)
  {
    FindInTree(rt, ns, ix, n, k, lo, hi);
    DescendPlaced(Flatten(rt), |Prefix(ns, ix)|, n.items, k);
  }

  /** DescendByKey among all the items, from where Find places the key. */
  lemma DescendPlaced(all: seq<Item>, pre: nat, items: seq<Item>, k: Bytes)
    requires AllWellFormed(items) && Placed(all, pre, items, k)
    ensures DescendsAt(all, pre, LeafIndex(items, k, LeafSpec.ByKey, true), k)
  {
    LeafIndexByKey(items, k);
  }

  /** A descending Iter for the maximum starts at the last item, or exhausted when the tree is empty. */
  lemma DescendFromEnd(rt: Node, ns: seq<Node>, ix: seq<int>, n: Node, k: Bytes,
                       lo: Option<Bytes>, hi: Option<Bytes>, h: nat)
    requires Routed(rt, ns, ix, n, k, LeafSpec.Max, lo, hi) && n.Leaf? && Sound(rt, h)
    ensures LastAt(Flatten(rt), |Prefix(ns, ix)|, LeafIndex(n.items, k, LeafSpec.Max, true))
  {
    EndInTree(rt, ns, ix, n, k, LeafSpec.Max, lo, hi, h);
  }

  /**
   * Where a descending Iter starts: by key, at the last item of the tree
   * whose key is at or before k, when the leaf has it; for the maximum, at
   * the last item, or exhausted when the tree is empty.
   */
  lemma DescendStart(rt: Node, ns: seq<Node>, ix: seq<int>, n: Node, k: Bytes, mode: LeafSpec.Mode,
                     lo: Option<Bytes>, hi: Option<Bytes>, h: nat)
    requires Routed(rt, ns, ix, n, k, mode, lo, hi) && n.Leaf? && Sound(rt, h)
    requires mode == (if |k| == 0 then LeafSpec.Max else LeafSpec.ByKey)
    ensures |k| == 0 ==> LastAt(Flatten(rt), |Prefix(ns, ix)|, LeafIndex(n.items, k, mode, true))
    ensures |k| > 0 ==> DescendsAt(Flatten(rt), |Prefix(ns, ix)|, LeafIndex(n.items, k, mode, true), k)
  {
    if mode == LeafSpec.ByKey {
      DescendByKey(rt, ns, ix, n, k, lo, hi);
    } else {
      DescendFromEnd(rt, ns, ix, n, k, lo, hi, h);
    }
  }

  /** Tree (tree.go:12-16). */
  class Tree {
    var root: Option<Node>
    var size: int
    var cow: Cow.Pool?
    /** The height of the root: every leaf lies this many levels below it. */
    ghost var height: nat

    /**
     * A tree with a root is sound at its height: shaped, ordered and with
     * no empty leaf below the root. The root belongs to a pool, since every
     * root is made by a pool's newLeaf or newInter.
     */
    ghost predicate Valid()
      reads this
    {
      root.Some? ==> root.value.owner != null && Sound(root.value, height)
    }

    /** The tree's items in key order. */
    ghost function Items(): (r: seq<Item>)
      reads this
      requires Valid()
      ensures Sorted(r)
    {
      if root.None? then [] else OrderedFlatten(root.value, None, None); Flatten(root.value)
    }

    /** The map from keys to values the tree stands for. */
    ghost function Mapping(): map<Bytes, Bytes>
      reads this
      requires Valid()
    {
      Contents(Items())
    }

    /** size counts the items. */
    ghost predicate Counted()
      reads this
      requires Valid()
    {
      size == |Items()|
    }

    /**
     * NewTree (tree.go:18-33): node size 0 means 64 and a missing pool
     * means a fresh one bounded at 64; the root is an empty leaf drawn
     * from the pool, with the capacity of the shell it got.
     */
    constructor (nodeSize: nat, pool: Cow.Pool?)
      requires nodeSize != 1
      requires pool != null ==> pool.Valid()
      modifies pool
      ensures Valid() && Items() == [] && Counted()
      ensures pool != null ==> cow == pool
      ensures pool == null ==> cow != null && fresh(cow) && cow.bound == 64
      ensures cow != null && cow.Valid()
      ensures root.Some? && root.value.Leaf? && root.value.owner == cow
      ensures root.value.max >= (if nodeSize == 0 then 64 else nodeSize)
      ensures pool != null ==> pool.inters == old(pool.inters)
      ensures pool != null && |old(pool.leaves)| > 0 ==>
        pool.leaves == old(pool.leaves[..|pool.leaves| - 1]) &&
        root.value.max == Cow.Reissued(old(pool.leaves[|pool.leaves| - 1]), if nodeSize == 0 then 64 else nodeSize, 0, pool).cap
      ensures pool == null || |old(pool.leaves)| == 0 ==>
        cow.leaves == [] && cow.inters == (if pool == null then [] else old(pool.inters)) &&
        root.value.max == (if nodeSize == 0 then 64 else nodeSize)
    {
      var max := if nodeSize == 0 then 64 else nodeSize;
      var p := pool;
      if p == null {
        p := new Cow.Pool(64);
      }
      var shell := p.NewLeaf(max);
      root := Some(Leaf(p, shell.cap, []));
      size := 0;
      cow := p;
      height := 0;
    }

    /** The struct copy of Clone, with every field given. */
    constructor Copy(root: Option<Node>, size: int, cow: Cow.Pool?, ghost height: nat)
      ensures this.root == root && this.size == size && this.cow == cow && this.height == height
    {
      this.root, this.size, this.cow, this.height := root, size, cow, height;
    }

    /**
     * Clone (tree.go:35-39): a new handle on the same root and size with
     * another pool; it holds the same items.
     */
    method Clone(other: Cow.Pool?) returns (t: Tree)
      requires Valid()
      ensures fresh(t) && t.root == root && t.size == size && t.cow == other && t.height == height
      ensures t.Valid() && t.Items() == Items() && (Counted() ==> t.Counted())
    {
      t := new Tree.Copy(root, size, other, height);
    }

    /**
     * Insert (tree.go:41-55): fork the root into the tree's pool, grow a
     * full root by one level, insert, and count a new key. The tree's
     * items change as LeafSpec.Insert says: the key maps to the value and
     * every other key keeps its own. A tree cloned with no pool cannot
     * fork its root: newLeaf and newInter lock the nil pool and panic.
     */
    method Insert(key: Bytes, val: Bytes) returns (failure: Option<Error>)
      requires Valid() && |key| < Pow32
      modifies this
      ensures Valid() && cow == old(cow)
      ensures failure == if |key| == 0 then Some(EmptyKey) else if |val| == 0 then Some(EmptyValue)
                         else if old(root).None? then Some(NilRoot) else if cow == null then Some(NilPool) else None
      ensures failure.Some? ==> unchanged(this)
      ensures failure.None? ==> root.Some? && root.value.owner == cow
      ensures failure.None? ==> height == old(height) + (if |old(root).value.items| >= old(root).value.max then 1 else 0)
      ensures failure.None? ==> Items() == LeafSpec.Insert(old(Items()), key, val).0
      ensures failure.None? ==> Mapping() == old(Mapping())[key := val]
      ensures failure.None? ==> size == old(size) + (if key in old(Mapping()) then 0 else 1)
      ensures old(Counted()) ==> Counted()
    {
      if |key| == 0 {
        return Some(EmptyKey);
      }
      if |val| == 0 {
        return Some(EmptyValue);
      }
      if root.None? {
        return Some(NilRoot);
      }
      if cow == null {
        return Some(NilPool);
      }
      InsertAtRoot(key, val);
      failure := None;
    }

    /**
     * The part of Insert past its checks (tree.go:45-54): the root is
     * replaced by the one Inserted gives, and a new key is counted.
     */
    method InsertAtRoot(key: Bytes, val: Bytes)
      requires Valid() && 0 < |key| < Pow32 && root.Some? && cow != null
      modifies this
      ensures Valid() && cow == old(cow) && root.Some? && root.value.owner == cow
      ensures height == old(height) + (if |old(root).value.items| >= old(root).value.max then 1 else 0)
      ensures Items() == LeafSpec.Insert(old(Items()), key, val).0
      ensures Mapping() == old(Mapping())[key := val]
      ensures size == old(size) + (if key in old(Mapping()) then 0 else 1)
      ensures old(Counted()) ==> Counted()
    {
      ghost var before := Items();
      var r := root.value;
      var n, added, h := InsertInto(r, cow, key, val, height);
      assert h == height + (if |r.items| >= r.max then 1 else 0) && n.owner == cow && Sound(n, h);
      assert Contents(Flatten(n)) == Contents(before)[key := val] && (added <==> key !in Contents(before)) &&
             |Flatten(n)| == |before| + (if added then 1 else 0) by {
        InsertMapping(before, key, val);
      }
      root, height, size := Some(n), h, if added then size + 1 else size;
      assert Valid() && Items() == Flatten(n);
    }

    /**
     * The body of Remove (tree.go:69-78), for any remove mode: fork the
     * root into the tree's pool, collapse a root with one separator,
     * remove, and count the removal. The tree's items change as
     * LeafSpec.Remove says. A tree with no pool cannot fork its root, and
     * a root with no separator makes mergeRight(0) panic in the source.
     */
    method Drop(key: Bytes, mode: LeafSpec.Mode) returns (failure: Option<Error>)
      requires Valid()
      modifies this
      ensures Valid() && cow == old(cow)
      ensures failure == if old(root).None? then Some(NilRoot) else if cow == null then Some(NilPool)
                         else if old(root).value.Inter? && |old(root).value.items| == 0 then Some(IndexOutOfRange)
                         else None
      ensures failure.Some? ==> unchanged(this)
      ensures failure.None? ==> root.Some? && root.value.owner == cow
      ensures failure.None? ==> height == old(height) - (if old(root).value.Inter? && |old(root).value.items| == 1 then 1 else 0)
      ensures failure.None? ==> Items() == LeafSpec.Remove(old(Items()), key, mode).0
      ensures failure.None? ==> size == old(size) - (if LeafSpec.Remove(old(Items()), key, mode).2 then 1 else 0)
      ensures failure.None? ==> |Items()| == |old(Items())| - (if LeafSpec.Remove(old(Items()), key, mode).2 then 1 else 0)
    {
      if root.None? {
        return Some(NilRoot);
      }
      if cow == null {
        return Some(NilPool);
      }
      if root.value.Inter? && |root.value.items| == 0 {
        return Some(IndexOutOfRange);
      }
      var n, found, h := RemoveFrom(root.value, cow, key, mode, height);
      root, height, size := Some(n), h, if found then size - 1 else size;
      failure := None;
    }

    /**
     * Remove (tree.go:65-79): the key leaves the tree and every other key
     * keeps its value; size drops by one exactly when the key was there.
     */
    method Remove(key: Bytes) returns (failure: Option<Error>)
      requires Valid()
      modifies this
      ensures Valid() && cow == old(cow)
      ensures failure == if |key| == 0 then Some(EmptyKey) else if old(root).None? then Some(NilRoot)
                         else if cow == null then Some(NilPool)
                         else if old(root).value.Inter? && |old(root).value.items| == 0 then Some(IndexOutOfRange)
                         else None
      ensures failure.Some? ==> unchanged(this)
      ensures failure.None? ==> root.Some? && root.value.owner == cow
      ensures failure.None? ==> height == old(height) - (if old(root).value.Inter? && |old(root).value.items| == 1 then 1 else 0)
      ensures failure.None? ==> Items() == LeafSpec.Remove(old(Items()), key, LeafSpec.ByKey).0
      ensures failure.None? ==> Mapping() == old(Mapping()) - {key}
      ensures failure.None? ==> size == old(size) - (if key in old(Mapping()) then 1 else 0)
      ensures old(Counted()) ==> Counted()
    {
      if |key| == 0 {
        return Some(EmptyKey);
      }
      ghost var before := Items();
      LeafSpec.RemoveByKeySpec(before, key);
      ContentsHasKey(before, key);
      failure := Drop(key, LeafSpec.ByKey);
    }

    /**
     * RemoveMin (tree.go:57-59) as written: remove the first item through
     * the root as it stands, neither forked into the tree's pool nor
     * collapsed, and leave size alone (see Findings). A root without
     * separators is removed from when its lone child can lose an item, and
     * fails at the merge at index -1 otherwise (inter.go:138-142, 171-176).
     */
    method RemoveMin() returns (failure: Option<Error>)
      requires Valid()
      modifies this
      ensures Valid() && cow == old(cow) && size == old(size) && height == old(height)
      ensures failure == if old(root).None? then Some(NilRoot)
                         else if !Removable(old(root).value) then Some(IndexOutOfRange)
                         else None
      ensures failure.Some? ==> unchanged(this)
      ensures failure.None? ==> root.Some? && root.value.owner == old(root).value.owner
      ensures failure.None? ==> Items() == LeafSpec.Remove(old(Items()), [], LeafSpec.Min).0
      ensures failure.None? && old(Items()) != [] ==> Items() == old(Items())[1..]
      ensures failure.None? && old(Items()) != [] && old(Counted()) ==> !Counted()
    {
      if root.None? {
        return Some(NilRoot);
      }
      var n := root.value;
      if !Removable(n) {
        return Some(IndexOutOfRange);
      }
      RemoveStep(n, [], LeafSpec.Min, height);
      LeafSpec.RemoveMinSpec(Flatten(n), []);
      root := Some(Removal.Remove(n, [], LeafSpec.Min, height).0);
      failure := None;
    }

    /** RemoveMax (tree.go:61-63) as written: as RemoveMin, for the last item. */
    method RemoveMax() returns (failure: Option<Error>)
      requires Valid()
      modifies this
      ensures Valid() && cow == old(cow) && size == old(size) && height == old(height)
      ensures failure == if old(root).None? then Some(NilRoot)
                         else if !Removable(old(root).value) then Some(IndexOutOfRange)
                         else None
      ensures failure.Some? ==> unchanged(this)
      ensures failure.None? ==> root.Some? && root.value.owner == old(root).value.owner
      ensures failure.None? ==> Items() == LeafSpec.Remove(old(Items()), [], LeafSpec.Max).0
      ensures failure.None? && old(Items()) != [] ==> Items() == old(Items())[..|old(Items())| - 1]
      ensures failure.None? && old(Items()) != [] && old(Counted()) ==> !Counted()
    {
      if root.None? {
        return Some(NilRoot);
      }
      var n := root.value;
      if !Removable(n) {
        return Some(IndexOutOfRange);
      }
      RemoveStep(n, [], LeafSpec.Max, height);
      LeafSpec.RemoveMaxSpec(Flatten(n), []);
      root := Some(Removal.Remove(n, [], LeafSpec.Max, height).0);
      failure := None;
    }

    /**
     * RemoveMin as evidently intended: the same path as Remove, so the
     * root is forked and collapsed and size counts the removal.
     */
    method RemoveMinCounted() returns (failure: Option<Error>)
      requires Valid()
      modifies this
      ensures Valid() && cow == old(cow)
      ensures failure == if old(root).None? then Some(NilRoot) else if cow == null then Some(NilPool)
                         else if old(root).value.Inter? && |old(root).value.items| == 0 then Some(IndexOutOfRange)
                         else None
      ensures failure.Some? ==> unchanged(this)
      ensures failure.None? ==> root.Some? && root.value.owner == cow
      ensures failure.None? && old(Items()) != [] ==> Items() == old(Items())[1..]
      ensures failure.None? && old(Items()) == [] ==> Items() == []
      ensures old(Counted()) ==> Counted()
    {
      ghost var before := Items();
      LeafSpec.RemoveMinSpec(before, []);
      failure := Drop([], LeafSpec.Min);
    }

    /** RemoveMax as evidently intended: as RemoveMinCounted, for the last item. */
    method RemoveMaxCounted() returns (failure: Option<Error>)
      requires Valid()
      modifies this
      ensures Valid() && cow == old(cow)
      ensures failure == if old(root).None? then Some(NilRoot) else if cow == null then Some(NilPool)
                         else if old(root).value.Inter? && |old(root).value.items| == 0 then Some(IndexOutOfRange)
                         else None
      ensures failure.Some? ==> unchanged(this)
      ensures failure.None? ==> root.Some? && root.value.owner == cow
      ensures failure.None? && old(Items()) != [] ==> Items() == old(Items())[..|old(Items())| - 1]
      ensures failure.None? && old(Items()) == [] ==> Items() == []
      ensures old(Counted()) ==> Counted()
    {
      ghost var before := Items();
      LeafSpec.RemoveMaxSpec(before, []);
      failure := Drop([], LeafSpec.Max);
    }

    /** Reset (tree.go:81-83): drop the root; size is left as it was. */
    method Reset()
      modifies this
      ensures root == None && size == old(size) && cow == old(cow) && height == old(height)
      ensures Valid() && Items() == []
    {
      root := None;
    }

    /** Size (tree.go:85-87): while size counts the items, the number of keys the tree maps. */
    function Size(): (r: int)
      reads this
      requires Valid()
      ensures Counted() ==> r == |Mapping()|
    {
      SortedContentsSize(Items());
      size
    }

    /**
     * Get (tree.go:89-119): walk from the root to a leaf down the child
     * the mode picks, then read the key's item, or the first or last one.
     * A key the tree holds gives its value; a missing key gives the value
     * of the first item after it when that item is in the same leaf, and
     * otherwise the index panics in the source.
     */
    method Get(k: Bytes, mode: LeafSpec.Mode) returns (r: Result<Bytes>)
      requires Valid()
      ensures root.None? ==> r == Err(NilRoot)
      ensures root.Some? && mode == LeafSpec.ByKey && k in Mapping() ==> r == Ok(Mapping()[k])
      ensures root.Some? && mode == LeafSpec.ByKey && k !in Mapping() ==>
        r == Err(IndexOutOfRange) || exists p :: FirstAfter(Items(), k, p) && r == Ok(Val(Items()[p]))
      ensures root.Some? && mode == LeafSpec.Min ==>
        r == if Items() == [] then Err(IndexOutOfRange) else Ok(Val(Items()[0]))
      ensures root.Some? && mode == LeafSpec.Max ==>
        r == if Items() == [] then Err(IndexOutOfRange) else Ok(Val(Items()[|Items()| - 1]))
    {
      if root.None? {
        return Err(NilRoot);
      }
      var ns, ix, n, lo, hi := Walk(k, mode);
      var i := LeafIndex(n.items, k, mode, false);
      GetRead(root.value, ns, ix, n, k, mode, lo, hi, height);
      if 0 <= i < |n.items| {
        r := Ok(Val(n.items[i]));
      } else {
        r := Err(IndexOutOfRange);
      }
    }

    /**
     * The walk of Iter (tree.go:131-152): from the root down the child the
     * mode picks, pushing each internal node and the index taken.
     */
    method Walk(k: Bytes, mode: LeafSpec.Mode) returns (ns: seq<Node>, ix: seq<int>, n: Node,
                                                       ghost lo: Option<Bytes>, ghost hi: Option<Bytes>)
      requires Valid() && root.Some?
      ensures Routed(root.value, ns, ix, n, k, mode, lo, hi) && n.Leaf?
    {
      ns, ix, n, lo, hi := WalkFrom(root.value, k, mode, height);
    }

    /**
     * Iter (tree.go:121-188): an empty k starts at the first item (or, in
     * reverse, the last); otherwise an ascending iterator starts at the
     * first item at or after k, and a descending one at the last item at
     * or before k when the leaf the walk ends at holds one. On an empty
     * tree, or from a key above every item of its leaf, the ascending
     * iterator starts past the leaf's end, not on an item (see Findings).
     */
    method Iter(k: Bytes, stop: Bytes, reverse: bool, inclusive: bool) returns (r: Result<Cursor>)
      requires Valid()
      ensures r.Err? <==> root.None?
      ensures r.Err? ==> r.error == NilRoot
      ensures r.Ok? ==> (r.value.Ascending? <==> !reverse)
      ensures r.Ok? && !reverse ==>
        var it := r.value.up;
        && fresh(it) && it.root == root.value && it.height == height && it.stop == stop && it.inclusive == inclusive
        && it.Positioned() && it.idx != -1 && it.Items() == Items()
        && AscendsAt(Items(), |Prefix(it.nstack, it.istack)|, it.idx, k)
        && (Items() == [] ==> it.focus.items == [])
      ensures r.Ok? && reverse ==>
        var it := r.value.down;
        && fresh(it) && it.root == root.value && it.height == height && it.stop == stop && it.inclusive == inclusive
        && it.Positioned() && it.Items() == Items()
        && (|k| == 0 ==> LastAt(Items(), |Prefix(it.nstack, it.istack)|, it.idx))
        && (|k| > 0 ==> DescendsAt(Items(), |Prefix(it.nstack, it.istack)|, it.idx, k))
    {
      if root.None? {
        return Err(NilRoot);
      }
      if reverse {
        var it := StartDescend(k, stop, inclusive);
        r := Ok(Descending(it));
      } else {
        var it := StartAscend(k, stop, inclusive);
        r := Ok(Ascending(it));
      }
    }

    /** The ascending branch of Iter (tree.go:121-188) on a tree with a root. */
    method StartAscend(k: Bytes, stop: Bytes, inclusive: bool) returns (it: AscendIterator)
      requires Valid() && root.Some?
      ensures fresh(it) && it.root == root.value && it.height == height && it.stop == stop && it.inclusive == inclusive
      ensures it.Positioned() && it.idx != -1 && it.Items() == Items()
      ensures AscendsAt(Items(), |Prefix(it.nstack, it.istack)|, it.idx, k)
      ensures Items() == [] ==> it.focus.items == []
    {
      var mode := if |k| == 0 then LeafSpec.Min else LeafSpec.ByKey;
      var ns, ix, n, lo, hi := Walk(k, mode);
      var idx := LeafIndex(n.items, k, mode, false);
      AscendStart(root.value, ns, ix, n, k, mode, lo, hi);
      it := new AscendIterator(ns, ix, n, idx, stop, inclusive, root.value, height);
    }

    /** The descending branch of Iter (tree.go:121-188) on a tree with a root. */
    method StartDescend(k: Bytes, stop: Bytes, inclusive: bool) returns (it: DescendIterator)
      requires Valid() && root.Some?
      ensures fresh(it) && it.root == root.value && it.height == height && it.stop == stop && it.inclusive == inclusive
      ensures it.Positioned() && it.Items() == Items()
      ensures |k| == 0 ==> LastAt(Items(), |Prefix(it.nstack, it.istack)|, it.idx)
      ensures |k| > 0 ==> DescendsAt(Items(), |Prefix(it.nstack, it.istack)|, it.idx, k)
    {
      var mode := if |k| == 0 then LeafSpec.Max else LeafSpec.ByKey;
      var ns, ix, n, lo, hi := Walk(k, mode);
      var idx := LeafIndex(n.items, k, mode, true);
      DescendStart(root.value, ns, ix, n, k, mode, lo, hi, height);
      it := new DescendIterator(ns, ix, n, idx, stop, inclusive, root.value, height);
    }

    /**
     * The ascending Iter as evidently intended: a start just past a leaf's
     * end moves on to the next item, so the iterator sits on the first
     * item at or after k, or is exhausted when there is none.
     */
    method IterSettled(k: Bytes, stop: Bytes, inclusive: bool) returns (r: Result<AscendIterator>)
      requires Valid()
      ensures r.Err? <==> root.None?
      ensures r.Err? ==> r.error == NilRoot
      ensures r.Ok? ==>
        var it := r.value;
        && fresh(it) && it.root == root.value && it.height == height && it.stop == stop && it.inclusive == inclusive
        && it.Positioned() && it.Settled() && it.Items() == Items()
        && (it.idx == -1 <==> KeysBelow(Items(), k))
        && (it.idx != -1 ==> AscendsAt(Items(), |Prefix(it.nstack, it.istack)|, it.idx, k))
    {
      if root.None? {
        return Err(NilRoot);
      }
      var it := StartAscend(k, stop, inclusive);
      ghost var all, p := Items(), |Prefix(it.nstack, it.istack)| + it.idx;
      assert all == Flatten(it.root);
      BelowAll(all, p, k);
      if it.idx == |it.focus.items| {
        it.Climb();
      } else {
        assert it.Pos() == p;
      }
      if it.idx != -1 {
        assert all[p..][0] == all[p];
        AscendsSplit(all, |Prefix(it.nstack, it.istack)|, it.idx, p, k);
      }
      r := Ok(it);
    }
  }
}
