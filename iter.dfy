/**
 * The range iterators of tbp/iter.go. An iterator keeps the walk from the
 * root to its leaf (nstack, istack), the leaf (focus) and an index into it
 * (idx, -1 once exhausted), and a stop key with its inclusiveness. Its
 * position is its index among all the items of the tree it walks, which
 * is a snapshot: nodes are values, so later changes to the tree do not
 * reach it.
 */
module Iterators {
  import opened Bytes
  import opened Codec
  import opened Items
  import opened Wrappers
  import opened Nodes
  import opened Rebalance
  import opened Paths

  /** AscendIterator (iter.go:16-23): walks items in increasing key order. */
  class AscendIterator {
    var nstack: seq<Node>
    var istack: seq<int>
    var focus: Node
    var idx: int
    const stop: Bytes
    const inclusive: bool
    /** The root the walk starts from, and its height. */
    ghost const root: Node
    ghost const height: nat

    /**
     * The stacks are a walk from the root to focus; a live iterator sits
     * on a leaf at an item or just past its last one (where Iter can leave
     * it, see Findings).
     */
    ghost predicate Positioned()
      reads this
    {
      Sound(root, height) && Path(root, nstack, istack, focus) &&
      (idx != -1 ==> focus.Leaf? && 0 <= idx <= |focus.items|)
    }

    /** The iterator is exhausted or on an item. */
    ghost predicate Settled()
      reads this
    {
      idx == -1 || idx < |focus.items|
    }

    /** The tree's items in key order. */
    ghost function Items(): seq<Item>
      reads this
      requires Positioned()
    {
      TreeItems(root, height)
    }

    /** The iterator's index among the tree's items. */
    ghost function Pos(): (p: nat)
      reads this
      requires Positioned() && idx != -1
      ensures p <= |Items()| && (idx < |focus.items| ==> p < |Items()| && Items()[p] == focus.items[idx])
    {
      if idx < |focus.items| then
        PathItem(root, nstack, istack, focus, idx);
        |Prefix(nstack, istack)| + idx
      else
        PathEnd(root, nstack, istack, focus);
        |Prefix(nstack, istack)| + idx
    }

    constructor (nstack: seq<Node>, istack: seq<int>, focus: Node, idx: int, stop: Bytes, inclusive: bool,
                 ghost root: Node, ghost height: nat)
      requires Sound(root, height) && Path(root, nstack, istack, focus)
      requires idx != -1 ==> focus.Leaf? && 0 <= idx <= |focus.items|
      ensures this.nstack == nstack && this.istack == istack && this.focus == focus && this.idx == idx
      ensures this.stop == stop && this.inclusive == inclusive && this.root == root && this.height == height
      ensures Positioned() && Items() == Flatten(root)
      ensures idx != -1 ==> Pos() == |Prefix(nstack, istack)| + idx
    {
      this.nstack, this.istack, this.focus, this.idx := nstack, istack, focus, idx;
      this.stop, this.inclusive := stop, inclusive;
      this.root, this.height := root, height;
    }

    /** GetKey (iter.go:25-27): the key of the current item; off an item the source panics. */
    function GetKey(): (r: Result<Bytes>)
      reads this
      requires Positioned()
      ensures r.Ok? <==> idx != -1 && idx < |focus.items|
      ensures r.Ok? ==> r.value == Key(Items()[Pos()])
    {
      if 0 <= idx < |focus.items| then
        PathShaped(root, nstack, istack, focus, height, root.max);
        Ok(Key(focus.items[idx]))
      else Err(IndexOutOfRange)
    }

    /** GetVal (iter.go:29-31): the value of the current item. */
    function GetVal(): (r: Result<Bytes>)
      reads this
      requires Positioned()
      ensures r.Ok? <==> idx != -1 && idx < |focus.items|
      ensures r.Ok? ==> r.value == Val(Items()[Pos()])
    {
      if 0 <= idx < |focus.items| then
        PathShaped(root, nstack, istack, focus, height, root.max);
        Ok(Val(focus.items[idx]))
      else Err(IndexOutOfRange)
    }

    /** Get (iter.go:33-35): key and value of the current item, as GetKey and GetVal give them. */
    function Get(): (r: Result<(Bytes, Bytes)>)
      reads this
      requires Positioned()
      ensures r.Ok? <==> GetKey().Ok? && GetVal().Ok?
      ensures r.Ok? ==> r.value == (GetKey().value, GetVal().value)
    {
      if 0 <= idx < |focus.items| then
        PathShaped(root, nstack, istack, focus, height, root.max);
        Ok((Key(focus.items[idx]), Val(focus.items[idx])))
      else Err(IndexOutOfRange)
    }

    /**
     * Valid (iter.go:37-47): not exhausted and, under a stop key, the
     * current key sorts before it (at or before it when inclusive). Reading
     * the key just past a leaf's end panics in the source.
     */
    function Valid(): (r: Result<bool>)
      reads this
      requires Positioned()
      ensures r.Err? <==> |stop| > 0 && idx != -1 && idx == |focus.items|
      ensures r.Ok? && idx == -1 ==> !r.value
      ensures r.Ok? && idx != -1 && |stop| == 0 ==> r.value
      ensures r.Ok? && idx != -1 && |stop| > 0 ==>
        (r.value <==> if inclusive then LessEq(Key(Items()[Pos()]), stop) else Less(Key(Items()[Pos()]), stop))
    {
      if |stop| == 0 then Ok(idx != -1)
      else if idx == -1 then Ok(false)
      else match GetKey()
        case Err(e) => Err(e)
        case Ok(k) => Ok(if inclusive then Compare(k, stop) <= 0 else Compare(k, stop) < 0)
    }

    /**
     * Next (iter.go:49-70): step to the next item in the leaf, or climb
     * to the next leaf; the iterator moves one item on (from just past a
     * leaf's end, onto the item after it) or is exhausted when none is left.
     */
    method Next()
      requires Positioned() && idx != -1
      modifies this
      ensures Positioned() && Settled()
      ensures idx != -1 ==> Pos() == old(if idx < |focus.items| then Pos() + 1 else Pos())
      ensures idx == -1 <==> old(if idx < |focus.items| then Pos() + 1 else Pos()) == |Items()|
    {
      idx := idx + 1;
      if idx < |focus.items| {
        return;
      }
      Climb();
    }

    /**
     * The climb of Next (iter.go:54-69), once every item of the leaf is
     * behind: pop the stacks to the nearest node with a child right of the
     * one the walk came from, go down the leftmost path under that child
     * and stop at its first item; with nothing left, idx becomes -1.
     */
    method Climb()
      requires Sound(root, height) && Path(root, nstack, istack, focus) && focus.Leaf?
      modifies this
      ensures Positioned() && Settled()
      ensures idx != -1 ==> |Prefix(nstack, istack)| + idx == old(|Prefix(nstack, istack)| + |focus.items|)
      ensures idx == -1 <==> old(|Prefix(nstack, istack)| + |focus.items|) == |Flatten(root)|
    {
      var ns, ix, f, c := Ancestor();
      if c != -1 {
        nstack, istack, focus, idx := ns, ix, f, c;
        Leftmost();
      } else {
        PathFlatten(root, ns, ix, f);
        nstack, istack, focus, idx := ns, ix, f, -1;
      }
    }

    /**
     * The pops of Next (iter.go:54-58): the nearest node of the walk with a
     * child c right of the one the walk came from, and the walk to it; c is
     * -1, and the walk the empty one to the root, when there is none. The
     * items left of child c are those left of the leaf and in it.
     */
    method Ancestor() returns (ns: seq<Node>, ix: seq<int>, f: Node, c: int)
      requires Sound(root, height) && Path(root, nstack, istack, focus) && focus.Leaf?
      ensures Path(root, ns, ix, f)
      ensures c != -1 ==> f.Inter? && 0 <= c < |f.children|
      ensures c != -1 ==> |Prefix(ns, ix)| + |FlattenAll(f.children[..c])| == |Prefix(nstack, istack)| + |focus.items|
      ensures c == -1 ==> ns == [] && |Flatten(f)| == |Prefix(nstack, istack)| + |focus.items|
    {
      ghost var target := |Prefix(nstack, istack)| + |focus.items|;
      ns, ix, f := nstack, istack, focus;
      while |ns| != 0
        invariant Path(root, ns, ix, f)
        invariant |Prefix(ns, ix)| + |Flatten(f)| == target
        decreases |ns|
      {
        var p, i := ns[|ns| - 1], ix[|ix| - 1];
        PathClimb(root, ns, ix, f, ns[..|ns| - 1], ix[..|ix| - 1], p, i);
        ns, ix, f := ns[..|ns| - 1], ix[..|ix| - 1], p;
        PathShaped(root, ns, ix, f, height, root.max);
        if i + 1 <= |f.items| {
          return ns, ix, f, i + 1;
        }
        assert f.children[..i + 1] == f.children;
      }
      c := -1;
    }

    /**
     * The descent of Next (iter.go:59-64): from child idx of an internal
     * node, push each node and go down its first child to a leaf, and sit
     * on the leaf's first item.
     */
    method Leftmost()
      requires Sound(root, height) && Path(root, nstack, istack, focus)
      requires focus.Inter? && 0 <= idx < |focus.children|
      modifies this
      ensures Positioned() && Settled() && idx != -1
      ensures Pos() == old(|Prefix(nstack, istack)| + |FlattenAll(focus.children[..idx])|)
    {
      ghost var target := |Prefix(nstack, istack)| + |FlattenAll(focus.children[..idx])|;
      var ns, ix, f, i := nstack, istack, focus, idx;
      while f.Inter?
        invariant Path(root, ns, ix, f)
        invariant f.Inter? ==> (0 <= i < |f.children| && |Prefix(ns, ix)| + |FlattenAll(f.children[..i])| == target)
        invariant f.Leaf? ==> (i == 0 && |Prefix(ns, ix)| == target && ns != [])
        decreases height - |ns|
      {
        PathShaped(root, ns, ix, f, height, root.max);
        PathPush(root, ns, ix, f, i);
        ns, ix := ns + [f], ix + [i];
        f, i := f.children[i], 0;
        PathShaped(root, ns, ix, f, height, root.max);
        if f.Inter? {
          assert f.children[..0] == [];
        }
      }
      nstack, istack, focus, idx := ns, ix, f, i;
      PathShaped(root, nstack, istack, focus, height, root.max);
    }
  }

  /** DescendIterator (iter.go:72-79): walks items in decreasing key order. */
  class DescendIterator {
    var nstack: seq<Node>
    var istack: seq<int>
    var focus: Node
    const stop: Bytes
    var idx: int
    const inclusive: bool
    /** The root the walk starts from, and its height. */
    ghost const root: Node
    ghost const height: nat

    /** The stacks are a walk from the root to focus; a live iterator sits on an item of a leaf. */
    ghost predicate Positioned()
      reads this
    {
      Sound(root, height) && Path(root, nstack, istack, focus) &&
      (idx != -1 ==> focus.Leaf? && 0 <= idx < |focus.items|)
    }

    /** The tree's items in key order. */
    ghost function Items(): seq<Item>
      reads this
      requires Positioned()
    {
      TreeItems(root, height)
    }

    /** The iterator's index among the tree's items. */
    ghost function Pos(): (p: nat)
      reads this
      requires Positioned() && idx != -1
      ensures p < |Items()| && Items()[p] == focus.items[idx]
    {
      PathItem(root, nstack, istack, focus, idx);
      |Prefix(nstack, istack)| + idx
    }

    constructor (nstack: seq<Node>, istack: seq<int>, focus: Node, idx: int, stop: Bytes, inclusive: bool,
                 ghost root: Node, ghost height: nat)
      requires Sound(root, height) && Path(root, nstack, istack, focus)
      requires idx != -1 ==> focus.Leaf? && 0 <= idx < |focus.items|
      ensures this.nstack == nstack && this.istack == istack && this.focus == focus && this.idx == idx
      ensures this.stop == stop && this.inclusive == inclusive && this.root == root && this.height == height
      ensures Positioned() && Items() == Flatten(root)
      ensures idx != -1 ==> Pos() == |Prefix(nstack, istack)| + idx
    {
      this.nstack, this.istack, this.focus, this.idx := nstack, istack, focus, idx;
      this.stop, this.inclusive := stop, inclusive;
      this.root, this.height := root, height;
    }

    /** GetKey (iter.go:81-83): the key of the current item; an exhausted iterator panics in the source. */
    function GetKey(): (r: Result<Bytes>)
      reads this
      requires Positioned()
      ensures r.Ok? <==> idx != -1
      ensures r.Ok? ==> r.value == Key(Items()[Pos()])
    {
      if idx != -1 then
        PathShaped(root, nstack, istack, focus, height, root.max);
        Ok(Key(focus.items[idx]))
      else Err(IndexOutOfRange)
    }

    /** GetVal (iter.go:85-87): the value of the current item. */
    function GetVal(): (r: Result<Bytes>)
      reads this
      requires Positioned()
      ensures r.Ok? <==> idx != -1
      ensures r.Ok? ==> r.value == Val(Items()[Pos()])
    {
      if idx != -1 then
        PathShaped(root, nstack, istack, focus, height, root.max);
        Ok(Val(focus.items[idx]))
      else Err(IndexOutOfRange)
    }

    /** Get (iter.go:89-91): key and value of the current item, as GetKey and GetVal give them. */
    function Get(): (r: Result<(Bytes, Bytes)>)
      reads this
      requires Positioned()
      ensures r.Ok? <==> GetKey().Ok? && GetVal().Ok?
      ensures r.Ok? ==> r.value == (GetKey().value, GetVal().value)
    {
      if idx != -1 then
        PathShaped(root, nstack, istack, focus, height, root.max);
        Ok((Key(focus.items[idx]), Val(focus.items[idx])))
      else Err(IndexOutOfRange)
    }

    /**
     * Valid (iter.go:93-103): not exhausted and, under a stop key, the
     * current key sorts after it (at or after it when inclusive).
     */
    function Valid(): (r: bool)
      reads this
      requires Positioned()
      ensures idx == -1 ==> !r
      ensures idx != -1 && |stop| == 0 ==> r
      ensures idx != -1 && |stop| > 0 ==>
        (r <==> if inclusive then LessEq(stop, Key(Items()[Pos()])) else Less(stop, Key(Items()[Pos()])))
    {
      if |stop| == 0 then idx != -1
      else if idx == -1 then false
      else
        var k := GetKey().value;
        CompareAntisymmetric(k, stop);
        if inclusive then Compare(k, stop) >= 0 else Compare(k, stop) > 0
    }

    /**
     * Next (iter.go:105-127): step to the previous item in the leaf, or
     * climb to the previous leaf; the iterator moves one item back, or is
     * exhausted when it was on the first item.
     */
    method Next()
      requires Positioned() && idx != -1
      modifies this
      ensures Positioned()
      ensures idx != -1 ==> Pos() == old(Pos()) - 1
      ensures idx == -1 <==> old(Pos()) == 0
    {
      idx := idx - 1;
      if idx >= 0 {
        return;
      }
      Climb();
    }

    /**
     * The climb of Next (iter.go:109-124), once the leaf's first item is
     * behind: pop the stacks to the nearest node with a child left of the
     * one the walk came from, go down the rightmost path under that child
     * and stop at its last item; with nothing left, idx becomes -1.
     */
    method Climb()
      requires Sound(root, height) && Path(root, nstack, istack, focus)
      modifies this
      ensures Positioned()
      ensures idx != -1 ==> |Prefix(nstack, istack)| + idx == old(|Prefix(nstack, istack)|) - 1
      ensures idx == -1 <==> old(|Prefix(nstack, istack)|) == 0
    {
      var ns, ix, f, c := Ancestor();
      if c != -1 {
        var ns', ix', f' := Rightmost(ns, ix, f, c);
        nstack, istack, focus, idx := ns', ix', f', |f'.items| - 1;
      } else {
        nstack, istack, focus, idx := ns, ix, f, -1;
      }
    }

    /**
     * The pops of Next (iter.go:109-114): the nearest node of the walk with
     * a child c left of the one the walk came from, and the walk to it; c
     * is -1, and the walk the empty one to the root, when there is none.
     * The items left of the leaf are those left of child c and under it.
     */
    method Ancestor() returns (ns: seq<Node>, ix: seq<int>, f: Node, c: int)
      requires Sound(root, height) && Path(root, nstack, istack, focus)
      ensures Path(root, ns, ix, f)
      ensures c != -1 ==> f.Inter? && 0 <= c < |f.children|
      ensures c != -1 ==> |Prefix(ns, ix)| + |FlattenAll(f.children[..c + 1])| == |Prefix(nstack, istack)|
      ensures c == -1 ==> ns == [] && |Prefix(nstack, istack)| == 0
    {
      ghost var target := |Prefix(nstack, istack)|;
      ns, ix, f := nstack, istack, focus;
      while |ns| != 0
        invariant Path(root, ns, ix, f)
        invariant |Prefix(ns, ix)| == target
        decreases |ns|
      {
        var q, i := ns[|ns| - 1], ix[|ix| - 1];
        PathClimb(root, ns, ix, f, ns[..|ns| - 1], ix[..|ix| - 1], q, i);
        ns, ix, f := ns[..|ns| - 1], ix[..|ix| - 1], q;
        if i >= 1 {
          assert f.children[..(i - 1) + 1] == f.children[..i];
          return ns, ix, f, i - 1;
        }
        assert f.children[..i] == [];
      }
      c := -1;
    }

    /**
     * The descent of Next (iter.go:115-121): from child c of an internal
     * node f at the end of a walk, push each node and go down its last
     * child to a leaf. The items left of that leaf and in it are those left
     * of f and under its children up to c.
     */
    method Rightmost(ns: seq<Node>, ix: seq<int>, f: Node, c: int) returns (ns': seq<Node>, ix': seq<int>, f': Node)
      requires Sound(root, height) && Path(root, ns, ix, f)
      requires f.Inter? && 0 <= c < |f.children|
      ensures Path(root, ns', ix', f') && f'.Leaf? && 0 < |f'.items|
      ensures |Prefix(ns', ix')| + |f'.items| == |Prefix(ns, ix)| + |FlattenAll(f.children[..c + 1])|
    {
      PathDescend(root, ns, ix, f, c);
      ns', ix', f' := LastLeaf(ns + [f], ix + [c], f.children[c]);
    }

    /**
     * The loop of the descent (iter.go:115-120): from the end f0 of a walk,
     * go down last children to a leaf; the items left of the longer walk
     * and in its leaf are those left of the walk and under f0.
     */
    method LastLeaf(ns0: seq<Node>, ix0: seq<int>, f0: Node) returns (ns: seq<Node>, ix: seq<int>, f: Node)
      requires Sound(root, height) && Path(root, ns0, ix0, f0) && ns0 != []
      ensures Path(root, ns, ix, f) && f.Leaf? && ns != [] && 0 < |f.items|
      ensures |Prefix(ns, ix)| + |f.items| == |Prefix(ns0, ix0)| + |Flatten(f0)|
    {
      PathShaped(root, ns0, ix0, f0, height, root.max);
      ns, ix, f := ns0, ix0, f0;
      while f.Inter?
        invariant Path(root, ns, ix, f) && ns != [] && |ns| <= height
        invariant |Prefix(ns, ix)| + |Flatten(f)| == |Prefix(ns0, ix0)| + |Flatten(f0)|
        decreases height - |ns|
      {
        PathShaped(root, ns, ix, f, height, root.max);
        var c := |f.children| - 1;
        PathDescend(root, ns, ix, f, c);
        assert f.children[..c + 1] == f.children;
        PathShaped(root, ns + [f], ix + [c], f.children[c], height, root.max);
        ns, ix, f := ns + [f], ix + [c], f.children[c];
      }
      PathShaped(root, ns, ix, f, height, root.max);
    }
  }
}
