/**
 * Three steps of removal from internal nodes as tbp/inter.go writes them,
 * beside the corrected versions in module Removal that the rest of the
 * model uses (the README's Findings table lists each discrepancy):
 *
 *  - stealLeft and stealRight move the sibling's child at an index taken
 *    from the PARENT's child count, and between internal nodes they rotate
 *    the sibling's own separator instead of passing the parent's separator
 *    down;
 *  - the separator repair after a child's remove passes a new first item
 *    up from child 1 instead of child 0.
 *
 * Each as-written member is a function on node values with the same
 * shape as its corrected partner, and a lemma here names an input of a
 * sound tree on which the two part ways.
 */
module AsWritten {
  import opened Bytes
  import opened Codec
  import opened Items
  import opened Wrappers
  import opened Nodes
  import opened Removal

  /**
   * stealLeft(i) as written (inter.go:70-83). Between leaves it is the
   * corrected steal. Between internal nodes the left sibling's last
   * separator goes both to the front of child i and up into separator i-1,
   * and the sibling's child at index len(n.children)-1 is moved to the
   * front of child i: a slice index out of range unless the sibling has at
   * least as many children as the parent.
   */
  function StealLeftAsWritten(n: Node, i: nat): (r: Result<Node>)
    requires n.Inter? && |n.children| == |n.items| + 1 && 0 < i < |n.children|
    requires n.children[i - 1].Leaf? == n.children[i].Leaf? && |n.children[i - 1].items| > 0
    requires n.children[i - 1].Inter? ==> |n.children[i - 1].children| == |n.children[i - 1].items| + 1
    ensures r.Err? <==> n.children[i - 1].Inter? && |n.children[i - 1].children| < |n.children|
    ensures r.Err? ==> r.error == IndexOutOfRange
    ensures n.children[i].Leaf? ==> r == Ok(StealLeft(n, i))
  {
    var right := Fork(n.children[i], n.owner);
    var left := Fork(n.children[i - 1], n.owner);
    var k := |left.items| - 1;
    var stolen := left.items[k];
    var c := |n.children| - 1;
    if left.Leaf? then
      var left' := Leaf(left.owner, left.max, ItemRemoved(left.items, k));
      var right' := Leaf(right.owner, right.max, ItemInserted(right.items, 0, false, [], stolen));
      Ok(n.(items := n.items[i - 1 := stolen], children := n.children[i - 1 := left'][i := right']))
    else if c >= |left.children| then
      Err(IndexOutOfRange)
    else
      var left' := left.(items := ItemRemoved(left.items, k), children := ChildRemoved(left.children, c));
      var right' := right.(items := ItemInserted(right.items, 0, false, [], stolen),
                           children := ChildInserted(right.children, 0, left.children[c]));
      Ok(n.(items := n.items[i - 1 := stolen], children := n.children[i - 1 := left'][i := right']))
  }

  /**
   * stealRight(i) as written (inter.go:85-98), for a right sibling that can
   * spare an item as stealRemove guarantees. Between leaves it is the
   * corrected steal. Between internal nodes the right sibling's first
   * separator goes to the end of child i, its second separator goes up into
   * separator i, and its first child is inserted into child i at index
   * len(n.children): out of range when child i has fewer children than the
   * parent, and not at the end when it has more.
   */
  function StealRightAsWritten(n: Node, i: nat): (r: Result<Node>)
    requires n.Inter? && |n.children| == |n.items| + 1 && i < |n.items|
    requires n.children[i].Leaf? == n.children[i + 1].Leaf? && |n.children[i + 1].items| > 1
    requires n.children[i + 1].Inter? ==> |n.children[i + 1].children| == |n.children[i + 1].items| + 1
    ensures r.Err? <==> n.children[i].Inter? && |n.children[i].children| < |n.children|
    ensures r.Err? ==> r.error == IndexOutOfRange
    ensures n.children[i].Leaf? ==> r == Ok(StealRight(n, i))
  {
    var left := Fork(n.children[i], n.owner);
    var right := Fork(n.children[i + 1], n.owner);
    var stolen := right.items[0];
    var rest := ItemRemoved(right.items, 0);
    var left'items := ItemInserted(left.items, |left.items|, false, [], stolen);
    if left.Leaf? then
      var left' := Leaf(left.owner, left.max, left'items);
      Ok(n.(items := n.items[i := rest[0]], children := n.children[i := left'][i + 1 := Leaf(right.owner, right.max, rest)]))
    else if |n.children| > |left.children| then
      Err(IndexOutOfRange)
    else
      var left' := left.(items := left'items, children := ChildInserted(left.children, |n.children|, right.children[0]));
      var right' := right.(items := rest, children := ChildRemoved(right.children, 0));
      Ok(n.(items := n.items[i := rest[0]], children := n.children[i := left'][i + 1 := right']))
  }

  /**
   * The separator repair after the child's remove as written
   * (inter.go:177-184): a new first item of child j > 0 overwrites
   * separator j-1 and is passed up as well when j is 1; a new first item
   * of child 0 is dropped. The node it leaves is the corrected one.
   */
  function PropagateAsWritten(n: Node, j: nat, first: Option<Item>): (r: (Node, Option<Item>))
    requires n.Inter? && |n.children| == |n.items| + 1 && j < |n.children|
    ensures r.0 == Propagate(n, j, first).0
    ensures r.1.Some? <==> first.Some? && j == 1
    ensures r.1.Some? ==> r.1 == first
  {
    match first
    case None => (n, None)
    case Some(x) => if j > 0 then (n.(items := n.items[j - 1 := x]), if j == 1 then first else None) else (n, None)
  }

  /** The first item under a non-empty ordered subtree lies within its bounds. */
  lemma OrderedFirst(t: Node, lo: Option<Bytes>, hi: Option<Bytes>)
    requires |Flatten(t)| > 0
    ensures Ordered(t, lo, hi) ==> WellFormed(Flatten(t)[0]) && Within(Key(Flatten(t)[0]), lo, hi)
  {
    if Ordered(t, lo, hi) {
      OrderedFlatten(t, lo, hi);
    }
  }

  /** A non-empty subtree cannot lie both below a key and at or above it. */
  lemma Straddle(t: Node, lo: Option<Bytes>, k: Bytes, hi: Option<Bytes>)
    requires |Flatten(t)| > 0
    ensures !(Ordered(t, lo, Some(k)) && Ordered(t, Some(k), hi))
  {
    OrderedFirst(t, lo, Some(k));
    OrderedFirst(t, Some(k), hi);
    var x := Flatten(t)[0];
    if WellFormed(x) {
      CompareAntisymmetric(Key(x), k);
    }
  }

  /** A grandchild of an ordered node is ordered within the separators around it. */
  lemma OrderedGrandchild(r: Node, j: nat, c: nat, lo: Option<Bytes>, hi: Option<Bytes>)
    requires r.Inter? && AllWellFormed(r.items) && j < |r.children| && |r.children| == |r.items| + 1
    requires r.children[j].Inter? && AllWellFormed(r.children[j].items) && c < |r.children[j].children|
    requires |r.children[j].children| == |r.children[j].items| + 1
    ensures Ordered(r, lo, hi) ==>
      Ordered(r.children[j].children[c],
              ChildLo(r.children[j].items, c, ChildLo(r.items, j, lo)),
              ChildHi(r.children[j].items, c, ChildHi(r.items, j, hi)))
  {
    if Ordered(r, lo, hi) {
      OrderedChild(r, j, lo, hi);
      OrderedChild(r.children[j], c, ChildLo(r.items, j, lo), ChildHi(r.items, j, hi));
    }
  }

  /**
   * Child j of internal node r is internal, starts with separator s and
   * subtree t, and r and that child have well-formed separators and one
   * more child than separators.
   */
  ghost predicate Leads(r: Node, j: nat, s: Item, t: Node) {
    r.Inter? && AllWellFormed(r.items) && j < |r.children| && |r.children| == |r.items| + 1 &&
    r.children[j].Inter? && AllWellFormed(r.children[j].items) && |r.children[j].items| > 0 &&
    |r.children[j].children| == |r.children[j].items| + 1 &&
    r.children[j].items[0] == s && r.children[j].children[0] == t
  }

  /**
   * Where the left steal as written lands between internal siblings when
   * the sibling has at least as many children as the parent: the sibling's
   * last separator becomes both separator i-1 and the first separator of
   * child i, in front of the sibling's child len(n.children)-1.
   */
  lemma StealLeftAsWrittenMoves(n: Node, i: nat, s: Item, t: Node) returns (r: Node)
    requires n.Inter? && |n.children| == |n.items| + 1 && 0 < i < |n.children|
    requires n.children[i - 1].Inter? && n.children[i].Inter? && |n.children[i - 1].items| > 0
    requires |n.children[i - 1].children| == |n.children[i - 1].items| + 1 >= |n.children|
    requires |n.children[i].children| == |n.children[i].items| + 1
    requires AllWellFormed(n.items) && AllWellFormed(n.children[i - 1].items) && AllWellFormed(n.children[i].items)
    requires s == n.children[i - 1].items[|n.children[i - 1].items| - 1] && t == n.children[i - 1].children[|n.children| - 1]
    ensures StealLeftAsWritten(n, i) == Ok(r)
    ensures Leads(r, i, s, t) && r.items[i - 1] == s
  {
    var left := n.children[i - 1];
    var stolen := left.items[|left.items| - 1];
    r := StealLeftAsWritten(n, i).value;
    assert r.items == n.items[i - 1 := stolen];
    assert r.children[i].items == [stolen] + n.children[i].items;
  }

  /**
   * Where the right steal as written lands between internal siblings when
   * child i has at least as many children as the parent: the right
   * sibling's second separator becomes separator i and stays first in
   * child i+1, in front of the sibling's second subtree.
   */
  lemma StealRightAsWrittenMoves(n: Node, i: nat) returns (r: Node)
    requires n.Inter? && |n.children| == |n.items| + 1 && i < |n.items|
    requires n.children[i].Inter? && n.children[i + 1].Inter? && |n.children[i + 1].items| > 1
    requires |n.children[i + 1].children| == |n.children[i + 1].items| + 1
    requires |n.children[i].children| >= |n.children|
    requires AllWellFormed(n.items) && AllWellFormed(n.children[i + 1].items)
    ensures StealRightAsWritten(n, i) == Ok(r)
    ensures Leads(r, i + 1, n.children[i + 1].items[1], n.children[i + 1].children[1])
    ensures r.items[i] == n.children[i + 1].items[1]
  {
    var right := n.children[i + 1];
    r := StealRightAsWritten(n, i).value;
    assert r.items == n.items[i := right.items[1]];
    assert r.children[i + 1].items == right.items[1..];
    assert r.children[i + 1].children == right.children[1..];
  }

  /**
   * Between internal siblings where the sibling has at least as many
   * children as the parent, the left steal as written succeeds but breaks
   * the order of a sound tree: child i then starts with the separator that
   * is also separator i-1, so the non-empty subtree moved in front of it
   * would have to sort both at or after that key and before it.
   */
  lemma StealLeftAsWrittenMisorders(n: Node, i: nat, h: nat, lo: Option<Bytes>, hi: Option<Bytes>)
    requires Shaped(n, h, n.max) && Ordered(n, lo, hi) && Filled(n) && n.Inter? && 0 < i < |n.children|
    requires n.children[i - 1].Inter? && n.children[i].Inter? && |n.children[i - 1].items| > 0
    requires |n.children[i - 1].children| == |n.children[i - 1].items| + 1 >= |n.children|
    ensures StealLeftAsWritten(n, i).Ok?
    ensures !Ordered(StealLeftAsWritten(n, i).value, lo, hi)
  {
    ShapedChild(n, i - 1, h, n.max);
    ShapedChild(n, i, h, n.max);
    var left := n.children[i - 1];
    var t := Subtree(n, i - 1, |n.children| - 1, h);
    var r := StealLeftAsWrittenMoves(n, i, left.items[|left.items| - 1], t);
    MisplacedBetween(r, i, left.items[|left.items| - 1], t, lo, hi);
  }

  /**
   * Between internal siblings where child i has at least as many children
   * as the parent, the right steal as written succeeds but breaks the order
   * of a sound tree: child i+1 then starts with the separator that is also
   * separator i, in front of the sibling's non-empty second subtree.
   */
  lemma StealRightAsWrittenMisorders(n: Node, i: nat, h: nat, lo: Option<Bytes>, hi: Option<Bytes>)
    requires Shaped(n, h, n.max) && Ordered(n, lo, hi) && Filled(n) && n.Inter? && i < |n.items|
    requires n.children[i].Inter? && n.children[i + 1].Inter? && |n.children[i + 1].items| > 1
    requires |n.children[i + 1].children| == |n.children[i + 1].items| + 1
    requires |n.children[i].children| >= |n.children|
    ensures StealRightAsWritten(n, i).Ok?
    ensures !Ordered(StealRightAsWritten(n, i).value, lo, hi)
  {
    ShapedChild(n, i + 1, h, n.max);
    var right := n.children[i + 1];
    var t := Subtree(n, i + 1, 1, h);
    var r := StealRightAsWrittenMoves(n, i);
    MisplacedBetween(r, i + 1, right.items[1], t, lo, hi);
  }

  /** Subtree c of an internal child j of a sound node holds items. */
  lemma Subtree(n: Node, j: nat, c: nat, h: nat) returns (t: Node)
    requires Shaped(n, h, n.max) && Filled(n) && n.Inter? && j < |n.children|
    requires n.children[j].Inter? && c < |n.children[j].children|
    ensures t == n.children[j].children[c] && |Flatten(t)| > 0
  {
    ShapedChild(n, j, h, n.max);
    var cj := n.children[j];
    ShapedChild(cj, c, h - 1, n.max);
    assert Filled(cj);
    t := cj.children[c];
    FilledFlatten(t, h - 2, n.max);
  }

  /**
   * A node is not ordered when its child j > 0 starts with the same
   * separator as separator j-1 in front of a non-empty subtree: that
   * subtree would lie at or after the key and before it.
   */
  lemma MisplacedBetween(r: Node, j: nat, s: Item, t: Node, lo: Option<Bytes>, hi: Option<Bytes>)
    requires 0 < j && Leads(r, j, s, t) && r.items[j - 1] == s && |Flatten(t)| > 0
    ensures !Ordered(r, lo, hi)
  {
    OrderedGrandchild(r, j, 0, lo, hi);
    Straddle(t, Some(Key(s)), Key(s), Some(Key(s)));
  }

  /**
   * When removal below child 1 of a sound node leaves x first in that
   * child, the repair as written reports x as the node's new first item,
   * although the node's first item lies under child 0 and sorts before x;
   * the corrected repair reports nothing.
   */
  lemma PropagateAsWrittenMisreports(n: Node, h: nat, x: Item, lo: Option<Bytes>, hi: Option<Bytes>)
    requires Shaped(n, h, n.max) && Ordered(n, lo, hi) && Filled(n) && n.Inter? && |n.children| > 1
    requires WellFormed(x) && Routes(n.items, 1, Key(x))
    ensures PropagateAsWritten(n, 1, Some(x)).1 == Some(x)
    ensures Propagate(n, 1, Some(x)).1 == None
    ensures |Flatten(n)| > 0 && Flatten(n)[0] != x
  {
    ShapedChild(n, 0, h, n.max);
    FilledFlatten(n.children[0], h - 1, n.max);
    ChildFrame(n, 1, Key(x), lo, hi);
    FlattenAllOne(n.children[0]);
    assert n.children[..1] == [n.children[0]];
    var y := Flatten(n)[0];
    assert y == Flatten(n.children[0])[0];
    assert WellFormed(y) && Less(Key(y), Key(x));
  }
}
