/**
 * The copy-on-write context of tbp/cow.go: two bounded LIFO freelists of
 * node shells, one for leaves and one for internal nodes. A pool is also
 * the owner stamp on the nodes it hands out: a tree may change a node in
 * place only when the node carries the tree's pool.
 *
 * A shell is what a freed node leaves behind: its slice capacities and
 * the items still sitting in its backing array after truncation to
 * length 0.
 */
module Cow {
  import opened Codec

  /**
   * A node shell: its owner stamp, the capacity of its items slice, the
   * capacity of its children slice (0 for leaves), and the item slices
   * left in its backing array by a previous life (empty when fresh).
   */
  datatype Shell = Shell(owner: Pool?, cap: nat, childCap: nat, slots: seq<Item>)

  class Pool {
    var inters: seq<Shell>
    var leaves: seq<Shell>
    /** The capacity both freelists were made with (NewCow's max). */
    const bound: nat

    /** Freelists stay within their bound and hold only unowned shells. */
    ghost predicate Valid()
      reads this
    {
      |inters| <= bound && |leaves| <= bound &&
      (forall i :: 0 <= i < |inters| ==> inters[i].owner == null) &&
      (forall i :: 0 <= i < |leaves| ==> leaves[i].owner == null)
    }

    /** NewCow (cow.go:15-20): two empty freelists bounded by max. */
    constructor (max: nat)
      ensures Valid()
      ensures bound == max && inters == [] && leaves == []
    {
      bound := max;
      inters := [];
      leaves := [];
    }

    /**
     * newInter (cow.go:22-45): pop the most recently freed internal shell,
     * reallocating both slices when its item capacity is below max, or make
     * a fresh one; either way stamp it with this pool.
     */
    method NewInter(max: nat) returns (s: Shell)
      requires Valid()
      modifies this
      ensures Valid()
      ensures s.owner == this && s.cap >= max
      ensures leaves == old(leaves)
      ensures |old(inters)| == 0 ==> inters == [] && s == Shell(this, max, max + 1, [])
      ensures |old(inters)| > 0 ==>
        inters == old(inters[..|inters| - 1]) &&
        s == Reissued(old(inters[|inters| - 1]), max, max + 1, this)
    {
      if |inters| > 0 {
        var ret := inters[|inters| - 1];
        inters := inters[..|inters| - 1];
        s := Reissued(ret, max, max + 1, this);
      } else {
        s := Shell(this, max, max + 1, []);
      }
    }

    /**
     * freeInter (cow.go:47-57): below the bound the shell is truncated,
     * unstamped and pushed; at the bound it is dropped.
     */
    method FreeInter(n: Shell)
      requires Valid()
      modifies this
      ensures Valid()
      ensures leaves == old(leaves)
      ensures |old(inters)| < bound ==> inters == old(inters) + [n.(owner := null)]
      ensures |old(inters)| >= bound ==> inters == old(inters)
    {
      if |inters| < bound {
        inters := inters + [n.(owner := null)];
      }
    }

    /** newLeaf (cow.go:59-80): as NewInter, for the leaf freelist. */
    method NewLeaf(max: nat) returns (s: Shell)
      requires Valid()
      modifies this
      ensures Valid()
      ensures inters == old(inters)
      ensures |old(leaves)| == 0 ==> leaves == [] && s == Shell(this, max, 0, [])
      ensures |old(leaves)| > 0 ==>
        leaves == old(leaves[..|leaves| - 1]) &&
        s == Reissued(old(leaves[|leaves| - 1]), max, 0, this)
    {
      if |leaves| > 0 {
        var ret := leaves[|leaves| - 1];
        leaves := leaves[..|leaves| - 1];
        s := Reissued(ret, max, 0, this);
      } else {
        s := Shell(this, max, 0, []);
      }
    }

    /** freeLeaf (cow.go:82-91): as FreeInter, for the leaf freelist. */
    method FreeLeaf(n: Shell)
      requires Valid()
      modifies this
      ensures Valid()
      ensures inters == old(inters)
      ensures |old(leaves)| < bound ==> leaves == old(leaves) + [n.(owner := null)]
      ensures |old(leaves)| >= bound ==> leaves == old(leaves)
    {
      if |leaves| < bound {
        leaves := leaves + [n.(owner := null)];
      }
    }
  }

  /**
   * A popped shell as newInter/newLeaf hand it out: reallocated at the
   * requested capacities (losing its stale slots) when its item capacity
   * is too small, kept otherwise, and stamped with the pool.
   */
  function Reissued(s: Shell, max: nat, childCap: nat, owner: Pool): (r: Shell)
    ensures r.owner == owner && r.cap >= max
    ensures s.cap < max ==> r.cap == max && r.childCap == childCap && r.slots == []
    ensures s.cap >= max ==> r.cap == s.cap && r.childCap == s.childCap && r.slots == s.slots
  {
    if s.cap < max then Shell(owner, max, childCap, []) else s.(owner := owner)
  }
}
