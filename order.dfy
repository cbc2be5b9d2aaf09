/**
 * Reusable facts about the search-tree order of Nodes: slices of sorted
 * separators keep their bounds, a run of children can be cut out of an
 * ordered node, and a run of children with its separators can be replaced
 * by another run ordered within the same outer bounds. Split, steal and
 * merge are all such replacements.
 */
module Order {
  import opened Bytes
  import opened Codec
  import opened Items
  import opened Wrappers
  import opened Nodes

  /** A key is within its own lower bound. */
  lemma LessEqRefl(k: Bytes)
    ensures LessEq(k, k)
  {
    CompareAntisymmetric(k, k);
  }

  /** The items before position at of a sorted run lie below the item at at. */
  lemma WithinBefore(s: seq<Item>, at: nat, lo: Option<Bytes>, hi: Option<Bytes>)
    requires Sorted(s) && AllWithin(s, lo, hi) && at < |s|
    ensures Sorted(s[..at]) && AllWithin(s[..at], lo, Some(Key(s[at])))
  {
    SortedSlice(s, 0, at);
    assert s[0..at] == s[..at];
    forall i | 0 <= i < at
      ensures WellFormed(s[..at][i]) && Within(Key(s[..at][i]), lo, Some(Key(s[at])))
    {
      assert s[..at][i] == s[i];
    }
  }

  /** The items from position first on lie at or above the item at at <= first. */
  lemma WithinFrom(s: seq<Item>, at: nat, first: nat, lo: Option<Bytes>, hi: Option<Bytes>)
    requires Sorted(s) && AllWithin(s, lo, hi) && at <= first <= |s| && at < |s|
    ensures Sorted(s[first..]) && AllWithin(s[first..], Some(Key(s[at])), hi)
  {
    SortedSlice(s, first, |s|);
    assert s[first..|s|] == s[first..];
    forall i | 0 <= i < |s| - first
      ensures WellFormed(s[first..][i]) && Within(Key(s[first..][i]), Some(Key(s[at])), hi)
    {
      assert s[first..][i] == s[first + i];
      if first + i == at {
        LessEqRefl(Key(s[at]));
      }
    }
  }

  /** The first item of an ordered run lies strictly above a lower bound that sorts before some other item. */
  lemma AboveLower(s: seq<Item>, at: nat, lo: Option<Bytes>, hi: Option<Bytes>)
    requires Sorted(s) && AllWithin(s, lo, hi) && 0 < at < |s|
    ensures lo.Some? ==> Less(lo.value, Key(s[at]))
  {
    if lo.Some? {
      LessEqLess(lo.value, Key(s[0]), Key(s[at]));
    }
  }

  /**
   * Children a..b of an ordered node, with the separators between them,
   * make a run ordered within the bounds of that stretch.
   */
  lemma ChildrenSlice(seps: seq<Item>, cs: seq<Node>, a: nat, b: nat, lo: Option<Bytes>, hi: Option<Bytes>)
    requires AllWellFormed(seps) && |cs| == |seps| + 1 && a <= b <= |seps|
    requires ChildrenOrdered(seps, cs, lo, hi)
    ensures AllWellFormed(seps[a..b]) && |cs[a..b + 1]| == |seps[a..b]| + 1
    ensures ChildrenOrdered(seps[a..b], cs[a..b + 1], ChildLo(seps, a, lo), ChildHi(seps, b, hi))
  {
    var s, c := seps[a..b], cs[a..b + 1];
    assert forall i :: 0 <= i < |s| ==> s[i] == seps[a + i];
    forall k | 0 <= k < |c|
      ensures Ordered(c[k], ChildLo(s, k, ChildLo(seps, a, lo)), ChildHi(s, k, ChildHi(seps, b, hi)))
    {
      assert c[k] == cs[a + k];
      assert ChildLo(s, k, ChildLo(seps, a, lo)) == ChildLo(seps, a + k, lo);
      assert ChildHi(s, k, ChildHi(seps, b, hi)) == ChildHi(seps, a + k, hi);
    }
  }

  /** Widening the bounds keeps a subtree ordered. */
  lemma {:induction false} OrderedWiden(t: Node, lo: Option<Bytes>, hi: Option<Bytes>, lo': Option<Bytes>, hi': Option<Bytes>)
    requires Ordered(t, lo, hi)
    requires lo'.Some? ==> lo.Some? && LessEq(lo'.value, lo.value)
    requires hi'.Some? ==> hi.Some? && LessEq(hi.value, hi'.value)
    ensures Ordered(t, lo', hi')
    decreases t
  {
    AllWithinWiden(t.items, lo, hi, lo', hi');
    if t.Inter? {
      var seps, cs := t.items, t.children;
      forall j | 0 <= j < |cs|
        ensures Ordered(cs[j], ChildLo(seps, j, lo'), ChildHi(seps, j, hi'))
      {
        OrderedWiden(cs[j], ChildLo(seps, j, lo), ChildHi(seps, j, hi), ChildLo(seps, j, lo'), ChildHi(seps, j, hi'));
      }
    }
  }

  /** The separators of the new node in ChildrenReplace. */
  function Spliced<T>(s: seq<T>, a: nat, b: nat, mid: seq<T>): (r: seq<T>)
    requires a <= b <= |s|
    ensures |r| == a + |mid| + |s| - b
    ensures forall i :: 0 <= i < a ==> r[i] == s[i]
    ensures forall i :: 0 <= i < |mid| ==> r[a + i] == mid[i]
    ensures forall i :: b <= i < |s| ==> r[i - b + a + |mid|] == s[i]
  {
    s[..a] + mid + s[b..]
  }

  /** Two neighbours replaced in place. */
  lemma SplicedPair<T>(s: seq<T>, a: nat, x: T, y: T)
    requires a + 2 <= |s|
    ensures Spliced(s, a, a + 2, [x, y]) == s[a := x][a + 1 := y]
  {
    var r := Spliced(s, a, a + 2, [x, y]);
    assert r[a + 0] == x && r[a + 1] == y;
    forall i | 0 <= i < |s|
      ensures r[i] == s[a := x][a + 1 := y][i]
    {
      if a + 2 <= i {
        assert r[i - (a + 2) + a + 2] == s[i];
      }
    }
  }

  /** One element replaced in place. */
  lemma SplicedOne<T>(s: seq<T>, a: nat, x: T)
    requires a < |s|
    ensures Spliced(s, a, a + 1, [x]) == s[a := x]
  {
    var r := Spliced(s, a, a + 1, [x]);
    assert r[a + 0] == x;
    forall i | 0 <= i < |s|
      ensures r[i] == s[a := x][i]
    {
      if a + 1 <= i {
        assert r[i - (a + 1) + a + 1] == s[i];
      }
    }
  }

  /** One element replaced in place and its right neighbour taken out. */
  lemma SplicedMerge<T>(s: seq<T>, a: nat, x: T)
    requires a + 2 <= |s|
    ensures Spliced(s, a, a + 2, [x]) == s[a := x][..a + 1] + s[a + 2..]
  {
    var r := Spliced(s, a, a + 2, [x]);
    var t := s[a := x][..a + 1] + s[a + 2..];
    assert r[a + 0] == x;
    forall i | 0 <= i < |r|
      ensures r[i] == t[i]
    {
      if a < i {
        assert r[(i + 1) - (a + 2) + a + 1] == s[i + 1];
      }
    }
  }

  /** Well-formed separators spliced into well-formed separators. */
  lemma SplicedWellFormed(seps: seq<Item>, a: nat, b: nat, mid: seq<Item>)
    requires AllWellFormed(seps) && AllWellFormed(mid) && a <= b <= |seps|
    ensures AllWellFormed(Spliced(seps, a, b, mid))
  {
    var s := Spliced(seps, a, b, mid);
    forall i | 0 <= i < |s|
      ensures WellFormed(s[i])
    {
      if i < a {
      } else if i < a + |mid| {
        assert s[a + (i - a)] == mid[i - a];
      } else {
        assert s[(i - a - |mid| + b) - b + a + |mid|] == seps[i - a - |mid| + b];
      }
    }
  }

  /**
   * Replacing children a..b of an ordered node, and the separators between
   * them, by a run ordered within the bounds of that stretch keeps the
   * children ordered.
   */
  lemma ChildrenReplace(seps: seq<Item>, cs: seq<Node>, a: nat, b: nat, mid: seq<Item>, ncs: seq<Node>,
                        lo: Option<Bytes>, hi: Option<Bytes>)
    requires AllWellFormed(seps) && |cs| == |seps| + 1 && a <= b <= |seps|
    requires ChildrenOrdered(seps, cs, lo, hi)
    requires AllWellFormed(mid) && |ncs| == |mid| + 1
    requires ChildrenOrdered(mid, ncs, ChildLo(seps, a, lo), ChildHi(seps, b, hi))
    ensures AllWellFormed(Spliced(seps, a, b, mid))
    ensures |Spliced(cs, a, b + 1, ncs)| == |Spliced(seps, a, b, mid)| + 1
    ensures ChildrenOrdered(Spliced(seps, a, b, mid), Spliced(cs, a, b + 1, ncs), lo, hi)
  {
    SplicedWellFormed(seps, a, b, mid);
    var s, c := Spliced(seps, a, b, mid), Spliced(cs, a, b + 1, ncs);
    forall k | 0 <= k < |c|
      ensures Ordered(c[k], ChildLo(s, k, lo), ChildHi(s, k, hi))
    {
      if k < a {
        ReplaceBefore(seps, cs, a, b, mid, ncs, lo, hi, k);
      } else if k < a + |ncs| {
        ReplaceWithin(seps, cs, a, b, mid, ncs, lo, hi, k);
      } else {
        ReplaceAfter(seps, cs, a, b, mid, ncs, lo, hi, k);
      }
    }
  }

  /** The children before the replaced run keep their bounds. */
  lemma ReplaceBefore(seps: seq<Item>, cs: seq<Node>, a: nat, b: nat, mid: seq<Item>, ncs: seq<Node>,
                      lo: Option<Bytes>, hi: Option<Bytes>, k: nat)
    requires AllWellFormed(seps) && |cs| == |seps| + 1 && a <= b <= |seps| && k < a
    requires AllWellFormed(Spliced(seps, a, b, mid))
    requires ChildrenOrdered(seps, cs, lo, hi)
    ensures Ordered(Spliced(cs, a, b + 1, ncs)[k], ChildLo(Spliced(seps, a, b, mid), k, lo), ChildHi(Spliced(seps, a, b, mid), k, hi))
  {
    var s := Spliced(seps, a, b, mid);
    assert Spliced(cs, a, b + 1, ncs)[k] == cs[k];
    assert ChildLo(s, k, lo) == ChildLo(seps, k, lo);
    assert ChildHi(s, k, hi) == ChildHi(seps, k, hi);
  }

  /** The new run's children take their bounds from the new separators and the stretch's bounds. */
  lemma ReplaceWithin(seps: seq<Item>, cs: seq<Node>, a: nat, b: nat, mid: seq<Item>, ncs: seq<Node>,
                      lo: Option<Bytes>, hi: Option<Bytes>, k: nat)
    requires AllWellFormed(seps) && |cs| == |seps| + 1 && a <= b <= |seps| && a <= k < a + |ncs|
    requires AllWellFormed(mid) && |ncs| == |mid| + 1 && AllWellFormed(Spliced(seps, a, b, mid))
    requires ChildrenOrdered(mid, ncs, ChildLo(seps, a, lo), ChildHi(seps, b, hi))
    ensures Ordered(Spliced(cs, a, b + 1, ncs)[k], ChildLo(Spliced(seps, a, b, mid), k, lo), ChildHi(Spliced(seps, a, b, mid), k, hi))
  {
    var s := Spliced(seps, a, b, mid);
    var j := k - a;
    assert Spliced(cs, a, b + 1, ncs)[a + j] == ncs[j];
    if j > 0 {
      assert s[a + (j - 1)] == mid[j - 1];
    } else if a > 0 {
      assert s[a - 1] == seps[a - 1];
    }
    if j < |mid| {
      assert s[a + j] == mid[j];
    } else if b < |seps| {
      assert s[b - b + a + |mid|] == seps[b];
    }
    assert ChildLo(s, k, lo) == ChildLo(mid, k - a, ChildLo(seps, a, lo));
    assert ChildHi(s, k, hi) == ChildHi(mid, k - a, ChildHi(seps, b, hi));
  }

  /** The children after the replaced run keep their bounds. */
  lemma ReplaceAfter(seps: seq<Item>, cs: seq<Node>, a: nat, b: nat, mid: seq<Item>, ncs: seq<Node>,
                     lo: Option<Bytes>, hi: Option<Bytes>, k: nat)
    requires AllWellFormed(seps) && |cs| == |seps| + 1 && a <= b <= |seps|
    requires |ncs| == |mid| + 1 && a + |ncs| <= k < |Spliced(cs, a, b + 1, ncs)|
    requires AllWellFormed(Spliced(seps, a, b, mid))
    requires ChildrenOrdered(seps, cs, lo, hi)
    ensures Ordered(Spliced(cs, a, b + 1, ncs)[k], ChildLo(Spliced(seps, a, b, mid), k, lo), ChildHi(Spliced(seps, a, b, mid), k, hi))
  {
    var s := Spliced(seps, a, b, mid);
    var d := k - a - |mid| + b;
    assert Spliced(cs, a, b + 1, ncs)[d - (b + 1) + a + |ncs|] == cs[d];
    assert s[(d - 1) - b + a + |mid|] == seps[d - 1];
    if d < |seps| {
      assert s[d - b + a + |mid|] == seps[d];
    }
    assert ChildLo(s, k, lo) == ChildLo(seps, d, lo);
    assert ChildHi(s, k, hi) == ChildHi(seps, d, hi);
  }

  /**
   * Replacing separators a..b by sorted separators that lie strictly
   * between the neighbours of the stretch keeps the separators sorted.
   */
  lemma SepsReplace(seps: seq<Item>, a: nat, b: nat, mid: seq<Item>)
    requires Sorted(seps) && a <= b <= |seps| && Sorted(mid)
    requires a > 0 ==> KeysAbove(mid, Key(seps[a - 1]))
    requires b < |seps| ==> KeysBelow(mid, Key(seps[b]))
    ensures Sorted(Spliced(seps, a, b, mid))
  {
    var pre, post := seps[..a], seps[b..];
    SortedSlice(seps, 0, a);
    SortedSlice(seps, b, |seps|);
    assert seps[0..a] == pre && seps[b..|seps|] == post;
    forall i, j | 0 <= i < |pre| && 0 <= j < |mid|
      ensures Less(Key(pre[i]), Key(mid[j]))
    {
      assert pre[i] == seps[i];
      if i < a - 1 {
        LessTransitive(Key(seps[i]), Key(seps[a - 1]), Key(mid[j]));
      }
    }
    SortedConcat(pre, mid);
    forall i, j | 0 <= i < |pre + mid| && 0 <= j < |post|
      ensures Less(Key((pre + mid)[i]), Key(post[j]))
    {
      assert post[j] == seps[b + j];
      if i < |pre| {
        assert (pre + mid)[i] == seps[i];
      } else {
        assert (pre + mid)[i] == mid[i - |pre|];
        if j > 0 {
          LessTransitive(Key(mid[i - |pre|]), Key(seps[b]), Key(seps[b + j]));
        }
      }
    }
    SortedConcat(pre + mid, post);
  }

  /** Items within bounds spliced into items within the same bounds. */
  lemma WithinSpliced(s: seq<Item>, a: nat, b: nat, mid: seq<Item>, lo: Option<Bytes>, hi: Option<Bytes>)
    requires AllWithin(s, lo, hi) && AllWithin(mid, lo, hi) && a <= b <= |s|
    ensures AllWithin(Spliced(s, a, b, mid), lo, hi)
  {
    var r := Spliced(s, a, b, mid);
    forall i | 0 <= i < |r|
      ensures WellFormed(r[i]) && Within(Key(r[i]), lo, hi)
    {
      if i < a {
      } else if i < a + |mid| {
        assert r[a + (i - a)] == mid[i - a];
      } else {
        assert r[(i - a - |mid| + b) - b + a + |mid|] == s[i - a - |mid| + b];
      }
    }
  }

  /** The bounds of a child of an ordered node lie within the node's bounds. */
  lemma ChildBounds(seps: seq<Item>, j: nat, lo: Option<Bytes>, hi: Option<Bytes>)
    requires AllWithin(seps, lo, hi) && j <= |seps|
    ensures lo.Some? ==> ChildLo(seps, j, lo).Some? && LessEq(lo.value, ChildLo(seps, j, lo).value)
    ensures hi.Some? ==> ChildHi(seps, j, hi).Some? && LessEq(ChildHi(seps, j, hi).value, hi.value)
  {
    if j == 0 && lo.Some? {
      LessEqRefl(lo.value);
    }
    if j == |seps| && hi.Some? {
      LessEqRefl(hi.value);
    }
  }

  /** The parts of a run within bounds are within them. */
  lemma AllWithinParts(a: seq<Item>, b: seq<Item>, lo: Option<Bytes>, hi: Option<Bytes>)
    requires AllWithin(a + b, lo, hi)
    ensures AllWithin(a, lo, hi) && AllWithin(b, lo, hi)
  {
    assert forall i :: 0 <= i < |a| ==> (a + b)[i] == a[i];
    assert forall i :: 0 <= i < |b| ==> (a + b)[|a| + i] == b[i];
  }

  /** A lower bound from one pair of bounds and an upper bound from another. */
  lemma AllWithinMeet(s: seq<Item>, lo: Option<Bytes>, hi: Option<Bytes>, lo': Option<Bytes>, hi': Option<Bytes>)
    requires AllWithin(s, lo, hi) && AllWithin(s, lo', hi')
    ensures AllWithin(s, lo, hi')
  {
  }
}
