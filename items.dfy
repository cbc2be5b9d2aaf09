/**
 * Sequences of items as a node holds them (tbp/node.go): the sort order,
 * the binary search behind itemFind, and the slice edits of itemInsert and
 * itemRemove. A leaf's items are sorted by key; an internal node's items
 * are separators and are sorted the same way.
 */
module Items {
  import opened Bytes
  import opened Codec

  predicate AllWellFormed(s: seq<Item>) {
    forall i :: 0 <= i < |s| ==> WellFormed(s[i])
  }

  /** Keys strictly increase from left to right. */
  ghost predicate Sorted(s: seq<Item>) {
    AllWellFormed(s) &&
    forall i, j :: 0 <= i < j < |s| ==> Less(Key(s[i]), Key(s[j]))
  }

  /** Every key of s sorts before k. */
  ghost predicate KeysBelow(s: seq<Item>, k: Bytes) {
    forall i :: 0 <= i < |s| ==> WellFormed(s[i]) && Less(Key(s[i]), k)
  }

  /** Every key of s sorts at or after k. */
  ghost predicate KeysFrom(s: seq<Item>, k: Bytes) {
    forall i :: 0 <= i < |s| ==> WellFormed(s[i]) && LessEq(k, Key(s[i]))
  }

  /** Every key of s sorts after k. */
  ghost predicate KeysAbove(s: seq<Item>, k: Bytes) {
    forall i :: 0 <= i < |s| ==> WellFormed(s[i]) && Less(k, Key(s[i]))
  }

  /** Some item of s has key k. */
  ghost predicate HasKey(s: seq<Item>, k: Bytes) {
    exists i :: 0 <= i < |s| && WellFormed(s[i]) && Key(s[i]) == k
  }

  /**
   * The index sort.Search returns for the predicate "k sorts before the
   * key at i": the first index where it holds, or |s| when it holds nowhere.
   */
  function SearchIndex(s: seq<Item>, k: Bytes): (i: nat)
    requires AllWellFormed(s)
    ensures i <= |s|
    ensures forall j :: 0 <= j < i ==> !Less(k, Key(s[j]))
    ensures i < |s| ==> Less(k, Key(s[i]))
  {
    if s == [] || Less(k, Key(s[0])) then 0 else 1 + SearchIndex(s[1..], k)
  }

  /** Any first index where the predicate holds is the SearchIndex. */
  lemma SearchIndexUnique(s: seq<Item>, k: Bytes, i: nat)
    requires AllWellFormed(s) && i <= |s|
    requires forall j :: 0 <= j < i ==> !Less(k, Key(s[j]))
    requires i < |s| ==> Less(k, Key(s[i]))
    ensures i == SearchIndex(s, k)
  {
  }

  /** On sorted items, the predicate holds from SearchIndex on. */
  lemma SearchIndexSplits(s: seq<Item>, k: Bytes)
    requires Sorted(s)
    ensures KeysAbove(s[SearchIndex(s, k)..], k)
    ensures forall j :: 0 <= j < SearchIndex(s, k) ==> LessEq(Key(s[j]), k)
  {
    var i := SearchIndex(s, k);
    forall j | i <= j < |s|
      ensures Less(k, Key(s[j]))
    {
      if j > i {
        LessTransitive(k, Key(s[i]), Key(s[j]));
      }
    }
    forall j | 0 <= j < i
      ensures LessEq(Key(s[j]), k)
    {
      LessTotal(k, Key(s[j]));
    }
  }

  /**
   * itemFind (node.go:52-60): the index of the item with key k and true,
   * or the index where k would be inserted and false.
   */
  function Find(s: seq<Item>, k: Bytes): (r: (nat, bool))
    requires AllWellFormed(s)
  {
    var i := SearchIndex(s, k);
    if i > 0 && Key(s[i - 1]) == k then (i - 1, true) else (i, false)
  }

  /**
   * What itemFind promises on sorted items: found exactly when some item
   * has key k, at the index of that item; otherwise the index splits the
   * items into keys below k and keys above k.
   */
  lemma FindSpec(s: seq<Item>, k: Bytes)
    requires Sorted(s)
    ensures Find(s, k).0 <= |s|
    ensures Find(s, k).1 <==> HasKey(s, k)
    ensures Find(s, k).1 ==> Find(s, k).0 < |s| && Key(s[Find(s, k).0]) == k
    ensures KeysBelow(s[..Find(s, k).0], k)
    ensures Find(s, k).1 ==> KeysAbove(s[Find(s, k).0 + 1..], k)
    ensures !Find(s, k).1 ==> KeysAbove(s[Find(s, k).0..], k)
  {
    FindBelow(s, k);
    FindAbove(s, k);
    FindHasKey(s, k);
  }

  /** The part of FindSpec about the index and the keys before it. */
  lemma FindBelow(s: seq<Item>, k: Bytes)
    requires Sorted(s)
    ensures Find(s, k).0 <= |s|
    ensures Find(s, k).1 ==> Find(s, k).0 < |s| && Key(s[Find(s, k).0]) == k
    ensures KeysBelow(s[..Find(s, k).0], k)
  {
    var i := SearchIndex(s, k);
    SearchIndexSplits(s, k);
    var idx, found := Find(s, k).0, Find(s, k).1;
    forall j | 0 <= j < idx
      ensures Less(Key(s[j]), k)
    {
      if found {
        assert Less(Key(s[j]), Key(s[i - 1]));
      } else {
        assert LessEq(Key(s[j]), k);
      }
    }
  }

  /** The part of FindSpec about the keys after the index. */
  lemma FindAbove(s: seq<Item>, k: Bytes)
    requires Sorted(s)
    ensures Find(s, k).1 ==> KeysAbove(s[Find(s, k).0 + 1..], k)
    ensures !Find(s, k).1 ==> KeysAbove(s[Find(s, k).0..], k)
  {
    SearchIndexSplits(s, k);
  }

  /** The part of FindSpec about whether the key is there. */
  lemma FindHasKey(s: seq<Item>, k: Bytes)
    requires Sorted(s)
    ensures Find(s, k).1 <==> HasKey(s, k)
  {
    var i := SearchIndex(s, k);
    SearchIndexSplits(s, k);
    if HasKey(s, k) {
      var j :| 0 <= j < |s| && WellFormed(s[j]) && Key(s[j]) == k;
      assert j < i;
      assert j == i - 1;
    }
  }

  /** In sorted items, no key up to one that is not above k is above k. */
  lemma NotAboveUpTo(s: seq<Item>, k: Bytes, h: nat)
    requires Sorted(s) && h < |s| && !Less(k, Key(s[h]))
    ensures forall j :: 0 <= j <= h ==> !Less(k, Key(s[j]))
  {
    forall j | 0 <= j <= h
      ensures !Less(k, Key(s[j]))
    {
      LessTotal(k, Key(s[h]));
      LessTotal(k, Key(s[j]));
      if j < h && Less(k, Key(s[j])) {
        LessTransitive(k, Key(s[j]), Key(s[h]));
      }
    }
  }

  /**
   * itemFind (node.go:52-60) run as the source runs it: sort.Search's
   * binary search for the first key above k, then a look at its left
   * neighbour.
   */
  method ItemFind(s: seq<Item>, k: Bytes) returns (i: nat, found: bool)
    requires Sorted(s)
    ensures (i, found) == Find(s, k)
  {
    var lo, hi := 0, |s|;
    while lo < hi
      invariant 0 <= lo <= hi <= |s|
      invariant forall j :: 0 <= j < lo ==> !Less(k, Key(s[j]))
      invariant hi < |s| ==> Less(k, Key(s[hi]))
    {
      var h := (lo + hi) / 2;
      if !Less(k, Key(s[h])) {
        NotAboveUpTo(s, k, h);
        lo := h + 1;
      } else {
        hi := h;
      }
    }
    SearchIndexUnique(s, k, lo);
    if lo > 0 && Compare(Key(s[lo - 1]), k) == 0 {
      i, found := lo - 1, true;
    } else {
      i, found := lo, false;
    }
  }

  /**
   * The items after itemInsert(idx, found, key, val) (node.go:62-81). A new
   * key gets a freshly encoded item at idx, an empty key gets val stored as
   * the item itself (the raw path separators travel by); a found key keeps
   * its length prefix and key and gets val as its new value.
   */
  function ItemInserted(s: seq<Item>, idx: nat, found: bool, key: Bytes, val: Bytes): (r: seq<Item>)
    requires found ==> idx < |s| && 4 + |key| <= |s[idx]|
    requires !found ==> idx <= |s|
    ensures found ==> |r| == |s| && r[..idx] == s[..idx] && r[idx + 1..] == s[idx + 1..]
    ensures !found ==> |r| == |s| + 1 && r[..idx] == s[..idx] && r[idx + 1..] == s[idx..]
  {
    if !found then
      s[..idx] + [if |key| != 0 then Encode(key, val) else val] + s[idx..]
    else
      s[idx := s[idx][..4 + |key|] + val]
  }

  /** Well-formed runs around a well-formed item make a well-formed run. */
  lemma WellFormedSplice(pre: seq<Item>, x: Item, post: seq<Item>)
    requires AllWellFormed(pre) && WellFormed(x) && AllWellFormed(post)
    ensures AllWellFormed(pre + [x] + post)
  {
    var s := pre + [x] + post;
    forall i | 0 <= i < |s|
      ensures WellFormed(s[i])
    {
      if i < |pre| {
        assert s[i] == pre[i];
      } else if i > |pre| {
        assert s[i] == post[i - |pre| - 1];
      }
    }
  }

  /** The items after itemRemove(i) for a valid index (node.go:83-91). */
  function ItemRemoved(s: seq<Item>, i: nat): (r: seq<Item>)
    requires i < |s|
    ensures |r| == |s| - 1 && r[..i] == s[..i] && r[i..] == s[i + 1..]
    ensures i == 0 ==> r == s[1..]
    ensures i == |s| - 1 ==> r == s[..i]
  {
    s[..i] + s[i + 1..]
  }

  /** The key-to-value map a sequence of items stands for; later items win. */
  ghost function Contents(s: seq<Item>): map<Bytes, Bytes>
    requires AllWellFormed(s)
  {
    if s == [] then map[] else Contents(s[..|s| - 1])[Key(s[|s| - 1]) := Val(s[|s| - 1])]
  }

  /** The contents of a concatenation are the union, the right side winning. */
  lemma {:induction false} ContentsConcat(a: seq<Item>, b: seq<Item>)
    requires AllWellFormed(a) && AllWellFormed(b)
    ensures AllWellFormed(a + b)
    ensures Contents(a + b) == Contents(a) + Contents(b)
  {
    if b != [] {
      var b' := b[..|b| - 1];
      assert (a + b)[..|a + b| - 1] == a + b';
      assert (a + b)[|a + b| - 1] == b[|b| - 1];
      ContentsConcat(a, b');
    } else {
      assert a + b == a;
    }
  }

  /** A key is in the contents exactly when some item carries it. */
  lemma {:induction false} ContentsHasKey(s: seq<Item>, k: Bytes)
    requires AllWellFormed(s)
    ensures k in Contents(s) <==> HasKey(s, k)
  {
    if s != [] {
      var s' := s[..|s| - 1];
      ContentsHasKey(s', k);
      if HasKey(s, k) && Key(s[|s| - 1]) != k {
        var j :| 0 <= j < |s| && WellFormed(s[j]) && Key(s[j]) == k;
        assert s'[j] == s[j];
      }
      if HasKey(s', k) {
        var j :| 0 <= j < |s'| && WellFormed(s'[j]) && Key(s'[j]) == k;
        assert s[j] == s'[j];
      }
    }
  }

  /** Slices of well-formed, sorted items are well-formed and sorted. */
  lemma SortedSlice(s: seq<Item>, lo: nat, hi: nat)
    requires Sorted(s) && lo <= hi <= |s|
    ensures Sorted(s[lo..hi])
  {
    assert forall i :: 0 <= i < hi - lo ==> s[lo..hi][i] == s[lo + i];
  }

  /** Two sorted runs, all of the first below all of the second, concatenate sorted. */
  lemma SortedConcat(a: seq<Item>, b: seq<Item>)
    requires Sorted(a) && Sorted(b)
    requires forall i, j :: 0 <= i < |a| && 0 <= j < |b| ==> Less(Key(a[i]), Key(b[j]))
    ensures Sorted(a + b)
  {
  }

  /** In sorted items, the contents give each item's own value. */
  lemma {:induction false} ContentsAt(s: seq<Item>, i: nat)
    requires Sorted(s) && i < |s|
    ensures Key(s[i]) in Contents(s) && Contents(s)[Key(s[i])] == Val(s[i])
  {
    var s' := s[..|s| - 1];
    if i < |s| - 1 {
      SortedSlice(s, 0, |s| - 1);
      ContentsAt(s', i);
      assert Key(s[i]) != Key(s[|s| - 1]);
    }
  }

  /** Concatenation regrouped, for proofs where the solver will not regroup on its own. */
  lemma Regroup<T>(a: seq<T>, b: seq<T>, x: seq<T>, d: seq<T>, c: seq<T>)
    ensures (a + b) + x + (d + c) == a + (b + x + d) + c
  {
  }

  /** Sorted runs joined, with every key of the first below every key of the second. */
  lemma SortedJoin(pre: seq<Item>, post: seq<Item>, k: Bytes)
    requires Sorted(pre) && Sorted(post)
    requires KeysBelow(pre, k) && KeysFrom(post, k)
    ensures Sorted(pre + post)
  {
    var s := pre + post;
    forall i, j | 0 <= i < j < |s|
      ensures Less(Key(s[i]), Key(s[j]))
    {
      if i < |pre| && j >= |pre| {
        assert s[i] == pre[i] && s[j] == post[j - |pre|];
        LessLessEq(Key(pre[i]), k, Key(post[j - |pre|]));
      } else if i < |pre| {
        assert s[i] == pre[i] && s[j] == pre[j];
      } else {
        assert s[i] == post[i - |pre|] && s[j] == post[j - |pre|];
      }
    }
  }

  /** An item placed between the keys below it and the keys above it keeps the run sorted. */
  lemma SortedSplice(pre: seq<Item>, x: Item, post: seq<Item>)
    requires Sorted(pre) && Sorted(post) && WellFormed(x)
    requires KeysBelow(pre, Key(x)) && KeysAbove(post, Key(x))
    ensures Sorted(pre + [x] + post)
  {
    SortedJoin(pre, [x], Key(x));
    forall i | 0 <= i < |pre + [x]|
      ensures WellFormed((pre + [x])[i])
    {
    }
    if post != [] {
      var k := Key(post[0]);
      forall i | 0 <= i < |pre + [x]|
        ensures Less(Key((pre + [x])[i]), k)
      {
        if i < |pre| {
          assert (pre + [x])[i] == pre[i];
          LessTransitive(Key(pre[i]), Key(x), k);
        }
      }
      forall i | 0 <= i < |post|
        ensures LessEq(k, Key(post[i]))
      {
      }
      SortedJoin(pre + [x], post, k);
    } else {
      assert pre + [x] + post == pre + [x];
    }
  }

  /**
   * The contents of pre + [x] + post are those of pre + mid + post with
   * x's key mapped to x's value, when neither pre nor post holds that key.
   */
  lemma ContentsSplice(pre: seq<Item>, mid: seq<Item>, x: Item, post: seq<Item>)
    requires AllWellFormed(pre) && AllWellFormed(mid) && AllWellFormed(post) && WellFormed(x)
    requires !HasKey(pre, Key(x)) && !HasKey(post, Key(x))
    requires mid == [] || (|mid| == 1 && Key(mid[0]) == Key(x))
    ensures AllWellFormed(pre + [x] + post) && AllWellFormed(pre + mid + post)
    ensures Contents(pre + [x] + post) == Contents(pre + mid + post)[Key(x) := Val(x)]
  {
    var k, v := Key(x), Val(x);
    var A, B := Contents(pre), Contents(post);
    ContentsConcat(pre, [x]);
    ContentsConcat(pre + [x], post);
    ContentsConcat(pre, mid);
    ContentsConcat(pre + mid, post);
    ContentsHasKey(post, k);
    ContentsHasKey(pre, k);
    assert Contents([x]) == map[k := v] by {
      assert [x][..0] == [];
    }
    var M := if mid == [] then A else A[k := Val(mid[0])];
    if mid != [] {
      assert Contents(mid) == map[k := Val(mid[0])] by {
        assert mid[..0] == [];
      }
      assert A + Contents(mid) == M;
    } else {
      assert pre + mid == pre;
    }
    assert Contents(pre + [x] + post) == A[k := v] + B;
    assert Contents(pre + mid + post) == M + B;
    UpdateThroughUnion(A, B, k, v);
    if mid != [] {
      UpdateTwice(A, k, Val(mid[0]), v);
      UpdateThroughUnion(M, B, k, v);
    }
  }

  lemma UpdateThroughUnion<K, V>(A: map<K, V>, B: map<K, V>, k: K, v: V)
    requires k !in B
    ensures A[k := v] + B == (A + B)[k := v]
  {
  }

  lemma UpdateTwice<K, V>(A: map<K, V>, k: K, w: V, v: V)
    ensures A[k := w][k := v] == A[k := v]
  {
  }

  /**
   * The contents of pre + post are those of pre + [x] + post without x's
   * key, when neither pre nor post holds that key.
   */
  lemma ContentsCut(pre: seq<Item>, x: Item, post: seq<Item>)
    requires AllWellFormed(pre) && WellFormed(x) && AllWellFormed(post)
    requires !HasKey(pre, Key(x)) && !HasKey(post, Key(x))
    ensures AllWellFormed(pre + post) && AllWellFormed(pre + [x] + post)
    ensures Contents(pre + post) == Contents(pre + [x] + post) - {Key(x)}
  {
    ContentsConcat(pre, post);
    ContentsConcat(pre, [x]);
    ContentsConcat(pre + [x], post);
    ContentsHasKey(post, Key(x));
    ContentsHasKey(pre, Key(x));
    assert Contents([x]) == map[Key(x) := Val(x)] by {
      assert [x][..0] == [];
    }
    RemoveThroughUnion(Contents(pre), Contents(post), Key(x), Val(x));
  }

  lemma RemoveAbsent<K, V>(A: map<K, V>, k: K)
    requires k !in A
    ensures A - {k} == A
  {
  }

  lemma RemoveThroughUnion<K, V>(A: map<K, V>, B: map<K, V>, k: K, v: V)
    requires k !in A && k !in B
    ensures A + B == (A + map[k := v] + B) - {k}
  {
  }

  /** Both halves of a sorted run are sorted. */
  lemma SortedHalves(a: seq<Item>, b: seq<Item>)
    requires Sorted(a + b)
    ensures Sorted(a) && Sorted(b)
  {
    var s := a + b;
    assert forall i :: 0 <= i < |a| ==> s[i] == a[i];
    assert forall i :: 0 <= i < |b| ==> s[|a| + i] == b[i];
  }

  /**
   * Putting x where the keys below it end and the keys above it begin,
   * replacing mid (nothing, or the one item with x's key), keeps the run
   * sorted and maps x's key to x's value.
   */
  lemma PutItem(pre: seq<Item>, mid: seq<Item>, x: Item, post: seq<Item>)
    requires Sorted(pre + mid + post) && WellFormed(x)
    requires mid == [] || (|mid| == 1 && WellFormed(mid[0]) && Key(mid[0]) == Key(x))
    requires KeysBelow(pre, Key(x)) && KeysAbove(post, Key(x))
    ensures Sorted(pre + [x] + post)
    ensures Contents(pre + [x] + post) == Contents(pre + mid + post)[Key(x) := Val(x)]
  {
    SortedHalves(pre + mid, post);
    SortedHalves(pre, mid);
    SortedSplice(pre, x, post);
    BelowLacks(pre, Key(x));
    AboveLacks(post, Key(x));
    ContentsSplice(pre, mid, x, post);
  }

  /** The parts of a sorted run around one of its items. */
  lemma SortedParts(pre: seq<Item>, x: Item, post: seq<Item>)
    requires Sorted(pre + [x] + post)
    ensures Sorted(pre) && Sorted(post) && WellFormed(x)
    ensures KeysBelow(pre, Key(x)) && KeysAbove(post, Key(x))
  {
    var s := pre + [x] + post;
    assert forall i :: 0 <= i < |pre| ==> s[i] == pre[i];
    assert forall i :: 0 <= i < |post| ==> s[|pre| + 1 + i] == post[i];
    assert s[|pre|] == x;
  }

  /**
   * Taking one item out of a sorted run keeps it sorted and drops exactly
   * that item's key from the contents.
   */
  lemma CutItem(pre: seq<Item>, x: Item, post: seq<Item>)
    requires Sorted(pre + [x] + post)
    ensures WellFormed(x) && Sorted(pre + post)
    ensures Contents(pre + post) == Contents(pre + [x] + post) - {Key(x)}
  {
    SortedParts(pre, x, post);
    forall i | 0 <= i < |post|
      ensures LessEq(Key(x), Key(post[i]))
    {
    }
    SortedJoin(pre, post, Key(x));
    BelowLacks(pre, Key(x));
    AboveLacks(post, Key(x));
    ContentsCut(pre, x, post);
  }

  /** No key of s equals a bound all of them sort before. */
  lemma BelowLacks(s: seq<Item>, k: Bytes)
    requires KeysBelow(s, k)
    ensures !HasKey(s, k)
  {
  }

  /** No key of s equals a bound all of them sort after. */
  lemma AboveLacks(s: seq<Item>, k: Bytes)
    requires KeysAbove(s, k)
    ensures !HasKey(s, k)
  {
  }

  /** Sorted items carry distinct keys: their contents hold one key per item. */
  lemma {:induction false} SortedContentsSize(s: seq<Item>)
    requires Sorted(s)
    ensures |Contents(s)| == |s|
  {
    if s != [] {
      var s', x := s[..|s| - 1], s[|s| - 1];
      SortedSlice(s, 0, |s| - 1);
      assert s[0..|s| - 1] == s';
      SortedContentsSize(s');
      ContentsHasKey(s', Key(x));
      assert !HasKey(s', Key(x)) by {
        forall j | 0 <= j < |s'|
          ensures Key(s'[j]) != Key(x)
        {
          assert s'[j] == s[j];
        }
      }
      assert Contents(s).Keys == Contents(s').Keys + {Key(x)};
    }
  }
}
