/**
 * What a leaf does to its items (tbp/leaf.go), on values. A whole tree is
 * proved to behave like one big leaf: its in-order items change exactly as
 * these functions change a leaf's items.
 */
module LeafSpec {
  import opened Bytes
  import opened Codec
  import opened Items
  import opened Wrappers

  /** The remove modes a caller can ask for: removeItem, removeMin, removeMax. */
  datatype Mode = ByKey | Min | Max

  /**
   * leaf.insert (leaf.go:28-32): the items after the insert, and whether
   * the key was new.
   */
  function Insert(items: seq<Item>, key: Bytes, val: Bytes): (r: (seq<Item>, bool))
    requires AllWellFormed(items)
  {
    var (i, found) := Find(items, key);
    (ItemInserted(items, i, found, key, val), !found)
  }

  /**
   * An insert into sorted items keeps them sorted, reports a new key
   * exactly when the key was absent, and maps the key to the value while
   * every other key keeps its value.
   */
  lemma InsertSpec(items: seq<Item>, key: Bytes, val: Bytes)
    requires Sorted(items) && 0 < |key| < Pow32
    ensures Sorted(Insert(items, key, val).0)
    ensures Insert(items, key, val).1 <==> !HasKey(items, key)
    ensures |Insert(items, key, val).0| == |items| + (if Insert(items, key, val).1 then 1 else 0)
    ensures Contents(Insert(items, key, val).0) == Contents(items)[key := val]
  {
    var x, i, found := InsertSplit(items, key, val);
    FindSpec(items, key);
    var mid := if found then [items[i]] else [];
    var tail := if found then items[i + 1..] else items[i..];
    PutItem(items[..i], mid, x, tail);
  }

  /** An insert with a key that fits the length prefix keeps every item well formed. */
  lemma InsertWellFormed(items: seq<Item>, key: Bytes, val: Bytes)
    requires AllWellFormed(items) && 0 < |key| < Pow32
    ensures AllWellFormed(Insert(items, key, val).0)
  {
    var i, found := Find(items, key).0, Find(items, key).1;
    var tail := if found then items[i + 1..] else items[i..];
    var x := if found then items[i][..4 + |key|] + val else Encode(key, val);
    if found {
      assert Key(items[i]) == key;
      ReplaceValue(items[i], val);
    } else {
      DecodeEncode(key, val);
    }
    assert Insert(items, key, val).0 == items[..i] + [x] + tail;
    WellFormedSplice(items[..i], x, tail);
  }

  /** Replacing the value of item i leaves the items around it in place. */
  lemma InsertSplitFound(items: seq<Item>, i: nat, key: Bytes, val: Bytes) returns (x: Item)
    requires i < |items| && WellFormed(items[i]) && Key(items[i]) == key
    ensures items == items[..i] + [items[i]] + items[i + 1..]
    ensures ItemInserted(items, i, true, key, val) == items[..i] + [x] + items[i + 1..]
    ensures WellFormed(x) && Key(x) == key && Val(x) == val
  {
    x := items[i][..4 + |key|] + val;
    ReplaceValue(items[i], val);
    assert items == items[..i] + [items[i]] + items[i + 1..];
  }

  /**
   * The shape of an insert into sorted items: the items before the key's
   * position, the item now carrying key and value, and the items after it.
   */
  lemma InsertSplit(items: seq<Item>, key: Bytes, val: Bytes) returns (x: Item, i: nat, found: bool)
    requires Sorted(items) && 0 < |key| < Pow32
    ensures Find(items, key) == (i, found)
    ensures i <= |items| && (found ==> i < |items| && Key(items[i]) == key)
    ensures items == items[..i] + (if found then [items[i]] else []) + (if found then items[i + 1..] else items[i..])
    ensures Insert(items, key, val).0 == items[..i] + [x] + (if found then items[i + 1..] else items[i..])
    ensures WellFormed(x) && Key(x) == key && Val(x) == val
  {
    i, found := Find(items, key).0, Find(items, key).1;
    assert Insert(items, key, val).0 == ItemInserted(items, i, found, key, val);
    if found {
      x := InsertSplitFound(items, i, key, val);
    } else {
      x := InsertSplitNew(items, i, key, val);
    }
  }

  /** Inserting a new item at i leaves the items around it in place. */
  lemma InsertSplitNew(items: seq<Item>, i: nat, key: Bytes, val: Bytes) returns (x: Item)
    requires i <= |items| && 0 < |key| < Pow32
    ensures items == items[..i] + [] + items[i..]
    ensures ItemInserted(items, i, false, key, val) == items[..i] + [x] + items[i..]
    ensures WellFormed(x) && Key(x) == key && Val(x) == val
  {
    x := Encode(key, val);
    DecodeEncode(key, val);
    assert items == items[..i] + [] + items[i..];
  }

  /**
   * leaf.remove (leaf.go:34-62) with the fix recorded under Findings: the
   * items after the removal, the new first item when the removal changed
   * the first item and one is left, and whether an item was removed.
   */
  function Remove(items: seq<Item>, key: Bytes, mode: Mode): (r: (seq<Item>, Option<Item>, bool))
    requires AllWellFormed(items)
  {
    if |items| == 0 then (items, None, false)
    else match mode
      case Max => (ItemRemoved(items, |items| - 1), None, true)
      case Min =>
        var rest := ItemRemoved(items, 0);
        (rest, if |rest| > 0 then Some(rest[0]) else None, true)
      case ByKey =>
        var (i, found) := Find(items, key);
        if found then
          var rest := ItemRemoved(items, i);
          (rest, if i == 0 && |rest| > 0 then Some(rest[0]) else None, true)
        else (items, None, false)
  }

  /**
   * leaf.remove as written: reporting the new first item reads items[0]
   * after the removal even when nothing is left, which the Go runtime
   * rejects with an index panic.
   */
  function RemoveAsWritten(items: seq<Item>, key: Bytes, mode: Mode): (r: Result<(seq<Item>, Option<Item>, bool)>)
    requires AllWellFormed(items)
    ensures r.Ok? ==> r.value == Remove(items, key, mode)
  {
    var (rest, _, k) := Remove(items, key, mode);
    var changedFirst := |items| > 0 && (mode == Min || (mode == ByKey && Find(items, key) == (0, true)));
    if changedFirst && |rest| == 0 then Err(IndexOutOfRange)
    else Ok(Remove(items, key, mode))
  }

  /** Removing the only item of a leaf panics in the code as written, by key and as the minimum. */
  lemma RemoveLastItemPanics(item: Item)
    requires WellFormed(item)
    ensures RemoveAsWritten([item], Key(item), ByKey) == Err(IndexOutOfRange)
    ensures RemoveAsWritten([item], Key(item), Min) == Err(IndexOutOfRange)
    ensures Remove([item], Key(item), ByKey) == ([], None, true)
  {
    var s := [item];
    assert !Less(Key(item), Key(s[0]));
    assert SearchIndex(s, Key(item)) == 1;
  }

  /** A removal keeps the items well formed and reports a well-formed first item. */
  lemma RemoveWellFormed(items: seq<Item>, key: Bytes, mode: Mode)
    requires AllWellFormed(items)
    ensures AllWellFormed(Remove(items, key, mode).0)
    ensures Remove(items, key, mode).1.Some? ==> WellFormed(Remove(items, key, mode).1.value)
  {
    if |items| > 0 {
      var i := match mode case Max => |items| - 1 case Min => 0 case ByKey => Find(items, key).0;
      if i < |items| {
        RemovedWellFormed(items, i);
      }
    }
  }

  /** Removing one item keeps the rest well formed. */
  lemma RemovedWellFormed(items: seq<Item>, i: nat)
    requires AllWellFormed(items) && i < |items|
    ensures AllWellFormed(ItemRemoved(items, i))
  {
    var rest := ItemRemoved(items, i);
    assert forall j :: 0 <= j < |rest| ==> rest[j] == items[if j < i then j else j + 1];
  }

  /**
   * A removal by key from sorted items keeps them sorted, removes exactly
   * the key asked for, reports whether it was there, and reports a new
   * first item exactly when the key was the first and items remain, as the
   * first remaining item.
   */
  lemma RemoveByKeySpec(items: seq<Item>, key: Bytes)
    requires Sorted(items)
    ensures var (rest, first, removed) := Remove(items, key, ByKey);
      && Sorted(rest)
      && (removed <==> HasKey(items, key))
      && Contents(rest) == Contents(items) - {key}
      && |rest| == |items| - (if removed then 1 else 0)
      && (first.Some? <==> removed && Find(items, key).0 == 0 && |rest| > 0)
      && (first.Some? ==> first.value == rest[0])
  {
    if |items| == 0 {
      ContentsHasKey(items, key);
    } else if Find(items, key).1 {
      RemoveFoundSpec(items, key);
    } else {
      RemoveMissingSpec(items, key);
    }
  }

  /**
   * removeMin takes the first item off a non-empty leaf and reports the
   * new first item; an empty leaf is left alone.
   */
  lemma RemoveMinSpec(items: seq<Item>, key: Bytes)
    requires Sorted(items)
    ensures |items| == 0 ==> Remove(items, key, Min) == (items, None, false)
    ensures |items| > 0 ==> Remove(items, key, Min) == (items[1..], if |items| > 1 then Some(items[1]) else None, true)
    ensures Sorted(Remove(items, key, Min).0)
  {
    if |items| > 0 {
      SortedHalves([items[0]], items[1..]);
    }
  }

  /** removeMax takes the last item off a non-empty leaf; an empty leaf is left alone. */
  lemma RemoveMaxSpec(items: seq<Item>, key: Bytes)
    requires Sorted(items)
    ensures |items| == 0 ==> Remove(items, key, Max) == (items, None, false)
    ensures |items| > 0 ==> Remove(items, key, Max) == (items[..|items| - 1], None, true)
    ensures Sorted(Remove(items, key, Max).0)
  {
    if |items| > 0 {
      SortedHalves(items[..|items| - 1], [items[|items| - 1]]);
    }
  }

  lemma RemoveMissingSpec(items: seq<Item>, key: Bytes)
    requires Sorted(items) && !Find(items, key).1
    ensures Remove(items, key, ByKey) == (items, None, false)
    ensures !HasKey(items, key) && Contents(items) - {key} == Contents(items)
  {
    FindSpec(items, key);
    ContentsHasKey(items, key);
    RemoveAbsent(Contents(items), key);
  }

  lemma RemoveFoundSpec(items: seq<Item>, key: Bytes)
    requires Sorted(items) && Find(items, key).1
    ensures Remove(items, key, ByKey).2 && Sorted(Remove(items, key, ByKey).0) && HasKey(items, key)
    ensures |Remove(items, key, ByKey).0| == |items| - 1
    ensures Contents(Remove(items, key, ByKey).0) == Contents(items) - {key}
  {
    var i := Find(items, key).0;
    FindSpec(items, key);
    assert items == items[..i] + [items[i]] + items[i + 1..];
    CutItem(items[..i], items[i], items[i + 1..]);
  }

  /**
   * An insert into the concatenation of runs a, b, c, where the key sorts
   * after a and before c, only changes b.
   */
  lemma InsertFrame(a: seq<Item>, b: seq<Item>, c: seq<Item>, key: Bytes, val: Bytes)
    requires AllWellFormed(a + b + c)
    requires KeysBelow(a, key) && KeysAbove(c, key)
    ensures AllWellFormed(b)
    ensures Insert(a + b + c, key, val).0 == a + Insert(b, key, val).0 + c
    ensures Insert(a + b + c, key, val).1 == Insert(b, key, val).1
  {
    FindRun(a, b, c, key);
    var i, found := Find(b, key).0, Find(b, key).1;
    assert Insert(a + b + c, key, val).0 == ItemInserted(a + b + c, |a| + i, found, key, val);
    if found {
      assert Key(b[i]) == key;
      InsertFrameFound(a, b, c, i, key, val);
    } else {
      InsertFrameNew(a, b, c, i, key, val);
    }
  }

  /** Replacing the value of item i of b in a + b + c only changes b. */
  lemma InsertFrameFound(a: seq<Item>, b: seq<Item>, c: seq<Item>, i: nat, key: Bytes, val: Bytes)
    requires i < |b| && 4 + |key| <= |b[i]|
    ensures ItemInserted(a + b + c, |a| + i, true, key, val) == a + ItemInserted(b, i, true, key, val) + c
  {
    var s := a + b + c;
    var p, q := b[..i], b[i + 1..];
    var x := b[i][..4 + |key|] + val;
    assert s[..|a| + i] == a + p;
    assert s[|a| + i] == b[i];
    assert s[|a| + i + 1..] == q + c;
    Regroup(a, p, [x], q, c);
  }

  /** Placing a new item at index i of b in a + b + c only changes b. */
  lemma InsertFrameNew(a: seq<Item>, b: seq<Item>, c: seq<Item>, i: nat, key: Bytes, val: Bytes)
    requires i <= |b|
    ensures ItemInserted(a + b + c, |a| + i, false, key, val) == a + ItemInserted(b, i, false, key, val) + c
  {
    var s := a + b + c;
    var p, q := b[..i], b[i..];
    var x := if |key| != 0 then Encode(key, val) else val;
    assert s[..|a| + i] == a + p;
    assert s[|a| + i..] == q + c;
    Regroup(a, p, [x], q, c);
  }

  /** Where a key sorts between runs a and c, itemFind on a + b + c is itemFind on b, shifted. */
  lemma FindRun(a: seq<Item>, b: seq<Item>, c: seq<Item>, key: Bytes)
    requires AllWellFormed(a + b + c)
    requires KeysBelow(a, key) && KeysAbove(c, key)
    ensures AllWellFormed(b)
    ensures Find(a + b + c, key).0 == |a| + Find(b, key).0
    ensures Find(a + b + c, key).1 == Find(b, key).1
  {
    var s := a + b + c;
    SearchRun(a, b, c, key);
    var i := SearchIndex(b, key);
    var j := |a| + i;
    if i > 0 {
      assert s[j - 1] == b[i - 1];
    } else if |a| > 0 {
      assert s[j - 1] == a[|a| - 1];
      assert Less(Key(a[|a| - 1]), key);
      assert Key(s[j - 1]) != key;
    }
  }

  /** Where a key sorts between runs a and c, the search on a + b + c is the search on b, shifted. */
  lemma SearchRun(a: seq<Item>, b: seq<Item>, c: seq<Item>, key: Bytes)
    requires AllWellFormed(a + b + c)
    requires KeysBelow(a, key) && KeysAbove(c, key)
    ensures AllWellFormed(b)
    ensures SearchIndex(a + b + c, key) == |a| + SearchIndex(b, key)
  {
    var s := a + b + c;
    assert forall j :: 0 <= j < |b| ==> b[j] == s[|a| + j];
    var i := SearchIndex(b, key);
    forall j | 0 <= j < |a| + i
      ensures !Less(key, Key(s[j]))
    {
      if j < |a| {
        assert s[j] == a[j];
        LessTotal(key, Key(a[j]));
      } else {
        assert s[j] == b[j - |a|];
      }
    }
    if |a| + i < |s| {
      if i < |b| {
        assert s[|a| + i] == b[i];
      } else {
        assert s[|a| + i] == c[0];
      }
    }
    SearchIndexUnique(s, key, |a| + i);
  }

  /**
   * A removal from the concatenation of runs a, b, c only changes b: by
   * key when the key sorts after a and before c, the minimum when a is
   * empty and b is not, the maximum when c is empty and b is not.
   */
  lemma RemoveFrame(a: seq<Item>, b: seq<Item>, c: seq<Item>, key: Bytes, mode: Mode)
    requires AllWellFormed(a + b + c)
    requires mode == ByKey ==> KeysBelow(a, key) && KeysAbove(c, key)
    requires mode == Min ==> a == [] && b != []
    requires mode == Max ==> c == [] && b != []
    ensures AllWellFormed(b)
    ensures Remove(a + b + c, key, mode).0 == a + Remove(b, key, mode).0 + c
    ensures Remove(a + b + c, key, mode).2 == Remove(b, key, mode).2
  {
    match mode
    case Min =>
      assert a + b + c == b + c;
      RemoveFrameMin(b, c, key);
    case Max =>
      assert a + b + c == a + b;
      RemoveFrameMax(a, b, key);
    case ByKey =>
      FindRun(a, b, c, key);
      RemoveFrameByKey(a, b, c, key);
  }

  /** Removing the minimum of b + c only changes b. */
  lemma RemoveFrameMin(b: seq<Item>, c: seq<Item>, key: Bytes)
    requires AllWellFormed(b + c) && b != []
    ensures AllWellFormed(b)
    ensures Remove(b + c, key, Min).0 == Remove(b, key, Min).0 + c
    ensures Remove(b + c, key, Min).2 == Remove(b, key, Min).2
  {
    var s := b + c;
    assert forall j :: 0 <= j < |b| ==> b[j] == s[j];
    assert s[1..] == b[1..] + c;
  }

  /** Removing the maximum of a + b only changes b. */
  lemma RemoveFrameMax(a: seq<Item>, b: seq<Item>, key: Bytes)
    requires AllWellFormed(a + b) && b != []
    ensures AllWellFormed(b)
    ensures Remove(a + b, key, Max).0 == a + Remove(b, key, Max).0
    ensures Remove(a + b, key, Max).2 == Remove(b, key, Max).2
  {
    var s := a + b;
    assert forall j :: 0 <= j < |b| ==> b[j] == s[|a| + j];
    assert s[..|s| - 1] == a + b[..|b| - 1];
  }

  /**
   * A removal takes at most one item, and the new first item it reports
   * is the first of the items left.
   */
  lemma RemoveShape(items: seq<Item>, key: Bytes, mode: Mode)
    requires AllWellFormed(items)
    ensures |Remove(items, key, mode).0| + 1 >= |items| >= |Remove(items, key, mode).0|
    ensures Remove(items, key, mode).1.Some? ==>
      |Remove(items, key, mode).0| > 0 && Remove(items, key, mode).1.value == Remove(items, key, mode).0[0]
    ensures Remove(items, key, mode).2 ==> |Remove(items, key, mode).0| + 1 == |items|
  {
  }

  /**
   * The new first item a removal from a + b + c reports: none when a is
   * not empty (the removed item was not the first), and the one a removal
   * from b reports when a is empty and b keeps an item.
   */
  lemma RemoveFrameFirst(a: seq<Item>, b: seq<Item>, c: seq<Item>, key: Bytes, mode: Mode)
    requires AllWellFormed(a + b + c)
    requires mode == ByKey ==> KeysBelow(a, key) && KeysAbove(c, key)
    requires mode == Min ==> a == []
    requires |b| >= 2
    ensures AllWellFormed(b)
    ensures a != [] ==> Remove(a + b + c, key, mode).1 == None
    ensures a == [] ==> Remove(a + b + c, key, mode).1 == Remove(b, key, mode).1
  {
    var s := a + b + c;
    assert forall j :: 0 <= j < |b| ==> b[j] == s[|a| + j];
    match mode
    case Min =>
      assert s == b + c;
    case Max =>
    case ByKey =>
      FindRun(a, b, c, key);
      if a == [] {
        assert s == b + c;
      }
  }

  lemma RemoveFrameByKey(a: seq<Item>, b: seq<Item>, c: seq<Item>, key: Bytes)
    requires AllWellFormed(a + b + c) && AllWellFormed(b)
    requires Find(a + b + c, key) == (|a| + Find(b, key).0, Find(b, key).1)
    ensures Remove(a + b + c, key, ByKey).0 == a + Remove(b, key, ByKey).0 + c
    ensures Remove(a + b + c, key, ByKey).2 == Remove(b, key, ByKey).2
  {
    if Find(b, key).1 {
      RemoveFrameFound(a, b, c, Find(b, key).0);
    }
  }

  /** Removing the item at index i of b from a + b + c only changes b. */
  lemma RemoveFrameFound(a: seq<Item>, b: seq<Item>, c: seq<Item>, i: nat)
    requires i < |b|
    ensures ItemRemoved(a + b + c, |a| + i) == a + ItemRemoved(b, i) + c
  {
    var s := a + b + c;
    var p, q := b[..i], b[i + 1..];
    assert s[..|a| + i] == a + p;
    assert s[|a| + i + 1..] == q + c;
    Regroup(a, p, [], q, c);
  }
}
