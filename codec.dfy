/**
 * The item codec of tbp/node.go. An item is one byte string laid out as
 * a 4-byte little-endian key length, the key, then the value. Leaves hold
 * such items; internal nodes hold copies of leaf items as separators.
 */
module Codec {
  import opened Bytes

  type Item = seq<byte>

  const Pow32: int := 0x1_0000_0000

  /** The four bytes putUint32 writes for v, least significant first. */
  function LittleEndian(v: u32): (b: seq<byte>)
    ensures |b| == 4
  {
    Digits(v, 4)
  }

  /** The n lowest base-256 digits of v, least significant first. */
  function Digits(v: nat, n: nat): (b: seq<byte>)
    ensures |b| == n
  {
    if n == 0 then [] else [v % 0x100] + Digits(v / 0x100, n - 1)
  }

  /**
   * getUint32 (node.go:32-35): the value whose little-endian bytes are the
   * first four bytes of b.
   */
  function GetUint32(b: seq<byte>): u32
    requires |b| >= 4
  {
    b[0] as int + b[1] as int * 0x100 + b[2] as int * 0x1_0000 + b[3] as int * 0x100_0000
  }

  /** The four digits written out. */
  lemma FourDigits(v: nat)
    ensures Digits(v, 4) == [v % 0x100, v / 0x100 % 0x100, v / 0x100 / 0x100 % 0x100, v / 0x100 / 0x100 / 0x100 % 0x100]
  {
    var q1 := v / 0x100;
    var q2 := q1 / 0x100;
    var q3 := q2 / 0x100;
    assert Digits(q3, 1) == [q3 % 0x100] + Digits(q3 / 0x100, 0);
    assert Digits(q2, 2) == [q2 % 0x100] + Digits(q3, 1);
    assert Digits(q1, 3) == [q1 % 0x100] + Digits(q2, 2);
  }

  /** Reading back what putUint32 wrote gives the value written. */
  lemma GetOfPut(v: u32)
    ensures GetUint32(LittleEndian(v)) == v
  {
    var q1 := v / 0x100;
    var q2 := q1 / 0x100;
    var q3 := q2 / 0x100;
    FourDigits(v);
    assert v == v % 0x100 + 0x100 * q1;
    assert q1 == q1 % 0x100 + 0x100 * q2;
    assert q2 == q2 % 0x100 + 0x100 * q3;
    assert q3 < 0x100;
  }

  /** Writing back what getUint32 read gives the bytes read. */
  lemma PutOfGet(b: seq<byte>)
    requires |b| == 4
    ensures LittleEndian(GetUint32(b)) == b
  {
    var v := GetUint32(b);
    FourDigits(v);
    assert v % 0x100 == b[0];
    assert v / 0x100 == b[1] as int + b[2] as int * 0x100 + b[3] as int * 0x1_0000;
    assert v / 0x100 / 0x100 == b[2] as int + b[3] as int * 0x100;
    assert v / 0x100 / 0x100 / 0x100 == b[3];
  }

  /**
   * putUint32 (node.go:24-30): the first four bytes of b get v, little-endian;
   * a shorter buffer is rejected up front, as the source's bounds hint does.
   */
  method PutUint32(b: array<byte>, v: u32)
    requires b.Length >= 4
    modifies b
    ensures b[..4] == LittleEndian(v)
    ensures b[4..] == old(b[4..])
  {
    b[0] := v % 0x100;
    b[1] := v / 0x100 % 0x100;
    b[2] := v / 0x1_0000 % 0x100;
    b[3] := v / 0x100_0000 % 0x100;
    FourDigits(v);
    assert v / 0x1_0000 == v / 0x100 / 0x100 && v / 0x100_0000 == v / 0x100 / 0x100 / 0x100;
  }

  /** The key length prefix is present and the key fits in the item. */
  predicate WellFormed(item: Item) {
    |item| >= 4 && 4 + GetUint32(item) <= |item|
  }

  /** itemGetKey (node.go:37-40): as many bytes as the length prefix says. */
  function Key(item: Item): (k: Bytes)
    requires WellFormed(item)
  {
    item[4..4 + GetUint32(item)]
  }

  /** itemGetVal (node.go:42-45): the bytes after the prefix and the key. */
  function Val(item: Item): (v: Bytes)
    requires WellFormed(item)
  {
    item[4 + GetUint32(item)..]
  }

  /**
   * The item itemInsert builds for a new key (node.go:70-74). The length
   * prefix is uint32(len(key)), so a key of 4 GiB or more wraps.
   */
  function Encode(key: Bytes, val: Bytes): Item {
    LittleEndian(|key| % Pow32) + key + val
  }

  /** Decoding an encoded item gives back its key and value. */
  lemma DecodeEncode(key: Bytes, val: Bytes)
    requires |key| < Pow32
    ensures WellFormed(Encode(key, val))
    ensures Key(Encode(key, val)) == key && Val(Encode(key, val)) == val
  {
    var item := Encode(key, val);
    EncodedLength(key, val);
    assert item[4..4 + |key|] == key;
    assert item[4 + |key|..] == val;
  }

  /** An encoded item's length prefix reads as the key's length. */
  lemma EncodedLength(key: Bytes, val: Bytes)
    requires |key| < Pow32
    ensures |Encode(key, val)| == 4 + |key| + |val|
    ensures GetUint32(Encode(key, val)) == |key|
  {
    var item := Encode(key, val);
    GetOfPut(|key|);
    assert item[..4] == LittleEndian(|key|);
    assert GetUint32(item) == GetUint32(item[..4]);
  }

  /** Every well-formed item is the encoding of its own key and value. */
  lemma EncodeDecode(item: Item)
    requires WellFormed(item)
    ensures |Key(item)| < Pow32
    ensures Encode(Key(item), Val(item)) == item
  {
    var n := GetUint32(item);
    LengthPrefix(item);
    assert item == item[..4] + item[4..4 + n] + item[4 + n..];
  }

  /** The length prefix of an item is putUint32 of the length it reads as. */
  lemma LengthPrefix(item: Item)
    requires |item| >= 4
    ensures LittleEndian(GetUint32(item) % Pow32) == item[..4]
  {
    var b := item[..4];
    assert GetUint32(b) == GetUint32(item);
    PutOfGet(b);
  }

  /** Two well-formed items with the same key and value are the same item. */
  lemma SameKeyAndVal(a: Item, b: Item)
    requires WellFormed(a) && WellFormed(b)
    requires Key(a) == Key(b) && Val(a) == Val(b)
    ensures a == b
  {
    EncodeDecode(a);
    EncodeDecode(b);
  }

  /**
   * The buffer itemInsert allocates for a new key (node.go:67-71): length
   * prefix, key and value copied into one fresh slice.
   */
  method MakeItem(key: Bytes, val: Bytes) returns (item: Item)
    ensures item == Encode(key, val)
    ensures |key| < Pow32 ==> WellFormed(item) && Key(item) == key && Val(item) == val
  {
    var buf := new byte[4 + |key| + |val|];
    PutUint32(buf, |key| % Pow32);
    forall i | 0 <= i < |key| {
      buf[4 + i] := key[i];
    }
    forall i | 0 <= i < |val| {
      buf[4 + |key| + i] := val[i];
    }
    item := buf[..];
    assert item[..4] == LittleEndian(|key| % Pow32);
    assert item[4..4 + |key|] == key;
    assert item[4 + |key|..] == val;
    assert item == item[..4] + item[4..4 + |key|] + item[4 + |key|..];
    if |key| < Pow32 {
      DecodeEncode(key, val);
    }
  }

  /**
   * The item itemInsert keeps for a found key (node.go:79-80): the length
   * prefix and key of the old item, followed by the new value.
   */
  lemma ReplaceValue(item: Item, val: Bytes)
    requires WellFormed(item)
    ensures WellFormed(item[..4 + |Key(item)|] + val)
    ensures Key(item[..4 + |Key(item)|] + val) == Key(item)
    ensures Val(item[..4 + |Key(item)|] + val) == val
  {
    var n := GetUint32(item);
    var x := item[..4 + n] + val;
    assert x[..4] == item[..4];
    assert x[0] == item[0] && x[1] == item[1] && x[2] == item[2] && x[3] == item[3];
    assert x[4..4 + n] == item[4..4 + n];
    assert x[4 + n..] == val;
  }
}
