/**
 * Byte strings as Go's []byte, and the order bytes.Compare puts on them.
 * Keys and values of the tree are byte strings; every ordering decision in
 * the tree (binary search, separator choice, iterator stop bounds) goes
 * through Compare.
 */
module Bytes {

  /** Go's `byte`. */
  type byte = x: int | 0 <= x < 0x100

  /** Go's `uint32`. */
  type u32 = x: int | 0 <= x < 0x1_0000_0000

  type Bytes = seq<byte>

  /**
   * bytes.Compare: -1, 0 or +1 by lexicographic order, where a proper
   * prefix sorts before the longer string.
   */
  function Compare(a: Bytes, b: Bytes): (c: int)
    ensures -1 <= c <= 1
    ensures c == 0 <==> a == b
  {
    CompareFrom(a, b, 0)
  }

  /** Compare on what follows the first i bytes, which a and b share. */
  function CompareFrom(a: Bytes, b: Bytes, i: nat): (c: int)
    requires i <= |a| && i <= |b| && a[..i] == b[..i]
    ensures -1 <= c <= 1
    ensures c == 0 <==> a == b
    decreases |a| - i
  {
    if i == |a| then (if i == |b| then 0 else -1)
    else if i == |b| then 1
    else if a[i] < b[i] then -1
    else if a[i] > b[i] then 1
    else
      assert a[..i + 1] == a[..i] + [a[i]];
      assert b[..i + 1] == b[..i] + [b[i]];
      CompareFrom(a, b, i + 1)
  }

  /** `bytes.Compare(a, b) < 0` */
  predicate Less(a: Bytes, b: Bytes) {
    Compare(a, b) < 0
  }

  /** `bytes.Compare(a, b) <= 0` */
  predicate LessEq(a: Bytes, b: Bytes) {
    Compare(a, b) <= 0
  }

  /** Swapping the arguments of Compare negates the result. */
  lemma CompareAntisymmetric(a: Bytes, b: Bytes)
    ensures Compare(b, a) == -Compare(a, b)
  {
    CompareFromAntisymmetric(a, b, 0);
  }

  lemma {:induction false} CompareFromAntisymmetric(a: Bytes, b: Bytes, i: nat)
    requires i <= |a| && i <= |b| && a[..i] == b[..i]
    ensures CompareFrom(b, a, i) == -CompareFrom(a, b, i)
    decreases |a| - i
  {
    if i < |a| && i < |b| && a[i] == b[i] {
      assert a[..i + 1] == a[..i] + [a[i]];
      assert b[..i + 1] == b[..i] + [b[i]];
      CompareFromAntisymmetric(a, b, i + 1);
    }
  }

  /** Less is transitive. */
  lemma LessTransitive(a: Bytes, b: Bytes, c: Bytes)
    requires Less(a, b) && Less(b, c)
    ensures Less(a, c)
  {
    LessFromTransitive(a, b, c, 0);
  }

  lemma {:induction false} LessFromTransitive(a: Bytes, b: Bytes, c: Bytes, i: nat)
    requires i <= |a| && i <= |b| && i <= |c| && a[..i] == b[..i] == c[..i]
    requires CompareFrom(a, b, i) < 0 && CompareFrom(b, c, i) < 0
    ensures CompareFrom(a, c, i) < 0
    decreases |a| - i
  {
    if i < |a| && i < |b| && i < |c| && a[i] == b[i] == c[i] {
      assert a[..i + 1] == a[..i] + [a[i]];
      assert b[..i + 1] == b[..i] + [b[i]];
      assert c[..i + 1] == c[..i] + [c[i]];
      LessFromTransitive(a, b, c, i + 1);
    }
  }

  /** LessEq is transitive. */
  lemma LessEqTransitive(a: Bytes, b: Bytes, c: Bytes)
    requires LessEq(a, b) && LessEq(b, c)
    ensures LessEq(a, c)
  {
    if a != b && b != c {
      LessTransitive(a, b, c);
    }
  }

  /** Mixed transitivity: a <= b < c gives a < c. */
  lemma LessEqLess(a: Bytes, b: Bytes, c: Bytes)
    requires LessEq(a, b) && Less(b, c)
    ensures Less(a, c)
  {
    if a != b {
      LessTransitive(a, b, c);
    }
  }

  /** Mixed transitivity: a < b <= c gives a < c. */
  lemma LessLessEq(a: Bytes, b: Bytes, c: Bytes)
    requires Less(a, b) && LessEq(b, c)
    ensures Less(a, c)
  {
    if b != c {
      LessTransitive(a, b, c);
    }
  }

  /** Compare is a total order: exactly one of a < b, a == b, b < a. */
  lemma LessTotal(a: Bytes, b: Bytes)
    ensures Less(a, b) || a == b || Less(b, a)
    ensures !(Less(a, b) && Less(b, a))
    ensures LessEq(a, b) <==> !Less(b, a)
  {
    CompareAntisymmetric(a, b);
  }

  /** All the order facts at once, for proofs that chain many comparisons. */
  lemma OrderFacts()
    ensures forall a, b, c {:trigger Less(a, b), Less(b, c)} :: Less(a, b) && Less(b, c) ==> Less(a, c)
    ensures forall a, b, c {:trigger LessEq(a, b), Less(b, c)} :: LessEq(a, b) && Less(b, c) ==> Less(a, c)
    ensures forall a, b, c {:trigger Less(a, b), LessEq(b, c)} :: Less(a, b) && LessEq(b, c) ==> Less(a, c)
    ensures forall a, b, c {:trigger LessEq(a, b), LessEq(b, c)} :: LessEq(a, b) && LessEq(b, c) ==> LessEq(a, c)
    ensures forall a, b {:trigger Less(a, b)} {:trigger LessEq(b, a)} :: LessEq(b, a) <==> !Less(a, b)
  {
    forall a, b, c | Less(a, b) && Less(b, c) ensures Less(a, c) {
      LessTransitive(a, b, c);
    }
    forall a, b, c | LessEq(a, b) && Less(b, c) ensures Less(a, c) {
      LessEqLess(a, b, c);
    }
    forall a, b, c | Less(a, b) && LessEq(b, c) ensures Less(a, c) {
      LessLessEq(a, b, c);
    }
    forall a, b, c | LessEq(a, b) && LessEq(b, c) ensures LessEq(a, c) {
      LessEqTransitive(a, b, c);
    }
    forall a, b ensures LessEq(b, a) <==> !Less(a, b) {
      LessTotal(a, b);
    }
  }
}
