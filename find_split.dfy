/**
 * `findSplit`: where to cut a range of sorted 64-bit Morton keys.
 *
 * The first and last key of the range agree on their top bits down to the
 * highest bit in which they differ, bit p = 63 - clz(first ^ last). The
 * search key is the last key with the bits below p cleared; a lower-bound
 * binary search finds the first key that is not smaller than it. Every key
 * before the cut then has bit p clear and every key from the cut on has it
 * set, so each side agrees on one more leading bit than the whole range.
 *
 * Keys are natural numbers below 2^64. The bit operations the search key
 * needs are written arithmetically: `x >> s` is `s` halvings, `x << s` is
 * `s` doublings, `x ^ y` is built bit by bit, and `__clzll(x)` is 64 minus
 * the number of binary digits of `x`.
 */
module Split {

  /** 2^64: keys are `int`s below it here, unlike the `bv64` words of the Morton code, whose own copy bounds their values. */
  const TwoTo64: int := 0x1_0000_0000_0000_0000

  predicate IsKey(k: int) { 0 <= k < TwoTo64 }

  /** Keys as the radix sort leaves them: 64-bit and ascending. */
  predicate SortedKeys(keys: seq<int>)
  {
    (forall i :: 0 <= i < |keys| ==> IsKey(keys[i])) &&
    (forall i, j :: 0 <= i <= j < |keys| ==> keys[i] <= keys[j])
  }

  function Pow2(n: nat): nat
  {
    if n == 0 then 1 else 2 * Pow2(n - 1)
  }

  /** `x >> s` */
  function Shr(x: nat, s: nat): nat
  {
    if s == 0 then x else Shr(x / 2, s - 1)
  }

  /** `x << s`, without truncation (it is only applied where the result stays below 2^64). */
  function Shl(x: nat, s: nat): nat
  {
    if s == 0 then x else 2 * Shl(x, s - 1)
  }

  /** `x ^ y` */
  function Xor(x: nat, y: nat): nat
    decreases x + y
  {
    if x == 0 && y == 0 then 0
    else (if x % 2 == y % 2 then 0 else 1) + 2 * Xor(x / 2, y / 2)
  }

  /** The number of binary digits of `x`: the position of its highest set bit, plus one. */
  function BitLength(x: nat): nat
  {
    if x == 0 then 0 else 1 + BitLength(x / 2)
  }

  /** `__clzll(x)`: the number of leading zero bits of `x` as a 64-bit word. */
  function Clz(x: nat): int
  {
    64 - BitLength(x)
  }

  // ---------------------------------------------------------------------
  // Facts about the arithmetic bit operations
  // ---------------------------------------------------------------------

  lemma {:induction false} XorZero(x: nat, y: nat)
    ensures Xor(x, y) == 0 <==> x == y
    decreases x + y
  {
    if x != 0 || y != 0 {
      XorZero(x / 2, y / 2);
      assert x == 2 * (x / 2) + x % 2 && y == 2 * (y / 2) + y % 2;
    }
  }

  lemma {:induction false} XorBound(x: nat, y: nat, n: nat)
    requires x < Pow2(n) && y < Pow2(n)
    ensures Xor(x, y) < Pow2(n)
    decreases n
  {
    if n > 0 && (x != 0 || y != 0) {
      XorBound(x / 2, y / 2, n - 1);
    }
  }

  lemma {:induction false} BitLengthBound(x: nat, n: nat)
    requires x < Pow2(n)
    ensures BitLength(x) <= n
    decreases n
  {
    if x > 0 {
      BitLengthBound(x / 2, n - 1);
    }
  }

  /** A 64-bit word has between 0 and 64 leading zeros, and fewer than 64 unless it is zero. */
  lemma ClzRange(x: nat)
    requires x < TwoTo64
    ensures 0 <= Clz(x) <= 64
    ensures x != 0 ==> Clz(x) < 64
  {
    assert Pow2(64) == TwoTo64 by { Pow2Value64(); }
    BitLengthBound(x, 64);
  }

  lemma Pow2Value64()
    ensures Pow2(64) == TwoTo64
  {
    assert Pow2(2) == 4;
    Pow2Add(2, 2);
    assert Pow2(4) == 16;
    Pow2Add(4, 4);
    assert Pow2(8) == 0x100;
    Pow2Add(8, 8);
    assert Pow2(16) == 0x1_0000;
    Pow2Add(16, 16);
    assert Pow2(32) == 0x1_0000_0000;
    Pow2Add(32, 32);
  }

  lemma {:induction false} Pow2Add(a: nat, b: nat)
    ensures Pow2(a + b) == Pow2(a) * Pow2(b)
    decreases a
  {
    if a > 0 {
      Pow2Add(a - 1, b);
    }
  }

  lemma {:induction false} ShrSucc(x: nat, s: nat)
    ensures Shr(x, s + 1) == Shr(x, s) / 2
    decreases s
  {
    if s > 0 {
      ShrSucc(x / 2, s - 1);
    }
  }

  /** Shifting right keeps the order of two words. */
  lemma {:induction false} ShrMonotone(x: nat, y: nat, s: nat)
    requires x <= y
    ensures Shr(x, s) <= Shr(y, s)
    decreases s
  {
    if s > 0 {
      ShrMonotone(x / 2, y / 2, s - 1);
    }
  }

  /** `x >> s == 0` exactly when `x` has at most `s` binary digits. */
  lemma {:induction false} ShrZero(x: nat, s: nat)
    ensures Shr(x, s) == 0 <==> BitLength(x) <= s
    decreases s
  {
    if s > 0 {
      ShrZero(x / 2, s - 1);
    }
  }

  /** Two words agree above bit s exactly when their xor has nothing above bit s. */
  lemma {:induction false} ShrXor(x: nat, y: nat, s: nat)
    ensures Shr(x, s) == Shr(y, s) <==> Shr(Xor(x, y), s) == 0
    decreases s
  {
    if s == 0 {
      XorZero(x, y);
    } else {
      ShrXor(x / 2, y / 2, s - 1);
      assert Xor(x, y) / 2 == Xor(x / 2, y / 2);
    }
  }

  /** `x >> s < c` exactly when `x < c << s`. */
  lemma {:induction false} ShrBelow(x: nat, c: nat, s: nat)
    ensures Shr(x, s) < c <==> x < Shl(c, s)
    decreases s
  {
    if s > 0 {
      ShrBelow(x / 2, c, s - 1);
    }
  }

  // ---------------------------------------------------------------------
  // The search key
  // ---------------------------------------------------------------------

  /** `63 - clz(first ^ last)`: the highest bit in which the two keys differ. */
  function SplitBit(first: int, last: int): (p: nat)
    requires IsKey(first) && IsKey(last) && first != last
    ensures p < 64
  {
    XorZero(first, last);
    Pow2Value64();
    XorBound(first, last, 64);
    ClzRange(Xor(first, last));
    63 - Clz(Xor(first, last))
  }

  /** `lastKey & (~0 << p)`: the last key with the bits below `p` cleared. */
  function SearchKey(first: int, last: int): int
    requires IsKey(first) && IsKey(last) && first != last
  {
    var p := SplitBit(first, last);
    Shl(Shr(last, p), p)
  }

  /**
   * The first and last key agree above the split bit and differ at it: the
   * last key has it set and the first has it clear.
   */
  lemma SplitBitFacts(first: int, last: int)
    requires IsKey(first) && IsKey(last) && first < last
    ensures var p := SplitBit(first, last);
      Shr(first, p + 1) == Shr(last, p + 1) && Shr(last, p) == Shr(first, p) + 1
  {
    var p := SplitBit(first, last);
    var x := Xor(first, last);
    XorZero(first, last);
    assert BitLength(x) == p + 1;
    ShrZero(x, p + 1);
    ShrZero(x, p);
    ShrXor(first, last, p + 1);
    ShrXor(first, last, p);
    ShrSucc(first, p);
    ShrSucc(last, p);
    ShrMonotone(first, last, p);
  }

  /** The search key lies above the first key and at or below the last one. */
  lemma SearchKeyBetween(first: int, last: int)
    requires IsKey(first) && IsKey(last) && first < last
    ensures first < SearchKey(first, last) <= last
  {
    var p := SplitBit(first, last);
    SplitBitFacts(first, last);
    ShrBelow(first, Shr(last, p), p);
    ShrBelow(last, Shr(last, p), p);
  }

  /** A key from the first key up to below the search key agrees with the first key down to the split bit. */
  lemma BelowSearchKey(first: int, last: int, k: int)
    requires IsKey(first) && IsKey(last) && first < last
    requires first <= k < SearchKey(first, last)
    ensures Shr(k, SplitBit(first, last)) == Shr(first, SplitBit(first, last))
  {
    var p := SplitBit(first, last);
    SplitBitFacts(first, last);
    ShrBelow(k, Shr(last, p), p);
    ShrMonotone(first, k, p);
  }

  /** A key from the search key up to the last key agrees with the last key down to the split bit. */
  lemma FromSearchKey(first: int, last: int, k: int)
    requires IsKey(first) && IsKey(last) && first < last
    requires SearchKey(first, last) <= k <= last
    ensures Shr(k, SplitBit(first, last)) == Shr(last, SplitBit(first, last))
  {
    var p := SplitBit(first, last);
    ShrBelow(k, Shr(last, p), p);
    ShrMonotone(k, last, p);
  }

  /** A key between the first and last key agrees with both above the split bit. */
  lemma CommonPrefix(first: int, last: int, k: int)
    requires IsKey(first) && IsKey(last) && first < last
    requires first <= k <= last
    ensures Shr(k, SplitBit(first, last) + 1) == Shr(first, SplitBit(first, last) + 1)
  {
    var p := SplitBit(first, last);
    SplitBitFacts(first, last);
    ShrMonotone(first, k, p + 1);
    ShrMonotone(k, last, p + 1);
  }

  // ---------------------------------------------------------------------
  // findSplit
  // ---------------------------------------------------------------------

  /**
   * `findSplit(split, keys, begin, end)`. When the first and last key of
   * the range are equal there is nothing to split on: the result is false
   * and `split` keeps the value it had. Otherwise `split` is the first
   * index whose key is not below the search key, strictly inside the range.
   */
  method FindSplit(keys: seq<int>, begin: int, end: int, splitIn: int) returns (found: bool, split: int)
    requires 0 <= begin < end <= |keys|
    requires SortedKeys(keys)
    ensures found <==> keys[begin] != keys[end - 1]
    ensures !found ==> split == splitIn
    ensures found ==> begin < split < end
    ensures found ==> forall i :: begin <= i < split ==> keys[i] < SearchKey(keys[begin], keys[end - 1])
    ensures found ==> forall i :: split <= i < end ==> keys[i] >= SearchKey(keys[begin], keys[end - 1])
    ensures found ==> var p := SplitBit(keys[begin], keys[end - 1]);
      (forall i :: begin <= i < end ==> Shr(keys[i], p + 1) == Shr(keys[begin], p + 1)) &&
      (forall i :: begin <= i < split ==> Shr(keys[i], p) == Shr(keys[begin], p)) &&
      (forall i :: split <= i < end ==> Shr(keys[i], p) == Shr(keys[end - 1], p)) &&
      Shr(keys[begin], p) != Shr(keys[end - 1], p)
  {
    split := splitIn;
    var firstKey := keys[begin];
    var lastKey := keys[end - 1];
    if firstKey == lastKey {
      return false, split;
    }
    var searchKey := SearchKey(firstKey, lastKey);
    SearchKeyBetween(firstKey, lastKey);
    var lo, hi := begin, end;
    while hi > lo
      invariant begin <= lo <= hi <= end
      invariant forall i :: begin <= i < lo ==> keys[i] < searchKey
      invariant forall i :: hi <= i < end ==> keys[i] >= searchKey
      decreases hi - lo
    {
      var mid := (lo + hi) / 2;
      if keys[mid] < searchKey {
        lo := mid + 1;
      } else {
        hi := mid;
      }
    }
    split := lo;
    found := true;
    var p := SplitBit(firstKey, lastKey);
    SplitBitFacts(firstKey, lastKey);
    forall i | begin <= i < end
      ensures Shr(keys[i], p + 1) == Shr(firstKey, p + 1)
      ensures i < split ==> Shr(keys[i], p) == Shr(firstKey, p)
      ensures split <= i ==> Shr(keys[i], p) == Shr(lastKey, p)
    {
      CommonPrefix(firstKey, lastKey, keys[i]);
      if i < split {
        BelowSearchKey(firstKey, lastKey, keys[i]);
      } else {
        FromSearchKey(firstKey, lastKey, keys[i]);
      }
    }
  }
}
