/**
 * FindSmallestNotContained: the smallest non-negative integer that does not
 * occur among the first `numElements` elements of an array of C ints.
 *
 * The C function runs in four phases: (1) a range scan for min and max,
 * (2) a short-circuit returning 0 when min > 0, (3) a byte bitmap filled with
 * the values, and (4) a search of the bitmap for its first zero bit.
 * Phases 1, 3 and 4 are the methods RangeScan, MarkBitmap and ScanBitmap;
 * phase 2 is the test inside FindSmallestNotContained. FindSmallestNotContained
 * is proved against the pure function SmallestFree.
 */
module Finder {
  import opened CInt
  import opened Bitmap

  // ---------------------------------------------------------------------
  // Specification
  // ---------------------------------------------------------------------

  /** r is the smallest free number of s: non-negative, absent, and every k in [0, r) occurs. */
  ghost predicate IsSmallestFree(s: seq<int>, r: int) {
    0 <= r && r !in s && forall k :: 0 <= k < r ==> k in s
  }

  /**
   * The first value at or above k that does not occur in s. The search never
   * needs to pass |s| (at most |s| distinct values can occur), so the bound
   * only serves termination; SmallestFreeCorrect shows it is never the reason
   * the search stops.
   */
  function FirstFreeFrom(s: seq<int>, k: nat): nat
    decreases |s| + 1 - k
  {
    if k <= |s| && k in s then FirstFreeFrom(s, k + 1) else k
  }

  /** Reference definition of the smallest free number: search upward from 0. */
  function SmallestFree(s: seq<int>): nat {
    FirstFreeFrom(s, 0)
  }

  /** The inputs on which the C function is defined. */
  predicate Supported(s: seq<int>) {
    // every value is a C int, and
    && (forall i :: 0 <= i < |s| ==> IsInt32(s[i]))
    // once the bitmap is built (some value <= 0), no value is negative and
    // max + 1 does not overflow; with C's truncating / and %, a value in
    // -7..-1 shifts by a negative amount, and a value <= -8 indexes before
    // the bitmap (or does both)
    && ((exists i :: 0 <= i < |s| && s[i] <= 0) ==>
          forall i :: 0 <= i < |s| ==> 0 <= s[i] < INT_MAX)
  }

  // ---------------------------------------------------------------------
  // Properties of the specification
  // ---------------------------------------------------------------------

  lemma {:induction false} FirstFreeFromScan(s: seq<int>, k: nat)
    requires k <= |s| + 1
    ensures k <= FirstFreeFrom(s, k) <= |s| + 1
    ensures forall j :: k <= j < FirstFreeFrom(s, k) ==> j in s
    ensures FirstFreeFrom(s, k) !in s || FirstFreeFrom(s, k) == |s| + 1
    decreases |s| + 1 - k
  {
    if k <= |s| && k in s {
      FirstFreeFromScan(s, k + 1);
    }
  }

  /** Covering all of 0..n-1 takes at least n elements. */
  lemma {:induction false} CoverNeedsLength(s: seq<int>, n: nat)
    requires forall k :: 0 <= k < n ==> k in s
    ensures n <= |s|
  {
    if n > 0 {
      assert n - 1 in s;
      var i :| 0 <= i < |s| && s[i] == n - 1;
      var rest := s[..i] + s[i + 1..];
      forall k | 0 <= k < n - 1
        ensures k in rest
      {
        assert k in s;
        var j :| 0 <= j < |s| && s[j] == k;
        if j < i {
          assert rest[j] == k;
        } else {
          assert rest[j - 1] == k;
        }
      }
      CoverNeedsLength(rest, n - 1);
    }
  }

  /** Pigeonhole: a sequence of length n cannot hold all of 0..n. */
  lemma PigeonholeFree(s: seq<int>)
    ensures exists j :: 0 <= j <= |s| && j !in s
  {
    if forall j :: 0 <= j <= |s| ==> j in s {
      CoverNeedsLength(s, |s| + 1);
    }
  }

  /** SmallestFree meets its specification, and it never exceeds the input length. */
  lemma SmallestFreeCorrect(s: seq<int>)
    ensures IsSmallestFree(s, SmallestFree(s))
    ensures SmallestFree(s) <= |s|
  {
    FirstFreeFromScan(s, 0);
    PigeonholeFree(s);
  }

  /** The specification determines the result: any smallest free number is SmallestFree. */
  lemma SmallestFreeUnique(s: seq<int>, r: int)
    requires IsSmallestFree(s, r)
    ensures r == SmallestFree(s)
  {
    SmallestFreeCorrect(s);
  }

  /** When every value is at most max, the answer is at most max + 1, and it is max + 1 exactly when all of 0..max occur. */
  lemma SmallestFreeAtMostMaxPlusOne(s: seq<int>, max: int)
    requires -1 <= max
    requires forall i :: 0 <= i < |s| ==> s[i] <= max
    ensures SmallestFree(s) <= max + 1
    ensures SmallestFree(s) == max + 1 <==> forall k :: 0 <= k <= max ==> k in s
  {
    SmallestFreeCorrect(s);
    assert max + 1 !in s;
  }

  /** With no value <= 0 (in particular with no value at all) the answer is 0. */
  lemma PositiveGivesZero(s: seq<int>)
    requires forall i :: 0 <= i < |s| ==> s[i] > 0
    ensures SmallestFree(s) == 0
  {
  }

  /** The two examples in the C function's comment, and a few more edge cases. */
  lemma Examples()
    ensures SmallestFree([20, 10, 0, 30]) == 1
    ensures SmallestFree([3, 2, 1, 0]) == 4
    ensures SmallestFree([]) == 0
    ensures SmallestFree([1, 2, 3]) == 0
    ensures SmallestFree([0, 1, 2, 3]) == 4
    ensures SmallestFree([0, 0, 0, 0]) == 1
  {
  }

  // ---------------------------------------------------------------------
  // The algorithm
  // ---------------------------------------------------------------------

  /** Phase 1: one pass computing min and max, which start at INT_MAX and INT_MIN. */
  method RangeScan(elements: array<int>, numElements: nat) returns (min: int, max: int)
    requires numElements <= elements.Length
    requires forall i :: 0 <= i < numElements ==> IsInt32(elements[i])
    ensures numElements == 0 ==> min == INT_MAX && max == INT_MIN
    ensures numElements > 0 ==> min in elements[..numElements] && max in elements[..numElements]
    ensures forall i :: 0 <= i < numElements ==> min <= elements[i] <= max
  {
    min, max := INT_MAX, INT_MIN;
    var i := 0;
    while i < numElements
      invariant 0 <= i <= numElements
      invariant i == 0 ==> min == INT_MAX && max == INT_MIN
      invariant i > 0 ==> min in elements[..i] && max in elements[..i]
      invariant forall j :: 0 <= j < i ==> min <= elements[j] <= max
    {
      var value := elements[i];
      assert elements[..i + 1] == elements[..i] + [value];
      if value > max {
        max := value;
      }
      if value < min {
        min := value;
      }
      i := i + 1;
    }
    assert elements[..i] == elements[..numElements];
  }

  /**
   * Phase 3 (phase 2, the short-circuit, is in FindSmallestNotContained): a zeroed bitmap of max / 8 + 1 bytes, then bit value % 8 of byte
   * value / 8 set for every element. (For the non-negative values allowed
   * here, C's truncating / and % agree with Dafny's.)
   */
  method MarkBitmap(elements: array<int>, numElements: nat, max: int) returns (bitmap: array<bv8>)
    requires numElements <= elements.Length
    requires 0 <= max
    requires forall i :: 0 <= i < numElements ==> 0 <= elements[i] <= max
    ensures bitmap.Length == max / 8 + 1
    ensures 8 * bitmap.Length > max
    ensures Marks(bitmap[..], elements[..numElements])
  {
    var numBitmapBytes := max / 8 + 1;
    bitmap := new bv8[numBitmapBytes](_ => 0);
    forall index, bit | 0 <= index < numBitmapBytes && 0 <= bit < 8
      ensures !BitSet(bitmap[index], bit)
    {
      ZeroByteClear(bit);
    }
    var i := 0;
    while i < numElements
      invariant 0 <= i <= numElements
      invariant bitmap.Length == numBitmapBytes
      invariant Marks(bitmap[..], elements[..i])
    {
      var value := elements[i];
      var index := value / 8;
      var bitPosition := value % 8;
      ghost var before := bitmap[..];
      bitmap[index] := bitmap[index] | Mask(bitPosition);
      assert elements[..i + 1] == elements[..i] + [value];
      forall idx, bit | 0 <= idx < numBitmapBytes && 0 <= bit < 8
        ensures BitSet(bitmap[idx], bit) <==> 8 * idx + bit in elements[..i + 1]
      {
        if idx == index {
          SetBitEffect(before[idx], bitPosition, bit);
        } else {
          assert bitmap[idx] == before[idx];
        }
      }
      i := i + 1;
    }
    assert elements[..i] == elements[..numElements];
  }

  /**
   * Phase 4: search the bitmap byte by byte, bit by bit, for the first zero
   * bit; if there is none, the answer stays max + 1.
   */
  method ScanBitmap(bitmap: array<bv8>, max: int, ghost s: seq<int>) returns (value: int)
    requires 0 <= max && bitmap.Length == max / 8 + 1
    requires forall i :: 0 <= i < |s| ==> s[i] <= max
    requires Marks(bitmap[..], s)
    ensures IsSmallestFree(s, value)
    ensures value <= max + 1
    ensures value == max + 1 <==> forall k :: 0 <= k <= max ==> k in s
  {
    assert max + 1 !in s;
    value := max + 1;
    var index := 0;
    label Found: while index < bitmap.Length
      invariant 0 <= index <= bitmap.Length
      invariant value == max + 1
      invariant forall k :: 0 <= k < 8 * index ==> k in s
    {
      var i := 0;
      while i < 8
        invariant 0 <= i <= 8
        invariant value == max + 1
        invariant forall k :: 0 <= k < 8 * index + i ==> k in s
      {
        if bitmap[index] & Mask(i) == 0 {
          assert !BitSet(bitmap[..][index], i);
          value := index * 8 + i;
          break Found;
        }
        assert BitSet(bitmap[..][index], i);
        i := i + 1;
      }
      index := index + 1;
    }
  }

  /** The whole function: the answer is the smallest free number of the elements, which are only read. */
  method FindSmallestNotContained(elements: array<int>, numElements: nat) returns (r: int)
    requires numElements <= elements.Length
    requires Supported(elements[..numElements])
    ensures IsSmallestFree(elements[..numElements], r)
    ensures r == SmallestFree(elements[..numElements])
    ensures (forall i :: 0 <= i < numElements ==> elements[i] > 0) ==> r == 0
  {
    ghost var s := elements[..numElements];
    var min, max := RangeScan(elements, numElements);
    if min > 0 {
      // Short circuit, for the empty input too: 0 does not occur.
      r := 0;
    } else {
      var k :| 0 <= k < numElements && elements[k] == min;
      assert s[k] <= 0;
      var bitmap := MarkBitmap(elements, numElements, max);
      r := ScanBitmap(bitmap, max, s);
    }
    SmallestFreeUnique(s, r);
  }
}
