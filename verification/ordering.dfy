/**
 * Order indices of sections and lessons, and sorting by a key.
 * Order indices are Java `Integer`s, so they are kept in the 32-bit range and
 * Java's wrapping addition is written out.
 */
module Ordering {
  import opened Wrappers

  const INT32_MIN: int := -0x8000_0000
  const INT32_MAX: int := 0x7FFF_FFFF

  type Int32 = x: int | INT32_MIN <= x <= INT32_MAX

  /** Java's 32-bit two's-complement wrap of a mathematical integer. */
  function Wrap32(x: int): (r: Int32)
    ensures INT32_MIN <= x <= INT32_MAX ==> r == x
    ensures (r - x) % 0x1_0000_0000 == 0
  {
    (x - INT32_MIN) % 0x1_0000_0000 + INT32_MIN
  }

  /**
   * The largest index among the siblings, or `emptyMax` when there are none:
   * what the repository's max-order-index query reports for a parent.
   */
  function MaxOr(xs: seq<Int32>, emptyMax: Int32): (m: Int32)
    ensures xs == [] ==> m == emptyMax
    ensures xs != [] ==> m in xs
    ensures forall i :: 0 <= i < |xs| ==> xs[i] <= m
  {
    if xs == [] then emptyMax
    else if |xs| == 1 then xs[0]
    else
      var rest := MaxOr(xs[1..], emptyMax);
      if xs[0] >= rest then xs[0] else rest
  }

  /** The allocator as the source computes it: the maximum plus one in Java `int` arithmetic. */
  function NextIndexAsWritten(siblings: seq<Int32>, emptyMax: Int32): Int32
  {
    Wrap32(MaxOr(siblings, emptyMax) + 1)
  }

  /**
   * The allocator with the evidently intended guarantee: one past the maximum,
   * or no index at all when that would leave the 32-bit range.
   */
  function NextIndex(siblings: seq<Int32>, emptyMax: Int32): (r: Option<Int32>)
    ensures r.None? <==> MaxOr(siblings, emptyMax) == INT32_MAX
    ensures r.Some? ==> r.value == MaxOr(siblings, emptyMax) + 1
    ensures r.Some? ==> forall i :: 0 <= i < |siblings| ==> siblings[i] < r.value
    ensures r.Some? && siblings == [] ==> r.value == emptyMax + 1
  {
    var m := MaxOr(siblings, emptyMax);
    if m == INT32_MAX then None else Some(m + 1)
  }

  /** The index a new child receives: the explicit one when given, else the allocator's. */
  function Allocate(explicit: Option<Int32>, siblings: seq<Int32>, emptyMax: Int32): (r: Option<Int32>)
    ensures explicit.Some? ==> r == explicit
    ensures explicit.None? && r.Some? ==> r.value == MaxOr(siblings, emptyMax) + 1
    ensures explicit.None? && r.Some? ==> forall i :: 0 <= i < |siblings| ==> siblings[i] < r.value
    ensures explicit.None? ==> (r.None? <==> MaxOr(siblings, emptyMax) == INT32_MAX)
  {
    if explicit.Some? then explicit else NextIndex(siblings, emptyMax)
  }

  /** Wherever the corrected allocator yields an index, it is the one the source computes. */
  lemma NextIndexAgreesWithAsWritten(siblings: seq<Int32>, emptyMax: Int32)
    ensures NextIndex(siblings, emptyMax).Some? ==>
              NextIndex(siblings, emptyMax).value == NextIndexAsWritten(siblings, emptyMax)
  {
  }

  /**
   * The source's allocator can place a new child BEFORE its siblings: after a
   * sibling at Integer.MAX_VALUE the next index wraps to Integer.MIN_VALUE.
   */
  lemma NextIndexAsWrittenWrapsAtMax(emptyMax: Int32)
    ensures NextIndexAsWritten([INT32_MAX], emptyMax) == INT32_MIN
    ensures NextIndexAsWritten([INT32_MAX], emptyMax) < INT32_MAX
  {
  }

  /** `xs` is in non-decreasing order of `key`. */
  predicate SortedBy<T>(xs: seq<T>, key: T -> int)
  {
    forall i, j :: 0 <= i < j < |xs| ==> key(xs[i]) <= key(xs[j])
  }

  /** Inserts `x` into a sorted sequence, ahead of every element with an equal or larger key. */
  function InsertBy<T>(x: T, xs: seq<T>, key: T -> int): (r: seq<T>)
    requires SortedBy(xs, key)
    ensures SortedBy(r, key)
    ensures multiset(r) == multiset(xs) + multiset{x}
  {
    if xs == [] || key(x) <= key(xs[0]) then [x] + xs
    else
      var rest := InsertBy(x, xs[1..], key);
      assert xs == [xs[0]] + xs[1..];
      assert forall k :: 0 <= k < |rest| ==> key(xs[0]) <= key(rest[k]) by {
        forall k | 0 <= k < |rest|
          ensures key(xs[0]) <= key(rest[k])
        {
          assert rest[k] in multiset(rest);
          assert rest[k] == x || rest[k] in multiset(xs[1..]);
          if rest[k] != x {
            var j :| 0 <= j < |xs[1..]| && xs[1..][j] == rest[k];
            assert xs[j + 1] == rest[k];
          }
        }
      }
      [xs[0]] + rest
  }

  /** Insertion sort by `key`: the same elements, in non-decreasing key order. */
  function SortBy<T>(xs: seq<T>, key: T -> int): (r: seq<T>)
    ensures SortedBy(r, key)
    ensures multiset(r) == multiset(xs)
    ensures |r| == |xs|
  {
    if xs == [] then []
    else
      assert xs == [xs[0]] + xs[1..];
      InsertBy(xs[0], SortBy(xs[1..], key), key)
  }
}
