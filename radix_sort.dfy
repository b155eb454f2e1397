/**
 * LSD radix sort (Sorting.java:337-375), base 10, over Java `int`s, negative ones included.
 * Pass `k` (divisor `div == 10^k`) throws every number into one of 19 buckets by its signed
 * digit `(num / div) % 10`, in `-9 .. 9` under Java's truncating division, and copies the
 * buckets back in order; it goes on while some number still has a digit beyond this one.
 */
module RadixSort {
  import opened JavaInt
  import opened SortSpec

  /** The bucket `num` goes to in the pass with divisor `div` (Sorting.java:352-353). */
  function BucketOf(num: int, div: int): (b: int)
    requires div > 0
    ensures 0 <= b < 19
  {
    JRem(JDiv(num, div), 10) + 9
  }

  /** The pass with divisor `div` is not the last for `num` (Sorting.java:355-357). */
  predicate HasHigherDigit(num: int, div: int)
    requires div > 0
  {
    JDiv(JDiv(num, div), 10) != 0
  }

  /** The elements of `s` that go to bucket `b`, in their order in `s`. */
  function Bucket(s: seq<int>, div: int, b: int): (r: seq<int>)
    requires div > 0
    ensures |r| <= |s|
  {
    if s == [] then []
    else
      var last := s[|s| - 1];
      Bucket(s[..|s| - 1], div, b) + (if BucketOf(last, div) == b then [last] else [])
  }

  /** Buckets `0 .. b-1` copied out one after the other (Sorting.java:364-372). */
  function Gathered(s: seq<int>, div: int, b: int): (r: seq<int>)
    requires div > 0 && 0 <= b <= 19
  {
    if b == 0 then [] else Gathered(s, div, b - 1) + Bucket(s, div, b - 1)
  }

  /** Bucket `b` holds numbers of `s` that belong to bucket `b`. */
  lemma {:induction false} BucketMembers(s: seq<int>, div: int, b: int)
    requires div > 0
    ensures forall t :: 0 <= t < |Bucket(s, div, b)| ==>
              BucketOf(Bucket(s, div, b)[t], div) == b && Bucket(s, div, b)[t] in s
    decreases |s|
  {
    if s != [] {
      var init := s[..|s| - 1];
      BucketMembers(init, div, b);
      var u := Bucket(init, div, b);
      assert forall x :: x in init ==> x in s;
    }
  }

  /** Buckets `0 .. b-1` hold only numbers of buckets below `b`. */
  lemma {:induction false} GatheredBelow(s: seq<int>, div: int, b: int)
    requires div > 0 && 0 <= b <= 19
    ensures forall t :: 0 <= t < |Gathered(s, div, b)| ==> BucketOf(Gathered(s, div, b)[t], div) < b
    decreases b
  {
    if b > 0 {
      GatheredBelow(s, div, b - 1);
      BucketMembers(s, div, b - 1);
      var g, u := Gathered(s, div, b - 1), Bucket(s, div, b - 1);
      forall t | 0 <= t < |g + u|
        ensures BucketOf((g + u)[t], div) < b
      {
        if t >= |g| {
          assert (g + u)[t] == u[t - |g|];
        }
      }
    }
  }

  function Identity(x: int): int
  {
    x
  }

  /** Sorted by the Java remainder by `m`: by the lowest decimal digits, sign included. */
  ghost predicate SortedMod(s: seq<int>, m: int)
    requires m > 0
  {
    forall i, j :: 0 <= i < j < |s| ==> JRem(s[i], m) <= JRem(s[j], m)
  }

  ghost function MaxAbs(s: seq<int>): (m: nat)
    ensures forall t :: 0 <= t < |s| ==> s[t] <= m && -s[t] <= m
  {
    if s == [] then 0
    else
      var rest := MaxAbs(s[1..]);
      var here := if s[0] >= 0 then s[0] else -s[0];
      if here > rest then here else rest
  }

  /** Sorting.java:337-375. */
  method LsdRadixSort(arr: array<int>)
    modifies arr
    ensures SortedBy(arr[..], Identity)
    ensures multiset(arr[..]) == multiset(old(arr[..]))
  {
    var buckets := new seq<int>[19](_ => []);
    var div := 1;
    var continuing := true;
    ghost var s0 := arr[..];
    ghost var bound := MaxAbs(s0);
    FirstPass(s0);
    while continuing
      invariant div >= 1 && (continuing ==> div <= bound + 1)
      invariant multiset(arr[..]) == multiset(s0)
      invariant continuing ==> SortedMod(arr[..], div)
      invariant !continuing ==> SortedBy(arr[..], Identity)
      invariant forall b :: 0 <= b < 19 ==> buckets[b] == []
      decreases if continuing then bound + 2 - div else 0
    {
      ghost var s := arr[..];
      continuing := Distribute(arr, buckets, div);
      GatherAll(arr, buckets, s, div);
      ghost var div0 := div;
      div := div * 10;
      PassDone(s, arr[..], s0, div0, div, continuing, bound);
    }
  }

  /** There is a number with a digit beyond the pass with divisor `div`. */
  ghost predicate AnyHigherDigit(s: seq<int>, div: int)
    requires div > 0
  {
    exists k :: 0 <= k < |s| && HasHigherDigit(s[k], div)
  }

  /**
   * What one pass of the main loop achieves: the numbers are still the input's, and either
   * another pass follows, with a larger divisor still within the largest magnitude, and the
   * numbers are in order by one more digit, or the numbers are in order.
   */
  lemma PassDone(s: seq<int>, t: seq<int>, s0: seq<int>, div0: int, div: int, continuing: bool, bound: nat)
    requires div0 > 0 && div == div0 * 10 && SortedMod(s, div0)
    requires t == Gathered(s, div0, 19) && multiset(s) == multiset(s0) && bound == MaxAbs(s0)
    requires continuing == AnyHigherDigit(s, div0)
    ensures multiset(t) == multiset(s0)
    ensures continuing ==> SortedMod(t, div) && div <= bound
    ensures !continuing ==> SortedBy(t, Identity)
  {
    PassSorts(s, div0);
    GatheredPermutes(s, div0);
    if continuing {
      var k :| 0 <= k < |s| && HasHigherDigit(s[k], div0);
      DigitSplit(s[k], div0);
      NonzeroQuotient(s[k], 10 * div0);
      MaxAbsBounds(s, s0, k);
    } else {
      forall k | 0 <= k < |t|
        ensures !HasHigherDigit(t[k], div0)
      {
        assert t[k] in multiset(s);
        var j :| 0 <= j < |s| && s[j] == t[k];
      }
      LastPass(t, div0);
    }
  }

  /** Every number of a rearrangement of `s0` is within `MaxAbs(s0)` in magnitude. */
  lemma MaxAbsBounds(s: seq<int>, s0: seq<int>, k: int)
    requires multiset(s) == multiset(s0) && 0 <= k < |s|
    ensures s[k] <= MaxAbs(s0) && -s[k] <= MaxAbs(s0)
  {
    assert s[k] in multiset(s0);
    var j :| 0 <= j < |s0| && s0[j] == s[k];
  }

  /**
   * Throws every number of `arr` into its bucket, in array order, and tells whether some number
   * has a digit beyond this pass's (Sorting.java:351-362).
   */
  method Distribute(arr: array<int>, buckets: array<seq<int>>, div: int) returns (continuing: bool)
    requires div > 0 && buckets.Length == 19
    requires forall b :: 0 <= b < 19 ==> buckets[b] == []
    modifies buckets
    ensures forall b :: 0 <= b < 19 ==> buckets[b] == Bucket(arr[..], div, b)
    ensures continuing == AnyHigherDigit(arr[..], div)
  {
    continuing := false;
    var modulo := 10;
    var i := 0;
    while i < arr.Length
      invariant 0 <= i <= arr.Length
      invariant forall b :: 0 <= b < 19 ==> buckets[b] == Bucket(arr[..i], div, b)
      invariant continuing == AnyHigherDigit(arr[..i], div)
    {
      var num := arr[i];
      var bucket := JDiv(num, div);
      var bucketIndex := JRem(bucket, modulo) + 9;
      if JDiv(bucket, 10) != 0 {
        continuing := true;
      }
      assert arr[..i + 1] == arr[..i] + [num];
      assert arr[..i + 1][..i] == arr[..i];
      AnyHigherDigitSnoc(arr[..i], num, div);
      buckets[bucketIndex] := buckets[bucketIndex] + [num];
      i := i + 1;
    }
    assert arr[..i] == arr[..];
  }

  lemma AnyHigherDigitSnoc(s: seq<int>, x: int, div: int)
    requires div > 0
    ensures AnyHigherDigit(s + [x], div) == (AnyHigherDigit(s, div) || HasHigherDigit(x, div))
  {
    if HasHigherDigit(x, div) {
      assert (s + [x])[|s|] == x;
    }
    if AnyHigherDigit(s, div) {
      var k :| 0 <= k < |s| && HasHigherDigit(s[k], div);
      assert (s + [x])[k] == s[k];
    }
    if AnyHigherDigit(s + [x], div) {
      var k :| 0 <= k < |s + [x]| && HasHigherDigit((s + [x])[k], div);
      if k < |s| {
        assert (s + [x])[k] == s[k];
      }
    }
  }

  /** Copies the buckets back into `arr` in bucket order and empties them (Sorting.java:364-372). */
  method GatherAll(arr: array<int>, buckets: array<seq<int>>, ghost s: seq<int>, div: int)
    requires div > 0 && |s| == arr.Length && buckets.Length == 19
    requires forall b :: 0 <= b < 19 ==> buckets[b] == Bucket(s, div, b)
    modifies arr, buckets
    ensures arr[..] == Gathered(s, div, 19)
    ensures forall b :: 0 <= b < 19 ==> buckets[b] == []
  {
    GatheredPermutes(s, div);
    var index := 0;
    var b := 0;
    while b < 19
      invariant 0 <= b <= 19 && index == |Gathered(s, div, b)| <= arr.Length
      invariant forall t :: 0 <= t < index ==> arr[t] == Gathered(s, div, b)[t]
      invariant forall c :: 0 <= c < b ==> buckets[c] == []
      invariant forall c :: b <= c < 19 ==> buckets[c] == Bucket(s, div, c)
    {
      index := GatherBucket(arr, buckets, s, div, b, index);
      b := b + 1;
    }
    assert arr[..] == Gathered(s, div, 19);
  }

  /** One round of the copying loop: bucket `b` goes behind buckets `0 .. b-1` and is emptied. */
  method GatherBucket(arr: array<int>, buckets: array<seq<int>>, ghost s: seq<int>, div: int, b: int,
                      index: int) returns (next: int)
    requires div > 0 && |s| == arr.Length && buckets.Length == 19 && 0 <= b < 19
    requires index == |Gathered(s, div, b)| <= arr.Length
    requires forall t :: 0 <= t < index ==> arr[t] == Gathered(s, div, b)[t]
    requires buckets[b] == Bucket(s, div, b)
    modifies arr, buckets
    ensures next == |Gathered(s, div, b + 1)| <= arr.Length
    ensures forall t :: 0 <= t < next ==> arr[t] == Gathered(s, div, b + 1)[t]
    ensures buckets[b] == []
    ensures forall c :: 0 <= c < 19 && c != b ==> buckets[c] == old(buckets[c])
  {
    GatheredPermutes(s, div);
    GatheredLength(s, div, b + 1);
    var bucket := buckets[b];
    ghost var bs := buckets[..];
    next := CopyBucket(arr, bucket, index);
    assert forall c :: 0 <= c < 19 ==> buckets[c] == bs[c];
    buckets[b] := [];
    CopiedBucket(arr, s, div, b, index, next, b + 1);
  }

  /** Copies one bucket into `arr` from slot `index` on (Sorting.java:367-369). */
  method CopyBucket(arr: array<int>, bucket: seq<int>, index: int) returns (next: int)
    requires 0 <= index && index + |bucket| <= arr.Length
    modifies arr
    ensures next == index + |bucket|
    ensures forall t :: 0 <= t < index ==> arr[t] == old(arr[t])
    ensures forall t :: index <= t < next ==> arr[t] == bucket[t - index]
  {
    next := index;
    for j := 0 to |bucket|
      invariant next == index + j
      invariant forall t :: 0 <= t < index ==> arr[t] == old(arr[t])
      invariant forall t :: index <= t < next ==> arr[t] == bucket[t - index]
    {
      arr[next] := bucket[j];
      next := next + 1;
    }
  }

  /** After copying bucket `b` behind buckets `0 .. b-1`, the array starts with buckets `0 .. b`. */
  lemma CopiedBucket(a: array<int>, s: seq<int>, div: int, b: int, start: int, index: int, next: int)
    requires div > 0 && 0 <= b < 19 && next == b + 1 && start == |Gathered(s, div, b)|
    requires index == start + |Bucket(s, div, b)| <= a.Length
    requires forall t :: 0 <= t < start ==> a[t] == Gathered(s, div, b)[t]
    requires forall t :: start <= t < index ==> a[t] == Bucket(s, div, b)[t - start]
    ensures index == |Gathered(s, div, next)|
    ensures forall t :: 0 <= t < index ==> a[t] == Gathered(s, div, next)[t]
  {
    var g, u := Gathered(s, div, b), Bucket(s, div, b);
    assert Gathered(s, div, b + 1) == g + u;
    forall t | 0 <= t < index
      ensures a[t] == (g + u)[t]
    {
    }
  }

  lemma GatheredLength(s: seq<int>, div: int, b: int)
    requires div > 0 && 0 <= b <= 19
    ensures |Gathered(s, div, b)| <= |Gathered(s, div, 19)|
    decreases 19 - b
  {
    if b < 19 {
      GatheredLength(s, div, b + 1);
    }
  }

  /** Before the first pass every number has remainder 0 by 1, so any order is sorted by it. */
  lemma FirstPass(s: seq<int>)
    ensures SortedMod(s, 1)
  {
    forall t | 0 <= t < |s|
      ensures JRem(s[t], 1) == 0
    {
    }
  }

  /**
   * One pass turns an order by the lowest `k` digits into an order by the lowest `k + 1`:
   * bucket order sorts by the new digit, and each bucket keeps the old order.
   */
  lemma PassSorts(s: seq<int>, div: int)
    requires div > 0 && SortedMod(s, div)
    ensures SortedMod(Gathered(s, div, 19), 10 * div)
  {
    GatheredSorted(s, div, 19);
  }

  lemma {:induction false} GatheredSorted(s: seq<int>, div: int, b: int)
    requires div > 0 && 0 <= b <= 19 && SortedMod(s, div)
    ensures SortedMod(Gathered(s, div, b), 10 * div)
    decreases b
  {
    if b > 0 {
      GatheredSorted(s, div, b - 1);
      var g := Gathered(s, div, b - 1);
      var u := Bucket(s, div, b - 1);
      BucketSorted(s, div, b - 1);
      GatheredBelow(s, div, b - 1);
      BucketMembers(s, div, b - 1);
      var r := g + u;
      forall i, j | 0 <= i < j < |r|
        ensures JRem(r[i], 10 * div) <= JRem(r[j], 10 * div)
      {
        if j < |g| {
          assert r[i] == g[i] && r[j] == g[j];
        } else if i >= |g| {
          assert r[i] == u[i - |g|] && r[j] == u[j - |g|];
          DigitOrder(r[i], r[j], div);
        } else {
          assert r[i] == g[i] && r[j] == u[j - |g|];
          DigitOrder(r[i], r[j], div);
        }
      }
    }
  }

  /** A bucket is a subsequence of the pass's input, so it keeps that input's order. */
  lemma {:induction false} BucketSorted(s: seq<int>, div: int, b: int)
    requires div > 0 && SortedMod(s, div)
    ensures SortedMod(Bucket(s, div, b), div)
    decreases |s|
  {
    if s != [] {
      var init := s[..|s| - 1];
      var last := s[|s| - 1];
      assert SortedMod(init, div);
      BucketSorted(init, div, b);
      var u := Bucket(init, div, b);
      BucketMembers(init, div, b);
      forall t | 0 <= t < |u|
        ensures JRem(u[t], div) <= JRem(last, div)
      {
        assert u[t] in init;
        var k :| 0 <= k < |init| && init[k] == u[t];
        assert s[k] == u[t];
      }
    }
  }

  /**
   * How the new digit and the old remainder order two numbers by the new remainder: a smaller
   * digit comes first, and an equal digit leaves the old order.
   */
  lemma DigitOrder(x: int, y: int, div: int)
    requires div > 0
    ensures BucketOf(x, div) < BucketOf(y, div) ==> JRem(x, 10 * div) <= JRem(y, 10 * div)
    ensures BucketOf(x, div) == BucketOf(y, div) && JRem(x, div) <= JRem(y, div) ==>
              JRem(x, 10 * div) <= JRem(y, 10 * div)
  {
    DigitSplit(x, div);
    DigitSplit(y, div);
    var dx, dy := JRem(JDiv(x, div), 10), JRem(JDiv(y, div), 10);
    if dx < dy {
      LowerDigit(x, y, div, dx, dy, JRem(x, div), JRem(y, div));
    }
  }

  /**
   * `div * dx + rx` against `div * dy + ry` when the digit `dx` is the smaller one and each
   * remainder has its digit's sign.
   */
  lemma LowerDigit(x: int, y: int, div: int, dx: int, dy: int, rx: int, ry: int)
    requires div > 0 && dx < dy
    requires x >= 0 ==> 0 <= dx && 0 <= rx < div
    requires x < 0 ==> dx <= 0 && -div < rx <= 0
    requires y >= 0 ==> 0 <= dy && 0 <= ry < div
    requires y < 0 ==> dy <= 0 && -div < ry <= 0
    ensures div * dx + rx <= div * dy + ry
  {
    MulAtLeast(div, dy - dx);
    assert div * dy - div * dx == div * (dy - dx);
  }

  /** After the last pass the remainder by `10 * div` is the number itself. */
  lemma LastPass(s: seq<int>, div: int)
    requires div > 0 && SortedMod(s, 10 * div)
    requires forall k :: 0 <= k < |s| ==> !HasHigherDigit(s[k], div)
    ensures SortedBy(s, Identity)
  {
    forall t | 0 <= t < |s|
      ensures JRem(s[t], 10 * div) == s[t]
    {
      DigitSplit(s[t], div);
    }
  }

  /** Copying the buckets back loses and adds nothing. */
  lemma GatheredPermutes(s: seq<int>, div: int)
    requires div > 0
    ensures multiset(Gathered(s, div, 19)) == multiset(s)
    ensures |Gathered(s, div, 19)| == |s|
  {
    GatheredHoldsAll(s, div);
    assert |multiset(Gathered(s, div, 19))| == |multiset(s)|;
  }

  lemma {:induction false} GatheredHoldsAll(s: seq<int>, div: int)
    requires div > 0
    ensures multiset(Gathered(s, div, 19)) == multiset(s)
    decreases |s|
  {
    if s == [] {
      GatheredEmpty(div, 19);
    } else {
      var init := s[..|s| - 1];
      var last := s[|s| - 1];
      assert s == init + [last];
      GatheredHoldsAll(init, div);
      GatheredSnoc(init, last, div, 19);
      assert multiset(s) == multiset(init) + multiset{last};
    }
  }

  lemma {:induction false} GatheredEmpty(div: int, b: int)
    requires div > 0 && 0 <= b <= 19
    ensures Gathered([], div, b) == []
  {
    if b > 0 {
      GatheredEmpty(div, b - 1);
    }
  }

  /** Appending `x` to the input adds it to the buckets below `b` exactly when its bucket is. */
  lemma {:induction false} GatheredSnoc(s: seq<int>, x: int, div: int, b: int)
    requires div > 0 && 0 <= b <= 19
    ensures BucketOf(x, div) < b ==>
              multiset(Gathered(s + [x], div, b)) == multiset(Gathered(s, div, b)) + multiset{x}
    ensures BucketOf(x, div) >= b ==> multiset(Gathered(s + [x], div, b)) == multiset(Gathered(s, div, b))
    decreases b
  {
    if b > 0 {
      GatheredSnoc(s, x, div, b - 1);
      BucketSnoc(s, x, div, b - 1);
      assert Gathered(s + [x], div, b) == Gathered(s + [x], div, b - 1) + Bucket(s + [x], div, b - 1);
      assert Gathered(s, div, b) == Gathered(s, div, b - 1) + Bucket(s, div, b - 1);
      SnocStep(Gathered(s + [x], div, b), Gathered(s + [x], div, b - 1), Bucket(s + [x], div, b - 1),
               Gathered(s, div, b), Gathered(s, div, b - 1), Bucket(s, div, b - 1), x,
               BucketOf(x, div) < b - 1, BucketOf(x, div) == b - 1);
    }
  }

  lemma BucketSnoc(s: seq<int>, x: int, div: int, b: int)
    requires div > 0
    ensures BucketOf(x, div) == b ==> Bucket(s + [x], div, b) == Bucket(s, div, b) + [x]
    ensures BucketOf(x, div) != b ==> Bucket(s + [x], div, b) == Bucket(s, div, b)
  {
    assert (s + [x])[..|s + [x]| - 1] == s;
  }

  /** The multiset bookkeeping of one step of `GatheredSnoc`, on plain sequences. */
  lemma SnocStep(all1: seq<int>, low1: seq<int>, here1: seq<int>,
                 all0: seq<int>, low0: seq<int>, here0: seq<int>, x: int, inLow: bool, inHere: bool)
    requires all1 == low1 + here1 && all0 == low0 + here0 && !(inLow && inHere)
    requires inLow ==> multiset(low1) == multiset(low0) + multiset{x}
    requires !inLow ==> multiset(low1) == multiset(low0)
    requires inHere ==> here1 == here0 + [x]
    requires !inHere ==> here1 == here0
    ensures inLow || inHere ==> multiset(all1) == multiset(all0) + multiset{x}
    ensures !inLow && !inHere ==> multiset(all1) == multiset(all0)
  {
  }
}
