/** The frequency table behind HistogramCounter, stated on values.
    A table is a sequence of 256 bucket counts; `Tally` is one call of `inc`,
    `TallyAll` a run of them, `Bar` is what `print` renders and `ToInt32`
    is Java's narrowing of a sum into an `int`. */
module Histogram {

  /** Number of buckets in the table (`new long[256]`). */
  const BucketCount: nat := 256
  /** The single bucket that collects every value of 255 or more. */
  const OverflowBucket: nat := 255

  const TwoTo31: int := 0x8000_0000
  const TwoTo32: int := 0x1_0000_0000

  /** What `inc` does with a value it cannot index: Java throws
      ArrayIndexOutOfBoundsException for a negative index. */
  datatype Error = IndexOutOfBounds(index: int)

  datatype Result<T> = Ok(value: T) | Err(error: Error)

  /** A table of the right size holding nothing (a fresh `long[256]`). */
  function Zeros(): (z: seq<nat>)
    ensures |z| == BucketCount
    ensures forall j :: 0 <= j < |z| ==> z[j] == 0
  {
    seq(BucketCount, _ => 0)
  }

  /** The bucket `inc` charges for a non-negative value: the value itself
      while it indexes a regular bucket, clamped to the overflow bucket above. */
  function BucketOf(value: int): (b: int)
    ensures value >= 0 ==> 0 <= b < BucketCount
    ensures b <= value
    ensures b < OverflowBucket ==> b == value
  {
    if value < OverflowBucket then value else OverflowBucket
  }

  /** Sum of the buckets, accumulated in ascending index order. */
  function Sum(s: seq<nat>): nat
  {
    if s == [] then 0 else Sum(s[..|s| - 1]) + s[|s| - 1]
  }

  /** One call of `inc(value)` on the table `counts`. */
  function Tally(counts: seq<nat>, value: int): (r: Result<seq<nat>>)
    requires |counts| == BucketCount
    ensures r.Err? <==> value < 0
    ensures r.Err? ==> r.error == IndexOutOfBounds(value)
    ensures r.Ok? ==> |r.value| == BucketCount
    ensures 0 <= value < OverflowBucket ==>
      r.Ok? && r.value[value] == counts[value] + 1 &&
      forall j :: 0 <= j < BucketCount && j != value ==> r.value[j] == counts[j]
    ensures value >= OverflowBucket ==>
      r.Ok? && r.value[OverflowBucket] == counts[OverflowBucket] + 1 &&
      forall j :: 0 <= j < OverflowBucket ==> r.value[j] == counts[j]
  {
    if value < 0 then Err(IndexOutOfBounds(value))
    else
      var b := BucketOf(value);
      Ok(counts[b := counts[b] + 1])
  }

  /** The calls `inc(values[0])`, ..., `inc(values[|values| - 1])` in order,
      stopping at the first one that fails. */
  function TallyAll(counts: seq<nat>, values: seq<int>): (r: Result<seq<nat>>)
    requires |counts| == BucketCount
    ensures r.Ok? ==> |r.value| == BucketCount
  {
    if values == [] then Ok(counts)
    else
      match TallyAll(counts, values[..|values| - 1])
      case Err(e) => Err(e)
      case Ok(c) => Tally(c, values[|values| - 1])
  }

  /** How many of `values` fall into bucket `b`. */
  function Occurrences(values: seq<int>, b: int): nat
  {
    if values == [] then 0
    else Occurrences(values[..|values| - 1], b) + (if BucketOf(values[|values| - 1]) == b then 1 else 0)
  }

  /** Java's narrowing of an integer to a 32-bit two's-complement `int`. */
  function ToInt32(x: int): (r: int)
    ensures -TwoTo31 <= r < TwoTo31
    ensures (x - r) % TwoTo32 == 0
    ensures 0 <= x < TwoTo31 ==> r == x
  {
    (x + TwoTo31) % TwoTo32 - TwoTo31
  }

  /** `k` is the index the first loop of `toString` settles on: the greatest
      non-empty bucket, or the overflow bucket when the table is empty. */
  ghost predicate IsLastValue(s: seq<nat>, k: int)
    requires |s| == BucketCount
  {
    0 <= k < BucketCount &&
    (forall j :: k < j < BucketCount ==> s[j] == 0) &&
    (s[k] != 0 || (k == OverflowBucket && forall j :: 0 <= j < BucketCount ==> s[j] == 0))
  }

  /** The bar `print(n)` draws: `n` copies of 'X', nothing when `n <= 0`. */
  function Bar(n: int): (r: string)
    ensures |r| == if n <= 0 then 0 else n
    ensures forall i :: 0 <= i < |r| ==> r[i] == 'X'
    decreases n
  {
    if n <= 0 then "" else Bar(n - 1) + "X"
  }

  // ---------------------------------------------------------------------
  // Sums

  /** Raising one bucket by `d` raises the sum by `d`. */
  lemma {:induction false} SumUpdate(s: seq<nat>, j: int, d: nat)
    requires 0 <= j < |s|
    ensures Sum(s[j := s[j] + d]) == Sum(s) + d
  {
    var t := s[j := s[j] + d];
    assert t[..|t| - 1] == if j == |s| - 1 then s[..|s| - 1] else s[..|s| - 1][j := s[j] + d];
    if j < |s| - 1 {
      SumUpdate(s[..|s| - 1], j, d);
    }
  }

  /** Buckets that are all zero from `k` on add nothing to the sum. */
  lemma {:induction false} SumZeroTail(s: seq<nat>, k: nat)
    requires k <= |s|
    requires forall j :: k <= j < |s| ==> s[j] == 0
    ensures Sum(s[..k]) == Sum(s)
  {
    if k < |s| {
      assert s[..|s| - 1][..k] == s[..k];
      SumZeroTail(s[..|s| - 1], k);
    } else {
      assert s[..k] == s;
    }
  }

  /** The empty table sums to zero. */
  lemma {:induction false} SumZeros(s: seq<nat>)
    requires forall j :: 0 <= j < |s| ==> s[j] == 0
    ensures Sum(s) == 0
  {
    if s != [] {
      SumZeros(s[..|s| - 1]);
    }
  }

  // ---------------------------------------------------------------------
  // Tallying

  /** Each successful `inc` adds exactly one to the table's total. */
  lemma TallyAddsOne(counts: seq<nat>, value: int)
    requires |counts| == BucketCount
    requires value >= 0
    ensures Tally(counts, value).Ok?
    ensures Sum(Tally(counts, value).value) == Sum(counts) + 1
  {
    SumUpdate(counts, BucketOf(value), 1);
  }

  /** A run of `inc` calls succeeds exactly when no value is negative. */
  lemma {:induction false} TallyAllSucceeds(counts: seq<nat>, values: seq<int>)
    requires |counts| == BucketCount
    ensures TallyAll(counts, values).Ok? <==> forall i :: 0 <= i < |values| ==> values[i] >= 0
  {
    if values != [] {
      var init := values[..|values| - 1];
      TallyAllSucceeds(counts, init);
      assert forall i :: 0 <= i < |init| ==> init[i] == values[i];
    }
  }

  /** `reset` followed by k calls of `inc` leaves a table whose total is k. */
  lemma {:induction false} TallyAllSum(counts: seq<nat>, values: seq<int>)
    requires |counts| == BucketCount
    requires TallyAll(counts, values).Ok?
    ensures Sum(TallyAll(counts, values).value) == Sum(counts) + |values|
  {
    if values != [] {
      var init := values[..|values| - 1];
      TallyAllSum(counts, init);
      TallyAddsOne(TallyAll(counts, init).value, values[|values| - 1]);
    }
  }

  /** After `reset`, every bucket holds the number of tallied values that
      fall into it: the table is the histogram of the values. */
  lemma {:induction false} TallyAllCounts(values: seq<int>, b: int)
    requires TallyAll(Zeros(), values).Ok?
    requires 0 <= b < BucketCount
    ensures TallyAll(Zeros(), values).value[b] == Occurrences(values, b)
  {
    if values != [] {
      var init := values[..|values| - 1];
      TallyAllCounts(init, b);
    }
  }

  // ---------------------------------------------------------------------
  // 32-bit arithmetic

  /** Narrowing after every addition gives the narrowed exact sum: this is
      what `total += calls[i]` computes step by step. */
  lemma AccumulateInt32(total: int, x: int, c: int)
    requires total == ToInt32(x)
    ensures ToInt32(total + c) == ToInt32(x + c)
  {
  }
}
