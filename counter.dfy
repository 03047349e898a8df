/** The HistogramCounter class: a named table of 256 counters that `Inc`
    updates in place, `Reset` replaces, and `Report` renders. */
module Counter {
  import opened Histogram

  /** What `toString` reports, without its text layout: the counter's name
      (the header), the last bucket listed, one bar per listed bucket and
      the total as the 32-bit `int` it is accumulated in. */
  datatype Summary = Summary(name: string, lastValue: int, bars: seq<string>, total: int)

  class HistogramCounter {
    /** The buckets (Java `long[] calls`); counts are unbounded here. */
    var calls: array<nat>
    const name: string
    /** The values passed to `Inc` since construction or the last `Reset`. */
    ghost var tallied: seq<int>

    /** The table has 256 buckets and is the histogram of `tallied`. */
    ghost predicate Valid()
      reads this, calls
    {
      calls.Length == BucketCount && TallyAll(Zeros(), tallied) == Ok(calls[..])
    }

    constructor (name: string)
      ensures Valid() && fresh(calls)
      ensures this.name == name && tallied == [] && calls[..] == Zeros()
    {
      this.name := name;
      calls := new nat[BucketCount](_ => 0);
      tallied := [];
      new;
      assert calls[..] == Zeros();
    }

    /** Counts `value` in its bucket; values of 255 or more share bucket 255.
        A negative value is out of bounds (see `Histogram.Tally`). */
    method Inc(value: int)
      requires Valid()
      requires value >= 0
      modifies this`tallied, calls
      ensures Valid() && calls == old(calls)
      ensures tallied == old(tallied) + [value]
      ensures Tally(old(calls[..]), value) == Ok(calls[..])
      ensures value < OverflowBucket ==>
        calls[value] == old(calls[value]) + 1 &&
        forall j :: 0 <= j < BucketCount && j != value ==> calls[j] == old(calls[j])
      ensures value >= OverflowBucket ==>
        calls[OverflowBucket] == old(calls[OverflowBucket]) + 1 &&
        forall j :: 0 <= j < OverflowBucket ==> calls[j] == old(calls[j])
      ensures Sum(calls[..]) == old(Sum(calls[..])) + 1
      ensures Sum(calls[..]) == |tallied|
    {
      ghost var before := calls[..];
      ghost var b := BucketOf(value);
      if value < OverflowBucket {
        calls[value] := calls[value] + 1;
      } else {
        calls[OverflowBucket] := calls[OverflowBucket] + 1;
      }
      assert calls[..] == before[b := before[b] + 1];
      assert Tally(before, value) == Ok(calls[..]);
      TallyAddsOne(before, value);
      tallied := tallied + [value];
      assert tallied[..|tallied| - 1] == old(tallied);
      assert TallyAll(Zeros(), tallied) == Tally(before, value);
      SumZeros(Zeros());
      TallyAllSum(Zeros(), tallied);
    }

    /** Replaces the table with a fresh, empty one. */
    method Reset()
      requires Valid()
      modifies this`calls, this`tallied
      ensures Valid() && fresh(calls)
      ensures tallied == [] && calls[..] == Zeros()
      ensures Sum(calls[..]) == 0
    {
      calls := new nat[BucketCount](_ => 0);
      tallied := [];
      assert calls[..] == Zeros();
      SumZeros(calls[..]);
    }

    /** The bar for a count of `n`: `n` copies of 'X'. The counter is an
        unbounded integer (see `PrintCounterAfter` for Java's `int`). */
    static method Print(n: int) returns (r: string)
      ensures r == Bar(n)
    {
      r := "";
      var i := 0;
      while i < n
        invariant 0 <= i <= if n > 0 then n else 0
        invariant r == Bar(i)
      {
        r := r + "X";
        i := i + 1;
      }
      if n <= 0 {
        assert Bar(n) == "" == Bar(0);
      }
    }

    /** The first loop of `toString`: scans down from bucket 255 for the
        first non-empty bucket, keeping 255 when there is none. */
    method LastValue() returns (last: int)
      requires calls.Length == BucketCount
      ensures IsLastValue(calls[..], last)
    {
      last := OverflowBucket;
      var i := OverflowBucket as int;
      while i >= 0
        invariant -1 <= i <= OverflowBucket
        invariant forall j :: i < j < BucketCount ==> calls[j] == 0
        invariant last == OverflowBucket
      {
        if calls[i] != 0 {
          last := i;
          break;
        }
        i := i - 1;
      }
    }

    /** `toString` without its text layout: lists buckets 0..lastValue with
        their bars and narrows the running total to an `int` after each
        addition. */
    method Report() returns (r: Summary)
      requires calls.Length == BucketCount
      ensures r.name == name
      ensures IsLastValue(calls[..], r.lastValue)
      ensures |r.bars| == r.lastValue + 1
      ensures forall i :: 0 <= i < |r.bars| ==> r.bars[i] == Bar(calls[i])
      ensures r.total == ToInt32(Sum(calls[..]))
      ensures Sum(calls[..]) < TwoTo31 ==> r.total == Sum(calls[..])
    {
      var lastValue := LastValue();
      var total := 0;
      var bars: seq<string> := [];
      var i := 0;
      while i <= lastValue
        invariant 0 <= i <= lastValue + 1
        invariant |bars| == i
        invariant forall k :: 0 <= k < i ==> bars[k] == Bar(calls[k])
        invariant total == ToInt32(Sum(calls[..i]))
      {
        var bar := Print(calls[i]);
        bars := bars + [bar];
        assert calls[..i + 1][..i] == calls[..i];
        AccumulateInt32(total, Sum(calls[..i]), calls[i]);
        total := ToInt32(total + calls[i]);
        i := i + 1;
      }
      SumZeroTail(calls[..], lastValue + 1);
      assert calls[..][..lastValue + 1] == calls[..lastValue + 1];
      r := Summary(name, lastValue, bars, total);
    }
  }

  // -----------------------------------------------------------------------
  // The loop counter of `print` is a Java `int` compared with a `long`.

  /** The value of the `int` counter `i` of `print` after `k` iterations:
      always an `int`, and equal to `k` while `k` is below 2^31. */
  function PrintCounterAfter(k: nat): (c: int)
    ensures -TwoTo31 <= c < TwoTo31
    ensures k < TwoTo31 ==> c == k
  {
    if k == 0 then 0 else ToInt32(PrintCounterAfter(k - 1) + 1)
  }

  /** The `int` counter holds `k` narrowed to 32 bits. */
  lemma {:induction false} PrintCounterWraps(k: nat)
    ensures PrintCounterAfter(k) == ToInt32(k)
  {
    if k > 0 {
      PrintCounterWraps(k - 1);
      AccumulateInt32(PrintCounterAfter(k - 1), k - 1, 1);
    }
  }

  /** Against a bound of 2^31 or more the guard `i < n` never fails on the
      counter alone: it wraps to -2^31 after 2^31 iterations. The loop body
      stops first in Java, whose strings hold fewer than 2^31 characters. */
  lemma PrintCounterMissesLargeBound(n: int, k: nat)
    requires n >= TwoTo31
    ensures PrintCounterAfter(k) < n
    ensures PrintCounterAfter(TwoTo31) == -TwoTo31
  {
  }
}
