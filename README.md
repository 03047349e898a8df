# HistogramCounter in Dafny

`HistogramCounter` is a small debugging aid from the constraint solver's test suite. It is a frequency table with a name. The table has 256 `long` buckets. `inc(value)` counts a value in bucket `value`. Every value of 255 or more goes into one overflow bucket, index 255. `reset()` replaces the table with an empty one. `toString()` finds the highest non-empty bucket, lists buckets 0 up to that index, each with a bar of `X` characters drawn by `print(n)`, and ends with the total of the listed counts.

The model has two modules:

- `Histogram` (histogram.dfy) states the table on values. A table is a `seq<nat>` of 256 counts. `Tally` is one `inc`, and `TallyAll` is a run of them. `Bar` is the string `print` draws. `ToInt32` is Java's narrowing of a sum into an `int`. `IsLastValue` characterises the index `toString` stops at. Lemmas relate these: each `inc` adds one to the total, and after a reset every bucket holds the number of tallied values that fall into it.
- `Counter` (counter.dfy) holds the class `HistogramCounter`. It has the array `calls` that `Inc` updates in place and `Reset` replaces, and the constant `name`. A ghost field `tallied` records the values passed to `Inc` since the last reset. `Valid()` ties the array to `TallyAll(Zeros(), tallied)`. `Print`, `LastValue` and `Report` are the loops of `print` and `toString`, each proved against the functions above.

## Model

| member | source | states |
|---|---|---|
| `Histogram.Zeros` | constraintlayout/solver/src/test/java/android/support/constraint/solver/HistogramCounter.java:22 | a fresh table has 256 buckets, all zero |
| `Histogram.BucketOf` | constraintlayout/solver/src/test/java/android/support/constraint/solver/HistogramCounter.java:26-30 | the bucket a non-negative value goes to is always one of the 256; it is the value itself below 255 and never more than the value, so every value of 255 or more lands in bucket 255 |
| `Histogram.Tally` | constraintlayout/solver/src/test/java/android/support/constraint/solver/HistogramCounter.java:25-31 | `inc(value)` fails with an out-of-bounds error exactly when `value < 0`; for `0 <= value < 255` it raises bucket `value` by one and leaves the other 255 unchanged; for `value >= 255` it raises only bucket 255 by one; the table keeps 256 buckets |
| `Histogram.TallyAddsOne` | constraintlayout/solver/src/test/java/android/support/constraint/solver/HistogramCounter.java:25-31 | each successful `inc` raises the sum of all buckets by exactly one |
| `Histogram.TallyAllSucceeds` | constraintlayout/solver/src/test/java/android/support/constraint/solver/HistogramCounter.java:25-31 | a run of `inc` calls completes exactly when none of its values is negative |
| `Histogram.TallyAllSum` | constraintlayout/solver/src/test/java/android/support/constraint/solver/HistogramCounter.java:25-39 | a completed run of k `inc` calls raises the total by k, so after `reset` and k calls the total is k |
| `Histogram.TallyAllCounts` | constraintlayout/solver/src/test/java/android/support/constraint/solver/HistogramCounter.java:22-31 | after `reset`, bucket b holds the number of tallied values whose bucket is b: the table is the histogram of the values |
| `Histogram.Bar` | constraintlayout/solver/src/test/java/android/support/constraint/solver/HistogramCounter.java:41-47 | the bar for `n` is exactly `n` characters, all `'X'`, and empty when `n <= 0` |
| `Histogram.ToInt32` | constraintlayout/solver/src/test/java/android/support/constraint/solver/HistogramCounter.java:59-62 | narrowing to `int` gives a value in [-2^31, 2^31) that is congruent to its input modulo 2^32, and leaves values in [0, 2^31) unchanged |
| `Histogram.AccumulateInt32` | constraintlayout/solver/src/test/java/android/support/constraint/solver/HistogramCounter.java:62 | narrowing the running total after each addition gives the same `int` as narrowing the exact sum once |
| `Histogram.SumZeroTail` | constraintlayout/solver/src/test/java/android/support/constraint/solver/HistogramCounter.java:59-63 | when every bucket from k on is empty, the sum of buckets 0..k-1 is the sum of the whole table |
| `Counter.HistogramCounter.constructor` | constraintlayout/solver/src/test/java/android/support/constraint/solver/HistogramCounter.java:22-23 | a new counter has the given name and a fresh table of 256 empty buckets, and nothing tallied |
| `Counter.HistogramCounter.Inc` | constraintlayout/solver/src/test/java/android/support/constraint/solver/HistogramCounter.java:25-31 | for a non-negative value, updates the same array in place as `Tally` does; bucket `value` (or 255 for values of 255 or more) rises by one and every other bucket is unchanged; the total rises by one and equals the number of values tallied since the last reset; the table stays the histogram of those values |
| `Counter.HistogramCounter.Reset` | constraintlayout/solver/src/test/java/android/support/constraint/solver/HistogramCounter.java:37-39 | replaces the array with a fresh one of 256 zero buckets, clears the tally, leaves the total at zero and keeps the name |
| `Counter.HistogramCounter.Print` | constraintlayout/solver/src/test/java/android/support/constraint/solver/HistogramCounter.java:41-47 | the loop builds exactly `Bar(n)`: `n` copies of `'X'`, or the empty string when `n <= 0` |
| `Counter.HistogramCounter.LastValue` | constraintlayout/solver/src/test/java/android/support/constraint/solver/HistogramCounter.java:52-58 | the downward scan returns the greatest index whose bucket is non-zero, or 255 when every bucket is zero; every bucket above it is zero |
| `Counter.HistogramCounter.Report` | constraintlayout/solver/src/test/java/android/support/constraint/solver/HistogramCounter.java:49-66 | reports the name, the last value as `LastValue` defines it, one bar `Bar(calls[i])` for each bucket 0..lastValue, and a total that is the sum of all buckets narrowed to `int`, equal to that sum whenever it is below 2^31 |
| `Counter.PrintCounterAfter` | constraintlayout/solver/src/test/java/android/support/constraint/solver/HistogramCounter.java:43 | after k iterations of `i++` the `int` loop counter of `print` is an `int`, and equals k while k is below 2^31 |
| `Counter.PrintCounterWraps` | constraintlayout/solver/src/test/java/android/support/constraint/solver/HistogramCounter.java:43 | after k iterations the `int` loop counter of `print` holds k narrowed to 32 bits, not k |
| `Counter.PrintCounterMissesLargeBound` | constraintlayout/solver/src/test/java/android/support/constraint/solver/HistogramCounter.java:43 | against a bound `n >= 2^31`, the guard `i < n` holds for every counter value the `int` can take, and after 2^31 iterations the counter is -2^31; this matters only if the body could run 2^31 times, which Java's string length limit prevents |

## Left out

- The text layout of `toString` is not modelled. This covers the header line, the `"[i] = n -> "` prefix of each line, the decimal rendering of numbers and the `"Total calls "` trailer. `Report` returns the pieces those lines are built from: the name, the last value, the bars and the total.
- The buckets are unbounded naturals. The 64-bit wrap-around of a Java `long` counter is not modelled, since it needs about 2^63 calls of `inc`.
- Inc: the method requires `value >= 0`, because Java throws `ArrayIndexOutOfBoundsException` for a negative index and the table stays unchanged. That error path is modelled on values, by `Tally` returning `Err(IndexOutOfBounds(value))`.
- The `int` type of `inc`'s parameter is not modelled. The model accepts every integer, and all integers of 255 or more go to the overflow bucket either way.
- Print: returns `Bar(n)` for every `n`, including `n` at or above Java's maximum `String` length, where `ret += "X"` throws `OutOfMemoryError`. Strings have no length limit in the model. The `int` loop counter is modelled separately by `PrintCounterAfter`.
- Direct writes to the package-private `calls` field from other classes are not modelled. `Valid()` assumes that only this class's methods change the table.
- The carousel widget and the constraint solver proper are not part of this model. Their sources are not among the files modelled here.

