# number-service, modelled in Dafny

A model of `NumberServiceImpl`, a service that takes non-negative `Long`
numbers one at a time (`takeNumber`) or as a list (`takeNumbers`) and
reports the smallest, the largest and the truncated average of all numbers
taken so far, or `null` before the first one. Also modelled: its guard
class `NumberValidator`.

- `validator.dfy` (module `NumberValidator`): the validator's checks as pure
  functions. Each returns `Pass` or `Fail(e)`, where `e` is one of `NotNull`,
  `Negative` and `Empty`, the three `IllegalArgumentException` messages.
  Java `null` is `None`. A `Long` is an `int` in the 64-bit signed range.
- `stats.dfy` (module `NumberStats`): the interface's promise, stated over
  the sequence of accepted numbers. It defines min, max and exact sum, and
  the four cells `Cells(min, max, sum, count)`. `Step` is what `takeNumber`
  does to the cells, `Batch` is what `takeNumbers` does, and `Steps` applies
  `Step` to each element in turn. `Abstract(s)` gives the cells a fresh
  service holds after taking `s`.
- `service.dfy` (module `Service`): class `NumberServiceImpl`. It has the
  four cells as fields and a ghost `taken` sequence. `Valid()` ties the
  fields to `Abstract(taken)`. The methods update the cells in place, one
  per Java method.
- `scenarios.dfy` (module `Scenarios`): the fixed scenarios of
  `NumberServiceImplTest`, stated as methods on the class; their `ensures`
  are proved.

The model follows the code where it is more specific than the interface
documentation:
- `validateNumbers` checks only that the list is non-null and non-empty.
  The elements are checked later, one by one in list order, by the
  `validateNumber` inside `toBigInteger`, while the stream converts them.
  The first bad element decides the error, and null is checked before
  negative.
- The average uses `BigInteger.divide`, which truncates toward zero.
  Because every number is non-negative, this is the floor of the mean.
  `TruncDiv` models truncating division for all signs.

## Model

| member | source | states |
|---|---|---|
| NumberValidator.CheckNotNull | src/main/java/com/optimaize/service/NumberValidator.java:23-27 | throws exactly when the reference is null, with the null error |
| NumberValidator.CheckNotNegative | src/main/java/com/optimaize/service/NumberValidator.java:17-21 | throws exactly when the number is below zero (zero passes), with the negative error |
| NumberValidator.CheckNotEmpty | src/main/java/com/optimaize/service/NumberValidator.java:29-33 | throws exactly when the list is empty, with the empty error |
| NumberValidator.ValidateNumber | src/main/java/com/optimaize/service/NumberValidator.java:7-10 | passes iff the number is present and >= 0; null gives only the null error; a present negative gives the negative error; never the empty error |
| NumberValidator.ValidateNumbers | src/main/java/com/optimaize/service/NumberValidator.java:12-15 | passes iff the list is present and non-empty; null gives the null error (checked first); an empty list gives the empty error; never the negative error |
| NumberValidator.ValidateNumbersIgnoresElements | src/main/java/com/optimaize/service/NumberValidator.java:12-15 | two present lists of equal length get the same verdict, so null or negative elements pass this check |
| Service.ToBigInteger | src/main/java/com/optimaize/service/NumberServiceImpl.java:90-97 | succeeds iff `validateNumber` passes, and then returns the same non-negative number; otherwise fails with the validator's error |
| Service.ConvertAll | src/main/java/com/optimaize/service/NumberServiceImpl.java:56-58 | succeeds iff every element is valid, with the elements' values in order; otherwise the error is the one of the first invalid element |
| NumberStats.SeqMin | src/main/java/com/optimaize/service/NumberServiceImpl.java:60 | the batch minimum is an element of the batch and at most every element |
| NumberStats.SeqMax | src/main/java/com/optimaize/service/NumberServiceImpl.java:59 | the batch maximum is an element of the batch and at least every element |
| NumberStats.Sum | src/main/java/com/optimaize/service/NumberServiceImpl.java:61 | the exact, unbounded total of the batch, as `reduce(BigInteger.ZERO, BigInteger::add)` computes it; its properties are stated by `SumOfNonNegatives`, `SumBounds` and `AbstractBatch` |
| NumberStats.SumOfNonNegatives | src/main/java/com/optimaize/service/NumberServiceImpl.java:61 | the total of non-negative numbers is non-negative and at least each of them |
| NumberStats.SumBounds | src/main/java/com/optimaize/service/NumberServiceImpl.java:61 | when every number lies in [lo, hi], the total lies in [n*lo, n*hi] |
| NumberStats.Step | src/main/java/com/optimaize/service/NumberServiceImpl.java:47-50 | after `takeNumber(x)` the counter grew by one and min, max and sum are all set; min <= x <= max; a set min never rises and a set max never falls; the sum grew by exactly x, or is x when it was unset |
| NumberStats.Batch | src/main/java/com/optimaize/service/NumberServiceImpl.java:59-62 | after `takeNumbers(xs)` the counter grew by the batch size and min, max and sum are all set; every element lies between the new min and max; a set min never rises and a set max never falls |
| NumberStats.Steps | src/main/java/com/optimaize/service/NumberServiceImpl.java:43-51 | after `takeNumber` on each element of xs in turn, the counter grew by the number of elements and, for a non-empty xs, min, max and sum are set, with every element between min and max |
| NumberStats.TruncDiv | src/main/java/com/optimaize/service/NumberServiceImpl.java:86 | truncating division: the remainder is smaller than the divisor in magnitude and has the dividend's sign |
| NumberStats.TruncDivFloor | src/main/java/com/optimaize/service/NumberServiceImpl.java:86 | for a non-negative sum and positive count, the quotient q satisfies q*n <= sum < q*n + n |
| NumberStats.FoldMin | src/main/java/com/optimaize/service/NumberServiceImpl.java:99-111 | the new min cell is set, at most the candidate and the old min, and is either the candidate or the old cell |
| NumberStats.FoldMax | src/main/java/com/optimaize/service/NumberServiceImpl.java:113-125 | the new max cell is set, at least the candidate and the old max, and is either the candidate or the old cell |
| NumberStats.FoldSum | src/main/java/com/optimaize/service/NumberServiceImpl.java:127-132 | the new sum cell is set; it is the candidate when unset, otherwise it grew by exactly the candidate |
| NumberStats.Abstract | src/main/java/com/optimaize/service/NumberServiceImpl.java:83-86 | the counter is the number of values taken; min and max are null iff nothing was taken; the sum is null iff the counter is 0 |
| NumberStats.BatchIsSteps | src/main/java/com/optimaize/service/NumberServiceImpl.java:43-63 | from any cells, `takeNumbers(xs)` (batch min, max, sum, size folded once each) equals `takeNumber` on each element of xs in order |
| NumberStats.AbstractStep | src/main/java/com/optimaize/service/NumberServiceImpl.java:43-51 | taking x from the cells of s gives the cells of s + [x]: min, max, sum and count of all values so far |
| NumberStats.AbstractSteps | src/main/java/com/optimaize/service/NumberServiceImpl.java:43-51 | taking xs one by one from the cells of s gives the cells of s + xs |
| NumberStats.AbstractBatch | src/main/java/com/optimaize/service/NumberServiceImpl.java:53-63 | taking the batch xs from the cells of s gives the cells of s + xs |
| NumberStats.StepsMonotone | src/main/java/com/optimaize/service/NumberServiceImpl.java:99-140 | the counter grows by the number of values; a set min never rises; a set max never falls; a set sum never falls |
| NumberStats.MinAtMostMax | src/main/java/com/optimaize/service/NumberServiceImpl.java:99-125 | once a number has been taken, min <= max |
| NumberStats.AverageBetweenMinAndMax | src/main/java/com/optimaize/service/NumberServiceImpl.java:81-87 | the truncated average of non-negative numbers lies between their min and max |
| Service.AverageOfLongs | src/main/java/com/optimaize/service/NumberServiceImpl.java:86 | the truncated average of non-negative Longs is the floor of their mean and fits in a Long, so `longValue()` loses nothing |
| Service.NumberServiceImpl.constructor | src/main/java/com/optimaize/service/NumberServiceImpl.java:35-41 | min, max and sum start unset, the counter at zero; nothing has been taken |
| Service.NumberServiceImpl.UpdateMinNumber | src/main/java/com/optimaize/service/NumberServiceImpl.java:99-111 | the min cell becomes FoldMin of its old value and the number; nothing else changes |
| Service.NumberServiceImpl.UpdateMaxNumber | src/main/java/com/optimaize/service/NumberServiceImpl.java:113-125 | the max cell becomes FoldMax of its old value and the number; nothing else changes |
| Service.NumberServiceImpl.UpdateSumNumber | src/main/java/com/optimaize/service/NumberServiceImpl.java:127-132 | the sum cell becomes FoldSum of its old value and the number; nothing else changes |
| Service.NumberServiceImpl.UpdateCounter | src/main/java/com/optimaize/service/NumberServiceImpl.java:134-136 | the counter grows by one; nothing else changes |
| Service.NumberServiceImpl.UpdateCounterBy | src/main/java/com/optimaize/service/NumberServiceImpl.java:138-140 | the counter grows by the given count; nothing else changes |
| Service.NumberServiceImpl.TakeNumber | src/main/java/com/optimaize/service/NumberServiceImpl.java:43-51 | the outcome is `validateNumber`'s; if rejected, all cells are unchanged; if accepted, the number is appended to the values taken, the cells become `Step` of the old cells, and the invariant is kept |
| Service.NumberServiceImpl.TakeNumbers | src/main/java/com/optimaize/service/NumberServiceImpl.java:53-63 | a null or empty list gives the validator's error; otherwise the error is the first invalid element's; accepted iff the list is present, non-empty and every element is valid; if rejected, all cells are unchanged; if accepted, the elements are appended in order and the cells become both `Batch` and `Steps` of the old cells |
| Service.NumberServiceImpl.GetMaxNumber | src/main/java/com/optimaize/service/NumberServiceImpl.java:65-71 | null iff nothing was taken; otherwise a value taken so far that is at least all of them |
| Service.NumberServiceImpl.GetMinNumber | src/main/java/com/optimaize/service/NumberServiceImpl.java:73-79 | null iff nothing was taken; otherwise a value taken so far that is at most all of them |
| Service.NumberServiceImpl.GetAverageNumber | src/main/java/com/optimaize/service/NumberServiceImpl.java:81-87 | null iff nothing was taken; otherwise the floor of the exact sum over the count, between the min and the max |
| Scenarios.FreshServiceReportsNothing | src/test/java/com/optimaize/service/NumberServiceImplTest.java:74 | a new service answers null for min, max and average |
| Scenarios.BatchWithNullRejected | src/test/java/com/optimaize/service/NumberServiceImplTest.java:51-59 | `[123, null, 76543]` is rejected with the null error, and the max stays null |
| Scenarios.BatchWithNegativeRejected | src/test/java/com/optimaize/service/NumberServiceImplTest.java:61-69 | `[123, -123, 76543]` is rejected with the negative error, and the max stays null |
| Scenarios.EmptyBatchRejected | src/test/java/com/optimaize/service/NumberServiceImplTest.java:41-49 | an empty list is rejected with the empty error, and the average stays null |

## Left out

- Concurrency: the `AtomicReference` cells, compare-and-set and `accumulateAndGet` are modelled only by what they do in a single thread. In one thread, the compare-and-set from null succeeds exactly when the cell is unset. Each retry loop's first compare-and-set succeeds, so the loop becomes one conditional update. Interleavings and lock-freedom are not modelled.
- Service.NumberServiceImpl.UpdateMaxNumber: the retry at NumberServiceImpl.java:123 reads `minReference` where `maxReference` is meant. That line runs only after a lost race, so the single-threaded model cannot reach it.
- Reference identity: `compareAndSet` compares `BigInteger` objects with `==`. The cells are modelled as values.
- The `NumberFormatException` handler in `toBigInteger` is not modelled. `Long.toString` always parses, so `ToBigInteger` is "validate, then the same number".
- The error messages are identified by the three `Error` kinds, not by their text.
- The `numberValidator` field is not modelled. `NumberValidator` has no state, so its checks are module-level functions. Calling them twice gives the same result because they are functions.
- Exceptions become a returned `Outcome`. A thrown exception and a rejected call are the same thing here.
- Service.NumberServiceImpl.UpdateCounterBy: takes a `nat`, not a 32-bit `int`. The count is a list size, so it is never negative.
- Inputs are `Long` values in the 64-bit signed range. Sum and counter are unbounded integers, like `BigInteger`. The getters' `longValue()` narrowing is not modelled as truncation. Instead, the result is proved to fit in a `Long`.
- The randomized 10,000-value tests at NumberServiceImplTest.java:71-157 are not modelled. Their claims are covered by the general contracts of the getters.
