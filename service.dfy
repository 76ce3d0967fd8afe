/** `NumberServiceImpl`, run by a single thread: four cells updated in
    place, each accepted number folded into all of them, and getters that
    read them back. */
module Service {
  import opened Wrappers
  import opened NumberValidator
  import opened NumberStats

  /** `toBigInteger`: validates the number again, then returns the same
      number as an unbounded integer. */
  function ToBigInteger(number: Option<Long>): (r: Result<int, Error>)
    ensures r.Success? <==> ValidateNumber(number) == Pass
    ensures r.Success? ==> number == Some(r.value) && r.value >= 0
    ensures r.Failure? ==> ValidateNumber(number) == Fail(r.error)
  {
    match ValidateNumber(number)
    case Fail(e) => Failure(e)
    case Pass => Success(number.value as int)
  }

  /** Element `i` is the first one of `numbers` that `validateNumber` rejects. */
  ghost predicate FirstInvalid(numbers: seq<Option<Long>>, i: int)
  {
    0 <= i < |numbers| && ValidateNumber(numbers[i]).Fail? &&
    forall j :: 0 <= j < i ==> ValidateNumber(numbers[j]) == Pass
  }

  lemma FirstInvalidShift(numbers: seq<Option<Long>>, e: Error)
    requires |numbers| > 0 && ValidateNumber(numbers[0]) == Pass
    requires exists i :: FirstInvalid(numbers[1..], i) && ValidateNumber(numbers[1..][i]) == Fail(e)
    ensures exists i :: FirstInvalid(numbers, i) && ValidateNumber(numbers[i]) == Fail(e)
  {
    var i :| FirstInvalid(numbers[1..], i) && ValidateNumber(numbers[1..][i]) == Fail(e);
    assert FirstInvalid(numbers, i + 1);
  }

  /** There is only one first rejected element. */
  lemma FirstInvalidUnique(numbers: seq<Option<Long>>, i: int, k: int)
    requires FirstInvalid(numbers, i) && FirstInvalid(numbers, k)
    ensures i == k
  {
  }

  /** `numbers.stream().map(this::toBigInteger)`: converts the elements in
      list order and stops at the first one that throws, whose error is the
      one reported. */
  function ConvertAll(numbers: seq<Option<Long>>): (r: Result<seq<int>, Error>)
    ensures r.Success? <==> forall i :: 0 <= i < |numbers| ==> ValidateNumber(numbers[i]) == Pass
    ensures r.Success? ==> |r.value| == |numbers|
    ensures r.Success? ==> forall i :: 0 <= i < |numbers| ==> numbers[i] == Some(r.value[i])
    ensures r.Failure? ==> exists i :: FirstInvalid(numbers, i) && ValidateNumber(numbers[i]) == Fail(r.error)
  {
    if numbers == [] then Success([])
    else
      match ToBigInteger(numbers[0])
      case Failure(e) =>
        assert FirstInvalid(numbers, 0);
        Failure(e)
      case Success(v) =>
        match ConvertAll(numbers[1..])
        case Failure(e) =>
          FirstInvalidShift(numbers, e);
          Failure(e)
        case Success(vs) =>
          assert forall i :: 1 <= i < |numbers| ==> numbers[i] == numbers[1..][i - 1];
          Success([v] + vs)
  }

  /** All values lie in the range of a non-negative Java `Long`. */
  ghost predicate AllNonNegativeLongs(s: seq<int>)
  {
    forall i :: 0 <= i < |s| ==> 0 <= s[i] <= MAX_LONG
  }

  /** Appending the converted batch keeps every value a non-negative `Long`,
      leaves the old numbers as a prefix and the batch as the suffix, and
      takes the cells of the old values to the cells of the new ones. */
  lemma AppendBatch(s: seq<int>, xs: seq<int>, numbers: seq<Option<Long>>)
    requires AllNonNegativeLongs(s)
    requires |xs| == |numbers| > 0
    requires forall i :: 0 <= i < |numbers| ==> numbers[i] == Some(xs[i]) && ValidateNumber(numbers[i]) == Pass
    ensures AllNonNegativeLongs(s + xs)
    ensures (s + xs)[..|s|] == s && (s + xs)[|s|..] == xs
    ensures forall i :: 0 <= i < |numbers| ==> numbers[i] == Some((s + xs)[|s| + i])
    ensures Batch(Abstract(s), xs) == Abstract(s + xs)
  {
    AbstractBatch(s, xs);
  }

  /** The truncated average of non-negative `Long`s is the floor of their
      mean, lies between their min and max and is itself a `Long`. */
  lemma AverageOfLongs(s: seq<int>)
    requires |s| > 0 && AllNonNegativeLongs(s)
    ensures 0 <= SeqMin(s) <= TruncDiv(Sum(s), |s|) <= SeqMax(s) <= MAX_LONG
    ensures TruncDiv(Sum(s), |s|) * |s| <= Sum(s) < TruncDiv(Sum(s), |s|) * |s| + |s|
  {
    SumBounds(s, 0, MAX_LONG);
    assert 0 <= Sum(s);
    TruncDivFloor(Sum(s), |s|);
    AverageBetweenMinAndMax(s);
  }

  /** Appending one accepted number keeps every value a non-negative `Long`
      and steps the cells of the old values to the cells of the new ones. */
  lemma AppendOne(s: seq<int>, x: int)
    requires AllNonNegativeLongs(s) && 0 <= x <= MAX_LONG
    ensures AllNonNegativeLongs(s + [x])
    ensures Step(Abstract(s), x) == Abstract(s + [x])
  {
    AbstractStep(s, x);
  }

  class NumberServiceImpl {
    var minCell: Option<int>
    var maxCell: Option<int>
    var sumCell: Option<int>
    var counter: int
    /** Every number accepted so far, in the order taken. */
    ghost var taken: seq<int>

    /** The current contents of the four cells. */
    function Snapshot(): Cells
      reads this
    {
      Cells(minCell, maxCell, sumCell, counter)
    }

    /** The cells hold exactly the min, max, sum and count of `taken`. */
    ghost predicate Valid()
      reads this
    {
      AllNonNegativeLongs(taken) && Snapshot() == Abstract(taken)
    }

    /** min, max and sum start unset; the counter starts at zero. */
    constructor ()
      ensures Valid() && taken == []
      ensures Snapshot() == Fresh
    {
      minCell, maxCell, sumCell, counter := None, None, None, 0;
      taken := [];
    }

    /** `updateMinNumber`: the compare-and-set from null succeeds exactly
        when the cell is unset; otherwise the retry loop, which in one
        thread runs at most once, stores the number if it is smaller. */
    method UpdateMinNumber(number: int)
      modifies this`minCell
      ensures minCell == FoldMin(old(minCell), number)
    {
      if minCell.None? {
        minCell := Some(number);
        return;
      }
      var minValue := minCell.value;
      if number < minValue {
        minCell := Some(number);
      }
    }

    /** `updateMaxNumber`: as `updateMinNumber`, storing a larger number. */
    method UpdateMaxNumber(number: int)
      modifies this`maxCell
      ensures maxCell == FoldMax(old(maxCell), number)
    {
      if maxCell.None? {
        maxCell := Some(number);
        return;
      }
      var maxValue := maxCell.value;
      if number > maxValue {
        maxCell := Some(number);
      }
    }

    /** `updateSumNumber`: an unset cell takes the number, a set one
        accumulates it. */
    method UpdateSumNumber(number: int)
      modifies this`sumCell
      ensures sumCell == FoldSum(old(sumCell), number)
    {
      if sumCell.None? {
        sumCell := Some(number);
        return;
      }
      sumCell := Some(sumCell.value + number);
    }

    /** `updateCounter()`: adds one. */
    method UpdateCounter()
      modifies this`counter
      ensures counter == old(counter) + 1
    {
      counter := counter + 1;
    }

    /** `updateCounter(int count)`: adds the batch size. */
    method UpdateCounterBy(count: nat)
      modifies this`counter
      ensures counter == old(counter) + count
    {
      counter := counter + count;
    }

    /** `takeNumber`: a null or negative number is rejected before any cell
        changes; an accepted one is folded into all four cells. */
    method TakeNumber(number: Option<Long>) returns (outcome: Outcome)
      requires Valid()
      modifies this
      ensures Valid()
      ensures outcome == ValidateNumber(number)
      ensures outcome.Pass? ==> taken == old(taken) + [number.value]
      ensures outcome.Pass? ==> Snapshot() == Step(old(Snapshot()), number.value)
      ensures outcome.Fail? ==> taken == old(taken) && Snapshot() == old(Snapshot())
    {
      outcome := ValidateNumber(number);
      if outcome.Fail? {
        return;
      }
      var newNumber := ToBigInteger(number).value;
      ghost var before := Snapshot();
      UpdateMaxNumber(newNumber);
      UpdateMinNumber(newNumber);
      UpdateSumNumber(newNumber);
      UpdateCounter();
      assert Snapshot() == Step(before, newNumber);
      AppendOne(taken, newNumber);
      taken := taken + [newNumber];
    }

    /** `takeNumbers`: the list is checked for null and emptiness, then
        every element is converted in order; only then are the batch's max,
        min, sum and size folded in, once each. A rejected list changes no
        cell, and an accepted one has the effect of taking its elements one
        at a time. */
    method TakeNumbers(numbers: Option<seq<Option<Long>>>) returns (outcome: Outcome)
      requires Valid()
      modifies this
      ensures Valid()
      ensures ValidateNumbers(numbers).Fail? ==> outcome == ValidateNumbers(numbers)
      ensures outcome.Pass? <==>
        (numbers.Some? && |numbers.value| > 0 &&
         forall i :: 0 <= i < |numbers.value| ==> ValidateNumber(numbers.value[i]) == Pass)
      ensures ValidateNumbers(numbers).Pass? && outcome.Fail? ==>
        exists i :: FirstInvalid(numbers.value, i) && outcome == ValidateNumber(numbers.value[i])
      ensures outcome.Pass? ==>
        |taken| == |old(taken)| + |numbers.value| && taken[..|old(taken)|] == old(taken) &&
        forall i :: 0 <= i < |numbers.value| ==> numbers.value[i] == Some(taken[|old(taken)| + i])
      ensures outcome.Pass? ==>
        Snapshot() == Batch(old(Snapshot()), taken[|old(taken)|..]) &&
        Snapshot() == Steps(old(Snapshot()), taken[|old(taken)|..])
      ensures outcome.Fail? ==> taken == old(taken) && Snapshot() == old(Snapshot())
    {
      outcome := ValidateNumbers(numbers);
      if outcome.Fail? {
        return;
      }
      var converted := ConvertAll(numbers.value);
      if converted.Failure? {
        outcome := Fail(converted.error);
        return;
      }
      var newNumbers := converted.value;
      ghost var before := Snapshot();
      UpdateMaxNumber(SeqMax(newNumbers));
      UpdateMinNumber(SeqMin(newNumbers));
      UpdateSumNumber(Sum(newNumbers));
      UpdateCounterBy(|newNumbers|);
      assert Snapshot() == Batch(before, newNumbers);
      BatchIsSteps(before, newNumbers);
      ghost var prefix := taken;
      AppendBatch(prefix, newNumbers, numbers.value);
      taken := prefix + newNumbers;
      assert taken[..|prefix|] == prefix && taken[|prefix|..] == newNumbers;
      assert Snapshot() == Abstract(taken);
    }

    /** `getMaxNumber`: null while nothing was taken, otherwise the largest
        number taken so far; `longValue()` loses nothing. */
    method GetMaxNumber() returns (max: Option<Long>)
      requires Valid()
      ensures max.None? <==> taken == []
      ensures max.Some? ==> max.value in taken && forall i :: 0 <= i < |taken| ==> taken[i] <= max.value
    {
      if maxCell.Some? {
        return Some(maxCell.value);
      }
      return None;
    }

    /** `getMinNumber`: null while nothing was taken, otherwise the smallest
        number taken so far. */
    method GetMinNumber() returns (min: Option<Long>)
      requires Valid()
      ensures min.None? <==> taken == []
      ensures min.Some? ==> min.value in taken && forall i :: 0 <= i < |taken| ==> min.value <= taken[i]
    {
      if minCell.Some? {
        return Some(minCell.value);
      }
      return None;
    }

    /** `getAverageNumber`: null while the sum is unset, otherwise the sum
        divided by the counter, truncated. The counter is never zero there,
        and the result is the floor of the mean of the numbers taken, which
        lies between their min and max and so fits in a `Long`. */
    method GetAverageNumber() returns (average: Option<Long>)
      requires Valid()
      ensures average.None? <==> taken == []
      ensures average.Some? ==>
        average.value * |taken| <= Sum(taken) < average.value * |taken| + |taken|
      ensures average.Some? ==> SeqMin(taken) <= average.value <= SeqMax(taken)
    {
      if sumCell.None? {
        return None;
      }
      assert sumCell.value == Sum(taken) && counter == |taken| > 0;
      AverageOfLongs(taken);
      return Some(TruncDiv(sumCell.value, counter));
    }
  }
}
