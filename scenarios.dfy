/** The fixed scenarios of `NumberServiceImplTest`, stated as methods on the
    class; their `ensures` are proved. */
module Scenarios {
  import opened Wrappers
  import opened NumberValidator
  import opened Service

  /** A new service has seen nothing: min, max and average are all null. */
  method FreshServiceReportsNothing() returns (min: Option<Long>, max: Option<Long>, average: Option<Long>)
    ensures min == None && max == None && average == None
  {
    var service := new NumberServiceImpl();
    min := service.GetMinNumber();
    max := service.GetMaxNumber();
    average := service.GetAverageNumber();
  }

  /** `[123, null, 76543]` is rejected with the null error, and none of its
      elements reaches the cells. */
  method BatchWithNullRejected() returns (outcome: Outcome, max: Option<Long>)
    ensures outcome == Fail(NotNull) && max == None
  {
    var service := new NumberServiceImpl();
    var numbers: seq<Option<Long>> := [Some(123), None, Some(76543)];
    outcome := service.TakeNumbers(Some(numbers));
    assert FirstInvalid(numbers, 1);
    ghost var i :| FirstInvalid(numbers, i) && outcome == ValidateNumber(numbers[i]);
    FirstInvalidUnique(numbers, i, 1);
    max := service.GetMaxNumber();
  }

  /** `[123, -123, 76543]` is rejected with the negative error, and none of
      its elements reaches the cells. */
  method BatchWithNegativeRejected() returns (outcome: Outcome, max: Option<Long>)
    ensures outcome == Fail(Negative) && max == None
  {
    var service := new NumberServiceImpl();
    var numbers: seq<Option<Long>> := [Some(123), Some(-123), Some(76543)];
    outcome := service.TakeNumbers(Some(numbers));
    assert FirstInvalid(numbers, 1);
    ghost var i :| FirstInvalid(numbers, i) && outcome == ValidateNumber(numbers[i]);
    FirstInvalidUnique(numbers, i, 1);
    max := service.GetMaxNumber();
  }

  /** An empty list is rejected with the empty error. */
  method EmptyBatchRejected() returns (outcome: Outcome, average: Option<Long>)
    ensures outcome == Fail(Empty) && average == None
  {
    var service := new NumberServiceImpl();
    outcome := service.TakeNumbers(Some([]));
    average := service.GetAverageNumber();
  }
}
