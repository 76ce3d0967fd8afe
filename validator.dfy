/** The stateless guards of `NumberValidator`: each check either passes or
    names the one kind of `IllegalArgumentException` it throws. */
module NumberValidator {
  import opened Wrappers

  const MIN_LONG: int := -0x8000_0000_0000_0000
  const MAX_LONG: int := 0x7fff_ffff_ffff_ffff

  /** The values of a (non-null) Java `Long`. */
  type Long = x: int | MIN_LONG <= x <= MAX_LONG

  /** The three messages the validator can throw, one constructor each:
      NotNull   "Offered numbers must not be null!"
      Negative  "Offered numbers must be positive numbers!"
      Empty     "List of Offered numbers must not be empty!" */
  datatype Error = NotNull | Negative | Empty

  /** A check that returns normally (`Pass`) or throws (`Fail`). */
  datatype Outcome = Pass | Fail(error: Error)

  /** `checkNotNull`: throws exactly on a null reference. */
  function CheckNotNull<T>(obj: Option<T>): (r: Outcome)
    ensures r.Fail? <==> obj.None?
    ensures r.Fail? ==> r.error == NotNull
  {
    if obj.None? then Fail(NotNull) else Pass
  }

  /** `checkNotNegative`: throws exactly on a value below zero; zero passes. */
  function CheckNotNegative(number: Long): (r: Outcome)
    ensures r.Pass? <==> number >= 0
    ensures r.Fail? ==> r.error == Negative
  {
    if number < 0 then Fail(Negative) else Pass
  }

  /** `checkNotEmpty`: throws exactly on an empty list. */
  function CheckNotEmpty(numbers: seq<Option<Long>>): (r: Outcome)
    ensures r.Pass? <==> |numbers| > 0
    ensures r.Fail? ==> r.error == Empty
  {
    if |numbers| == 0 then Fail(Empty) else Pass
  }

  /** `validateNumber`: the null check, then the negative check. */
  function ValidateNumber(number: Option<Long>): (r: Outcome)
    ensures r == Pass <==> number.Some? && number.value >= 0
    ensures r == Fail(NotNull) <==> number.None?
    ensures r == Fail(Negative) <==> number.Some? && number.value < 0
    ensures r != Fail(Empty)
  {
    match CheckNotNull(number)
    case Fail(e) => Fail(e)
    case Pass => CheckNotNegative(number.value)
  }

  /** `validateNumbers`: the null check, then the empty check; the elements
      themselves are not looked at. */
  function ValidateNumbers(numbers: Option<seq<Option<Long>>>): (r: Outcome)
    ensures r == Pass <==> numbers.Some? && |numbers.value| > 0
    ensures r == Fail(NotNull) <==> numbers.None?
    ensures r == Fail(Empty) <==> numbers == Some([])
    ensures r != Fail(Negative)
  {
    match CheckNotNull(numbers)
    case Fail(e) => Fail(e)
    case Pass => CheckNotEmpty(numbers.value)
  }

  /** Two present lists of the same length get the same verdict, whatever
      they hold: null and negative elements pass `validateNumbers`. */
  lemma ValidateNumbersIgnoresElements(a: seq<Option<Long>>, b: seq<Option<Long>>)
    requires |a| == |b|
    ensures ValidateNumbers(Some(a)) == ValidateNumbers(Some(b))
  {
  }
}
