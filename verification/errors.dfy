/** Every failure of the library is one `DatetimeException`; the model keeps a tag
    per throw site so that lemmas can say which check fired first. */
module DatetimeErrors {

  datatype Error =
    | NoSpecifier                      // the scanned text holds no match at all
    | InvalidCharacters(text: string)  // a numeric token holds a non-digit
    | EmptyNumber                      // an empty numeric token reached the integer conversion
    | FieldCountMismatch               // format keys and timestamp numbers differ in number
    | DelimiterMismatch                // literal text around the fields differs
    | DuplicatedSpecifier(key: string)
    | YearAbove3000
    | YearBelow1970
    | InvalidInputSpecifier(key: string)
    | YearRequired
    | InvalidOutputSpecifier(key: string)
    | InvalidCalendarFields            // normalisation changed a calendar field
    | BeforeMinimum                    // epoch below the supported range
    | AfterMaximum                     // epoch above the supported range
    | IllegalTimeRange(timestamp: string)
    | DivideByNearlyZero

  /** Success value or the error that was thrown; usable with `:-`. */
  datatype Result<+T> = Success(value: T) | Failure(error: Error) {

    predicate IsFailure() {
      Failure?
    }

    function PropagateFailure<U>(): Result<U>
      requires Failure?
    {
      Failure(error)
    }

    function Extract(): T
      requires Success?
    {
      value
    }
  }

  datatype Option<+T> = None | Some(value: T)
}
