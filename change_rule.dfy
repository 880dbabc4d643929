/**
 * The decision at the heart of a check: whether a fetched price is recorded,
 * which way a recorded change goes, and how the alert subject is classed.
 */
module ChangeRule {
  import opened Wrappers
  import opened Prices

  /** Differences of at most one cent count as no change. */
  const Tolerance: real := 0.01

  /**
   * A price is recorded when nothing was logged before or when it differs
   * from the last logged price by more than a cent.
   */
  predicate ShouldRecord(current: real, last: Option<real>)
  {
    last.None? || Abs(current - last.value) > Tolerance
  }

  /** The arrow printed for a recorded change: `change > 0` is a rise, anything else a fall. */
  datatype Trend = Rising | Falling

  function TrendOf(current: real, last: real): (t: Trend)
    ensures t == Rising <==> current > last
    ensures t == Falling <==> current <= last
  {
    if current - last > 0.0 then Rising else Falling
  }

  /** The class of an alert's subject line. */
  datatype Subject = NewProduct | PriceDrop | PriceIncrease

  function SubjectOf(current: real, previous: Option<real>): (s: Subject)
    ensures s == NewProduct <==> previous.None?
    ensures s == PriceDrop <==> previous.Some? && current < previous.value
    ensures s == PriceIncrease <==> previous.Some? && current >= previous.value
  {
    if previous.None? then NewProduct
    else if current < previous.value then PriceDrop
    else PriceIncrease
  }

  /** The amount the alert body reports: the saving on a drop, the rise on an increase. */
  function ChangeAmount(current: real, previous: real): (a: real)
    ensures a == Abs(current - previous) && a >= 0.0
    ensures current + a == previous || previous + a == current
  {
    if current < previous then previous - current else current - previous
  }

  /**
   * On a recorded change with a previous price, the subject and the printed
   * arrow agree, and the reported amount is the size of the change, more than a cent.
   */
  lemma RecordedChangeIsClassified(current: real, last: real)
    requires ShouldRecord(current, Some(last))
    ensures SubjectOf(current, Some(last)) == PriceIncrease <==> TrendOf(current, last) == Rising
    ensures SubjectOf(current, Some(last)) == PriceDrop <==> TrendOf(current, last) == Falling
    ensures SubjectOf(current, Some(last)) == PriceIncrease <==> current > last
    ensures ChangeAmount(current, last) == Abs(current - last) > Tolerance
  {
  }

  /** A price within a cent of the last logged one is never recorded; the first one always is. */
  lemma UnchangedIsNotRecorded(current: real, last: real)
    requires Abs(current - last) <= Tolerance
    ensures !ShouldRecord(current, Some(last))
    ensures ShouldRecord(current, None)
  {
  }
}
