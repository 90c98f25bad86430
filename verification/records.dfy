/**
  The records the two scripts exchange and persist: the growth settings (`valueIncrease`) and
  the saved edits of one page, keyed by CSS selector.
*/
module Records {
  import opened Optional
  import Numbers

  /**
    The `valueIncrease` settings. `increment` is the configured growth per second in whole
    units; `randomizer` draws a fresh increment around it for every saved number.
  */
  datatype Growth = Growth(enabled: bool, increment: int, randomizer: bool)

  /** The settings both scripts fall back to when none are stored or sent. */
  const DefaultGrowth := Growth(false, 1000, false)

  /** A literal text edit, stamped with the save time in milliseconds. */
  datatype TextChange = TextChange(text: string, timestamp: int)

  /**
    A growing number: the text typed as the base, the growth per second (in thousandths, fixed
    when it was saved) and the save time in milliseconds. `currentValue` is stored as sent.
  */
  datatype ValueChange = ValueChange(
    baseValue: string,
    currentValue: Option<string>,
    increment: Numbers.Milli,
    timestamp: int)

  /** The text edits of one page, by selector. */
  type TextChanges = map<string, TextChange>

  /** The growing numbers of one page, by selector. */
  type ValueChanges = map<string, ValueChange>
}
