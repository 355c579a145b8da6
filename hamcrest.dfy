/**
 * The two Hamcrest collaborators of IsPojo, reduced to what IsPojo observes.
 */
module Hamcrest {

  /** A sub-matcher: whether it accepts a value, the text its describeTo
      appends, and the text its describeMismatch appends for a value. */
  datatype Matcher<!V> = Matcher(
    matches: V -> bool,
    description: string,
    describeMismatch: V -> string)

  /** org.hamcrest.Description as StringDescription implements it: an
      append-only text buffer whose toString() is everything appended so far. */
  class Description {
    var text: string

    constructor ()
      ensures text == ""
    {
      text := "";
    }

    method AppendText(s: string)
      modifies this
      ensures text == old(text) + s
    {
      text := text + s;
    }
  }
}
