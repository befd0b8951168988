/**
 * The closed enumeration `Bookmark.reminder_types`: each symbolic reminder type and the small
 * integer it is persisted as in the `reminder_type` column. The bindings are stable, because
 * they cross the persistence boundary.
 */
module ReminderTypes {
  import opened Options

  datatype ReminderType =
    | AtDesktop
    | LaterToday
    | NextBusinessDay
    | Tomorrow
    | NextWeek
    | NextMonth
    | Custom

  /** The integer a reminder type is stored as. */
  function Value(t: ReminderType): (n: int)
    ensures 0 <= n <= 6
  {
    match t
    case AtDesktop => 0
    case LaterToday => 1
    case NextBusinessDay => 2
    case Tomorrow => 3
    case NextWeek => 4
    case NextMonth => 5
    case Custom => 6
  }

  /** The reverse lookup: the reminder type, if any, that a stored integer denotes. */
  function FromValue(n: int): (r: Option<ReminderType>)
    ensures r.Some? <==> 0 <= n <= 6
    ensures r.Some? ==> Value(r.value) == n
  {
    if n == 0 then Some(AtDesktop)
    else if n == 1 then Some(LaterToday)
    else if n == 2 then Some(NextBusinessDay)
    else if n == 3 then Some(Tomorrow)
    else if n == 4 then Some(NextWeek)
    else if n == 5 then Some(NextMonth)
    else if n == 6 then Some(Custom)
    else None
  }

  /** No two reminder types share a stored integer. */
  lemma ValueInjective(s: ReminderType, t: ReminderType)
    ensures Value(s) == Value(t) ==> s == t
  {
  }

  /** Decoding what was stored gives back the reminder type. */
  lemma FromValueOfValue(t: ReminderType)
    ensures FromValue(Value(t)) == Some(t)
  {
  }

  /** Every integer in 0..6 is taken by some reminder type. */
  lemma ValuesCoverRange(n: int)
    requires 0 <= n <= 6
    ensures exists t :: Value(t) == n
  {
    assert Value(FromValue(n).value) == n;
  }
}
