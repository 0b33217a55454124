/**
 * The weekly schedule in Code.js: the weekday a weekly trigger is created
 * for (`getWeekDayFromNumber(parseInt(config.day) || 1)`) and the number of
 * days the status panel adds to today to show the next run
 * (`(selectedDay + 7 - today.getDay()) % 7 || 7`). Days are numbered as
 * `Date.prototype.getDay` numbers them: 0 is Sunday, 6 is Saturday.
 */
module Schedule {
  import opened JsonValue

  datatype WeekDay = SUNDAY | MONDAY | TUESDAY | WEDNESDAY | THURSDAY | FRIDAY | SATURDAY

  /** The `weekDays` table, Sunday first. */
  const WeekDays: seq<WeekDay> := [SUNDAY, MONDAY, TUESDAY, WEDNESDAY, THURSDAY, FRIDAY, SATURDAY]

  /** The `getDay()` number of a weekday: its position in `WeekDays`. */
  function DayNumber(d: WeekDay): (n: int)
    ensures 0 <= n < 7 && WeekDays[n] == d
  {
    match d
    case SUNDAY => 0
    case MONDAY => 1
    case TUESDAY => 2
    case WEDNESDAY => 3
    case THURSDAY => 4
    case FRIDAY => 5
    case SATURDAY => 6
  }

  /**
   * `getWeekDayFromNumber(dayNumber)`: `weekDays[dayNumber]` is `undefined`
   * outside 0..6, and `undefined || MONDAY` is MONDAY.
   */
  function GetWeekDayFromNumber(dayNumber: int): (d: WeekDay)
    ensures 0 <= dayNumber < 7 ==> DayNumber(d) == dayNumber
    ensures !(0 <= dayNumber < 7) ==> d == MONDAY
  {
    if 0 <= dayNumber < |WeekDays| then WeekDays[dayNumber] else MONDAY
  }

  /**
   * `parseInt(config.day) || 1`: `None` stands for `NaN` (a day that does not
   * parse); both `NaN` and `0` are falsy.
   */
  function SelectedDay(parsed: Option<int>): (day: int)
    ensures day != 0
    ensures parsed.Some? && parsed.value != 0 ==> day == parsed.value
    ensures parsed.None? || parsed.value == 0 ==> day == 1
  {
    match parsed
    case None => 1
    case Some(n) => if n == 0 then 1 else n
  }

  /** The weekday the weekly trigger is created for: never Sunday, since day 0 falls back to Monday. */
  function WeeklyTriggerDay(parsed: Option<int>): (d: WeekDay)
    ensures d != SUNDAY
    ensures parsed == Some(0) ==> d == MONDAY
  {
    GetWeekDayFromNumber(SelectedDay(parsed))
  }

  /** JavaScript's `a % 7`: the remainder takes the sign of `a`. */
  function JsRem7(a: int): (r: int)
    ensures a >= 0 ==> 0 <= r < 7
    ensures a < 0 ==> -7 < r <= 0
    ensures (a - r) % 7 == 0
  {
    if a >= 0 then a % 7 else -((-a) % 7)
  }

  /** The weekday number `k` days after weekday `today`. */
  function DayAfter(today: int, k: int): int
  {
    (today + k) % 7
  }

  /**
   * `(selectedDay + 7 - today) % 7 || 7`: a whole week instead of zero days;
   * negative when the selected day lies more than a week before today.
   */
  function DaysUntilTarget(selectedDay: int, today: int): (r: int)
    ensures r != 0
    ensures selectedDay + 7 - today >= 0 ==> 1 <= r <= 7
    ensures selectedDay + 7 - today < 0 ==> r == 7 || -7 < r < 0
  {
    var rem := JsRem7(selectedDay + 7 - today);
    if rem == 0 then 7 else rem
  }

  /**
   * For a selected day and a today both in 0..6, the next run is 1 to 7 days
   * away, lands on the selected weekday, and no earlier day in that span
   * does; a whole week when the selected day is today.
   */
  lemma DaysUntilTargetNextOccurrence(selectedDay: int, today: int)
    requires 0 <= selectedDay < 7 && 0 <= today < 7
    ensures var r := DaysUntilTarget(selectedDay, today);
            1 <= r <= 7 && (today + r) % 7 == selectedDay &&
            (r == 7 <==> selectedDay == today) &&
            forall k :: 1 <= k < r ==> DayAfter(today, k) != selectedDay
  {
    var r := DaysUntilTarget(selectedDay, today);
    if selectedDay >= today {
      assert r == if selectedDay == today then 7 else selectedDay - today;
    } else {
      assert r == selectedDay + 7 - today;
    }
  }

  /**
   * Whatever the selected day, the shown date lands on the selected day's
   * weekday modulo 7; the JavaScript remainder keeps that congruence even
   * when it is negative.
   */
  lemma DaysUntilTargetCongruent(selectedDay: int, today: int)
    requires 0 <= today < 7
    ensures (today + DaysUntilTarget(selectedDay, today)) % 7 == selectedDay % 7
  {
    var a := selectedDay + 7 - today;
    var rem := JsRem7(a);
    assert (a - rem) % 7 == 0;
    assert today + rem == selectedDay + 7 - (a - rem);
  }

  /**
   * A selected day below `today - 7` gives a negative count, so the date shown
   * lies in the past: `(-8 + 7 - 0) % 7` is -1 in JavaScript.
   */
  lemma NegativeDayGoesBack()
    ensures DaysUntilTarget(-8, 0) == -1
  {
  }

  /**
   * The trigger and the date shown agree on the weekday exactly when the
   * selected day is 1..6 or is congruent to Monday: `getWeekDayFromNumber`
   * falls back to Monday outside 0..6, while the day count works modulo 7.
   */
  lemma TriggerMatchesShownDate(parsed: Option<int>, today: int)
    requires 0 <= today < 7
    ensures var day := SelectedDay(parsed);
            DayNumber(WeeklyTriggerDay(parsed)) == (today + DaysUntilTarget(day, today)) % 7 <==>
            (1 <= day < 7 || day % 7 == 1)
  {
    DaysUntilTargetCongruent(SelectedDay(parsed), today);
  }

  /** So a stored day of 9 has the trigger fire on Monday while the panel shows a Tuesday. */
  lemma DayNineMismatch(today: int)
    requires 0 <= today < 7
    ensures WeeklyTriggerDay(Some(9)) == MONDAY
    ensures (today + DaysUntilTarget(9, today)) % 7 == DayNumber(TUESDAY)
  {
    DaysUntilTargetCongruent(9, today);
  }
}
