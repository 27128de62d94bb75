/** `calculateDaysAgo` of the TypeScript applications: the whole days from
    the date a dish was last eaten to now, or -1 when it never was. The
    function is written out identically in src/routes/dishes.ts,
    src/routes/ai.ts and wgze-hono/src/database.ts. */
module Staleness {

  import opened Wrappers
  import opened Strings
  import opened Calendar

  /** A JavaScript number as this code produces it: an integer, or NaN
      (what `Math.floor` gives when the date text does not parse). */
  datatype Num = Finite(value: int) | NaN

  /** `${n}` / `{n}`: the text JavaScript renders for the number. */
  function NumText(n: Num): string
  {
    match n
    case Finite(v) => IntToString(v)
    case NaN => "NaN"
  }

  const NanosPerDay: int := 86_400_000_000_000
  const MsPerDay: int := 86_400_000

  /** The wall clock, passed in: the current UTC day and the nanoseconds
      that have elapsed in it. */
  datatype Clock = Clock(today: CivilDate, nanosOfDay: int)

  predicate ValidClock(c: Clock)
  {
    ValidDate(c.today) && 0 <= c.nanosOfDay < NanosPerDay
  }

  const Epoch: CivilDate := CivilDate(1970, 1, 1)

  /** `new Date().getTime()`: milliseconds since 1970-01-01T00:00:00Z. */
  function NowMillis(c: Clock): int
    requires ValidClock(c)
  {
    (DayNumber(c.today) - DayNumber(Epoch)) * MsPerDay + c.nanosOfDay / 1_000_000
  }

  /** `new Date("YYYY-MM-DD").getTime()`: a date-only ISO text is UTC midnight. */
  function MidnightMillis(d: CivilDate): int
    requires ValidDate(d)
  {
    (DayNumber(d) - DayNumber(Epoch)) * MsPerDay
  }

  /** `calculateDaysAgo(dateString)`: -1 for null or the empty text, else
      `Math.floor((now - date) / 86400000)`. On integers with a positive
      divisor Dafny's `/` is that floor. */
  function CalculateDaysAgo(dateString: Option<string>, now: Clock): (r: Num)
    requires ValidClock(now)
    ensures !Present(dateString) ==> r == Finite(-1)
    ensures Present(dateString) ==> (r == NaN <==> Parse(dateString.value).None?)
  {
    if !Present(dateString) then Finite(-1)
    else
      match Parse(dateString.value)
      case None => NaN
      case Some(d) => Finite((NowMillis(now) - MidnightMillis(d)) / MsPerDay)
  }

  /** For a date that parses, the result is the number of calendar days
      from that date to today, whatever the time of day: 0 today, 1
      yesterday, negative for a date in the future. */
  lemma DaysAgoIsCalendarDistance(s: string, now: Clock)
    requires ValidClock(now) && Parse(s).Some?
    ensures CalculateDaysAgo(Some(s), now) == Finite(DayNumber(now.today) - DayNumber(Parse(s).value))
    ensures CalculateDaysAgo(Some(s), now) == Finite(0) <==> Parse(s).value == now.today
    ensures CalculateDaysAgo(Some(s), now).value < 0 <==> Before(now.today, Parse(s).value)
  {
    var d := Parse(s).value;
    var k := DayNumber(now.today) - DayNumber(d);
    var r := now.nanosOfDay / 1_000_000;
    assert 0 <= r < MsPerDay;
    assert NowMillis(now) - MidnightMillis(d) == k * MsPerDay + r;
    assert (k * MsPerDay + r) / MsPerDay == k;
    DayNumberOrder(now.today, d);
  }

  /** Null and the empty text both read as "never": -1. */
  lemma DaysAgoOfNothing(now: Clock)
    requires ValidClock(now)
    ensures CalculateDaysAgo(None, now) == Finite(-1)
    ensures CalculateDaysAgo(Some(""), now) == Finite(-1)
  {
  }

  /** -1 is not only the "never" sentinel: a date exactly one day ahead of
      today gives it too. */
  lemma {:induction false} MinusOneMeansNeverOrTomorrow(s: Option<string>, now: Clock)
    requires ValidClock(now)
    ensures CalculateDaysAgo(s, now) == Finite(-1) <==>
      !Present(s) || (Parse(s.value).Some? && DayNumber(Parse(s.value).value) == DayNumber(now.today) + 1)
  {
    if Present(s) && Parse(s.value).Some? {
      DaysAgoIsCalendarDistance(s.value, now);
    }
  }
}
