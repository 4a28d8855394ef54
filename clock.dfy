/** `LocalDateTime` and `LocalDate` as whole minutes and whole days since an
    epoch, and `LocalTime.toString()` for whole-minute times. */
module Clock {

  const MinutesPerHour: int := 60
  const MinutesPerDay: int := 1440

  /** `t.toLocalDate()`. Dafny's `/` rounds down for a positive divisor, as
      LocalDate does for instants before the epoch. */
  function DateOf(t: int): int {
    t / MinutesPerDay
  }

  /** Minutes since midnight: `t.toLocalTime()`. */
  function MinuteOfDay(t: int): (m: int)
    ensures 0 <= m < MinutesPerDay
  {
    t % MinutesPerDay
  }

  /** `date.atStartOfDay()`. */
  function DayStart(date: int): int {
    date * MinutesPerDay
  }

  /** `date.plusDays(1).atStartOfDay().minusNanos(1)`: for whole-minute
      instants the last one that is not later is 23:59 of the same date. */
  function DayEnd(date: int): int {
    date * MinutesPerDay + MinutesPerDay - 1
  }

  /** `t.plusHours(1)`. */
  function PlusHour(t: int): int {
    t + MinutesPerHour
  }

  /** `a.isBefore(b)`. */
  predicate IsBefore(a: int, b: int) {
    a < b
  }

  /** An instant lies between a date's start and end exactly when it falls on that date. */
  lemma BetweenIsSameDate(t: int, date: int)
    ensures DayStart(date) <= t <= DayEnd(date) <==> DateOf(t) == date
  {
  }

  function Digit(d: int): char
    requires 0 <= d < 10
  {
    (48 + d) as char
  }

  /** Two decimal digits, zero-padded. */
  function TwoDigits(n: int): string
    requires 0 <= n < 100
  {
    [Digit(n / 10), Digit(n % 10)]
  }

  /** `LocalTime.toString()` for a time with zero seconds: "HH:mm". */
  function TimeString(m: int): (s: string)
    requires 0 <= m < MinutesPerDay
    ensures |s| == 5 && s[2] == ':'
    ensures forall i :: 0 <= i < 5 && i != 2 ==> '0' <= s[i] <= '9'
  {
    TwoDigits(m / MinutesPerHour) + ":" + TwoDigits(m % MinutesPerHour)
  }

  /** The time-of-day string of an instant. */
  function TimeOfDayString(t: int): string {
    TimeString(MinuteOfDay(t))
  }

  lemma TwoDigitsInjective(a: int, b: int)
    requires 0 <= a < 100 && 0 <= b < 100
    requires TwoDigits(a) == TwoDigits(b)
    ensures a == b
  {
    assert Digit(a / 10) == Digit(b / 10) && Digit(a % 10) == Digit(b % 10);
    assert a / 10 == b / 10 && a % 10 == b % 10;
  }

  /** Distinct times of day format to distinct strings. */
  lemma TimeStringInjective(a: int, b: int)
    requires 0 <= a < MinutesPerDay && 0 <= b < MinutesPerDay
    ensures TimeString(a) == TimeString(b) <==> a == b
  {
    if TimeString(a) == TimeString(b) {
      var sa, sb := TimeString(a), TimeString(b);
      assert sa[..2] == TwoDigits(a / 60) && sb[..2] == TwoDigits(b / 60);
      assert sa[3..] == TwoDigits(a % 60) && sb[3..] == TwoDigits(b % 60);
      TwoDigitsInjective(a / 60, b / 60);
      TwoDigitsInjective(a % 60, b % 60);
    }
  }
}
