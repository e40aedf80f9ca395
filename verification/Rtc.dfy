/** NET_gettime of net/net.c: seconds counted from the real-time clock with months of 30 days. */
module Rtc {
  import opened Machine

  datatype Calendar = Calendar(second: nat, minute: nat, hour: nat, day: nat, month: nat, year: nat)

  const DAY := 24 * 60 * 60

  /** The seconds, before they are cut to 32 bits. */
  function Seconds(r: Calendar): int {
    r.second + 60 * r.minute + 60 * 60 * r.hour + DAY * r.day + 30 * DAY * r.month + 365 * DAY * (r.year - 1970)
  }

  function GetTime(r: Calendar): uint32 {
    Seconds(r) % WORD
  }

  function DaysIn(month: nat, leap: bool): nat {
    if month == 2 then (if leap then 29 else 28)
    else if month == 4 || month == 6 || month == 9 || month == 11 then 30
    else 31
  }

  predicate IsDate(r: Calendar, leap: bool) {
    r.second < 60 && r.minute < 60 && r.hour < 24 && 1 <= r.month <= 12 && 1 <= r.day <= DaysIn(r.month, leap)
  }

  /** The clock a second later. */
  function Tick(r: Calendar, leap: bool): Calendar {
    if r.second < 59 then r.(second := r.second + 1)
    else if r.minute < 59 then r.(second := 0, minute := r.minute + 1)
    else if r.hour < 23 then r.(second := 0, minute := 0, hour := r.hour + 1)
    else if r.day < DaysIn(r.month, leap) then Calendar(0, 0, 0, r.day + 1, r.month, r.year)
    else if r.month < 12 then Calendar(0, 0, 0, 1, r.month + 1, r.year)
    else Calendar(0, 0, 0, 1, 1, r.year + 1)
  }

  /** The last second of a month of 31 days other than December. */
  predicate EndsLongMonth(r: Calendar) {
    r.second == 59 && r.minute == 59 && r.hour == 23 && r.day == 31 && r.month < 12
  }

  /** The 32-bit count starts again. */
  predicate Wraps(r: Calendar, leap: bool) {
    Seconds(Tick(r, leap)) / WORD != Seconds(r) / WORD
  }

  /** The time given steps back exactly at the end of the months of 31 days other than December, and when
      the count starts again; not if both happen at once. */
  lemma StepsBackExactly(r: Calendar, leap: bool)
    requires IsDate(r, leap)
    ensures GetTime(Tick(r, leap)) < GetTime(r) <==> (EndsLongMonth(r) <==> !Wraps(r, leap))
  {
    hide Seconds, Tick;
    var t, t' := Seconds(r), Seconds(Tick(r, leap));
    OneTick(r, leap);
    assert t == WORD * (t / WORD) + t % WORD && t' == WORD * (t' / WORD) + t' % WORD;
  }

  lemma OneTick(r: Calendar, leap: bool)
    requires IsDate(r, leap)
    ensures var d := Seconds(Tick(r, leap)) - Seconds(r);
      -DAY < d < 10 * DAY && (d < 0 <==> EndsLongMonth(r)) && d != 0
  {
  }

  /** Until the year 2105 the count does not start again. */
  lemma NoWrapBefore2105(r: Calendar, leap: bool)
    requires IsDate(r, leap) && 1970 <= r.year < 2105
    ensures !Wraps(r, leap)
  {
    hide Seconds, Tick;
    OneTick(r, leap);
    SecondsBound(r, leap);
    NoQuotient(Seconds(r));
    NoQuotient(Seconds(Tick(r, leap)));
  }

  lemma SecondsBound(r: Calendar, leap: bool)
    requires IsDate(r, leap) && 1970 <= r.year < 2105
    ensures DAY <= Seconds(r) < 49_305 * DAY
  {
  }

  lemma NoQuotient(t: int)
    requires 0 <= t < WORD
    ensures t / WORD == 0
  {
  }

  /** From the last second of January to the first of February it goes back 86399 seconds. */
  lemma FebruaryIsEarlier(leap: bool)
    ensures var r := Calendar(59, 59, 23, 31, 1, 2006);
      IsDate(r, leap) && GetTime(Tick(r, leap)) == GetTime(r) - (DAY - 1)
  {
  }
}
