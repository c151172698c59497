/** Recurring weekday windows, and the minutes of a week they cover. */
module Schedules {

  const DAY := 1440
  const WEEK := 10080

  /** 2^n for a weekday number. */
  function Bit(n: nat): nat {
    if n == 0 then 1 else 2 * Bit(n - 1)
  }

  /** The weekday's bit of the mask, for any integer mask. */
  predicate WeekdayActive(mask: int, weekday: nat) {
    Bit(weekday) > 0 && (mask / Bit(weekday)) % 2 == 1
  }

  /** The mask of the weekdays of a set from day `d` on: one bit a day, day `d` the lowest. */
  function MaskFrom(days: set<int>, d: nat): nat
    decreases 7 - d
  {
    if d >= 7 then 0 else (if d in days then 1 else 0) + 2 * MaskFrom(days, d + 1)
  }

  lemma MultipleIsBig(k: int, b: int)
    requires b > 0
    ensures k > 0 ==> k * b >= b
    ensures k < 0 ==> k * b <= -b
  {
  }

  lemma DivisionIs(x: int, b: int, q: int, rest: int)
    requires b > 0 && x == q * b + rest && 0 <= rest < b
    ensures x / b == q
  {
    var p := x / b;
    assert x == p * b + x % b;
    assert (p - q) * b == rest - x % b;
    MultipleIsBig(p - q, b);
  }

  /** Tomorrow's bit is today's of half the mask. */
  lemma HalfTheMask(mask: nat, d: nat)
    requires d > 0
    ensures WeekdayActive(mask, d) <==> WeekdayActive(mask / 2, d - 1)
  {
    var b, half := Bit(d - 1), mask / 2;
    assert Bit(d) == 2 * b;
    if b > 0 {
      var q, rest := half / b, half % b;
      assert half == q * b + rest;
      assert mask == q * (2 * b) + (2 * rest + mask % 2);
      DivisionIs(mask, 2 * b, q, 2 * rest + mask % 2);
    }
  }

  /** The mask of a set of weekdays, Monday being the lowest bit, is active on exactly those days. */
  lemma MaskIsActiveOnItsDays(days: set<int>, d: nat)
    requires d < 7
    ensures WeekdayActive(MaskFrom(days, 0), d) <==> d in days
  {
    MaskFromIsActive(days, 0, d);
  }

  lemma {:induction false} MaskFromIsActive(days: set<int>, from: nat, d: nat)
    requires from + d < 7
    ensures WeekdayActive(MaskFrom(days, from), d) <==> from + d in days
    decreases d
  {
    if d > 0 {
      hide WeekdayActive;
      HalfTheMask(MaskFrom(days, from), d);
      MaskFromIsActive(days, from + 1, d - 1);
    }
  }

  /** The window check, given whether today and yesterday are masked days. */
  predicate InWindow(today: bool, yesterday: bool, minute: int, start: int, end: int) {
    if start < end then today && start <= minute < end
    else if start == end then false
    else (today && minute >= start) || (yesterday && minute < end)
  }

  /** Is the local minute inside the schedule's window? */
  predicate WindowActive(weekday: int, minute: int, mask: int, start: int, end: int)
    requires 0 <= weekday < 7
  {
    InWindow(WeekdayActive(mask, weekday), WeekdayActive(mask, (weekday - 1) % 7), minute, start, end)
  }

  /** How long one opening lasts. */
  function WindowLength(start: int, end: int): int {
    if start < end then end - start else if start == end then 0 else end - start + DAY
  }

  /** Minute `t` of a running week count, as the weekday and minute the clock shows. */
  predicate ActiveAt(t: int, mask: int, start: int, end: int) {
    WindowActive((t / DAY) % 7, t % DAY, mask, start, end)
  }

  /** Day `d` opens the window at its start minute, and `t` lies inside that opening, weeks wrapping round. */
  predicate InOpening(t: int, d: int, start: int, end: int) {
    (t - (d * DAY + start)) % WEEK < WindowLength(start, end)
  }

  /** The check is the unrolled timeline: a minute is active exactly when it lies in an opening of a masked day. */
  lemma WindowIsUnrolledTimeline(t: int, mask: int, start: int, end: int)
    requires 0 <= start <= DAY && 0 <= end <= DAY
    ensures ActiveAt(t, mask, start, end) <==> exists d :: 0 <= d < 7 && WeekdayActive(mask, d) && InOpening(t, d, start, end)
  {
    var today, minute := (t / DAY) % 7, t % DAY;
    var yesterday := (today - 1) % 7;
    forall d | 0 <= d < 7
      ensures InOpening(t, d, start, end) <==>
        if start < end then d == today && start <= minute < end
        else start != end && ((d == today && minute >= start) || (d == yesterday && minute < end))
    {
      OpeningByDay(t, d, start, end);
    }
    if ActiveAt(t, mask, start, end) {
      var d := if start < end || (minute >= start && WeekdayActive(mask, today)) then today else yesterday;
      assert WeekdayActive(mask, d) && InOpening(t, d, start, end);
    }
  }

  /** Which openings a minute can lie in, read off its weekday and minute of the day. */
  lemma OpeningByDay(t: int, d: int, start: int, end: int)
    requires 0 <= start <= DAY && 0 <= end <= DAY && 0 <= d < 7
    ensures
      var today, minute := (t / DAY) % 7, t % DAY;
      InOpening(t, d, start, end) <==>
        if start < end then d == today && start <= minute < end
        else start != end && ((d == today && minute >= start) || (d == (today - 1) % 7 && minute < end))
  {
    var today, minute := (t / DAY) % 7, t % DAY;
    var weeks := (t / DAY) / 7;
    var offset := (today - d) * DAY + minute - start;
    assert t == weeks * WEEK + today * DAY + minute;
    assert t - (d * DAY + start) == weeks * WEEK + offset;
    ModWeek(weeks, offset);
  }

  lemma ModWeek(weeks: int, offset: int)
    requires -WEEK <= offset < WEEK
    ensures (weeks * WEEK + offset) % WEEK == if offset < 0 then offset + WEEK else offset
  {
  }

  // ---- counting --------------------------------------------------------

  /** Active minutes in [from, from + n). */
  function ActiveMinutes(from: int, n: nat, mask: int, start: int, end: int): nat {
    if n == 0 then 0
    else ActiveMinutes(from, n - 1, mask, start, end) + if ActiveAt(from + n - 1, mask, start, end) then 1 else 0
  }

  function DaysSet(mask: int, n: nat): nat {
    if n == 0 then 0 else DaysSet(mask, n - 1) + if WeekdayActive(mask, n - 1) then 1 else 0
  }

  function Min(a: int, b: int): int { if a < b then a else b }

  function OneIf(b: bool): int { if b then 1 else 0 }

  /** Minutes covered among the first `n` of a day: today's opening and yesterday's overhang. */
  function Cover(today: bool, yesterday: bool, n: int, start: int, end: int): int {
    if start < end then if today then Min(n, end) - Min(n, start) else 0
    else if start == end then 0
    else (if today then n - Min(n, start) else 0) + (if yesterday then Min(n, end) else 0)
  }

  lemma AtMinute(d: int, m: nat, mask: int, start: int, end: int)
    requires 0 <= d < 7 && m < DAY
    ensures ActiveAt(d * DAY + m, mask, start, end) <==>
      InWindow(WeekdayActive(mask, d), WeekdayActive(mask, (d - 1) % 7), m, start, end)
  {
  }

  lemma {:induction false} MinutesInDay(d: int, n: nat, mask: int, start: int, end: int)
    requires 0 <= start <= DAY && 0 <= end <= DAY && 0 <= d < 7 && n <= DAY
    ensures ActiveMinutes(d * DAY, n, mask, start, end) ==
      Cover(WeekdayActive(mask, d), WeekdayActive(mask, (d - 1) % 7), n, start, end)
  {
    if n > 0 {
      hide Cover, InWindow, WeekdayActive, ActiveAt;
      MinutesInDay(d, n - 1, mask, start, end);
      AtMinute(d, n - 1, mask, start, end);
    }
  }

  lemma {:induction false} MinutesAppend(from: int, m: nat, n: nat, mask: int, start: int, end: int)
    ensures ActiveMinutes(from, m + n, mask, start, end) ==
      ActiveMinutes(from, m, mask, start, end) + ActiveMinutes(from + m, n, mask, start, end)
  {
    if n > 0 {
      hide ActiveAt;
      MinutesAppend(from, m, n - 1, mask, start, end);
      assert m + n - 1 == m + (n - 1) && from + (m + n) - 1 == (from + m) + n - 1;
    }
  }

  /** Whole days from Monday: each masked day contributes its own part, and the overhang it leaves tomorrow. */
  lemma {:induction false} MinutesInDays(days: nat, mask: int, start: int, end: int)
    requires 0 <= start <= DAY && 0 <= end <= DAY && days <= 7
    ensures ActiveMinutes(0, days * DAY, mask, start, end) ==
      DaysSet(mask, days) * Cover(true, false, DAY, start, end) + DaysBefore(mask, days) * Cover(false, true, DAY, start, end)
  {
    if days > 0 {
      MinutesInDays(days - 1, mask, start, end);
      MinutesInDay(days - 1, DAY, mask, start, end);
      MinutesAppend(0, (days - 1) * DAY, DAY, mask, start, end);
      var own, overhang := Cover(true, false, DAY, start, end), Cover(false, true, DAY, start, end);
      CountTimes(DaysSet(mask, days - 1), WeekdayActive(mask, days - 1), own);
      CountTimes(DaysBefore(mask, days - 1), WeekdayActive(mask, (days - 2) % 7), overhang);
    }
  }

  /** How many of the first `n` days follow a masked day. */
  function DaysBefore(mask: int, n: nat): nat {
    if n == 0 then 0 else DaysBefore(mask, n - 1) + if WeekdayActive(mask, (n - 2) % 7) then 1 else 0
  }

  lemma CountTimes(k: int, b: bool, x: int)
    ensures (k + OneIf(b)) * x == k * x + if b then x else 0
  {
  }

  lemma WeekWrapsRound(mask: int)
    ensures DaysBefore(mask, 7) == DaysSet(mask, 7)
  {
    DaysShift(mask, 7);
  }

  lemma {:induction false} DaysShift(mask: int, n: nat)
    requires 1 <= n <= 7
    ensures DaysBefore(mask, n) == DaysSet(mask, n - 1) + OneIf(WeekdayActive(mask, 6))
  {
    if n > 1 {
      DaysShift(mask, n - 1);
    } else {
      assert DaysBefore(mask, 0) == 0;
    }
  }

  lemma NextWeekIsAlike(t: nat, mask: int, start: int, end: int)
    ensures ActiveAt(t + WEEK, mask, start, end) <==> ActiveAt(t, mask, start, end)
  {
    hide WindowActive;
    assert (t + WEEK) / DAY == t / DAY + 7 && (t + WEEK) % DAY == t % DAY;
    assert (t / DAY + 7) % 7 == (t / DAY) % 7;
  }

  lemma {:induction false} AnyWeekCountsAlike(from: nat, mask: int, start: int, end: int)
    ensures ActiveMinutes(from, WEEK, mask, start, end) == ActiveMinutes(0, WEEK, mask, start, end)
  {
    if from > 0 {
      hide ActiveMinutes, ActiveAt;
      var t := from - 1;
      AnyWeekCountsAlike(t, mask, start, end);
      MinutesAppend(t, 1, WEEK - 1, mask, start, end);
      MinutesAppend(from, WEEK - 1, 1, mask, start, end);
      NextWeekIsAlike(t, mask, start, end);
    }
  }

  /** Own part and overhang make the whole opening. */
  lemma WholeOpening(start: int, end: int)
    requires 0 <= start <= DAY && 0 <= end <= DAY
    ensures Cover(true, false, DAY, start, end) + Cover(false, true, DAY, start, end) == WindowLength(start, end)
  {
  }

  /** Any seven consecutive days hold one full opening per masked day, wherever the week is cut. */
  lemma FullWeekMinutes(from: nat, mask: int, start: int, end: int)
    requires 0 <= start <= DAY && 0 <= end <= DAY
    ensures ActiveMinutes(from, WEEK, mask, start, end) == DaysSet(mask, 7) * WindowLength(start, end)
  {
    hide ActiveMinutes, Cover, WindowLength, DaysSet, DaysBefore;
    AnyWeekCountsAlike(from, mask, start, end);
    MinutesInDays(7, mask, start, end);
    WeekWrapsRound(mask);
    WholeOpening(start, end);
    var own, overhang := Cover(true, false, DAY, start, end), Cover(false, true, DAY, start, end);
    assert DaysSet(mask, 7) * own + DaysSet(mask, 7) * overhang == DaysSet(mask, 7) * (own + overhang);
  }
}
