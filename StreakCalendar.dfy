/** The daily-streak calendar (src/DailyStreakCalendar.tsx): a week of seven
    day cells, Sunday (0) to Saturday (6), in which the `streak` most recent
    days up to and including today are ticked, and a motivation line chosen
    by the length of the streak. */
module StreakCalendar {

  import opened Common

  const DaysInWeek: nat := 7

  /** `user?.watchStreak || 0`: no user, or no streak, reads as 0. On an
      integer streak `|| 0` changes nothing (0 is the only falsy integer). */
  function StreakOf(watchStreak: Option<int>): (streak: int)
    ensures watchStreak.None? ==> streak == 0
    ensures watchStreak.Some? ==> streak == watchStreak.value
  {
    match watchStreak
    case None => 0
    case Some(v) => v
  }

  /** Day `index` belongs to the streak when it lies at most `streak - 1`
      days before `today` in the same week. */
  predicate InStreak(today: int, streak: int, index: int) {
    var dayDiff := today - index;
    dayDiff >= 0 && dayDiff < streak
  }

  /** `streakDays`: one flag per day of the week. */
  function StreakDays(today: int, streak: int): (days: seq<bool>)
    ensures |days| == DaysInWeek
    ensures forall i :: 0 <= i < DaysInWeek ==> days[i] == InStreak(today, streak, i)
  {
    seq(DaysInWeek, index => InStreak(today, streak, index))
  }

  /** The number of `true` entries of `s`. */
  function CountTrue(s: seq<bool>): (n: nat)
    ensures n <= |s|
  {
    if s == [] then 0 else CountTrue(s[..|s| - 1]) + (if s[|s| - 1] then 1 else 0)
  }

  function Min(a: int, b: int): int {
    if a <= b then a else b
  }

  function Max(a: int, b: int): int {
    if a <= b then b else a
  }

  /** Entry `i` is active exactly when `0 <= today - i < streak`, and a day
      after today is never active: the streak does not wrap into the
      previous week. */
  lemma StreakDayActive(today: int, streak: int, i: int)
    requires 0 <= i < DaysInWeek
    ensures StreakDays(today, streak)[i] <==> i <= today && today - streak < i
    ensures i > today ==> !StreakDays(today, streak)[i]
  {
  }

  /** The first `n` entries hold as many active days as there are days
      in `[today - streak + 1, today]` below `n`. */
  lemma {:induction false} CountStreakPrefix(today: int, streak: int, n: nat)
    requires n <= DaysInWeek
    ensures CountTrue(StreakDays(today, streak)[..n])
            == Max(0, Min(n, today + 1) - Max(0, today - streak + 1))
  {
    var days := StreakDays(today, streak);
    if n > 0 {
      assert days[..n][..n - 1] == days[..n - 1];
      CountStreakPrefix(today, streak, n - 1);
    }
  }

  /** For a real day of the week and a non-negative streak, the number of
      active days is `min(streak, today + 1)`. */
  lemma ActiveDayCount(today: int, streak: int)
    requires 0 <= today < DaysInWeek
    requires streak >= 0
    ensures CountTrue(StreakDays(today, streak)) == Min(streak, today + 1)
  {
    var days := StreakDays(today, streak);
    CountStreakPrefix(today, streak, DaysInWeek);
    assert days[..DaysInWeek] == days;
  }

  /** The active days are contiguous and run up to today: once one day is
      active, so is every later day up to today. */
  lemma StreakContiguous(today: int, streak: int, i: int, j: int)
    requires 0 <= i <= j <= today < DaysInWeek
    requires StreakDays(today, streak)[i]
    ensures StreakDays(today, streak)[j]
    ensures StreakDays(today, streak)[today]
  {
  }

  /** Raising the streak never deactivates a day. */
  lemma StreakMonotone(today: int, s1: int, s2: int, i: int)
    requires s1 <= s2
    requires 0 <= i < DaysInWeek
    ensures StreakDays(today, s1)[i] ==> StreakDays(today, s2)[i]
  {
  }

  /** A streak of zero or less (including a missing one) marks no day. */
  lemma NoStreakNoDays(today: int, streak: int)
    requires streak <= 0
    ensures StreakDays(today, streak) == seq(DaysInWeek, _ => false)
  {
  }

  // ---------------------------------------------------------------------------
  // Motivation line
  // ---------------------------------------------------------------------------

  datatype Tier = WatchDaily | Great | Amazing

  function Rank(t: Tier): nat {
    match t
    case WatchDaily => 0
    case Great => 1
    case Amazing => 2
  }

  /** The motivation tier: "amazing" from 7 days, "great" from 3, else
      "watch daily". */
  function TierOf(streak: int): (t: Tier)
    ensures t == Amazing <==> streak >= 7
    ensures t == Great <==> 3 <= streak < 7
    ensures t == WatchDaily <==> streak < 3
  {
    if streak >= 7 then Amazing else if streak >= 3 then Great else WatchDaily
  }

  /** A longer streak never gets a lower tier. */
  lemma TierMonotone(s1: int, s2: int)
    requires s1 <= s2
    ensures Rank(TierOf(s1)) <= Rank(TierOf(s2))
  {
  }

  const MotivationLinesEn: set<string> :=
    {"Amazing! Keep it up!", "Great progress!", "Watch daily to build streak!"}

  /** The motivation line: the line names its tier (each tier has its own
      line in each language), and it is one of the English lines exactly in
      English. */
  function Motivation(t: Tier, lang: Language): (r: string)
    ensures t == Amazing <==> r == "Amazing! Keep it up!" || r == "অসাধারণ! চালিয়ে যান!"
    ensures t == Great <==> r == "Great progress!" || r == "দারুণ হচ্ছে!"
    ensures t == WatchDaily <==> r == "Watch daily to build streak!" || r == "প্রতিদিন ভিডিও দেখুন!"
    ensures r in MotivationLinesEn <==> lang == En
  {
    match t
    case Amazing => Pick(lang, "Amazing! Keep it up!", "অসাধারণ! চালিয়ে যান!")
    case Great => Pick(lang, "Great progress!", "দারুণ হচ্ছে!")
    case WatchDaily => Pick(lang, "Watch daily to build streak!", "প্রতিদিন ভিডিও দেখুন!")
  }

  // ---------------------------------------------------------------------------
  // The rendered calendar
  // ---------------------------------------------------------------------------

  const DayLabelsEn: seq<string> := ["S", "M", "T", "W", "T", "F", "S"]
  const DayLabelsBn: seq<string> := ["র", "সো", "ম", "বু", "বৃ", "শু", "শ"]

  datatype DayCell = DayCell(dayLabel: string, isToday: bool, isActive: bool)

  /** What the component renders from its context: the title, the streak
      badge, seven day cells and the motivation line. */
  datatype CalendarView = CalendarView(
    title: string, streak: int, daysLabel: string, cells: seq<DayCell>, motivation: string)

  function Calendar(watchStreak: Option<int>, today: int, lang: Language): (v: CalendarView)
    ensures |v.cells| == DaysInWeek
    ensures v.streak == StreakOf(watchStreak)
    ensures forall i :: 0 <= i < DaysInWeek ==>
      && v.cells[i].isActive == StreakDays(today, v.streak)[i]
      && v.cells[i].dayLabel == (if lang == Bn then DayLabelsBn else DayLabelsEn)[i]
    ensures v.motivation == Motivation(TierOf(v.streak), lang)
  {
    var streak := StreakOf(watchStreak);
    var streakDays := StreakDays(today, streak);
    CalendarView(
      Pick(lang, "Daily Streak", "দৈনিক স্ট্রিক"),
      streak,
      Pick(lang, "days", "দিন"),
      seq(DaysInWeek, index requires 0 <= index < DaysInWeek =>
        DayCell(Pick(lang, DayLabelsEn[index], DayLabelsBn[index]), index == today, streakDays[index])),
      Motivation(TierOf(streak), lang))
  }

  function TodayFlags(cells: seq<DayCell>): seq<bool> {
    seq(|cells|, i requires 0 <= i < |cells| => cells[i].isToday)
  }

  /** Exactly one cell, the one at today's index, is flagged as today. */
  lemma {:induction false} ExactlyOneToday(watchStreak: Option<int>, today: int, lang: Language)
    requires 0 <= today < DaysInWeek
    ensures var cells := Calendar(watchStreak, today, lang).cells;
            (forall i :: 0 <= i < DaysInWeek ==> (cells[i].isToday <==> i == today))
            && CountTrue(TodayFlags(cells)) == 1
  {
    var flags := TodayFlags(Calendar(watchStreak, today, lang).cells);
    assert forall i :: 0 <= i < DaysInWeek ==> (flags[i] <==> i == today);
    CountSingle(flags, today, DaysInWeek);
    assert flags[..DaysInWeek] == flags;
  }

  /** A sequence whose only `true` entry is at `k` counts one `true` in any
      prefix reaching past `k`, and none in a shorter one. */
  lemma {:induction false} CountSingle(flags: seq<bool>, k: nat, n: nat)
    requires n <= |flags| && k < |flags|
    requires forall i :: 0 <= i < |flags| ==> (flags[i] <==> i == k)
    ensures CountTrue(flags[..n]) == if k < n then 1 else 0
  {
    if n > 0 {
      assert flags[..n][..n - 1] == flags[..n - 1];
      CountSingle(flags, k, n - 1);
    }
  }
}
