/** What the daylight saving controller promises: the rule is the statutory period, one check is
    enough, time is conserved, and a clock that ticks forward is switched once at each transition. */
module DstTheorems {
  import opened Calendar
  import opened Scheduler
  import opened Words
  import opened Dst

  // ---------- The rule is the period ----------

  lemma SundayIsSunday(year: nat, month: nat, from: nat)
    requires from >= 1
    ensures var s := SundayFrom(year, month, from);
            && from <= s <= from + 6 && Weekday(DayNumber(year, month, s)) == 0
            && forall d :: from <= d <= from + 6 && Weekday(DayNumber(year, month, d)) == 0 ==> d == s
  {}

  lemma WeekdayOffset(year: nat, month: nat, d: nat, e: nat)
    requires 1 <= d <= e
    ensures (Weekday(DayNumber(year, month, d)) + (e - d)) % 7 == Weekday(DayNumber(year, month, e))
  {}

  /** The day number of a date against that of a Sunday in the same year. */
  lemma AgainstDay(d: Date, month: nat, day: nat)
    requires Consistent(d) && (month == 3 || month == 11) && 1 <= day <= 30
    ensures var n, m := DayNumber(d.year, d.month, d.day), DayNumber(d.year, month, day);
            && (n < m <==> d.month < month || (d.month == month && d.day < day))
            && (n == m <==> d.month == month && d.day == day)
  {
    if d.month < month || (d.month == month && d.day < day) {
      DaysAscend(d.year, d.month, d.day, d.year, month, day);
    } else if d.month != month || d.day != day {
      DaysAscend(d.year, month, day, d.year, d.month, d.day);
    }
  }

  /** For a date a calendar can show, isItDST is membership in the half-open period between the two
      transitions (section 110 of the Energy Policy Act of 2005). */
  lemma RuleIsPeriod(d: Date, inDST: bool)
    requires Consistent(d)
    ensures IsItDst(d, inDST) <==> SpringAt(d.year) <= FromDate(d) < FallAt(d.year, inDST)
  {
    var spring, fall := SundayFrom(d.year, 3, 8), SundayFrom(d.year, 11, 1);
    SundayIsSunday(d.year, 3, 8);
    SundayIsSunday(d.year, 11, 1);
    AgainstDay(d, 3, spring);
    AgainstDay(d, 11, fall);
    Position(d, 3, spring, 2);
    Position(d, 11, fall, if inDST then 2 else 1);
    hide DayNumber, Weekday;
    if d.month == 3 {
      MarchRule(d, spring);
    } else if d.month == 11 {
      NovemberRule(d, fall);
    }
  }

  /** A moment against a full hour of some day. */
  lemma Position(d: Date, month: nat, day: nat, hour: nat)
    requires Consistent(d) && day >= 1 && hour < 24
    ensures var n, m := DayNumber(d.year, d.month, d.day), DayNumber(d.year, month, day);
            m * SECONDS_PER_DAY + hour * SECONDS_PER_HOUR <= FromDate(d) <==> m < n || (m == n && d.hour >= hour)
  {
    hide DayNumber;
  }

  lemma MarchRule(d: Date, spring: nat)
    requires Consistent(d) && d.month == 3 && spring == SundayFrom(d.year, 3, 8)
    ensures IsItDst(d, false) == IsItDst(d, true)
    ensures IsItDst(d, true) <==> d.day > spring || (d.day == spring && d.hour >= 2)
  {
    SundayIsSunday(d.year, 3, 8);
    if d.day >= spring {
      WeekdayOffset(d.year, 3, spring, d.day);
    } else {
      WeekdayOffset(d.year, 3, d.day, spring);
    }
    hide DayNumber;
  }

  lemma NovemberRule(d: Date, fall: nat)
    requires Consistent(d) && d.month == 11 && fall == SundayFrom(d.year, 11, 1)
    ensures IsItDst(d, true) <==> d.day < fall || (d.day == fall && d.hour < 2)
    ensures IsItDst(d, false) <==> d.day < fall || (d.day == fall && d.hour < 1)
  {
    SundayIsSunday(d.year, 11, 1);
    if d.day >= fall {
      WeekdayOffset(d.year, 11, fall, d.day);
    } else {
      WeekdayOffset(d.year, 11, d.day, fall);
    }
    hide DayNumber;
  }

  lemma RuleOnClock(t: nat, inDST: bool)
    ensures IsItDst(ToDate(t), inDST) <==> InPeriod(t, inDST)
  {
    SecondsRoundTrip(t);
    RuleIsPeriod(ToDate(t), inDST);
  }

  // ---------- Where the transitions lie in a year ----------

  function YearStart(year: nat): nat {
    DaysBeforeYear(year) * SECONDS_PER_DAY
  }

  lemma YearOf(t: nat)
    ensures var y := ToDate(t).year; y >= EPOCH_YEAR && YearStart(y) <= t < YearStart(y + 1)
  {
    SecondsRoundTrip(t);
    var d := ToDate(t);
    WithinYear(d.year, d.month, d.day);
  }

  /** Both transitions of a year are far from its ends and from each other. */
  lemma TransitionsInside(year: nat)
    requires year >= EPOCH_YEAR
    ensures YearStart(year) + 30 * SECONDS_PER_DAY < SpringAt(year)
    ensures SpringAt(year) + 30 * SECONDS_PER_DAY < FallAt(year, false) == FallAt(year, true) - 3600
    ensures FallAt(year, true) + 30 * SECONDS_PER_DAY < YearStart(year + 1)
  {
    SundayIsSunday(year, 3, 8);
    SundayIsSunday(year, 11, 1);
    MonthStarts(year);
    hide DaysBeforeMonth, Weekday;
  }

  lemma MonthStarts(year: nat)
    ensures 59 <= DaysBeforeMonth(year, 3) <= 60
    ensures 304 <= DaysBeforeMonth(year, 11) <= 305
    ensures YearDays(year) >= 365
  {
    var y := year;
    assert DaysBeforeMonth(y, 2) == 31;
    assert DaysBeforeMonth(y, 5) == DaysBeforeMonth(y, 3) + 61;
    assert DaysBeforeMonth(y, 7) == DaysBeforeMonth(y, 5) + 61;
    assert DaysBeforeMonth(y, 9) == DaysBeforeMonth(y, 7) + 62;
    assert DaysBeforeMonth(y, 11) == DaysBeforeMonth(y, 9) + 61;
  }

  lemma {:induction false} YearStartsAscend(y: nat, z: nat)
    requires EPOCH_YEAR <= y < z
    ensures YearStart(y + 1) <= YearStart(z)
  {
    YearsAscend(y, z);
  }

  /** The period may be asked of any year that fits: only its own year's period can hold a moment. */
  lemma PeriodOf(t: nat, y: nat, inDST: bool)
    requires y >= EPOCH_YEAR && YearStart(y) - 30 * SECONDS_PER_DAY <= t < YearStart(y + 1) + 30 * SECONDS_PER_DAY
    ensures InPeriod(t, inDST) <==> SpringAt(y) <= t < FallAt(y, inDST)
  {
    var z := ToDate(t).year;
    YearOf(t);
    TransitionsInside(y);
    TransitionsInside(z);
    hide ToDate, SpringAt, FallAt, YearStart;
    if z < y {
      YearStartsAscend(z, y);
    } else if y < z {
      YearStartsAscend(y, z);
    }
  }

  /** The rule at a clock within an hour of t, by the transitions of the year of t. */
  lemma RuleNear(t: nat, c: nat, inDST: bool)
    requires t - 3600 <= c <= t + 3600
    ensures var y := ToDate(t).year; IsItDst(ToDate(c), inDST) <==> SpringAt(y) <= c < FallAt(y, inDST)
  {
    RuleOnClock(c, inDST);
    YearOf(t);
    PeriodOf(c, ToDate(t).year, inDST);
  }

  lemma FallHour(t: nat)
    ensures var y := ToDate(t).year;
            FallAt(y, true) == FallAt(y, false) + 3600 && SpringAt(y) + 7200 < FallAt(y, false)
  {
    YearOf(t);
    TransitionsInside(ToDate(t).year);
  }

  // ---------- One check is enough ----------

  /** The clock is far enough from both ends of its range to be moved. */
  predicate Movable(clock: Uint32) {
    3600 <= clock < UINT32 - 3600
  }

  lemma ShiftPlain(t: Uint32, offset: int)
    requires 0 <= t + offset < UINT32
    ensures Shift(t, offset) == t + offset
  {}

  /** A check moves a movable clock by an hour with the flag, or not at all. */
  lemma CheckMoves(st: State)
    requires Movable(st.clock)
    ensures var r := CheckNow(st);
            && r.clock == st.clock + (if r.inDST then 3600 else 0) - (if st.inDST then 3600 else 0)
            && r.useDaylightSaving == st.useDaylightSaving
            && r.inDST == (st.useDaylightSaving && IsItDst(ToDate(st.clock), st.inDST))
            && (r.inDST == st.inDST ==> r == st)
  {
    hide IsItDst, ToDate, AdjustAll, Shift;
    ShiftPlain(st.clock, 3600);
    ShiftPlain(st.clock, -3600);
  }

  /** After one check the flag agrees with the rule at the moved clock, and another check there
      changes nothing; without daylight saving the flag is off. */
  lemma CheckIsFixedPoint(st: State)
    requires Movable(st.clock)
    ensures var r := CheckNow(st);
            && (if st.useDaylightSaving then r.inDST == IsItDst(ToDate(r.clock), r.inDST) else !r.inDST)
            && CheckNow(r) == r
  {
    hide ToDate, SpringAt, FallAt, IsItDst, AdjustAll, Shift;
    var r := CheckNow(st);
    CheckMoves(st);
    RuleNear(st.clock, st.clock, st.inDST);
    RuleNear(st.clock, r.clock, r.inDST);
    FallHour(st.clock);
  }

  /** In 2015 daylight time began on 8 March and ended on 1 November. */
  lemma TransitionsOf2015()
    ensures SpringAt(2015) == 1425780000 && ToDate(1425780000) == Date(2015, 3, 8, 2, 0, 0, 0)
    ensures FallAt(2015, true) == 1446343200 && ToDate(1446343200) == Date(2015, 11, 1, 2, 0, 0, 0)
  {
    hide ToDate, DayNumber;
    DaysOf2015();
    DateRoundTrip(Date(2015, 3, 8, 2, 0, 0, 0));
    DateRoundTrip(Date(2015, 11, 1, 2, 0, 0, 0));
  }

  lemma DaysOf2015()
    ensures DayNumber(2015, 3, 8) == 16502 && DayNumber(2015, 11, 1) == 16740
  {
    hide DaysBeforeYear, DaysBeforeMonth;
    DaysInClosedForm(2015);
    MonthsOf2015();
  }

  lemma MonthsOf2015()
    ensures DaysBeforeMonth(2015, 3) == 59 && DaysBeforeMonth(2015, 11) == 304
  {
    assert DaysBeforeMonth(2015, 2) == 31;
    assert DaysBeforeMonth(2015, 5) == DaysBeforeMonth(2015, 4) + 30 && DaysBeforeMonth(2015, 4) == DaysBeforeMonth(2015, 3) + 31;
    assert DaysBeforeMonth(2015, 7) == DaysBeforeMonth(2015, 6) + 30 && DaysBeforeMonth(2015, 6) == DaysBeforeMonth(2015, 5) + 31;
    assert DaysBeforeMonth(2015, 9) == DaysBeforeMonth(2015, 8) + 31 && DaysBeforeMonth(2015, 8) == DaysBeforeMonth(2015, 7) + 31;
    assert DaysBeforeMonth(2015, 10) == DaysBeforeMonth(2015, 9) + 30;
  }

  // ---------- Conservation ----------

  /** The offset in use is the zone's, plus an hour in daylight time. */
  predicate OffsetAgrees(st: State) {
    st.effectiveOffset == Add32(st.gmtOffset, if st.inDST then 3600 else 0)
  }

  /** A local time as an instant of UTC, in 32 bits. */
  function Utc(local: Uint32, st: State): Uint32 {
    var offset: int := st.effectiveOffset;
    Shift(local, -offset)
  }

  lemma ShiftBack(t: Uint32, a: int, b: int, h: int, k: int)
    requires b == a + h + k * UINT32
    ensures Shift(Shift(t, h), -b) == Shift(t, -a)
  {
    var u := t + h;
    assert u % UINT32 == u - u / UINT32 * UINT32;
    ModCancels(t - a, -(u / UINT32) - k);
  }

  /** The two offsets differ by an hour, up to a wrap of 32 bits. */
  lemma OffsetStep(a: Int32) returns (k: int)
    ensures Add32(a, 0) == a && Add32(a, 3600) == a + 3600 + k * UINT32
  {
    k := if a + 3600 < 0x8000_0000 then 0 else -1;
  }

  lemma ModCancels(x: int, k: int)
    ensures (x + k * UINT32) % UINT32 == x % UINT32
  {
    var q := x / UINT32;
    assert x == q * UINT32 + x % UINT32;
    assert x + k * UINT32 == (q + k) * UINT32 + x % UINT32;
  }

  /** Every check keeps the offset in step with the flag, the instant the clock stands for and the
      instant each named scene with another trigger than the time fires at; the scenes without a name
      and those with a regular time keep their local time. */
  lemma CheckConserves(st: State, date: Date)
    requires OffsetAgrees(st)
    ensures var r := Check(st, date);
            && OffsetAgrees(r) && Utc(r.clock, r) == Utc(st.clock, st)
            && r.gmtOffset == st.gmtOffset && r.useDaylightSaving == st.useDaylightSaving && |r.scenes| == |st.scenes|
            && forall i :: 0 <= i < |st.scenes| ==>
                 (st.scenes[i].None? ==> r.scenes[i].None?)
                 && (st.scenes[i].Some? ==>
                       && r.scenes[i].Some?
                       && r.scenes[i].value == st.scenes[i].value.(nextTriggerTime := r.scenes[i].value.nextTriggerTime)
                       && (if st.scenes[i].value.name != "" && st.scenes[i].value.trigger != REGULAR_TIME
                           then Utc(r.scenes[i].value.nextTriggerTime, r) == Utc(st.scenes[i].value.nextTriggerTime, st)
                           else r.scenes[i] == st.scenes[i]))
  {
    hide IsItDst, Add32;
    var r := Check(st, date);
    var k := OffsetStep(st.gmtOffset);
    var h, w := if r.inDST == st.inDST then 0 else if r.inDST then 3600 else -3600,
                if r.inDST == st.inDST then 0 else if r.inDST then k else -k;
    assert r.effectiveOffset == st.effectiveOffset + h + w * UINT32;
    ShiftBack(st.clock, st.effectiveOffset, r.effectiveOffset, h, w);
    forall i | 0 <= i < |st.scenes| && st.scenes[i].Some? && SunBound(st.scenes[i].value)
      ensures Utc(r.scenes[i].value.nextTriggerTime, r) == Utc(st.scenes[i].value.nextTriggerTime, st)
    {
      ShiftBack(st.scenes[i].value.nextTriggerTime, st.effectiveOffset, r.effectiveOffset, h, w);
    }
  }

  // ---------- A forward clock ----------

  /** The clock in standard time. */
  function Standard(st: State): int {
    st.clock - if st.inDST then 3600 else 0
  }

  /** Daylight time on a standard-time clock: from the spring transition at 02:00 to the autumn one,
      which daylight clocks show as 02:00 and this one as 01:00. */
  predicate Daylight(standard: nat) {
    InPeriod(standard, false)
  }

  /** The hour before the spring transition, in which a flag that is already set stays set. */
  predicate SpringHour(standard: nat) {
    var y := ToDate(standard).year;
    SpringAt(y) - 3600 <= standard < SpringAt(y)
  }

  /** Exactly when a check leaves the flag as standard time alone would have it. */
  lemma FlagFollowsStandardTime(st: State)
    requires st.useDaylightSaving && Movable(st.clock)
    ensures var r := CheckNow(st);
            && Standard(r) == Standard(st) >= 0
            && (r.inDST == Daylight(Standard(st)) <==> !(st.inDST && SpringHour(Standard(st))))
  {
    hide ToDate, SpringAt, FallAt, IsItDst, CheckNow, SpringHour, InPeriod;
    CheckMoves(st);
    var t: nat := Standard(st);
    RuleNear(st.clock, st.clock, st.inDST);
    RuleNear(st.clock, t, false);
    RuleOnClock(t, false);
    FallHour(st.clock);
    SpringHourNear(st.clock, t);
  }

  /** In every year: a controller that is on daylight time half an hour before the spring transition
      stays on it, though standard time says winter. */
  lemma FlagStaysSet(st: State, year: nat)
    requires year > EPOCH_YEAR && st.useDaylightSaving && st.inDST && Movable(st.clock)
    requires st.clock == SpringAt(year) + 1800
    ensures Standard(st) == SpringAt(year) - 1800 && !Daylight(Standard(st)) && CheckNow(st).inDST
  {
    hide ToDate, SpringAt, FallAt, IsItDst, CheckNow, SpringHour, InPeriod, YearStart;
    var t: nat := Standard(st);
    TransitionsInside(year);
    YearStartsAscend(year, year + 1);
    SpringHourOf(t, year);
    PeriodOf(t, year, false);
    FlagFollowsStandardTime(st);
  }

  lemma SpringHourNear(c: nat, t: nat)
    requires c - 3600 <= t <= c
    ensures var y := ToDate(c).year; SpringHour(t) <==> SpringAt(y) - 3600 <= t < SpringAt(y)
  {
    YearOf(c);
    SpringHourOf(t, ToDate(c).year);
  }

  lemma SpringHourOf(t: nat, y: nat)
    requires y >= EPOCH_YEAR && YearStart(y) - SECONDS_PER_DAY <= t < YearStart(y + 1)
    ensures SpringHour(t) <==> SpringAt(y) - 3600 <= t < SpringAt(y)
  {
    var z := ToDate(t).year;
    YearOf(t);
    TransitionsInside(y);
    TransitionsInside(z);
    hide ToDate, SpringAt, FallAt, YearStart;
    if z < y {
      YearStartsAscend(z, y);
    } else if y < z {
      YearStartsAscend(y, z);
    }
  }

  /** Time passes, and then the minute's check is made. */
  function Tick(st: State, seconds: nat): State {
    CheckNow(st.(clock := Shift(st.clock, seconds)))
  }

  /** Some transition of the year lies after `from` and not after `to`, in standard time. */
  predicate Passes(from: nat, to: nat) {
    var y := ToDate(to).year;
    from < SpringAt(y) <= to || from < FallAt(y, false) <= to
  }

  /** The flag is the one standard time asks for. */
  predicate Settled(st: State) {
    st.useDaylightSaving && Standard(st) >= 0 && st.inDST == Daylight(Standard(st))
  }

  /** A tick of up to an hour keeps the flag in step, and switches it exactly if it passes a
      transition. */
  lemma TickTogglesAtTransitions(st: State, seconds: nat)
    requires Settled(st) && seconds <= 3600 && st.clock + seconds < UINT32 - 3600 && Standard(st) >= 3600
    ensures var r := Tick(st, seconds);
            && Settled(r) && Standard(r) == Standard(st) + seconds
            && (r.inDST != st.inDST <==> Passes(Standard(st), Standard(r)))
  {
    hide ToDate, SpringAt, FallAt, InPeriod, SpringHour, CheckNow, IsItDst, Shift;
    ShiftPlain(st.clock, seconds);
    var s := st.(clock := Shift(st.clock, seconds));
    var from: nat, to: nat := Standard(st), Standard(st) + seconds;
    FlagFollowsStandardTime(s);
    CheckMoves(s);
    DaylightNear(to, from);
    DaylightNear(to, to);
    FallHour(to);
    SpringHourNear(to, to);
  }

  lemma DaylightNear(t: nat, c: nat)
    requires t - 3600 <= c <= t
    ensures var y := ToDate(t).year; Daylight(c) <==> SpringAt(y) <= c < FallAt(y, false)
  {
    RuleNear(t, c, false);
    RuleOnClock(c, false);
  }

  function Ticks(st: State, steps: seq<nat>): State {
    if steps == [] then st else Tick(Ticks(st, steps[..|steps| - 1]), steps[|steps| - 1])
  }

  /** How often the flag changes over a run of ticks. */
  function Toggles(st: State, steps: seq<nat>): nat {
    if steps == [] then 0
    else
      var before := Ticks(st, steps[..|steps| - 1]);
      Toggles(st, steps[..|steps| - 1]) + if Tick(before, steps[|steps| - 1]).inDST != before.inDST then 1 else 0
  }

  /** How many ticks of a run pass a transition, told from standard time alone. */
  function Transitions(from: nat, steps: seq<nat>): nat {
    if steps == [] then 0
    else
      var before := from + Sum(steps[..|steps| - 1]);
      Transitions(from, steps[..|steps| - 1]) + if Passes(before, before + steps[|steps| - 1]) then 1 else 0
  }

  function Sum(steps: seq<nat>): nat {
    if steps == [] then 0 else Sum(steps[..|steps| - 1]) + steps[|steps| - 1]
  }

  /** Over any run of forward ticks the flag changes once for each transition passed, and is right
      after every tick. */
  lemma {:induction false} RunTogglesOncePerTransition(st: State, steps: seq<nat>)
    requires Settled(st) && Standard(st) >= 3600
    requires forall s :: s in steps ==> s <= 3600
    requires Standard(st) + Sum(steps) < UINT32 - 7200
    ensures Settled(Ticks(st, steps)) && Standard(Ticks(st, steps)) == Standard(st) + Sum(steps)
    ensures Toggles(st, steps) == Transitions(Standard(st), steps)
  {
    hide Tick, Passes, Daylight;
    if steps != [] {
      var k := |steps| - 1;
      assert steps[k] in steps && forall s :: s in steps[..k] ==> s in steps;
      RunTogglesOncePerTransition(st, steps[..k]);
      TickTogglesAtTransitions(Ticks(st, steps[..k]), steps[k]);
    }
  }
}
