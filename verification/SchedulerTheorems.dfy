/** What the scheduler promises: the next trigger is the least that fits, a firing pass fires each
    due scene once, and the exact conditions under which no scene is due after it. */
module SchedulerTheorems {
  import opened Calendar
  import opened Scheduler
  import opened Words

  // ---------- The least trigger ----------

  /** A weekly scene may fire on this day: on a selected weekday, or on any if none is selected. */
  predicate Selected(s: Scene, day: nat) {
    true in s.days ==> s.days[Weekday(day)]
  }

  lemma SuitsSelected(s: Scene, day: nat)
    requires s.freq == EVERY_WEEK
    ensures Suits(s, day) <==> Selected(s, day)
  {
    hide Weekday;
    AnyIsSome(s.days);
    WeekdayIs(day);
  }

  lemma AnyIsSome(days: Days)
    ensures AnyDaysInList(days) <==> true in days
  {
    if true in days {
      var w :| 0 <= w < 7 && days[w];
    }
  }

  lemma WeekdayIs(day: nat)
    ensures Weekday(day) < 7
  {}

  /** A moment at which a weekly scene could fire: its minute of the day, on a selected weekday or
      on any if none is selected, in a later minute than now. */
  predicate Candidate(s: Scene, sceneMinute: nat, now: nat, t: nat) {
    && t % 60 == 0 && t / 60 > now / 60 && MinuteOfDay(t) == sceneMinute
    && Selected(s, Today(t))
  }

  lemma DayAndMinute(day: nat, minute: nat)
    requires minute < MINUTES_PER_DAY
    ensures var t := day * SECONDS_PER_DAY + minute * 60;
            t % 60 == 0 && MinuteOfDay(t) == minute && Today(t) == day && t / 60 == day * MINUTES_PER_DAY + minute
  {}

  lemma MinutesOf(t: nat)
    ensures t / 60 == Today(t) * MINUTES_PER_DAY + MinuteOfDay(t)
    ensures t % 60 == 0 ==> t == Today(t) * SECONDS_PER_DAY + MinuteOfDay(t) * 60
  {}

  /** When a weekly search leaves its first day. */
  lemma AdvancesOff(s: Scene, now: Uint32, sun: SunTable)
    requires s.freq == EVERY_WEEK
    ensures Advances(s, now, sun) <==> SceneMinute(s, now, sun) <= MinuteOfDay(now) || !Suits(s, Today(now))
  {
    hide SceneMinute, MinuteOfDay, Weekday;
  }

  /** For a weekly scene whose minute stays within one day the search returns the earliest candidate
      of all. The minute of a regular scene always does; a sun scene's may be moved out by its delta. */
  lemma LeastTrigger(s: Scene, now: Uint32, sun: SunTable)
    requires s.freq == EVERY_WEEK && 0 <= SceneMinute(s, now, sun) < MINUTES_PER_DAY
    ensures var m, t := SceneMinute(s, now, sun), NextMoment(s, now, sun);
            t >= 0 && Candidate(s, m, now, t) && forall x: nat :: Candidate(s, m, now, x) ==> t <= x
  {
    var m, day := SceneMinute(s, now, sun), NextDay(s, now, sun);
    DayAndMinute(day, m);
    MinutesOf(now);
    hide SceneMinute, MinuteOfDay, Today, Weekday, Selected, Suits;
    SuitsSelected(s, day);
    SuitsSelected(s, Today(now));
    AdvancesOff(s, now, sun);
    forall x: nat | Candidate(s, m, now, x)
      ensures NextMoment(s, now, sun) <= x
    {
      MinutesOf(x);
      SuitsSelected(s, Today(x));
      assert Suits(s, Today(x));
      assert Today(x) >= day;
    }
  }

  /** For a weekly scene at sunrise or sunset that is the time the sun tables give for this event today,
      moved by the delta. */
  lemma LeastSunTrigger(s: Scene, now: Uint32, sun: SunTable, sunrise: bool, m: nat)
    requires s.freq == EVERY_WEEK && s.trigger == (if sunrise then SUNRISE else SUNSET)
    requires var t := sun(ToDate(now).(second := 0), sunrise);
             m == t.hour * MINUTES_IN_HOUR + t.minute + s.delta < MINUTES_PER_DAY
    ensures var t := NextMoment(s, now, sun);
            t >= 0 && Candidate(s, m, now, t) && forall x: nat :: Candidate(s, m, now, x) ==> t <= x
  {
    hide ToDate, NextMoment, Candidate;
    LeastTrigger(s, now, sun);
  }

  /** The minute of a one-time scene, as the sun tables or its own time give it for its own date. */
  predicate OnceMinute(s: Scene, sun: SunTable, m: int) {
    if s.trigger == REGULAR_TIME then m == MinuteOfDay(s.nextTriggerTime)
    else
      var date := ToDate(s.nextTriggerTime).(second := 0);
      var t := if s.trigger == SUNRISE then sun(date, true) else sun(date, false);
      m == t.hour * MINUTES_IN_HOUR + t.minute + s.delta
  }

  /** A one-time scene fires on its own date, or on the next if that minute of today has passed or if
      days are selected and today is none of them. */
  lemma OnceTrigger(s: Scene, now: Uint32, sun: SunTable, m: int)
    requires s.freq == ONCE && OnceMinute(s, sun, m)
    ensures var day := Today(s.nextTriggerTime);
            var late := day == Today(now) && m <= MinuteOfDay(now);
            var offDay := true in s.days && !s.days[Weekday(Today(now))];
            NextMoment(s, now, sun) == MomentOn(if late || offDay then day + 1 else day, m)
  {
    hide ToDate, MinuteOfDay, Today, Weekday, AnyDaysInList;
    AnyIsSome(s.days);
    WeekdayIs(Today(now));
  }

  lemma RegularMinute(s: Scene, now: Uint32, sun: SunTable)
    requires s.trigger == REGULAR_TIME
    ensures SceneMinute(s, now, sun) == MinuteOfDay(s.nextTriggerTime) < MINUTES_PER_DAY
  {}

  /** A regular weekly scene is moved to the same minute of another day. */
  lemma RegularKeepsMinute(s: Scene, now: Uint32, sun: SunTable)
    requires s.freq == EVERY_WEEK && s.trigger == REGULAR_TIME
    ensures NextMoment(s, now, sun) >= 0 && MinuteOfDay(NextMoment(s, now, sun)) == MinuteOfDay(s.nextTriggerTime)
  {
    RegularMinute(s, now, sun);
    LeastTrigger(s, now, sun);
  }

  /** The one way a weekly trigger can fall at or before now: its delta moves it into the day
      before, the search stops at tomorrow, and today has already passed that minute. */
  predicate FallsBack(s: Scene, now: Uint32, sun: SunTable) {
    && SceneMinute(s, now, sun) < 0
    && Selected(s, Today(now) + 1)
    && MinuteOfDay(now) >= MINUTES_PER_DAY + SceneMinute(s, now, sun)
  }

  lemma DueAgainExactly(s: Scene, now: Uint32, sun: SunTable)
    requires s.freq == EVERY_WEEK && SceneMinute(s, now, sun) + MINUTES_PER_DAY > 0
    ensures NextMoment(s, now, sun) <= now <==> FallsBack(s, now, sun)
  {
    var m, day := SceneMinute(s, now, sun), NextDay(s, now, sun);
    MinutesOf(now);
    assert MinuteOfDay(now) < MINUTES_PER_DAY;
    hide SceneMinute, MinuteOfDay, Today;
    SuitsSelected(s, Today(now) + 1);
    assert Selected(s, Today(now) + 1) && Advances(s, now, sun) ==> day == Today(now) + 1;
    assert NextMoment(s, now, sun) == 60 * (day * MINUTES_PER_DAY + m);
    if day >= Today(now) + 2 {
      assert day * MINUTES_PER_DAY + m > now / 60;
    }
  }

  // ---------- The pass ----------

  /** A day on which a weekly scene could fire next: a selected one, from tomorrow on, or today if its
      minute is still to come. */
  predicate Offered(s: Scene, sceneMinute: int, now: nat, day: nat) {
    Selected(s, day) && (day > Today(now) || (day == Today(now) && sceneMinute > MinuteOfDay(now)))
  }

  function MomentOn(day: nat, sceneMinute: int): int {
    day * SECONDS_PER_DAY + sceneMinute * 60
  }

  /** The pass will not accept the next trigger: on some day offered the scene's minute lies before the
      least accepted time, or on all of them behind the largest. */
  ghost predicate OutOfRange(s: Scene, sceneMinute: int, now: nat) {
    || (exists day :: Offered(s, sceneMinute, now, day) && MomentOn(day, sceneMinute) < MIN_SYSTEM_TIME)
    || (forall day :: Offered(s, sceneMinute, now, day) ==> MomentOn(day, sceneMinute) > MAX_SYSTEM_TIME)
  }

  /** The search stops at the first day offered, also where the delta moves the minute out of its day. */
  lemma NextIsFirstOffered(s: Scene, now: Uint32, sun: SunTable)
    requires s.freq == EVERY_WEEK
    ensures var m, day := SceneMinute(s, now, sun), NextDay(s, now, sun);
            Offered(s, m, now, day) && NextMoment(s, now, sun) == MomentOn(day, m)
            && forall x: nat :: Offered(s, m, now, x) ==> day <= x
  {
    hide SceneMinute, MinuteOfDay, Today, Weekday, Selected, Suits;
    var m, day := SceneMinute(s, now, sun), NextDay(s, now, sun);
    AdvancesOff(s, now, sun);
    SuitsSelected(s, day);
    forall x: nat | Offered(s, m, now, x)
      ensures day <= x
    {
      SuitsSelected(s, x);
    }
  }

  lemma OutOfRangeExactly(s: Scene, now: Uint32, sun: SunTable)
    requires s.freq == EVERY_WEEK
    ensures OutOfRange(s, SceneMinute(s, now, sun), now) <==> !(MIN_SYSTEM_TIME <= NextMoment(s, now, sun) <= MAX_SYSTEM_TIME)
  {
    hide SceneMinute, NextMoment, Offered, NextDay;
    NextIsFirstOffered(s, now, sun);
  }

  /** After its turn, a scene is due again at the same moment exactly when it was due, is weekly, and
      the days and the minute it asks for make its new trigger fall back or leave the accepted times. */
  lemma DueAfterPassExactly(s: Scene, now: Uint32, sun: SunTable)
    ensures Due(Turn(s, now, sun), now) <==>
              && Due(s, now) && Clean(s).freq == EVERY_WEEK
              && (FallsBack(Clean(s), now, sun) || OutOfRange(Clean(s), SceneMinute(Clean(s), now, sun), now))
  {
    hide OutOfRange, NextMoment, FallsBack, SceneMinute;
    DueByMoment(s, now, sun);
    if Clean(s).freq == EVERY_WEEK {
      OutOfRangeExactly(Clean(s), now, sun);
    }
  }

  /** With the clock more than nine days before the least accepted time, every weekly scene that is due
      stays due after each pass. */
  lemma EarlyClockKeepsDue(s: Scene, now: Uint32, sun: SunTable)
    requires Due(s, now) && Clean(s).freq == EVERY_WEEK && now + 9 * SECONDS_PER_DAY < MIN_SYSTEM_TIME
    ensures Due(Turn(s, now, sun), now)
  {
    hide NextMoment, FallsBack;
    DueByMoment(s, now, sun);
    MomentBounds(Clean(s), now, sun);
  }

  /** The sun at half past midnight, an hour of delta before it, and a pass at ten to midnight: the
      trigger falls back to half past eleven and the scene is due again at once. */
  lemma FallsBackAtMidnight(s: Scene, now: Uint32, sun: SunTable)
    requires s == Scene("dawn", now, EVERY_WEEK, SUNRISE, [false, false, false, false, false, false, false], -60, false, false)
    requires now == 17000 * SECONDS_PER_DAY + 23 * SECONDS_PER_HOUR + 50 * 60
    requires forall d, rise :: sun(d, rise) == SunTime(0, 30)
    ensures Due(s, now) && FallsBack(s, now, sun) && Due(Turn(s, now, sun), now)
    ensures NextMoment(s, now, sun) == now - 20 * 60
  {
    hide ToDate;
    assert Clean(s) == s;
    assert Today(now) == 17000 && MinuteOfDay(now) == 1430;
    assert SceneMinute(s, now, sun) == -30;
    assert Selected(s, 17001);
    DueAfterPassExactly(s, now, sun);
  }

  /** The same told by the trigger computed. */
  lemma DueByMoment(s: Scene, now: Uint32, sun: SunTable)
    ensures Due(Turn(s, now, sun), now) <==>
              && Due(s, now) && Clean(s).freq == EVERY_WEEK
              && (FallsBack(Clean(s), now, sun)
                  || !(MIN_SYSTEM_TIME <= NextMoment(Clean(s), now, sun) <= MAX_SYSTEM_TIME))
  {
    hide NextMoment, FallsBack;
    var c := Clean(s);
    if Due(s, now) && c.freq == EVERY_WEEK {
      MinuteIsNear(c, now, sun);
      DueAgainExactly(c, now, sun);
      TurnMoment(s, now, sun);
      MomentBounds(c, now, sun);
      var n := NextMoment(c, now, sun);
      assert n < 0 ==> n % UINT32 == n + UINT32;
      assert n >= UINT32 ==> n % UINT32 == n - UINT32;
    }
  }

  lemma MomentBounds(c: Scene, now: Uint32, sun: SunTable)
    requires c.freq == EVERY_WEEK && MIN_DELTA <= c.delta <= MAX_DELTA
    ensures MIN_DELTA * 60 <= NextMoment(c, now, sun) <= now + 9 * SECONDS_PER_DAY
  {
    MinuteIsNear(c, now, sun);
    assert NextDay(c, now, sun) <= Today(now) + 7;
  }

  lemma MinuteIsNear(c: Scene, now: Uint32, sun: SunTable)
    requires MIN_DELTA <= c.delta <= MAX_DELTA
    ensures MIN_DELTA <= SceneMinute(c, now, sun) < MINUTES_PER_DAY + MAX_DELTA
  {}

  /** The fields a turn changes besides the trigger time play no part in finding it. */
  lemma TurnMoment(s: Scene, now: Uint32, sun: SunTable)
    ensures NextMoment(Ran(Clean(s)), now, sun) == NextMoment(Clean(s), now, sun)
  {
    var c := Clean(s);
    assert forall d :: Suits(Ran(c), d) == Suits(c, d);
    assert SceneMinute(Ran(c), now, sun) == SceneMinute(c, now, sun);
  }

  /** Within the range of times, up to nine days before its end, only the fall back remains. */
  lemma MomentInRange(c: Scene, now: Uint32, sun: SunTable)
    requires c.freq == EVERY_WEEK && MIN_DELTA <= c.delta <= MAX_DELTA && !FallsBack(c, now, sun)
    requires MIN_SYSTEM_TIME <= now <= MAX_SYSTEM_TIME - 9 * SECONDS_PER_DAY
    ensures MIN_SYSTEM_TIME <= NextMoment(c, now, sun) <= MAX_SYSTEM_TIME
  {
    MinuteIsNear(c, now, sun);
    DueAgainExactly(c, now, sun);
    MomentBounds(c, now, sun);
  }

  /** A scene that is not due again is left alone by a second pass at the same moment. */
  lemma SecondTurnDoesNothing(s: Scene, now: Uint32, sun: SunTable)
    requires !Due(Turn(s, now, sun), now)
    ensures Turn(Turn(s, now, sun), now, sun) == Turn(s, now, sun) && !Fires(Turn(s, now, sun), now)
  {
    hide NextMoment;
  }

  /** A weekly scene whose turn now would leave it due. */
  ghost predicate Returns(s: Scene, now: Uint32, sun: SunTable) {
    && Due(s, now) && Clean(s).freq == EVERY_WEEK
    && (FallsBack(Clean(s), now, sun) || OutOfRange(Clean(s), SceneMinute(Clean(s), now, sun), now))
  }

  /** The whole table: nothing is due after a pass if and only if no weekly scene that was due falls
      back or leaves the accepted times; and then a second pass does nothing. */
  lemma SecondPassDoesNothing(table: seq<Option<Scene>>, now: Uint32, sun: SunTable)
    ensures var after := Turns(table, now, sun);
            && ((forall i :: 0 <= i < |after| && after[i].Some? ==> !Due(after[i].value, now)) <==>
                forall i :: 0 <= i < |table| && table[i].Some? ==> !Returns(table[i].value, now, sun))
            && ((forall i :: 0 <= i < |table| && table[i].Some? ==> !Returns(table[i].value, now, sun)) ==>
                  Turns(after, now, sun) == after && Fired(after, now) == [])
  {
    hide Turn, Due, Returns, Fires;
    var after := Turns(table, now, sun);
    forall i | 0 <= i < |table| && table[i].Some?
      ensures Due(after[i].value, now) <==> Returns(table[i].value, now, sun)
      ensures !Due(after[i].value, now) ==> Turn(after[i].value, now, sun) == after[i].value && !Fires(after[i].value, now)
    {
      TurnReturns(table[i].value, now, sun);
      if !Due(after[i].value, now) {
        SecondTurnDoesNothing(table[i].value, now, sun);
      }
    }
    if forall i :: 0 <= i < |table| && table[i].Some? ==> !Returns(table[i].value, now, sun) {
      NothingFired(after, now);
      assert Turns(after, now, sun) == after;
    }
  }

  lemma TurnReturns(s: Scene, now: Uint32, sun: SunTable)
    ensures Due(Turn(s, now, sun), now) <==> Returns(s, now, sun)
  {
    hide Turn, Due, OutOfRange, FallsBack, SceneMinute, Clean;
    DueAfterPassExactly(s, now, sun);
  }

  lemma {:induction false} NothingFired(table: seq<Option<Scene>>, now: Uint32)
    requires forall i :: 0 <= i < |table| && table[i].Some? ==> !Fires(table[i].value, now)
    ensures Fired(table, now) == []
    decreases |table|
  {
    if table != [] {
      NothingFired(table[..|table| - 1], now);
    }
  }

  /** A scene is due when it has a name, is active, and its trigger time is now or earlier. A time
      that is not accepted counts as long past. */
  predicate HasCome(s: Scene, now: Uint32) {
    && s.name != "" && (s.freq == ONCE || s.freq == EVERY_WEEK)
    && (MIN_SYSTEM_TIME <= s.nextTriggerTime <= MAX_SYSTEM_TIME ==> s.nextTriggerTime <= now)
  }

  lemma DueHasCome(s: Scene, now: Uint32)
    ensures Due(s, now) <==> HasCome(s, now)
  {}

  lemma {:induction false} FiredOnce(table: seq<Option<Scene>>, now: Uint32, i: nat)
    ensures multiset(Fired(table, now))[i] == if i < |table| && table[i].Some? && Fires(table[i].value, now) then 1 else 0
    decreases |table|
  {
    hide Fires;
    if table != [] {
      FiredOnce(table[..|table| - 1], now, i);
    }
  }

  /** The pass executes every scene whose time has come and that is not to be skipped, once, and no other. */
  lemma FiredExactly(table: seq<Option<Scene>>, now: Uint32)
    ensures forall i: nat :: multiset(Fired(table, now))[i] ==
              if i < |table| && table[i].Some? && HasCome(table[i].value, now) && !table[i].value.skipNext then 1 else 0
  {
    hide Due, HasCome, Fired;
    forall i: nat
      ensures multiset(Fired(table, now))[i] ==
              if i < |table| && table[i].Some? && HasCome(table[i].value, now) && !table[i].value.skipNext then 1 else 0
    {
      FiredOnce(table, now, i);
      if i < |table| && table[i].Some? {
        DueHasCome(table[i].value, now);
      }
    }
  }

  /** A record in the accepted ranges is left as it is; of any other the fields out of range, and they
      alone, get their neutral value. */
  lemma MendedExactly(s: Scene)
    ensures var c := Clean(s);
            && c == s.(trigger := c.trigger, nextTriggerTime := c.nextTriggerTime, delta := c.delta, freq := c.freq)
            && c.trigger == (if s.trigger in {REGULAR_TIME, SUNRISE, SUNSET} then s.trigger else REGULAR_TIME)
            && c.nextTriggerTime == (if MIN_SYSTEM_TIME <= s.nextTriggerTime <= MAX_SYSTEM_TIME then s.nextTriggerTime else 0)
            && c.delta == (if -120 <= s.delta <= 120 then s.delta else 0)
            && c.freq == (if s.freq in {ONCE, EVERY_WEEK} then s.freq else NONE)
    ensures Clean(Clean(s)) == Clean(s)
  {}

  /** What a turn does to a scene that was due: a one-time scene becomes inactive, a skip is used up. */
  lemma TurnOfDue(s: Scene, now: Uint32, sun: SunTable)
    requires HasCome(s, now)
    ensures var t := Turn(s, now, sun);
            && !t.skipNext && t.running == (s.running || !s.skipNext)
            && (s.freq == ONCE ==> t.freq == NONE && t.nextTriggerTime == Clean(s).nextTriggerTime)
            && (s.freq == EVERY_WEEK ==>
                  t.freq == EVERY_WEEK && t.nextTriggerTime == NextMoment(Clean(s), now, sun) % UINT32)
  {
    hide NextMoment;
    TurnMoment(s, now, sun);
  }
}
