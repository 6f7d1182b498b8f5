/** Embedded/Sources/Event_Task.c: when a scene fires next, and the pass that fires scenes. */
module Scheduler {
  import opened Calendar
  import opened Words

  const MIN_SYSTEM_TIME: nat := 1429810320
  const MAX_SYSTEM_TIME: nat := 2147483647
  const MAX_DELTA: int := 120
  const MIN_DELTA: int := -120

  type Int8 = n: int | -128 <= n < 128

  // FrequencyType and TriggerType; a stored record may hold any byte.
  const NONE: Byte := 0
  const ONCE: Byte := 1
  const EVERY_WEEK: Byte := 2
  const REGULAR_TIME: Byte := 0
  const SUNRISE: Byte := 1
  const SUNSET: Byte := 2

  /** The day bits, Sunday first. */
  type Days = d: seq<bool> | |d| == 7 witness [false, false, false, false, false, false, false]

  datatype Scene = Scene(name: string, nextTriggerTime: Uint32, freq: Byte, trigger: Byte, days: Days,
                         delta: Int8, skipNext: bool, running: bool)

  /** A time of day from the sun tables. */
  datatype SunTime = SunTime(hour: nat, minute: nat)
  type DayTime = s: SunTime | s.hour < 24 && s.minute < 60 witness SunTime(0, 0)

  /** getNextSunTimes: the time of sunrise (true) or sunset (false) on a date. */
  type SunTable = (Date, bool) -> DayTime

  /** isInDayList, for a weekday. */
  predicate IsInDayList(days: Days, day: nat) {
    day < 7 && days[day]
  }

  predicate AnyDaysInList(days: Days) {
    days[0] || days[1] || days[2] || days[3] || days[4] || days[5] || days[6]
  }

  // ---------- The next trigger, told in days and minutes ----------

  function Today(seconds: nat): nat {
    seconds / SECONDS_PER_DAY
  }

  function MinuteOfDay(seconds: nat): nat {
    seconds / 60 % MINUTES_PER_DAY
  }

  /** The day the search starts from. */
  function BaseDay(s: Scene, now: Uint32): nat {
    if s.freq == ONCE then Today(s.nextTriggerTime) else Today(now)
  }

  /** The minute of its day, without the delta, at which the trigger stands. */
  function ClockMinute(s: Scene, now: Uint32, sun: SunTable): nat {
    if s.trigger == REGULAR_TIME then MinuteOfDay(s.nextTriggerTime)
    else
      var base := ToDate(if s.freq == ONCE then s.nextTriggerTime else now).(second := 0);
      var t := sun(base, s.trigger == SUNRISE);
      t.hour * MINUTES_IN_HOUR + t.minute
  }

  function Delta(s: Scene): int {
    if s.trigger == REGULAR_TIME then 0 else s.delta
  }

  function SceneMinute(s: Scene, now: Uint32, sun: SunTable): int {
    ClockMinute(s, now, sun) + Delta(s)
  }

  /** The search has to leave its first day. */
  predicate Advances(s: Scene, now: Uint32, sun: SunTable) {
    && s.freq != NONE
    && ((SceneMinute(s, now, sun) <= MinuteOfDay(now) && BaseDay(s, now) == Today(now))
        || (!IsInDayList(s.days, Weekday(Today(now))) && AnyDaysInList(s.days)))
  }

  /** Whether the search may stop at a day. */
  predicate Suits(s: Scene, day: nat) {
    IsInDayList(s.days, Weekday(day)) || s.freq != EVERY_WEEK || !AnyDaysInList(s.days)
  }

  /** The first day from `day` on at which the search may stop: within a week of it. */
  function FirstSuited(s: Scene, day: nat): (r: nat)
    ensures day <= r <= day + 6 && Suits(s, r) && forall x :: day <= x < r ==> !Suits(s, x)
  {
    if Suits(s, day) then day
    else if Suits(s, day + 1) then day + 1
    else if Suits(s, day + 2) then day + 2
    else if Suits(s, day + 3) then day + 3
    else if Suits(s, day + 4) then day + 4
    else if Suits(s, day + 5) then day + 5
    else
      SomeDaySuits(s, day);
      day + 6
  }

  lemma SomeDaySuits(s: Scene, day: nat)
    ensures Suits(s, day) || Suits(s, day + 1) || Suits(s, day + 2) || Suits(s, day + 3)
            || Suits(s, day + 4) || Suits(s, day + 5) || Suits(s, day + 6)
  {
    if AnyDaysInList(s.days) {
      var w :| 0 <= w < 7 && s.days[w];
      var k := (w + 7 - Weekday(day)) % 7;
      assert Weekday(day + k) == w;
    }
  }

  function NextDay(s: Scene, now: Uint32, sun: SunTable): nat {
    if Advances(s, now, sun) then FirstSuited(s, BaseDay(s, now) + 1) else BaseDay(s, now)
  }

  /** The moment the search settles on, before it is stored in 32 bits. */
  function NextMoment(s: Scene, now: Uint32, sun: SunTable): int {
    NextDay(s, now, sun) * SECONDS_PER_DAY + SceneMinute(s, now, sun) * 60
  }

  // ---------- The code ----------

  lemma SameDayDate(seconds: nat, hour: nat, minute: nat)
    ensures FromDate(ToDate(seconds).(hour := hour, minute := minute, second := 0))
            == Today(seconds) * SECONDS_PER_DAY + hour * SECONDS_PER_HOUR + minute * 60
  {
    SecondsRoundTrip(seconds);
  }

  lemma ClockReading(seconds: nat)
    ensures var d := ToDate(seconds);
            && d.hour * MINUTES_IN_HOUR + d.minute == MinuteOfDay(seconds) && d.hour < 24 && d.minute < 60
            && d.wday == Weekday(Today(seconds)) && d.day >= 1
  {
    SecondsRoundTrip(seconds);
    MinuteOfRest(seconds / SECONDS_PER_DAY, seconds % SECONDS_PER_DAY);
  }

  lemma MinuteOfRest(days: nat, left: nat)
    requires left < SECONDS_PER_DAY
    ensures (days * SECONDS_PER_DAY + left) / 60 % MINUTES_PER_DAY == left / 60
  {
    assert (days * SECONDS_PER_DAY + left) / 60 == days * MINUTES_PER_DAY + left / 60;
  }

  /** Comparing year, month and day is comparing day numbers. */
  lemma SameDay(a: nat, b: nat)
    ensures var d, e := ToDate(a), ToDate(b);
            d.year == e.year && d.month == e.month && d.day == e.day <==> Today(a) == Today(b)
  {
    SecondsRoundTrip(a);
    SecondsRoundTrip(b);
  }

  /** calculateNewTrigger. `rounds` counts the turns of its day-advance loop. */
  method CalculateNewTrigger(s: Scene, now: Uint32, sun: SunTable) returns (next: Uint32, ghost rounds: nat)
    requires now <= UINT32 - 8 * SECONDS_PER_DAY && (s.freq == ONCE ==> s.nextTriggerTime <= UINT32 - 2 * SECONDS_PER_DAY)
    ensures next == NextMoment(s, now, sun) % UINT32
    ensures rounds <= 7 && rounds == NextDay(s, now, sun) - BaseDay(s, now)
  {
    hide ToDate, FromDate, FirstSuited;
    rounds := 0;
    var currentDate := ToDate(now);
    var sceneDate := ToDate(s.nextTriggerTime);
    ClockReading(now);
    ClockReading(s.nextTriggerTime);
    var currentMinute := currentDate.hour * MINUTES_IN_HOUR + currentDate.minute;
    var date, nextIsToday := currentDate, true;
    if s.freq == ONCE {
      date := sceneDate;
      nextIsToday := date.year == currentDate.year && date.month == currentDate.month && date.day == currentDate.day;
      SameDay(s.nextTriggerTime, now);
    }
    ghost var base: nat := if s.freq == ONCE then s.nextTriggerTime else now;
    date := date.(second := 0);
    var sceneMinute: int;
    if s.trigger == REGULAR_TIME {
      date := date.(hour := sceneDate.hour, minute := sceneDate.minute);
      sceneMinute := date.hour * MINUTES_IN_HOUR + date.minute;
    } else {
      var sunTime := sun(date, s.trigger == SUNRISE);
      date := date.(hour := sunTime.hour, minute := sunTime.minute);
      sceneMinute := date.hour * MINUTES_IN_HOUR + date.minute + s.delta;
    }
    var hour, minute := date.hour, date.minute;
    SameDayDate(base, hour, minute);
    ghost var start := Today(base);
    if ((sceneMinute <= currentMinute && nextIsToday)
        || (!IsInDayList(s.days, currentDate.wday) && AnyDaysInList(s.days)))
       && s.freq != NONE
    {
      date, rounds := AdvanceDays(s, date, start);
    }
    date := date.(second := 0);
    var triggerTime := FromDate(date);
    if s.trigger != REGULAR_TIME {
      next := (triggerTime + s.delta * 60) % UINT32;
    } else {
      next := triggerTime % UINT32;
    }
  }

  /** The day-advance loop of calculateNewTrigger. */
  method AdvanceDays(s: Scene, date0: Date, ghost start: nat) returns (date: Date, ghost rounds: nat)
    requires date0.day >= 1 && date0.hour < 24 && date0.minute < 60
    requires FromDate(date0) == start * SECONDS_PER_DAY + date0.hour * SECONDS_PER_HOUR + date0.minute * 60
    requires (start + 8) * SECONDS_PER_DAY <= UINT32 || (s.freq != EVERY_WEEK && (start + 2) * SECONDS_PER_DAY <= UINT32)
    ensures start + rounds == FirstSuited(s, start + 1) && rounds <= 7 && date.day >= 1
    ensures FromDate(date) == (start + rounds) * SECONDS_PER_DAY + date0.hour * SECONDS_PER_HOUR + date0.minute * 60
    ensures date.second == 0
  {
    hide ToDate, FromDate, Weekday;
    date, rounds := date0, 0;
    ghost var last := FirstSuited(s, start + 1);
    var going := true;
    while going
      invariant date.day >= 1 && (rounds > 0 ==> date.second == 0)
      invariant FromDate(date) == (start + rounds) * SECONDS_PER_DAY + date0.hour * SECONDS_PER_HOUR + date0.minute * 60
      invariant if going then start + rounds < last else start + rounds == last && rounds > 0
      decreases last - start - rounds, going
    {
      var seconds := (FromDate(date) + SECONDS_PER_DAY) % UINT32;
      rounds := rounds + 1;
      NextDayReading(start + rounds, date0.hour, date0.minute);
      date := ToDate(seconds);
      going := !IsInDayList(s.days, date.wday) && s.freq == EVERY_WEEK && AnyDaysInList(s.days);
      assert going == !Suits(s, start + rounds);
    }
  }

  lemma NextDayReading(day: nat, hour: nat, minute: nat)
    requires hour < 24 && minute < 60
    ensures var t := day * SECONDS_PER_DAY + hour * SECONDS_PER_HOUR + minute * 60;
            && ToDate(t).hour == hour && ToDate(t).minute == minute && ToDate(t).second == 0
            && ToDate(t).wday == Weekday(day) && ToDate(t).day >= 1 && FromDate(ToDate(t)) == t
  {
    var t := day * SECONDS_PER_DAY + hour * SECONDS_PER_HOUR + minute * 60;
    SecondsRoundTrip(t);
    assert t / SECONDS_PER_DAY == day && t % SECONDS_PER_DAY == hour * SECONDS_PER_HOUR + minute * 60;
  }

  // ---------- The firing pass ----------

  /** What checkScenes mends in a record before it looks at it. */
  function Clean(s: Scene): Scene {
    s.(trigger := if s.trigger != REGULAR_TIME && s.trigger != SUNRISE && s.trigger != SUNSET then REGULAR_TIME else s.trigger,
       nextTriggerTime := if s.nextTriggerTime != 0 && !(MIN_SYSTEM_TIME <= s.nextTriggerTime <= MAX_SYSTEM_TIME)
                          then 0 else s.nextTriggerTime,
       delta := if s.delta > MAX_DELTA || s.delta < MIN_DELTA then 0 else s.delta,
       freq := if s.freq != NONE && s.freq != ONCE && s.freq != EVERY_WEEK then NONE else s.freq)
  }

  lemma MendKeeps(s: Scene)
    ensures Clean(s).name == s.name && Clean(s).skipNext == s.skipNext
    ensures Clean(s).freq == NONE || Clean(s).freq == ONCE || Clean(s).freq == EVERY_WEEK
  {}

  /** A named, active scene whose time, as mended, has come. */
  predicate Due(s: Scene, now: Uint32) {
    s.name != "" && Clean(s).freq != NONE && Clean(s).nextTriggerTime <= now
  }

  predicate Fires(s: Scene, now: Uint32) {
    Due(s, now) && !s.skipNext
  }

  /** A due scene runs, or uses up its skip. */
  function Ran(c: Scene): Scene {
    c.(skipNext := false, running := c.running || !c.skipNext)
  }

  /** A scene after its turn. One without a name is not even mended. */
  function Turn(s: Scene, now: Uint32, sun: SunTable): Scene {
    var c := Clean(s);
    if s.name == "" then s
    else if !Due(s, now) then c
    else if c.freq == ONCE then Ran(c).(freq := NONE)
    else Ran(c).(nextTriggerTime := NextMoment(Ran(c), now, sun) % UINT32)
  }

  function Turns(table: seq<Option<Scene>>, now: Uint32, sun: SunTable): (r: seq<Option<Scene>>)
    ensures |r| == |table|
  {
    seq(|table|, i requires 0 <= i < |table| => if table[i].Some? then Some(Turn(table[i].value, now, sun)) else None)
  }

  /** The scenes executed, in the order of the table. */
  function Fired(table: seq<Option<Scene>>, now: Uint32): seq<nat> {
    if table == [] then []
    else
      var k := |table| - 1;
      Fired(table[..k], now) + if table[k].Some? && Fires(table[k].value, now) then [k] else []
  }

  /** The scene records; a slot without a record is None. */
  class SceneTable {
    const scenes: array<Option<Scene>>
    var addALight: bool

    constructor (scenes: array<Option<Scene>>, addALight: bool)
      ensures this.scenes == scenes && this.addALight == addALight
    {
      this.scenes, this.addALight := scenes, addALight;
    }

    /** checkScenes, with the scenes it hands to ExecuteScene. */
    method CheckScenes(now: Uint32, sun: SunTable) returns (fired: seq<nat>)
      requires now <= UINT32 - 8 * SECONDS_PER_DAY
      modifies scenes
      ensures addALight ==> fired == [] && scenes[..] == old(scenes[..])
      ensures !addALight ==> fired == Fired(old(scenes[..]), now) && scenes[..] == Turns(old(scenes[..]), now, sun)
    {
      hide Clean, NextMoment, Due, Turn, Fires;
      fired := [];
      if !addALight {
        ghost var table := scenes[..];
        for i := 0 to scenes.Length
          invariant fired == Fired(table[..i], now)
          invariant forall j :: 0 <= j < scenes.Length ==>
                      scenes[j] == if j >= i then table[j]
                                   else if table[j].Some? then Some(Turn(table[j].value, now, sun)) else None
        {
          if scenes[i].Some? {
            var s, ran := CheckScene(scenes[i].value, now, sun);
            scenes[i] := Some(s);
            if ran {
              fired := fired + [i];
            }
          }
          assert table[..i + 1][..i] == table[..i];
        }
        assert table[..scenes.Length] == table;
      }
    }

    static method Mend(record: Scene) returns (s: Scene)
      ensures s == Clean(record)
    {
      s := record;
      if s.trigger != REGULAR_TIME && s.trigger != SUNRISE && s.trigger != SUNSET {
        s := s.(trigger := REGULAR_TIME);
      }
      if s.nextTriggerTime != 0 && !(s.nextTriggerTime >= MIN_SYSTEM_TIME && s.nextTriggerTime <= MAX_SYSTEM_TIME) {
        s := s.(nextTriggerTime := 0);
      }
      if s.delta > MAX_DELTA || s.delta < MIN_DELTA {
        s := s.(delta := 0);
      }
      if s.freq != NONE && s.freq != ONCE && s.freq != EVERY_WEEK {
        s := s.(freq := NONE);
      }
    }

    /** The body of the loop of checkScenes, for a slot that holds a record. */
    static method CheckScene(record: Scene, now: Uint32, sun: SunTable) returns (saved: Scene, ran: bool)
      requires now <= UINT32 - 8 * SECONDS_PER_DAY
      ensures saved == Turn(record, now, sun) && ran == Fires(record, now)
    {
      hide NextMoment, Clean;
      ran := false;
      var s := Mend(record);
      MendKeeps(record);
      if s.name == "" {
        return record, false;
      }
      if s.freq == ONCE && s.nextTriggerTime <= now {
        if !s.skipNext {
          ran := true;
          s := s.(running := true);
        } else {
          s := s.(skipNext := false);
        }
        s := s.(freq := NONE);
      } else if s.freq == EVERY_WEEK && s.nextTriggerTime <= now {
        if !s.skipNext {
          ran := true;
          s := s.(running := true);
        } else {
          s := s.(skipNext := false);
        }
        var next, rounds := CalculateNewTrigger(s, now, sun);
        s := s.(nextTriggerTime := next);
      }
      saved := s;
    }
  }
}
