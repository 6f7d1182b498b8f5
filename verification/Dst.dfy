/** Embedded/Sources/Event_Task.c, daylight saving time: the rule, the controller that moves clock,
    offset and sun triggers together, and what the loader makes of stored offsets. */
module Dst {
  import opened Calendar
  import opened Scheduler
  import opened Words

  // ---------- The rule ----------

  /** isItDST, branch for branch; `inDST` decides the repeated hour. */
  function IsItDst(d: Date, inDST: bool): bool {
    if d.month < 3 || d.month > 11 then false
    else if d.month > 3 && d.month < 11 then true
    else if d.month == 3 then
      if d.day < 8 then false
      else if d.day <= 14 then
        if d.wday == 0 then d.hour >= 2 else d.day - 7 > d.wday
      else true
    else
      if d.day <= 7 then
        if d.wday == 0 then
          if d.hour >= 2 then false else if d.hour < 1 then true else inDST
        else !(d.day > d.wday)
      else false
  }

  /** The day of the month of the first Sunday on or after the `from`-th. */
  function SundayFrom(year: nat, month: nat, from: nat): nat
    requires from >= 1
  {
    from + (7 - Weekday(DayNumber(year, month, from))) % 7
  }

  /** The second Sunday of March, 02:00, on a clock in standard time. */
  function SpringAt(year: nat): nat {
    DayNumber(year, 3, SundayFrom(year, 3, 8)) * SECONDS_PER_DAY + 2 * SECONDS_PER_HOUR
  }

  /** The first Sunday of November, 02:00 on a clock in daylight time, 01:00 in standard time. */
  function FallAt(year: nat, inDST: bool): nat {
    DayNumber(year, 11, SundayFrom(year, 11, 1)) * SECONDS_PER_DAY + (if inDST then 2 else 1) * SECONDS_PER_HOUR
  }

  /** What the clock shows lies in the daylight period of its year. */
  predicate InPeriod(t: nat, inDST: bool) {
    var y := ToDate(t).year;
    SpringAt(y) <= t < FallAt(y, inDST)
  }

  // ---------- The controller, on values ----------

  type Int32 = n: int | -0x8000_0000 <= n < 0x8000_0000

  /** Addition in 32 signed bits. */
  function Add32(a: Int32, b: Int32): Int32 {
    if a + b >= 0x8000_0000 then a + b - UINT32 else if a + b < -0x8000_0000 then a + b + UINT32 else a + b
  }

  datatype State = State(inDST: bool, gmtOffset: Int32, effectiveOffset: Int32, useDaylightSaving: bool,
                         clock: Uint32, scenes: seq<Option<Scene>>)

  function Shift(t: Uint32, offset: int): Uint32 {
    (t + offset) % UINT32
  }

  /** A scene adjustTriggers moves: named and bound to the sun. */
  predicate SunBound(s: Scene) {
    s.name != "" && s.trigger != REGULAR_TIME
  }

  function Adjust(s: Scene, offset: int): Scene {
    if SunBound(s) then s.(nextTriggerTime := Shift(s.nextTriggerTime, offset)) else s
  }

  function AdjustAll(scenes: seq<Option<Scene>>, offset: int): (r: seq<Option<Scene>>)
    ensures |r| == |scenes|
  {
    seq(|scenes|, i requires 0 <= i < |scenes| =>
      if scenes[i].Some? then Some(Adjust(scenes[i].value, offset)) else None)
  }

  function Enter(st: State): State {
    st.(inDST := true, effectiveOffset := Add32(st.gmtOffset, 3600), clock := Shift(st.clock, 3600),
        scenes := AdjustAll(st.scenes, 3600))
  }

  function Leave(st: State): State {
    st.(inDST := false, effectiveOffset := st.gmtOffset, clock := Shift(st.clock, -3600),
        scenes := AdjustAll(st.scenes, -3600))
  }

  /** checkForDST, given the date it is called with. */
  function Check(st: State, date: Date): State {
    if st.useDaylightSaving then
      if !st.inDST && IsItDst(date, st.inDST) then Enter(st)
      else if st.inDST && !IsItDst(date, st.inDST) then Leave(st)
      else st
    else if st.inDST then Leave(st)
    else st
  }

  /** Called, as it is every minute, with the date on the clock. */
  function CheckNow(st: State): State {
    Check(st, ToDate(st.clock))
  }

  // ---------- The code ----------

  class Controller {
    var inDST: bool
    var gmtOffset: Int32
    var effectiveOffset: Int32
    var useDaylightSaving: bool
    var clock: Uint32
    const scenes: array<Option<Scene>>

    ghost function Model(): State
      reads this, scenes
    {
      State(inDST, gmtOffset, effectiveOffset, useDaylightSaving, clock, scenes[..])
    }

    constructor (scenes: array<Option<Scene>>, clock: Uint32)
      ensures this.scenes == scenes && Model() == State(false, 0, 0, true, clock, scenes[..])
    {
      this.scenes, this.clock := scenes, clock;
      inDST, gmtOffset, effectiveOffset, useDaylightSaving := false, 0, 0, true;
    }

    /** isItDST, as it is called: on the controller's own flag. */
    method IsItDST(d: Date) returns (dstFlag: bool)
      ensures dstFlag == IsItDst(d, inDST)
    {
      dstFlag := true;
      if d.month < 3 || d.month > 11 {
        dstFlag := false;
      } else if d.month > 3 && d.month < 11 {
        dstFlag := true;
      } else if d.month == 3 {
        if d.day < 8 {
          dstFlag := false;
        } else if d.day <= 14 {
          if d.wday == 0 {
            dstFlag := d.hour >= 2;
          } else {
            dstFlag := d.day - 7 > d.wday;
          }
        }
      } else if d.day <= 7 {
        if d.wday == 0 {
          if d.hour >= 2 {
            dstFlag := false;
          } else if d.hour < 1 {
            dstFlag := true;
          } else {
            dstFlag := inDST;
          }
        } else if d.day > d.wday {
          dstFlag := false;
        }
      } else {
        dstFlag := false;
      }
    }

    /** adjustTriggers */
    method AdjustTriggers(adjustment: int)
      modifies scenes
      ensures scenes[..] == AdjustAll(old(scenes[..]), adjustment)
      ensures forall i :: 0 <= i < scenes.Length ==>
                match old(scenes[i])
                case None => scenes[i] == None
                case Some(s) =>
                  scenes[i] == Some(if s.name == "" || s.trigger == REGULAR_TIME then s
                                    else s.(nextTriggerTime := (s.nextTriggerTime + adjustment) % UINT32))
    {
      for i := 0 to scenes.Length
        invariant forall j :: 0 <= j < scenes.Length ==>
                    scenes[j] == if j >= i || old(scenes[j]).None? then old(scenes[j]) else Some(Adjust(old(scenes[j]).value, adjustment))
      {
        if scenes[i].Some? {
          var s := scenes[i].value;
          if s.name != "" && s.trigger != REGULAR_TIME {
            s := s.(nextTriggerTime := (s.nextTriggerTime + adjustment) % UINT32);
            scenes[i] := Some(s);
          }
        }
      }
    }

    /** checkForDST */
    method CheckForDST(curTime: Date)
      modifies this, scenes
      ensures Model() == Check(old(Model()), curTime)
    {
      hide IsItDst, AdjustAll;
      var dst := IsItDST(curTime);
      if useDaylightSaving {
        if !inDST && dst {
          inDST := true;
          effectiveOffset := Add32(gmtOffset, 3600);
          clock := (clock + 3600) % UINT32;
          AdjustTriggers(3600);
        } else if inDST && !dst {
          inDST := false;
          effectiveOffset := gmtOffset;
          clock := (clock - 3600) % UINT32;
          AdjustTriggers(-3600);
        }
      } else if inDST {
        inDST := false;
        effectiveOffset := gmtOffset;
        clock := (clock - 3600) % UINT32;
        AdjustTriggers(-3600);
      }
    }

    /** The part of LoadSystemPropertiesFromFlash that sets the flag from the stored offsets. */
    method LoadOffsets(gmt: Int32, effective: Int32) returns (mustResave: bool)
      modifies this`inDST, this`gmtOffset, this`effectiveOffset
      ensures gmtOffset == gmt && effectiveOffset == Add32(gmtOffset, if inDST then 3600 else 0)
      ensures mustResave <==> effective != gmt && effective != Add32(gmt, 3600)
      ensures !mustResave ==> effectiveOffset == effective
    {
      gmtOffset, effectiveOffset, mustResave := gmt, effective, false;
      if effectiveOffset == gmtOffset {
        inDST := false;
      } else if effectiveOffset == Add32(gmtOffset, 3600) {
        inDST := true;
      } else {
        effectiveOffset := gmtOffset;
        inDST := false;
        mustResave := true;
      }
    }
  }
}
