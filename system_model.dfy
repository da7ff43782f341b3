/**
 * The scheduled-action engine (models/system_model.py): it is idle or holds one pending
 * shutdown or restart, and hands the operating system's `shutdown` command the delay.
 *
 * Clock readings are `DateTime` parameters; the pending time is kept as its instant in
 * microseconds. Starting a process is an abstract outcome (`Launch`); the argument lists
 * that reach the operating system are recorded in the ghost field `launched`.
 */
module Scheduling {
  import opened Wrappers
  import opened Text
  import opened Calendar

  /** The families `platform.system().lower()` is compared against. */
  datatype Os = Windows | Linux | Darwin | Other

  /** Whether `subprocess` starts the command; it raises otherwise (missing binary, no permission). */
  datatype Launch = Started | LaunchFails

  /** The handle `subprocess.Popen` returns, standing for the process started with `args`. */
  datatype Process = Process(args: seq<string>)

  /** The dictionary get_scheduled_info returns. */
  datatype Info = Info(actionType: string, scheduledTime: int, remainingSeconds: int)

  /** The engine's fields, and the commands handed to the operating system so far. */
  datatype Engine = Engine(
    scheduledAction: Option<Process>,
    scheduledTime: Option<int>,
    actionType: Option<string>,
    launched: seq<seq<string>>)

  /** What schedule_shutdown_at_time gives its caller: a result, or the ValueError of `replace`. */
  datatype AtOutcome = Returned(ok: bool) | DayOutOfRange

  /** An ASCII capital becomes its small letter; every other character is kept. */
  function LowerChar(c: char): (r: char)
    ensures 'A' <= c <= 'Z' ==> 'a' <= r <= 'z' && r as int - 'a' as int == c as int - 'A' as int
    ensures !('A' <= c <= 'Z') ==> r == c
  {
    if 'A' <= c <= 'Z' then ((c as int) + 32) as char else c
  }

  /** `str.lower()` on ASCII text. */
  function Lower(s: string): (r: string)
    ensures |r| == |s|
    ensures forall i :: 0 <= i < |s| ==> r[i] == LowerChar(s[i])
  {
    seq(|s|, i requires 0 <= i < |s| => LowerChar(s[i]))
  }

  /** The family of the name `platform.system()` reports. */
  function OsFromName(name: string): (os: Os)
    ensures os == Windows <==> Lower(name) == "windows"
    ensures os == Linux <==> Lower(name) == "linux"
    ensures os == Darwin <==> Lower(name) == "darwin"
  {
    var lowered := Lower(name);
    if lowered == "windows" then Windows
    else if lowered == "linux" then Linux
    else if lowered == "darwin" then Darwin
    else Other
  }

  /**
   * The argument list schedule_shutdown starts: seconds on Windows, whole minutes
   * (`seconds // 60`) on Linux and macOS; any action but `"shutdown"` restarts.
   */
  function ScheduleCommand(os: Os, seconds: int, action: string): (r: Option<seq<string>>)
    ensures r.None? <==> os == Other
    ensures r.Some? ==> |r.value| == (if os == Windows then 4 else 3) && r.value[0] == "shutdown"
  {
    match os
    case Windows => Some(["shutdown", if action == "shutdown" then "/s" else "/r", "/t", IntToString(seconds)])
    case Linux => Some(["shutdown", if action == "shutdown" then "-h" else "-r", "+" + IntToString(seconds / 60)])
    case Darwin => Some(["shutdown", if action == "shutdown" then "-h" else "-r", "+" + IntToString(seconds / 60)])
    case Other => None
  }

  /** The argument list cancel_scheduled_action runs. */
  function CancelCommand(os: Os): (r: Option<seq<string>>)
    ensures r.None? <==> os == Other
    ensures r.Some? ==> |r.value| == 2 && r.value[0] == "shutdown"
    ensures r.Some? ==> r.value[1] == if os == Windows then "/a" else "-c"
  {
    match os
    case Windows => Some(["shutdown", "/a"])
    case Linux => Some(["shutdown", "-c"])
    case Darwin => Some(["shutdown", "-c"])
    case Other => None
  }

  /** `max(0, int((scheduled - now).total_seconds()))`. */
  function Remaining(scheduled: int, now: int): (r: int)
    ensures r >= 0
  {
    var whole := TruncSeconds(scheduled - now);
    if whole > 0 then whole else 0
  }

  /** The engine's own consistency: the time and the action are set and cleared together. */
  predicate EngineValid(e: Engine)
  {
    (e.scheduledTime.Some? <==> e.actionType.Some?) && (e.scheduledAction.Some? ==> e.scheduledTime.Some?)
  }

  /**
   * schedule_shutdown: the time and action are stored first; then the command is chosen
   * (an unknown system fails here, keeping what was stored) and started. A sum outside the
   * datetime range raises before anything is stored.
   */
  function ScheduleStep(e: Engine, os: Os, seconds: int, action: string, now: int, launch: Launch): (r: (Engine, bool))
    ensures r.1 <==> InRange(now + seconds * SecondMicros) && os != Other && launch == Started
    ensures !r.1 ==> r.0.scheduledAction == e.scheduledAction && r.0.launched == e.launched
    ensures EngineValid(e) ==> EngineValid(r.0)
  {
    var target := now + seconds * SecondMicros;
    if !InRange(target) then (e, false)
    else
      var stored := e.(scheduledTime := Some(target), actionType := Some(action));
      match ScheduleCommand(os, seconds, action)
      case None => (stored, false)
      case Some(args) =>
        if launch == LaunchFails then (stored, false)
        else assert os != Other && launch == Started; (stored.(scheduledAction := Some(Process(args)), launched := e.launched + [args]), true)
  }

  /** cancel_scheduled_action: on success all three fields are cleared, pending or not. */
  function CancelStep(e: Engine, os: Os, launch: Launch): (r: (Engine, bool))
    ensures r.1 <==> os != Other && launch == Started
    ensures r.1 ==> EngineValid(r.0) && r.0.scheduledTime.None?
    ensures !r.1 ==> r.0 == e
  {
    match CancelCommand(os)
    case None => (e, false)
    case Some(args) =>
      if launch == LaunchFails then (e, false)
      else assert os != Other && launch == Started; (Engine(None, None, None, e.launched + [args]), true)
  }

  /**
   * The delay schedule_shutdown_at_time passes on: whole seconds from `now` to the target,
   * after a target not later than `now` is given the day after `now`'s day (in the
   * target's own month). `None` is the ValueError when that day does not exist.
   */
  function AtTimeDelay(target: DateTime, now: DateTime): (r: Option<int>)
    requires ValidDateTime(target) && ValidDateTime(now)
    ensures r.None? <==> AtOrBefore(target, now) && now.date.day + 1 > DaysInMonth(target.date.year, target.date.month)
    ensures Before(now, target) ==> r.Some? && r.value >= 0
  {
    if AtOrBefore(target, now) then
      match ReplaceDay(target.date, now.date.day + 1)
      case None => None
      case Some(day) => Some(TruncSeconds(Instant(target.(date := day)) - Instant(now)))
    else
      InstantOrder(now, target);
      Some(TruncSeconds(Instant(target) - Instant(now)))
  }

  class SystemModel {
    const osType: Os
    var scheduledAction: Option<Process>
    var scheduledTime: Option<int>
    var actionType: Option<string>
    ghost var launched: seq<seq<string>>

    ghost function State(): Engine
      reads this
    {
      Engine(scheduledAction, scheduledTime, actionType, launched)
    }

    ghost predicate Valid()
      reads this
    {
      EngineValid(State())
    }

    /** A new engine is idle. */
    constructor(systemName: string)
      ensures osType == OsFromName(systemName)
      ensures scheduledAction.None? && scheduledTime.None? && actionType.None? && launched == []
      ensures Valid()
    {
      osType := OsFromName(systemName);
      scheduledAction := None;
      scheduledTime := None;
      actionType := None;
      launched := [];
    }

    method ScheduleShutdown(seconds: int, action: string, now: DateTime, launch: Launch) returns (ok: bool)
      requires Valid() && ValidDateTime(now)
      modifies this
      ensures (State(), ok) == ScheduleStep(old(State()), osType, seconds, action, Instant(now), launch)
      ensures Valid()
      ensures ok ==> GetRemainingTime(now) == Some(if seconds > 0 then seconds else 0)
    {
      var target := Instant(now) + seconds * SecondMicros;
      if !InRange(target) {
        return false;
      }
      scheduledTime := Some(target);
      actionType := Some(action);
      var args: seq<string>;
      match osType {
        case Windows =>
          args := ["shutdown", if action == "shutdown" then "/s" else "/r", "/t", IntToString(seconds)];
        case Linux =>
          args := ["shutdown", if action == "shutdown" then "-h" else "-r", "+" + IntToString(seconds / 60)];
        case Darwin =>
          args := ["shutdown", if action == "shutdown" then "-h" else "-r", "+" + IntToString(seconds / 60)];
        case Other =>
          return false;
      }
      if launch == LaunchFails {
        return false;
      }
      scheduledAction := Some(Process(args));
      launched := launched + [args];
      ok := true;
      RemainingRightAfterScheduling(Instant(now), seconds);
    }

    method ScheduleShutdownAtTime(target: DateTime, action: string, now: DateTime, launchNow: DateTime, launch: Launch)
      returns (r: AtOutcome)
      requires Valid() && ValidDateTime(target) && ValidDateTime(now) && ValidDateTime(launchNow)
      modifies this
      ensures r == DayOutOfRange <==> AtTimeDelay(target, now).None?
      ensures r == DayOutOfRange ==> State() == old(State())
      ensures r.Returned? ==>
        (State(), r.ok) == ScheduleStep(old(State()), osType, AtTimeDelay(target, now).value, action, Instant(launchNow), launch)
      ensures Valid()
    {
      var t := target;
      if AtOrBefore(target, now) {
        var day := ReplaceDay(target.date, now.date.day + 1);
        if day.None? {
          return DayOutOfRange;
        }
        t := target.(date := day.value);
      }
      var seconds := TruncSeconds(Instant(t) - Instant(now));
      assert AtTimeDelay(target, now) == Some(seconds);
      var ok := ScheduleShutdown(seconds, action, launchNow, launch);
      r := Returned(ok);
    }

    method CancelScheduledAction(launch: Launch) returns (ok: bool)
      requires Valid()
      modifies this
      ensures (State(), ok) == CancelStep(old(State()), osType, launch)
      ensures Valid()
    {
      var args: seq<string>;
      match osType {
        case Windows => args := ["shutdown", "/a"];
        case Linux => args := ["shutdown", "-c"];
        case Darwin => args := ["shutdown", "-c"];
        case Other => return false;
      }
      if launch == LaunchFails {
        return false;
      }
      launched := launched + [args];
      scheduledAction := None;
      scheduledTime := None;
      actionType := None;
      ok := true;
    }

    /** Whole seconds left, clamped at zero; `None` while nothing is pending. */
    function GetRemainingTime(now: DateTime): (r: Option<int>)
      requires ValidDateTime(now)
      reads this
      ensures r.None? <==> scheduledTime.None?
      ensures r.Some? ==> r.value >= 0
    {
      if scheduledTime.None? then None else Some(Remaining(scheduledTime.value, Instant(now)))
    }

    /** The pending action, its time and the seconds left; `None` while nothing is pending. */
    function GetScheduledInfo(now: DateTime): (r: Option<Info>)
      requires ValidDateTime(now) && Valid()
      reads this
      ensures r.None? <==> scheduledTime.None?
      ensures r.Some? ==> && Some(r.value.actionType) == actionType
                          && Some(r.value.scheduledTime) == scheduledTime
                          && Some(r.value.remainingSeconds) == GetRemainingTime(now)
    {
      if scheduledTime.None? then None
      else Some(Info(actionType.value, scheduledTime.value, Remaining(scheduledTime.value, Instant(now))))
    }
  }

  // ---------------------------------------------------------------------------
  // Lemmas

  /** Asked at the instant it was scheduled, the countdown shows the delay (zero for a negative one). */
  lemma RemainingRightAfterScheduling(now: int, seconds: int)
    ensures Remaining(now + seconds * SecondMicros, now) == if seconds > 0 then seconds else 0
  {
  }

  /**
   * The countdown is the number of whole seconds left: zero once less than a second
   * remains, otherwise `r` seconds and less than `r + 1`.
   */
  lemma RemainingMeaning(scheduled: int, now: int)
    ensures Remaining(scheduled, now) == 0 <==> scheduled - now < SecondMicros
    ensures Remaining(scheduled, now) > 0 ==>
      Remaining(scheduled, now) * SecondMicros <= scheduled - now < (Remaining(scheduled, now) + 1) * SecondMicros
  {
  }

  /** The countdown never goes up as the clock advances. */
  lemma RemainingMonotone(scheduled: int, now1: int, now2: int)
    requires now1 <= now2
    ensures Remaining(scheduled, now2) <= Remaining(scheduled, now1)
  {
    RemainingMeaning(scheduled, now1);
    RemainingMeaning(scheduled, now2);
  }

  /** get_remaining_time never increases between two clock readings in order. */
  lemma RemainingTimeNeverIncreases(m: SystemModel, earlier: DateTime, later: DateTime)
    requires ValidDateTime(earlier) && ValidDateTime(later) && AtOrBefore(earlier, later)
    requires m.scheduledTime.Some?
    ensures m.GetRemainingTime(later).value <= m.GetRemainingTime(earlier).value
  {
    InstantOrder(earlier, later);
    RemainingMonotone(m.scheduledTime.value, Instant(earlier), Instant(later));
  }

  /**
   * The command carries exactly what was asked: `shutdown`, a halt flag exactly for the
   * action `"shutdown"`, and a delay that `int()` reads back as the seconds on Windows and
   * as the whole minutes (the remainder dropped) on Linux and macOS.
   */
  lemma {:induction false} ScheduleCommandMeaning(os: Os, seconds: int, action: string)
    ensures ScheduleCommand(os, seconds, action).None? <==> os == Other
    ensures var c := ScheduleCommand(os, seconds, action);
      c.Some? ==>
        && |c.value| >= 3 && c.value[0] == "shutdown"
        && ((c.value[1] == "/s" || c.value[1] == "-h") <==> action == "shutdown")
    ensures os == Windows ==>
      ScheduleCommand(os, seconds, action).value[1] == if action == "shutdown" then "/s" else "/r"
    ensures (os == Linux || os == Darwin) ==>
      ScheduleCommand(os, seconds, action).value[1] == if action == "shutdown" then "-h" else "-r"
    ensures os == Windows && WithinDigitLimit(seconds) ==>
      WindowsDelayReadsBack(ScheduleCommand(os, seconds, action).value, seconds)
    ensures (os == Linux || os == Darwin) && WithinDigitLimit(seconds) ==>
      UnixDelayReadsBack(ScheduleCommand(os, seconds, action).value, seconds)
  {
    if WithinDigitLimit(seconds) {
      match os
      case Windows => WindowsCommandDelay(seconds, action);
      case Linux => MinutesWithinLimit(seconds); UnixCommandDelay(seconds, if action == "shutdown" then "-h" else "-r");
      case Darwin => MinutesWithinLimit(seconds); UnixCommandDelay(seconds, if action == "shutdown" then "-h" else "-r");
      case Other =>
    }
  }

  /** The whole minutes in `seconds` have no more digits than the seconds. */
  lemma MinutesWithinLimit(seconds: int)
    requires WithinDigitLimit(seconds)
    ensures WithinDigitLimit(seconds / 60)
  {
    var m := seconds / 60;
    if seconds >= 0 {
      NatToStringMonotone(m, seconds);
    } else {
      assert -m <= -seconds;
      NatToStringMonotone(-m, -seconds);
    }
  }

  /**
   * Any delay whose target instant the datetime addition accepts, from a clock reading that
   * is itself in range, has fewer than thirteen digits: `str()` never meets the digit limit.
   */
  lemma StoredDelaysWithinLimit(now: int, seconds: int)
    requires InRange(now) && InRange(now + seconds * SecondMicros)
    ensures WithinDigitLimit(seconds)
  {
    ShortIntsWithinLimit(seconds);
  }

  /**
   * The same from a clock reading: `datetime.now()` is always in range, so whenever
   * schedule_shutdown gets past the addition, `str(seconds)` does not raise.
   */
  lemma ClockDelaysWithinLimit(now: DateTime, seconds: int)
    requires ValidDateTime(now) && InRange(Instant(now) + seconds * SecondMicros)
    ensures WithinDigitLimit(seconds)
  {
    InstantInRange(now);
    StoredDelaysWithinLimit(Instant(now), seconds);
  }

  /** `int()` reads the fourth argument back as the seconds. */
  predicate WindowsDelayReadsBack(args: seq<string>, seconds: int)
  {
    |args| == 4 && args[2] == "/t" && PyInt(args[3]) == Some(seconds)
  }

  /** The third argument is `+` and a count `int()` reads back as the whole minutes in `seconds`. */
  predicate UnixDelayReadsBack(args: seq<string>, seconds: int)
  {
    && |args| == 3 && |args[2]| > 1 && args[2][0] == '+'
    && PyInt(args[2][1..]).Some?
    && var minutes := PyInt(args[2][1..]).value;
       minutes * 60 <= seconds < minutes * 60 + 60
  }

  lemma WindowsCommandDelay(seconds: int, action: string)
    requires WithinDigitLimit(seconds)
    ensures WindowsDelayReadsBack(ScheduleCommand(Windows, seconds, action).value, seconds)
  {
    PyIntOfIntToString(seconds);
  }

  lemma UnixCommandDelay(seconds: int, flag: string)
    requires WithinDigitLimit(seconds / 60)
    ensures UnixDelayReadsBack(["shutdown", flag, "+" + IntToString(seconds / 60)], seconds)
  {
    var count := IntToString(seconds / 60);
    PyIntOfIntToString(seconds / 60);
    assert ("+" + count)[1..] == count;
  }

  /** The names `platform.system()` reports are recognised whatever their case. */
  lemma SystemNames()
    ensures OsFromName("Windows") == Windows && OsFromName("Linux") == Linux && OsFromName("Darwin") == Darwin
    ensures OsFromName("FreeBSD") == Other
  {
    assert Lower("Windows") == "windows";
    assert Lower("Linux") == "linux";
    assert Lower("Darwin") == "darwin";
    assert Lower("FreeBSD")[0] == 'f';
  }

  /** Ninety seconds become one minute on Linux; a restart on Windows keeps the seconds. */
  lemma CommandExamples()
    ensures ScheduleCommand(Linux, 90, "shutdown") == Some(["shutdown", "-h", "+1"])
    ensures ScheduleCommand(Darwin, 59, "restart") == Some(["shutdown", "-r", "+0"])
    ensures ScheduleCommand(Windows, 90, "reboot") == Some(["shutdown", "/r", "/t", "90"])
  {
    assert IntToString(1) == "1" && IntToString(0) == "0";
    assert "+" + IntToString(1) == "+1" && "+" + IntToString(0) == "+0";
    assert NatToString(9) == "9" && IntToString(90) == "90";
  }

  /** A successful schedule stores `now + seconds` and the action, and starts exactly its command. */
  lemma ScheduleSuccess(e: Engine, os: Os, seconds: int, action: string, now: int, launch: Launch)
    requires ScheduleStep(e, os, seconds, action, now, launch).1
    ensures var after := ScheduleStep(e, os, seconds, action, now, launch).0;
      && after.scheduledTime == Some(now + seconds * SecondMicros)
      && after.actionType == Some(action)
      && after.scheduledAction == Some(Process(ScheduleCommand(os, seconds, action).value))
      && after.launched == e.launched + [ScheduleCommand(os, seconds, action).value]
      && os != Other && launch == Started
  {
  }

  /**
   * A failed schedule starts nothing and keeps the old process handle, yet (unless the time
   * overflowed) the time and action were already overwritten.
   */
  lemma ScheduleFailure(e: Engine, os: Os, seconds: int, action: string, now: int, launch: Launch)
    requires !ScheduleStep(e, os, seconds, action, now, launch).1
    ensures var after := ScheduleStep(e, os, seconds, action, now, launch).0;
      && after.scheduledAction == e.scheduledAction
      && after.launched == e.launched
      && (InRange(now + seconds * SecondMicros) ==>
            after.scheduledTime == Some(now + seconds * SecondMicros) && after.actionType == Some(action))
      && (!InRange(now + seconds * SecondMicros) ==> after == e)
    ensures InRange(now + seconds * SecondMicros) ==> (os == Other || launch == LaunchFails)
  {
  }

  /** Cancelling succeeds exactly on a supported system whose command starts; then the engine is idle. */
  lemma CancelMeaning(e: Engine, os: Os, launch: Launch)
    ensures var (after, ok) := CancelStep(e, os, launch);
      && (ok <==> os != Other && launch == Started)
      && (ok ==> after.scheduledAction.None? && after.scheduledTime.None? && after.actionType.None?
                 && after.launched == e.launched + [CancelCommand(os).value])
      && (!ok ==> after == e)
  {
  }

  /** Every step keeps the time and the action set or cleared together. */
  lemma StepsKeepEngineValid(e: Engine, os: Os, seconds: int, action: string, now: int, launch: Launch)
    requires EngineValid(e)
    ensures EngineValid(ScheduleStep(e, os, seconds, action, now, launch).0)
    ensures EngineValid(CancelStep(e, os, launch).0)
  {
  }

  /**
   * A target later than `now` is kept: the delay is the whole seconds until it.
   */
  lemma FutureTargetDelay(target: DateTime, now: DateTime)
    requires ValidDateTime(target) && ValidDateTime(now) && Before(now, target)
    ensures AtTimeDelay(target, now).Some?
    ensures var d := AtTimeDelay(target, now).value;
      d >= 0 && d * SecondMicros <= Instant(target) - Instant(now) < (d + 1) * SecondMicros
  {
    InstantOrder(now, target);
  }

  /**
   * A time of day already reached today, on a day that is not the last of its month, is
   * moved to the same time tomorrow: the delay is the whole seconds until then, between 0
   * and 86400, and at least one when the clock reading has no fraction of a second.
   */
  lemma SameDayRollover(target: DateTime, now: DateTime)
    requires ValidDateTime(target) && ValidDateTime(now)
    requires target.date == now.date && AtOrBefore(target, now)
    requires now.date.day < DaysInMonth(now.date.year, now.date.month)
    ensures AtTimeDelay(target, now).Some?
    ensures var d := AtTimeDelay(target, now).value;
      && d * SecondMicros <= Instant(target) + DayMicros - Instant(now) < (d + 1) * SecondMicros
      && 0 <= d <= 86400
      && (now.micro == 0 ==> d >= 1)
  {
    InstantOrder(target, now);
    var tomorrow := target.(date := target.date.(day := target.date.day + 1));
    assert Ordinal(tomorrow.date) == Ordinal(target.date) + 1;
    assert Instant(tomorrow) == Instant(target) + DayMicros;
    TimeOfDayBound(target);
    TimeOfDayBound(now);
    var o := Ordinal(now.date);
    assert Instant(now) == o * DayMicros + TimeOfDay(now);
    assert Instant(target) == o * DayMicros + TimeOfDay(target);
  }

  /** When `now` is on the last day of the target's month, the rollover raises. */
  lemma MonthEndRolloverRaises(target: DateTime, now: DateTime)
    requires ValidDateTime(target) && ValidDateTime(now) && AtOrBefore(target, now)
    requires now.date.day >= DaysInMonth(target.date.year, target.date.month)
    ensures AtTimeDelay(target, now).None?
  {
  }
}
