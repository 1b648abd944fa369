/**
 * The stopwatch (`Timer` in rubiks.timer.js).  The host clock becomes a
 * `now` parameter and each firing of the host's repeating timer becomes an
 * explicit call to `Tick`.  `Scheduled` stands for the host's live
 * repeating timers, so that a timer left running is visible.
 */
module Stopwatch {
  import opened Wrappers
  import opened TimeFormat

  /** The `optionsParam` of the constructor; a missing entry keeps the default. */
  datatype TimerOptions = TimerOptions(intervalTime: Option<int>, timeFormat: Option<FormatConfig>)

  const DefaultIntervalTime: int := 43

  class Timer {
    /** Options after the shallow `extend` of the defaults with the constructor's parameter. */
    const intervalTime: int
    const timeFormat: FormatConfig

    var running: bool
    var intervalId: Option<nat>
    var startDate: Option<int>
    var endDate: Option<int>

    /** Ids of the host's repeating timers that still fire. */
    ghost var Scheduled: set<nat>
    /**
     * The elapsed time the callback was last given since the latest start.
     * The callback reads the clock again after the tick has set `endDate`,
     * so this is at least `endDate - startDate`.
     */
    ghost var LastReported: Option<int>

    ghost predicate Valid()
      reads this
    {
      && (running ==> intervalId.Some? && intervalId.value in Scheduled)
      && (Scheduled != {} ==> startDate.Some?)
      && (endDate.Some? ==> startDate.Some?)
      && (LastReported.Some? <==> endDate.Some?)
      && (LastReported.Some? ==> endDate.value - startDate.value <= LastReported.value)
    }

    /** A timer that has never run; an entry of `options` replaces the default whole. */
    constructor (options: TimerOptions)
      ensures Valid()
      ensures intervalTime == options.intervalTime.GetOr(DefaultIntervalTime)
      ensures timeFormat == options.timeFormat.GetOr(DefaultTimeFormat())
      ensures !running && intervalId == None && startDate == None && endDate == None
      ensures Scheduled == {}
    {
      intervalTime := options.intervalTime.GetOr(DefaultIntervalTime);
      timeFormat := options.timeFormat.GetOr(DefaultTimeFormat());
      running, intervalId, startDate, endDate := false, None, None, None;
      Scheduled, LastReported := {}, None;
    }

    /**
     * `elapsed()`: up to `now` while running, else up to the last tick.
     * A missing date counts as 0, as `null` does in the subtraction.
     */
    function Elapsed(now: int): (r: int)
      reads this
      ensures running ==> r == now - startDate.GetOr(0)
      ensures Valid() && !running && LastReported.Some? ==> r <= LastReported.value
      ensures Valid() && !running && LastReported.None? ==> r == -startDate.GetOr(0)
    {
      (if running then now else endDate.GetOr(0)) - startDate.GetOr(0)
    }

    /** `running()`: while it holds, the latest repeating timer is live. */
    function Running(): (r: bool)
      reads this
      ensures r == running
      ensures Valid() && r ==> intervalId.Some? && intervalId.value in Scheduled
    {
      running
    }

    /**
     * `start`: marks the timer running from `now`, forgets the previous end
     * and registers a new repeating timer, whose fresh id the host gives.
     * A timer registered by an earlier start is not cancelled.
     */
    method Start(now: int, id: nat)
      requires Valid() && id !in Scheduled
      modifies this
      ensures Valid()
      ensures running && startDate == Some(now) && endDate == None && intervalId == Some(id)
      ensures Scheduled == old(Scheduled) + {id}
      ensures LastReported == None
    {
      running := true;
      startDate := Some(now);
      endDate := None;
      intervalId := Some(id);
      Scheduled := Scheduled + {id};
      LastReported := None;
    }

    /**
     * One firing of a live repeating timer: records the clock `now` as the
     * end and returns the elapsed time the callback is given.  That value
     * comes from a second clock read, `later`, while the timer runs, and
     * from the end just recorded once it is stopped (a timer that a second
     * start left behind fires even after the stop).
     */
    method Tick(id: nat, now: int, later: int) returns (elapsedMs: int)
      requires Valid() && id in Scheduled && now <= later
      modifies this`endDate, this`LastReported
      ensures Valid()
      ensures endDate == Some(now)
      ensures startDate.Some? && now - startDate.value <= elapsedMs <= later - startDate.value
      ensures running ==> elapsedMs == later - startDate.value
      ensures !running ==> elapsedMs == now - startDate.value
      ensures LastReported == Some(elapsedMs)
    {
      endDate := Some(now);
      elapsedMs := Elapsed(later);
      LastReported := Some(elapsedMs);
    }

    /**
     * `stop`: clears the running flag, cancels the latest repeating timer
     * and returns the elapsed time as of the last tick's end, which is at
     * most what that tick's callback was given.  With no tick since the
     * start, the missing end counts as 0 and the result is minus the start
     * time.
     */
    method Stop() returns (elapsedMs: int)
      requires Valid()
      modifies this`running, this`Scheduled
      ensures Valid() && !running
      ensures Scheduled == old(Scheduled) - (if intervalId.Some? then {intervalId.value} else {})
      ensures LastReported.Some? ==> elapsedMs <= LastReported.value
      ensures LastReported.None? ==> elapsedMs == -startDate.GetOr(0)
      ensures elapsedMs == endDate.GetOr(0) - startDate.GetOr(0)
    {
      running := false;
      if intervalId.Some? {
        Scheduled := Scheduled - {intervalId.value};
      }
      elapsedMs := Elapsed(0);
    }

    /**
     * `reset`: a stop whose result is dropped.  Its assignment to
     * `startTime` and `endTime` names globals, not the timer's dates, so
     * both dates stay as they were.
     */
    method Reset()
      requires Valid()
      modifies this`running, this`Scheduled
      ensures Valid() && !running
      ensures Scheduled == old(Scheduled) - (if intervalId.Some? then {intervalId.value} else {})
      ensures startDate == old(startDate) && endDate == old(endDate)
    {
      var _ := Stop();
    }

    /** `format` with this timer's time format as the defaults; an absent override is the empty map. */
    method Format(timeMs: int, override: FormatConfig) returns (r: Option<map<string, Shown>>)
      ensures r == Formatted(timeMs, timeFormat, override)
    {
      r := FormatTime(timeMs, timeFormat, override);
    }
  }

  /** Once stopped, the elapsed time no longer depends on the clock. */
  lemma StoppedElapsedIsFrozen(t: Timer, now1: int, now2: int)
    requires !t.running
    ensures t.Elapsed(now1) == t.Elapsed(now2)
  {
  }

  /** While running, the elapsed time grows with the clock. */
  lemma RunningElapsedFollowsClock(t: Timer, now1: int, now2: int)
    requires t.running && now1 <= now2
    ensures t.Elapsed(now2) - t.Elapsed(now1) == now2 - now1
  {
  }

  /**
   * A start, two ticks and a stop with a clock that does not go back: the
   * callback sees growing times, the stop reports the last tick's end minus
   * the start, which is at most what the callback last saw, `running()` is
   * true only in between, and no repeating timer is left behind.
   */
  method StartTickStop(t0: int, t1: int, c1: int, t2: int, c2: int, id: nat)
    returns (t: Timer, reported: int, result: int)
    requires t0 <= t1 <= c1 <= t2 <= c2
    ensures !t.Running() && t.Scheduled == {}
    ensures reported == c2 - t0
    ensures result == t2 - t0 && 0 <= result <= reported
  {
    t := new Timer(TimerOptions(None, None));
    assert !t.Running();
    t.Start(t0, id);
    assert t.Running();
    var e1 := t.Tick(id, t1, c1);
    reported := t.Tick(id, t2, c2);
    assert e1 <= reported;
    result := t.Stop();
  }

  /** Two starts without a stop between them: the stop cancels only the second timer, the first keeps firing. */
  method DoubleStartLeaks(t0: int, t1: int, id1: nat, id2: nat) returns (t: Timer)
    requires id1 != id2
    ensures !t.Running() && t.Scheduled == {id1}
  {
    t := new Timer(TimerOptions(None, None));
    t.Start(t0, id1);
    t.Start(t1, id2);
    var _ := t.Stop();
  }
}
