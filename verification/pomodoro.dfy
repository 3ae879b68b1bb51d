/** The pomodoro engine: a cancellable tick loop over the shared state, and
    the work/rest transition that runs when a phase expires naturally. */
module Pomodoro {
  import opened Wrappers
  import opened Time
  import opened Events
  import opened Config
  import opened PomodoroCountdown

  /** A long rest is due when the number of finished rests is even and
      positive. Rust's `%` and Dafny's agree on whether `n % 2` is zero. */
  predicate LongRestDue(restCount: int) {
    restCount % 2 == 0 && restCount > 0
  }

  /** The state after a natural expiry, and the mode handed to the push
      notifier, which is the phase that has just ended. */
  datatype Completion = Completion(state: PomodoroState, pushed: CountdownMode)

  /** The work/rest transition. Ending a work phase starts a rest, long when
      one is due and short otherwise; ending a rest phase counts it and starts
      a work phase. */
  function CountdownComplete(s: PomodoroState): (c: Completion)
    ensures c.pushed == s.countdownMode
    ensures c.state.countdownMode != s.countdownMode
    ensures c.state.restCount == if s.countdownMode == Rest then s.restCount + 1 else s.restCount
    ensures c.state.remainingTime > 0
    ensures var cfg := GetConfig(s.timeMode);
      && (c.state.remainingTime == cfg.workTime <==> s.countdownMode == Rest)
      && (c.state.remainingTime == cfg.longRestTime <==> s.countdownMode == Work && LongRestDue(s.restCount))
      && (c.state.remainingTime == cfg.shortRestTime <==> s.countdownMode == Work && !LongRestDue(s.restCount))
    ensures c.state.(countdownMode := s.countdownMode, restCount := s.restCount, remainingTime := s.remainingTime) == s
  {
    var cfg := GetConfig(s.timeMode);
    match s.countdownMode
    case Work =>
      var next := if LongRestDue(s.restCount) then cfg.longRestTime else cfg.shortRestTime;
      Completion(s.(countdownMode := Rest, remainingTime := next), Work)
    case Rest =>
      Completion(s.(countdownMode := Work, restCount := s.restCount + 1, remainingTime := cfg.workTime), Rest)
  }

  /** `n` natural expiries in a row. */
  function Cycle(s: PomodoroState, n: nat): PomodoroState
    decreases n
  {
    if n == 0 then s else Cycle(CountdownComplete(s).state, n - 1)
  }

  /** From a work phase, every two expiries count exactly one rest and come
      back to work; the rest in between is long exactly when the rests counted
      so far are even and positive. */
  lemma {:induction false} CycleCadence(s: PomodoroState, k: nat)
    requires s.countdownMode == Work
    ensures Cycle(s, 2 * k).countdownMode == Work
    ensures Cycle(s, 2 * k).restCount == s.restCount + k
    ensures Cycle(s, 2 * k).timeMode == s.timeMode
    ensures k > 0 ==> Cycle(s, 2 * k).remainingTime == GetConfig(s.timeMode).workTime
    ensures Cycle(s, 2 * k + 1).countdownMode == Rest
    ensures Cycle(s, 2 * k + 1).restCount == s.restCount + k
    ensures Cycle(s, 2 * k + 1).remainingTime ==
      if LongRestDue(s.restCount + k) then GetConfig(s.timeMode).longRestTime
      else GetConfig(s.timeMode).shortRestTime
    decreases k
  {
    var s2 := CountdownComplete(CountdownComplete(s).state).state;
    if k > 0 {
      CycleCadence(s2, k - 1);
      assert Cycle(s, 2 * k) == Cycle(s2, 2 * (k - 1));
      assert Cycle(s, 2 * k + 1) == Cycle(s2, 2 * (k - 1) + 1);
    }
  }

  /** With the Medium preset and no rest yet counted, six expiries from work
      load 10, 45, 10, 45, 20 and 45 minutes: short, short, then long rest. */
  lemma MediumCadence(s: PomodoroState)
    requires s.timeMode == Medium && s.countdownMode == Work && s.restCount == 0
    ensures Cycle(s, 1).remainingTime == 600
    ensures Cycle(s, 2).remainingTime == 2700
    ensures Cycle(s, 3).remainingTime == 600
    ensures Cycle(s, 4).remainingTime == 2700
    ensures Cycle(s, 5).remainingTime == 1200
    ensures Cycle(s, 6).remainingTime == 2700
  {
    CycleCadence(s, 0);
    CycleCadence(s, 1);
    CycleCadence(s, 2);
    CycleCadence(s, 3);
  }

  /** The result of one start: what it returned, the state it left, the events
      it published and the mode handed to the push notifier, if any. */
  datatype EngineRun = EngineRun(
    result: Result<(), CommandError>,
    state: PomodoroState,
    trace: seq<Event<()>>,
    pushed: Option<CountdownMode>)

  /** A stop request that lands after `stopAt` ticks interrupts a run of `n`
      ticks when it lands no later than the final outcome check. */
  predicate StopsRun(stopAt: Option<nat>, n: nat) {
    stopAt.Some? && stopAt.value <= n
  }

  /** What a start does from state `s` when a stop request lands after `stopAt`
      ticks (`None` for no request during the run). */
  function PomodoroOutcome(s: PomodoroState, stopAt: Option<nat>): (r: EngineRun)
    // a second start is refused and changes nothing
    ensures s.isRunning ==> r == EngineRun(Failure(AlreadyRunning), s, [], None)
    // an accepted start returns normally, with the engine idle again
    ensures !s.isRunning ==> r.result.Success? && !r.state.isRunning && !r.state.stopSignal
    // Started, then a countdown of updates, then exactly one terminal event
    ensures !s.isRunning ==>
      && |r.trace| >= 2
      && r.trace[0] == Started
      && r.trace[1..|r.trace| - 1] == Ticks(s.remainingTime, |r.trace| - 2)
      && |r.trace| - 2 <= TickCount(s.remainingTime)
      && (r.trace[|r.trace| - 1] == Stopped <==> StopsRun(stopAt, TickCount(s.remainingTime)))
      && (r.trace[|r.trace| - 1] == Complete(()) <==> !StopsRun(stopAt, TickCount(s.remainingTime)))
    // a stopped run keeps the phase and the rest count, and the last ticked value
    ensures !s.isRunning && StopsRun(stopAt, TickCount(s.remainingTime)) ==>
      && r.state.countdownMode == s.countdownMode
      && r.state.restCount == s.restCount
      && r.state.remainingTime == s.remainingTime - (|r.trace| - 2)
      && |r.trace| - 2 == stopAt.value
      && r.state == s.(remainingTime := s.remainingTime - stopAt.value, shouldStop := true, stopSignal := false)
      && r.pushed.None?
    // an expired run ticks all the way down, then takes the work/rest transition
    ensures !s.isRunning && !StopsRun(stopAt, TickCount(s.remainingTime)) ==>
      && |r.trace| - 2 == TickCount(s.remainingTime)
      && r.pushed == Some(s.countdownMode)
      && r.state == CountdownComplete(s.(shouldStop := false, stopSignal := false)).state
  {
    if s.isRunning then EngineRun(Failure(AlreadyRunning), s, [], None)
    else
      var n := TickCount(s.remainingTime);
      if StopsRun(stopAt, n) then
        var k := stopAt.value;
        EngineRun(Success(()),
                  s.(remainingTime := s.remainingTime - k, shouldStop := true, stopSignal := false),
                  [Started] + Ticks(s.remainingTime, k) + [Stopped],
                  None)
      else
        var c := CountdownComplete(s.(remainingTime := s.remainingTime - n, isRunning := true,
                                      shouldStop := false, stopSignal := false));
        EngineRun(Success(()), c.state.(isRunning := false),
                  [Started] + Ticks(s.remainingTime, n) + [Complete(())],
                  Some(c.pushed))
  }

  /** The start command: refuse if running; otherwise mark running, clear the
      stop flag, install a stop channel, publish Started and tick down,
      storing and publishing each value, until zero or a stop request. Then
      remove the channel, publish Stopped or run the transition, and clear
      the running flag. */
  method StartPomodoro(s: PomodoroState, stopAt: Option<nat>) returns (r: EngineRun)
    ensures r == PomodoroOutcome(s, stopAt)
  {
    if s.isRunning {
      return EngineRun(Failure(AlreadyRunning), s, [], None);
    }
    var st := s.(isRunning := true, shouldStop := false, stopSignal := true);
    var trace: seq<Event<()>> := [Started];
    var remaining := st.remainingTime;
    var ticks: nat := 0;
    while remaining > 0 && stopAt != Some(ticks)
      invariant ticks <= TickCount(s.remainingTime)
      invariant remaining == s.remainingTime - ticks
      invariant st == s.(remainingTime := remaining, isRunning := true, shouldStop := false, stopSignal := true)
      invariant trace == [Started] + Ticks(s.remainingTime, ticks)
      invariant stopAt.None? || stopAt.value >= ticks
    {
      remaining := remaining - 1;
      st := st.(remainingTime := remaining);
      trace := trace + [Update(remaining)];
      ticks := ticks + 1;
    }
    assert StopsRun(stopAt, TickCount(s.remainingTime)) <==> stopAt == Some(ticks);
    st := st.(stopSignal := false);
    var pushed: Option<CountdownMode> := None;
    if stopAt == Some(ticks) {
      // the request has set the stop flag by the time it is checked
      st := st.(shouldStop := true);
      trace := trace + [Stopped];
    } else {
      assert ticks == TickCount(s.remainingTime);
      var c := CountdownComplete(st);
      st := c.state;
      pushed := Some(c.pushed);
      trace := trace + [Complete(())];
    }
    st := st.(isRunning := false);
    r := EngineRun(Success(()), st, trace, pushed);
  }

  /** The stop command, as far as this model sees it: the stop flag is set.
      Nothing else changes. */
  function StopPomodoro(s: PomodoroState): (r: PomodoroState)
    ensures r.shouldStop
    ensures r.(shouldStop := s.shouldStop) == s
  {
    s.(shouldStop := true)
  }

  /** A stop requested while idle is forgotten: the next start clears the flag
      and runs exactly as it would have without the request. */
  lemma StopWhileIdleIsForgotten(s: PomodoroState, stopAt: Option<nat>)
    requires !s.isRunning
    ensures PomodoroOutcome(StopPomodoro(s), stopAt) == PomodoroOutcome(s, stopAt)
  {
  }

  /** The push texts: "work time is over, take a break" and "rest time is over,
      back to work". */
  const WorkEndedMessage: string := "工作时间结束，休息一下吧"
  const RestEndedMessage: string := "休息时间结束，继续工作吧"

  /** The push content sent after an expiry: nothing without a configured
      token, otherwise the text for the phase that ended. */
  function PushContent(config: WxPusherConfig, ended: CountdownMode): (m: Option<string>)
    ensures m.Some? <==> config.sptToken.Some?
    ensures m.Some? ==> (m.value == WorkEndedMessage <==> ended == Work)
    ensures m.Some? ==> (m.value == RestEndedMessage <==> ended == Rest)
  {
    if config.sptToken.None? then None
    else
      match ended
      case Work => Some(WorkEndedMessage)
      case Rest => Some(RestEndedMessage)
  }

  /** The notification reports the phase that ended, not the one that begins:
      it is read before the transition. */
  lemma PushReportsEndedPhase(s: PomodoroState, stopAt: Option<nat>, config: WxPusherConfig)
    requires !s.isRunning && !StopsRun(stopAt, TickCount(s.remainingTime)) && config.sptToken.Some?
    ensures var r := PomodoroOutcome(s, stopAt);
      && PushContent(config, r.pushed.value) == PushContent(config, s.countdownMode)
      && PushContent(config, r.pushed.value) != PushContent(config, r.state.countdownMode)
  {
  }
}
