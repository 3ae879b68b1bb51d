/** The shared pomodoro state and the countdown command that counts a given
    number of seconds down against it. */
module PomodoroCountdown {
  import opened Wrappers
  import opened Time
  import opened Events

  datatype CountdownMode = Work | Rest

  /** The state shared by the pomodoro commands. `started` is the flag of the
      countdown command below; `isRunning`, `shouldStop` and `stopSignal` are
      the flags the pomodoro engine reads and writes, `stopSignal` recording
      whether a stop channel is installed. */
  datatype PomodoroState = PomodoroState(
    remainingTime: int,
    started: bool,
    countdownMode: CountdownMode,
    restCount: int,
    timeMode: TimeMode,
    isRunning: bool,
    shouldStop: bool,
    stopSignal: bool)

  /** The result of one countdown call: what it returned, the state it left
      and the events it delivered. */
  datatype CountdownRun = CountdownRun(
    result: Result<(), CommandError>,
    state: PomodoroState,
    trace: seq<Event<CountdownMode>>)

  /** The state once the loop has run out: the counter reached its final value,
      the flag is cleared and a finished rest phase is counted. */
  function Finished(s: PomodoroState, seconds: int): PomodoroState {
    s.(remainingTime := seconds - TickCount(seconds),
       started := false,
       restCount := if s.countdownMode == Rest then s.restCount + 1 else s.restCount)
  }

  /** What a countdown of `seconds` does from state `s` when the emit with index
      `failAt` (updates first, then the completion) is the first to fail. */
  function CountdownOutcome(seconds: int, s: PomodoroState, failAt: Option<nat>): (r: CountdownRun)
    // a second start is refused before anything is written
    ensures s.started ==> r == CountdownRun(Failure(AlreadyRunning), s, [])
    ensures r.result == Failure(AlreadyRunning) <==> s.started
    ensures r.result.Success? <==> !s.started && (failAt.None? || failAt.value > TickCount(seconds))
    // a full run publishes every value from seconds - 1 down to 0, then the mode
    ensures r.result.Success? ==>
      && r.trace == Ticks(seconds, TickCount(seconds)) + [Complete(s.countdownMode)]
      && r.state.remainingTime == (if seconds >= 0 then 0 else seconds)
      && !r.state.started
    // a failed emit ends the call; the flag stays set if it was an update
    ensures r.result == Failure(EmitFailed) ==>
      && |r.trace| == failAt.value
      && r.trace == Ticks(seconds, |r.trace|)
      && (r.state.started <==> |r.trace| < TickCount(seconds))
      && r.state.remainingTime == seconds - |r.trace| - (if r.state.started then 1 else 0)
    // the mode is never changed, and one rest phase is counted iff the loop ran out in Rest
    ensures r.state.countdownMode == s.countdownMode
    ensures r.state.restCount ==
      if !s.started && !r.state.started && s.countdownMode == Rest then s.restCount + 1 else s.restCount
    ensures r.state.(remainingTime := s.remainingTime, started := s.started, restCount := s.restCount) == s
  {
    if s.started then CountdownRun(Failure(AlreadyRunning), s, [])
    else
      var n := TickCount(seconds);
      if failAt.Some? && failAt.value < n then
        var k := failAt.value;
        CountdownRun(Failure(EmitFailed), s.(remainingTime := seconds - 1 - k, started := true), Ticks(seconds, k))
      else if failAt == Some(n) then
        CountdownRun(Failure(EmitFailed), Finished(s, seconds), Ticks(seconds, n))
      else
        CountdownRun(Success(()), Finished(s, seconds), Ticks(seconds, n) + [Complete(s.countdownMode)])
  }

  /** The countdown command: refuse if a countdown is in progress, otherwise
      store `seconds`, tick down to zero publishing each value, then clear the
      flag, count a finished rest and publish the current mode. */
  method StartCountdown(seconds: int, s: PomodoroState, failAt: Option<nat>) returns (r: CountdownRun)
    ensures r == CountdownOutcome(seconds, s, failAt)
  {
    if s.started {
      return CountdownRun(Failure(AlreadyRunning), s, []);
    }
    var remaining := seconds;
    var st := s.(remainingTime := remaining, started := true);
    var trace: seq<Event<CountdownMode>> := [];
    var emitted: nat := 0;
    while remaining > 0
      invariant emitted <= TickCount(seconds)
      invariant remaining == seconds - emitted
      invariant st == s.(remainingTime := remaining, started := true)
      invariant trace == Ticks(seconds, emitted)
      invariant failAt.None? || failAt.value >= emitted
    {
      remaining := remaining - 1;
      st := st.(remainingTime := remaining);
      if failAt == Some(emitted) {
        assert emitted < TickCount(seconds);
        return CountdownRun(Failure(EmitFailed), st, trace);
      }
      trace := trace + [Update(remaining)];
      emitted := emitted + 1;
    }
    st := st.(started := false);
    var mode := st.countdownMode;
    if mode == Rest {
      st := st.(restCount := st.restCount + 1);
    }
    assert emitted == TickCount(seconds);
    assert st == Finished(s, seconds);
    if failAt == Some(emitted) {
      return CountdownRun(Failure(EmitFailed), st, trace);
    }
    trace := trace + [Complete(mode)];
    r := CountdownRun(Success(()), st, trace);
  }

  /** The remaining-time read: storing the value read back changes nothing. */
  function GetRemainingTime(s: PomodoroState): (v: int)
    ensures s.(remainingTime := v) == s
  {
    s.remainingTime
  }

  /** The running-flag read of the countdown command: storing the flag read
      back changes nothing. */
  function GetCountdownState(s: PomodoroState): (b: bool)
    ensures s.(started := b) == s
  {
    s.started
  }

  /** The mode read: storing the mode read back changes nothing. */
  function GetCountdownMode(s: PomodoroState): (m: CountdownMode)
    ensures s.(countdownMode := m) == s
  {
    s.countdownMode
  }

  /** Sets the mode; setting the old mode back restores the state, so no other
      field is touched. */
  function SetCountdownMode(s: PomodoroState, mode: CountdownMode): (r: PomodoroState)
    ensures GetCountdownMode(r) == mode
    ensures r.(countdownMode := s.countdownMode) == s
  {
    s.(countdownMode := mode)
  }

  /** The reads observe a finished countdown: the counter shows its final value
      and the flag is clear, so another countdown may start. */
  lemma ReadsAfterCountdown(seconds: int, s: PomodoroState, failAt: Option<nat>)
    requires !s.started && failAt.None?
    ensures GetRemainingTime(CountdownOutcome(seconds, s, failAt).state) == (if seconds >= 0 then 0 else seconds)
    ensures !GetCountdownState(CountdownOutcome(seconds, s, failAt).state)
    ensures GetCountdownMode(CountdownOutcome(seconds, s, failAt).state) == GetCountdownMode(s)
  {
  }
}
