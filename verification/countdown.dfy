/** The stand-alone countdown command: a counter and a running flag, and a
    loop that counts a given number of seconds down to zero. */
module Countdown {
  import opened Wrappers
  import opened Events

  /** The counter (`value`) and the running flag (`running`). */
  datatype CountdownState = CountdownState(value: int, running: bool)

  /** The result of one call: what it returned, the state it left and the
      events it delivered. */
  datatype CountdownRun = CountdownRun(
    result: Result<(), CommandError>,
    state: CountdownState,
    trace: seq<Event<()>>)

  /** What a countdown of `seconds` does from state `s` when the emit with index
      `failAt` (updates first, then the completion) is the first to fail. */
  function CountdownOutcome(seconds: int, s: CountdownState, failAt: Option<nat>): (r: CountdownRun)
    // a second start is refused and changes nothing
    ensures s.running ==> r == CountdownRun(Failure(AlreadyRunning), s, [])
    ensures r.result == Failure(AlreadyRunning) <==> s.running
    ensures r.result.Success? <==> !s.running && (failAt.None? || failAt.value > TickCount(seconds))
    // a full run publishes seconds - 1 down to 0, then one completion, then clears the flag
    ensures r.result.Success? ==>
      && r.trace == Ticks(seconds, TickCount(seconds)) + [Complete(())]
      && r.state == CountdownState(if seconds >= 0 then 0 else seconds, false)
    // the flag is cleared only after the completion was delivered
    ensures !s.running ==> (!r.state.running <==> r.result.Success?)
    // a failed emit ends the call with the flag still set and the last stored value kept
    ensures r.result == Failure(EmitFailed) ==>
      && |r.trace| == failAt.value
      && r.trace == Ticks(seconds, |r.trace|)
      && r.state == CountdownState(seconds - |r.trace| - (if |r.trace| < TickCount(seconds) then 1 else 0), true)
  {
    if s.running then CountdownRun(Failure(AlreadyRunning), s, [])
    else
      var n := TickCount(seconds);
      if failAt.Some? && failAt.value < n then
        var k := failAt.value;
        CountdownRun(Failure(EmitFailed), CountdownState(seconds - 1 - k, true), Ticks(seconds, k))
      else if failAt == Some(n) then
        CountdownRun(Failure(EmitFailed), CountdownState(seconds - n, true), Ticks(seconds, n))
      else
        CountdownRun(Success(()), CountdownState(seconds - n, false), Ticks(seconds, n) + [Complete(())])
  }

  /** The countdown command: refuse if running; otherwise store `seconds`, set
      the flag, tick down to zero publishing each value, publish the
      completion and only then clear the flag. */
  method StartCountdown(seconds: int, s: CountdownState, failAt: Option<nat>) returns (r: CountdownRun)
    ensures r == CountdownOutcome(seconds, s, failAt)
  {
    if s.running {
      return CountdownRun(Failure(AlreadyRunning), s, []);
    }
    var remaining := seconds;
    var st := CountdownState(remaining, true);
    var trace: seq<Event<()>> := [];
    var emitted: nat := 0;
    while remaining > 0
      invariant emitted <= TickCount(seconds)
      invariant remaining == seconds - emitted
      invariant st == CountdownState(remaining, true)
      invariant trace == Ticks(seconds, emitted)
      invariant failAt.None? || failAt.value >= emitted
    {
      remaining := remaining - 1;
      st := st.(value := remaining);
      if failAt == Some(emitted) {
        return CountdownRun(Failure(EmitFailed), st, trace);
      }
      trace := trace + [Update(remaining)];
      emitted := emitted + 1;
    }
    if failAt == Some(emitted) {
      return CountdownRun(Failure(EmitFailed), st, trace);
    }
    trace := trace + [Complete(())];
    st := st.(running := false);
    r := CountdownRun(Success(()), st, trace);
  }

  /** The counter read: storing the value read back changes nothing. */
  function GetRemainingTime(s: CountdownState): (v: int)
    ensures s.(value := v) == s
  {
    s.value
  }

  /** The running-flag read: storing the flag read back changes nothing. */
  function GetCountdownState(s: CountdownState): (b: bool)
    ensures s.(running := b) == s
  {
    s.running
  }

  /** The two reads together determine the whole state. */
  lemma ReadsDetermineState(s: CountdownState, t: CountdownState)
    ensures GetRemainingTime(t) == GetRemainingTime(s) && GetCountdownState(t) == GetCountdownState(s) <==> t == s
  {
  }

  /** After a complete run the reads show zero (the start value, for a
      negative start) and an idle flag. */
  lemma ReadsObserveState(seconds: int, s: CountdownState)
    requires !s.running
    ensures seconds >= 0 ==> GetRemainingTime(CountdownOutcome(seconds, s, None).state) == 0
    ensures seconds < 0 ==> GetRemainingTime(CountdownOutcome(seconds, s, None).state) == seconds
    ensures !GetCountdownState(CountdownOutcome(seconds, s, None).state)
  {
  }
}
