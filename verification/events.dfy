/** What a countdown command publishes to its window, in order, and the
    errors it returns to its caller. */
module Events {

  /** `AlreadyRunning` is the "Countdown is already running" error; `EmitFailed`
      is an event that could not be delivered to the window. */
  datatype CommandError = AlreadyRunning | EmitFailed

  /** `Started` is "countdown-started", `Update(n)` is "countdown-update"
      carrying the new remaining value, `Stopped` is "countdown-stopped" and
      `Complete(p)` is "countdown-complete" carrying payload `p` (the unit
      value for two of the commands, the countdown mode for the third). */
  datatype Event<P> = Started | Update(remaining: int) | Stopped | Complete(payload: P)

  /** Number of ticks a loop of the form `while remaining > 0 { remaining -= 1 }`
      runs when it starts from `seconds`. */
  function TickCount(seconds: int): (n: nat)
    ensures seconds >= 0 ==> n == seconds
    ensures seconds <= 0 ==> n == 0
  {
    if seconds > 0 then seconds else 0
  }

  /** The updates published by the first `n` ticks of a countdown that starts
      from `from`: each tick publishes the value it has just stored. */
  function Ticks<P>(from: int, n: nat): (t: seq<Event<P>>)
    ensures |t| == n
    ensures forall i :: 0 <= i < n ==> t[i] == Update(from - 1 - i)
  {
    if n == 0 then [] else Ticks(from, n - 1) + [Update(from - n)]
  }

  /** A sequence of updates that counts down by exactly one per event. */
  predicate CountsDown<P>(t: seq<Event<P>>) {
    && (forall i :: 0 <= i < |t| ==> t[i].Update?)
    && (forall i :: 0 <= i < |t| - 1 ==> t[i + 1].remaining == t[i].remaining - 1)
  }

  /** The updates of a countdown are strictly decreasing with no gaps, start
      one below the starting value and, while the loop guard holds, never go
      below zero. */
  lemma TicksCountDown<P>(from: int, n: nat)
    ensures CountsDown(Ticks<P>(from, n))
    ensures n > 0 ==> Ticks<P>(from, n)[0] == Update(from - 1)
    ensures n > 0 ==> Ticks<P>(from, n)[n - 1] == Update(from - n)
    ensures n <= TickCount(from) ==> forall i :: 0 <= i < n ==> Ticks<P>(from, n)[i].remaining >= 0
  {
  }
}
