# Pomodoro cycle engine, modelled in Dafny

This project models the Tauri backend of a desktop Pomodoro timer. It alternates
work and rest countdowns, chooses short or long rests by a counting rule, and
publishes each tick to the window. The model covers:

- the preset catalogue (`Time`): Short, Medium and Long presets, each giving a
  work, short-rest and long-rest length in seconds;
- the pomodoro engine (`Pomodoro`): the `start_pomodoro` tick loop with its
  stop request, and the work/rest transition run at natural expiry, together
  with the push-message choice;
- the countdown command over the pomodoro state (`PomodoroCountdown`): its
  `started` guard, its loop, the rest-count bump, and the mode getter and setter;
- the stand-alone countdown command (`Countdown`): a counter, a running flag
  and the same loop, with the flag cleared only after the completion event;
- the seconds-to-hours/minutes/seconds split (`TimeUtil`), with Rust's
  truncating `/` and `%` written out, so the model covers negative input too;
- the push configuration defaults (`Config`).

Every tick loop is a method whose loop invariants prove it equal to a
closed-form outcome function. The outcome function's contract states the
guarantees: what the call returns, the state it leaves, and the ordered trace of
events it publishes (`Started`, `Update(n)`, `Stopped`, `Complete(payload)`).
Time is not modelled. A tick is one loop step. Outside influences are inputs:

- `stopAt: Option<nat>` is the number of ticks that complete before a stop
  request lands. `stopAt == Some(n)` for a run of `n` ticks means the request
  lands after the final tick but before the outcome check on
  `src-tauri/src/pomodoro/mod.rs` line 55. The run then ends Stopped, not
  Complete. A request after the run has no effect on it.
- `failAt: Option<nat>` is the index of the first window emit that fails in
  the two `start_countdown` commands. Their `?` returns early there. Updates
  are numbered first, then the completion emit.

The shared state record `PomodoroState` holds every field the pomodoro code
touches. `pomodoro/countdown.rs` declares `remaining_time`, `started`,
`countdown_mode`, `rest_count` and `time_mode`. `pomodoro/mod.rs` also reads
and writes `is_running`, `should_stop` and `stop_signal`, which that
declaration lacks. The record has those too; `stop_signal` becomes a flag
saying whether a stop channel is installed.

Two points about the code worth stating:

- The engine's completion event carries no payload (`Complete(())`). The phase
  that ended goes only to the push notifier.
- No operation that resets the preset exists in the code, so none is modelled.

## Model

| member | source | states |
|---|---|---|
| Time.GetConfig | src-tauri/src/pomodoro/time.rs:17-35 | every preset resolves to durations with 0 < short rest < long rest < work |
| Time.PresetDurations | src-tauri/src/pomodoro/time.rs:19-33 | Short is (1500, 300, 900), Medium (2700, 600, 1200), Long (3600, 900, 1800) seconds |
| Events.Ticks | src-tauri/src/pomodoro/mod.rs:39-47 | the k-th tick publishes the start value minus k+1, one update per tick |
| Events.TicksCountDown | src-tauri/src/pomodoro/mod.rs:39-47 | updates fall by exactly one with no gaps, start one below the start value, and never drop below zero while the loop guard holds |
| TimeUtil.Quot | src-tauri/src/utils/time_util.rs:8 | Rust integer division rounds toward zero: the quotient times the divisor never passes the dividend |
| TimeUtil.Rem | src-tauri/src/utils/time_util.rs:10 | Rust remainder: dividend = divisor * quotient + remainder, and the remainder has the dividend's sign and is smaller than the divisor |
| TimeUtil.SecToHms | src-tauri/src/utils/time_util.rs:7-16 | hours*3600 + minutes*60 + seconds gives back the input for every integer; for non-negative input minutes and seconds lie in [0, 60) and hours is the input divided by 3600 |
| TimeUtil.SecToHmsUnique | src-tauri/src/utils/time_util.rs:8-10 | any split with hours >= 0 and minutes and seconds in [0, 60) is the split of the seconds it stands for, so the split is unique |
| Config.New | src-tauri/src/config.rs:13-18 | the stored preset is always present, Medium when none was given and the given one otherwise; the token is stored unchanged |
| Config.Default | src-tauri/src/config.rs:20-25 | the default configuration is the one built from no preset and no token |
| Config.GetTimeMode | src-tauri/src/config.rs:37-39 | the stored preset, or Medium when none is stored |
| Config.GetSptToken | src-tauri/src/config.rs:41-43 | returns the stored token unchanged: writing it back leaves the configuration unchanged |
| Config.NewRoundTrip | src-tauri/src/config.rs:37-43 | reading back a built configuration gives the preset (or Medium) and the token it was built from, and rebuilding from those reads changes nothing |
| PomodoroCountdown.CountdownOutcome | src-tauri/src/pomodoro/countdown.rs:34-95 | refused with the already-running error, and no write, exactly when already started; succeeds exactly when no emit fails; then publishes seconds-1 down to 0 and the unchanged mode, leaves the counter at 0 and the flag clear; the emit with index k failing ends the call after exactly k updates, and a failed update leaves the flag set and the value it stored; the mode never changes; one rest is counted iff the loop ran out in Rest |
| PomodoroCountdown.StartCountdown | src-tauri/src/pomodoro/countdown.rs:52-94 | the guarded tick loop, with its early return on a failed emit, yields exactly the closed-form outcome |
| PomodoroCountdown.GetRemainingTime | src-tauri/src/pomodoro/countdown.rs:98-101 | returns the remaining-time field: writing the value read back leaves the state unchanged |
| PomodoroCountdown.GetCountdownState | src-tauri/src/pomodoro/countdown.rs:104-107 | returns the `started` flag: writing the flag read back leaves the state unchanged |
| PomodoroCountdown.GetCountdownMode | src-tauri/src/pomodoro/countdown.rs:114-117 | returns the countdown mode: writing the mode read back leaves the state unchanged |
| PomodoroCountdown.SetCountdownMode | src-tauri/src/pomodoro/countdown.rs:110-117 | the mode read afterwards is the mode set, and setting the old mode back restores the state |
| PomodoroCountdown.ReadsAfterCountdown | src-tauri/src/pomodoro/countdown.rs:98-117 | after a full run the reads show the final counter value, a clear flag and the unchanged mode |
| Pomodoro.CountdownComplete | src-tauri/src/pomodoro/mod.rs:78-106 | the phase flips; the ended phase goes to the notifier; a rest is counted only when Rest ends; the next length is work after Rest, long rest after Work iff the rest count is even and positive, short rest otherwise; nothing else changes |
| Pomodoro.CycleCadence | src-tauri/src/pomodoro/mod.rs:88-105 | from Work, every two expiries count one rest and return to Work with the work length; the rest in between is long iff the rest count reached is even and positive |
| Pomodoro.MediumCadence | src-tauri/src/pomodoro/mod.rs:88-105 | Medium with no rests counted loads 600, 2700, 600, 2700, 1200, 2700 seconds over six expiries |
| Pomodoro.PomodoroOutcome | src-tauri/src/pomodoro/mod.rs:15-64 | refused with no change when running; otherwise the trace is Started, a gap-free countdown, then Stopped iff a stop landed in the run and Complete otherwise; a stop after k ticks publishes exactly k updates and keeps every field but the counter (the last ticked value), the stop flag and the channel; an expiry ticks to the end and takes the transition; the engine ends idle with no stop channel |
| Pomodoro.StartPomodoro | src-tauri/src/pomodoro/mod.rs:15-64 | the stoppable tick loop, with cleanup and outcome check, yields exactly the closed-form outcome |
| Pomodoro.StopPomodoro | src-tauri/src/pomodoro/mod.rs:149-153 | the stop flag is set and nothing else changes |
| Pomodoro.StopWhileIdleIsForgotten | src-tauri/src/pomodoro/mod.rs:26-27 | a stop requested while idle does not affect the next start, which clears the flag |
| Pomodoro.PushContent | src-tauri/src/pomodoro/mod.rs:112-126 | no push without a token; otherwise the "work ended" text exactly when Work ended and the "rest ended" text exactly when Rest ended |
| Pomodoro.PushReportsEndedPhase | src-tauri/src/pomodoro/mod.rs:78-82 | the mode is copied before the transition, so the push names the phase that ended and not the one that begins |
| Countdown.CountdownOutcome | src-tauri/src/countdown.rs:20-73 | refused with the already-running error, and no change, exactly when running; a full run publishes seconds-1 down to 0 then one completion, ends at 0 (or at a negative start value) and clears the flag; the flag is cleared iff the completion was delivered; the emit with index k failing ends the call after exactly k updates, keeping the flag set and the last stored value |
| Countdown.StartCountdown | src-tauri/src/countdown.rs:34-72 | the guarded tick loop, with its early returns, yields exactly the closed-form outcome |
| Countdown.GetRemainingTime | src-tauri/src/countdown.rs:77-79 | returns the counter field `.0`: writing the value read back leaves the state unchanged |
| Countdown.GetCountdownState | src-tauri/src/countdown.rs:82-85 | returns the running flag `.1`: writing the flag read back leaves the state unchanged |
| Countdown.ReadsDetermineState | src-tauri/src/countdown.rs:77-85 | two states agree on both reads exactly when they are equal |
| Countdown.ReadsObserveState | src-tauri/src/countdown.rs:65-85 | after a full run the reads show 0 for a non-negative start (the start value for a negative one) and an idle flag |

## Left out

- Real time and scheduling: the one-second sleep, the `select!` race and the
  oneshot channel are not modelled. A tick is a step, and a stop request is
  the `stopAt` input.
- The body of `stop_countdown` is not part of this model. `Pomodoro.StopPomodoro`
  sets only the stop flag; firing the stop channel is not modelled.
- The dialog, the window show/focus calls and the HTTP push of
  `send_wx_message` are I/O. Only the choice of push text and the
  missing-token early return are modelled.
- `WxPusherConfig::get_config` reads the JSON store and is not modelled.
- Panics are not modelled: `unwrap` on a poisoned lock or a failed emit in the
  engine, where `mod.rs` unwraps instead of returning an error.
- Pomodoro.StartPomodoro: i32 wrap-around of the counters is not modelled; values are unbounded integers.
- Pomodoro.CountdownComplete: the `rest_count += 1` on ending a rest is unbounded, without i32 wrap-around.
- PomodoroCountdown.StartCountdown: the `rest_count += 1` after a rest countdown is unbounded, without i32 wrap-around.
- TimeUtil.SecToHms: the input is an unbounded integer rather than an i32, which makes no difference because the split cannot overflow.
- No other command is assumed to write the shared state while a tick loop
  runs. In the code, `start_countdown` guards on `started` and `start_pomodoro`
  on `is_running`, so both can run at once over the same remaining time, and
  `set_countdown_mode` can change the mode before `start_countdown` reads it
  for the completion event. Each command is modelled as running alone, so
  "the mode never changes" and the mode published on completion hold only
  when nothing interleaves.
- The log lines, the app builder in `lib.rs`, the `is_dev_mode` command and
  the React frontend are not modelled.
- How the shared state is first created is not shown in the code, so no
  initial state is modelled.
