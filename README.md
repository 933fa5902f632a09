# Countdown view model

A Dafny model of `MainActivityViewModel`, the controller behind a one-screen
countdown timer. It holds the remaining count (100 at first), a running flag
(a nullable Boolean that reads as "not running" until first set) and at most
one countdown coroutine. Its commands are:

- toggle: start or pause;
- increase: plus one, up to 999;
- decrease: minus one while the count is not negative.

While the coroutine runs it waits one second and then either stops itself at
0 or takes one off, round a `while (counter >= 0)` loop.

The model has two modules:

- `CountdownState` (`countdown_state.dfy`) gives the state as a value,
  `Snapshot(counter, started, loopLive)`. Each behaviour is a function from
  state to state: `Toggled`, `Increased`, `Decreased`, and `Ticked` for one
  completed `delay(1000)` pass of the loop. It also defines traces of button
  presses and elapsed seconds (`Step`, `Run`), `k` seconds without input
  (`Elapse`), and the invariant `Inv` of every state the screen can reach.
- `CountdownViewModel` (`view_model.dfy`) holds the class
  `MainActivityViewModel`. Its mutable fields `counter`, `started` and
  `loopLive` stand for `_counter`, `_counterStarted` and the liveness of
  `counterJob`. Each method states its new fields and the step function it
  implements. `RunUninterrupted` is the coroutine loop left alone until it
  stops itself.

Time and cancellation are discrete steps. `loopLive` is true from the launch
of a loop until it is cancelled or its guard fails. Launching a loop and its
first guard check count as one step inside `ToggleCounter`. Cancellation
takes effect at the loop's next `delay`, so a tick that cancels its own job
changes nothing after that.

The view model itself does not block increase and decrease while running.
The screen disables those two buttons while the flag is set
(`MainActivity.kt` lines 156 and 175). The methods stay unguarded, as in the
source. The button contract appears as the predicate `Enabled`, and the
invariant is proved for traces that follow it. A pressed button that is
disabled, or a second that passes with no live loop, changes nothing.

The boundary behaviour is kept as written:

- a decrease at 0 gives -1, and -1 stays -1;
- a run started at n >= 0 takes n + 1 ticks to stop, because the tick that
  reaches 0 is followed by one more wait;
- a start at -1 sets the flag, but the loop guard fails at once, so no loop
  runs.

The count can reach -1: `decreaseInitialCounter` tests `>= 0`
(`MainActivityViewModel.kt` line 63), so 0 becomes -1, and the model keeps
that.

## Model

| member | source | states |
|---|---|---|
| CountdownState.Toggled | app/src/main/java/com/example/androiddevchallenge/MainActivityViewModel.kt:36-43 | the flag flips and the count is kept; stopping leaves no live loop (a pause, not a reset); starting leaves a live loop exactly when the count is >= 0; the invariant is preserved |
| CountdownState.Increased | app/src/main/java/com/example/androiddevchallenge/MainActivityViewModel.kt:56-60 | exactly +1 below 999, no change at or above 999, never pushes a count <= 999 above 999, flags untouched |
| CountdownState.Decreased | app/src/main/java/com/example/androiddevchallenge/MainActivityViewModel.kt:62-66 | exactly -1 whenever the count is >= 0, no change below 0, so a count >= -1 stays >= -1; flags untouched |
| CountdownState.Ticked | app/src/main/java/com/example/androiddevchallenge/MainActivityViewModel.kt:43-51 | at 0 the loop stops itself: flag cleared, loop dead, count 0; above 0 it takes one off and stays live; below 0 (only reachable off the button contract) it takes one off and the guard ends the loop; the invariant is preserved |
| CountdownState.Step | app/src/main/java/com/example/androiddevchallenge/MainActivity.kt:155-175 | an event the screen does not allow (increase or decrease while the flag is set, a second with no live loop) changes nothing; every event preserves the invariant |
| CountdownState.Run | app/src/main/java/com/example/androiddevchallenge/MainActivityViewModel.kt:36-66 | any trace of presses and elapsed seconds from a valid state ends in a valid state |
| CountdownState.Elapse | app/src/main/java/com/example/androiddevchallenge/MainActivityViewModel.kt:43-51 | with no live loop, waiting changes nothing; waiting preserves the invariant |
| CountdownState.InitialIsValid | app/src/main/java/com/example/androiddevchallenge/MainActivityViewModel.kt:28-34 | the initial state is count 100, not started (unset flag), no loop, and satisfies the invariant |
| CountdownState.ReachableStatesAreValid | app/src/main/java/com/example/androiddevchallenge/MainActivityViewModel.kt:28-66 | from the initial state, every trace, including any sequence of increases and decreases, keeps the count in [-1, 999]; a loop is live only while the flag is set and the count is >= 0 |
| CountdownState.IncreaseCapped | app/src/main/java/com/example/androiddevchallenge/MainActivityViewModel.kt:56-60 | increase at 999 is a no-op, also when repeated |
| CountdownState.DecreaseBelowZero | app/src/main/java/com/example/androiddevchallenge/MainActivityViewModel.kt:62-66 | decrease at 0 reaches -1, and -1 is a fixed point |
| CountdownState.ToggleTwiceRestores | app/src/main/java/com/example/androiddevchallenge/MainActivityViewModel.kt:36-53 | two toggles with no tick between give back the exact state, so a resume after a pause continues from the paused count |
| CountdownState.CountsDownWhileLive | app/src/main/java/com/example/androiddevchallenge/MainActivityViewModel.kt:43-50 | a live loop at count c is still live with c - k left after k <= c seconds |
| CountdownState.ElapseAdds | app/src/main/java/com/example/androiddevchallenge/MainActivityViewModel.kt:43-51 | waiting a seconds and then b seconds is the same as waiting a + b seconds |
| CountdownState.ElapseOneMore | app/src/main/java/com/example/androiddevchallenge/MainActivityViewModel.kt:43-51 | one more second on a loop still live is one more tick |
| CountdownState.AutoStopsAfterNPlusOneTicks | app/src/main/java/com/example/androiddevchallenge/MainActivityViewModel.kt:40-50 | a start at n >= 0 leaves a live loop that is live with n - k left after k <= n seconds, stops at 0 with the flag cleared after exactly n + 1 seconds, and stays stopped |
| CountdownState.StartAtMinusOne | app/src/main/java/com/example/androiddevchallenge/MainActivityViewModel.kt:41-43 | a start at -1 sets the flag with no live loop, and waiting changes nothing |
| CountdownState.StuckAtMinusOneUntilToggle | app/src/main/java/com/example/androiddevchallenge/MainActivityViewModel.kt:41-43 | in that state, any trace without a toggle leaves the state unchanged (count -1, flag set, no loop) |
| CountdownState.UnguardedDecreaseWhileRunning | app/src/main/java/com/example/androiddevchallenge/MainActivityViewModel.kt:43-49 | off the button contract, a decrease at 0 while running gives -1, and the next tick, which tests only for 0, gives -2 and ends the loop with the flag still set; the screen does not allow that decrease |
| CountdownViewModel.MainActivityViewModel.constructor | app/src/main/java/com/example/androiddevchallenge/MainActivityViewModel.kt:28-34 | fields start at count 100, flag not set, no loop, which is the valid initial state |
| CountdownViewModel.MainActivityViewModel.ToggleCounter | app/src/main/java/com/example/androiddevchallenge/MainActivityViewModel.kt:36-54 | the new flag, count and loop liveness, equal to `Toggled` of the old state; keeps the invariant |
| CountdownViewModel.MainActivityViewModel.IncreaseInitialCounter | app/src/main/java/com/example/androiddevchallenge/MainActivityViewModel.kt:56-60 | changes only the count, as `Increased`; keeps the invariant when called while not started |
| CountdownViewModel.MainActivityViewModel.DecreaseInitialCounter | app/src/main/java/com/example/androiddevchallenge/MainActivityViewModel.kt:62-66 | changes only the count, as `Decreased`; keeps the invariant when called while not started |
| CountdownViewModel.MainActivityViewModel.Tick | app/src/main/java/com/example/androiddevchallenge/MainActivityViewModel.kt:44-50 | one completed loop pass on a live loop: stop at 0, otherwise one less with the guard re-checked; equal to `Ticked`; keeps the invariant |
| CountdownViewModel.MainActivityViewModel.RunUninterrupted | app/src/main/java/com/example/androiddevchallenge/MainActivityViewModel.kt:42-52 | a live loop left alone makes exactly count + 1 passes and ends at 0 with the flag cleared and no loop, agreeing with `Elapse` |

## Left out

- LiveData observation and notification: the two cells are plain fields, and observers are not modelled.
- Real time and coroutine scheduling (`delay`, `viewModelScope`, dispatchers): a tick is a discrete step, and the model has no interleaving or threads.
- Lifecycle cancellation of the coroutine scope when the screen goes away: the host lifecycle is not part of this model.
- The `counterJob` handle itself: only whether a loop is live is kept. Replacing the handle on restart matters only through the cancellation of the old loop, which always comes first.
- The rest of `MainActivity.kt` (layout, colours, theme, previews, the clock animation, activity wiring): it is presentation. Only the disabled-button contract at lines 156 and 175 is kept, as `Enabled`.
- Integer width: Kotlin's `Int` is 32 bits, while the model uses unbounded `int`. No wrap-around is reachable: increase stops at 999, decrease stops below 0, and a tick goes below -1 at most once (to -2, off the button contract) before its loop ends, so every count stays in [-2, 999].
