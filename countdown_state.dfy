/**
 * The countdown controller's observable state as a value, and the meaning of
 * each of its commands as a function from state to state.
 *
 * `counter` is the remaining count, `started` the running flag (the Kotlin
 * `Boolean?` that starts out null reads as false under its `== true` test),
 * and `loopLive` says whether a countdown coroutine is still on its way
 * through the `while (counter >= 0)` loop without having been cancelled.
 * Time is discrete: one `Ticked` step is one completed `delay(1000)`
 * iteration of that loop.
 */
module CountdownState {

  /** Value the counter holds when the view model is created. */
  const InitialCount: int := 100

  /** Largest value the increase command will reach. */
  const MaxCount: int := 999

  datatype Snapshot = Snapshot(counter: int, started: bool, loopLive: bool)

  /** A freshly created view model: count 100, flag unset, no job. */
  const Initial: Snapshot := Snapshot(InitialCount, false, false)

  /**
   * What holds in every state the screen can reach: the counter stays in
   * [-1, 999], and a countdown loop is live exactly when the flag is set and
   * the counter has not gone below zero.
   */
  predicate Inv(s: Snapshot)
  {
    -1 <= s.counter <= MaxCount && s.loopLive == (s.started && s.counter >= 0)
  }

  // ---------------------------------------------------------------------
  // The four behaviours
  // ---------------------------------------------------------------------

  /**
   * `toggleCounter`. When running it clears the flag and cancels the job,
   * keeping the count (a pause). When not running it sets the flag and
   * launches a new loop, whose first guard check lets it live only if the
   * counter is not negative.
   */
  function Toggled(s: Snapshot): (r: Snapshot)
    ensures r.started == !s.started
    ensures r.counter == s.counter
    ensures s.started ==> !r.loopLive
    ensures !s.started ==> (r.loopLive <==> s.counter >= 0)
    ensures Inv(s) ==> Inv(r)
  {
    if s.started then
      s.(started := false, loopLive := false)
    else
      s.(started := true, loopLive := s.counter >= 0)
  }

  /** `increaseInitialCounter`: one more, unless already at 999. */
  function Increased(s: Snapshot): (r: Snapshot)
    ensures s.counter < MaxCount ==> r.counter == s.counter + 1
    ensures s.counter >= MaxCount ==> r == s
    ensures s.counter <= MaxCount ==> r.counter <= MaxCount
    ensures r.counter >= s.counter
    ensures r.started == s.started && r.loopLive == s.loopLive
  {
    if s.counter < MaxCount then s.(counter := s.counter + 1) else s
  }

  /**
   * `decreaseInitialCounter`: one less whenever the counter is not negative,
   * so 0 becomes -1 and -1 stays -1.
   */
  function Decreased(s: Snapshot): (r: Snapshot)
    ensures s.counter >= 0 ==> r.counter == s.counter - 1
    ensures s.counter < 0 ==> r == s
    ensures s.counter >= -1 ==> r.counter >= -1
    ensures r.counter <= s.counter
    ensures r.started == s.started && r.loopLive == s.loopLive
  {
    if s.counter >= 0 then s.(counter := s.counter - 1) else s
  }

  /**
   * One pass of the countdown loop, after its one-second delay. At 0 the
   * job cancels itself and clears the flag; the cancellation takes hold at
   * the next `delay`, so the loop changes nothing more. Otherwise it takes
   * one off and goes round to its `counter >= 0` guard again.
   */
  function Ticked(s: Snapshot): (r: Snapshot)
    requires s.loopLive
    ensures s.counter == 0 ==> r == Snapshot(0, false, false)
    ensures s.counter > 0 ==> r.counter == s.counter - 1 && r.loopLive && r.started == s.started
    ensures s.counter < 0 ==> r.counter == s.counter - 1 && !r.loopLive && r.started == s.started
    ensures Inv(s) ==> Inv(r)
  {
    if s.counter == 0 then
      s.(started := false, loopLive := false)
    else
      s.(counter := s.counter - 1, loopLive := s.counter - 1 >= 0)
  }

  // ---------------------------------------------------------------------
  // Traces of user input and elapsed seconds
  // ---------------------------------------------------------------------

  /** What can happen to the controller: a button press or one elapsed second. */
  datatype Event = ToggleClicked | IncreaseClicked | DecreaseClicked | SecondElapsed

  /**
   * The screen disables the increase and decrease buttons while the flag is
   * set, and a second only advances a loop that is live.
   */
  predicate Enabled(s: Snapshot, e: Event)
  {
    match e
    case ToggleClicked => true
    case IncreaseClicked => !s.started
    case DecreaseClicked => !s.started
    case SecondElapsed => s.loopLive
  }

  /** One event; one that is not enabled changes nothing. */
  function Step(s: Snapshot, e: Event): (r: Snapshot)
    ensures !Enabled(s, e) ==> r == s
    ensures Inv(s) ==> Inv(r)
  {
    if !Enabled(s, e) then s
    else match e
      case ToggleClicked => Toggled(s)
      case IncreaseClicked => Increased(s)
      case DecreaseClicked => Decreased(s)
      case SecondElapsed => Ticked(s)
  }

  /** A whole trace of events, in order. */
  function Run(s: Snapshot, events: seq<Event>): (r: Snapshot)
    ensures Inv(s) ==> Inv(r)
    decreases |events|
  {
    if events == [] then s else Run(Step(s, events[0]), events[1..])
  }

  /** `k` seconds with no user input: the live loop ticks, a dead one does nothing. */
  function Elapse(s: Snapshot, k: nat): (r: Snapshot)
    ensures !s.loopLive ==> r == s
    ensures Inv(s) ==> Inv(r)
    decreases k
  {
    if k == 0 || !s.loopLive then s else Elapse(Ticked(s), k - 1)
  }

  // ---------------------------------------------------------------------
  // Properties
  // ---------------------------------------------------------------------

  /** The initial state satisfies the invariant: 100, not started, no loop. */
  lemma InitialIsValid()
    ensures Initial.counter == 100 && !Initial.started && !Initial.loopLive
    ensures Inv(Initial)
  {
  }

  /**
   * Whatever the user presses, in whatever order, and however many seconds
   * pass, the counter stays in [-1, 999] and a loop is live only while the
   * flag is set with a non-negative counter.
   */
  lemma ReachableStatesAreValid(events: seq<Event>)
    ensures Inv(Run(Initial, events))
    ensures -1 <= Run(Initial, events).counter <= MaxCount
    ensures Run(Initial, events).loopLive ==> Run(Initial, events).started && Run(Initial, events).counter >= 0
  {
    InitialIsValid();
  }

  /**
   * Increase never passes 999 and is a no-op there. This names a boundary
   * fact that follows from the ensures of `Increased`.
   */
  lemma IncreaseCapped(s: Snapshot)
    requires s.counter == MaxCount
    ensures Increased(s) == s
    ensures Increased(Increased(s)) == s
  {
  }

  /**
   * Decrease takes 0 to -1, where it then stays. This names a boundary fact
   * that follows from the ensures of `Decreased`.
   */
  lemma DecreaseBelowZero(s: Snapshot)
    requires s.counter == 0
    ensures Decreased(s).counter == -1
    ensures Decreased(Decreased(s)) == Decreased(s)
  {
  }

  /**
   * Two toggles with no second elapsing in between give back the state they
   * started from, in a reachable state: a pause followed by a resume carries
   * on from the paused count, and a start followed by a stop is undone.
   */
  lemma ToggleTwiceRestores(s: Snapshot)
    requires Inv(s)
    ensures Toggled(Toggled(s)) == s
  {
  }

  /** A live loop ticks down one per second while the count is positive. */
  lemma {:induction false} CountsDownWhileLive(c: int, k: nat)
    requires k <= c
    ensures Elapse(Snapshot(c, true, true), k) == Snapshot(c - k, true, true)
  {
    if k > 0 {
      CountsDownWhileLive(c - 1, k - 1);
    }
  }

  /** Elapsing `a` and then `b` seconds is elapsing `a + b` seconds. */
  lemma {:induction false} ElapseAdds(s: Snapshot, a: nat, b: nat)
    ensures Elapse(Elapse(s, a), b) == Elapse(s, a + b)
    decreases a
  {
    if a > 0 && s.loopLive {
      ElapseAdds(Ticked(s), a - 1, b);
    }
  }

  /** One more second on a loop still live after `k` seconds is one more tick. */
  lemma ElapseOneMore(s: Snapshot, k: nat)
    requires Elapse(s, k).loopLive
    ensures Elapse(s, k + 1) == Ticked(Elapse(s, k))
  {
    ElapseAdds(s, k, 1);
  }

  /**
   * Started at n >= 0, the countdown is still live with n - k left after
   * k <= n seconds, and stops itself at 0 after exactly n + 1 seconds: the
   * tick that lands on 0 is followed by one more wait before the stop.
   * Nothing changes afterwards.
   */
  lemma AutoStopsAfterNPlusOneTicks(n: int)
    requires 0 <= n
    ensures Toggled(Snapshot(n, false, false)) == Snapshot(n, true, true)
    ensures forall k: nat :: k <= n ==> Elapse(Snapshot(n, true, true), k) == Snapshot(n - k, true, true)
    ensures Elapse(Snapshot(n, true, true), n + 1) == Snapshot(0, false, false)
    ensures forall j: nat :: j > n ==> Elapse(Snapshot(n, true, true), j) == Snapshot(0, false, false)
  {
    var s := Snapshot(n, true, true);
    forall k: nat | k <= n
      ensures Elapse(s, k) == Snapshot(n - k, true, true)
    {
      CountsDownWhileLive(n, k);
    }
    CountsDownWhileLive(n, n);
    ElapseAdds(s, n, 1);
    forall j: nat | j > n
      ensures Elapse(s, j) == Snapshot(0, false, false)
    {
      ElapseAdds(s, n + 1, j - (n + 1));
    }
  }

  /**
   * Started at -1 the loop guard fails at once: the flag is set but no loop
   * is live, and no amount of waiting changes the state.
   */
  lemma StartAtMinusOne(k: nat)
    ensures Toggled(Snapshot(-1, false, false)) == Snapshot(-1, true, false)
    ensures Elapse(Snapshot(-1, true, false), k) == Snapshot(-1, true, false)
  {
  }

  /**
   * In that state only a toggle changes anything: the buttons are disabled
   * while the flag is set, and no loop ticks.
   */
  lemma {:induction false} StuckAtMinusOneUntilToggle(events: seq<Event>)
    requires forall i :: 0 <= i < |events| ==> events[i] != ToggleClicked
    ensures Run(Snapshot(-1, true, false), events) == Snapshot(-1, true, false)
    decreases |events|
  {
    if events != [] {
      StuckAtMinusOneUntilToggle(events[1..]);
    }
  }

  /**
   * The button contract matters: a decrease pressed while a loop is live at
   * 0 takes the counter to -1, and the next tick, which only tests for 0,
   * takes it to -2 and ends the loop with the flag still set.
   */
  lemma UnguardedDecreaseWhileRunning()
    ensures Decreased(Snapshot(0, true, true)) == Snapshot(-1, true, true)
    ensures Ticked(Snapshot(-1, true, true)) == Snapshot(-2, true, false)
    ensures !Enabled(Snapshot(0, true, true), DecreaseClicked)
  {
  }
}
