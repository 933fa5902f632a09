/**
 * The view model itself: three mutable fields standing for the `_counter`
 * and `_counterStarted` live-data cells and for the liveness of the
 * `counterJob` coroutine. Each method says how it changes them, both field
 * by field and as the step function of CountdownState it implements.
 */
module CountdownViewModel {
  import opened CountdownState

  class MainActivityViewModel {
    var counter: int
    var started: bool
    var loopLive: bool

    /** The fields as one value. */
    function State(): Snapshot
      reads this
    {
      Snapshot(counter, started, loopLive)
    }

    /** Counter 100, flag not yet set (null), no job. */
    constructor ()
      ensures counter == InitialCount && !started && !loopLive
      ensures State() == Initial && Inv(State())
    {
      counter := InitialCount;
      started := false;
      loopLive := false;
    }

    /** Stop (and keep the count) when running, otherwise start a new loop. */
    method ToggleCounter()
      modifies this
      ensures started == !old(started)
      ensures counter == old(counter)
      ensures loopLive == (!old(started) && old(counter) >= 0)
      ensures State() == Toggled(old(State()))
      ensures old(Inv(State())) ==> Inv(State())
    {
      if started {
        started := false;
        loopLive := false;
      } else {
        started := true;
        loopLive := counter >= 0;
      }
    }

    /** One more, capped at 999; the flags are left alone. */
    method IncreaseInitialCounter()
      modifies this`counter
      ensures counter == if old(counter) < MaxCount then old(counter) + 1 else old(counter)
      ensures State() == Increased(old(State()))
      ensures old(Inv(State())) && !started ==> Inv(State())
    {
      if counter < MaxCount {
        counter := counter + 1;
      }
    }

    /** One less while the counter is not negative; the flags are left alone. */
    method DecreaseInitialCounter()
      modifies this`counter
      ensures counter == if old(counter) >= 0 then old(counter) - 1 else old(counter)
      ensures State() == Decreased(old(State()))
      ensures old(Inv(State())) && !started ==> Inv(State())
    {
      if counter >= 0 {
        counter := counter - 1;
      }
    }

    /** One completed `delay(1000)` pass of the countdown loop. */
    method Tick()
      requires loopLive
      modifies this
      ensures old(counter) == 0 ==> counter == 0 && !started && !loopLive
      ensures old(counter) != 0 ==> counter == old(counter) - 1 && started == old(started) && loopLive == (counter >= 0)
      ensures State() == Ticked(old(State()))
      ensures old(Inv(State())) ==> Inv(State())
    {
      if counter == 0 {
        loopLive := false;
        started := false;
      } else {
        counter := counter - 1;
        loopLive := counter >= 0;
      }
    }

    /**
     * The countdown loop left to run with no user input: it ticks until it
     * stops itself, which takes exactly one tick more than the count it had,
     * and ends at 0 with the flag cleared.
     */
    method RunUninterrupted() returns (ticks: nat)
      requires Inv(State()) && loopLive
      modifies this
      ensures ticks == old(counter) + 1
      ensures counter == 0 && !started && !loopLive
      ensures State() == Elapse(old(State()), ticks)
    {
      ticks := 0;
      while loopLive
        invariant Inv(State())
        invariant State() == Elapse(old(State()), ticks)
        invariant loopLive ==> counter == old(counter) - ticks
        invariant !loopLive ==> counter == 0 && !started && ticks == old(counter) + 1
        decreases counter + (if loopLive then 1 else 0)
      {
        ElapseOneMore(old(State()), ticks);
        Tick();
        ticks := ticks + 1;
      }
    }
  }
}
