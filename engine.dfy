/**
 * The stopwatch as docs/app.js runs it: the module-level variables
 * (docs/app.js:138-142) are the fields of one `Stopwatch` object, and
 * `start`, `pause`, `reset`, `toggleStartPause`, `clearLaps`, `addLap` and
 * the keydown handler update them in place. Each method is proved to
 * perform the transition of the same name in module Clock; the clock itself
 * is the parameter `now`, which never goes back.
 */
module Engine {
  import opened Wrappers
  import opened Clock
  import Controls

  class Stopwatch {
    var running: bool
    var startPerfMs: nat
    var elapsedMs: int
    var rafPending: bool
    var laps: seq<Lap>

    /** The latest instant the stopwatch has been given. */
    ghost var clock: nat

    /** The fields, as one value of the state machine. */
    function Snapshot(): State
      reads this
    {
      State(running, startPerfMs, elapsedMs, rafPending, laps)
    }

    ghost predicate Valid()
      reads this
    {
      Inv(Snapshot(), clock)
    }

    /** The page loads with a stopped, zeroed watch and no laps. */
    constructor ()
      ensures Valid() && Snapshot() == Initial && clock == 0
    {
      running := false;
      startPerfMs := 0;
      elapsedMs := 0;
      rafPending := false;
      laps := [];
      clock := 0;
    }

    method Start(now: nat)
      requires Valid() && clock <= now
      modifies this
      ensures Valid() && clock == now
      ensures Snapshot() == Clock.Start(old(Snapshot()), now)
    {
      StepInv(Snapshot(), clock, Event(StartCmd, now));
      clock := now;
      if running {
        return;
      }
      running := true;
      startPerfMs := now;
      rafPending := true;
    }

    method Pause(now: nat)
      requires Valid() && clock <= now
      modifies this
      ensures Valid() && clock == now
      ensures Snapshot() == Clock.Pause(old(Snapshot()), now)
    {
      StepInv(Snapshot(), clock, Event(PauseCmd, now));
      clock := now;
      if !running {
        return;
      }
      elapsedMs := Elapsed(Snapshot(), now);
      running := false;
      if rafPending {
        rafPending := false;
      }
    }

    method ClearLaps()
      modifies this
      ensures clock == old(clock)
      ensures Snapshot() == Clock.ClearLaps(old(Snapshot()))
      ensures old(Valid()) ==> Valid()
    {
      laps := [];
    }

    method Reset()
      modifies this
      ensures Valid() && clock == old(clock)
      ensures Snapshot() == Clock.Reset(old(Snapshot()))
    {
      running := false;
      startPerfMs := 0;
      elapsedMs := 0;
      if rafPending {
        rafPending := false;
      }
      ClearLaps();
    }

    method ToggleStartPause(now: nat)
      requires Valid() && clock <= now
      modifies this
      ensures Valid() && clock == now
      ensures Snapshot() == Toggle(old(Snapshot()), now)
    {
      if running {
        Pause(now);
      } else {
        Start(now);
      }
    }

    /** `addLap()`; returns the 1-based index of the new lap, or `None` when the watch is stopped. */
    method AddLap(now: nat) returns (lapIndex: Option<nat>)
      requires Valid() && clock <= now
      modifies this
      ensures Valid() && clock == now
      ensures Snapshot() == Clock.AddLap(old(Snapshot()), now)
      ensures lapIndex == if old(running) then Some(|old(laps)| + 1) else None
      ensures lapIndex.Some? ==> laps[lapIndex.value - 1].totalMs == Elapsed(old(Snapshot()), now)
    {
      AddLapInv(Snapshot(), clock, now);
      clock := now;
      if !running {
        return None;
      }
      var totalMs := Elapsed(Snapshot(), now);
      var previousTotal := if |laps| > 0 then laps[|laps| - 1].totalMs else 0;
      var lapMs := totalMs - previousTotal;
      lapIndex := Some(|laps| + 1);
      laps := laps + [Lap(lapMs, totalMs)];
    }

    /**
     * The keydown handler: runs the command `Controls.KeyCommand` picks, if
     * any, and reports whether the event's default action is prevented.
     */
    method KeyDown(e: Controls.KeyEvent, cardHidden: bool, now: nat) returns (preventDefault: bool)
      requires Valid() && clock <= now
      modifies this
      ensures Valid() && clock == (if Controls.KeyCommand(e, cardHidden).Some? then now else old(clock))
      ensures Snapshot() == match Controls.KeyCommand(e, cardHidden)
                            case None => old(Snapshot())
                            case Some(c) => Step(old(Snapshot()), Event(c, now))
      ensures preventDefault == Controls.PreventsDefault(e, cardHidden)
    {
      preventDefault := false;
      if e.repeat {
        return;
      }
      var key := Controls.ToLowerCase(e.key);
      if Controls.IsTypingTarget(e.target) {
        return;
      }
      if cardHidden {
        return;
      }
      if key == " " {
        preventDefault := true;
        ToggleStartPause(now);
      } else if key == "r" {
        Reset();
        clock := now;
      } else if key == "l" {
        var _ := AddLap(now);
      }
    }
  }

  /** A caller's view: a session driven through the object, using only the methods' contracts. */
  method SessionThroughObject()
  {
    var w := new Stopwatch();
    w.Start(0);
    var first := w.AddLap(1000);
    w.Pause(1500);
    w.Start(5000);
    var second := w.AddLap(5700);
    Session();
    assert first == Some(1) && second == Some(2);
    assert w.laps == [Lap(1000, 1000), Lap(1200, 2200)];
    w.Reset();
    assert w.Snapshot() == Initial;
  }
}
