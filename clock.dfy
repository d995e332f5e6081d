/**
 * The stopwatch engine of docs/app.js as a state machine over values: the
 * module-level variables `running`, `startPerfMs`, `elapsedMs`, `rafId` and
 * `laps` (docs/app.js:138-142) become one `State`, and `start`, `pause`,
 * `reset`, `toggleStartPause`, `clearLaps` and `addLap` become functions from
 * a state (and, where the source reads `performance.now()`, the instant
 * `now`) to the next state. The class `Stopwatch` in module Engine runs the same
 * transitions in place and is proved against these functions.
 */
module Clock {

  /** One entry of `laps`: `{ lapMs, totalMs }`. */
  datatype Lap = Lap(lapMs: int, totalMs: int)

  /**
   * The engine's variables. `rafPending` stands for `rafId` holding a
   * scheduled frame; the source keeps the frame handle itself.
   */
  datatype State = State(running: bool, startPerfMs: nat, elapsedMs: int, rafPending: bool, laps: seq<Lap>)

  /** The values the module-level declarations start with. */
  const Initial := State(false, 0, 0, false, [])

  /** `getCurrentElapsedMs()` at instant `now`: the frozen sum, plus the running segment if any. */
  function Elapsed(s: State, now: nat): (r: int)
    ensures s.running && s.startPerfMs <= now ==> s.elapsedMs <= r
    ensures s.elapsedMs >= 0 && (!s.running || s.startPerfMs <= now) ==> r >= 0
  {
    if !s.running then s.elapsedMs else s.elapsedMs + (now - s.startPerfMs)
  }

  /** `start()`: ignored while running; otherwise run from `now` and schedule a frame. */
  function Start(s: State, now: nat): (r: State)
    ensures r.running && r.rafPending == (s.rafPending || !s.running)
    ensures Elapsed(r, now) == Elapsed(s, now) && r.laps == s.laps
  {
    if s.running then s
    else s.(running := true, startPerfMs := now, rafPending := true)
  }

  /** `pause()`: ignored while stopped; otherwise fold the running segment into `elapsedMs`, stop and cancel the frame. */
  function Pause(s: State, now: nat): (r: State)
    ensures !r.running && (s.running ==> !r.rafPending)
    ensures Elapsed(r, now) == Elapsed(s, now) && r.laps == s.laps
  {
    if !s.running then s
    else s.(elapsedMs := Elapsed(s, now), running := false, rafPending := false)
  }

  /** `clearLaps()`: forget every lap, running or not. */
  function ClearLaps(s: State): (r: State)
    ensures r.laps == [] && r.(laps := s.laps) == s
  {
    s.(laps := [])
  }

  /** `reset()`: stop, zero the clock, cancel the frame and clear the laps. */
  function Reset(s: State): (r: State)
    ensures r == Initial
  {
    ClearLaps(s.(running := false, startPerfMs := 0, elapsedMs := 0, rafPending := false))
  }

  /** `toggleStartPause()`. */
  function Toggle(s: State, now: nat): (r: State)
    ensures r.running == !s.running
    ensures Elapsed(r, now) == Elapsed(s, now) && r.laps == s.laps
  {
    if s.running then Pause(s, now) else Start(s, now)
  }

  /** The `totalMs` of the lap before position `i`, or 0 for the first lap (and for an empty list). */
  function PrevTotal(laps: seq<Lap>, i: nat): int
    requires i <= |laps|
  {
    if i == 0 then 0 else laps[i - 1].totalMs
  }

  /** `addLap()`: ignored while stopped; otherwise append the elapsed time and its difference from the previous total. */
  function AddLap(s: State, now: nat): (r: State)
    ensures |r.laps| == |s.laps| + (if s.running then 1 else 0) && r.laps[..|s.laps|] == s.laps
    ensures s.running ==> r.laps[|s.laps|].totalMs == Elapsed(s, now)
    ensures r.(laps := s.laps) == s
  {
    if !s.running then s
    else
      var totalMs := Elapsed(s, now);
      s.(laps := s.laps + [Lap(totalMs - PrevTotal(s.laps, |s.laps|), totalMs)])
  }

  /** A user command; the lap index shown for a new lap is its 1-based position in `laps`. */
  datatype Command = StartCmd | PauseCmd | ToggleCmd | ResetCmd | LapCmd | ClearLapsCmd

  /** A command issued at an instant of the monotonic clock. */
  datatype Event = Event(cmd: Command, at: nat)

  function Step(s: State, e: Event): State
  {
    match e.cmd
    case StartCmd => Start(s, e.at)
    case PauseCmd => Pause(s, e.at)
    case ToggleCmd => Toggle(s, e.at)
    case ResetCmd => Reset(s)
    case LapCmd => AddLap(s, e.at)
    case ClearLapsCmd => ClearLaps(s)
  }

  /** The state after a whole sequence of commands, first to last. */
  function Run(s: State, trace: seq<Event>): State
    decreases |trace|
  {
    if trace == [] then s else Run(Step(s, trace[0]), trace[1..])
  }

  /** Instants that never go back and start no earlier than `from`. */
  predicate Timed(trace: seq<Event>, from: nat)
    decreases |trace|
  {
    trace == [] || (from <= trace[0].at && Timed(trace[1..], trace[0].at))
  }

  /** The instant of the last command, or `from` when there is none. */
  function LastAt(trace: seq<Event>, from: nat): nat
  {
    if trace == [] then from else trace[|trace| - 1].at
  }

  // ---------------------------------------------------------------------------
  // Laps

  /** Every `lapMs` is the difference between its `totalMs` and the previous one. */
  predicate LapChain(laps: seq<Lap>)
  {
    forall i {:trigger PrevTotal(laps, i)} :: 0 <= i < |laps| ==> laps[i].lapMs == laps[i].totalMs - PrevTotal(laps, i)
  }

  /** Totals start at or above zero and never go down. */
  predicate TotalsRise(laps: seq<Lap>)
  {
    forall i {:trigger PrevTotal(laps, i)} :: 0 <= i < |laps| ==> 0 <= PrevTotal(laps, i) <= laps[i].totalMs
  }

  /** The sum of all `lapMs`. */
  function SumLapMs(laps: seq<Lap>): int
  {
    if laps == [] then 0 else SumLapMs(laps[..|laps| - 1]) + laps[|laps| - 1].lapMs
  }

  /** The lap durations telescope: together they are the last lap's total. */
  lemma {:induction false} LapsTelescope(laps: seq<Lap>)
    requires LapChain(laps)
    ensures SumLapMs(laps) == PrevTotal(laps, |laps|)
  {
    if laps != [] {
      var front := laps[..|laps| - 1];
      forall i | 0 <= i < |front|
        ensures front[i].lapMs == front[i].totalMs - PrevTotal(front, i)
      {
        assert front[i] == laps[i];
        assert PrevTotal(front, i) == PrevTotal(laps, i);
      }
      LapsTelescope(front);
      assert PrevTotal(front, |front|) == PrevTotal(laps, |laps| - 1);
    }
  }

  /** With rising totals no lap is negative and the totals are sorted. */
  lemma RisingTotals(laps: seq<Lap>)
    requires LapChain(laps) && TotalsRise(laps)
    ensures forall i :: 0 <= i < |laps| ==> laps[i].lapMs >= 0 && laps[i].totalMs >= 0
    ensures forall i, j :: 0 <= i <= j < |laps| ==> laps[i].totalMs <= laps[j].totalMs
  {
    forall i | 0 <= i < |laps|
      ensures laps[i].lapMs >= 0 && laps[i].totalMs >= 0
    {
      assert 0 <= PrevTotal(laps, i) <= laps[i].totalMs;
      assert laps[i].lapMs == laps[i].totalMs - PrevTotal(laps, i);
    }
    forall i, j | 0 <= i <= j < |laps|
      ensures laps[i].totalMs <= laps[j].totalMs
    {
      TotalsSorted(laps, i, j);
    }
  }

  lemma {:induction false} TotalsSorted(laps: seq<Lap>, i: nat, j: nat)
    requires TotalsRise(laps) && i <= j < |laps|
    ensures laps[i].totalMs <= laps[j].totalMs
    decreases j - i
  {
    if i < j {
      TotalsSorted(laps, i, j - 1);
      assert PrevTotal(laps, j) == laps[j - 1].totalMs;
    }
  }

  // ---------------------------------------------------------------------------
  // The invariant kept under a monotonic clock

  /**
   * What holds of the engine once the clock has reached `clock`: the frozen
   * time is not negative, a running segment began no later than `clock`, a
   * frame is scheduled exactly while running, and the laps chain up, rise,
   * and do not exceed the current elapsed time.
   */
  predicate Inv(s: State, clock: nat)
  {
    && s.elapsedMs >= 0
    && (s.running ==> s.startPerfMs <= clock)
    && s.rafPending == s.running
    && LapChain(s.laps)
    && TotalsRise(s.laps)
    && PrevTotal(s.laps, |s.laps|) <= Elapsed(s, clock)
  }

  lemma InitialInv()
    ensures Inv(Initial, 0)
  {
  }

  /** Elapsed time is never negative and does not go back as the clock advances. */
  lemma ElapsedMonotone(s: State, clock: nat, later: nat)
    requires Inv(s, clock) && clock <= later
    ensures 0 <= Elapsed(s, clock) <= Elapsed(s, later)
    ensures Inv(s, later)
  {
  }

  /** A lap taken while running keeps the invariant at its instant. */
  lemma AddLapInv(s: State, clock: nat, now: nat)
    requires Inv(s, clock) && clock <= now
    ensures Inv(AddLap(s, now), now)
  {
    ElapsedMonotone(s, clock, now);
    if s.running {
      var laps := AddLap(s, now).laps;
      forall i | 0 <= i < |laps|
        ensures laps[i].lapMs == laps[i].totalMs - PrevTotal(laps, i)
        ensures 0 <= PrevTotal(laps, i) <= laps[i].totalMs
      {
        if i < |s.laps| {
          assert laps[i] == s.laps[i] && PrevTotal(laps, i) == PrevTotal(s.laps, i);
        } else {
          assert PrevTotal(laps, i) == PrevTotal(s.laps, |s.laps|);
          if |s.laps| > 0 {
            assert 0 <= PrevTotal(s.laps, |s.laps| - 1) <= s.laps[|s.laps| - 1].totalMs;
          }
        }
      }
    }
  }

  /** Every command keeps the invariant and moves the clock to its instant. */
  lemma StepInv(s: State, clock: nat, e: Event)
    requires Inv(s, clock) && clock <= e.at
    ensures Inv(Step(s, e), e.at)
  {
    ElapsedMonotone(s, clock, e.at);
    if e.cmd == LapCmd {
      AddLapInv(s, clock, e.at);
    }
  }

  /** The first command of a timed trace, taken on its own. */
  lemma RunFirst(s: State, clock: nat, trace: seq<Event>)
    requires Timed(trace, clock) && trace != []
    ensures clock <= trace[0].at && Timed(trace[1..], trace[0].at)
    ensures Run(s, trace) == Run(Step(s, trace[0]), trace[1..])
    ensures LastAt(trace, clock) == LastAt(trace[1..], trace[0].at)
  {
  }

  lemma {:induction false} RunInv(s: State, clock: nat, trace: seq<Event>)
    requires Inv(s, clock) && Timed(trace, clock)
    ensures Inv(Run(s, trace), LastAt(trace, clock))
    decreases |trace|
  {
    if trace != [] {
      RunFirst(s, clock, trace);
      StepInv(s, clock, trace[0]);
      RunInv(Step(s, trace[0]), trace[0].at, trace[1..]);
    }
  }

  // ---------------------------------------------------------------------------
  // Properties of single commands

  /** `start`: a no-op while running; otherwise running from `now`, elapsed time unchanged at that instant. */
  lemma StartProperties(s: State, now: nat)
    ensures s.running ==> Start(s, now) == s
    ensures !s.running ==> Start(s, now).running && Start(s, now).startPerfMs == now && Start(s, now).rafPending
    ensures Elapsed(Start(s, now), now) == Elapsed(s, now)
    ensures Start(s, now).laps == s.laps
  {
  }

  /** `pause`: a no-op while stopped; otherwise stopped, no frame pending, elapsed time the same just before and after. */
  lemma PauseProperties(s: State, now: nat)
    ensures !s.running ==> Pause(s, now) == s
    ensures !Pause(s, now).running
    ensures s.running ==> !Pause(s, now).rafPending && Pause(s, now).elapsedMs == Elapsed(s, now)
    ensures forall later: nat :: Elapsed(Pause(s, now), later) == Elapsed(s, now)
    ensures Pause(s, now).laps == s.laps
  {
  }

  /** `toggleStartPause`: flips whether the watch runs and keeps the elapsed time at `now`. */
  lemma ToggleProperties(s: State, now: nat)
    ensures Toggle(s, now).running == !s.running
    ensures Elapsed(Toggle(s, now), now) == Elapsed(s, now)
    ensures Toggle(s, now).laps == s.laps
  {
  }

  /** `reset` always lands in the initial state, so doing it twice is doing it once. */
  lemma ResetProperties(s: State, now: nat)
    ensures Reset(s) == Initial
    ensures Reset(Reset(s)) == Reset(s)
    ensures Elapsed(Reset(s), now) == 0 && Reset(s).laps == []
  {
  }

  /** `clearLaps` empties the laps and touches nothing else. */
  lemma ClearLapsProperties(s: State)
    ensures ClearLaps(s).laps == []
    ensures ClearLaps(s).(laps := s.laps) == s
  {
  }

  /**
   * `addLap`: while stopped the laps stay as they are; while running exactly
   * one lap is appended, at 1-based index `|s.laps| + 1`, whose total is the
   * elapsed time at `now` and whose duration is that total minus the
   * previous total (or minus 0 for the first lap). Nothing else changes.
   */
  lemma AddLapProperties(s: State, now: nat)
    ensures !s.running ==> AddLap(s, now) == s
    ensures s.running ==>
      var laps := AddLap(s, now).laps;
      && |laps| == |s.laps| + 1
      && laps[..|s.laps|] == s.laps
      && laps[|s.laps|].totalMs == Elapsed(s, now)
      && laps[|s.laps|].lapMs == Elapsed(s, now) - (if s.laps == [] then 0 else s.laps[|s.laps| - 1].totalMs)
    ensures AddLap(s, now).(laps := s.laps) == s
  {
  }

  /** Under the invariant a new lap is never negative and the laps still sum to the last total. */
  lemma AddLapSums(s: State, clock: nat, now: nat)
    requires Inv(s, clock) && clock <= now && s.running
    ensures var laps := AddLap(s, now).laps;
      laps[|laps| - 1].lapMs >= 0 && SumLapMs(laps) == laps[|laps| - 1].totalMs == Elapsed(s, now)
  {
    StepInv(s, clock, Event(LapCmd, now));
    LapsTelescope(AddLap(s, now).laps);
  }

  /** `n` laps taken while running, with nothing else in between, add exactly `n` entries. */
  lemma {:induction false} LapsCount(s: State, trace: seq<Event>)
    requires s.running
    requires forall i :: 0 <= i < |trace| ==> trace[i].cmd == LapCmd
    ensures |Run(s, trace).laps| == |s.laps| + |trace|
    ensures Run(s, trace).running
    ensures Run(s, trace).laps[..|s.laps|] == s.laps
    decreases |trace|
  {
    if trace != [] {
      var s' := Step(s, trace[0]);
      assert s'.laps[..|s.laps|] == s.laps;
      LapsCount(s', trace[1..]);
      assert Run(s, trace) == Run(s', trace[1..]);
      assert Run(s, trace).laps[..|s.laps|] == Run(s', trace[1..]).laps[..|s'.laps|][..|s.laps|];
    }
  }

  // ---------------------------------------------------------------------------
  // Drift-free accounting over a whole trace

  /** Whether the watch runs after a command, given whether it ran before. */
  function RunsAfter(running: bool, c: Command): bool
  {
    match c
    case StartCmd => true
    case PauseCmd => false
    case ToggleCmd => !running
    case ResetCmd => false
    case LapCmd => running
    case ClearLapsCmd => running
  }

  /** Time spent running between `from` and `to`. */
  function Segment(running: bool, from: nat, to: nat): int
  {
    if running then to - from else 0
  }

  /**
   * An independent account of elapsed time: start from `base`, add the
   * length of every interval during which the watch runs, and start again
   * from zero at every reset.
   */
  function RunningTime(base: int, running: bool, from: nat, trace: seq<Event>, now: nat): int
    decreases |trace|
  {
    if trace == [] then base + Segment(running, from, now)
    else
      var e := trace[0];
      if e.cmd == ResetCmd then RunningTime(0, false, e.at, trace[1..], now)
      else RunningTime(base + Segment(running, from, e.at), RunsAfter(running, e.cmd), e.at, trace[1..], now)
  }

  /**
   * The engine's elapsed time after any sequence of commands is exactly the
   * sum of the running intervals since the last reset: pause gaps are never
   * counted and nothing drifts.
   */
  lemma {:induction false} ElapsedIsRunningTime(s: State, clock: nat, trace: seq<Event>, now: nat)
    ensures Elapsed(Run(s, trace), now) == RunningTime(Elapsed(s, clock), s.running, clock, trace, now)
    decreases |trace|
  {
    if trace != [] {
      var e := trace[0];
      var s' := Step(s, e);
      assert s'.running == RunsAfter(s.running, e.cmd);
      if e.cmd == ResetCmd {
        assert Elapsed(s', e.at) == 0;
      } else {
        assert Elapsed(s', e.at) == Elapsed(s, clock) + Segment(s.running, clock, e.at);
      }
      ElapsedIsRunningTime(s', e.at, trace[1..], now);
    }
  }

  /** Without a reset, elapsed time at a later instant is never less than at an earlier one. */
  lemma {:induction false} ElapsedNeverDecreases(s: State, clock: nat, trace: seq<Event>, now: nat)
    requires Inv(s, clock) && Timed(trace, clock) && LastAt(trace, clock) <= now
    requires forall i :: 0 <= i < |trace| ==> trace[i].cmd != ResetCmd
    ensures Elapsed(s, clock) <= Elapsed(Run(s, trace), now)
    decreases |trace|
  {
    if trace == [] {
      ElapsedMonotone(s, clock, now);
    } else {
      var e := trace[0];
      RunFirst(s, clock, trace);
      StepInv(s, clock, e);
      ElapsedMonotone(s, clock, e.at);
      assert Elapsed(Step(s, e), e.at) == Elapsed(s, e.at);
      ElapsedNeverDecreases(Step(s, e), e.at, trace[1..], now);
    }
  }

  /**
   * A worked session: start at 0, lap at 1000, pause at 1500, start again at
   * 5000, lap at 5700, reset. The first lap is 1000/1000, the time frozen
   * by the pause is 1500, the second lap has total 2200 and duration 1200
   * (measured from the first lap's total, the pause gap excluded), and the
   * reset leaves no laps and no time.
   */
  lemma Session()
    ensures var s1 := AddLap(Start(Initial, 0), 1000);
      var s2 := Pause(s1, 1500);
      var s3 := AddLap(Start(s2, 5000), 5700);
      && s1.laps == [Lap(1000, 1000)]
      && Elapsed(s2, 1500) == 1500 && Elapsed(s2, 4000) == 1500
      && s3.laps == [Lap(1000, 1000), Lap(1200, 2200)]
      && Reset(s3).laps == [] && Elapsed(Reset(s3), 6000) == 0
  {
  }
}
