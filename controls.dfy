/**
 * The two pieces of UI logic in docs/app.js that are decisions rather than
 * DOM updates: which controls `updateButtons` enables (docs/app.js:180-189)
 * and which command the keydown handler runs (docs/app.js:395-417).
 */
module Controls {
  import opened Wrappers
  import opened Clock

  /** What `updateButtons` writes: the start/pause label and the three disabled flags. */
  datatype Buttons = Buttons(startPauseLabel: string, lapDisabled: bool, resetDisabled: bool, clearLapsDisabled: bool)

  /** `updateButtons()` as a function of the engine's state at instant `now`. */
  function UpdateButtons(s: State, now: nat): (b: Buttons)
    ensures b.startPauseLabel in ["Pause", "Resume", "Start"]
    ensures b.resetDisabled ==> b.clearLapsDisabled
  {
    var hasTime := Elapsed(s, now) > 0;
    Buttons(
      if s.running then "Pause" else if hasTime then "Resume" else "Start",
      !s.running,
      !hasTime && |s.laps| == 0,
      |s.laps| == 0)
  }

  /**
   * The enablement rules, under the engine's invariant (where elapsed time
   * is never negative): lap is disabled exactly when stopped, clear-laps
   * exactly when there are no laps, reset exactly when there is neither time
   * nor a lap; the label is Pause while running, Resume when stopped with
   * time on the clock, and Start otherwise.
   */
  lemma ButtonRules(s: State, clock: nat)
    requires Inv(s, clock)
    ensures var b := UpdateButtons(s, clock);
      && (b.lapDisabled <==> !s.running)
      && (b.clearLapsDisabled <==> s.laps == [])
      && (b.resetDisabled <==> Elapsed(s, clock) == 0 && s.laps == [])
      && (b.startPauseLabel == "Pause" <==> s.running)
      && (b.startPauseLabel == "Resume" <==> !s.running && Elapsed(s, clock) > 0)
      && (b.startPauseLabel == "Start" <==> !s.running && Elapsed(s, clock) == 0)
  {
    ElapsedMonotone(s, clock, clock);
  }

  /** What the controls show after each command. */
  lemma ButtonsAfterCommands(s: State, clock: nat, now: nat)
    requires Inv(s, clock) && clock <= now
    ensures UpdateButtons(Reset(s), now) == Buttons("Start", true, true, true)
    ensures var b := UpdateButtons(Start(s, now), now); b.startPauseLabel == "Pause" && !b.lapDisabled
    ensures s.running && Elapsed(s, now) > 0 ==> UpdateButtons(Pause(s, now), now).startPauseLabel == "Resume"
    ensures s.running ==> var b := UpdateButtons(AddLap(s, now), now); !b.clearLapsDisabled && !b.resetDisabled
    ensures UpdateButtons(ClearLaps(s), now).clearLapsDisabled
  {
  }

  /** The part of a keydown event's target that the handler looks at. */
  datatype Target = Target(tagName: string, isContentEditable: bool)

  /** A keydown event: `e.key`, `e.repeat` and `e.target` (possibly absent). */
  datatype KeyEvent = KeyEvent(key: string, repeat: bool, target: Option<Target>)

  function LowerChar(c: char): char
  {
    if 'A' <= c <= 'Z' then (c as int - 'A' as int + 'a' as int) as char else c
  }

  /** `toLowerCase()` on ASCII letters; every other character is kept. */
  function ToLowerCase(s: string): (r: string)
    ensures |r| == |s| && forall i :: 0 <= i < |s| ==> r[i] == LowerChar(s[i])
  {
    seq(|s|, i requires 0 <= i < |s| => LowerChar(s[i]))
  }

  /** A text field or an editable element has the focus. */
  predicate IsTypingTarget(t: Option<Target>): (b: bool)
    ensures b ==> t.Some?
    ensures t.Some? && t.value.isContentEditable ==> b
  {
    t.Some? && (t.value.tagName == "INPUT" || t.value.tagName == "TEXTAREA" || t.value.isContentEditable)
  }

  /** The keydown handler's decision: which command, if any, a key press runs. */
  function KeyCommand(e: KeyEvent, cardHidden: bool): (c: Option<Command>)
    ensures e.repeat || IsTypingTarget(e.target) || cardHidden ==> c == None
    ensures c in [None, Some(ToggleCmd), Some(ResetCmd), Some(LapCmd)]
  {
    if e.repeat then None
    else
      var key := ToLowerCase(e.key);
      if IsTypingTarget(e.target) then None
      else if cardHidden then None
      else if key == " " then Some(ToggleCmd)
      else if key == "r" then Some(ResetCmd)
      else if key == "l" then Some(LapCmd)
      else None
  }

  /** Only the space bar has its default action prevented. */
  predicate PreventsDefault(e: KeyEvent, cardHidden: bool): (b: bool)
    ensures b <==> !e.repeat && !IsTypingTarget(e.target) && !cardHidden && e.key == " "
  {
    LowerSingle(e.key, ' ');
    KeyCommand(e, cardHidden) == Some(ToggleCmd)
  }

  lemma LowerSingle(k: string, c: char)
    requires 'a' <= c <= 'z' || c == ' '
    ensures ToLowerCase(k) == [c] <==> k == [c] || (c != ' ' && k == [(c as int - 'a' as int + 'A' as int) as char])
  {
    if ToLowerCase(k) == [c] {
      assert |k| == 1 && LowerChar(k[0]) == c;
    }
  }

  /**
   * The dispatch rules: a repeated key, a key typed into a text target and
   * any key while the stopwatch card is hidden do nothing; otherwise space
   * toggles, `r` or `R` resets, `l` or `L` takes a lap, and every other key
   * does nothing.
   */
  lemma KeyDispatch(e: KeyEvent, cardHidden: bool)
    ensures e.repeat || IsTypingTarget(e.target) || cardHidden ==> KeyCommand(e, cardHidden) == None
    ensures !e.repeat && !IsTypingTarget(e.target) && !cardHidden ==>
      && (KeyCommand(e, cardHidden) == Some(ToggleCmd) <==> e.key == " ")
      && (KeyCommand(e, cardHidden) == Some(ResetCmd) <==> e.key == "r" || e.key == "R")
      && (KeyCommand(e, cardHidden) == Some(LapCmd) <==> e.key == "l" || e.key == "L")
      && (KeyCommand(e, cardHidden) == None <==> e.key !in [" ", "r", "R", "l", "L"])
    ensures KeyCommand(e, cardHidden) in [None, Some(ToggleCmd), Some(ResetCmd), Some(LapCmd)]
  {
    LowerSingle(e.key, ' ');
    LowerSingle(e.key, 'r');
    LowerSingle(e.key, 'l');
  }
}
