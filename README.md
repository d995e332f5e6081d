# Stopwatch engine of `docs/app.js`, modelled in Dafny

The web page in `docs/app.js` is a stopwatch behind a Firebase sign-in. Its
engine is a handful of module-level variables and the functions that update
them:

- `running`, `startPerfMs`, `elapsedMs`, `rafId` and `laps`;
- `start`, `pause`, `reset`, `toggleStartPause`, `clearLaps` and `addLap`.

Around the engine sit a few pure helpers:

- `pad2` and `formatTime`, which render a duration as `[h:]mm:ss.cc`;
- `updateButtons`, which decides which controls are enabled;
- the keydown handler's choice of command;
- `maskEmail` and `isConfigSet`.

The model has six modules:

- `Wrappers`: the `Option` type. It stands for JavaScript's `null` and
  `undefined`.
- `TimeFormat`: `pad2`, `String(n)` for non-negative integers and
  `formatTime`.
  - Beside them is a reference parser, `ParseTime`, that reads a rendering
    back.
  - This proves the rendering is lossless down to the centisecond, and that
    it truncates rather than rounds.
- `Clock`: the engine as a state machine over values.
  - `State` holds the five variables. `rafPending` stands for `rafId`
    holding a scheduled frame.
  - Each engine function is a transition to the next `State`. Where the
    source reads `performance.now()` (`start`, `pause`, `toggleStartPause`,
    `addLap`), the reading becomes a parameter `now`; `reset` and
    `clearLaps` take the state alone.
  - Beside the transitions are:
    - the invariant a monotone clock preserves;
    - the properties of each command;
    - lap telescoping;
    - `RunningTime`, an independent account of elapsed time over any command
      trace. It sums the running intervals since the last reset.
- `Controls`: `updateButtons` as a function of the state, and the keydown
  dispatch decision.
- `Account`: `maskEmail`, including JavaScript's `split`, and `isConfigSet`,
  including `includes`.
- `Engine`: the class `Stopwatch`. Its fields are the module-level
  variables, and its methods update them in place as the source does.
  - Each method is proved to perform its `Clock` transition: `Start`,
    `Pause`, `ClearLaps`, `Reset` and `AddLap` the transition of the same
    name, `ToggleStartPause` the transition `Clock.Toggle`, and `KeyDown` the
    `Clock.Step` of the command `Controls.KeyCommand` picks.
  - Each method keeps the invariant. The methods that read the clock
    (`Start`, `Pause`, `ToggleStartPause`, `AddLap`, `KeyDown`) require
    `clock <= now`, where `clock` is a ghost field holding the last instant
    seen, so the caller's clock never goes back. `Reset` and `ClearLaps`
    read no clock and require nothing.
  - `Engine.SessionThroughObject` replays the session of `Clock.Session`
    through the object, as a caller that relies only on the methods'
    contracts.

A worked session: start at 0, lap at 1000, pause at 1500, start at 5000,
lap at 5700. The second lap lasts 1200 ms, because `addLap`
(docs/app.js:252-253) measures each lap from the previous lap's total, and
its total is 2200 ms, because the pause gap is not counted; see
`Clock.Session`.

## Model

| member | source | states |
|---|---|---|
| TimeFormat.NatToString | docs/app.js:145 | `String(n)` of a non-negative integer is a decimal numeral with no leading zero whose value is `n`; it has one digit below 10 and two from 10 to 99 |
| TimeFormat.Pad2 | docs/app.js:144-146 | `pad2(n)` is a numeral with value `n`, at least two characters long, and exactly two characters long iff `n < 100`; it is `String(n)` itself from 10 on and `"0"` before it below 10 |
| TimeFormat.ClockTail | docs/app.js:164 | the eight-character `mm:ss.cc` tail has its separators at positions 2 and 5 and the padded minutes, seconds and centiseconds between them |
| TimeFormat.FormatTime | docs/app.js:148-165 | a rendering is at least eight characters long, and exactly eight (no hours part) iff the duration is under one hour |
| TimeFormat.FormatIsLayout | docs/app.js:149-164 | `formatTime` lays out the fields its floor-division chain computes, with the hours and a colon only when hours are not zero |
| TimeFormat.Recompose | docs/app.js:149-158 | the hours, minutes below 60, seconds below 60 and centiseconds below 100 recompose to the whole centiseconds |
| TimeFormat.ParseLayout | docs/app.js:160-164 | parsing a laid-out rendering gives back the centiseconds its fields stand for |
| TimeFormat.ParseFormat | docs/app.js:148-165 | reading `formatTime(ms)` back yields exactly `floor(ms / 10)`: nothing above the centisecond is lost |
| TimeFormat.FormatTimeTruncates | docs/app.js:149 | two durations render alike iff they have the same whole centiseconds (truncation, not rounding) |
| TimeFormat.Fields | docs/app.js:149-158 | the chained floor divisions give centis `(ms mod 1000) / 10`, seconds `(ms / 1000) mod 60`, minutes `(ms / 60000) mod 60` and hours `ms / 3600000` |
| TimeFormat.FormatTimeFields | docs/app.js:148-165 | the rendering ends in two-digit centiseconds, seconds and minutes separated by `.` and `:`, and has the unpadded hours before a colon iff the duration is at least one hour |
| TimeFormat.Fixture0 | docs/app.js:148-164 | 0 ms renders as `00:00.00` |
| TimeFormat.Fixture999 | docs/app.js:148-164 | 999 ms renders as `00:00.99` |
| TimeFormat.Fixture1500 | docs/app.js:148-164 | 1500 ms renders as `00:01.50` |
| TimeFormat.Fixture61000 | docs/app.js:148-164 | 61000 ms renders as `01:01.00` |
| TimeFormat.Fixture3600000 | docs/app.js:148-164 | 3600000 ms renders as `1:00:00.00` |
| TimeFormat.Fixture3661234 | docs/app.js:148-164 | 3661234 ms renders as `1:01:01.23` |
| TimeFormat.FormatTimeFixtures | docs/app.js:148-164 | all six renderings above together |
| Clock.Elapsed | docs/app.js:167-170 | `getCurrentElapsedMs()`: a running segment that began no later than `now` only adds to the frozen time, and the result is not negative when the frozen time is not and the segment began no later than `now` |
| Clock.Start | docs/app.js:197-204 | `start()` leaves the watch running with a frame scheduled, and keeps the elapsed time at `now` and the laps |
| Clock.Pause | docs/app.js:206-219 | `pause()` leaves the watch stopped, cancels the frame when it was running, and keeps the elapsed time at `now` and the laps |
| Clock.ClearLaps | docs/app.js:242-246 | `clearLaps()` empties the laps and changes nothing else |
| Clock.Reset | docs/app.js:221-235 | `reset()` yields the initial state from any state |
| Clock.Toggle | docs/app.js:237-240 | `toggleStartPause()` flips `running` and keeps the elapsed time at `now` and the laps |
| Clock.AddLap | docs/app.js:248-256 | `addLap()` appends one lap while running and none while stopped, keeps the earlier laps, gives the new lap the elapsed time at `now` as its total, and changes nothing but the laps |
| Clock.LapsTelescope | docs/app.js:251-256 | when each `lapMs` is its total minus the previous total, the lap durations sum to the last total |
| Clock.RisingTotals | docs/app.js:251-256 | with rising totals no lap is negative and the totals are sorted |
| Clock.TotalsSorted | docs/app.js:251-256 | with each total at least the one before it, an earlier total never exceeds a later one |
| Clock.InitialInv | docs/app.js:138-142 | the initial values satisfy the invariant at instant 0 |
| Clock.ElapsedMonotone | docs/app.js:167-170 | under the invariant `getCurrentElapsedMs` is not negative and does not decrease as the clock advances |
| Clock.AddLapInv | docs/app.js:248-256 | a lap taken at a later instant keeps the invariant: laps chain, totals rise, the last total does not exceed the elapsed time |
| Clock.StepInv | docs/app.js:197-256 | every command, issued at an instant no earlier than the last, keeps the invariant |
| Clock.RunInv | docs/app.js:197-256 | any sequence of commands with non-decreasing instants keeps the invariant |
| Clock.StartProperties | docs/app.js:197-204 | `start` does nothing while running; otherwise it runs from `now` with a frame scheduled; the elapsed time at `now` and the laps are unchanged |
| Clock.PauseProperties | docs/app.js:206-219 | `pause` does nothing while stopped; otherwise it stops the watch, cancels the frame, and freezes the elapsed time at its value at `now`, whatever later instant it is read at |
| Clock.ToggleProperties | docs/app.js:237-240 | `toggleStartPause` flips `running` and keeps the elapsed time at `now` and the laps |
| Clock.ResetProperties | docs/app.js:221-235 | `reset` always yields the initial state (stopped, zero start, zero elapsed, no frame, no laps), so it is idempotent |
| Clock.ClearLapsProperties | docs/app.js:242-246 | `clearLaps` empties the laps, running or not, and changes nothing else |
| Clock.AddLapProperties | docs/app.js:248-256 | `addLap` does nothing while stopped; otherwise it appends exactly one lap, at index old length + 1, whose total is the elapsed time and whose duration is that minus the previous total (0 for the first lap), and changes nothing else |
| Clock.AddLapSums | docs/app.js:251-256 | under the invariant a new lap is never negative, and all `lapMs` sum to the new last total, which is the elapsed time |
| Clock.LapsCount | docs/app.js:248-256 | `n` laps in a row while running add exactly `n` entries and keep the earlier ones |
| Clock.ElapsedIsRunningTime | docs/app.js:167-240 | after any command trace, the elapsed time equals the sum of the running intervals since the last reset (pause gaps never count) |
| Clock.ElapsedNeverDecreases | docs/app.js:167-170 | with a monotone clock and no reset, elapsed time after any trace is at least what it was before |
| Clock.Session | docs/app.js:197-256 | start at 0, lap at 1000, pause at 1500, start at 5000, lap at 5700 give laps 1000/1000 and 1200/2200, 1500 ms frozen by the pause, and after reset no laps and no time |
| Controls.UpdateButtons | docs/app.js:180-189 | the label is one of Pause, Resume or Start, and reset is disabled only when clear-laps is |
| Controls.ButtonRules | docs/app.js:180-189 | under the invariant: lap disabled iff stopped; clear-laps disabled iff no laps; reset disabled iff no time and no laps; label Pause iff running, Resume iff stopped with time, Start iff stopped with no time |
| Controls.ButtonsAfterCommands | docs/app.js:180-256 | after reset all three buttons are disabled and the label is Start; after start the label is Pause and lap is enabled; pausing with time shows Resume; a lap enables clear-laps and reset; clear-laps disables clear-laps |
| Controls.ToLowerCase | docs/app.js:397 | lowercasing keeps the length and lowercases each ASCII letter |
| Controls.LowerSingle | docs/app.js:397 | a key lowercases to a single lowercase letter or space iff it is that character or, for a letter, its uppercase form |
| Controls.IsTypingTarget | docs/app.js:399-404 | a missing target is never a typing target, and an editable element always is |
| Controls.KeyCommand | docs/app.js:395-417 | a repeat, a typing target or a hidden card picks no command, and the only commands the handler ever picks are toggle, reset and lap |
| Controls.PreventsDefault | docs/app.js:395-411 | the default action is prevented iff the key is not a repeat, the target is not a typing target, the card is shown and the key is a space |
| Controls.KeyDispatch | docs/app.js:395-417 | repeats, typing targets (INPUT, TEXTAREA, editable) and a hidden card do nothing; otherwise space toggles, r or R resets, l or L laps, and every other key does nothing |
| Account.Split | docs/app.js:107 | `split` on one character gives at least one piece, none containing the separator, and joining the pieces with it gives back the string |
| Account.SplitWithout | docs/app.js:107 | a string without the separator splits into itself alone |
| Account.SplitAtFirst | docs/app.js:107 | splitting `x + sep + y`, where `x` has no separator, gives `x` and then the pieces of `y` |
| Account.MaskName | docs/app.js:108 | a local part of at most two characters is kept whole; a longer one shows its first two characters and `***` |
| Account.MaskEmail | docs/app.js:105-110 | the result is `Signed in` iff the address is missing or empty |
| Account.MaskEmailShape | docs/app.js:105-110 | an address with one `@` renders as its masked local part, `@` and its domain |
| Account.MaskEmailNoAt | docs/app.js:107-109 | an address without `@` renders its missing domain as `undefined` |
| Account.MaskEmailEmpty | docs/app.js:106 | a missing or empty address shows `Signed in` |
| Account.MaskEmailShort | docs/app.js:108-109 | `jo@example.com` is shown whole |
| Account.MaskEmailLong | docs/app.js:108-109 | `alice@example.com` is shown as `al***@example.com` |
| Account.Contains | docs/app.js:119 | `includes(t)` holds iff `t` occurs at some position |
| Account.IsConfigSet | docs/app.js:112-121 | a configuration is set iff it is present, its four fields are non-empty, and its API key contains `PASTE_ME` nowhere |
| Account.PlaceholderKeyIsNotSet | docs/app.js:119 | a key with the placeholder anywhere inside it is never taken as set |
| Engine.Stopwatch.constructor | docs/app.js:138-142 | the fields start stopped, zeroed, with no frame and no laps, and satisfy the invariant |
| Engine.Stopwatch.Start | docs/app.js:197-204 | the method performs `Clock.Start` on the fields in place and keeps the invariant |
| Engine.Stopwatch.Pause | docs/app.js:206-219 | the method performs `Clock.Pause` on the fields in place and keeps the invariant |
| Engine.Stopwatch.ClearLaps | docs/app.js:242-246 | the method performs `Clock.ClearLaps` in place and keeps the invariant |
| Engine.Stopwatch.Reset | docs/app.js:221-235 | the method performs `Clock.Reset` in place from any state and establishes the invariant |
| Engine.Stopwatch.ToggleStartPause | docs/app.js:237-240 | the method performs `Clock.Toggle` in place and keeps the invariant |
| Engine.Stopwatch.AddLap | docs/app.js:248-256 | the method performs `Clock.AddLap` in place, keeps the invariant, and returns the new lap's 1-based index (old length + 1) and its total, or nothing while stopped |
| Engine.Stopwatch.KeyDown | docs/app.js:395-417 | the handler runs exactly the command `Controls.KeyCommand` picks, or changes nothing, and prevents the default action only for the space toggle |

## Left out

- Firebase is not modelled: initialisation (docs/app.js:10-32, 123-135), the sign-in, sign-up and sign-out handlers, and the account-deletion workflow. They are calls into a remote service. The malformed configuration literal at line 32 is one more reason to leave initialisation out.
- DOM updates are not modelled: `setStatus`, `renderTime`, show and hide, the lap `<li>` built by `addLap`, and the newest-first insertion (docs/app.js:258-273). The model keeps `laps` in push order, which is the order the source stores.
- `setAuthedUI` is not modelled except for its sign-out effect, which is a call to `reset` (docs/app.js:302). That effect is `Engine.Stopwatch.Reset`.
- Frame scheduling and `tick` (docs/app.js:191-195) are not modelled; `rafId` is reduced to the flag `rafPending`.
- `performance.now()` returns a floating-point value; the model uses integer milliseconds supplied by the caller. Sub-millisecond time is therefore not modelled, and with it the case of `hasTime` being true for an elapsed time strictly between 0 and 1 ms.
- TimeFormat.FormatTime: takes a non-negative duration. Negative durations do not arise under a monotone clock (`Clock.RisingTotals`), and the model does not give them the JavaScript rendering.
- TimeFormat.NatToString: writes every number in plain decimal. JavaScript's `String` switches to exponent notation from 10^21 hours on, and the model does not follow it there.
- Account.MaskName: counts characters. JavaScript's `length` and `slice` count UTF-16 code units, so the two differ on characters outside the Basic Multilingual Plane.
- Controls.ToLowerCase: lowercases ASCII letters only. The full Unicode mapping is not modelled. No other character lowercases to a space, `r` or `l`, so the dispatch decision is exact.
- Account.IsConfigSet: takes string fields. `String(cfg.apiKey)` on a non-string value, and configuration fields other than the four it reads, are not modelled.
