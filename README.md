# Pocketwatch pomodoro core, modelled in Dafny

Pocketwatch is a desktop overlay clock that runs "pomodoro" work sessions.
This project models its two pieces of sequential logic.

- **The session controller** (`PomodoroControl`, `pomodoro_control.dfy`). It is an
  Idle/Running machine over two integer counters, `seconds_elapsed` and
  `seconds_remaining`, plus the flag of its one-second timer. `start(n)` resets the
  counters, arms the timer and emits `pomodoro_begin` then `time_update(0, n)`.
  `early_finish()` stops the timer and emits `pomodoro_complete`. `handle_second()`
  is one timer firing. It moves both counters by one and emits `time_update`. When
  remaining reaches 0 it also stops the timer and emits `pomodoro_complete`. The
  signals are an append-only trace of `Event`s (`Begin`, `Tick(elapsed, remaining)`,
  `Complete`), the timer is a boolean, and a timer firing is an explicit call of
  `HandleSecond` that is allowed only while the timer is active. A value-level
  specification (`Session`, `SecondStep`, `Run`) describes whole sessions, and the
  class `Control` is tied to it method by method.
- **The overlay view** (`PomodoroClockView`, `clock_view.dfy`). Mouse press, move
  and release either drag the window or, for a click with no move, emit exactly one
  of `pomodoro_pause_requested` (controller running) or `pomodoro_begin_requested`.
  The view reacts to the controller's signals. Begin hides the circular obstruction
  (animation target 0.0). Complete shows it (target 50.0). Ticks are mirrored into
  the elapsed-time arc. At construction the view applies the begin or the complete
  reaction according to `is_running`. `set_color` paints the view and its five
  children. Animations are modelled only by their end target. Points are integer
  pairs, like `QPoint`.

Some behaviour of the code that callers might not expect, which the model keeps:

- `early_finish` does not check `is_running`, so it emits a Complete even when the
  controller is already idle.
- `start` does not reject a non-positive duration. With `n <= 0` the remaining
  count never lands on 0, so the session never completes by itself
  (`NonPositiveNeverCompletes`).
- A mouse move marks a drag even with no button held.

## Model

| member | source | states |
|---|---|---|
| `PomodoroControl.Ticks` | pomodoroControl.py:37-40 | after k firings, the i-th tick since the initial one is Tick(i+1, n-i-1), i.e. elapsed counts up from 1 and remaining down from n-1 |
| `PomodoroControl.SessionSoFar` | pomodoroControl.py:26-40 | a running session's trace is Begin followed by Tick(0, n), Tick(1, n-1), ..., Tick(k, n-k), with no Complete |
| `PomodoroControl.SecondStep` | pomodoroControl.py:37-43 | one firing raises elapsed by 1 and lowers remaining by 1, so their sum is kept; it emits the tick of the new counters first; the timer stops and Complete follows that tick exactly when remaining becomes 0, otherwise only the tick is emitted |
| `PomodoroControl.Run` | pomodoroControl.py:37-43 | any number of firings keeps elapsed + remaining, and every emitted tick carries that same sum; a stopped timer emits nothing |
| `PomodoroControl.RunSettled` | pomodoroControl.py:41-43 | once a firing has stopped the timer, later firings change neither the state nor the trace |
| `PomodoroControl.RunTracksRunning` | pomodoroControl.py:22-43 | whether the timer is still active can be read off the emitted events alone |
| `PomodoroControl.RunWithin` | pomodoroControl.py:37-40 | while remaining stays above 0, k firings append exactly the next k ticks and leave the timer active |
| `PomodoroControl.RunToEnd` | pomodoroControl.py:37-43 | the firing that brings remaining to 0 ends the tick sequence at Tick(n, 0), appends Complete and stops the timer |
| `PomodoroControl.NaturalCompletion` | pomodoroControl.py:26-43 | for n >= 1, start(n) and n firings give Begin, Tick(0,n), Tick(1,n-1), ..., Tick(n,0), Complete with exactly one Complete and the timer stopped; further firings add nothing |
| `PomodoroControl.EarlyFinishTruncates` | pomodoroControl.py:26-40 | after start(n) and k < n firings the session is still running at (k, n-k), its trace is the first k ticks, and the Complete that early_finish adds is the only one |
| `PomodoroControl.NonPositiveNeverCompletes` | pomodoroControl.py:37-43 | when remaining is already <= 0, every firing keeps the timer active, decrements remaining and never emits Complete |
| `PomodoroControl.Control.constructor` | pomodoroControl.py:15-20 | a new controller is idle with both counters 0 and an empty trace |
| `PomodoroControl.Control.IsRunning` | pomodoroControl.py:22-24 | is_running is the timer flag; it agrees with the emitted history, and a running positive session has time left |
| `PomodoroControl.Control.Start` | pomodoroControl.py:26-31 | counters become (0, n), the timer is active, and exactly Begin then Tick(0, n) are appended, whatever session was running before (no Complete for it) |
| `PomodoroControl.Control.EarlyFinish` | pomodoroControl.py:33-35 | the timer is stopped, the counters are unchanged and exactly one Complete is appended, also when already idle |
| `PomodoroControl.Control.HandleSecond` | pomodoroControl.py:37-43 | the new state and appended events are those of SecondStep on the old state; the class invariant (counters sum to the started duration, the trace since Begin is the session so far) is kept |
| `PomodoroControl.StartAndRun` | pomodoroControl.py:26-43 | start(n) followed by up to k timer firings leaves the controller in Run's state and appends Begin, Tick(0, n) and Run's events |
| `PomodoroControl.RunSession` | pomodoroControl.py:26-43 | on the controller object, start(n) with n >= 1 and n firings append the complete session and one Complete and leave it not running at (n, 0) |
| `PomodoroControl.RunThenFinishEarly` | pomodoroControl.py:26-35 | on the controller object, start(n), k < n firings and early_finish append the first k ticks and one Complete and leave it not running at (k, n-k) |
| `PomodoroClockView.Press` | PomodoroClockView.py:386-389 | a press always clears the drag flag and keeps the window in place; a left press records the grab offset so that top-left + offset is the press point; other buttons keep the old offset |
| `PomodoroClockView.Move` | PomodoroClockView.py:390-394 | every move sets the drag flag, even with no button held; with the left button held the window moves so that the grabbed point is under the pointer, otherwise it stays |
| `PomodoroClockView.ReleaseRequests` | PomodoroClockView.py:395-400 | a release emits at most one request: none after a drag, pause when not dragged and running, begin when not dragged and idle |
| `PomodoroClockView.Moves` | PomodoroClockView.py:390-394 | any series of moves, also before the first left press as long as none holds the left button, keeps the grab offset; at least one move marks a drag; moves none of which hold the left button leave the window where it was |
| `PomodoroClockView.MovesKeepGrab` | PomodoroClockView.py:390-394 | after any series of moves whose last move holds the left button, the grabbed point is under the pointer |
| `PomodoroClockView.ClickRequestsOnce` | PomodoroClockView.py:386-400 | a press followed by a release with no move emits exactly one request, pause if running and begin otherwise |
| `PomodoroClockView.DragMovesWindow` | PomodoroClockView.py:386-400 | after a left press and any moves the release emits nothing, and after a final left-button move the window's top-left is the top-left at press plus the pointer's displacement since the press |
| `PomodoroClockView.InitialTarget` | PomodoroClockView.py:320-323 | the constructor's target is 0.0 when the controller runs and 50.0 otherwise, the same target the begin or the complete reaction would set |
| `PomodoroClockView.React` | PomodoroClockView.py:160-334 | Begin sets the target to 0.0 and keeps the mirror; Complete sets it to 50.0 and keeps the mirror; Tick(e, r) mirrors (e, r) and keeps the target |
| `PomodoroClockView.ReactAll` | PomodoroClockView.py:160-334 | the target is always the starting one, 0.0 or 50.0; ticks alone never move the target and begin/complete alone never move the mirror; the last signal decides: Begin gives 0.0, Complete 50.0, a tick is what the mirror shows |
| `PomodoroClockView.ViewDuringSession` | PomodoroClockView.py:160-334 | while a session runs, the obstruction target is 0.0 and the mirror shows the latest tick (k, n-k) |
| `PomodoroClockView.ViewAfterSession` | PomodoroClockView.py:160-334 | after a complete session the obstruction target is 50.0 and the mirror shows (n, 0) |
| `PomodoroClockView.ViewTracksRunning` | PomodoroClockView.py:318-323 | starting from the reaction that matched the controller's running flag, the reactions to later signals keep the obstruction target matching the running flag those signals imply |
| `PomodoroClockView.ViewMatchesController` | PomodoroClockView.py:307-323 | a view built after the controller emitted `before` and sent everything emitted since agrees with the controller's event history about whether it runs |
| `PomodoroClockView.ClockHand.constructor` | PomodoroClockView.py:32-37 | a clock hand starts black |
| `PomodoroClockView.ClockHand.SetColor` | PomodoroClockView.py:21-23 | set_color stores the colour |
| `PomodoroClockView.ClockBack.constructor` | PomodoroClockView.py:92-98 | the clock back starts red |
| `PomodoroClockView.ClockBack.SetColor` | PomodoroClockView.py:21-23 | set_color stores the colour |
| `PomodoroClockView.TimeElapsedView.constructor` | PomodoroClockView.py:149-156 | the arc starts blue with mirrored elapsed and remaining both 0 |
| `PomodoroClockView.TimeElapsedView.SetColor` | PomodoroClockView.py:21-23 | set_color stores the colour |
| `PomodoroClockView.TimeElapsedView.UpdateTime` | PomodoroClockView.py:167-169 | update_time stores exactly the elapsed and remaining it is given |
| `PomodoroClockView.CircleObstruction.constructor` | PomodoroClockView.py:228-232 | the obstruction starts blue, resting at the thickness it is built with |
| `PomodoroClockView.CircleObstruction.SetColor` | PomodoroClockView.py:21-23 | set_color stores the colour |
| `PomodoroClockView.CircleObstruction.ShowAnim` | PomodoroClockView.py:250-256 | show_anim animates towards thickness 50.0 |
| `PomodoroClockView.CircleObstruction.HideAnim` | PomodoroClockView.py:257-263 | hide_anim animates towards thickness 0.0 |
| `PomodoroClockView.ClockView.constructor` | PomodoroClockView.py:280-323 | the view builds five fresh children, paints them and itself black, mirrors (0, 0), targets 0.0 if the controller runs and 50.0 otherwise, has no drag state yet and has emitted no request |
| `PomodoroClockView.ClockView.SetColor` | PomodoroClockView.py:272-278 | the view and all five children (hour hand, minute hand, clock back, elapsed arc, obstruction) hold the new colour |
| `PomodoroClockView.ClockView.PomodoroBegin` | PomodoroClockView.py:325-329 | the begin reaction sets the obstruction target to 0.0 |
| `PomodoroClockView.ClockView.PomodoroComplete` | PomodoroClockView.py:330-334 | the complete reaction sets the obstruction target to 50.0 |
| `PomodoroClockView.ClockView.Deliver` | PomodoroClockView.py:160-334 | delivering a controller signal through the view's connections (begin and complete) and the arc's connection to update_time (ticks) changes the target and the mirror exactly as React says |
| `PomodoroClockView.ClockView.MousePress` | PomodoroClockView.py:382-389 | the drag state becomes Press of the old one |
| `PomodoroClockView.ClockView.MouseMove` | PomodoroClockView.py:390-394 | the drag state and window position become Move of the old ones; a left-button move needs an earlier left press |
| `PomodoroClockView.ClockView.MouseRelease` | PomodoroClockView.py:395-400 | the requests emitted are ReleaseRequests of the drag state and the controller's is_running; a release needs an earlier press or move |

## Left out

- analogclock.py is not part of this model: it holds foreign calls into the window system and drawing driven by the wall clock.
- OverlayGraphicsView.py is not part of this model: it sets window flags and platform window behaviour.
- app.py is not part of this model: it only wires one controller to one view and calls `start(60 * 15)`, a case of `RunSession`.
- Painting and bounding rectangles, the arc angles of the elapsed-time view, the hand rotations from the wall clock, the colour mixing of the clock face and `resizeEvent` are floating-point rendering.
- Animation durations, easing curves and interpolation are left out; only each animation's end target is kept.
- Real timer scheduling and its drift are left out: a timer firing is an explicit `HandleSecond` call. The repaint timers of the elapsed-time view and the clock hands are left out too.
- `PomodoroControl.Control.HandleSecond` requires an active timer, because a stopped `QTimer` never fires.
- `time_update` is declared as a `(float, float)` signal, so `update_time` receives floats; the controller only ever emits whole-number values, so the model carries them as integers.
- The demonstration under `__main__` in pomodoroControl.py, the commented-out state-machine experiment in PomodoroClockView.py, `evt.accept()`, `self.update()` repaint requests and the debug `print` in `update_time` are left out.
- The clock face's alpha and line width, and the sizes of the graphics items, are left out; only colours and the obstruction's thickness target are modelled.
- Signal delivery is modelled by `ClockView.Deliver` for one signal at a time and by `ReactAll` for a sequence. The object-level composition of controller and view, where each emit calls the view at once, is left out.
