/** The reactive and gesture logic of the clock overlay (PomodoroClockView.py).

    The view owns five themed children (two clock hands, the clock back, the
    elapsed-time arc and the circular obstruction), mirrors the controller's
    tick payloads, animates the obstruction on the controller's begin and
    complete signals, and turns mouse presses, moves and releases into window
    drags or into one begin/pause request. Animations are modelled by their end
    target only; points are integer pairs, as QPoint is.

    The drag bookkeeping is first described on values (`Gesture`, `Press`,
    `Move`, `ReleaseRequests`) and the reactions to controller signals likewise
    (`Reactive`, `React`, `ReactAll`); the classes below are tied to them. */
module PomodoroClockView {
  import opened PomodoroControl

  datatype Option<T> = None | Some(value: T)

  /** An integer screen point (QPoint), with its component-wise arithmetic. */
  datatype Point = Point(x: int, y: int) {
    function Plus(p: Point): Point { Point(x + p.x, y + p.y) }
    function Minus(p: Point): Point { Point(x - p.x, y - p.y) }
  }

  datatype Button = LeftButton | RightButton | MiddleButton

  /** The view's own signals: pomodoro_begin_requested and pomodoro_pause_requested. */
  datatype Request = BeginRequested | PauseRequested

  /** A QColor, as its four channels. */
  datatype Color = Rgba(red: int, green: int, blue: int, alpha: int)

  const Black := Rgba(0, 0, 0, 255)
  const Red := Rgba(255, 0, 0, 255)
  const Blue := Rgba(0, 0, 255, 255)

  /** End value of show_anim: the obstruction grows over the clock. */
  const ShownThickness: real := 50.0
  /** End value of hide_anim: the obstruction shrinks to nothing. */
  const HiddenThickness: real := 0.0

  // ---------------------------------------------------------------------------
  // Gestures: click versus drag

  /** The view's drag bookkeeping and the window's top-left corner.
      `isDragging` is None until the first press or move (the attribute does not
      exist before then); `dragPosition` is None until the first left press. */
  datatype Gesture = Gesture(isDragging: Option<bool>, dragPosition: Option<Point>, topLeft: Point)

  /** mousePressEvent: forget any earlier move; a left press records where in the window it grabbed. */
  function Press(g: Gesture, button: Button, globalPos: Point): (r: Gesture)
    ensures r.isDragging == Some(false) && r.topLeft == g.topLeft
    ensures button == LeftButton ==> r.dragPosition.Some? && g.topLeft.Plus(r.dragPosition.value) == globalPos
    ensures button != LeftButton ==> r.dragPosition == g.dragPosition
  {
    g.(isDragging := Some(false),
       dragPosition := if button == LeftButton then Some(globalPos.Minus(g.topLeft)) else g.dragPosition)
  }

  /** mouseMoveEvent: every move marks a drag; with the left button held the window
      moves so that the grabbed point stays under the pointer. */
  function Move(g: Gesture, held: set<Button>, globalPos: Point): (r: Gesture)
    requires LeftButton in held ==> g.dragPosition.Some?
    ensures r.isDragging == Some(true) && r.dragPosition == g.dragPosition
    ensures LeftButton in held ==> r.topLeft.Plus(g.dragPosition.value) == globalPos
    ensures LeftButton !in held ==> r.topLeft == g.topLeft
  {
    g.(isDragging := Some(true),
       topLeft := if LeftButton in held then globalPos.Minus(g.dragPosition.value) else g.topLeft)
  }

  /** mouseReleaseEvent: after a drag nothing; after a click exactly one request,
      pause while the controller runs and begin otherwise. */
  function ReleaseRequests(g: Gesture, running: bool): (r: seq<Request>)
    requires g.isDragging.Some?
    ensures |r| <= 1
    ensures r == [] <==> g.isDragging.value
    ensures r == [PauseRequested] <==> !g.isDragging.value && running
    ensures r == [BeginRequested] <==> !g.isDragging.value && !running
  {
    if g.isDragging.value then []
    else if running then [PauseRequested]
    else [BeginRequested]
  }

  /** One mouse move: the buttons held and the pointer's global position. */
  datatype Motion = Motion(held: set<Button>, globalPos: Point)

  /** A series of mouse moves, in order. Only a move that holds the left button
      reads the grab point, so only such a series needs an earlier left press. */
  function Moves(g: Gesture, ms: seq<Motion>): (r: Gesture)
    requires (exists i :: 0 <= i < |ms| && LeftButton in ms[i].held) ==> g.dragPosition.Some?
    ensures r.dragPosition == g.dragPosition
    ensures ms == [] ==> r == g
    ensures ms != [] ==> r.isDragging == Some(true)
    ensures (forall i :: 0 <= i < |ms| ==> LeftButton !in ms[i].held) ==> r.topLeft == g.topLeft
    decreases |ms|
  {
    if ms == [] then g
    else
      assert forall i :: 0 <= i < |ms| - 1 ==> ms[1..][i] == ms[i + 1];
      Moves(Move(g, ms[0].held, ms[0].globalPos), ms[1..])
  }

  /** A final left-button move leaves the grabbed point under the pointer, whatever
      moves came before it. */
  lemma {:induction false} MovesKeepGrab(g: Gesture, ms: seq<Motion>)
    requires (exists i :: 0 <= i < |ms| && LeftButton in ms[i].held) ==> g.dragPosition.Some?
    ensures ms != [] && LeftButton in ms[|ms| - 1].held ==>
              g.dragPosition.Some? &&
              Moves(g, ms).topLeft.Plus(g.dragPosition.value) == ms[|ms| - 1].globalPos
    decreases |ms|
  {
    if ms != [] {
      assert forall i :: 0 <= i < |ms| - 1 ==> ms[1..][i] == ms[i + 1];
      var g1 := Move(g, ms[0].held, ms[0].globalPos);
      MovesKeepGrab(g1, ms[1..]);
      if |ms| > 1 {
        assert ms[1..][|ms[1..]| - 1] == ms[|ms| - 1];
      }
    }
  }

  /** A press and a release with no move in between is a click: exactly one request. */
  lemma ClickRequestsOnce(g: Gesture, button: Button, at: Point, running: bool)
    ensures ReleaseRequests(Press(g, button, at), running) ==
              (if running then [PauseRequested] else [BeginRequested])
  {
  }

  /** A left press followed by any moves and a release: no request at all, and if
      the last move held the left button the window has moved by exactly the
      pointer's displacement since the press. */
  lemma DragMovesWindow(g: Gesture, pressAt: Point, ms: seq<Motion>, running: bool)
    requires ms != []
    ensures Moves(Press(g, LeftButton, pressAt), ms).isDragging == Some(true)
    ensures ReleaseRequests(Moves(Press(g, LeftButton, pressAt), ms), running) == []
    ensures LeftButton in ms[|ms| - 1].held ==>
              Moves(Press(g, LeftButton, pressAt), ms).topLeft ==
              g.topLeft.Plus(ms[|ms| - 1].globalPos.Minus(pressAt))
  {
    MovesKeepGrab(Press(g, LeftButton, pressAt), ms);
  }

  // ---------------------------------------------------------------------------
  // Reactions to the controller's signals

  /** What the view derives from the controller's signals: the obstruction's
      animation target and the mirrored elapsed/remaining seconds. */
  datatype Reactive = Reactive(thicknessTarget: real, elapsed: int, remaining: int)

  /** The obstruction target the view chooses at construction: hidden when the controller runs. */
  function InitialTarget(running: bool): (r: real)
    ensures r == (if running then 0.0 else 50.0)
    ensures r == React(Reactive(ShownThickness, 0, 0), if running then Begin else Complete).thicknessTarget
  {
    if running then HiddenThickness else ShownThickness
  }

  /** The view's reaction to one controller signal. */
  function React(v: Reactive, e: Event): (r: Reactive)
    ensures e == Begin ==> r == Reactive(HiddenThickness, v.elapsed, v.remaining)
    ensures e == Complete ==> r == Reactive(ShownThickness, v.elapsed, v.remaining)
    ensures e.Tick? ==> r == Reactive(v.thicknessTarget, e.elapsed, e.remaining)
  {
    match e
    case Begin => v.(thicknessTarget := HiddenThickness)
    case Complete => v.(thicknessTarget := ShownThickness)
    case Tick(elapsed, remaining) => v.(elapsed := elapsed, remaining := remaining)
  }

  /** The view after reacting to `events`, delivered in order. */
  function ReactAll(v: Reactive, events: seq<Event>): (r: Reactive)
    ensures events == [] ==> r == v
    ensures r.thicknessTarget == v.thicknessTarget || r.thicknessTarget == HiddenThickness ||
            r.thicknessTarget == ShownThickness
    ensures (forall i :: 0 <= i < |events| ==> events[i].Tick?) ==> r.thicknessTarget == v.thicknessTarget
    ensures (forall i :: 0 <= i < |events| ==> !events[i].Tick?) ==>
              r.elapsed == v.elapsed && r.remaining == v.remaining
    ensures events != [] && events[|events| - 1] == Begin ==> r.thicknessTarget == HiddenThickness
    ensures events != [] && events[|events| - 1] == Complete ==> r.thicknessTarget == ShownThickness
    ensures events != [] && events[|events| - 1].Tick? ==>
              r.elapsed == events[|events| - 1].elapsed && r.remaining == events[|events| - 1].remaining
  {
    if events == [] then v else React(ReactAll(v, events[..|events| - 1]), events[|events| - 1])
  }

  /** Throughout a session the obstruction is hidden and the mirror shows the latest tick. */
  lemma {:induction false} ViewDuringSession(v: Reactive, n: int, k: nat)
    ensures ReactAll(v, SessionSoFar(n, k)) == Reactive(HiddenThickness, k, n - k)
  {
    var t := SessionSoFar(n, k);
    if k == 0 {
      assert t[..1] == [Begin];
      assert t[..1][..0] == [];
    } else {
      SessionSoFarExtends(n, k - 1);
      assert t[..|t| - 1] == SessionSoFar(n, k - 1);
      ViewDuringSession(v, n, k - 1);
    }
  }

  /** After a session runs its course the obstruction is shown and the mirror reads (n, 0). */
  lemma ViewAfterSession(v: Reactive, n: int)
    requires n >= 1
    ensures ReactAll(v, SessionSoFar(n, n) + [Complete]) == Reactive(ShownThickness, n, 0)
  {
    var t := SessionSoFar(n, n) + [Complete];
    assert t[..|t| - 1] == SessionSoFar(n, n);
    ViewDuringSession(v, n, n);
  }

  /** The view needs no access to the controller's state: starting from the reaction
      matching whether the controller ran, reacting to its later signals keeps the
      obstruction target matching whether it runs now. */
  lemma {:induction false} ViewTracksRunning(v: Reactive, running: bool, events: seq<Event>)
    requires v.thicknessTarget == InitialTarget(running)
    ensures ReactAll(v, events).thicknessTarget == InitialTarget(RunningAfter(running, events))
    decreases |events|
  {
    if events != [] {
      ViewTracksRunning(v, running, events[..|events| - 1]);
    }
  }

  /** A view built when the controller had emitted `before`, and sent every signal
      emitted since (`after`), shows the obstruction target that matches whether the
      controller's own event history says it is running. */
  lemma ViewMatchesController(v: Reactive, before: seq<Event>, after: seq<Event>)
    requires v.thicknessTarget == InitialTarget(RunningAfter(false, before))
    ensures ReactAll(v, after).thicknessTarget == InitialTarget(RunningAfter(false, before + after))
  {
    ViewTracksRunning(v, RunningAfter(false, before), after);
    RunningAfterAppend(false, before, after);
  }

  // ---------------------------------------------------------------------------
  // The graphics items

  /** A clock hand (ClockHandShape); only its colour is modelled. */
  class ClockHand {
    var color: Color

    constructor ()
      ensures color == Black
    {
      color := Black;
    }

    method SetColor(c: Color)
      modifies this`color
      ensures color == c
    {
      color := c;
    }
  }

  /** The clock face (ClockBack); only its colour is modelled. */
  class ClockBack {
    var color: Color

    constructor ()
      ensures color == Red
    {
      color := Red;
    }

    method SetColor(c: Color)
      modifies this`color
      ensures color == c
    {
      color := c;
    }
  }

  /** The elapsed/remaining arc (TimeElapsedView) with its copy of the latest tick. */
  class TimeElapsedView {
    var color: Color
    var secondsElapsed: int
    var secondsRemaining: int

    constructor ()
      ensures color == Blue && secondsElapsed == 0 && secondsRemaining == 0
    {
      color := Blue;
      secondsElapsed := 0;
      secondsRemaining := 0;
    }

    method SetColor(c: Color)
      modifies this`color
      ensures color == c
    {
      color := c;
    }

    /** update_time: the slot connected to the controller's time_update. */
    method UpdateTime(elapsed: int, remaining: int)
      modifies this`secondsElapsed, this`secondsRemaining
      ensures secondsElapsed == elapsed && secondsRemaining == remaining
    {
      secondsElapsed := elapsed;
      secondsRemaining := remaining;
    }
  }

  /** The circular obstruction (CircleObstruction); its thickness is modelled
      by the end value of the latest animation started on it. */
  class CircleObstruction {
    var color: Color
    var thicknessTarget: real

    constructor (thickness: real)
      ensures color == Blue && thicknessTarget == thickness
    {
      color := Blue;
      thicknessTarget := thickness;
    }

    method SetColor(c: Color)
      modifies this`color
      ensures color == c
    {
      color := c;
    }

    /** show_anim: animate towards the shown thickness. */
    method ShowAnim()
      modifies this`thicknessTarget
      ensures thicknessTarget == ShownThickness
    {
      thicknessTarget := ShownThickness;
    }

    /** hide_anim: animate towards nothing. */
    method HideAnim()
      modifies this`thicknessTarget
      ensures thicknessTarget == HiddenThickness
    {
      thicknessTarget := HiddenThickness;
    }
  }

  /** The overlay view (PomodoroClockView). */
  class ClockView {
    var color: Color
    const hourHand: ClockHand
    const minuteHand: ClockHand
    const clockBack: ClockBack
    const elapsedView: TimeElapsedView
    const obstruction: CircleObstruction
    const control: Control
    var isDragging: Option<bool>
    var dragPosition: Option<Point>
    var topLeft: Point
    /** The requests emitted so far, in order. */
    var requests: seq<Request>

    function GestureState(): Gesture
      reads this
    {
      Gesture(isDragging, dragPosition, topLeft)
    }

    function Mirror(): Reactive
      reads obstruction, elapsedView
    {
      Reactive(obstruction.thicknessTarget, elapsedView.secondsElapsed, elapsedView.secondsRemaining)
    }

    /** Builds the children, paints everything black, and applies the begin or the
        complete reaction according to whether the controller is running. */
    constructor (control: Control, topLeft: Point)
      requires control.Valid()
      ensures this.control == control
      ensures fresh(hourHand) && fresh(minuteHand) && fresh(clockBack) && fresh(elapsedView) && fresh(obstruction)
      ensures color == Black && hourHand.color == Black && minuteHand.color == Black
      ensures clockBack.color == Black && elapsedView.color == Black && obstruction.color == Black
      ensures Mirror() == Reactive(InitialTarget(control.IsRunning()), 0, 0)
      ensures GestureState() == Gesture(None, None, topLeft) && requests == []
    {
      this.control := control;
      hourHand := new ClockHand();
      minuteHand := new ClockHand();
      clockBack := new ClockBack();
      elapsedView := new TimeElapsedView();
      obstruction := new CircleObstruction(0.0);
      color := Black;
      isDragging := None;
      dragPosition := None;
      this.topLeft := topLeft;
      requests := [];
      new;
      SetColor(Black);
      if control.IsRunning() {
        PomodoroBegin();
      } else {
        PomodoroComplete();
      }
    }

    /** set_color: the view and all five children take the colour. */
    method SetColor(c: Color)
      modifies this`color, hourHand`color, minuteHand`color, clockBack`color, elapsedView`color, obstruction`color
      ensures color == c && hourHand.color == c && minuteHand.color == c
      ensures clockBack.color == c && elapsedView.color == c && obstruction.color == c
    {
      color := c;
      hourHand.SetColor(color);
      minuteHand.SetColor(color);
      clockBack.SetColor(color);
      elapsedView.SetColor(color);
      obstruction.SetColor(color);
    }

    /** pomodoro_begin: reveal the clock. */
    method PomodoroBegin()
      modifies obstruction`thicknessTarget
      ensures obstruction.thicknessTarget == HiddenThickness
    {
      obstruction.HideAnim();
    }

    /** pomodoro_complete: cover the clock. */
    method PomodoroComplete()
      modifies obstruction`thicknessTarget
      ensures obstruction.thicknessTarget == ShownThickness
    {
      obstruction.ShowAnim();
    }

    /** Delivery of one controller signal through the connections the view and its
        elapsed-time arc make: begin and complete to the reactions above, ticks to update_time. */
    method Deliver(e: Event)
      modifies obstruction`thicknessTarget, elapsedView`secondsElapsed, elapsedView`secondsRemaining
      ensures Mirror() == React(old(Mirror()), e)
    {
      match e
      case Begin => PomodoroBegin();
      case Complete => PomodoroComplete();
      case Tick(elapsed, remaining) => elapsedView.UpdateTime(elapsed, remaining);
    }

    /** mousePressEvent. */
    method MousePress(button: Button, globalPos: Point)
      modifies this`isDragging, this`dragPosition
      ensures GestureState() == Press(old(GestureState()), button, globalPos)
    {
      isDragging := Some(false);
      if button == LeftButton {
        dragPosition := Some(globalPos.Minus(topLeft));
      }
    }

    /** mouseMoveEvent; a left-button move before any left press has no grab point to use. */
    method MouseMove(held: set<Button>, globalPos: Point)
      requires LeftButton in held ==> dragPosition.Some?
      modifies this`isDragging, this`topLeft
      ensures GestureState() == Move(old(GestureState()), held, globalPos)
    {
      isDragging := Some(true);
      if LeftButton in held {
        topLeft := globalPos.Minus(dragPosition.value);
      }
    }

    /** mouseReleaseEvent; a release before the first press or move has no drag flag to read. */
    method MouseRelease()
      requires isDragging.Some? && control.Valid()
      modifies this`requests
      ensures requests == old(requests) + ReleaseRequests(GestureState(), control.IsRunning())
    {
      if !isDragging.value {
        if control.IsRunning() {
          requests := requests + [PauseRequested];
        } else {
          requests := requests + [BeginRequested];
        }
      }
    }
  }
}
