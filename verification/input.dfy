/** Input forwarded from the mirror window to the device: a pointer on the
    video canvas becomes a touch command in device pixels, and the back and
    home buttons become key sequences on the control channel.

    A command is the value handed to the controller. A rejected touch is
    caught and logged; the back and home handlers catch nothing, so a
    rejected key-down ends the handler, as an unhandled promise rejection,
    before its key-up is handed over.
    Whether a key send is accepted is therefore an input. Positions are
    `real`s: the mapping is exact arithmetic, with the non-finite values a
    division by a zero-sized rectangle produces kept apart. */
module MirrorInput {

  datatype Point = Point(x: real, y: real)

  /** A JavaScript number as far as the mapping needs one. */
  datatype Number = Finite(value: real) | PosInf | NegInf | NaN

  /** `(offset / extent) * size` with JavaScript's rules for a zero divisor
      and for infinity times zero. */
  function Scale(offset: real, extent: real, size: nat): (n: Number)
    ensures extent != 0.0 ==> n == Finite(offset / extent * size as real)
    ensures extent == 0.0 && offset == 0.0 ==> n == NaN
    ensures extent == 0.0 && offset != 0.0 && size == 0 ==> n == NaN
    ensures extent == 0.0 && size > 0 && offset > 0.0 ==> n == PosInf
    ensures extent == 0.0 && size > 0 && offset < 0.0 ==> n == NegInf
  {
    if extent != 0.0 then Finite(offset / extent * size as real)
    else if offset == 0.0 || size == 0 then NaN
    else if offset > 0.0 then PosInf
    else NegInf
  }

  /** The canvas's bounding rectangle in client coordinates. */
  datatype Rect = Rect(left: real, top: real, width: real, height: real)

  /** `offsetX < 0 || offsetX > rect.width || …` is false. */
  predicate Inside(r: Rect, p: Point) {
    0.0 <= p.x - r.left <= r.width && 0.0 <= p.y - r.top <= r.height
  }

  datatype MotionAction = Down | Up | Move

  /** A mouse event carries one position; a touch event carries the active
      touches and the touches that changed. */
  datatype PointerEvent =
    | Mouse(client: Point)
    | Touch(touches: seq<Point>, changedTouches: seq<Point>)

  /** What `injectTouch` reads besides the event: whether the client has a
      controller, whether a renderer exists, the decoded video size, and the
      canvas rectangle. */
  datatype Controls = Controls(hasController: bool, hasRenderer: bool,
                               videoWidth: nat, videoHeight: nat, rect: Rect)

  /** The guard at the top of `injectTouch`. */
  predicate Ready(c: Controls) {
    c.hasController && c.videoWidth != 0 && c.hasRenderer
  }

  datatype TouchCommand = TouchCommand(
    action: MotionAction,
    pointerId: int,
    pointerX: Number,
    pointerY: Number,
    videoWidth: nat,
    videoHeight: nat,
    pressure: real,
    actionButton: int,
    buttons: int)

  /** `Threw` is the `TypeError` of reading `clientX` from an undefined touch:
      an `Up` touch event with neither active nor changed touches. */
  datatype TouchResult = Sent(command: TouchCommand) | Skipped | Threw

  /** Where `injectTouch` takes the position from: the event itself, no
      position (`Skip`, the early return), or an undefined touch. */
  datatype Located = At(p: Point) | Skip | Undefined

  /** `injectTouch(action, e)`. */
  function InjectTouch(c: Controls, action: MotionAction, e: PointerEvent): (r: TouchResult)
    ensures !Ready(c) ==> r == Skipped
    ensures Ready(c) && e.Touch? && |e.touches| == 0 && action != Up ==> r == Skipped
    ensures Ready(c) && e.Touch? && |e.touches| == 0 && |e.changedTouches| == 0 && action == Up ==>
      r == Threw
    ensures r.Sent? ==>
      && r.command.action == action
      && r.command.pointerId == 0
      && r.command.pressure == 1.0
      && r.command.actionButton == 0
      && r.command.buttons == 0
      && r.command.videoWidth == c.videoWidth
      && r.command.videoHeight == c.videoHeight
  {
    if !Ready(c) then Skipped
    else
      var located :=
        match e
        case Mouse(p) => At(p)
        case Touch(ts, cs) =>
          if |ts| == 0 && action != Up then Skip
          else if |ts| > 0 then At(ts[0])
          else if |cs| > 0 then At(cs[0])
          else Undefined;
      match located
      case Skip => Skipped
      case Undefined => Threw
      case At(p) =>
        var offsetX := p.x - c.rect.left;
        var offsetY := p.y - c.rect.top;
        var x := Scale(offsetX, c.rect.width, c.videoWidth);
        var y := Scale(offsetY, c.rect.height, c.videoHeight);
        if offsetX < 0.0 || offsetX > c.rect.width || offsetY < 0.0 || offsetY > c.rect.height then
          Skipped
        else
          Sent(TouchCommand(action, 0, x, y, c.videoWidth, c.videoHeight, 1.0, 0, 0))
  }

  /** The position the source reads from an event, when there is one: the
      mouse position, or the first active touch, or failing that the first
      changed touch of an `Up`. */
  predicate PrimaryPointer(action: MotionAction, e: PointerEvent, p: Point) {
    match e
    case Mouse(q) => p == q
    case Touch(ts, cs) =>
      if |ts| > 0 then p == ts[0]
      else action == Up && |cs| > 0 && p == cs[0]
  }

  /** A command is sent exactly when the controls are ready and the event's
      position lies inside the canvas rectangle. */
  lemma SentIff(c: Controls, action: MotionAction, e: PointerEvent)
    ensures InjectTouch(c, action, e).Sent? <==>
      Ready(c) && exists p :: PrimaryPointer(action, e, p) && Inside(c.rect, p)
  {
    if e.Touch? && |e.touches| == 0 && action == Up && |e.changedTouches| > 0 {
      assert PrimaryPointer(action, e, e.changedTouches[0]);
    } else if e.Touch? && |e.touches| > 0 {
      assert PrimaryPointer(action, e, e.touches[0]);
    } else if e.Mouse? {
      assert PrimaryPointer(action, e, e.client);
    }
  }

  /** For a rectangle of positive size, a sent command's position lies within
      the video frame, `0 ≤ x ≤ videoWidth` and `0 ≤ y ≤ videoHeight`. */
  lemma SentWithinVideo(c: Controls, action: MotionAction, e: PointerEvent)
    requires c.rect.width > 0.0 && c.rect.height > 0.0
    requires InjectTouch(c, action, e).Sent?
    ensures var cmd := InjectTouch(c, action, e).command;
      && cmd.pointerX.Finite? && 0.0 <= cmd.pointerX.value <= c.videoWidth as real
      && cmd.pointerY.Finite? && 0.0 <= cmd.pointerY.value <= c.videoHeight as real
  {
    SentIff(c, action, e);
    var p :| PrimaryPointer(action, e, p) && Inside(c.rect, p);
    SentFrom(c, action, e, p);
    FractionWithin(p.x - c.rect.left, c.rect.width, c.videoWidth);
    FractionWithin(p.y - c.rect.top, c.rect.height, c.videoHeight);
  }

  /** The command sent for the event's primary pointer `p` inside the canvas:
      its offsets in the rectangle, scaled to the video. */
  lemma SentFrom(c: Controls, action: MotionAction, e: PointerEvent, p: Point)
    requires Ready(c) && PrimaryPointer(action, e, p) && Inside(c.rect, p)
    ensures InjectTouch(c, action, e) == Sent(TouchCommand(action, 0,
      Scale(p.x - c.rect.left, c.rect.width, c.videoWidth),
      Scale(p.y - c.rect.top, c.rect.height, c.videoHeight),
      c.videoWidth, c.videoHeight, 1.0, 0, 0))
  {
  }

  lemma FractionWithin(offset: real, extent: real, size: nat)
    requires 0.0 <= offset <= extent && extent > 0.0
    ensures 0.0 <= offset / extent * size as real <= size as real
  {
    assert offset / extent <= 1.0;
  }

  /** On a zero-width canvas the only position inside is its left edge, and
      the command then carries `NaN` as its x coordinate. */
  lemma ZeroWidthSendsNaN(c: Controls, action: MotionAction, p: Point)
    requires Ready(c) && c.rect.width == 0.0 && Inside(c.rect, p)
    ensures InjectTouch(c, action, Mouse(p)).Sent?
    ensures InjectTouch(c, action, Mouse(p)).command.pointerX == NaN
  {
  }

  /** The mapping back from device pixels to client coordinates. */
  function ToClient(r: Rect, videoWidth: nat, videoHeight: nat, x: real, y: real): Point
    requires videoWidth > 0 && videoHeight > 0
  {
    Point(r.left + x / videoWidth as real * r.width, r.top + y / videoHeight as real * r.height)
  }

  /** A mouse position inside a canvas of positive size is recovered from the
      command sent for it, so distinct positions give distinct commands. */
  lemma MappingInverts(c: Controls, action: MotionAction, p: Point)
    requires Ready(c) && c.videoHeight > 0 && c.rect.width > 0.0 && c.rect.height > 0.0
    requires Inside(c.rect, p)
    ensures var r := InjectTouch(c, action, Mouse(p));
      && r.Sent? && r.command.pointerX.Finite? && r.command.pointerY.Finite?
      && ToClient(c.rect, c.videoWidth, c.videoHeight,
                  r.command.pointerX.value, r.command.pointerY.value) == p
  {
    Rescale(p.x - c.rect.left, c.rect.width, c.videoWidth);
    Rescale(p.y - c.rect.top, c.rect.height, c.videoHeight);
  }

  lemma Rescale(offset: real, extent: real, size: nat)
    requires extent > 0.0 && size > 0
    ensures (offset / extent * size as real) / size as real * extent == offset
  {
    var f := offset / extent;
    assert f * size as real / size as real == f;
  }

  /** A point at fraction `(fx, fy)` of the canvas lands at the same fraction
      of the video frame. */
  lemma FractionPreserved(c: Controls, action: MotionAction, fx: real, fy: real)
    requires Ready(c) && c.rect.width > 0.0 && c.rect.height > 0.0
    requires 0.0 <= fx <= 1.0 && 0.0 <= fy <= 1.0
    ensures var p := Point(c.rect.left + fx * c.rect.width, c.rect.top + fy * c.rect.height);
      var r := InjectTouch(c, action, Mouse(p));
      && r.Sent?
      && r.command.pointerX == Finite(fx * c.videoWidth as real)
      && r.command.pointerY == Finite(fy * c.videoHeight as real)
  {
    var p := Point(c.rect.left + fx * c.rect.width, c.rect.top + fy * c.rect.height);
    FractionOffset(fx, c.rect.width);
    FractionOffset(fy, c.rect.height);
    assert p.x - c.rect.left == fx * c.rect.width;
    assert p.y - c.rect.top == fy * c.rect.height;
    assert Inside(c.rect, p);
    assert (p.x - c.rect.left) / c.rect.width == fx;
    assert (p.y - c.rect.top) / c.rect.height == fy;
    assert Scale(p.x - c.rect.left, c.rect.width, c.videoWidth) == Finite(fx * c.videoWidth as real);
    assert Scale(p.y - c.rect.top, c.rect.height, c.videoHeight) == Finite(fy * c.videoHeight as real);
  }

  lemma FractionOffset(f: real, extent: real)
    requires 0.0 <= f <= 1.0 && extent > 0.0
    ensures 0.0 <= f * extent <= extent
    ensures f * extent / extent == f
  {
  }

  // ---------------------------------------------------------------------------
  // Navigation keys
  // ---------------------------------------------------------------------------

  datatype KeyAction = KeyDown | KeyUp

  datatype ControlMessage =
    | InjectKeyCode(action: KeyAction, keyCode: int, repeat: int, metaState: int)
    | BackOrScreenOn(action: KeyAction)

  /** Android's `KEYCODE_BACK`. */
  const KeycodeBack: int := 4

  /** The same message with its action replaced. */
  function WithAction(m: ControlMessage, a: KeyAction): ControlMessage {
    match m
    case InjectKeyCode(_, k, r, s) => InjectKeyCode(a, k, r, s)
    case BackOrScreenOn(_) => BackOrScreenOn(a)
  }

  /** A key press: the key going down and then the same key coming up. */
  predicate IsKeyPress(msgs: seq<ControlMessage>) {
    && |msgs| == 2
    && msgs[0].action == KeyDown
    && msgs[1] == WithAction(msgs[0], KeyUp)
  }

  /** `handleBack`: nothing without a controller. The key-up follows only
      when the controller accepted the key-down. */
  function Back(hasController: bool, downAccepted: bool): (msgs: seq<ControlMessage>)
    ensures !hasController ==> msgs == []
    ensures hasController ==> |msgs| > 0 && msgs[0] == InjectKeyCode(KeyDown, KeycodeBack, 0, 0)
    ensures hasController ==> (IsKeyPress(msgs) <==> downAccepted)
    ensures hasController && !downAccepted ==> |msgs| == 1
  {
    if !hasController then []
    else if downAccepted then
      [InjectKeyCode(KeyDown, KeycodeBack, 0, 0), InjectKeyCode(KeyUp, KeycodeBack, 0, 0)]
    else [InjectKeyCode(KeyDown, KeycodeBack, 0, 0)]
  }

  /** `handleHome`: the composite back-or-screen-on action, pressed and then
      released when the press was accepted; nothing without a controller. */
  function Home(hasController: bool, downAccepted: bool): (msgs: seq<ControlMessage>)
    ensures !hasController ==> msgs == []
    ensures hasController ==> |msgs| > 0 && msgs[0] == BackOrScreenOn(KeyDown)
    ensures hasController ==> (IsKeyPress(msgs) <==> downAccepted)
    ensures hasController && !downAccepted ==> |msgs| == 1
  {
    if !hasController then []
    else if downAccepted then [BackOrScreenOn(KeyDown), BackOrScreenOn(KeyUp)]
    else [BackOrScreenOn(KeyDown)]
  }

  /** How many key-down messages were handed to the controller with no
      key-up after them. */
  function Held(msgs: seq<ControlMessage>): int
    decreases |msgs|
  {
    if |msgs| == 0 then 0
    else (if msgs[0].action == KeyDown then 1 else -1) + Held(msgs[1..])
  }

  lemma {:induction false} HeldAppend(a: seq<ControlMessage>, b: seq<ControlMessage>)
    ensures Held(a + b) == Held(a) + Held(b)
    decreases |a|
  {
    if |a| == 0 {
      assert a + b == b;
    } else {
      assert (a + b)[1..] == a[1..] + b;
      HeldAppend(a[1..], b);
    }
  }

  /** A click on the back (`back`) or home button, and whether the
      controller accepted its key-down. */
  datatype Click = Click(back: bool, downAccepted: bool)

  /** The messages of a run of clicks. */
  function Presses(clicks: seq<Click>, hasController: bool): seq<ControlMessage>
    decreases |clicks|
  {
    if |clicks| == 0 then []
    else
      var c := clicks[0];
      (if c.back then Back(hasController, c.downAccepted) else Home(hasController, c.downAccepted))
      + Presses(clicks[1..], hasController)
  }

  /** How many clicks had their key-down rejected. */
  function Rejected(clicks: seq<Click>): (n: nat)
    ensures n <= |clicks|
    decreases |clicks|
  {
    if |clicks| == 0 then 0
    else (if clicks[0].downAccepted then 0 else 1) + Rejected(clicks[1..])
  }

  /** With a controller, the key-downs handed over with no key-up following
      are exactly the clicks whose key-down was rejected. */
  lemma {:induction false} ButtonsReleaseKeys(clicks: seq<Click>, hasController: bool)
    ensures Held(Presses(clicks, hasController)) == if hasController then Rejected(clicks) else 0
    decreases |clicks|
  {
    if |clicks| > 0 {
      var c := clicks[0];
      var first := if c.back then Back(hasController, c.downAccepted) else Home(hasController, c.downAccepted);
      HeldAppend(first, Presses(clicks[1..], hasController));
      ButtonsReleaseKeys(clicks[1..], hasController);
      if hasController {
        assert first[1..] == [] || first[1..] == [first[1]];
      }
    }
  }

  /** No rejection means no rejected click, and back. */
  lemma {:induction false} RejectedZero(clicks: seq<Click>)
    ensures Rejected(clicks) == 0 <==> forall k :: 0 <= k < |clicks| ==> clicks[k].downAccepted
    decreases |clicks|
  {
    if |clicks| > 0 {
      RejectedZero(clicks[1..]);
      assert forall k :: 1 <= k < |clicks| ==> clicks[k] == clicks[1..][k - 1];
    }
  }

  /** Every key-down handed over is followed by its key-up exactly when
      there is no controller or the controller accepted every key-down. */
  lemma KeysReleasedIff(clicks: seq<Click>, hasController: bool)
    ensures Held(Presses(clicks, hasController)) == 0 <==>
      !hasController || forall k :: 0 <= k < |clicks| ==> clicks[k].downAccepted
  {
    ButtonsReleaseKeys(clicks, hasController);
    RejectedZero(clicks);
  }
}
