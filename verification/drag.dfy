/** Dragging the mirror window by its title bar. A mouse-down on the drag
    handle records the pointer and the current offset and starts listening to
    window-wide moves; each move recomputes the offset and asks for one
    animation frame if none is pending; the frame applies the latest offset.
    A mouse-up cancels a pending frame and applies the offset at once, and
    unmounting cancels the pending frame.

    The browser's frame scheduler is part of the state: `pending` is the set of
    frame ids requested and neither fired nor cancelled, and `nextId` is the
    id the next request returns (ids are positive, as `requestAnimationFrame`
    promises). The DOM transform is `applied`; it is only written while the
    window is `mounted`. */
module MirrorDrag {

  datatype Point = Point(x: real, y: real)

  function Add(a: Point, b: Point): Point {
    Point(a.x + b.x, a.y + b.y)
  }

  function Sub(a: Point, b: Point): Point {
    Point(a.x - b.x, a.y - b.y)
  }

  const Origin: Point := Point(0.0, 0.0)

  datatype Gesture = Gesture(
    start: Point,       // pointer position at mouse-down
    current: Point,     // offset most recently computed
    last: Point,        // offset at mouse-down
    frameId: nat,       // id of the requested frame, 0 when none
    pending: set<nat>,  // frames requested and still to fire
    nextId: nat,        // id the scheduler hands out next
    listening: bool,    // the window move/up listeners are registered
    dragging: bool,     // `isDraggingState`
    applied: Point,     // the offset in the container's transform
    mounted: bool)      // the container element exists

  function Initial(): Gesture {
    Gesture(Origin, Origin, Origin, 0, {}, 1, false, false, Origin, true)
  }

  /** The state every reachable gesture keeps: at most one frame is pending
      and it is the one `frameId` names; while mounted a frame is pending
      exactly when `frameId` is set, and with none pending the window shows
      the latest offset; once unmounted nothing is pending or listened to. */
  predicate Inv(g: Gesture) {
    && g.nextId >= 1
    && g.frameId < g.nextId
    && g.pending <= {g.frameId}
    && 0 !in g.pending
    && (g.mounted ==> (g.frameId != 0 <==> g.frameId in g.pending))
    && (g.mounted && g.frameId == 0 ==> g.applied == g.current)
    && (!g.mounted ==> !g.listening && g.pending == {})
  }

  /** `updatePosition`: write the latest offset and clear `frameId`; without a
      container it does nothing at all. */
  function UpdatePosition(g: Gesture): (r: Gesture)
    ensures g.mounted ==> r.applied == g.current && r.frameId == 0
    ensures !g.mounted ==> r == g
    ensures r.current == g.current && r.pending == g.pending && r.nextId == g.nextId
  {
    if g.mounted then g.(applied := g.current, frameId := 0) else g
  }

  /** `handleMouseDown`: only a press inside the drag handle starts a drag. */
  function MouseDown(g: Gesture, onHandle: bool, p: Point): (r: Gesture)
    ensures !onHandle ==> r == g
    ensures onHandle ==> r.start == p && r.last == g.current && r.listening && r.dragging
    ensures onHandle ==> r.current == g.current && r.applied == g.applied && r.pending == g.pending
  {
    if onHandle then g.(dragging := true, start := p, last := g.current, listening := true)
    else g
  }

  /** `handleGlobalMouseMove`: the new offset is the offset at mouse-down plus
      the pointer's travel since then; a frame is requested only if none is. */
  function MouseMove(g: Gesture, p: Point): (r: Gesture)
    ensures !g.listening ==> r == g
    ensures g.listening ==> r.current == Add(g.last, Sub(p, g.start))
    ensures g.listening && g.frameId == 0 ==>
      r.frameId == g.nextId && r.pending == g.pending + {g.nextId} && r.nextId == g.nextId + 1
    ensures g.listening && g.frameId != 0 ==>
      r.frameId == g.frameId && r.pending == g.pending && r.nextId == g.nextId
    ensures r.applied == g.applied && r.start == g.start && r.last == g.last
    ensures r.listening == g.listening && r.mounted == g.mounted
  {
    if !g.listening then g
    else
      var moved := g.(current := Add(g.last, Sub(p, g.start)));
      if moved.frameId == 0 then
        moved.(frameId := g.nextId, pending := g.pending + {g.nextId}, nextId := g.nextId + 1)
      else moved
  }

  /** The scheduler runs the frame with id `id`, if it is still pending. */
  function FrameFires(g: Gesture, id: nat): (r: Gesture)
    ensures id !in g.pending ==> r == g
    ensures id in g.pending ==> id !in r.pending
    ensures id in g.pending && g.mounted ==> r.applied == g.current && r.frameId == 0
  {
    if id in g.pending then UpdatePosition(g.(pending := g.pending - {id})) else g
  }

  /** `handleGlobalMouseUp`: stop dragging and listening; a pending frame is
      cancelled and the offset applied straight away. */
  function MouseUp(g: Gesture): (r: Gesture)
    ensures !g.listening ==> r == g
    ensures g.listening ==> !r.listening && !r.dragging
    ensures g.listening && g.frameId != 0 ==> g.frameId !in r.pending && r.frameId == 0
    ensures g.listening && g.frameId == 0 ==> r.pending == g.pending && r.applied == g.applied
    ensures r.current == g.current
  {
    if !g.listening then g
    else
      var released := g.(dragging := false, listening := false);
      if released.frameId != 0 then
        UpdatePosition(released.(pending := released.pending - {released.frameId}, frameId := 0))
      else released
  }

  /** The effect cleanup on unmount: listeners go and a pending frame is
      cancelled; `frameId` itself is left as it was. */
  function Unmount(g: Gesture): (r: Gesture)
    ensures !r.mounted && !r.listening
    ensures r.pending == if g.frameId != 0 then g.pending - {g.frameId} else g.pending
    ensures r.frameId == g.frameId && r.current == g.current && r.applied == g.applied
  {
    var cancelled := if g.frameId != 0 then g.pending - {g.frameId} else g.pending;
    g.(listening := false, pending := cancelled, mounted := false)
  }

  /** The events a gesture reacts to. */
  datatype Event =
    | Down(onHandle: bool, at: Point)
    | Move(to: Point)
    | Frame(id: nat)
    | Up
    | Unmounted

  /** One event. A press can only land on the handle while it is rendered,
      so after unmounting no press is on the handle. */
  function Next(g: Gesture, e: Event): Gesture {
    match e
    case Down(onHandle, at) => MouseDown(g, onHandle && g.mounted, at)
    case Move(to) => MouseMove(g, to)
    case Frame(id) => FrameFires(g, id)
    case Up => MouseUp(g)
    case Unmounted => Unmount(g)
  }

  function Run(g: Gesture, es: seq<Event>): Gesture
    decreases |es|
  {
    if |es| == 0 then g else Run(Next(g, es[0]), es[1..])
  }

  lemma InitialInv()
    ensures Inv(Initial())
  {
  }

  /** Every event keeps the invariant. */
  lemma NextInv(g: Gesture, e: Event)
    requires Inv(g)
    ensures Inv(Next(g, e))
  {
    match e
    case Down(onHandle, at) =>
    case Move(to) =>
    case Frame(id) =>
    case Up =>
    case Unmounted =>
  }

  /** The invariant holds after any sequence of events from the initial state. */
  lemma {:induction false} RunInv(g: Gesture, es: seq<Event>)
    requires Inv(g)
    ensures Inv(Run(g, es))
    decreases |es|
  {
    if |es| > 0 {
      NextInv(g, es[0]);
      RunInv(Next(g, es[0]), es[1..]);
    }
  }

  /** At most one frame is ever pending, and a pending frame means the window
      is still mounted. */
  lemma AtMostOnePending(es: seq<Event>)
    ensures |Run(Initial(), es).pending| <= 1
    ensures Run(Initial(), es).pending != {} ==> Run(Initial(), es).mounted
  {
    InitialInv();
    RunInv(Initial(), es);
    var g := Run(Initial(), es);
    if g.pending != {} {
      assert g.pending == {g.frameId};
    }
  }

  /** A press on the handle followed by a move puts the window at its offset
      before the press plus the pointer's travel; a move back to the press
      point leaves the offset where it was. */
  lemma DragOffset(g: Gesture, s: Point, p: Point)
    ensures MouseMove(MouseDown(g, true, s), p).current == Add(g.current, Sub(p, s))
    ensures MouseMove(MouseDown(g, true, s), s).current == g.current
  {
  }

  /** A run of moves. */
  function Moves(g: Gesture, ps: seq<Point>): Gesture
    decreases |ps|
  {
    if |ps| == 0 then g else Moves(MouseMove(g, ps[0]), ps[1..])
  }

  /** Moves are coalesced: however many arrive, at most one frame is
      requested, the offset is the one the last move computed, and what the
      window shows does not change until the frame fires. */
  lemma {:induction false} MovesCoalesce(g: Gesture, ps: seq<Point>)
    requires Inv(g) && g.listening
    ensures var r := Moves(g, ps);
      && Inv(r) && r.listening && r.applied == g.applied
      && r.nextId <= g.nextId + 1
      && (g.frameId != 0 ==> r.frameId == g.frameId && r.nextId == g.nextId)
      && (|ps| > 0 ==> r.frameId != 0 && r.current == Add(g.last, Sub(ps[|ps| - 1], g.start)))
      && (|ps| == 0 ==> r == g)
    decreases |ps|
  {
    if |ps| > 0 {
      var g1 := MouseMove(g, ps[0]);
      assert Inv(g1);
      MovesCoalesce(g1, ps[1..]);
      if |ps| > 1 {
        assert ps[1..][|ps[1..]| - 1] == ps[|ps| - 1];
      }
    }
  }

  /** The frame that fires after a burst of moves shows the last offset. */
  lemma FrameShowsLatest(g: Gesture, ps: seq<Point>)
    requires Inv(g) && g.listening && |ps| > 0
    ensures var r := Moves(g, ps);
      var f := FrameFires(r, r.frameId);
      f.applied == Add(g.last, Sub(ps[|ps| - 1], g.start)) && f.frameId == 0 && f.pending == {}
  {
    MovesCoalesce(g, ps);
  }

  /** Releasing the mouse leaves nothing pending and the window showing the
      last computed offset. */
  lemma UpFlushes(g: Gesture)
    requires Inv(g) && g.listening
    ensures var r := MouseUp(g);
      r.frameId == 0 && r.pending == {} && r.applied == g.current && r.current == g.current
      && Inv(r)
  {
  }
}
