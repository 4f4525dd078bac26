/** The mutable state behind the animation, seen as a state machine: the
    pointer position (last write wins, starting at the canvas origin) and the
    ripple store. Mouse moves overwrite the pointer, clicks spawn ripples and
    every frame prunes the store after drawing. The clock readings are event
    parameters.
 */
module Background {
  import opened RippleStore
  import HexGrid
  import Styling

  type Point = HexGrid.Point

  datatype State = State(pointer: Point, ripples: seq<Ripple>)

  /** `now` is the click handler's clock reading; `time` is the timestamp the
      frame callback receives. */
  datatype Event =
    | MouseMove(x: real, y: real)
    | Click(x: real, y: real, now: real)
    | Frame(time: real)

  /** Before any event the pointer sits at the canvas origin and no ripple
      exists. */
  const Init: State := State(HexGrid.Point(0.0, 0.0), [])

  function Step(s: State, e: Event): (s': State)
    ensures |s.ripples| <= Cap ==> |s'.ripples| <= Cap
    ensures !e.MouseMove? ==> s'.pointer == s.pointer
    ensures e.MouseMove? ==> s'.pointer == HexGrid.Point(e.x, e.y) && s'.ripples == s.ripples
    ensures e.Click? ==> s'.ripples == Spawn(s.ripples, Ripple(e.x, e.y, e.now))
    ensures e.Frame? ==> s'.ripples == Prune(s.ripples, e.time)
  {
    match e
    case MouseMove(x, y) => s.(pointer := HexGrid.Point(x, y))
    case Click(x, y, now) => s.(ripples := Spawn(s.ripples, Ripple(x, y, now)))
    case Frame(time) => s.(ripples := Prune(s.ripples, time))
  }

  /** The state after a sequence of events, starting from `Init`. The pointer
      is the origin sentinel or the position of some mouse move. */
  function Run(events: seq<Event>): (s: State)
    ensures s.pointer == Init.pointer ||
            exists i :: 0 <= i < |events| && events[i] == MouseMove(s.pointer.x, s.pointer.y)
    decreases |events|
  {
    if |events| == 0 then Init else Step(Run(events[..|events| - 1]), events[|events| - 1])
  }

  /** The store never holds more than `Cap` ripples. */
  lemma {:induction false} RunBounded(events: seq<Event>)
    ensures |Run(events).ripples| <= Cap
    decreases |events|
  {
    if |events| > 0 {
      RunBounded(events[..|events| - 1]);
    }
  }

  /** Every stored ripple is one some click created. */
  lemma {:induction false} RipplesComeFromClicks(events: seq<Event>)
    ensures forall r :: r in Run(events).ripples ==>
              exists i :: 0 <= i < |events| && events[i] == Click(r.x, r.y, r.startTime)
    decreases |events|
  {
    if |events| > 0 {
      var n := |events| - 1;
      var init := events[..n];
      RipplesComeFromClicks(init);
      var before := Run(init).ripples;
      var after := Run(events).ripples;
      assert Run(events) == Step(Run(init), events[n]);
      match events[n]
      case MouseMove(_, _) =>
        assert after == before;
      case Frame(time) =>
        assert after == Prune(before, time);
      case Click(x, y, now) =>
        SpawnMembers(before, Ripple(x, y, now));
      forall r | r in after
        ensures exists i :: 0 <= i < |events| && events[i] == Click(r.x, r.y, r.startTime)
      {
        if r in before {
          var i :| 0 <= i < |init| && init[i] == Click(r.x, r.y, r.startTime);
          assert events[i] == init[i];
        } else {
          assert events[n] == Click(r.x, r.y, r.startTime);
        }
      }
    }
  }

  /** One cell as a frame draws it. */
  datatype Drawn = Drawn(cell: HexGrid.Cell, style: Styling.Style)

  /** Distance from a cell centre to each ripple origin, under the metric
      `dist`. */
  function RippleDist(dist: (Point, Point) -> real, centre: Point): Ripple -> real {
    (r: Ripple) => dist(centre, HexGrid.Point(r.x, r.y))
  }

  /** The style a frame gives the cell centred at `centre`. */
  function StyleAt(s: State, dist: (Point, Point) -> real, centre: Point, time: real): Styling.Style {
    Styling.CellStyle(dist(centre, s.pointer), s.ripples, RippleDist(dist, centre), time)
  }

  /** One animation frame: style every grid cell in row-major order from the
      current pointer and store, then prune the store. `dist` stands for the
      Euclidean distance the frame computes with a square root. */
  method RenderFrame(s: State, width: nat, height: nat, dist: (Point, Point) -> real, time: real)
    returns (frame: seq<Drawn>, next: State)
    ensures |frame| == (HexGrid.Rows(height) + 1) * (HexGrid.Cols(width) + 1)
    ensures forall c :: HexGrid.InGrid(c, width, height) <==>
              exists i :: 0 <= i < |frame| && frame[i].cell == c
    ensures forall i, j :: 0 <= i < j < |frame| ==> HexGrid.Before(frame[i].cell, frame[j].cell)
    ensures forall i :: 0 <= i < |frame| ==>
              frame[i].style == StyleAt(s, dist, HexGrid.Centre(frame[i].cell), time)
    ensures (forall p, q :: dist(p, q) >= 0.0) ==>
              forall i :: 0 <= i < |frame| ==>
                Styling.BaseScale <= frame[i].style.scale <= Styling.BaseScale + Styling.RippleBump
    ensures next.pointer == s.pointer
    ensures next.ripples == Prune(s.ripples, time)
  {
    var cells := HexGrid.GridCells(width, height);
    frame := [];
    var k := 0;
    while k < |cells|
      invariant 0 <= k <= |cells|
      invariant |frame| == k
      invariant forall i :: 0 <= i < k ==> frame[i].cell == cells[i]
      invariant forall i :: 0 <= i < k ==>
                  frame[i].style == StyleAt(s, dist, HexGrid.Centre(frame[i].cell), time)
      invariant (forall p, q :: dist(p, q) >= 0.0) ==>
                  forall i :: 0 <= i < k ==>
                    Styling.BaseScale <= frame[i].style.scale <= Styling.BaseScale + Styling.RippleBump
    {
      var centre := HexGrid.Centre(cells[k]);
      var style := StyleAt(s, dist, centre, time);
      if forall p, q :: dist(p, q) >= 0.0 {
        Styling.CellScaleBounds(dist(centre, s.pointer), s.ripples, RippleDist(dist, centre), time);
      }
      frame := frame + [Drawn(cells[k], style)];
      k := k + 1;
    }
    forall c | HexGrid.InGrid(c, width, height)
      ensures exists i :: 0 <= i < |frame| && frame[i].cell == c
    {
      var i :| 0 <= i < |cells| && cells[i] == c;
      assert frame[i].cell == c;
    }
    next := Step(s, Frame(time));
  }

  /** The pointer is where the last mouse move put it. */
  lemma {:induction false} PointerIsLastMove(events: seq<Event>, i: nat)
    requires i < |events| && events[i].MouseMove?
    requires forall j :: i < j < |events| ==> !events[j].MouseMove?
    ensures Run(events).pointer == HexGrid.Point(events[i].x, events[i].y)
    decreases |events|
  {
    var n := |events| - 1;
    if i < n {
      var init := events[..n];
      assert init[i] == events[i];
      PointerIsLastMove(init, i);
      assert Run(events) == Step(Run(init), events[n]);
      assert !events[n].MouseMove?;
    }
  }

  /** Without any mouse move the pointer stays at the origin sentinel. */
  lemma {:induction false} PointerSentinel(events: seq<Event>)
    requires forall j :: 0 <= j < |events| ==> !events[j].MouseMove?
    ensures Run(events).pointer == HexGrid.Point(0.0, 0.0)
    decreases |events|
  {
    if |events| > 0 {
      PointerSentinel(events[..|events| - 1]);
    }
  }
}
