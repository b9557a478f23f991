/**
 * What the scrolling views have in common: a detector that remembers on
 * which side of a boundary the view was last reported and calls back only
 * when a report arrives on a side from elsewhere, and the accumulated touch
 * travel that decides whether a gesture is horizontal.
 */
module Scrolling {
  import opened JavaLang

  /**
   * Where the last report put the view: at the top (or above a marker), at
   * the bottom (or below a marker), or in between.
   */
  datatype Side = Top | Bottom | Middle

  /** The callback a detector fires: onTop / onBottom and their marker counterparts. */
  datatype Crossing = ToTop | ToBottom

  /**
   * An object handed to a view and cast to one of its interfaces: null, or
   * an object that does or does not implement the interface.
   */
  datatype Host = NullHost | Implementing | NotImplementing

  /** A MotionEvent action as the views distinguish it. */
  datatype Action = Down | Move | Up | Cancel

  /** ViewPager's scroll states. */
  const SCROLL_STATE_IDLE: int := 0
  const SCROLL_STATE_DRAGGING: int := 1
  const SCROLL_STATE_SETTLING: int := 2

  /**
   * A list is at its bottom when the last item is visible
   * (first + visible >= total); that takes precedence over being at the top
   * (first == 0); anything else is the middle.
   */
  function ListSide(first: int, visible: int, total: int): (s: Side)
    ensures s == Bottom <==> visible + first >= total
    ensures s == Top <==> visible + first < total && first == 0
  {
    if visible + first >= total then Bottom
    else if first == 0 then Top
    else Middle
  }

  /**
   * One report to a detector in state `state` that finds the view on side
   * `at`: the detector moves to `at`, and a callback fires exactly when the
   * view arrives at Top or Bottom from another side. Middle never calls back.
   */
  function Enter(state: Side, at: Side): (r: (Side, seq<Crossing>))
    ensures r.0 == at
    ensures r.1 == [ToTop] <==> at == Top && state != Top
    ensures r.1 == [ToBottom] <==> at == Bottom && state != Bottom
    ensures r.1 == [] <==> at == Middle || at == state
  {
    match at
    case Bottom => (Bottom, if state != Bottom then [ToBottom] else [])
    case Top => (Top, if state != Top then [ToTop] else [])
    case Middle => (Middle, [])
  }

  /**
   * The listener calls a run of crossings makes, in order: `onTop` for each
   * crossing to the top side and `onBottom` for each one to the bottom.
   * Every detector of every view reports its crossings this way.
   */
  function Callbacks<E>(cs: seq<Crossing>, onTop: E, onBottom: E): (es: seq<E>)
    ensures |es| == |cs|
    ensures forall i :: 0 <= i < |cs| ==> es[i] == (if cs[i] == ToTop then onTop else onBottom)
  {
    if cs == [] then [] else Callbacks(cs[..|cs| - 1], onTop, onBottom) + [if cs[|cs| - 1] == ToTop then onTop else onBottom]
  }

  /** The final state and the callbacks of a sequence of reports, oldest first. */
  function Run(state: Side, reports: seq<Side>): (r: (Side, seq<Crossing>))
    ensures r.0 == if reports == [] then state else reports[|reports| - 1]
    ensures |r.1| <= |reports|
  {
    if reports == [] then (state, [])
    else
      var before := Run(state, reports[..|reports| - 1]);
      var after := Enter(before.0, reports[|reports| - 1]);
      (after.0, before.1 + after.1)
  }

  /** The detector's state just before report i: the initial state, or the previous report. */
  function Before(state: Side, reports: seq<Side>, i: nat): Side
    requires i < |reports|
  {
    if i == 0 then state else reports[i - 1]
  }

  /**
   * The detector keeps no other memory: the callbacks of report i depend
   * only on report i and the one before it.
   */
  lemma ReportDependsOnPrevious(state: Side, reports: seq<Side>, i: nat)
    requires i < |reports|
    ensures Run(state, reports[..i + 1]).1
         == Run(state, reports[..i]).1 + Enter(Before(state, reports, i), reports[i]).1
  {
    var prefix := reports[..i + 1];
    assert prefix[..i] == reports[..i];
    assert prefix[i] == reports[i];
    if i > 0 {
      assert reports[..i][i - 1] == reports[i - 1];
    }
  }

  /** The same side reported twice in a row calls back at most once. */
  lemma RepeatIsSilent(state: Side, reports: seq<Side>, at: Side)
    ensures Run(state, reports + [at, at]) == Run(state, reports + [at])
  {
    var once, twice := reports + [at], reports + [at, at];
    assert twice[..|twice| - 1] == once;
    var r := Run(state, once);
    assert Enter(r.0, at) == (at, []);
    assert r.1 + [] == r.1;
  }

  /** A view that is always reported where the detector already is never calls back. */
  lemma {:induction false} StayingPutIsSilent(state: Side, reports: seq<Side>)
    requires forall i :: 0 <= i < |reports| ==> reports[i] == state
    ensures Run(state, reports) == (state, [])
  {
    if reports != [] {
      StayingPutIsSilent(state, reports[..|reports| - 1]);
    }
  }

  /** The callback fired on arriving at a side other than Middle. */
  function Arrival(at: Side): Crossing
  {
    if at == Top then ToTop else ToBottom
  }

  /**
   * Passing through the middle re-arms the detector: a report at Top or
   * Bottom right after a Middle report always calls back, whatever came
   * before, so the same callback can fire twice without the other between.
   */
  lemma MiddleRearms(state: Side, reports: seq<Side>, at: Side)
    requires at != Middle
    ensures Run(state, reports + [Middle, at]).1 == Run(state, reports).1 + [Arrival(at)]
  {
    var withMiddle, both := reports + [Middle], reports + [Middle, at];
    assert both[..|both| - 1] == withMiddle;
    assert withMiddle[..|withMiddle| - 1] == reports;
  }

  // ---------------------------------------------------------------------
  // Touch travel
  // ---------------------------------------------------------------------

  function RAbs(r: real): (a: real)
    ensures a >= 0.0 && (a == r || a == -r)
  {
    if r < 0.0 then -r else r
  }

  /** The horizontal distance a touch path has covered: the sum of |dx| over successive points. */
  function XTravel(path: seq<(real, real)>): (d: real)
    ensures d >= 0.0
  {
    if |path| <= 1 then 0.0
    else XTravel(path[..|path| - 1]) + RAbs(path[|path| - 1].0 - path[|path| - 2].0)
  }

  /** The vertical distance a touch path has covered: the sum of |dy| over successive points. */
  function YTravel(path: seq<(real, real)>): (d: real)
    ensures d >= 0.0
  {
    if |path| <= 1 then 0.0
    else YTravel(path[..|path| - 1]) + RAbs(path[|path| - 1].1 - path[|path| - 2].1)
  }

  /** The touch fields agree with the path followed since the last DOWN. */
  ghost predicate Tracks(path: seq<(real, real)>, xDistance: real, yDistance: real, xLast: real, yLast: real)
  {
    && |path| >= 1
    && path[|path| - 1] == (xLast, yLast)
    && xDistance == XTravel(path)
    && yDistance == YTravel(path)
  }

  /** Accumulated travel is at least the net displacement between the ends of the path. */
  lemma {:induction false} TravelCoversDisplacement(path: seq<(real, real)>)
    requires |path| >= 1
    ensures XTravel(path) >= RAbs(path[|path| - 1].0 - path[0].0)
    ensures YTravel(path) >= RAbs(path[|path| - 1].1 - path[0].1)
  {
    if |path| > 1 {
      var init := path[..|path| - 1];
      TravelCoversDisplacement(init);
      assert init[0] == path[0] && init[|init| - 1] == path[|path| - 2];
    }
  }

  /**
   * A gesture whose net sideways displacement exceeds all the vertical
   * distance it covered counts as horizontal.
   */
  lemma NetSwipeIsHorizontal(path: seq<(real, real)>)
    requires |path| >= 1
    requires RAbs(path[|path| - 1].0 - path[0].0) > YTravel(path)
    ensures XTravel(path) > YTravel(path)
  {
    TravelCoversDisplacement(path);
  }

  /** Java's `(int) f` on a float: truncation toward zero. */
  function TruncateReal(r: real): (n: int)
    ensures r >= 0.0 ==> n as real <= r < n as real + 1.0
    ensures r < 0.0 ==> n as real - 1.0 < r <= n as real
  {
    if r >= 0.0 then r.Floor else -((-r).Floor)
  }
}
