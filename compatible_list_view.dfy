/**
 * A list view that reports reaching its top or bottom, reports crossing a
 * marker item, and remembers whether the current gesture is horizontal.
 * Scroll reports arrive as (first visible item, visible count, total count)
 * plus the top of the first child view, if there is one; the callbacks it
 * makes are appended to an event log.
 */
module CompatibleListView {
  import opened JavaLang
  import opened Scrolling

  /** A callback made by the list view, in the order made. */
  datatype Event =
    | StateChanged(scrollState: int)
    | Scrolled(first: int, visible: int, total: int)
    | OnTop
    | OnBottom
    | OnSpecifiedTop
    | OnSpecifiedBottom

  /**
   * Where the list is relative to the marker (item `markerPosition`, scrolled
   * by `markerDistance`): above it while an earlier item is first, below it
   * once a later one is; on the marker item itself, below exactly when the
   * item's top has moved further than the distance (no child counts as 0).
   * There is no "exactly at the marker" side for a list.
   */
  function MarkerSide(first: int, markerPosition: int, childTop: Option<int>, markerDistance: int): (s: Side)
    ensures s != Middle
    ensures first < markerPosition ==> s == Top
    ensures first > markerPosition ==> s == Bottom
    ensures first == markerPosition ==>
      (s == Bottom <==> Abs(if childTop.Some? then childTop.value else 0) > markerDistance)
  {
    if first < markerPosition then Top
    else if first == markerPosition then
      var height := Abs(if childTop.Some? then childTop.value else 0);
      if height > markerDistance then Bottom else Top
    else Bottom
  }

  class CompatibleListView {
    var supportBorderDetect: bool
    var supportSpecifiedDetect: bool
    var scrollState: Side
    var specifiedPosition: int
    var specifiedDistance: int
    var specifiedState: Side
    var isHorizontalMove: bool
    var xDistance: real
    var yDistance: real
    var xLast: real
    var yLast: real
    /** The touch points since the last DOWN, starting from the fields' initial (0, 0). */
    ghost var path: seq<(real, real)>
    var hasBorderListener: bool
    var hasSpecifiedListener: bool
    var hasStateListener: bool
    var events: seq<Event>

    ghost predicate Valid()
      reads this
    {
      Tracks(path, xDistance, yDistance, xLast, yLast) && specifiedState != Middle
    }

    /** Both detectors off; the list starts out at the bottom, above the marker, mid-way through a horizontal move. */
    constructor ()
      ensures Valid()
      ensures !supportBorderDetect && !supportSpecifiedDetect
      ensures scrollState == Bottom && specifiedState == Top && isHorizontalMove
      ensures !hasBorderListener && !hasSpecifiedListener && !hasStateListener
      ensures events == []
    {
      supportBorderDetect, supportSpecifiedDetect := false, false;
      scrollState := Bottom;
      specifiedPosition, specifiedDistance := 0, 0;
      specifiedState := Top;
      isHorizontalMove := true;
      xDistance, yDistance, xLast, yLast := 0.0, 0.0, 0.0, 0.0;
      path := [(0.0, 0.0)];
      hasBorderListener, hasSpecifiedListener, hasStateListener := false, false, false;
      events := [];
    }

    /** Turns border detection on, with `listener` saying whether a non-null listener was given; nothing else changes. */
    method InitOnBorderListener(listener: bool)
      modifies this`supportBorderDetect, this`hasBorderListener
      ensures supportBorderDetect && hasBorderListener == listener
      ensures supportSpecifiedDetect == old(supportSpecifiedDetect) && hasSpecifiedListener == old(hasSpecifiedListener)
      ensures scrollState == old(scrollState) && specifiedState == old(specifiedState) && events == old(events)
      ensures Valid() == old(Valid())
    {
      supportBorderDetect := true;
      hasBorderListener := listener;
    }

    /** Turns marker detection on and sets the marker; the marker state and everything else are left as they were. */
    method InitOnSpecifiedHeightListener(listener: bool, position: int, distance: int)
      modifies this`supportSpecifiedDetect, this`hasSpecifiedListener, this`specifiedPosition, this`specifiedDistance
      ensures supportSpecifiedDetect && hasSpecifiedListener == listener
      ensures specifiedPosition == position && specifiedDistance == distance
      ensures supportBorderDetect == old(supportBorderDetect) && hasBorderListener == old(hasBorderListener)
      ensures scrollState == old(scrollState) && specifiedState == old(specifiedState) && events == old(events)
      ensures Valid() == old(Valid())
    {
      supportSpecifiedDetect := true;
      hasSpecifiedListener := listener;
      specifiedPosition := position;
      specifiedDistance := distance;
    }

    /** Installs the scroll-state listener; nothing else changes. */
    method InitOnScrollStateChangeListener(listener: bool)
      modifies this`hasStateListener
      ensures hasStateListener == listener
      ensures supportBorderDetect == old(supportBorderDetect) && supportSpecifiedDetect == old(supportSpecifiedDetect)
      ensures scrollState == old(scrollState) && specifiedState == old(specifiedState) && events == old(events)
      ensures Valid() == old(Valid())
    {
      hasStateListener := listener;
    }

    /** A scroll-state report is passed on, when there is a listener, and changes nothing else. */
    method OnScrollStateChanged(state: int)
      modifies this`events
      ensures events == old(events) + (if hasStateListener then [StateChanged(state)] else [])
    {
      if hasStateListener {
        events := events + [StateChanged(state)];
      }
    }

    /**
     * A scroll report: passed on to the state listener, then run through the
     * border detector and the marker detector, each only once switched on.
     */
    method OnScroll(first: int, visible: int, total: int, childTop: Option<int>)
      requires Valid()
      modifies this`scrollState, this`specifiedState, this`events
      ensures Valid()
      ensures ScrollReported(first, visible, total, childTop)
    {
      if hasStateListener {
        events := events + [Scrolled(first, visible, total)];
      }
      DetectBorder(first, visible, total);
      DetectSpecified(first, childTop);
    }

    /** What a scroll report does to the detectors and the event log, as OnScroll states it. */
    twostate predicate ScrollReported(first: int, visible: int, total: int, childTop: Option<int>)
      reads this
    {
      var border := Enter(old(scrollState), ListSide(first, visible, total));
      var marker := Enter(old(specifiedState), MarkerSide(first, specifiedPosition, childTop, specifiedDistance));
      && scrollState == (if supportBorderDetect then border.0 else old(scrollState))
      && specifiedState == (if supportSpecifiedDetect then marker.0 else old(specifiedState))
      && events == old(events)
                   + (if hasStateListener then [Scrolled(first, visible, total)] else [])
                   + (if supportBorderDetect && hasBorderListener then Callbacks(border.1, OnTop, OnBottom) else [])
                   + (if supportSpecifiedDetect && hasSpecifiedListener then Callbacks(marker.1, OnSpecifiedTop, OnSpecifiedBottom) else [])
    }

    /** The border half of a scroll report. */
    method DetectBorder(first: int, visible: int, total: int)
      modifies this`scrollState, this`events
      ensures var border := Enter(old(scrollState), ListSide(first, visible, total));
        && scrollState == (if supportBorderDetect then border.0 else old(scrollState))
        && events == old(events) + (if supportBorderDetect && hasBorderListener then Callbacks(border.1, OnTop, OnBottom) else [])
    {
      if supportBorderDetect {
        if visible + first >= total {
          if scrollState != Bottom {
            if hasBorderListener {
              events := events + [OnBottom];
            }
            scrollState := Bottom;
          }
        } else if first == 0 {
          if scrollState != Top {
            if hasBorderListener {
              events := events + [OnTop];
            }
            scrollState := Top;
          }
        } else {
          scrollState := Middle;
        }
      }
    }

    /** The marker half of a scroll report. */
    method DetectSpecified(first: int, childTop: Option<int>)
      requires specifiedState != Middle
      modifies this`specifiedState, this`events
      ensures specifiedState != Middle
      ensures var marker := Enter(old(specifiedState), MarkerSide(first, specifiedPosition, childTop, specifiedDistance));
        && specifiedState == (if supportSpecifiedDetect then marker.0 else old(specifiedState))
        && events == old(events) + (if supportSpecifiedDetect && hasSpecifiedListener then Callbacks(marker.1, OnSpecifiedTop, OnSpecifiedBottom) else [])
    {
      if supportSpecifiedDetect {
        if first < specifiedPosition {
          ScrolledToSpecifiedTop();
        } else if first == specifiedPosition {
          var height := Abs(if childTop.Some? then childTop.value else 0);
          if height > specifiedDistance {
            ScrolledToSpecifiedBottom();
          } else {
            ScrolledToSpecifiedTop();
          }
        } else {
          ScrolledToSpecifiedBottom();
        }
      }
    }

    method ScrolledToSpecifiedTop()
      modifies this`specifiedState, this`events
      ensures specifiedState == Top
      ensures events == old(events) + (if hasSpecifiedListener then Callbacks(Enter(old(specifiedState), Top).1, OnSpecifiedTop, OnSpecifiedBottom) else [])
    {
      if specifiedState != Top {
        if hasSpecifiedListener {
          events := events + [OnSpecifiedTop];
        }
        specifiedState := Top;
      }
    }

    method ScrolledToSpecifiedBottom()
      modifies this`specifiedState, this`events
      ensures specifiedState == Bottom
      ensures events == old(events) + (if hasSpecifiedListener then Callbacks(Enter(old(specifiedState), Bottom).1, OnSpecifiedTop, OnSpecifiedBottom) else [])
    {
      if specifiedState != Bottom {
        if hasSpecifiedListener {
          events := events + [OnSpecifiedBottom];
        }
        specifiedState := Bottom;
      }
    }

    /**
     * Touch interception. DOWN starts a new gesture and clears the horizontal
     * flag; MOVE adds the absolute steps to the running distances, and a
     * gesture that has gone further sideways than up or down (ties count as
     * vertical) is marked horizontal and not intercepted. Every other case
     * answers what the platform's own interception (`platformIntercepts`) answers.
     */
    method OnInterceptTouchEvent(action: Action, x: real, y: real, platformIntercepts: bool) returns (r: bool)
      requires Valid()
      modifies this`xDistance, this`yDistance, this`xLast, this`yLast, this`path, this`isHorizontalMove
      ensures Valid()
      ensures action == Down ==> path == [(x, y)] && xDistance == 0.0 && yDistance == 0.0 && !isHorizontalMove
      ensures action == Move ==> path == old(path) + [(x, y)] && isHorizontalMove == (XTravel(path) > YTravel(path))
      ensures action != Down && action != Move ==>
        path == old(path) && isHorizontalMove == old(isHorizontalMove) && xDistance == old(xDistance) && yDistance == old(yDistance)
      ensures r == if action == Move && isHorizontalMove then false else platformIntercepts
    {
      match action {
        case Down =>
          isHorizontalMove := false;
          xDistance, yDistance := 0.0, 0.0;
          xLast, yLast := x, y;
          path := [(x, y)];
        case Move =>
          xDistance := xDistance + RAbs(x - xLast);
          yDistance := yDistance + RAbs(y - yLast);
          xLast, yLast := x, y;
          ghost var p := path + [(x, y)];
          assert p[..|p| - 1] == path;
          path := p;
          if xDistance > yDistance {
            isHorizontalMove := true;
            return false;
          } else {
            isHorizontalMove := false;
          }
        case _ =>
      }
      return platformIntercepts;
    }
  }
}
