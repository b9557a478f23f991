/**
 * A scroll view that reports reaching its top or bottom and crossing a
 * marker height, and that can stop intercepting touches altogether. Scroll
 * reports arrive as the scroll offset, the view's height and the measured
 * height of its content child, if there is one.
 */
module CompatibleScrollView {
  import opened JavaLang
  import opened Scrolling

  /** A callback made by the scroll view, in the order made. */
  datatype Event = OnTop | OnBottom | ScrolledToTop | ScrolledToBottom

  /**
   * At the bottom when there is a content child whose measured height fits
   * within scrollY + height; otherwise at the top when scrollY is 0;
   * otherwise in the middle.
   */
  function BorderSide(contentHeight: Option<int>, scrollY: int, height: int): (s: Side)
    ensures s == Bottom <==> contentHeight.Some? && contentHeight.value <= scrollY + height
    ensures s == Top <==> !(contentHeight.Some? && contentHeight.value <= scrollY + height) && scrollY == 0
  {
    if contentHeight.Some? && contentHeight.value <= scrollY + height then Bottom
    else if scrollY == 0 then Top
    else Middle
  }

  /** Above the marker height, below it, or (Middle) exactly at it. */
  function MarkerSide(scrollY: int, scrollHeight: int): (s: Side)
    ensures s == Top <==> scrollY < scrollHeight
    ensures s == Bottom <==> scrollY > scrollHeight
    ensures s == Middle <==> scrollY == scrollHeight
  {
    if scrollY < scrollHeight then Top
    else if scrollY > scrollHeight then Bottom
    else Middle
  }

  /**
   * Offsets that stay above the marker height fire nothing from the initial
   * state; but a stop exactly at the height followed by one above it fires
   * scrolledToTop, although the view never went below the marker.
   */
  lemma ExactStopRefires(scrollHeight: int, before: seq<int>)
    requires forall i :: 0 <= i < |before| ==> before[i] < scrollHeight
    ensures var sides := Sides(before, scrollHeight) + [Middle, Top];
      Run(Top, sides).1 == Run(Top, Sides(before, scrollHeight)).1 + [ToTop]
    ensures Run(Top, Sides(before, scrollHeight)).1 == []
  {
    var sides := Sides(before, scrollHeight);
    MiddleRearms(Top, sides, Top);
    StayingPutIsSilent(Top, sides);
  }

  /** The marker sides of a series of scroll offsets. */
  function Sides(offsets: seq<int>, scrollHeight: int): (sides: seq<Side>)
    ensures |sides| == |offsets|
    ensures forall i :: 0 <= i < |offsets| ==> sides[i] == MarkerSide(offsets[i], scrollHeight)
  {
    if offsets == [] then []
    else Sides(offsets[..|offsets| - 1], scrollHeight) + [MarkerSide(offsets[|offsets| - 1], scrollHeight)]
  }

  class CompatibleScrollView {
    var xDistance: real
    var yDistance: real
    var xLast: real
    var yLast: real
    /** The touch points since the last DOWN, starting from the fields' initial (0, 0). */
    ghost var path: seq<(real, real)>
    var scrollState: Side
    var scrollHeight: int
    var markerState: Side
    var supportBorderDetect: bool
    var supportSpecifiedDetect: bool
    var supportScrolling: bool
    var hasBorderListener: bool
    var hasMarkerListener: bool
    var events: seq<Event>

    ghost predicate Valid()
      reads this
    {
      Tracks(path, xDistance, yDistance, xLast, yLast)
    }

    /** Both detectors off, interception on; the view starts out at the top and above the marker. */
    constructor ()
      ensures Valid()
      ensures scrollState == Top && markerState == Top
      ensures !supportBorderDetect && !supportSpecifiedDetect && supportScrolling
      ensures !hasBorderListener && !hasMarkerListener && events == []
    {
      xDistance, yDistance, xLast, yLast := 0.0, 0.0, 0.0, 0.0;
      path := [(0.0, 0.0)];
      scrollState := Top;
      scrollHeight := 0;
      markerState := Top;
      supportBorderDetect, supportSpecifiedDetect, supportScrolling := false, false, true;
      hasBorderListener, hasMarkerListener := false, false;
      events := [];
    }

    /**
     * Switches border detection on, then casts the host to the listener
     * interface: a null host leaves no listener, and a host that does not
     * implement it throws, with detection already switched on.
     */
    method InitOnBorderListener(host: Host) returns (r: Outcome<()>)
      modifies this`supportBorderDetect, this`hasBorderListener
      ensures supportBorderDetect
      ensures host == NotImplementing ==> r == Thrown(ClassCast) && hasBorderListener == old(hasBorderListener)
      ensures host != NotImplementing ==> r == Value(()) && hasBorderListener == (host == Implementing)
    {
      supportBorderDetect := true;
      if host == NotImplementing {
        return Thrown(ClassCast);
      }
      hasBorderListener := host == Implementing;
      return Value(());
    }

    /** The same for the marker detector, which also records the marker height unless the cast throws. */
    method InitOnScrolledToSpecificHeightListener(host: Host, height: int) returns (r: Outcome<()>)
      modifies this`supportSpecifiedDetect, this`hasMarkerListener, this`scrollHeight
      ensures supportSpecifiedDetect
      ensures host == NotImplementing ==>
        r == Thrown(ClassCast) && hasMarkerListener == old(hasMarkerListener) && scrollHeight == old(scrollHeight)
      ensures host != NotImplementing ==>
        r == Value(()) && hasMarkerListener == (host == Implementing) && scrollHeight == height
    {
      supportSpecifiedDetect := true;
      if host == NotImplementing {
        return Thrown(ClassCast);
      }
      hasMarkerListener := host == Implementing;
      scrollHeight := height;
      return Value(());
    }

    /** A scroll change runs the border detector, then the marker detector, each only once switched on. */
    method OnScrollChanged(contentHeight: Option<int>, scrollY: int, height: int)
      modifies this`scrollState, this`markerState, this`events
      ensures var border := Enter(old(scrollState), BorderSide(contentHeight, scrollY, height));
        var marker := Enter(old(markerState), MarkerSide(scrollY, scrollHeight));
        && scrollState == (if supportBorderDetect then border.0 else old(scrollState))
        && markerState == (if supportSpecifiedDetect then marker.0 else old(markerState))
        && events == old(events)
                     + (if supportBorderDetect && hasBorderListener then Callbacks(border.1, OnTop, OnBottom) else [])
                     + (if supportSpecifiedDetect && hasMarkerListener then Callbacks(marker.1, ScrolledToTop, ScrolledToBottom) else [])
    {
      DoOnBorderListener(contentHeight, scrollY, height);
      DoOnScrolledToSpecificHeightListener(scrollY);
    }

    method DoOnBorderListener(contentHeight: Option<int>, scrollY: int, height: int)
      modifies this`scrollState, this`events
      ensures var border := Enter(old(scrollState), BorderSide(contentHeight, scrollY, height));
        && scrollState == (if supportBorderDetect then border.0 else old(scrollState))
        && events == old(events) + (if supportBorderDetect && hasBorderListener then Callbacks(border.1, OnTop, OnBottom) else [])
    {
      if supportBorderDetect {
        if contentHeight.Some? && contentHeight.value <= scrollY + height {
          if scrollState != Bottom {
            if hasBorderListener {
              events := events + [OnBottom];
            }
            scrollState := Bottom;
          }
        } else if scrollY == 0 {
          if scrollState != Top {
            if hasBorderListener {
              events := events + [OnTop];
            }
            scrollState := Top;
          }
        } else {
          scrollState := Middle;
        }
      }
    }

    method DoOnScrolledToSpecificHeightListener(scrollY: int)
      modifies this`markerState, this`events
      ensures var marker := Enter(old(markerState), MarkerSide(scrollY, scrollHeight));
        && markerState == (if supportSpecifiedDetect then marker.0 else old(markerState))
        && events == old(events) + (if supportSpecifiedDetect && hasMarkerListener then Callbacks(marker.1, ScrolledToTop, ScrolledToBottom) else [])
    {
      if supportSpecifiedDetect {
        if scrollY < scrollHeight {
          if markerState != Top {
            if hasMarkerListener {
              events := events + [ScrolledToTop];
            }
            markerState := Top;
          }
        } else if scrollY > scrollHeight {
          if markerState != Bottom {
            if hasMarkerListener {
              events := events + [ScrolledToBottom];
            }
            markerState := Bottom;
          }
        } else {
          markerState := Middle;
        }
      }
    }

    /**
     * With scrolling support off nothing is intercepted and nothing is
     * tracked. Otherwise DOWN starts a new gesture and MOVE accumulates the
     * absolute steps; a gesture that has gone further sideways than up or
     * down is not intercepted, and every other case answers what the
     * platform's own interception answers.
     */
    method OnInterceptTouchEvent(action: Action, x: real, y: real, platformIntercepts: bool) returns (r: bool)
      requires Valid()
      modifies this`xDistance, this`yDistance, this`xLast, this`yLast, this`path
      ensures Valid()
      ensures !supportScrolling ==> !r && path == old(path) && xDistance == old(xDistance) && yDistance == old(yDistance)
      ensures supportScrolling && action == Down ==> path == [(x, y)] && xDistance == 0.0 && yDistance == 0.0 && r == platformIntercepts
      ensures supportScrolling && action == Move ==>
        path == old(path) + [(x, y)] && r == (if XTravel(path) > YTravel(path) then false else platformIntercepts)
      ensures action != Down && action != Move ==> path == old(path) && (r == (supportScrolling && platformIntercepts))
    {
      if !supportScrolling {
        return false;
      }
      match action {
        case Down =>
          xDistance, yDistance := 0.0, 0.0;
          xLast, yLast := x, y;
          path := [(x, y)];
        case Move =>
          xDistance := xDistance + RAbs(x - xLast);
          yDistance := yDistance + RAbs(y - yLast);
          xLast, yLast := x, y;
          ghost var p := path + [(x, y)];
          assert p[..|p| - 1] == path;
          path := p;
          if xDistance > yDistance {
            return false;
          }
        case _ =>
      }
      return platformIntercepts;
    }

    method SetSupportScrolling(support: bool)
      modifies this`supportScrolling
      ensures supportScrolling == support
    {
      supportScrolling := support;
    }
  }
}
