/**
 * The pull-to-refresh list views. A header above the first item grows as
 * the list is dragged down from its top; past the trigger height the arrow
 * flips, and releasing there starts a refresh. The header then springs back
 * through a chain of handler messages, each applying one height and posting
 * the next.
 *
 * One class models both copies: the library's CompatibleRefreshableListView
 * (horizontal-move guard on drags, onTopOverDrag callback) and
 * CompatiblePinnedHeaderRefreshableListView (neither); the two constants
 * `horizontalGuard` and `overDragHook` select the copy.
 */
module RefreshableListView {
  import opened JavaLang
  import opened Scrolling

  const DISPLACE_BACK_DENSITY: int := 4

  /** The two handler message kinds: spring back to the trigger height (REFRESH) or to nothing (NORMAL). */
  datatype Kind = Refresh | Normal

  datatype Message = Message(what: Kind, arg1: int)

  /** A callback made by the list view, in the order made. */
  datatype Event = OnRefresh(forceFlush: bool) | OnTopOverDrag | ItemClick(position: int)

  /** The height a spring-back of this kind settles at. */
  function Limit(what: Kind, triggerHeight: int): int
  {
    if what == Refresh then triggerHeight else 0
  }

  /** The height posted after applying `h`: a quarter of the way to the limit, but at least one pixel. */
  function NextArg(h: int, limit: int): (next: int)
    requires h >= limit
    ensures next < h
    ensures h > limit ==> next >= limit
    ensures h == limit ==> next == limit - 1
  {
    var displacement := (h - limit) / DISPLACE_BACK_DENSITY;
    if displacement == 0 then h - 1 else h - displacement
  }

  /** The heights a spring-back starting at `h` applies, one per handled message. */
  function SettleHeights(h: int, limit: int): seq<int>
    decreases if h >= limit then h - limit + 1 else 0
  {
    if h < limit then [] else [h] + SettleHeights(NextArg(h, limit), limit)
  }

  /**
   * A spring-back from at or above the limit applies strictly decreasing
   * heights, never one below the limit, and ends exactly at the limit; one
   * that starts below the limit applies nothing.
   */
  lemma {:induction false} SettleShape(h: int, limit: int)
    ensures var s := SettleHeights(h, limit);
      && (h < limit <==> s == [])
      && (h >= limit ==> s[0] == h && s[|s| - 1] == limit)
      && (forall i :: 0 <= i < |s| ==> limit <= s[i] <= h)
      && (forall i, j :: 0 <= i < j < |s| ==> s[i] > s[j])
    decreases if h >= limit then h - limit + 1 else 0
  {
    if h >= limit {
      var next := NextArg(h, limit);
      SettleShape(next, limit);
      var s, rest := SettleHeights(h, limit), SettleHeights(next, limit);
      assert s == [h] + rest;
      if rest == [] {
        assert next < limit;
      }
      forall i, j | 0 <= i < j < |s| ensures s[i] > s[j] {
        if i > 0 {
          assert s[i] == rest[i - 1] && s[j] == rest[j - 1];
        } else {
          assert s[j] == rest[j - 1];
        }
      }
      forall i | 0 <= i < |s| ensures limit <= s[i] <= h {
        if i > 0 {
          assert s[i] == rest[i - 1];
        }
      }
    }
  }

  /**
   * The arrow's direction after a header height is applied: while not
   * refreshing it points up once the height passes the trigger and down once
   * it falls below it; at exactly the trigger, and during a refresh, it stays.
   */
  function ArrowAfter(arrowUp: bool, refreshing: bool, h: int, triggerHeight: int): bool
  {
    if refreshing then arrowUp
    else if h > triggerHeight && !arrowUp then true
    else if h < triggerHeight && arrowUp then false
    else arrowUp
  }

  /** The arrow after a series of heights applied while not refreshing. */
  function ArrowAfterAll(arrowUp: bool, heights: seq<int>, triggerHeight: int): bool
  {
    if heights == [] then arrowUp
    else ArrowAfter(ArrowAfterAll(arrowUp, heights[..|heights| - 1], triggerHeight), false, heights[|heights| - 1], triggerHeight)
  }

  /**
   * Hysteresis: after a series of heights the arrow reflects the last height
   * that was not exactly the trigger (up iff it was above), or is unchanged
   * when every height was the trigger.
   */
  lemma {:induction false} ArrowFollowsLastClearHeight(arrowUp: bool, heights: seq<int>, triggerHeight: int)
    ensures (forall i :: 0 <= i < |heights| ==> heights[i] == triggerHeight) ==>
      ArrowAfterAll(arrowUp, heights, triggerHeight) == arrowUp
    ensures forall k :: 0 <= k < |heights| && heights[k] != triggerHeight
                        && (forall i :: k < i < |heights| ==> heights[i] == triggerHeight) ==>
      ArrowAfterAll(arrowUp, heights, triggerHeight) == (heights[k] > triggerHeight)
  {
    if heights != [] {
      var n := |heights| - 1;
      var init := heights[..n];
      var last := heights[n];
      ArrowFollowsLastClearHeight(arrowUp, init, triggerHeight);
      var before := ArrowAfterAll(arrowUp, init, triggerHeight);
      assert ArrowAfterAll(arrowUp, heights, triggerHeight) == ArrowAfter(before, false, last, triggerHeight);
      forall k | 0 <= k < |heights| && heights[k] != triggerHeight
                 && (forall i :: k < i < |heights| ==> heights[i] == triggerHeight)
        ensures ArrowAfterAll(arrowUp, heights, triggerHeight) == (heights[k] > triggerHeight)
      {
        if k < n {
          assert last == triggerHeight;
          assert init[k] == heights[k];
          forall i | k < i < |init| ensures init[i] == triggerHeight {
            assert init[i] == heights[i];
          }
        }
      }
      if forall i :: 0 <= i < |heights| ==> heights[i] == triggerHeight {
        assert last == triggerHeight;
        forall i | 0 <= i < |init| ensures init[i] == triggerHeight {
          assert init[i] == heights[i];
        }
      }
    }
  }

  /** The header height a drag to `y` asks for: half the distance from where the drag started, on top of the initial height, and never negative. */
  function DragHeight(y: real, downY: real, initialHeight: int): (h: int)
    ensures h >= 0
  {
    var height := JDiv(TruncateReal(y - downY), 2) + initialHeight;
    if height < 0 then 0 else height
  }

  /** The requested height grows with the finger's travel and moves at half its speed. */
  lemma DragHeightMonotone(y1: real, y2: real, downY: real, initialHeight: int)
    requires y1 <= y2
    ensures DragHeight(y1, downY, initialHeight) <= DragHeight(y2, downY, initialHeight)
  {
    var t1, t2 := TruncateReal(y1 - downY), TruncateReal(y2 - downY);
    assert t1 <= t2;
    JDivHalfMonotone(t1, t2);
  }

  lemma JDivHalfMonotone(a: int, b: int)
    requires a <= b
    ensures JDiv(a, 2) <= JDiv(b, 2)
  {
    if a >= 0 {
    } else if b >= 0 {
    } else {
      assert (-b) / 2 <= (-a) / 2;
    }
  }

  /** Position 0 is the refresh header itself: a click there is swallowed; the others are shifted onto the adapter's items. */
  function ClickTarget(position: int): (t: Option<int>)
    ensures t.None? <==> position == 0
    ensures t.Some? ==> t.value + 1 == position
  {
    if position == 0 then None else Some(position - 1)
  }

  class RefreshableListView {
    /** The library copy skips drags while the gesture is horizontal; the pinned-header copy does not. */
    const horizontalGuard: bool
    /** Only the library copy has the onTopOverDrag callback. */
    const overDragHook: bool

    var y: real
    var historicalY: real
    var historicalTop: int
    var initialHeight: int
    var flag: bool
    var arrowUp: bool
    var isRefreshing: bool
    const headerHeight: int
    const triggerHeight: int
    var lastUpdateTime: int
    /** The container's layout height, whether the inner header is shown, and its top margin. */
    var containerHeight: int
    var innerVisible: bool
    var topMargin: int
    /** Messages posted to the handler and not yet handled, oldest first. */
    var queue: seq<Message>
    var hasRefreshListener: bool
    var hasOverDragListener: bool
    var events: seq<Event>

    /** A view whose pull header has been initialised, at height 0. */
    constructor (horizontalGuard: bool, overDragHook: bool, headerHeight: int, triggerHeight: int)
      ensures this.horizontalGuard == horizontalGuard && this.overDragHook == overDragHook
      ensures this.headerHeight == headerHeight && this.triggerHeight == triggerHeight
      ensures containerHeight == 0 && !innerVisible && topMargin == -headerHeight
      ensures arrowUp == (0 > triggerHeight) && !isRefreshing && !flag
      ensures queue == [] && events == [] && !hasRefreshListener && !hasOverDragListener
      ensures lastUpdateTime == 0 && initialHeight == 0
    {
      this.horizontalGuard, this.overDragHook := horizontalGuard, overDragHook;
      this.headerHeight, this.triggerHeight := headerHeight, triggerHeight;
      y, historicalY, historicalTop, initialHeight := 0.0, 0.0, 0, 0;
      flag, arrowUp, isRefreshing := false, false, false;
      lastUpdateTime := 0;
      containerHeight, innerVisible, topMargin := 0, false, 0;
      queue, events := [], [];
      hasRefreshListener, hasOverDragListener := false, false;
      new;
      SetHeaderHeight(0);
    }

    method SetOnRefreshListener(present: bool)
      modifies this`hasRefreshListener
      ensures hasRefreshListener == present
    {
      hasRefreshListener := present;
    }

    method SetOverDragListener(present: bool)
      modifies this`hasOverDragListener
      ensures hasOverDragListener == present
    {
      hasOverDragListener := present;
    }

    /**
     * Applies a header height: the inner header is hidden iff the height is
     * at most 1, the container takes the height, the inner header's top
     * margin lets it show from the bottom up, and the arrow follows ArrowAfter.
     */
    method SetHeaderHeight(height: int)
      modifies this`innerVisible, this`containerHeight, this`topMargin, this`arrowUp
      ensures innerVisible == (height > 1)
      ensures containerHeight == height
      ensures topMargin == height - headerHeight
      ensures arrowUp == ArrowAfter(old(arrowUp), isRefreshing, height, triggerHeight)
    {
      innerVisible := height > 1;
      containerHeight := height;
      topMargin := -headerHeight + height;
      if !isRefreshing {
        if height > triggerHeight && !arrowUp {
          arrowUp := true;
        } else if height < triggerHeight && arrowUp {
          arrowUp := false;
        }
      }
    }

    /** Marks the view refreshing and asks the listener, if any, to refresh once. */
    method StartRefreshing(forceFlush: bool)
      modifies this`isRefreshing, this`events
      ensures isRefreshing
      ensures events == old(events) + (if hasRefreshListener then [OnRefresh(forceFlush)] else [])
    {
      isRefreshing := true;
      if hasRefreshListener {
        events := events + [OnRefresh(forceFlush)];
      }
    }

    /** A refresh started by the host: the header springs to the trigger height. */
    method StartRefreshingFromOutside(forceFlush: bool)
      modifies this`isRefreshing, this`events, this`queue
      ensures isRefreshing
      ensures events == old(events) + (if hasRefreshListener then [OnRefresh(forceFlush)] else [])
      ensures queue == old(queue) + [Message(Refresh, triggerHeight)]
    {
      StartRefreshing(forceFlush);
      queue := queue + [Message(Refresh, triggerHeight)];
    }

    /**
     * Ends a refresh: optionally stamps the current time (`nowMillis`, the
     * clock's reading) in seconds, and springs the header back to nothing
     * from the trigger height.
     */
    method CompleteRefreshing(updateTime: bool, nowMillis: int)
      modifies this`lastUpdateTime, this`queue, this`isRefreshing
      ensures lastUpdateTime == (if updateTime then JDiv(nowMillis, 1000) else old(lastUpdateTime))
      ensures queue == old(queue) + [Message(Normal, triggerHeight)]
      ensures !isRefreshing
    {
      if updateTime {
        lastUpdateTime := JDiv(nowMillis, 1000);
      }
      queue := queue + [Message(Normal, triggerHeight)];
      isRefreshing := false;
    }

    /** Seconds since the last stamped update. */
    method GetLastUpdateInterval(nowMillis: int) returns (seconds: int)
      ensures seconds == JDiv(nowMillis, 1000) - lastUpdateTime
    {
      seconds := JDiv(nowMillis, 1000) - lastUpdateTime;
    }

    /**
     * Handles the oldest pending message. A REFRESH message while not
     * refreshing, or one whose height is below its limit, ends its chain.
     * Otherwise its height is applied and the next one posted, so a chain
     * started at h applies SettleHeights(h, limit) while nothing intervenes.
     */
    method HandleMessage()
      requires queue != []
      modifies this`queue, this`innerVisible, this`containerHeight, this`topMargin, this`arrowUp
      ensures var msg := old(queue)[0];
        var limit := Limit(msg.what, triggerHeight);
        if (msg.what == Refresh && !isRefreshing) || msg.arg1 < limit then
          && queue == old(queue)[1..] && containerHeight == old(containerHeight) && arrowUp == old(arrowUp)
          && innerVisible == old(innerVisible) && topMargin == old(topMargin)
        else
          && queue == old(queue)[1..] + [Message(msg.what, NextArg(msg.arg1, limit))]
          && containerHeight == msg.arg1
          && innerVisible == (msg.arg1 > 1) && topMargin == msg.arg1 - headerHeight
          && arrowUp == ArrowAfter(old(arrowUp), isRefreshing, msg.arg1, triggerHeight)
          && SettleHeights(msg.arg1, limit) == [msg.arg1] + SettleHeights(NextArg(msg.arg1, limit), limit)
    {
      var msg := queue[0];
      queue := queue[1..];
      var limit := 0;
      match msg.what {
        case Refresh => limit := triggerHeight;
        case Normal => limit := 0;
      }
      if !(msg.what == Refresh && !isRefreshing) {
        if msg.arg1 >= limit {
          SetHeaderHeight(msg.arg1);
          var displacement := (msg.arg1 - limit) / DISPLACE_BACK_DENSITY;
          if displacement == 0 {
            queue := queue + [Message(msg.what, msg.arg1 - 1)];
          } else {
            queue := queue + [Message(msg.what, msg.arg1 - displacement)];
          }
        }
      }
    }

    /** DOWN cancels any spring-back in progress and records where the drag starts and how tall the header is. */
    method OnInterceptTouchEvent(action: Action, eventY: real, platformIntercepts: bool) returns (r: bool)
      modifies this`queue, this`y, this`historicalY, this`initialHeight
      ensures action == Down ==> queue == [] && y == eventY && historicalY == eventY && initialHeight == containerHeight
      ensures action != Down ==> queue == old(queue) && y == old(y) && historicalY == old(historicalY) && initialHeight == old(initialHeight)
      ensures r == platformIntercepts
    {
      if action == Down {
        queue := [];
        y, historicalY := eventY, eventY;
        initialHeight := containerHeight;
      }
      return platformIntercepts;
    }

    /**
     * MOVE remembers the first child's top. UP decides the spring-back:
     * not refreshing with the arrow up starts a refresh and springs to the
     * trigger height; not refreshing with the arrow down springs back to
     * nothing, but only while the first child sits at the top; refreshing
     * springs to the trigger height. UP always clears the flag.
     */
    method OnTouchEvent(action: Action, eventY: real, firstChildTop: Option<int>, platformHandles: bool) returns (r: bool)
      modifies this`historicalTop, this`isRefreshing, this`events, this`queue, this`flag
      ensures r == platformHandles
      ensures action == Move ==>
        && historicalTop == (if firstChildTop.Some? then firstChildTop.value else old(historicalTop))
        && queue == old(queue) && events == old(events) && flag == old(flag) && isRefreshing == old(isRefreshing)
      ensures action == Up ==>
        var h := JDiv(TruncateReal(eventY - y), 2) + initialHeight;
        && !flag && historicalTop == old(historicalTop)
        && isRefreshing == (old(isRefreshing) || arrowUp)
        && events == old(events) + (if !old(isRefreshing) && arrowUp && hasRefreshListener then [OnRefresh(false)] else [])
        && queue == old(queue) +
           (if old(isRefreshing) || arrowUp then [Message(Refresh, h)]
            else if firstChildTop == Some(0) then [Message(Normal, h)]
            else [])
      ensures action != Move && action != Up ==>
        historicalTop == old(historicalTop) && queue == old(queue) && events == old(events)
        && flag == old(flag) && isRefreshing == old(isRefreshing)
    {
      match action {
        case Move =>
          if firstChildTop.Some? {
            historicalTop := firstChildTop.value;
          }
        case Up =>
          var h := JDiv(TruncateReal(eventY - y), 2) + initialHeight;
          if !isRefreshing {
            if arrowUp {
              StartRefreshing(false);
              queue := queue + [Message(Refresh, h)];
            } else if firstChildTop == Some(0) {
              queue := queue + [Message(Normal, h)];
            }
          } else {
            queue := queue + [Message(Refresh, h)];
          }
          flag := false;
        case _ =>
      }
      return platformHandles;
    }

    /**
     * A MOVE past the touch slop, while the first child is at the top,
     * resizes the header to DragHeight: pulling down also cancels the list's
     * own scroll, pulling up hands the gesture back to the list (as a DOWN)
     * once the second child reaches the top. `horizontal` is the inherited
     * horizontal-move flag, consulted only by the library copy. The result
     * is the action passed on to the platform.
     */
    method DispatchTouchEvent(action: Action, eventY: real, horizontal: bool, touchSlop: real,
                              firstChildTop: Option<int>, secondChildTop: Option<int>) returns (dispatched: Action)
      modifies this`y, this`historicalY, this`flag, this`events
      modifies this`innerVisible, this`containerHeight, this`topMargin, this`arrowUp
      ensures action != Move ==>
        && dispatched == action && containerHeight == old(containerHeight) && arrowUp == old(arrowUp)
        && innerVisible == old(innerVisible) && topMargin == old(topMargin)
        && y == old(y) && historicalY == old(historicalY) && events == old(events) && flag == old(flag)
      ensures action == Move ==> historicalY == eventY
      ensures action == Move ==>
        var height := DragHeight(eventY, old(y), initialHeight);
        var direction := eventY - old(historicalY);
        var active := (!horizontalGuard || !horizontal) && RAbs(old(y) - eventY) > touchSlop;
        var resizes := active && direction != 0.0 && firstChildTop == Some(0);
        && y == (if active && direction > 0.0 && (firstChildTop != Some(0) || historicalTop > 0) then eventY else old(y))
        && containerHeight == (if resizes then height else old(containerHeight))
        && innerVisible == (if resizes then height > 1 else old(innerVisible))
        && topMargin == (if resizes then height - headerHeight else old(topMargin))
        && arrowUp == (if resizes then ArrowAfter(old(arrowUp), isRefreshing, height, triggerHeight) else old(arrowUp))
        && events == old(events) + (if resizes && direction > 0.0 && overDragHook && hasOverDragListener then [OnTopOverDrag] else [])
        && dispatched == (if resizes && direction > 0.0 then Cancel
                          else if resizes && secondChildTop.Some? && secondChildTop.value <= 1 && !old(flag) then Down
                          else Move)
        && flag == (if resizes && direction > 0.0 then false
                    else if resizes && secondChildTop.Some? && secondChildTop.value <= 1 && !old(flag) then true
                    else old(flag))
    {
      dispatched := action;
      if action == Move {
        var direction := eventY - historicalY;
        var height := DragHeight(eventY, y, initialHeight);
        var deltaY := RAbs(y - eventY);
        if !horizontalGuard || !horizontal {
          if deltaY > touchSlop {
            if direction > 0.0 {
              if firstChildTop == Some(0) {
                if overDragHook && hasOverDragListener {
                  events := events + [OnTopOverDrag];
                }
                if historicalTop > 0 {
                  y := eventY;
                }
                SetHeaderHeight(height);
                dispatched := Cancel;
                flag := false;
              } else {
                y := eventY;
              }
            } else if direction < 0.0 {
              if firstChildTop == Some(0) {
                SetHeaderHeight(height);
                if secondChildTop.Some? && secondChildTop.value <= 1 && !flag {
                  dispatched := Down;
                  flag := true;
                }
              }
            }
          }
        }
        historicalY := eventY;
      }
    }

    /** Clicks on the header row are swallowed; others go to the platform shifted by one. */
    method PerformItemClick(position: int, platformResult: bool) returns (r: bool)
      modifies this`events
      ensures ClickTarget(position).None? ==> r && events == old(events)
      ensures ClickTarget(position).Some? ==> r == platformResult && events == old(events) + [ItemClick(ClickTarget(position).value)]
    {
      if position == 0 {
        return true;
      }
      events := events + [ItemClick(position - 1)];
      return platformResult;
    }
  }
}
