/**
 * A list view with a pinned section header: on every scroll the adapter
 * says whether the header is gone, shown at the top, or being pushed up by
 * the next section, and the header is placed and faded to match. The
 * border and marker detection is the CompatibleListView it extends.
 */
module PinnedHeaderListView {
  import opened JavaLang
  import opened Scrolling
  import CompatibleListView

  const MAX_ALPHA: int := 255
  const PINNED_HEADER_GONE: int := 0
  const PINNED_HEADER_VISIBLE: int := 1
  const PINNED_HEADER_PUSHED_UP: int := 2
  const PINNED_HEADER_PUSHED_NULL: int := -1

  /** Where a pushed-up header goes and how opaque it is drawn. */
  datatype Placement = Placement(y: int, alpha: int)

  /**
   * A header of height `headerHeight` pushed up by a first child whose
   * bottom is at `bottom`: while the child's bottom is above the header's,
   * the header moves up with it and fades in proportion; otherwise it stays
   * at the top, fully opaque. With a zero-height header and a negative
   * bottom the division by the height throws.
   */
  function PushedUp(bottom: int, headerHeight: int): (r: Outcome<Placement>)
    ensures bottom >= headerHeight ==> r == Value(Placement(0, MAX_ALPHA))
    ensures bottom < headerHeight && headerHeight == 0 ==> r == Thrown(Arithmetic)
    ensures bottom < headerHeight && headerHeight != 0 ==>
      && r.Value?
      && r.value.y == bottom - headerHeight && r.value.y < 0
      && r.value.alpha == JDiv(MAX_ALPHA * bottom, headerHeight)
  {
    if bottom < headerHeight then
      var y := bottom - headerHeight;
      if headerHeight == 0 then Thrown(Arithmetic)
      else Value(Placement(y, JDiv(MAX_ALPHA * (headerHeight + y), headerHeight)))
    else Value(Placement(0, MAX_ALPHA))
  }

  /**
   * While the first child's bottom is still inside a (positive-height)
   * header, the header is moved up by the part the child no longer covers
   * and its alpha is the covered fraction of 255, rounded down: from 0 when
   * the bottom is at 0 to below 255 just before the header is fully covered.
   */
  lemma PushedUpFades(bottom: int, headerHeight: int)
    requires 0 <= bottom < headerHeight
    ensures var p := PushedUp(bottom, headerHeight).value;
      && -headerHeight <= p.y < 0
      && 0 <= p.alpha < MAX_ALPHA
      && p.alpha * headerHeight <= MAX_ALPHA * bottom < (p.alpha + 1) * headerHeight
  {
    var a := (MAX_ALPHA * bottom) / headerHeight;
    assert a * headerHeight <= MAX_ALPHA * bottom < (a + 1) * headerHeight;
    assert a * headerHeight < MAX_ALPHA * headerHeight;
    assert a >= MAX_ALPHA ==> a * headerHeight >= MAX_ALPHA * headerHeight;
  }

  /** With no first child the bottom counts as 0: the header sits entirely above the list and is transparent. */
  lemma MissingChildHidesHeader(headerHeight: int)
    requires headerHeight > 0
    ensures PushedUp(0, headerHeight) == Value(Placement(-headerHeight, 0))
  {
  }

  /** The fade only ever grows as the first child's bottom moves down towards the header's. */
  lemma PushedUpMonotone(b1: int, b2: int, headerHeight: int)
    requires 0 <= b1 <= b2 && headerHeight > 0
    ensures PushedUp(b1, headerHeight).value.alpha <= PushedUp(b2, headerHeight).value.alpha
  {
    if b2 < headerHeight {
      assert MAX_ALPHA * b1 <= MAX_ALPHA * b2;
      DivMonotone(MAX_ALPHA * b1, MAX_ALPHA * b2, headerHeight);
    } else if b1 < headerHeight {
      PushedUpFades(b1, headerHeight);
    }
  }

  lemma DivMonotone(a: int, b: int, d: int)
    requires 0 <= a <= b && d > 0
    ensures a / d <= b / d
  {
    var qa, qb := a / d, b / d;
    assert qa * d <= a && b < (qb + 1) * d;
    assert qa > qb ==> qa * d >= (qb + 1) * d;
  }

  /** A configurePinnedHeader call made on the adapter. */
  datatype Configured = Configured(position: int, alpha: int)

  /**
   * The header's part of the view's state: whether it is drawn, its top and
   * height as last laid out, and the adapter's configure calls so far.
   */
  datatype Header = Header(visible: bool, top: int, height: int, configured: seq<Configured>)

  /**
   * The header after configuring it for the first visible item `position`,
   * given the header state `state` the adapter reports (PUSHED_NULL without
   * an adapter), the first child's bottom and the header's measured height.
   * With no header view or an unknown state nothing changes; GONE hides the
   * header; VISIBLE shows it opaque at the top; PUSHED_UP shows it where
   * PushedUp places it, and throws where PushedUp does. A new top lays the
   * header out again at its measured height.
   */
  function Configure(h: Header, present: bool, state: int, measured: int, position: int, bottom: int): (r: Outcome<Header>)
    ensures !present || (state != PINNED_HEADER_GONE && state != PINNED_HEADER_VISIBLE && state != PINNED_HEADER_PUSHED_UP) ==>
      r == Value(h)
    ensures present && state == PINNED_HEADER_GONE ==> r == Value(h.(visible := false))
    ensures present && state == PINNED_HEADER_VISIBLE ==>
      r == Value(Header(true, 0, if h.top != 0 then measured else h.height, h.configured + [Configured(position, MAX_ALPHA)]))
    ensures present && state == PINNED_HEADER_PUSHED_UP ==>
      var p := PushedUp(bottom, h.height);
      && (r.Thrown? <==> p.Thrown?)
      && (p.Thrown? ==> r == Thrown(p.exception))
      && (p.Value? ==> r == Value(Header(true, p.value.y, if h.top != p.value.y then measured else h.height,
                                          h.configured + [Configured(position, p.value.alpha)])))
  {
    if !present then Value(h)
    else if state == PINNED_HEADER_GONE then Value(h.(visible := false))
    else if state == PINNED_HEADER_VISIBLE then
      Value(Header(true, 0, if h.top != 0 then measured else h.height, h.configured + [Configured(position, MAX_ALPHA)]))
    else if state == PINNED_HEADER_PUSHED_UP then
      match PushedUp(bottom, h.height)
      case Thrown(e) => Thrown(e)
      case Value(p) =>
        Value(Header(true, p.y, if h.top != p.y then measured else h.height, h.configured + [Configured(position, p.alpha)]))
    else Value(h)
  }

  /**
   * Once the header is at its measured height, configuring it again for the
   * same item in the same circumstances leaves it where it is: same
   * visibility, top and height, with the same configure call repeated.
   */
  lemma ConfigureSettles(h: Header, present: bool, state: int, measured: int, position: int, bottom: int)
    requires h.height == measured
    requires Configure(h, present, state, measured, position, bottom).Value?
    ensures var h1 := Configure(h, present, state, measured, position, bottom).value;
      var r2 := Configure(h1, present, state, measured, position, bottom);
      && r2.Value?
      && r2.value.visible == h1.visible && r2.value.top == h1.top && r2.value.height == h1.height
      && r2.value.configured == h1.configured + h1.configured[|h.configured|..]
  {
  }

  /** The first child's bottom, 0 when there is no first child. */
  function ChildBottom(firstChildBottom: Option<int>): int
  {
    if firstChildBottom.Some? then firstChildBottom.value else 0
  }

  /** What configuring reports to its caller: the exception it threw, if any. */
  function Status(out: Outcome<Header>): Outcome<()>
  {
    if out.Thrown? then Thrown(out.exception) else Value(())
  }

  class PinnedHeaderListView {
    /** The CompatibleListView part of the object. */
    const list: CompatibleListView.CompatibleListView
    var hasHeaderView: bool
    var hasAdapter: bool
    var headerVisible: bool
    /** The header view's current top and height, and the height it measured. */
    var headerTop: int
    var headerHeight: int
    var measuredHeight: int
    var configured: seq<Configured>

    constructor (list: CompatibleListView.CompatibleListView)
      ensures this.list == list
      ensures !hasHeaderView && !hasAdapter && !headerVisible
      ensures headerTop == 0 && headerHeight == 0 && measuredHeight == 0 && configured == []
    {
      this.list := list;
      hasHeaderView, hasAdapter, headerVisible := false, false, false;
      headerTop, headerHeight, measuredHeight := 0, 0, 0;
      configured := [];
    }

    method SetPinnedHeaderView(present: bool)
      modifies this`hasHeaderView
      ensures hasHeaderView == present
    {
      hasHeaderView := present;
    }

    /** The adapter is cast to the pinned-header adapter interface; a null adapter leaves none. */
    method SetAdapter(adapter: Host) returns (r: Outcome<()>)
      modifies this`hasAdapter
      ensures adapter == NotImplementing ==> r == Thrown(ClassCast) && hasAdapter == old(hasAdapter)
      ensures adapter != NotImplementing ==> r == Value(()) && hasAdapter == (adapter == Implementing)
    {
      if adapter == NotImplementing {
        return Thrown(ClassCast);
      }
      hasAdapter := adapter == Implementing;
      return Value(());
    }

    method OnMeasure(measured: int)
      modifies this`measuredHeight
      ensures measuredHeight == (if hasHeaderView then measured else old(measuredHeight))
    {
      if hasHeaderView {
        measuredHeight := measured;
      }
    }

    /** The header state the adapter would report, or PUSHED_NULL when there is no adapter. */
    function HeaderState(adapterState: int): int
      reads this
    {
      if hasAdapter then adapterState else PINNED_HEADER_PUSHED_NULL
    }

    /** The header fields as one value. */
    function Current(): Header
      reads this
    {
      Header(headerVisible, headerTop, headerHeight, configured)
    }

    /**
     * Places the header for the first visible item `position`:
     * `adapterState` is what the adapter reports for it and
     * `firstChildBottom` the bottom of the first child view, if any. The
     * header becomes what Configure makes of it; a throw leaves it as it was.
     */
    method ConfigureHeaderView(position: int, adapterState: int, firstChildBottom: Option<int>) returns (r: Outcome<()>)
      modifies this`headerVisible, this`headerTop, this`headerHeight, this`configured
      ensures var out := Configure(old(Current()), hasHeaderView, HeaderState(adapterState), measuredHeight, position, ChildBottom(firstChildBottom));
        && r == Status(out)
        && Current() == (if out.Value? then out.value else old(Current()))
    {
      if !hasHeaderView {
        return Value(());
      }
      var state := PINNED_HEADER_PUSHED_NULL;
      if hasAdapter {
        state := adapterState;
      }
      if state == PINNED_HEADER_GONE {
        headerVisible := false;
      } else if state == PINNED_HEADER_VISIBLE {
        configured := configured + [Configured(position, MAX_ALPHA)];
        if headerTop != 0 {
          headerTop, headerHeight := 0, measuredHeight;
        }
        headerVisible := true;
      } else if state == PINNED_HEADER_PUSHED_UP {
        var bottom := if firstChildBottom.Some? then firstChildBottom.value else 0;
        var height := headerHeight;
        var y, alpha;
        if bottom < height {
          y := bottom - height;
          if height == 0 {
            return Thrown(Arithmetic);
          }
          alpha := JDiv(MAX_ALPHA * (height + y), height);
        } else {
          y, alpha := 0, MAX_ALPHA;
        }
        configured := configured + [Configured(position, alpha)];
        if headerTop != y {
          headerTop, headerHeight := y, measuredHeight;
        }
        headerVisible := true;
      }
      return Value(());
    }

    /**
     * A layout puts the header back at the top at its measured height, then
     * configures it for the first visible item; a throw while configuring
     * leaves the header laid out at the top.
     */
    method OnLayout(firstVisible: int, adapterState: int, firstChildBottom: Option<int>) returns (r: Outcome<()>)
      modifies this`headerVisible, this`headerTop, this`headerHeight, this`configured
      ensures !hasHeaderView ==> r == Value(()) && Current() == old(Current())
      ensures hasHeaderView ==>
        var laidOut := old(Current()).(top := 0, height := measuredHeight);
        var out := Configure(laidOut, true, HeaderState(adapterState), measuredHeight, firstVisible, ChildBottom(firstChildBottom));
        && r == Status(out)
        && Current() == (if out.Value? then out.value else laidOut)
      ensures hasHeaderView && HeaderState(adapterState) == PINNED_HEADER_VISIBLE ==>
        r == Value(()) && headerVisible && headerTop == 0 && headerHeight == measuredHeight
        && configured == old(configured) + [Configured(firstVisible, MAX_ALPHA)]
    {
      if hasHeaderView {
        headerTop, headerHeight := 0, measuredHeight;
        r := ConfigureHeaderView(firstVisible, adapterState, firstChildBottom);
      } else {
        r := Value(());
      }
    }

    /**
     * A scroll report configures the header for the first visible item and
     * then goes to the CompatibleListView part, unless configuring threw.
     */
    method OnScroll(first: int, visible: int, total: int, childTop: Option<int>, adapterState: int, firstChildBottom: Option<int>)
      returns (r: Outcome<()>)
      requires list.Valid()
      modifies this`headerVisible, this`headerTop, this`headerHeight, this`configured
      modifies list`scrollState, list`specifiedState, list`events
      ensures list.Valid()
      ensures var out := Configure(old(Current()), hasHeaderView, HeaderState(adapterState), measuredHeight, first, ChildBottom(firstChildBottom));
        && r == Status(out)
        && Current() == (if out.Value? then out.value else old(Current()))
      ensures r.Value? ==> list.ScrollReported(first, visible, total, childTop)
      ensures r.Thrown? ==> list.events == old(list.events) && list.scrollState == old(list.scrollState)
      ensures r.Thrown? <==>
        && hasHeaderView && HeaderState(adapterState) == PINNED_HEADER_PUSHED_UP
        && PushedUp(ChildBottom(firstChildBottom), old(headerHeight)).Thrown?
      ensures r.Thrown? ==> r == Thrown(Arithmetic)
    {
      r := ConfigureHeaderView(first, adapterState, firstChildBottom);
      if r.Value? {
        list.OnScroll(first, visible, total, childTop);
      }
    }

    /** The header is drawn exactly while it is marked visible; drawing a header view that was since removed throws. */
    method DispatchDraw() returns (r: Outcome<bool>)
      ensures r == if !headerVisible then Value(false) else if hasHeaderView then Value(true) else Thrown(NullPointer)
    {
      if headerVisible {
        if !hasHeaderView {
          return Thrown(NullPointer);
        }
        return Value(true);
      }
      return Value(false);
    }
  }
}
