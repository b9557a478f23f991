/**
 * The older list view with border detection always on: every scroll report
 * moves the border state, whether or not anyone listens, and the host
 * fragment or activity becomes a listener for whichever of the two listener
 * interfaces it implements.
 */
module OnBorderListView {
  import opened Scrolling

  /** A callback made by the list view, in the order made. */
  datatype Event = OnTop | OnBottom | OnListViewScrolled | OnListViewScrollStateChanged

  class OnBorderListView {
    var scrollState: Side
    var hasBorderListener: bool
    var hasScrolledListener: bool
    var events: seq<Event>

    /** No listeners yet; the list starts out at the bottom. */
    constructor ()
      ensures scrollState == Bottom && !hasBorderListener && !hasScrolledListener && events == []
    {
      scrollState := Bottom;
      hasBorderListener, hasScrolledListener := false, false;
      events := [];
    }

    /**
     * The host becomes the border listener if it implements that interface
     * and the scroll listener if it implements that one; a listener it does
     * not implement is left as it was.
     */
    method InitInterface(implementsBorder: bool, implementsScrolled: bool)
      modifies this`hasBorderListener, this`hasScrolledListener
      ensures hasBorderListener == (old(hasBorderListener) || implementsBorder)
      ensures hasScrolledListener == (old(hasScrolledListener) || implementsScrolled)
    {
      if implementsBorder {
        hasBorderListener := true;
      }
      if implementsScrolled {
        hasScrolledListener := true;
      }
    }

    method OnScrollStateChanged()
      modifies this`events
      ensures events == old(events) + (if hasScrolledListener then [OnListViewScrollStateChanged] else [])
    {
      if hasScrolledListener {
        events := events + [OnListViewScrollStateChanged];
      }
    }

    /** Every report moves the border state; the callbacks reach only listeners that are set. */
    method OnScroll(first: int, visible: int, total: int)
      modifies this`scrollState, this`events
      ensures var border := Enter(old(scrollState), ListSide(first, visible, total));
        && scrollState == border.0
        && events == old(events)
                     + (if hasScrolledListener then [OnListViewScrolled] else [])
                     + (if hasBorderListener then Callbacks(border.1, OnTop, OnBottom) else [])
    {
      if hasScrolledListener {
        events := events + [OnListViewScrolled];
      }
      if visible + first >= total {
        if scrollState != Bottom {
          if hasBorderListener {
            events := events + [OnBottom];
          }
          scrollState := Bottom;
        }
      } else if first == 0 {
        if scrollState != Top {
          if hasBorderListener {
            events := events + [OnTop];
          }
          scrollState := Top;
        }
      } else {
        scrollState := Middle;
      }
    }
  }
}
