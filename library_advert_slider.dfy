/**
 * The older advert slider, whose pages are slider items that carry their
 * own displayed title, their own dot background and the details a click
 * reports. The page listener remembers the page it selected last and, on
 * the next selection, dims that page's dot and lights the new one; the
 * slider can also set the title and dots itself, either from an old and a
 * new page or by relighting every dot.
 */
module LibraryAdvertSlider {
  import opened JavaLang
  import opened Scrolling
  import AdvertSlider

  /** A slider item as the slider uses it: what it displays and reports, and its dot's background. */
  datatype SliderItem = SliderItem(
    displayedTitle: string, dotRes: int,
    kind: int, advertId: int, title: string, imageUrl: string, linkId: int, url: string)

  /** A clickDefaultAdvertSliderItem callback: the item's details with its 1-based location. */
  datatype Click = Click(kind: int, location: int, advertId: int, title: string, imageUrl: string, linkId: int, url: string)

  /** The dot backgrounds of the items, in order. */
  function DotsOf(items: seq<SliderItem>): (ds: seq<int>)
    ensures |ds| == |items|
    ensures forall i :: 0 <= i < |items| ==> ds[i] == items[i].dotRes
  {
    if items == [] then [] else DotsOf(items[..|items| - 1]) + [items[|items| - 1].dotRes]
  }

  /**
   * The items after dimming the dot at `from` and then lighting the one at
   * `to`, each only where it is an index of the list; nothing else changes.
   */
  function Reselected(items: seq<SliderItem>, from: int, to: int, normal: int, selected: int): (r: seq<SliderItem>)
    ensures |r| == |items|
    ensures forall i :: 0 <= i < |items| ==>
      r[i] == items[i].(dotRes := if i == to then selected else if i == from then normal else items[i].dotRes)
  {
    var dimmed := if 0 <= from < |items| then items[from := items[from].(dotRes := normal)] else items;
    if 0 <= to < |dimmed| then dimmed[to := dimmed[to].(dotRes := selected)] else dimmed
  }

  /**
   * Moving the selection from the one lit dot (or from none) to `to` leaves
   * exactly the dot at `to` lit, as relighting every dot for `to` would; so
   * the listener's bookkeeping keeps at most one dot lit.
   */
  lemma ReselectMovesTheLitDot(items: seq<SliderItem>, from: int, to: int, normal: int, selected: int)
    requires DotsOf(items) == AdvertSlider.Dots(|items|, from, selected, normal)
    ensures DotsOf(Reselected(items, from, to, normal, selected)) == AdvertSlider.Dots(|items|, to, selected, normal)
  {
    var r := Reselected(items, from, to, normal, selected);
    var a, b := DotsOf(r), AdvertSlider.Dots(|items|, to, selected, normal);
    forall i | 0 <= i < |items| ensures a[i] == b[i] {
      assert DotsOf(items)[i] == items[i].dotRes;
    }
  }

  /**
   * Whatever page was selected before, a slider initialised again with a
   * non-empty list selects any page of that list without throwing: the new
   * page listener dims page 0, which exists, and lights the chosen one.
   */
  method SelectAfterReinit(earlier: seq<SliderItem>, before: int, data: seq<SliderItem>, position: int) returns (r: Outcome<()>)
    requires 0 <= position < |data|
    ensures r == Value(())
  {
    var slider := new DefaultAdvertSlider();
    slider.InitSlider(false, earlier, false, 0, 1);
    var ignored := slider.OnPageSelected(before);
    slider.InitSlider(false, data, false, 0, 1);
    r := slider.OnPageSelected(position);
  }

  /**
   * A page reports the item it was created with: after the data list is
   * replaced behind the adapter's back, a click on a page created before
   * still reports the old item, at the location of its page.
   */
  method ClickAfterDataChange(old_: SliderItem, new_: SliderItem) returns (reported: Click)
    ensures reported == Click(old_.kind, 1, old_.advertId, old_.title, old_.imageUrl, old_.linkId, old_.url)
  {
    var slider := new DefaultAdvertSlider();
    slider.InitSlider(true, [old_], false, 0, 1);
    var created := slider.InstantiateItem(0);
    slider.SetViewPagerListData([new_]);
    slider.OnItemClick(0);
    reported := slider.clicks[0];
  }

  class DefaultAdvertSlider {
    var items: seq<SliderItem>
    var hasTitleView: bool
    /** The text of the title view. */
    var titleText: string
    var dotResOfNormal: int
    var dotResOfSelected: int
    var currentItemPosition: int
    var viewPagerScrollState: int
    /** The page listener's record of the page it selected last. */
    var oldPos: int
    var hasClickListener: bool
    var clicks: seq<Click>
    /** The pages the adapter has instantiated and not destroyed, each with the item it captured. */
    var pages: map<int, SliderItem>

    /** The slider and its listener both start on page 0, with the pager idle and no pages. */
    constructor ()
      ensures currentItemPosition == 0 && oldPos == 0 && viewPagerScrollState == SCROLL_STATE_IDLE
      ensures !IsDragging() && !IsSettling()
      ensures items == [] && !hasTitleView && titleText == [] && !hasClickListener && clicks == []
      ensures pages == map[]
    {
      items, hasTitleView, titleText := [], false, [];
      dotResOfNormal, dotResOfSelected := 0, 0;
      currentItemPosition, viewPagerScrollState, oldPos := 0, SCROLL_STATE_IDLE, 0;
      hasClickListener, clicks := false, [];
      pages := map[];
    }

    /**
     * Installs the listener, the data, the title view and the dot resources,
     * a new adapter, whose pages are all still to be instantiated (the pager
     * destroys the old adapter's pages), and a new page listener, whose
     * remembered page starts at 0 again.
     */
    method InitSlider(listener: bool, data: seq<SliderItem>, titleView: bool, normal: int, selected: int)
      modifies this`hasClickListener, this`items, this`hasTitleView, this`dotResOfNormal, this`dotResOfSelected
      modifies this`oldPos, this`pages
      ensures hasClickListener == listener && items == data && hasTitleView == titleView
      ensures dotResOfNormal == normal && dotResOfSelected == selected
      ensures oldPos == 0 && pages == map[]
    {
      hasClickListener, items, hasTitleView := listener, data, titleView;
      dotResOfNormal, dotResOfSelected := normal, selected;
      oldPos := 0;
      pages := map[];
    }

    /**
     * Replaces the data list without telling the adapter: the pages already
     * instantiated keep the items they captured, and the listener's last
     * page is kept, and may now lie outside the list.
     */
    method SetViewPagerListData(data: seq<SliderItem>)
      modifies this`items
      ensures items == data
    {
      items := data;
    }

    /**
     * The adapter creates the page at `position`: the page captures the
     * item the list holds there now, and a click on it reports that item
     * from then on. A position outside the list throws.
     */
    method InstantiateItem(position: int) returns (r: Outcome<()>)
      modifies this`pages
      ensures !(0 <= position < |items|) ==> r == Thrown(IndexOutOfBounds) && pages == old(pages)
      ensures 0 <= position < |items| ==> r == Value(()) && pages == old(pages)[position := items[position]]
    {
      if !(0 <= position < |items|) {
        return Thrown(IndexOutOfBounds);
      }
      pages := pages[position := items[position]];
      return Value(());
    }

    /** The adapter removes the page at `position`. */
    method DestroyItem(position: int)
      modifies this`pages
      ensures pages == old(pages) - {position}
    {
      pages := pages - {position};
    }

    /**
     * The pager settled on `position`: it becomes the current item, the
     * title view shows that item's displayed title, the last selected
     * page's dot is dimmed and this one's lit, and this page is remembered.
     * A position outside the list throws before any view changes; a
     * remembered page outside the list throws after the title is set.
     */
    method OnPageSelected(position: int) returns (r: Outcome<()>)
      modifies this`currentItemPosition, this`titleText, this`items, this`oldPos
      ensures currentItemPosition == position
      ensures !(0 <= position < |items|) ==>
        r == Thrown(IndexOutOfBounds) && titleText == old(titleText) && items == old(items) && oldPos == old(oldPos)
      ensures 0 <= position < |items| ==>
        && titleText == (if hasTitleView then items[position].displayedTitle else old(titleText))
        && (!(0 <= old(oldPos) < |items|) ==> r == Thrown(IndexOutOfBounds) && items == old(items) && oldPos == old(oldPos))
        && (0 <= old(oldPos) < |items| ==>
              && r == Value(())
              && items == Reselected(old(items), old(oldPos), position, dotResOfNormal, dotResOfSelected)
              && oldPos == position)
    {
      currentItemPosition := position;
      if !(0 <= position < |items|) {
        return Thrown(IndexOutOfBounds);
      }
      var item := items[position];
      if hasTitleView {
        titleText := item.displayedTitle;
      }
      if !(0 <= oldPos < |items|) {
        return Thrown(IndexOutOfBounds);
      }
      items := items[oldPos := items[oldPos].(dotRes := dotResOfNormal)];
      items := items[position := items[position].(dotRes := dotResOfSelected)];
      oldPos := position;
      return Value(());
    }

    predicate IsDragging()
      reads this
    {
      viewPagerScrollState == SCROLL_STATE_DRAGGING
    }

    predicate IsSettling()
      reads this
    {
      viewPagerScrollState == SCROLL_STATE_SETTLING
    }

    /** The last state the pager reported is the one recorded; it is never both dragging and settling. */
    method OnPageScrollStateChanged(newState: int)
      modifies this`viewPagerScrollState
      ensures viewPagerScrollState == newState
      ensures IsDragging() <==> newState == SCROLL_STATE_DRAGGING
      ensures IsSettling() <==> newState == SCROLL_STATE_SETTLING
      ensures !(IsDragging() && IsSettling())
    {
      viewPagerScrollState := newState;
    }

    /**
     * Shows the displayed title of `newPos` (without checking that it is a
     * page, so an outside index throws when there is a title view) and then
     * dims `oldPos` and lights `newPos`, each only where it is a page.
     */
    method SetTitleAndDotFrom(oldPosition: int, newPos: int) returns (r: Outcome<()>)
      modifies this`titleText, this`items
      ensures hasTitleView && !(0 <= newPos < |items|) ==>
        r == Thrown(IndexOutOfBounds) && titleText == old(titleText) && items == old(items)
      ensures !(hasTitleView && !(0 <= newPos < |items|)) ==>
        && r == Value(())
        && titleText == (if hasTitleView then items[newPos].displayedTitle else old(titleText))
        && items == Reselected(old(items), oldPosition, newPos, dotResOfNormal, dotResOfSelected)
    {
      if hasTitleView {
        if !(0 <= newPos < |items|) {
          return Thrown(IndexOutOfBounds);
        }
        titleText := items[newPos].displayedTitle;
      }
      if 0 <= oldPosition < |items| {
        items := items[oldPosition := items[oldPosition].(dotRes := dotResOfNormal)];
      }
      if 0 <= newPos < |items| {
        items := items[newPos := items[newPos].(dotRes := dotResOfSelected)];
      }
      return Value(());
    }

    /**
     * Relights every dot: the item at `newPos` gets the selected background
     * and every other item the normal one, so an index outside the list
     * leaves them all dimmed; nothing but the dots changes.
     */
    method SetTitleAndDot(newPos: int)
      modifies this`items
      ensures |items| == |old(items)|
      ensures DotsOf(items) == AdvertSlider.Dots(|items|, newPos, dotResOfSelected, dotResOfNormal)
      ensures forall i :: 0 <= i < |items| ==> items[i] == old(items)[i].(dotRes := items[i].dotRes)
    {
      for i := 0 to |items|
        invariant |items| == |old(items)|
        invariant forall j :: 0 <= j < |items| ==> items[j] == old(items)[j].(dotRes := items[j].dotRes)
        invariant forall j :: 0 <= j < i ==> items[j].dotRes == (if newPos == j then dotResOfSelected else dotResOfNormal)
      {
        items := items[i := items[i].(dotRes := if newPos == i then dotResOfSelected else dotResOfNormal)];
      }
      assert DotsOf(items) == AdvertSlider.Dots(|items|, newPos, dotResOfSelected, dotResOfNormal);
    }

    /** The automatic rotation's step, as in the newer slider. */
    method IncreaseCurrentItemPosition() returns (r: Outcome<()>)
      requires IsInt32(currentItemPosition) && |items| < TWO_TO_31
      modifies this`currentItemPosition
      ensures |items| == 0 ==> r == Thrown(Arithmetic) && currentItemPosition == old(currentItemPosition)
      ensures |items| > 0 ==> r == Value(()) && currentItemPosition == AdvertSlider.NextPosition(old(currentItemPosition), |items|).value
      ensures 0 <= old(currentItemPosition) < |items| ==>
        currentItemPosition == (if old(currentItemPosition) == |items| - 1 then 0 else old(currentItemPosition) + 1)
    {
      if |items| == 0 {
        return Thrown(Arithmetic);
      }
      currentItemPosition := JRem(Wrap32(currentItemPosition + 1), |items|);
      return Value(());
    }

    /**
     * A click on the instantiated page at `position` reports the details of
     * the item that page captured, with the location counted from 1, to the
     * listener installed now, if any. Only an instantiated page can be
     * clicked.
     */
    method OnItemClick(position: int)
      requires position in pages
      modifies this`clicks
      ensures !hasClickListener ==> clicks == old(clicks)
      ensures hasClickListener ==>
        var it := pages[position];
        && |clicks| == |old(clicks)| + 1 && clicks[..|old(clicks)|] == old(clicks)
        && clicks[|old(clicks)|] == Click(it.kind, position + 1, it.advertId, it.title, it.imageUrl, it.linkId, it.url)
    {
      var it := pages[position];
      if hasClickListener {
        clicks := clicks + [Click(it.kind, position + 1, it.advertId, it.title, it.imageUrl, it.linkId, it.url)];
      }
    }
  }
}
