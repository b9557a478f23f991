/**
 * The advert slider: a ViewPager over a list of adverts that shows the
 * current advert's title, lights the dot of the current page, advances
 * round-robin for the automatic rotation, and reports a click on a page
 * with the advert's own id, title and link. The title view and the dot
 * views are optional; a dot view is represented by the background resource
 * it was last given.
 */
module AdvertSlider {
  import opened JavaLang
  import opened Scrolling
  import opened AdvertSliderItem

  /** A clickDefaultAdvertSliderItem callback. */
  datatype Click = Click(id: int, title: string, link: string)

  /**
   * The backgrounds of n dots after `position` has been selected: the dot
   * at `position` gets `selected`, every other one `normal`.
   */
  function Dots(n: nat, position: int, selected: int, normal: int): (ds: seq<int>)
    ensures |ds| == n
    ensures forall i :: 0 <= i < n ==> ds[i] == (if i == position then selected else normal)
  {
    if n == 0 then [] else Dots(n - 1, position, selected, normal) + [if n - 1 == position then selected else normal]
  }

  /**
   * With two distinct resources, some dot is lit exactly when the position
   * is one of the dots, and then it is the only lit dot.
   */
  lemma ExactlyOneDotSelected(n: nat, position: int, selected: int, normal: int)
    requires selected != normal
    ensures (exists i :: 0 <= i < n && Dots(n, position, selected, normal)[i] == selected) <==> 0 <= position < n
    ensures forall i :: 0 <= i < n && Dots(n, position, selected, normal)[i] == selected ==> i == position
  {
    var ds := Dots(n, position, selected, normal);
    forall i | 0 <= i < n && ds[i] == selected
      ensures i == position
    {
    }
    if 0 <= position < n {
      assert ds[position] == selected;
      assert exists i :: 0 <= i < n && Dots(n, position, selected, normal)[i] == selected;
    } else {
      assert forall i :: 0 <= i < n ==> ds[i] != selected;
    }
  }

  /**
   * The position after (position + 1) % size on Java ints: an empty list
   * divides by zero; from a valid position the next page is the following
   * one, and the last wraps around to the first.
   */
  function NextPosition(position: int, size: nat): (r: Outcome<int>)
    requires IsInt32(position) && size < TWO_TO_31
    ensures size == 0 <==> r == Thrown(Arithmetic)
    ensures 0 <= position < size ==> r == Value(if position == size - 1 then 0 else position + 1)
  {
    if size == 0 then Thrown(Arithmetic)
    else
      JRemStep(position, size);
      Value(JRem(Wrap32(position + 1), size))
  }

  lemma JRemStep(p: int, size: nat)
    requires IsInt32(p) && 0 < size < TWO_TO_31
    ensures 0 <= p < size ==> JRem(Wrap32(p + 1), size) == if p == size - 1 then 0 else p + 1
  {
    if !(0 <= p < size) {
    } else if p == size - 1 {
      ModUnique(p + 1, size, 1, 0);
    } else {
      ModUnique(p + 1, size, 0, p + 1);
    }
  }

  /** The position after `k` automatic advances over a non-empty list: each one moves to the next page, wrapping at the end. */
  function Advanced(position: nat, size: nat, k: nat): (p: nat)
    requires position < size
    ensures p < size
  {
    if k == 0 then position
    else
      var q := Advanced(position, size, k - 1);
      if q == size - 1 then 0 else q + 1
  }

  /** Each of those advances is exactly what the rotation step computes on Java ints. */
  lemma AdvancedFollowsNextPosition(position: nat, size: nat, k: nat)
    requires position < size < TWO_TO_31 && k > 0
    ensures NextPosition(Advanced(position, size, k - 1), size) == Value(Advanced(position, size, k))
  {
  }

  /** k advances move k pages on, modulo the page count. */
  lemma {:induction false} AdvancedIsModular(position: nat, size: nat, k: nat)
    requires position < size
    ensures Advanced(position, size, k) == (position + k) % size
  {
    if k > 0 {
      AdvancedIsModular(position, size, k - 1);
      ModSucc(position + k - 1, size, Advanced(position, size, k - 1), Advanced(position, size, k));
    }
  }

  /** If q is a's remainder, the page after q is (a + 1)'s remainder. */
  lemma ModSucc(a: nat, size: nat, q: int, r: int)
    requires size > 0 && q == a % size && r == (if q == size - 1 then 0 else q + 1)
    ensures r == (a + 1) % size
  {
    if q == size - 1 {
      ModUnique(a + 1, size, a / size + 1, 0);
    } else {
      ModUnique(a + 1, size, a / size, q + 1);
    }
  }

  /** The remainder is the only r in [0, size) that makes a a multiple of size plus r. */
  lemma ModUnique(a: int, size: int, q: int, r: int)
    requires size > 0 && 0 <= r < size && a == q * size + r
    ensures a % size == r
  {
    var q', r' := a / size, a % size;
    assert (q - q') * size == r' - r;
    if q - q' >= 1 {
      MulAtLeast(q - q', size);
    } else if q' - q >= 1 {
      MulAtLeast(q' - q, size);
    }
  }

  lemma MulAtLeast(x: int, y: int)
    requires x >= 1 && y > 0
    ensures x * y >= y
  {
    assert x * y == (x - 1) * y + y;
  }

  /** A full round of advances comes back to the page it started from. */
  lemma FullRoundReturns(position: nat, size: nat)
    requires position < size
    ensures Advanced(position, size, size) == position
  {
    AdvancedIsModular(position, size, size);
    ModUnique(position + size, size, 1, position);
  }

  /**
   * A page reports the advert it was created with: after the data list is
   * replaced behind the adapter's back, a click on a page created before
   * still reports the old advert.
   */
  method ClickAfterDataChange(old_: Advert, new_: Advert) returns (reported: Click)
    ensures reported == Click(old_.id, old_.title, old_.link)
  {
    var slider := new DefaultAdvertSlider();
    slider.InitSlider(true, [old_], false, None, 0, 1);
    var created := slider.InstantiateItem(0);
    slider.SetViewPagerListData([new_]);
    slider.OnItemClick(0);
    reported := slider.clicks[0];
  }

  class DefaultAdvertSlider {
    var adverts: seq<Advert>
    var hasTitleView: bool
    /** The text of the title view. */
    var titleText: string
    var hasDotViews: bool
    /** The background resource of each dot view. */
    var dots: seq<int>
    var dotResOfNormal: int
    var dotResOfSelected: int
    var currentItemPosition: int
    var viewPagerScrollState: int
    var hasClickListener: bool
    var clicks: seq<Click>
    /** The pages the adapter has instantiated and not destroyed, each with the advert it captured. */
    var pages: map<int, Advert>

    /** The slider starts on page 0 with the pager idle. */
    constructor ()
      ensures currentItemPosition == 0 && viewPagerScrollState == SCROLL_STATE_IDLE
      ensures !IsDragging() && !IsSettling()
      ensures adverts == [] && !hasTitleView && titleText == [] && !hasDotViews && dots == []
      ensures !hasClickListener && clicks == [] && pages == map[]
    {
      adverts, hasTitleView, titleText, hasDotViews, dots := [], false, [], false, [];
      dotResOfNormal, dotResOfSelected := 0, 0;
      currentItemPosition, viewPagerScrollState := 0, SCROLL_STATE_IDLE;
      hasClickListener, clicks := false, [];
      pages := map[];
    }

    /**
     * Installs the listener, the data and the optional views, and a new
     * adapter whose pages are all still to be instantiated (the pager
     * destroys the old adapter's pages); the dots keep their current
     * backgrounds.
     */
    method InitSlider(listener: bool, data: seq<Advert>, titleView: bool, dotViews: Option<seq<int>>, normal: int, selected: int)
      modifies this`hasClickListener, this`adverts, this`hasTitleView, this`hasDotViews, this`dots
      modifies this`dotResOfNormal, this`dotResOfSelected, this`pages
      ensures hasClickListener == listener && adverts == data && hasTitleView == titleView
      ensures hasDotViews == dotViews.Some? && dots == (if dotViews.Some? then dotViews.value else [])
      ensures dotResOfNormal == normal && dotResOfSelected == selected
      ensures pages == map[]
    {
      hasClickListener, adverts, hasTitleView := listener, data, titleView;
      hasDotViews := dotViews.Some?;
      dots := if dotViews.Some? then dotViews.value else [];
      dotResOfNormal, dotResOfSelected := normal, selected;
      pages := map[];
    }

    /** Replaces the data list without telling the adapter: the pages already instantiated keep their adverts. */
    method SetViewPagerListData(data: seq<Advert>)
      modifies this`adverts
      ensures adverts == data
    {
      adverts := data;
    }

    /**
     * The adapter creates the page at `position`: the page captures the
     * advert the list holds there now, and a click on it reports that
     * advert from then on. A position outside the list throws.
     */
    method InstantiateItem(position: int) returns (r: Outcome<()>)
      modifies this`pages
      ensures !(0 <= position < |adverts|) ==> r == Thrown(IndexOutOfBounds) && pages == old(pages)
      ensures 0 <= position < |adverts| ==> r == Value(()) && pages == old(pages)[position := adverts[position]]
    {
      if !(0 <= position < |adverts|) {
        return Thrown(IndexOutOfBounds);
      }
      pages := pages[position := adverts[position]];
      return Value(());
    }

    /** The adapter removes the page at `position`. */
    method DestroyItem(position: int)
      modifies this`pages
      ensures pages == old(pages) - {position}
    {
      pages := pages - {position};
    }

    /**
     * The pager settled on `position`: it becomes the current item, the
     * title view shows the advert's title, and the dots light up exactly
     * at `position`. A position outside the list throws once the current
     * item is recorded, before any view changes.
     */
    method OnPageSelected(position: int) returns (r: Outcome<()>)
      modifies this`currentItemPosition, this`titleText, this`dots
      ensures currentItemPosition == position
      ensures !(0 <= position < |adverts|) ==>
        r == Thrown(IndexOutOfBounds) && titleText == old(titleText) && dots == old(dots)
      ensures 0 <= position < |adverts| ==>
        && r == Value(())
        && titleText == (if hasTitleView then adverts[position].title else old(titleText))
        && dots == (if hasDotViews then Dots(|old(dots)|, position, dotResOfSelected, dotResOfNormal) else old(dots))
    {
      currentItemPosition := position;
      if !(0 <= position < |adverts|) {
        return Thrown(IndexOutOfBounds);
      }
      var ad := adverts[position];
      if hasTitleView {
        titleText := ad.title;
      }
      if hasDotViews {
        for i := 0 to |dots|
          invariant currentItemPosition == position
          invariant titleText == (if hasTitleView then ad.title else old(titleText))
          invariant |dots| == |old(dots)|
          invariant forall j :: 0 <= j < i ==> dots[j] == (if j == position then dotResOfSelected else dotResOfNormal)
        {
          if i == position {
            dots := dots[i := dotResOfSelected];
          } else {
            dots := dots[i := dotResOfNormal];
          }
        }
        assert dots == Dots(|old(dots)|, position, dotResOfSelected, dotResOfNormal);
      }
      return Value(());
    }

    predicate IsDragging()
      reads this
    {
      viewPagerScrollState == SCROLL_STATE_DRAGGING
    }

    predicate IsSettling()
      reads this
    {
      viewPagerScrollState == SCROLL_STATE_SETTLING
    }

    /** The last state the pager reported is the one recorded; it is never both dragging and settling. */
    method OnPageScrollStateChanged(newState: int)
      modifies this`viewPagerScrollState
      ensures viewPagerScrollState == newState
      ensures IsDragging() <==> newState == SCROLL_STATE_DRAGGING
      ensures IsSettling() <==> newState == SCROLL_STATE_SETTLING
      ensures !(IsDragging() && IsSettling())
    {
      viewPagerScrollState := newState;
    }

    method SetViewPagerScrollState(state: int)
      modifies this`viewPagerScrollState
      ensures viewPagerScrollState == state
    {
      viewPagerScrollState := state;
    }

    /** The adapter has one page per advert. */
    function GetCount(): (n: nat)
      reads this
      ensures n == |adverts|
    {
      |adverts|
    }

    /**
     * The automatic rotation's step: the next page round-robin, wrapping
     * from the last to the first; an empty list divides by zero and leaves
     * the position as it was.
     */
    method IncreaseCurrentItemPosition() returns (r: Outcome<()>)
      requires IsInt32(currentItemPosition) && |adverts| < TWO_TO_31
      modifies this`currentItemPosition
      ensures |adverts| == 0 ==> r == Thrown(Arithmetic) && currentItemPosition == old(currentItemPosition)
      ensures |adverts| > 0 ==> r == Value(()) && currentItemPosition == NextPosition(old(currentItemPosition), |adverts|).value
      ensures 0 <= old(currentItemPosition) < |adverts| ==>
        currentItemPosition == (if old(currentItemPosition) == |adverts| - 1 then 0 else old(currentItemPosition) + 1)
    {
      if |adverts| == 0 {
        return Thrown(Arithmetic);
      }
      currentItemPosition := JRem(Wrap32(currentItemPosition + 1), |adverts|);
      return Value(());
    }

    /**
     * A click on the instantiated page at `position` reports the id, title
     * and link of the advert that page captured to the listener installed
     * now, if there is one. Only an instantiated page can be clicked.
     */
    method OnItemClick(position: int)
      requires position in pages
      modifies this`clicks
      ensures var ad := pages[position];
        clicks == old(clicks) + (if hasClickListener then [Click(ad.id, ad.title, ad.link)] else [])
    {
      var ad := pages[position];
      if hasClickListener {
        clicks := clicks + [Click(ad.id, ad.title, ad.link)];
      }
    }
  }
}
