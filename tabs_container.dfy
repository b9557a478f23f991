/**
 * The tabs container that keeps groups of tab views in step with a
 * ViewPager: group p holds the tabs that select page p, selecting a tab
 * marks its group selected and the previous group unselected, and the
 * change listener hears of every tab change and of every page that settles.
 * Tab views are identified by number; the UI calls made on them and on the
 * pager, and the listener callbacks, go to an event log.
 */
module TabsContainer {
  import opened JavaLang
  import opened Scrolling

  datatype Event =
    | SetUI(tab: int, selected: bool)
    | PagerSetCurrent(position: int)
    | TabChanged(index: int, refreshPage: bool)
    | TabScrolledFixed(position: int)

  /** setUIForSelected / setUIForUnSelected on every tab of a group, in order. */
  function GroupUI(tabs: seq<int>, selected: bool): (es: seq<Event>)
    ensures |es| == |tabs|
    ensures forall i :: 0 <= i < |tabs| ==> es[i] == SetUI(tabs[i], selected)
  {
    if tabs == [] then [] else GroupUI(tabs[..|tabs| - 1], selected) + [SetUI(tabs[|tabs| - 1], selected)]
  }

  /**
   * The UI calls of a tab change over the first n groups, in group order:
   * the previous group's tabs are unselected and the current group's
   * selected; other groups are not touched.
   */
  function UiPass(groups: seq<seq<int>>, previous: int, current: int, n: nat): seq<Event>
    requires n <= |groups|
  {
    if n == 0 then []
    else UiPass(groups, previous, current, n - 1)
         + (if n - 1 == previous then GroupUI(groups[n - 1], false) else [])
         + (if n - 1 == current then GroupUI(groups[n - 1], true) else [])
  }

  /**
   * A tab change selects only tabs of the current group and unselects only
   * tabs of the previous one; every tab of each of those groups that exists
   * gets its call; an index outside the groups (such as the initial -1)
   * touches nothing.
   */
  lemma {:induction false} UiPassSpec(groups: seq<seq<int>>, previous: int, current: int, n: nat)
    requires n <= |groups|
    ensures forall e :: e in UiPass(groups, previous, current, n) ==> e.SetUI?
    ensures forall e :: e in UiPass(groups, previous, current, n) && e.selected ==>
      0 <= current < n && e.tab in groups[current]
    ensures forall e :: e in UiPass(groups, previous, current, n) && !e.selected ==>
      0 <= previous < n && e.tab in groups[previous]
    ensures 0 <= current < n ==> forall t :: t in groups[current] ==> SetUI(t, true) in UiPass(groups, previous, current, n)
    ensures 0 <= previous < n ==> forall t :: t in groups[previous] ==> SetUI(t, false) in UiPass(groups, previous, current, n)
  {
    if n > 0 {
      UiPassSpec(groups, previous, current, n - 1);
      var before := UiPass(groups, previous, current, n - 1);
      var un := if n - 1 == previous then GroupUI(groups[n - 1], false) else [];
      var sel := if n - 1 == current then GroupUI(groups[n - 1], true) else [];
      assert UiPass(groups, previous, current, n) == before + un + sel;
      forall t | n - 1 == current && t in groups[current]
        ensures SetUI(t, true) in sel
      {
        var i :| 0 <= i < |groups[current]| && groups[current][i] == t;
        assert sel[i] == SetUI(t, true);
      }
      forall t | n - 1 == previous && t in groups[previous]
        ensures SetUI(t, false) in un
      {
        var i :| 0 <= i < |groups[previous]| && groups[previous][i] == t;
        assert un[i] == SetUI(t, false);
      }
      forall e | e in un ensures e.SetUI? && !e.selected && e.tab in groups[n - 1] {
        var i :| 0 <= i < |un| && un[i] == e;
      }
      forall e | e in sel ensures e.SetUI? && e.selected && e.tab in groups[n - 1] {
        var i :| 0 <= i < |sel| && sel[i] == e;
      }
    }
  }

  /** The groups after adding `tab` to group `position`: empty groups pad the list up to it. */
  function AddedTab(groups: seq<seq<int>>, position: nat, tab: int): (r: seq<seq<int>>)
    ensures |r| == if position < |groups| then |groups| else position + 1
    ensures r[position] == (if position < |groups| then groups[position] else []) + [tab]
    ensures forall i :: 0 <= i < |r| && i != position ==> r[i] == (if i < |groups| then groups[i] else [])
  {
    var padded := groups + seq(if position < |groups| then 0 else position + 1 - |groups|, _ => []);
    padded[position := padded[position] + [tab]]
  }

  /** Tabs added to two different groups give the same groups in either order. */
  lemma AddTabsCommute(groups: seq<seq<int>>, p: nat, q: nat, s: int, t: int)
    requires p != q
    ensures AddedTab(AddedTab(groups, p, s), q, t) == AddedTab(AddedTab(groups, q, t), p, s)
  {
    var a, b := AddedTab(AddedTab(groups, p, s), q, t), AddedTab(AddedTab(groups, q, t), p, s);
    assert |a| == |b|;
    forall i | 0 <= i < |a| ensures a[i] == b[i] {
    }
  }

  class FragmentViewPagerTabsContainer {
    var groups: seq<seq<int>>
    var currentTabIndex: int
    var previousTabIndex: int
    var preViewPagerState: int
    /** The pager's current item, as set through this container. */
    var pagerItem: int
    var hasListener: bool
    var events: seq<Event>

    /** No groups yet, no tab selected, and the pager idle on its first page. */
    constructor (listener: bool)
      ensures groups == [] && currentTabIndex == -1 && previousTabIndex == -1
      ensures preViewPagerState == SCROLL_STATE_IDLE && pagerItem == 0
      ensures hasListener == listener && events == []
    {
      groups := [];
      currentTabIndex, previousTabIndex := -1, -1;
      preViewPagerState := SCROLL_STATE_IDLE;
      pagerItem := 0;
      hasListener := listener;
      events := [];
    }

    /**
     * Adds `tab` to group `position`, first padding the groups with empty
     * ones; a negative position throws when the group is fetched.
     */
    method AddTabViews(position: int, tab: int) returns (r: Outcome<()>)
      modifies this`groups
      ensures position < 0 ==> r == Thrown(IndexOutOfBounds) && groups == old(groups)
      ensures position >= 0 ==> r == Value(()) && groups == AddedTab(old(groups), position, tab)
    {
      var gs := groups;
      while |gs| <= position
        invariant |old(groups)| <= |gs|
        invariant position >= 0 ==> |gs| <= (if position < |old(groups)| then |old(groups)| else position + 1)
        invariant gs[..|old(groups)|] == old(groups)
        invariant forall i :: |old(groups)| <= i < |gs| ==> gs[i] == []
        decreases position + 1 - |gs|
      {
        gs := gs + [[]];
      }
      if position < 0 {
        return Thrown(IndexOutOfBounds);
      }
      groups := gs[position := gs[position] + [tab]];
      ghost var expected := AddedTab(old(groups), position, tab);
      assert |groups| == |expected|;
      forall i | 0 <= i < |groups| ensures groups[i] == expected[i] {
        if i < |old(groups)| {
          assert gs[i] == gs[..|old(groups)|][i];
        }
      }
      return Value(());
    }

    /** A click on a tab of group `position` moves the pager there, unless that tab is already current. */
    method OnTabClick(position: int)
      modifies this`events, this`pagerItem, this`currentTabIndex, this`previousTabIndex
      ensures old(currentTabIndex) == position ==>
        && events == old(events) && pagerItem == old(pagerItem)
        && currentTabIndex == old(currentTabIndex) && previousTabIndex == old(previousTabIndex)
      ensures old(currentTabIndex) != position ==> SetCurrentItemDone(position)
    {
      if currentTabIndex != position {
        SetCurrentItemAtPosition(position);
      }
    }

    /** What SetCurrentItemAtPosition did, as its postcondition states it. */
    twostate predicate SetCurrentItemDone(position: int)
      reads this
    {
      if 0 <= position <= |groups| then
        && pagerItem == position
        && (old(currentTabIndex) != position ==> TabSet(position, true, [PagerSetCurrent(position)]))
        && (old(currentTabIndex) == position ==>
              && events == old(events) + [PagerSetCurrent(position)]
              && currentTabIndex == old(currentTabIndex) && previousTabIndex == old(previousTabIndex))
      else
        events == old(events) && pagerItem == old(pagerItem) && currentTabIndex == old(currentTabIndex)
        && previousTabIndex == old(previousTabIndex)
    }

    /** What a tab change to `position` did, after the calls in `first`. */
    twostate predicate TabSet(position: int, refreshPage: bool, first: seq<Event>)
      reads this
    {
      && previousTabIndex == old(currentTabIndex)
      && currentTabIndex == position
      && events == old(events) + first + UiPass(groups, old(currentTabIndex), position, |groups|)
                   + (if hasListener then [TabChanged(position, refreshPage)] else [])
    }

    /**
     * Moves the pager to `position`, which may be one past the last group,
     * and changes tab if it is not the current one; any other position is
     * ignored.
     */
    method SetCurrentItemAtPosition(position: int)
      modifies this`events, this`pagerItem, this`currentTabIndex, this`previousTabIndex
      ensures SetCurrentItemDone(position)
    {
      if 0 <= position <= |groups| {
        events := events + [PagerSetCurrent(position)];
        pagerItem := position;
        if currentTabIndex != position {
          SetTabAtPosition(position, true);
        }
      }
    }

    /**
     * Selecting the current tab again does nothing. Otherwise the current
     * tab becomes the previous one, the previous group is unselected and
     * group `position` selected, and the listener hears of the change once.
     */
    method SetTabAtPosition(position: int, refreshPage: bool)
      modifies this`events, this`currentTabIndex, this`previousTabIndex
      ensures old(currentTabIndex) == position ==>
        events == old(events) && currentTabIndex == old(currentTabIndex) && previousTabIndex == old(previousTabIndex)
      ensures old(currentTabIndex) != position ==> TabSet(position, refreshPage, [])
    {
      if currentTabIndex != position {
        previousTabIndex := currentTabIndex;
        currentTabIndex := position;
        for i := 0 to |groups|
          invariant previousTabIndex == old(currentTabIndex) && currentTabIndex == position
          invariant events == old(events) + UiPass(groups, previousTabIndex, currentTabIndex, i)
        {
          if i == previousTabIndex {
            SetUIAt(i, false);
          }
          if i == currentTabIndex {
            SetUIAt(i, true);
          }
        }
        if hasListener {
          events := events + [TabChanged(position, refreshPage)];
        }
      }
    }

    /** Sets the UI of every tab of a group; a position outside the groups is ignored. */
    method SetUIAt(position: int, selected: bool)
      modifies this`events
      ensures events == old(events) + (if 0 <= position < |groups| then GroupUI(groups[position], selected) else [])
    {
      if 0 <= position < |groups| {
        var tabs := groups[position];
        for i := 0 to |tabs|
          invariant events == old(events) + GroupUI(tabs[..i], selected)
        {
          assert tabs[..i + 1][..i] == tabs[..i];
          events := events + [SetUI(tabs[i], selected)];
        }
        assert tabs[..|tabs|] == tabs;
      }
    }

    /** A page has settled exactly when the pager goes from SETTLING to IDLE; the state is always recorded. */
    method OnPageScrollStateChanged(state: int)
      modifies this`events, this`preViewPagerState
      ensures preViewPagerState == state
      ensures events == old(events) +
        (if old(preViewPagerState) == SCROLL_STATE_SETTLING && state == SCROLL_STATE_IDLE && hasListener
         then [TabScrolledFixed(pagerItem)] else [])
    {
      if preViewPagerState == SCROLL_STATE_SETTLING && state == SCROLL_STATE_IDLE {
        if hasListener {
          events := events + [TabScrolledFixed(pagerItem)];
        }
      }
      preViewPagerState := state;
    }

    method OnPageSelected(position: int)
      modifies this`events, this`pagerItem, this`currentTabIndex, this`previousTabIndex
      ensures SetCurrentItemDone(position)
    {
      SetCurrentItemAtPosition(position);
    }
  }
}
