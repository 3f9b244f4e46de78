/**
 * The page-transition controller of the root component: five full-screen pages
 * stacked on top of each other, one current page, a lock held for the 700 ms of
 * a transition, and a flag for the one sideways transition (Work and SampleWork).
 * Each page's position is a translation computed from that state.
 */
module Navigation {
  import LoadingScreen

  datatype View = Hero | Work | SampleWork | WorkProcess | AboutMe

  /** The fixed page order; a page's index is its position here. */
  const Pages: seq<View> := [Hero, Work, SampleWork, WorkProcess, AboutMe]

  const SplashMs: int := 7000

  /** `pages.indexOf(view)`. */
  function IndexOf(v: View): (i: nat)
    ensures i < |Pages| && Pages[i] == v
  {
    match v
    case Hero => 0
    case Work => 1
    case SampleWork => 2
    case WorkProcess => 3
    case AboutMe => 4
  }

  /** The three state cells of the controller. */
  datatype NavState = NavState(currentPageIndex: int, isAnimating: bool, isHorizontalTransition: bool)

  const Initial := NavState(0, false, false)

  /**
   * The current page is one of the five, and the sideways flag is only up during
   * a transition that ended on Work or SampleWork.
   */
  predicate Invariant(s: NavState) {
    0 <= s.currentPageIndex < |Pages| &&
    (s.isHorizontalTransition ==> s.isAnimating && s.currentPageIndex in {1, 2})
  }

  /** The move between pages `from` and `to` is sideways: exactly Work and SampleWork, either way. */
  predicate IsHorizontalPair(from: int, to: int) {
    (from == 1 && to == 2) || (from == 2 && to == 1)
  }

  /**
   * `handleNavigation`: dropped when the target is the current page or a
   * transition is running; otherwise the target becomes current and the lock is
   * taken, with the sideways flag for the Work/SampleWork pair.
   */
  function Navigate(s: NavState, target: View): (r: NavState)
    ensures IndexOf(target) == s.currentPageIndex || s.isAnimating ==> r == s
    ensures IndexOf(target) != s.currentPageIndex && !s.isAnimating ==>
      r.currentPageIndex == IndexOf(target) && r.isAnimating &&
      (r.isHorizontalTransition <==> {s.currentPageIndex, IndexOf(target)} == {1, 2})
    ensures Invariant(s) ==> Invariant(r)
  {
    var targetIndex := IndexOf(target);
    if targetIndex == s.currentPageIndex || s.isAnimating then s
    else NavState(targetIndex, true, IsHorizontalPair(s.currentPageIndex, targetIndex))
  }

  /** The 700 ms timeout: releases the lock and clears the sideways flag. */
  function Unlocked(s: NavState): (r: NavState)
    ensures r.currentPageIndex == s.currentPageIndex
    ensures !r.isAnimating && !r.isHorizontalTransition
    ensures Invariant(s) ==> Invariant(r)
  {
    s.(isAnimating := false, isHorizontalTransition := false)
  }

  function NavigateAll(s: NavState, targets: seq<View>): NavState
    decreases |targets|
  {
    if targets == [] then s else NavigateAll(Navigate(s, targets[0]), targets[1..])
  }

  /** While a transition runs, any number of navigation requests are all dropped. */
  lemma {:induction false} LockedDropsAll(s: NavState, targets: seq<View>)
    requires s.isAnimating
    ensures NavigateAll(s, targets) == s
    decreases |targets|
  {
    if targets != [] {
      assert Navigate(s, targets[0]) == s;
      LockedDropsAll(s, targets[1..]);
    }
  }

  /**
   * Once the timer has fired, a request for any other page is accepted and
   * takes the lock again; a repeat of the same request is then dropped.
   */
  lemma UnlockedAccepts(s: NavState, target: View)
    requires IndexOf(target) != s.currentPageIndex
    ensures Navigate(Unlocked(s), target).currentPageIndex == IndexOf(target)
    ensures Navigate(Unlocked(s), target).isAnimating
    ensures Navigate(Navigate(Unlocked(s), target), target) == Navigate(Unlocked(s), target)
  {
  }

  /**
   * Hero to Work, then sideways to SampleWork, then on to WorkProcess, each after
   * its unlock: only the middle move is horizontal, though SampleWork comes
   * before WorkProcess in the page order.
   */
  lemma SampleWorkToWorkProcessIsVertical()
    ensures var a := Navigate(Initial, Work);
      var b := Navigate(Unlocked(a), SampleWork);
      var c := Navigate(Unlocked(b), WorkProcess);
      a.currentPageIndex == 1 && !a.isHorizontalTransition &&
      b.currentPageIndex == 2 && b.isHorizontalTransition &&
      c.currentPageIndex == 3 && c.isAnimating && !c.isHorizontalTransition
  {
  }

  // ---- Page positions ----

  type Sign = s: int | -1 <= s <= 1

  /**
   * A page's translation: `TranslateX(-1)` is translateX(-100%), `TranslateY(1)`
   * is translateY(100vh), and a sign of 0 is on screen.
   */
  datatype Offset = TranslateX(sign: Sign) | TranslateY(sign: Sign)

  function Position(pageIndex: int, current: int): Sign {
    if pageIndex == current then 0 else if pageIndex < current then -1 else 1
  }

  /**
   * `getSectionTransform`: the first rule that applies wins. A page is on screen
   * exactly when it is the current page; SampleWork only ever moves sideways,
   * and the pages outside the Work/SampleWork pair only ever move vertically.
   */
  function SectionTransform(s: NavState, pageIndex: int): (r: Offset)
    ensures r.sign == 0 <==> pageIndex == s.currentPageIndex
    ensures pageIndex == 2 ==> r.TranslateX?
    ensures pageIndex != 1 && pageIndex != 2 ==> r.TranslateY?
  {
    if s.isHorizontalTransition && (pageIndex == 1 || pageIndex == 2) then
      TranslateX(Position(pageIndex, s.currentPageIndex))
    else if pageIndex == 1 && !s.isHorizontalTransition then
      TranslateY(Position(pageIndex, s.currentPageIndex))
    else if pageIndex == 2 && !s.isHorizontalTransition then
      TranslateX(if pageIndex == s.currentPageIndex then 0 else 1)
    else
      TranslateY(Position(pageIndex, s.currentPageIndex))
  }

  /** Exactly one of the five pages is on screen. */
  lemma ExactlyOneOnScreen(s: NavState)
    requires Invariant(s)
    ensures (set p | 0 <= p < |Pages| && SectionTransform(s, p).sign == 0) == {s.currentPageIndex}
  {
  }

  /** During a sideways transition Work and SampleWork slide along X, by page order. */
  lemma HorizontalPairSlidesSideways(s: NavState, pageIndex: int)
    requires s.isHorizontalTransition && pageIndex in {1, 2} && pageIndex != s.currentPageIndex
    ensures SectionTransform(s, pageIndex) ==
      TranslateX(if pageIndex < s.currentPageIndex then -1 else 1)
  {
  }

  /** Outside a sideways transition, an off-screen SampleWork is parked to the right, never above or below. */
  lemma SampleWorkParkedRight(s: NavState)
    requires !s.isHorizontalTransition && s.currentPageIndex != 2
    ensures SectionTransform(s, 2) == TranslateX(1)
  {
  }

  /**
   * Hero, WorkProcess, AboutMe, and Work outside a sideways transition, move
   * vertically: above the screen when before the current page, below when after.
   */
  lemma VerticalPagesByOrder(s: NavState, pageIndex: int)
    requires pageIndex in {0, 3, 4} || (pageIndex == 1 && !s.isHorizontalTransition)
    requires pageIndex != s.currentPageIndex
    ensures SectionTransform(s, pageIndex) ==
      TranslateY(if pageIndex < s.currentPageIndex then -1 else 1)
  {
  }

  /** Pages that move vertically keep the page order: an earlier page is never below a later one. */
  lemma VerticalStackOrdered(s: NavState, p: int, q: int)
    requires p < q
    requires SectionTransform(s, p).TranslateY? && SectionTransform(s, q).TranslateY?
    ensures SectionTransform(s, p).sign <= SectionTransform(s, q).sign
  {
  }

  // ---- The loading overlay ----

  /** `showLoading`: true until the 7000 ms timer clears it, and never set again. */
  predicate ShowLoading(t: int)
    ensures ShowLoading(t) <==> t < SplashMs
  {
    LoadingScreen.OneShot(LoadingScreen.SetterCall(SplashMs, false), t, true);
    LoadingScreen.FlagAt([LoadingScreen.SetterCall(SplashMs, false)], t, true)
  }

  /** Whenever the overlay has been removed, every tile of the loading screen has already landed. */
  lemma TilesLandBeforeOverlayRemoved(random: seq<real>, t: int)
    requires LoadingScreen.Enough(random) && !ShowLoading(t)
    ensures forall k :: 0 <= k < LoadingScreen.BlockCount ==>
      LoadingScreen.LandingTime(LoadingScreen.Grid(random)[k]) < t as real
  {
    LoadingScreen.GridLandsBy(random);
  }

  // ---- The imperative controller ----

  class PageController {
    var currentPageIndex: int
    var isAnimating: bool
    var isHorizontalTransition: bool

    function State(): NavState
      reads this
    {
      NavState(currentPageIndex, isAnimating, isHorizontalTransition)
    }

    ghost predicate Valid()
      reads this
    {
      Invariant(State())
    }

    constructor ()
      ensures Valid() && State() == Initial
    {
      currentPageIndex, isAnimating, isHorizontalTransition := 0, false, false;
    }

    method HandleNavigation(targetView: View)
      requires Valid()
      modifies this
      ensures Valid() && State() == Navigate(old(State()), targetView)
    {
      var targetIndex := IndexOf(targetView);
      if targetIndex == currentPageIndex || isAnimating {
        return;
      }
      var isHorizontal := (currentPageIndex == 1 && targetIndex == 2) ||
                          (currentPageIndex == 2 && targetIndex == 1);
      isAnimating := true;
      isHorizontalTransition := isHorizontal;
      currentPageIndex := targetIndex;
    }

    /** The callback of the one-shot 700 ms timer a navigation schedules. */
    method Unlock()
      requires Valid()
      modifies this
      ensures Valid() && State() == Unlocked(old(State()))
    {
      isAnimating := false;
      isHorizontalTransition := false;
    }
  }
}
