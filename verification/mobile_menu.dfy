/** The slide-in navigation of js/mobile-menu.js: opening and closing the
    menu (classes, body scrolling and ARIA attributes), the edge swipe that
    opens it, the left swipe that closes it, and the initial ARIA state.
    Touch positions are the `screenX` values of the two touch events. */
module MobileMenu {

  /** The `open` class of the nav and of the overlay, the nav's `aria-hidden`,
      the toggle's `aria-expanded`, and `document.body.style.overflow`. */
  datatype MenuState = MenuState(
    navOpen: bool,
    overlayOpen: bool,
    ariaHidden: string,
    ariaExpanded: string,
    bodyOverflow: string)

  /** The attributes and body scrolling agree with the nav being open. */
  predicate Consistent(st: MenuState) {
    st.overlayOpen == st.navOpen
    && st.ariaHidden == (if st.navOpen then "false" else "true")
    && st.ariaExpanded == (if st.navOpen then "true" else "false")
    && st.bodyOverflow == (if st.navOpen then "hidden" else "")
  }

  /** `openNavMenu`. */
  function Open(st: MenuState): (r: MenuState)
    ensures r.navOpen && Consistent(r)
  {
    MenuState(true, true, "false", "true", "hidden")
  }

  /** `closeNavMenu`. */
  function Close(st: MenuState): (r: MenuState)
    ensures !r.navOpen && Consistent(r)
  {
    MenuState(false, false, "true", "false", "")
  }

  /** Opening and closing are idempotent, and each undoes the other on a
      consistent state of the opposite kind. */
  lemma OpenCloseIdempotent(st: MenuState)
    ensures Open(Open(st)) == Open(st) && Close(Close(st)) == Close(st)
    ensures Consistent(st) && !st.navOpen ==> Close(Open(st)) == st
    ensures Consistent(st) && st.navOpen ==> Open(Close(st)) == st
  {
  }

  /** The script's start: the ARIA attributes say closed; the `open` classes
      and the overflow are whatever the markup had. */
  function Initial(markup: MenuState): (r: MenuState)
    ensures r.ariaHidden == "true" && r.ariaExpanded == "false"
    ensures r.navOpen == markup.navOpen && r.overlayOpen == markup.overlayOpen
    ensures r.bodyOverflow == markup.bodyOverflow
  {
    markup.(ariaHidden := "true", ariaExpanded := "false")
  }

  /** From markup with the menu closed and scrolling untouched the initial
      state is the closed menu. */
  lemma InitialIsClosed(markup: MenuState)
    requires !markup.navOpen && !markup.overlayOpen && markup.bodyOverflow == ""
    ensures Consistent(Initial(markup)) && Initial(markup) == Close(markup)
  {
  }

  /** Clicking the close button, the overlay or any nav link. */
  function NavLinkClick(st: MenuState): (r: MenuState)
    ensures !r.navOpen && !r.overlayOpen && Consistent(r)
  {
    Close(st)
  }

  const SwipeThreshold: int := 100
  const EdgeWidth: int := 50

  /** `handleSwipe`: a swipe starting within 50 px of the left edge that moves
      right by more than 100 px opens the menu; then, if the menu is open, a
      move left by more than 100 px closes it. */
  function HandleSwipe(st: MenuState, startX: int, endX: int): (r: MenuState)
  {
    var distance := endX - startX;
    var afterOpen := if startX < EdgeWidth && distance > SwipeThreshold then Open(st) else st;
    if afterOpen.navOpen && distance < -SwipeThreshold then Close(afterOpen) else afterOpen
  }

  /** A swipe opens the menu exactly when it starts near the edge and moves
      right far enough, closes an open menu exactly when it moves left far
      enough, and otherwise changes nothing; no swipe does both. */
  lemma SwipeRules(st: MenuState, startX: int, endX: int)
    ensures var d := endX - startX;
            var r := HandleSwipe(st, startX, endX);
            && (startX < EdgeWidth && d > SwipeThreshold ==> r == Open(st))
            && (st.navOpen && d < -SwipeThreshold ==> r == Close(st))
            && (!(startX < EdgeWidth && d > SwipeThreshold) && !(st.navOpen && d < -SwipeThreshold) ==> r == st)
            && !(startX < EdgeWidth && d > SwipeThreshold && d < -SwipeThreshold)
  {
  }

  /** Swipes, link clicks and the buttons keep a consistent menu consistent. */
  lemma SwipeKeepsConsistent(st: MenuState, startX: int, endX: int)
    requires Consistent(st)
    ensures Consistent(HandleSwipe(st, startX, endX))
    ensures Consistent(NavLinkClick(st)) && Consistent(Open(st)) && Consistent(Close(st))
  {
  }

  /** A left swipe on a closed menu, or a right swipe from the middle of the
      screen, leaves it as it was. */
  lemma SwipesThatDoNothing(st: MenuState, startX: int, endX: int)
    requires (!st.navOpen && endX - startX < -SwipeThreshold) || (startX >= EdgeWidth && endX > startX)
    ensures HandleSwipe(st, startX, endX) == st
  {
  }
}
