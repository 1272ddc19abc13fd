/** The mobile navigation overlay: the menu element's inline `display`, the
    body's inline `overflow`, and the three handlers that change them. The
    page's click target is abstracted to two facts: whether it lies inside the
    menu and whether it lies inside the toggle button. */
module Menu {

  /** The menu element's inline `style.display`. `Unset` is the empty inline
      value the page starts with; like every value other than `flex`, it
      reads as "not visible". */
  datatype Display = Flex | None | Unset

  /** The body's inline `style.overflow`; `Unset` is the initial empty value. */
  datatype Overflow = Hidden | Auto | Unset

  datatype MenuState = MenuState(display: Display, overflow: Overflow)

  /** The menu counts as visible exactly when its display is `flex`. */
  predicate IsOpen(s: MenuState) {
    s.display == Flex
  }

  /** Body scrolling is locked exactly while the menu is visible. */
  predicate Consistent(s: MenuState) {
    s.overflow == Hidden <==> s.display == Flex
  }

  /** The state every closing path writes: display `none`, overflow `auto`. */
  const Closed := MenuState(None, Auto)

  /** The state the toggle writes when it opens the menu. */
  const Opened := MenuState(Flex, Hidden)

  /** The state the page starts with: both inline values empty. */
  const Initial := MenuState(Display.Unset, Overflow.Unset)

  /** `toggleMobileMenu`: flex closes, anything else (including unset) opens. */
  function Toggled(s: MenuState): (t: MenuState)
    ensures IsOpen(t) <==> !IsOpen(s)
    ensures Consistent(t)
    ensures IsOpen(s) ==> t == Closed
    ensures !IsOpen(s) ==> t == Opened
  {
    if s.display == Flex then Closed else Opened
  }

  /** The click handler of every mobile link: always closes. */
  function LinkClicked(s: MenuState): (t: MenuState)
    ensures !IsOpen(t) && Consistent(t)
    ensures t.display == None && t.overflow == Auto
  {
    Closed
  }

  /** The document click handler: closes only when the target is inside
      neither the menu nor the toggle button; otherwise changes nothing. */
  function DocumentClicked(s: MenuState, inMenu: bool, inButton: bool): (t: MenuState)
    ensures Consistent(s) ==> Consistent(t)
    ensures !inMenu && !inButton ==> t == Closed && !IsOpen(t)
    ensures inMenu || inButton ==> t == s
  {
    if !inMenu && !inButton then Closed else s
  }

  /** The events the controller reacts to. */
  datatype Event = Toggle | LinkClick | DocumentClick(inMenu: bool, inButton: bool)

  function Apply(s: MenuState, e: Event): MenuState {
    match e
    case Toggle => Toggled(s)
    case LinkClick => LinkClicked(s)
    case DocumentClick(inMenu, inButton) => DocumentClicked(s, inMenu, inButton)
  }

  /** The state after handling `events` in order. */
  function Run(s: MenuState, events: seq<Event>): MenuState
    decreases |events|
  {
    if events == [] then s else Run(Apply(s, events[0]), events[1..])
  }

  /** The initial state is consistent: no inline overflow and no inline display. */
  lemma InitialConsistent()
    ensures Consistent(Initial) && !IsOpen(Initial)
  {
  }

  /** The states the page can be in: the initial one and the two that the
      handlers write. */
  predicate Reachable(s: MenuState) {
    s == Initial || s == Opened || s == Closed
  }

  /** Toggling twice from a `flex` or `none` state the handlers wrote
      restores it. */
  lemma ToggleTwiceRestores(s: MenuState)
    requires s == Opened || s == Closed
    ensures Toggled(Toggled(s)) == s
  {
  }

  /** Toggling twice from a closed state (unset included) ends closed. */
  lemma ToggleTwiceFromClosed(s: MenuState)
    requires !IsOpen(s)
    ensures Toggled(Toggled(s)) == Closed
  {
  }

  /** A link click is idempotent: a second click changes nothing. */
  lemma LinkClickIdempotent(s: MenuState)
    ensures LinkClicked(LinkClicked(s)) == LinkClicked(s)
  {
  }

  /** Closing is idempotent on the document path too: an outside click on an
      already closed menu is a no-op. */
  lemma OutsideClickIdempotent(s: MenuState)
    ensures DocumentClicked(DocumentClicked(s, false, false), false, false) == DocumentClicked(s, false, false)
  {
  }

  /** A document click changes the state exactly when the target is outside
      both regions and the menu was not already in the closed state. */
  lemma DocumentClickChangesIff(s: MenuState, inMenu: bool, inButton: bool)
    ensures DocumentClicked(s, inMenu, inButton) != s <==> !inMenu && !inButton && s != Closed
  {
  }

  /** Each handler keeps the scroll lock in step with the menu's visibility. */
  lemma ApplyPreservesConsistent(s: MenuState, e: Event)
    requires Consistent(s)
    ensures Consistent(Apply(s, e))
  {
  }

  /** Any sequence of toggles, link clicks and document clicks keeps a
      consistent state consistent. */
  lemma {:induction false} RunPreservesConsistent(s: MenuState, events: seq<Event>)
    requires Consistent(s)
    ensures Consistent(Run(s, events))
    decreases |events|
  {
    if events != [] {
      ApplyPreservesConsistent(s, events[0]);
      RunPreservesConsistent(Apply(s, events[0]), events[1..]);
    }
  }

  /** Starting from the page's initial state, every sequence of events ends in
      a reachable, hence consistent, state. */
  lemma {:induction false} RunFromReachable(s: MenuState, events: seq<Event>)
    requires Reachable(s)
    ensures Reachable(Run(s, events)) && Consistent(Run(s, events))
    decreases |events|
  {
    if events != [] {
      RunFromReachable(Apply(s, events[0]), events[1..]);
    }
  }

  /** Once closed, the menu stays closed under any number of link clicks and
      document clicks: only the toggle reopens it. */
  lemma {:induction false} ClosedStaysClosedUnderClicks(s: MenuState, events: seq<Event>)
    requires s == Closed
    requires forall k :: 0 <= k < |events| ==> !events[k].Toggle?
    ensures Run(s, events) == Closed
    decreases |events|
  {
    if events != [] {
      ClosedStaysClosedUnderClicks(Apply(s, events[0]), events[1..]);
    }
  }

  /** The controller owning the two inline style values. */
  class MobileMenu {
    var display: Display
    var overflow: Overflow

    function State(): MenuState
      reads this
    {
      MenuState(display, overflow)
    }

    constructor ()
      ensures State() == Initial && Consistent(State())
    {
      display := Display.Unset;
      overflow := Overflow.Unset;
    }

    /** `toggleMobileMenu` (script.js:2-13). */
    method Toggle()
      modifies this
      ensures State() == Toggled(old(State()))
    {
      var isVisible := display == Flex;
      if isVisible {
        display := None;
        overflow := Auto;
      } else {
        display := Flex;
        overflow := Hidden;
      }
    }

    /** The click listener of each `.mobile-link` (script.js:17-20). */
    method OnLinkClick()
      modifies this
      ensures State() == LinkClicked(old(State()))
    {
      display := None;
      overflow := Auto;
    }

    /** The document click listener (script.js:24-32). */
    method OnDocumentClick(inMenu: bool, inButton: bool)
      modifies this
      ensures State() == DocumentClicked(old(State()), inMenu, inButton)
    {
      if !inMenu && !inButton {
        display := None;
        overflow := Auto;
      }
    }
  }
}
