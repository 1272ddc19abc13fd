/** The scroll-driven navbar background and its once-per-frame throttle. A
    browser animation frame is an explicit event carrying the scroll offset
    the frame reads; the frame-callback queue is a counter of requests not yet
    run. */
module Navbar {

  /** The navbar's inline background: not yet written, or one of the two
      constant colours the update writes. */
  datatype Background = Unstyled | Translucent | Elevated

  /** The scroll offset above which the navbar is elevated. */
  const Threshold: real := 50.0

  /** The CSS string written for each of the two styled backgrounds. */
  function Css(b: Background): (css: string)
    requires b != Unstyled
    ensures b == Elevated ==> css == "rgba(255, 255, 255, 0.95)"
    ensures b == Translucent ==> css == "rgba(255, 255, 255, 0.85)"
  {
    if b == Elevated then "rgba(255, 255, 255, 0.95)" else "rgba(255, 255, 255, 0.85)"
  }

  /** The background `updateNavbar` chooses: elevated strictly above the
      threshold, translucent at or below it. */
  function BackgroundFor(scrollY: real): (b: Background)
    ensures b != Unstyled
    ensures b == Elevated <==> scrollY > Threshold
    ensures b == Translucent <==> scrollY <= Threshold
  {
    if scrollY > Threshold then Elevated else Translucent
  }

  /** The controller's state: the `ticking` flag, the number of frame
      callbacks requested and not yet run, the background, and the number of
      background writes so far. */
  datatype NavState = NavState(ticking: bool, queued: nat, background: Background, writes: nat)

  /** A pending update exists exactly while `ticking` is set, and never more
      than one. */
  predicate Valid(s: NavState) {
    s.queued == if s.ticking then 1 else 0
  }

  /** The scroll listener: requests a frame only when none is pending. */
  function Scrolled(s: NavState): (t: NavState)
    requires Valid(s)
    ensures Valid(t) && t.ticking && t.queued == 1
    ensures t.background == s.background && t.writes == s.writes
    ensures s.ticking ==> t == s
  {
    if !s.ticking then s.(queued := s.queued + 1, ticking := true) else s
  }

  /** A browser frame at scroll offset `scrollY`: it runs the pending
      `updateNavbar`, if any, which writes the background once and clears the
      flag. */
  function Framed(s: NavState, scrollY: real): (t: NavState)
    requires Valid(s)
    ensures Valid(t) && !t.ticking && t.queued == 0
    ensures s.ticking ==> t.background == BackgroundFor(scrollY) && t.writes == s.writes + 1
    ensures !s.ticking ==> t == s
  {
    if s.queued > 0 then
      NavState(false, s.queued - 1, BackgroundFor(scrollY), s.writes + 1)
    else s
  }

  /** Browser events: a scroll, or an animation frame at a scroll offset. */
  datatype Event = Scroll | Frame(scrollY: real)

  function Apply(s: NavState, e: Event): NavState
    requires Valid(s)
  {
    match e
    case Scroll => Scrolled(s)
    case Frame(y) => Framed(s, y)
  }

  /** The number of frames in `events`. */
  function Frames(events: seq<Event>): nat {
    if events == [] then 0 else (if events[0].Frame? then 1 else 0) + Frames(events[1..])
  }

  /** The state after `events` in order, with the invariant preserved. */
  function Run(s: NavState, events: seq<Event>): (t: NavState)
    requires Valid(s)
    ensures Valid(t)
    decreases |events|
  {
    if events == [] then s else Run(Apply(s, events[0]), events[1..])
  }

  /** However many scroll events arrive, the background is written at most
      once per frame: an update pending at the start is written by a frame
      that `Frames` counts too. */
  lemma {:induction false} WritesBoundedByFrames(s: NavState, events: seq<Event>)
    requires Valid(s)
    ensures Run(s, events).writes <= s.writes + Frames(events)
    decreases |events|
  {
    if events != [] {
      WritesBoundedByFrames(Apply(s, events[0]), events[1..]);
    }
  }

  /** A burst of scroll events requests exactly one frame. */
  lemma {:induction false} ScrollBurstQueuesOne(s: NavState, n: nat)
    requires Valid(s) && n > 0
    ensures var t := Run(s, seq(n, _ => Scroll));
      t.ticking && t.queued == 1 && t.background == s.background && t.writes == s.writes
    decreases n
  {
    var events := seq(n, _ => Scroll);
    if n > 1 {
      assert events[1..] == seq(n - 1, _ => Scroll);
      ScrollBurstQueuesOne(Scrolled(s), n - 1);
    } else {
      assert events[1..] == [];
    }
  }

  /** A scroll followed by a frame shows the background for the offset the
      frame reads, whatever was pending before. */
  lemma ScrollThenFrameReflectsOffset(s: NavState, scrollY: real)
    requires Valid(s)
    ensures Run(s, [Scroll, Frame(scrollY)]).background == BackgroundFor(scrollY)
  {
    var events := [Scroll, Frame(scrollY)];
    var t := Scrolled(s);
    assert events[1..] == [Frame(scrollY)] && events[1..][1..] == [];
    assert Run(s, events) == Run(t, [Frame(scrollY)]) == Framed(t, scrollY);
  }

  /** The module-level `ticking` flag with the `updateNavbar` callback and the
      scroll listener (script.js:49-66). */
  class Throttle {
    var ticking: bool
    var queued: nat
    var background: Background
    var writes: nat

    function State(): NavState
      reads this
    {
      NavState(ticking, queued, background, writes)
    }

    constructor ()
      ensures State() == NavState(false, 0, Unstyled, 0) && Valid(State())
    {
      ticking := false;
      queued := 0;
      background := Unstyled;
      writes := 0;
    }

    /** The scroll listener (script.js:61-66). */
    method OnScroll()
      requires Valid(State())
      modifies this
      ensures State() == Scrolled(old(State()))
    {
      if !ticking {
        queued := queued + 1;
        ticking := true;
      }
    }

    /** An animation frame: runs the queued `updateNavbar` (script.js:51-59). */
    method RunFrame(scrollY: real)
      requires Valid(State())
      modifies this
      ensures State() == Framed(old(State()), scrollY)
    {
      if queued > 0 {
        queued := queued - 1;
        if scrollY > Threshold {
          background := Elevated;
        } else {
          background := Translucent;
        }
        writes := writes + 1;
        ticking := false;
      }
    }
  }
}
