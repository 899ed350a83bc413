/**
 * The mobile-menu controller of the site header (src/components/Header.tsx).
 * One state cell, whether the mobile menu is open, is flipped by the burger
 * button and forced closed by the overlay's links.  An effect keyed on that
 * cell keeps two fields of the document body's style in step with it (the
 * scroll lock), and its cleanup releases the lock before every re-run and
 * when the header unmounts.
 */
module Header {

  /** The two inline style fields of `document.body` the effect writes. */
  datatype BodyStyle = BodyStyle(overflow: string, touchAction: string)

  /** Scrolling and touch gestures blocked while the menu is open. */
  const Locked := BodyStyle("hidden", "none")

  /** The body's own scrolling restored. */
  const Released := BodyStyle("unset", "auto")

  /** What one run of the effect leaves on the body for a given open state. */
  function EffectStyle(open: bool): (style: BodyStyle)
  {
    if open then Locked else Released
  }

  /** The clickable controls that change the open state: the burger button,
      any of the overlay's navigation links, and the overlay's call to action. */
  datatype Click = MenuButton | NavLink | FooterCta

  /** The open state after a click: the button flips it, every other
      control closes the menu. */
  function Clicked(open: bool, c: Click): (open': bool)
  {
    match c
    case MenuButton => !open
    case NavLink => false
    case FooterCta => false
  }

  /** The component's state together with the body style it controls. */
  datatype MenuState = MenuState(isOpen: bool, body: BodyStyle)

  /** The body carries exactly the style the effect writes for the state. */
  predicate Synced(s: MenuState) {
    s.body == EffectStyle(s.isOpen)
  }

  /** Right after mounting: closed, and the first run of the effect has
      released the body. */
  const Mount := MenuState(false, EffectStyle(false))

  /** One click, followed by what React does with the effect: when the
      dependency changed, the previous run's cleanup writes the released
      style and the effect runs again for the new value (the effect writes
      both fields, so only its own style remains); otherwise neither runs. */
  function Dispatch(s: MenuState, c: Click): (s': MenuState)
  {
    var open := Clicked(s.isOpen, c);
    if open == s.isOpen then MenuState(open, s.body)
    else MenuState(open, EffectStyle(open))
  }

  /** The state after the clicks `clicks`, in order, from mounting. */
  function Session(clicks: seq<Click>): (s: MenuState)
    decreases |clicks|
  {
    if clicks == [] then Mount
    else Dispatch(Session(clicks[..|clicks| - 1]), clicks[|clicks| - 1])
  }

  /** The lock rules: the effect locks the body when, and only when, the
      menu is open, and the released style is a different one. */
  lemma EffectLocksIffOpen(open: bool)
    ensures EffectStyle(open) == Locked <==> open
    ensures EffectStyle(open) == Released <==> !open
    ensures open ==> EffectStyle(open).overflow == "hidden" && EffectStyle(open).touchAction == "none"
    ensures !open ==> EffectStyle(open).overflow == "unset" && EffectStyle(open).touchAction == "auto"
  {
  }

  /** The button flips the state and twice restores it; the overlay's
      controls close the menu whatever it was, so repeating one changes
      nothing. */
  lemma ClickRules(open: bool, c: Click)
    ensures Clicked(open, MenuButton) == !open
    ensures Clicked(Clicked(open, MenuButton), MenuButton) == open
    ensures c != MenuButton ==> !Clicked(open, c) && Clicked(Clicked(open, c), c) == Clicked(open, c)
  {
  }

  /** A click keeps the body in step with the state. */
  lemma DispatchKeepsSync(s: MenuState, c: Click)
    requires Synced(s)
    ensures Synced(Dispatch(s, c))
    ensures Dispatch(s, c).isOpen == Clicked(s.isOpen, c)
  {
  }

  /** Whatever was clicked, the body is locked exactly while the menu is
      open. */
  lemma {:induction false} SessionSynced(clicks: seq<Click>)
    ensures Synced(Session(clicks))
    ensures Session(clicks).body == Locked <==> Session(clicks).isOpen
    decreases |clicks|
  {
    if clicks != [] {
      SessionSynced(clicks[..|clicks| - 1]);
      DispatchKeepsSync(Session(clicks[..|clicks| - 1]), clicks[|clicks| - 1]);
    }
  }

  /** The number of burger-button clicks since the last click that closed
      the menu from the overlay (or since mounting). */
  function ButtonsSinceClose(clicks: seq<Click>): (n: nat)
    decreases |clicks|
  {
    if clicks == [] then 0
    else if clicks[|clicks| - 1] == MenuButton then 1 + ButtonsSinceClose(clicks[..|clicks| - 1])
    else 0
  }

  /** The menu is open exactly when the burger button was clicked an odd
      number of times since the last overlay click. */
  lemma {:induction false} SessionOpenIffOddButtons(clicks: seq<Click>)
    ensures Session(clicks).isOpen <==> ButtonsSinceClose(clicks) % 2 == 1
    decreases |clicks|
  {
    if clicks != [] {
      SessionOpenIffOddButtons(clicks[..|clicks| - 1]);
    }
  }

  /** The lock never outlives the open menu: whatever was clicked, a closed
      menu leaves the body released, and on an open menu every control (the
      button, an overlay link, the call to action) closes it and releases
      the body at once. */
  lemma {:induction false} LockNeverLeaks(clicks: seq<Click>, c: Click)
    ensures !Session(clicks).isOpen ==> Session(clicks).body == Released
    ensures Session(clicks).isOpen
            ==> !Session(clicks + [c]).isOpen && Session(clicks + [c]).body == Released
  {
    SessionSynced(clicks);
    SessionSynced(clicks + [c]);
    assert (clicks + [c])[..|clicks|] == clicks;
  }

  /** The overlay's `z-[110]`. */
  const OverlayZIndex: nat := 110

  /** The overlay is in the tree only while the menu is open. */
  predicate OverlayShown(open: bool) {
    open
  }

  /** The header's `z-[120]` when open, `z-[100]` when closed. */
  function HeaderZIndex(open: bool): (z: nat)
  {
    if open then 120 else 100
  }

  /** The burger button's `aria-label`. */
  function MenuButtonLabel(open: bool): (text: string)
  {
    if open then "Cerrar men\U{00FA}" else "Abrir men\U{00FA}"
  }

  /** Everything rendered agrees with the body lock: the overlay, the
      header raised above it, and the button offering to close, all
      exactly while the body is locked. */
  lemma {:induction false} RenderingFollowsLock(clicks: seq<Click>)
    ensures var s := Session(clicks);
            && (OverlayShown(s.isOpen) <==> s.body == Locked)
            && (HeaderZIndex(s.isOpen) == 120 <==> s.body == Locked)
            && (HeaderZIndex(s.isOpen) > OverlayZIndex <==> s.body == Locked)
            && (HeaderZIndex(s.isOpen) == 100 <==> s.body == Released)
            && (MenuButtonLabel(s.isOpen) == "Cerrar men\U{00FA}" <==> s.body == Locked)
            && (MenuButtonLabel(s.isOpen) == "Abrir men\U{00FA}" <==> s.body == Released)
  {
    SessionSynced(clicks);
  }

  /** The live header: the `isMobileMenuOpen` cell and the two body style
      fields it drives. */
  class MobileMenu {
    var isOpen: bool
    var overflow: string
    var touchAction: string

    function Body(): (b: BodyStyle)
      reads this
    {
      BodyStyle(overflow, touchAction)
    }

    function State(): (s: MenuState)
      reads this
    {
      MenuState(isOpen, Body())
    }

    ghost predicate Valid()
      reads this
    {
      Synced(State())
    }

    /** Mounting: the menu starts closed and the effect's first run
        releases the body. */
    constructor ()
      ensures State() == Mount
      ensures Valid()
    {
      isOpen := false;
      overflow := "unset";
      touchAction := "auto";
    }

    /** The burger button's handler. */
    method ToggleButton()
      modifies this
      ensures isOpen == !old(isOpen)
      ensures Body() == old(Body())
    {
      isOpen := !isOpen;
    }

    /** The handler shared by every overlay link and the call to action. */
    method SelectLink()
      modifies this
      ensures !isOpen
      ensures Body() == old(Body())
    {
      isOpen := false;
    }

    /** One run of the scroll-lock effect. */
    method ApplyEffect()
      modifies this
      ensures isOpen == old(isOpen)
      ensures isOpen ==> overflow == "hidden" && touchAction == "none"
      ensures !isOpen ==> overflow == "unset" && touchAction == "auto"
      ensures Valid()
    {
      if isOpen {
        overflow := "hidden";
        touchAction := "none";
      } else {
        overflow := "unset";
        touchAction := "auto";
      }
    }

    /** The effect's cleanup, run before a re-run and on unmount. */
    method Teardown()
      modifies this
      ensures isOpen == old(isOpen)
      ensures overflow == "unset" && touchAction == "auto"
      ensures Body() == Released
    {
      overflow := "unset";
      touchAction := "auto";
    }

    /** A click on one of the controls, with the effect re-run React
        performs when the open state changed. */
    method HandleClick(c: Click)
      modifies this
      ensures State() == Dispatch(old(State()), c)
      ensures old(Valid()) ==> Valid()
    {
      var before := isOpen;
      match c {
        case MenuButton => ToggleButton();
        case NavLink => SelectLink();
        case FooterCta => SelectLink();
      }
      if isOpen != before {
        Teardown();
        ApplyEffect();
      }
    }
  }
}
