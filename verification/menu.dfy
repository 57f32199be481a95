/**
  The mobile menu. Its state is the `active` class of the hamburger button
  (`menuToggle`) and of the mobile navigation panel (`navMobile`); four
  listeners change it.
 */
module Menu {

  datatype MenuState = MenuState(toggleActive: bool, navActive: bool)

  /** Both `active` classes removed. */
  const Closed := MenuState(false, false)

  /** The key that closes the menu, compared against `KeyboardEvent.key`. */
  const EscapeKey := "Escape"

  datatype MenuEvent =
    | ToggleClick                         // click on the hamburger button
    | NavLinkClick                        // click on any `.nav-link`
    | DocumentClick(insideHeader: bool)   // click reaching the document listener
    | KeyDown(key: string)                // keydown reaching the document listener

  /** The events after which the source removes both `active` classes. */
  predicate Closes(e: MenuEvent) {
    || e.NavLinkClick?
    || (e.DocumentClick? && !e.insideHeader)
    || (e.KeyDown? && e.key == EscapeKey)
  }

  /** Both classes flipped, as two `classList.toggle('active')` calls do. */
  function Flip(s: MenuState): MenuState {
    MenuState(!s.toggleActive, !s.navActive)
  }

  /** The two classes agree: the menu is either open or closed as a whole. */
  predicate Synced(s: MenuState) {
    s.toggleActive == s.navActive
  }

  /** The effect of one event on the menu. */
  function Step(s: MenuState, e: MenuEvent): (r: MenuState)
    ensures e.ToggleClick? ==> r.toggleActive != s.toggleActive && r.navActive != s.navActive
    ensures Closes(e) ==> !r.toggleActive && !r.navActive
    ensures !e.ToggleClick? && !Closes(e) ==> r == s
  {
    match e
    case ToggleClick => Flip(s)
    case NavLinkClick => Closed
    case DocumentClick(inside) => if inside then s else Closed
    case KeyDown(key) => if key == EscapeKey then Closed else s
  }

  /** Two toggle clicks restore the original state. */
  lemma ToggleTwiceRestores(s: MenuState)
    ensures Step(Step(s, ToggleClick), ToggleClick) == s
  {
  }

  /** Every closing event is idempotent: a second one changes nothing. */
  lemma CloseIdempotent(s: MenuState, e: MenuEvent)
    requires Closes(e)
    ensures Step(Step(s, e), e) == Step(s, e) == Closed
  {
  }

  /** A click inside the header leaves the menu as it was. */
  lemma InsideClickKeepsState(s: MenuState)
    ensures Step(s, DocumentClick(true)) == s
  {
  }

  /** Any key other than Escape leaves the menu as it was. */
  lemma OtherKeyKeepsState(s: MenuState, key: string)
    requires key != EscapeKey
    ensures Step(s, KeyDown(key)) == s
  {
  }

  /** Each event keeps the two classes in agreement if they agreed before. */
  lemma StepPreservesSync(s: MenuState, e: MenuEvent)
    requires Synced(s)
    ensures Synced(Step(s, e))
  {
  }

  /** The state after a sequence of events, applied in order. */
  function Run(s: MenuState, es: seq<MenuEvent>): MenuState
    decreases |es|
  {
    if |es| == 0 then s else Run(Step(s, es[0]), es[1..])
  }

  /** Number of toggle clicks in `es`. */
  function ToggleCount(es: seq<MenuEvent>): nat {
    if |es| == 0 then 0 else (if es[0].ToggleClick? then 1 else 0) + ToggleCount(es[1..])
  }

  /** A page that starts with agreeing classes keeps them agreeing forever. */
  lemma {:induction false} RunPreservesSync(s: MenuState, es: seq<MenuEvent>)
    requires Synced(s)
    ensures Synced(Run(s, es))
    decreases |es|
  {
    if |es| > 0 {
      StepPreservesSync(s, es[0]);
      RunPreservesSync(Step(s, es[0]), es[1..]);
    }
  }

  /** With no closing event, only the parity of the toggle clicks matters. */
  lemma {:induction false} RunWithoutClose(s: MenuState, es: seq<MenuEvent>)
    requires forall i :: 0 <= i < |es| ==> !Closes(es[i])
    ensures Run(s, es) == if ToggleCount(es) % 2 == 0 then s else Flip(s)
    decreases |es|
  {
    if |es| > 0 {
      assert forall i :: 0 <= i < |es[1..]| ==> es[1..][i] == es[i + 1];
      RunWithoutClose(Step(s, es[0]), es[1..]);
    }
  }

  /** After the last closing event the menu is open exactly when an odd
      number of toggle clicks followed it, whatever happened before. */
  lemma {:induction false} RunAfterLastClose(s: MenuState, es: seq<MenuEvent>, c: nat)
    requires c < |es| && Closes(es[c])
    requires forall i :: c < i < |es| ==> !Closes(es[i])
    ensures Run(s, es) == if ToggleCount(es[c + 1..]) % 2 == 0 then Closed else MenuState(true, true)
    decreases c
  {
    if c == 0 {
      assert forall i :: 0 <= i < |es[1..]| ==> es[1..][i] == es[i + 1];
      RunWithoutClose(Closed, es[1..]);
    } else {
      assert es[1..][c - 1 + 1..] == es[c + 1..];
      RunAfterLastClose(Step(s, es[0]), es[1..], c - 1);
    }
  }
}
