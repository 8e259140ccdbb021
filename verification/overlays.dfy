/** The modal dialogs and the mobile navigation menu, as a state machine over
    what they write: each modal's displayed flag and the inline overflow style
    of the page body, which both of them use as a scroll lock.

    Modals are identified by their element id. A modal counts as displayed
    exactly when its inline display style is 'block'; every other value
    ('none', or none set yet, leaving the stylesheet's hidden default) counts
    as not displayed, which is how the Escape handler reads it. */
module Overlays {

  /** document.body.style.overflow: not set (''), 'hidden' or 'auto'. */
  datatype Overflow = Unset | Hidden | Auto

  /** The mobile menu: its elements are missing (no handlers are installed),
      or it is folded or unfolded (the 'active' class on the toggle and the
      menu, which the handlers always set together). */
  datatype Menu = Absent | Folded | Unfolded

  datatype Page = Page(shown: map<string, bool>, menu: Menu, overflow: Overflow)

  /** Background scrolling is blocked. */
  predicate Locked(p: Page) {
    p.overflow == Hidden
  }

  predicate AnyShown(p: Page) {
    exists id | id in p.shown :: p.shown[id]
  }

  /** Only the entry for id may differ between the two modal maps. */
  predicate OthersKept(p: Page, q: Page, id: string) {
    && q.shown.Keys == p.shown.Keys
    && forall other :: other in p.shown && other != id ==> q.shown[other] == p.shown[other]
  }

  /** openModal: shows the modal with that id and locks the background; an id
      with no element changes nothing. */
  function OpenModal(p: Page, id: string): (q: Page)
    ensures id in p.shown ==> OthersKept(p, q, id) && q.shown[id] && Locked(q) && q.menu == p.menu
    ensures id !in p.shown ==> q == p
  {
    if id in p.shown then p.(shown := p.shown[id := true], overflow := Hidden) else p
  }

  /** closeModal: hides the modal with that id and sets overflow to 'auto',
      whether or not another modal is still displayed; an id with no element
      changes nothing. */
  function CloseModal(p: Page, id: string): (q: Page)
    ensures id in p.shown ==> OthersKept(p, q, id) && !q.shown[id] && q.overflow == Auto && q.menu == p.menu
    ensures id !in p.shown ==> q == p
  {
    if id in p.shown then p.(shown := p.shown[id := false], overflow := Auto) else p
  }

  /** The Escape handler, as a reference definition: every modal hidden, and
      overflow set to 'auto' when at least one of them was displayed. */
  function EscapeAll(p: Page): (q: Page)
    ensures q.shown.Keys == p.shown.Keys && !AnyShown(q)
    ensures q.menu == p.menu
    ensures q.overflow == (if AnyShown(p) then Auto else p.overflow)
  {
    Page(map id | id in p.shown :: false, p.menu, if AnyShown(p) then Auto else p.overflow)
  }

  /** The Escape handler as the source runs it: the modals in document order,
      each displayed one hidden in turn, with overflow set to 'auto' at each. */
  method PressEscape(p: Page, order: seq<string>) returns (q: Page)
    requires forall id :: id in p.shown <==> id in order
    ensures q.shown.Keys == p.shown.Keys
    ensures forall id :: id in q.shown ==> !q.shown[id]
    ensures q.menu == p.menu
    ensures AnyShown(p) ==> q.overflow == Auto
    ensures !AnyShown(p) ==> q.overflow == p.overflow
    ensures q == EscapeAll(p)
  {
    q := p;
    var i := 0;
    while i < |order|
      invariant 0 <= i <= |order|
      invariant q.shown.Keys == p.shown.Keys
      invariant forall id :: id in q.shown ==> q.shown[id] == (p.shown[id] && id !in order[..i])
      invariant q.menu == p.menu
      invariant q.overflow == (if exists j | 0 <= j < i :: p.shown[order[j]] then Auto else p.overflow)
    {
      var id := order[i];
      if q.shown[id] {
        q := q.(shown := q.shown[id := false], overflow := Auto);
      }
      assert order[..i + 1] == order[..i] + [id];
      i := i + 1;
    }
    assert order[..i] == order;
    if AnyShown(p) {
      var id :| id in p.shown && p.shown[id];
      var j :| 0 <= j < |order| && order[j] == id;
    }
    assert q.shown == map id | id in p.shown :: false;
  }

  /** Clicking the toggle folds or unfolds the menu, locking the background
      exactly while it is unfolded and clearing the style when it folds. */
  function ToggleMenu(p: Page): (q: Page)
    ensures p.menu == Absent ==> q == p
    ensures p.menu != Absent ==> q.shown == p.shown && q.menu != p.menu && q.menu != Absent
    ensures p.menu != Absent ==> (Locked(q) <==> q.menu == Unfolded) && (q.overflow == Unset <==> q.menu == Folded)
  {
    match p.menu
    case Absent => p
    case Folded => p.(menu := Unfolded, overflow := Hidden)
    case Unfolded => p.(menu := Folded, overflow := Unset)
  }

  /** Clicking a menu link, or clicking anywhere outside the toggle and the
      menu, folds the menu and clears the body's overflow style, even when
      the menu was already folded. */
  function FoldMenu(p: Page): (q: Page)
    ensures p.menu == Absent ==> q == p
    ensures p.menu != Absent ==> q.shown == p.shown && q.menu == Folded && q.overflow == Unset
  {
    if p.menu == Absent then p else p.(menu := Folded, overflow := Unset)
  }

  /** A click on a modal's backdrop (the element with class 'modal' itself).
      The document's listener runs before the window's while the click
      bubbles, so the menu folds first; then the modal is hidden and overflow
      set to 'auto'. */
  function BackdropClick(p: Page, id: string): (q: Page)
    requires id in p.shown
    ensures OthersKept(p, q, id) && !q.shown[id]
    ensures q.overflow == Auto
    ensures q.menu == (if p.menu == Absent then Absent else Folded)
  {
    var folded := FoldMenu(p);
    folded.(shown := folded.shown[id := false], overflow := Auto)
  }

  /** The events the handlers respond to. Open is the call that receives the
      click event and stops its propagation, so no other listener sees it; a
      call without the event lets the click bubble on to the menu's
      outside-click listener, which is Open followed by Outside. */
  datatype Event =
    | Open(id: string)
    | Close(id: string)
    | Backdrop(id: string)
    | Escape
    | Toggle
    | MenuLink
    | Outside

  /** One event, dispatched to its handler. */
  function Step(p: Page, e: Event): (q: Page)
    ensures q.shown.Keys == p.shown.Keys
    ensures e.Open? && e.id in p.shown ==> q.shown[e.id] && Locked(q)
    ensures (e.Close? || e.Backdrop?) && e.id in p.shown ==> !q.shown[e.id] && q.overflow == Auto
    ensures e.Escape? ==> !AnyShown(q)
    ensures e.Toggle? || e.MenuLink? || e.Outside? ==> q.shown == p.shown
  {
    match e
    case Open(id) => OpenModal(p, id)
    case Close(id) => CloseModal(p, id)
    case Backdrop(id) => if id in p.shown then BackdropClick(p, id) else p
    case Escape => EscapeAll(p)
    case Toggle => ToggleMenu(p)
    case MenuLink => FoldMenu(p)
    case Outside => FoldMenu(p)
  }

  function Replay(p: Page, events: seq<Event>): Page
    decreases |events|
  {
    if events == [] then p else Replay(Step(p, events[0]), events[1..])
  }

  /** No event adds or removes a modal. */
  lemma {:induction false} ReplayKeepsModals(p: Page, events: seq<Event>)
    ensures Replay(p, events).shown.Keys == p.shown.Keys
    decreases |events|
  {
    if events != [] {
      ReplayKeepsModals(Step(p, events[0]), events[1..]);
    }
  }

  /** The background is only ever locked for a reason: a displayed modal or
      the unfolded menu. */
  predicate LockJustified(p: Page) {
    Locked(p) ==> AnyShown(p) || p.menu == Unfolded
  }

  predicate Initial(p: Page) {
    && (forall id :: id in p.shown ==> !p.shown[id])
    && p.menu != Unfolded
    && p.overflow == Unset
  }

  lemma StepKeepsLockJustified(p: Page, e: Event)
    requires LockJustified(p)
    ensures LockJustified(Step(p, e))
  {
    match e
    case Open(id) =>
      if id in p.shown {
        assert Step(p, e).shown[id];
      }
    case _ =>
  }

  lemma {:induction false} ReplayKeepsLockJustified(p: Page, events: seq<Event>)
    requires LockJustified(p)
    ensures LockJustified(Replay(p, events))
    decreases |events|
  {
    if events != [] {
      StepKeepsLockJustified(p, events[0]);
      ReplayKeepsLockJustified(Step(p, events[0]), events[1..]);
    }
  }

  /** From the page as loaded, every reachable state locks only for a reason. */
  lemma ReachableLockJustified(p: Page, events: seq<Event>)
    requires Initial(p)
    ensures LockJustified(Replay(p, events))
  {
    ReplayKeepsLockJustified(p, events);
  }

  /** Escape twice is Escape once. */
  lemma EscapeIdempotent(p: Page)
    ensures EscapeAll(EscapeAll(p)) == EscapeAll(p)
  {
    var q := EscapeAll(p);
    assert !AnyShown(q);
    assert q.shown == map id | id in q.shown :: false;
  }

  /** Opening a modal and then closing it leaves it hidden with the
      background scrollable, whatever was displayed before. */
  lemma OpenThenClose(p: Page, id: string)
    requires id in p.shown
    ensures id in Replay(p, [Open(id), Close(id)]).shown && !Replay(p, [Open(id), Close(id)]).shown[id]
    ensures !Locked(Replay(p, [Open(id), Close(id)]))
    ensures Replay(p, [Open(id), Close(id)]).menu == p.menu
  {
    var q := OpenModal(p, id);
    assert Replay(p, [Open(id), Close(id)]) == Replay(q, [Close(id)]);
    assert Replay(q, [Close(id)]) == CloseModal(q, id);
  }

  /** Closing one of two open modals unlocks the background while the other
      is still displayed. */
  lemma CloseUnlocksDespiteOtherModal(p: Page, a: string, b: string)
    requires a in p.shown && b in p.shown && a != b
    ensures b in Replay(p, [Open(a), Open(b), Close(a)]).shown && Replay(p, [Open(a), Open(b), Close(a)]).shown[b]
    ensures !Locked(Replay(p, [Open(a), Open(b), Close(a)]))
  {
    var q1 := OpenModal(p, a);
    var q2 := OpenModal(q1, b);
    assert Replay(p, [Open(a), Open(b), Close(a)]) == Replay(q1, [Open(b), Close(a)]);
    assert Replay(q1, [Open(b), Close(a)]) == Replay(q2, [Close(a)]);
    assert Replay(q2, [Close(a)]) == CloseModal(q2, a);
  }

  /** Folding the menu also clears a modal's lock: with a modal open, a click
      on a menu link leaves the modal displayed and the background
      scrollable. */
  lemma MenuLinkUnlocksOpenModal(p: Page, id: string)
    requires id in p.shown && p.menu != Absent
    ensures id in Replay(p, [Open(id), MenuLink]).shown && Replay(p, [Open(id), MenuLink]).shown[id]
    ensures !Locked(Replay(p, [Open(id), MenuLink]))
  {
    var q := OpenModal(p, id);
    assert Replay(p, [Open(id), MenuLink]) == Replay(q, [MenuLink]);
    assert Replay(q, [MenuLink]) == FoldMenu(q);
  }
}
