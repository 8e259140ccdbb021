/** The two scroll listeners: the header's look, which depends on the new
    offset and on the offset of the previous scroll event, and the visibility
    of the scroll-to-top button, which depends on the new offset alone.
    Offsets are whole pixels counted down from the top of the page. */
module Scroll {

  /** Above this offset the header turns translucent. */
  const TranslucentAbove := 100
  /** Above this offset, scrolling down hides the header. */
  const HideAbove := 200
  /** Above this offset the scroll-to-top button is shown. */
  const ButtonAbove := 300

  /** The header's styles after a scroll event. translucent: the 0.95-opacity
      white background with a blur, instead of opaque white. hidden:
      translated up by its own height, instead of in place. */
  datatype HeaderLook = HeaderLook(translucent: bool, hidden: bool)

  /** One scroll event on the header: its look at offset, given the offset
      last seen, which the event then replaces. */
  function HeaderStep(last: int, offset: int): (r: (HeaderLook, int))
    ensures r.0.translucent <==> offset > TranslucentAbove
    ensures r.0.hidden <==> offset > last && offset > HideAbove
    ensures r.1 == offset
  {
    (HeaderLook(offset > TranslucentAbove, offset > last && offset > HideAbove), offset)
  }

  /** A hidden header is always a translucent one. */
  lemma HiddenIsTranslucent(last: int, offset: int)
    ensures HeaderStep(last, offset).0.hidden ==> HeaderStep(last, offset).0.translucent
  {
  }

  /** Scrolling up, or an event that did not move, always shows the header. */
  lemma NotDownShows(last: int, offset: int)
    requires offset <= last
    ensures !HeaderStep(last, offset).0.hidden
  {
  }

  /** The value of lastScrollTop after a sequence of scroll events. */
  function LastOffset(last: int, offsets: seq<int>): int
    decreases |offsets|
  {
    if offsets == [] then last else LastOffset(HeaderStep(last, offsets[0]).1, offsets[1..])
  }

  /** lastScrollTop always holds the offset of the latest event. */
  lemma {:induction false} LastOffsetIsLatest(last: int, offsets: seq<int>)
    ensures LastOffset(last, offsets) == if offsets == [] then last else offsets[|offsets| - 1]
    decreases |offsets|
  {
    if offsets != [] {
      LastOffsetIsLatest(offsets[0], offsets[1..]);
    }
  }

  /** The header's look after a non-empty sequence of scroll events, starting
      from lastScrollTop = 0 as the page sets it. */
  function HeaderAfter(offsets: seq<int>): HeaderLook
    requires |offsets| > 0
  {
    HeaderStep(LastOffset(0, offsets[..|offsets| - 1]), offsets[|offsets| - 1]).0
  }

  /** The header's look depends on the last two offsets only: the previous
      one (0 before the first event) and the current one. */
  lemma HeaderDependsOnLastTwo(offsets: seq<int>)
    requires |offsets| > 0
    ensures var n := |offsets|;
            var previous := if n >= 2 then offsets[n - 2] else 0;
            HeaderAfter(offsets) == HeaderLook(offsets[n - 1] > TranslucentAbove,
                                               offsets[n - 1] > previous && offsets[n - 1] > HideAbove)
  {
    LastOffsetIsLatest(0, offsets[..|offsets| - 1]);
  }

  /** The scroll-to-top listener: the button has its 'show' class exactly
      when the offset is above the threshold; the class it had before does
      not matter. */
  function ButtonStep(shown: bool, offset: int): (r: bool)
    ensures r <==> offset > ButtonAbove
  {
    offset > ButtonAbove
  }

  /** The button's state after a sequence of scroll events. */
  function ButtonAfter(shown: bool, offsets: seq<int>): bool
    decreases |offsets|
  {
    if offsets == [] then shown else ButtonAfter(ButtonStep(shown, offsets[0]), offsets[1..])
  }

  /** The button's state has no memory: after any events it reflects the
      latest offset alone. */
  lemma {:induction false} ButtonIgnoresHistory(shown: bool, offsets: seq<int>)
    requires |offsets| > 0
    ensures ButtonAfter(shown, offsets) <==> offsets[|offsets| - 1] > ButtonAbove
    decreases |offsets|
  {
    if |offsets| > 1 {
      ButtonIgnoresHistory(ButtonStep(shown, offsets[0]), offsets[1..]);
    }
  }

  /** Repeated events at one offset change nothing after the first. */
  lemma ButtonIdempotent(shown: bool, offset: int)
    ensures ButtonStep(ButtonStep(shown, offset), offset) == ButtonStep(shown, offset)
  {
  }

  /** The 'show' class flips exactly when an event crosses the threshold. */
  lemma ButtonFlipsOnCrossing(before: int, after: int)
    ensures ButtonStep(ButtonStep(false, before), after) != ButtonStep(false, before)
        <==> (before > ButtonAbove) != (after > ButtonAbove)
  {
  }
}
