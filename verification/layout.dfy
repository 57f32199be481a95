/**
  The two threshold rules: the header's `scrolled` class follows the scroll
  offset, and the desktop navigation's `active` class follows the viewport
  width. Offsets and widths are whole CSS pixels.
 */
module Layout {
  import opened ClassList

  /** The header counts as scrolled strictly past this offset. */
  const ScrollThreshold: int := 20

  /** The desktop navigation is shown strictly above this width. */
  const DesktopMinWidth: int := 1024

  const ScrolledClass := "scrolled"
  const ActiveClass := "active"

  /** The scroll listener applied to the header's classes. */
  function OnScroll(header: Classes, scrollY: int): (r: Classes)
    ensures ScrolledClass in r <==> scrollY > ScrollThreshold
    ensures forall c :: c != ScrolledClass ==> (c in r <==> c in header)
  {
    SetClass(header, ScrolledClass, scrollY > ScrollThreshold)
  }

  /** `handleResize` applied to the desktop navigation's classes; it also runs
      once when the script loads. */
  function HandleResize(nav: Classes, innerWidth: int): (r: Classes)
    ensures ActiveClass in r <==> innerWidth > DesktopMinWidth
    ensures forall c :: c != ActiveClass ==> (c in r <==> c in nav)
  {
    SetClass(nav, ActiveClass, innerWidth > DesktopMinWidth)
  }

  /** The boundaries themselves fall on the inactive side. */
  lemma Boundaries(header: Classes, nav: Classes)
    ensures ScrolledClass !in OnScroll(header, 20) && ScrolledClass in OnScroll(header, 21)
    ensures ActiveClass !in HandleResize(nav, 1024) && ActiveClass in HandleResize(nav, 1025)
  {
  }

  /** Only the latest scroll offset decides the header; earlier events leave
      no trace. */
  lemma ScrollForgetsHistory(header: Classes, y1: int, y2: int)
    ensures OnScroll(OnScroll(header, y1), y2) == OnScroll(header, y2)
  {
    SetClassOverwrites(header, ScrolledClass, y1 > ScrollThreshold, y2 > ScrollThreshold);
  }

  /** Only the latest width decides the desktop navigation. */
  lemma ResizeForgetsHistory(nav: Classes, w1: int, w2: int)
    ensures HandleResize(HandleResize(nav, w1), w2) == HandleResize(nav, w2)
  {
    SetClassOverwrites(nav, ActiveClass, w1 > DesktopMinWidth, w2 > DesktopMinWidth);
  }

  /** Scrolling further down never removes `scrolled`; widening the window
      never hides the desktop navigation. */
  lemma Monotone(header: Classes, nav: Classes, a: int, b: int)
    requires a <= b
    ensures ScrolledClass in OnScroll(header, a) ==> ScrolledClass in OnScroll(header, b)
    ensures ActiveClass in HandleResize(nav, a) ==> ActiveClass in HandleResize(nav, b)
  {
  }
}
