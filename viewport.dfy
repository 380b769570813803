/**
 * The viewport helpers of js/utils.js: the device breakpoints
 * (js/utils.js:213-229), the rectangle-inside-viewport test
 * (js/utils.js:42-50) and the target of `scrollToElement`
 * (js/utils.js:55-63). Pixel values are integers; the window
 * properties are parameters.
 */
module Viewport {

  /** The largest width still classed as mobile, and as tablet. */
  const MobileMax: int := 767
  const TabletMax: int := 1023

  /** `Device.isMobile()` at window width `width`. */
  predicate IsMobile(width: int) { width <= MobileMax }

  /** `Device.isTablet()` */
  predicate IsTablet(width: int) { width > MobileMax && width <= TabletMax }

  /** `Device.isDesktop()` */
  predicate IsDesktop(width: int) { width > TabletMax }

  datatype DeviceClass = Mobile | Tablet | Desktop

  /** The one class that holds at `width`. */
  function Classify(width: int): (c: DeviceClass)
    ensures c == Mobile <==> IsMobile(width)
    ensures c == Tablet <==> IsTablet(width)
    ensures c == Desktop <==> IsDesktop(width)
  {
    if width <= MobileMax then Mobile
    else if width <= TabletMax then Tablet
    else Desktop
  }

  /** Exactly one of the three predicates holds at any width. */
  lemma ExactlyOneDeviceClass(width: int)
    ensures IsMobile(width) || IsTablet(width) || IsDesktop(width)
    ensures !(IsMobile(width) && IsTablet(width))
    ensures !(IsMobile(width) && IsDesktop(width))
    ensures !(IsTablet(width) && IsDesktop(width))
  {
  }

  /** Narrowing the window keeps it mobile; widening keeps it desktop. */
  lemma BreakpointsMonotone(narrow: int, wide: int)
    requires narrow <= wide
    ensures IsMobile(wide) ==> IsMobile(narrow)
    ensures IsDesktop(narrow) ==> IsDesktop(wide)
    ensures Classify(narrow) == Desktop ==> Classify(wide) == Desktop
    ensures Classify(wide) == Mobile ==> Classify(narrow) == Mobile
  {
  }

  /** `element.getBoundingClientRect()` */
  datatype Rect = Rect(top: int, left: int, bottom: int, right: int)

  /** `window.innerHeight || document.documentElement.clientHeight`: 0 falls back. */
  function Extent(inner: int, client: int): (e: int)
    ensures inner != 0 ==> e == inner
    ensures inner == 0 ==> e == client
  {
    if inner != 0 then inner else client
  }

  /** `isInViewport(element)` */
  predicate IsInViewport(rect: Rect, innerHeight: int, clientHeight: int, innerWidth: int, clientWidth: int)
  {
    && rect.top >= 0
    && rect.left >= 0
    && rect.bottom <= Extent(innerHeight, clientHeight)
    && rect.right <= Extent(innerWidth, clientWidth)
  }

  /** Whether the point (x, y) lies in the rectangle [0, width] x [0, height]. */
  predicate InScreen(x: int, y: int, width: int, height: int)
  {
    0 <= x <= width && 0 <= y <= height
  }

  /**
   * For a well-formed rectangle (top <= bottom, left <= right), the test
   * holds exactly when both of its corners lie on the screen.
   */
  lemma InViewportCorners(rect: Rect, innerHeight: int, clientHeight: int, innerWidth: int, clientWidth: int)
    requires rect.top <= rect.bottom && rect.left <= rect.right
    ensures IsInViewport(rect, innerHeight, clientHeight, innerWidth, clientWidth)
      <==> (var w, h := Extent(innerWidth, clientWidth), Extent(innerHeight, clientHeight);
            InScreen(rect.left, rect.top, w, h) && InScreen(rect.right, rect.bottom, w, h))
  {
  }

  /** A rectangle inside the viewport stays inside when it shrinks. */
  lemma InViewportShrinks(outer: Rect, inner: Rect, innerHeight: int, clientHeight: int, innerWidth: int, clientWidth: int)
    requires IsInViewport(outer, innerHeight, clientHeight, innerWidth, clientWidth)
    requires outer.top <= inner.top && outer.left <= inner.left
    requires inner.bottom <= outer.bottom && inner.right <= outer.right
    ensures IsInViewport(inner, innerHeight, clientHeight, innerWidth, clientWidth)
  {
  }

  /** With a non-zero window size, the document's client size plays no part. */
  lemma InViewportIgnoresClient(rect: Rect, innerHeight: int, innerWidth: int, c1: int, c2: int, d1: int, d2: int)
    requires innerHeight != 0 && innerWidth != 0
    ensures IsInViewport(rect, innerHeight, c1, innerWidth, c2) == IsInViewport(rect, innerHeight, d1, innerWidth, d2)
  {
  }

  /**
   * `scrollToElement(element, offset)`: the document position of the
   * element's top edge, less `offset` (0 when omitted).
   */
  function ScrollTarget(elementTop: int, pageYOffset: int, offset: int := 0): (target: int)
    ensures target + offset - pageYOffset == elementTop
  {
    elementTop + pageYOffset - offset
  }

  /** Calling `scrollToElement(element)` without an offset is calling it with offset 0. */
  lemma OffsetDefaultsToZero(elementTop: int, pageYOffset: int)
    ensures ScrollTarget(elementTop, pageYOffset) == ScrollTarget(elementTop, pageYOffset, 0)
  {
  }

  /** The target does not depend on how far the page is already scrolled. */
  lemma ScrollTargetStable(docTop: int, scrolled: int, other: int, offset: int)
    ensures ScrollTarget(docTop - scrolled, scrolled, offset) == ScrollTarget(docTop - other, other, offset)
  {
  }
}
