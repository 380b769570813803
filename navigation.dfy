/**
 * Index arithmetic behind keyboard and touch navigation: the gallery grid's
 * arrow keys (js/main-backup.js:510-543), the wrap-around used by the grid
 * and the FAQ list (js/main-backup.js:1072-1080), and the swipe decision of
 * the enhanced lightbox (js/main-backup.js:689-700). Indices are positions
 * in a static list of `n` elements.
 */
module Navigation {
  import opened Wrappers

  /** `(i + 1) % n`: the next position, wrapping from the last to the first. */
  function WrapNext(i: nat, n: nat): (j: nat)
    requires i < n
    ensures j < n
    ensures j == if i == n - 1 then 0 else i + 1
  {
    (i + 1) % n
  }

  /** `(i - 1 + n) % n`: the previous position, wrapping from the first to the last. */
  function WrapPrev(i: nat, n: nat): (j: nat)
    requires i < n
    ensures j < n
    ensures j == if i == 0 then n - 1 else i - 1
  {
    (i - 1 + n) % n
  }

  /** Moving forward and back (or back and forward) returns to the start. */
  lemma WrapInverse(i: nat, n: nat)
    requires i < n
    ensures WrapPrev(WrapNext(i, n), n) == i
    ensures WrapNext(WrapPrev(i, n), n) == i
  {
  }

  /** The grid is assumed to have three columns. */
  const Columns: nat := 3

  /**
   * The keydown handler of a gallery item at position `i` of `n`: the
   * position that receives focus, or None when the key is not an arrow
   * (the source's `targetIndex = -1`).
   */
  function GridTarget(key: string, i: nat, n: nat): (t: Option<nat>)
    requires i < n
    ensures t.Some? <==> key in {"ArrowRight", "ArrowLeft", "ArrowDown", "ArrowUp"}
    ensures t.Some? ==> t.value < n
    ensures key == "ArrowRight" ==> t == Some(WrapNext(i, n))
    ensures key == "ArrowLeft" ==> t == Some(WrapPrev(i, n))
    ensures key == "ArrowDown" ==> t.value >= i && t.value - i <= Columns && (t.value == i + Columns || t.value == n - 1)
    ensures key == "ArrowUp" ==> t.value <= i && i - t.value <= Columns && (t.value + Columns == i || t.value == 0)
  {
    match key
    case "ArrowRight" => Some(WrapNext(i, n))
    case "ArrowLeft" => Some(WrapPrev(i, n))
    case "ArrowDown" => Some(if i + Columns < n - 1 then i + Columns else n - 1)
    case "ArrowUp" => Some(if i >= Columns then i - Columns else 0)
    case _ => None
  }

  /** ArrowLeft undoes ArrowRight, including across the wrap. */
  lemma GridRightLeft(i: nat, n: nat)
    requires i < n
    ensures GridTarget("ArrowLeft", GridTarget("ArrowRight", i, n).value, n) == Some(i)
  {
    WrapInverse(i, n);
  }

  /** Away from the last row, ArrowDown keeps the column and ArrowUp undoes it. */
  lemma GridDownUp(i: nat, n: nat)
    requires i + Columns < n
    ensures GridTarget("ArrowDown", i, n).value % Columns == i % Columns
    ensures GridTarget("ArrowUp", GridTarget("ArrowDown", i, n).value, n) == Some(i)
  {
  }

  /** Which way a swipe moves the lightbox. */
  datatype Direction = Prev | Next

  function Opposite(d: Direction): Direction {
    match d
    case Prev => Next
    case Next => Prev
  }

  const SwipeThreshold: int := 50

  /**
   * `handleSwipeGesture`: a horizontal movement longer than the threshold
   * moves back when it goes right and forward when it goes left.
   */
  function SwipeDirection(startX: int, endX: int): (d: Option<Direction>)
    ensures d.None? <==> -SwipeThreshold <= endX - startX <= SwipeThreshold
    ensures d == Some(Prev) <==> endX - startX > SwipeThreshold
    ensures d == Some(Next) <==> endX - startX < -SwipeThreshold
  {
    var distance := endX - startX;
    var magnitude := if distance < 0 then -distance else distance;
    if magnitude > SwipeThreshold then
      (if distance > 0 then Some(Prev) else Some(Next))
    else None
  }

  /** The same gesture made the other way round moves the other way. */
  lemma SwipeMirror(startX: int, endX: int)
    ensures SwipeDirection(endX, startX) ==
      if SwipeDirection(startX, endX).None? then None else Some(Opposite(SwipeDirection(startX, endX).value))
  {
  }
}
