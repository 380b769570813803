/**
 * The two lightbox viewers.
 *
 * EnhancedLightbox is the overlay of the enhanced gallery
 * (js/main-backup.js:548-824): it remembers the position of the open artwork
 * in the gallery, shows a "current / total" counter, and shows the previous
 * and next buttons only where there is somewhere to go.
 *
 * SimpleLightbox is the overlay of the basic gallery (js/main.js:175-249):
 * opening it marks it active and stops the page from scrolling; closing it
 * undoes both.
 *
 * Image loading, captions and the page title are presentation and are not
 * modelled.
 */
module Lightbox {
  import opened Wrappers
  import opened Navigation

  /** The position `navigateLightbox(direction)` moves to from `i` of `n`. */
  function Step(direction: string, i: int, n: nat): (j: int)
    ensures direction == "next" && i < n - 1 ==> j == i + 1
    ensures direction == "prev" && i > 0 ==> j == i - 1
    ensures j != i ==> (direction == "next" && i < n - 1) || (direction == "prev" && i > 0)
  {
    if direction == "next" && i < n - 1 then i + 1
    else if direction == "prev" && i > 0 then i - 1
    else i
  }

  /** A step never leaves the gallery. */
  lemma StepStaysInRange(direction: string, i: int, n: nat)
    requires 0 <= i < n
    ensures 0 <= Step(direction, i, n) < n
  {
  }

  /** "prev" undoes a "next" that moved, and the other way round. */
  lemma StepInverse(i: int, n: nat)
    requires 0 <= i < n
    ensures Step("next", i, n) != i ==> Step("prev", Step("next", i, n), n) == i
    ensures Step("prev", i, n) != i ==> Step("next", Step("prev", i, n), n) == i
  {
  }

  /** Repeated "next" from `i` reaches the last artwork and stays there. */
  function StepTimes(direction: string, i: int, n: nat, k: nat): int
    decreases k
  {
    if k == 0 then i else StepTimes(direction, Step(direction, i, n), n, k - 1)
  }

  lemma {:induction false} NextSaturates(i: int, n: nat, k: nat)
    requires 0 <= i < n
    ensures StepTimes("next", i, n, k) == if i + k < n - 1 then i + k else n - 1
    decreases k
  {
    if k > 0 {
      NextSaturates(Step("next", i, n), n, k - 1);
    }
  }

  /** The position a swipe from `startX` to `endX` leads to from `i` of `n`. */
  function SwipeTarget(startX: int, endX: int, i: int, n: nat): (j: int)
    ensures SwipeDirection(startX, endX).None? ==> j == i
    ensures SwipeDirection(startX, endX) == Some(Prev) ==> j == Step("prev", i, n)
    ensures SwipeDirection(startX, endX) == Some(Next) ==> j == Step("next", i, n)
  {
    match SwipeDirection(startX, endX)
    case None => i
    case Some(Prev) => Step("prev", i, n)
    case Some(Next) => Step("next", i, n)
  }

  class EnhancedLightbox {
    /** The 'active' class: the overlay is showing. */
    var active: bool
    /** `lightbox.galleryItems` is set. */
    var hasItems: bool
    /** `lightbox.currentIndex` */
    var currentIndex: int
    /** `lightbox.galleryItems.length` */
    var itemCount: nat
    /** Whether the previous and next buttons are displayed. */
    var prevShown: bool
    var nextShown: bool
    /** The numbers in the "current / total" counter. */
    var counterCurrent: int
    var counterTotal: nat

    /** The navigation state agrees with the buttons and the counter. */
    ghost predicate Valid()
      reads this
    {
      hasItems ==>
        && 0 <= currentIndex < itemCount
        && prevShown == (currentIndex > 0)
        && nextShown == (currentIndex < itemCount - 1)
        && counterCurrent == currentIndex + 1
        && counterTotal == itemCount
    }

    /** `createEnhancedLightbox`: hidden, no navigation data, counter "1 / 1". */
    constructor ()
      ensures Valid() && !active && !hasItems
      ensures counterCurrent == 1 && counterTotal == 1
    {
      active := false;
      hasItems := false;
      currentIndex := 0;
      itemCount := 0;
      prevShown, nextShown := true, true;
      counterCurrent, counterTotal := 1, 1;
    }

    /** `initializeLightboxNavigation(lightbox, index, galleryItems)` */
    method ShowNavigation(index: int, count: nat)
      requires 0 <= index < count
      modifies this
      ensures Valid() && hasItems && currentIndex == index && itemCount == count
      ensures active == old(active)
    {
      hasItems := true;
      currentIndex := index;
      itemCount := count;
      counterCurrent := index + 1;
      counterTotal := count;
      prevShown := index > 0;
      nextShown := index < count - 1;
    }

    /** `openEnhancedLightbox` for the item at `index` of a gallery of `count`. */
    method Open(index: int, count: nat)
      requires 0 <= index < count
      modifies this
      ensures Valid() && active && hasItems && currentIndex == index && itemCount == count
    {
      active := true;
      ShowNavigation(index, count);
    }

    /**
     * `navigateLightbox(direction)`: nothing happens without navigation data
     * or where the step is not possible; otherwise the position moves by one
     * and the buttons and counter follow.
     */
    method Navigate(direction: string)
      requires Valid()
      modifies this
      ensures Valid()
      ensures active == old(active) && hasItems == old(hasItems) && itemCount == old(itemCount)
      ensures old(hasItems) ==> currentIndex == Step(direction, old(currentIndex), old(itemCount))
      ensures !old(hasItems) || Step(direction, old(currentIndex), old(itemCount)) == old(currentIndex) ==>
        unchanged(this)
    {
      if !hasItems {
        return;
      }
      var newIndex := currentIndex;
      if direction == "next" && currentIndex < itemCount - 1 {
        newIndex := currentIndex + 1;
      } else if direction == "prev" && currentIndex > 0 {
        newIndex := currentIndex - 1;
      } else {
        return;
      }
      ShowNavigation(newIndex, itemCount);
    }

    /**
     * `closeLightbox(lightbox)` as its declaration at js/main-backup.js:757
     * reads: hide the overlay and drop the navigation data. The source sets
     * both `currentIndex` and `galleryItems` to null; `hasItems` false stands
     * for both, and the position kept in `currentIndex` is never read again
     * until new navigation data is set.
     */
    method Close()
      modifies this
      ensures !active && !hasItems && Valid()
      ensures currentIndex == old(currentIndex) && itemCount == old(itemCount)
      ensures prevShown == old(prevShown) && nextShown == old(nextShown)
      ensures counterCurrent == old(counterCurrent) && counterTotal == old(counterTotal)
    {
      active := false;
      hasItems := false;
    }

    /**
     * What a call `closeLightbox(lightbox)` does as the file is written: the
     * later declaration at js/main-backup.js:1997 replaces the one above, takes
     * no argument and only hides the element with id "lightbox", so this
     * overlay is left exactly as it was.
     */
    method CloseAsWritten()
      ensures active == old(active) && hasItems == old(hasItems) && currentIndex == old(currentIndex)
    {
    }

    /**
     * The document keydown handler, with Escape reaching the intended
     * `Close` above (as the file is written, Escape reaches the later
     * `closeLightbox` instead; see CloseAsWritten). Keys are ignored while
     * the overlay is hidden; ArrowLeft and ArrowRight navigate.
     */
    method KeyDown(key: string)
      requires Valid()
      modifies this
      ensures Valid()
      ensures !old(active) ==> unchanged(this)
      ensures old(active) && key !in {"Escape", "ArrowLeft", "ArrowRight"} ==> unchanged(this)
      ensures old(active) && !old(hasItems) && key != "Escape" ==> unchanged(this)
      ensures key != "Escape" ==> active == old(active) && hasItems == old(hasItems) && itemCount == old(itemCount)
      ensures old(active) && key == "Escape" ==> !active && !hasItems
      ensures old(active) && key == "Escape" ==>
        && currentIndex == old(currentIndex) && itemCount == old(itemCount)
        && prevShown == old(prevShown) && nextShown == old(nextShown)
        && counterCurrent == old(counterCurrent) && counterTotal == old(counterTotal)
      ensures old(active) && old(hasItems) && key == "ArrowLeft" ==>
        active && currentIndex == Step("prev", old(currentIndex), old(itemCount))
      ensures old(active) && old(hasItems) && key == "ArrowRight" ==>
        active && currentIndex == Step("next", old(currentIndex), old(itemCount))
    {
      if !active {
        return;
      }
      if key == "Escape" {
        Close();
      } else if key == "ArrowLeft" {
        Navigate("prev");
      } else if key == "ArrowRight" {
        Navigate("next");
      }
    }

    /** The touchend handler: a long enough swipe navigates. */
    method Swipe(startX: int, endX: int)
      requires Valid()
      modifies this
      ensures Valid() && active == old(active) && hasItems == old(hasItems) && itemCount == old(itemCount)
      ensures !old(hasItems) ==> unchanged(this)
      ensures old(hasItems) ==> currentIndex == SwipeTarget(startX, endX, old(currentIndex), old(itemCount))
    {
      match SwipeDirection(startX, endX)
      case None =>
      case Some(Prev) => Navigate("prev");
      case Some(Next) => Navigate("next");
    }
  }

  /**
   * The enhanced lightbox as written: after opening the second of three
   * artworks and pressing its close button, the overlay is still showing and
   * ArrowRight still moves to the third artwork.
   */
  method CloseAsWrittenKeepsOverlay() returns (stillActive: bool, index: int)
    ensures stillActive && index == 2
  {
    var box := new EnhancedLightbox();
    box.Open(1, 3);
    box.CloseAsWritten();
    box.KeyDown("ArrowRight");
    stillActive, index := box.active, box.currentIndex;
  }

  /**
   * The enhanced lightbox as intended: after closing, the overlay is hidden
   * and a swipe no longer navigates.
   */
  method CloseEndsNavigation(startX: int, endX: int) returns (stillActive: bool, index: int)
    ensures !stillActive && index == 1
  {
    var box := new EnhancedLightbox();
    box.Open(1, 3);
    box.Close();
    box.Swipe(startX, endX);
    stillActive, index := box.active, box.currentIndex;
  }

  class SimpleLightbox {
    /** The element with id "lightbox" exists (it is created on first open). */
    var created: bool
    /** The 'active' class. */
    var active: bool
    var imageUrl: string
    var title: string
    var meta: string
    /** `document.body.style.overflow` */
    var bodyOverflow: string

    ghost predicate Valid()
      reads this
    {
      active ==> created
    }

    constructor (bodyOverflow: string)
      ensures Valid() && !created && !active && this.bodyOverflow == bodyOverflow
    {
      created, active := false, false;
      imageUrl, title, meta := "", "", "";
      this.bodyOverflow := bodyOverflow;
    }

    /** `openLightbox(imageUrl, title, meta)` */
    method Open(url: string, caption: string, details: string)
      modifies this
      ensures Valid() && created && active && bodyOverflow == "hidden"
      ensures imageUrl == url && title == caption && meta == details
    {
      created := true;
      imageUrl, title, meta := url, caption, details;
      active := true;
      bodyOverflow := "hidden";
    }

    /** `closeLightbox()`: does nothing until the overlay has been created. */
    method Close()
      requires Valid()
      modifies this
      ensures Valid() && !active
      ensures old(created) ==> bodyOverflow == ""
      ensures !old(created) ==> unchanged(this)
      ensures created == old(created) && imageUrl == old(imageUrl)
      ensures title == old(title) && meta == old(meta)
    {
      if created {
        active := false;
        bodyOverflow := "";
      }
    }

    /** The Escape handler registered when the overlay is created. */
    method KeyDown(key: string)
      requires Valid()
      modifies this
      ensures Valid()
      ensures key == "Escape" && old(active) ==> !active && bodyOverflow == ""
      ensures created == old(created) && imageUrl == old(imageUrl) && title == old(title) && meta == old(meta)
      ensures !(key == "Escape" && old(active)) ==> unchanged(this)
    {
      if key == "Escape" && active {
        Close();
      }
    }
  }
}
