/**
 * The FAQ accordion of the enhanced script (js/main-backup.js:898-1148).
 * Each item is reduced to its question text and whether it is expanded
 * (its question's aria-expanded together with the item's 'faq-active'
 * class, which the script always sets and clears together). The answer's
 * height animation, the icon and the ripple are presentation and are not
 * modelled.
 */
module Faq {
  import opened Wrappers
  import opened Text
  import opened Navigation

  /** No two items are expanded at once. */
  predicate AtMostOneOpen(expanded: seq<bool>) {
    forall i, j :: 0 <= i < |expanded| && 0 <= j < |expanded| && expanded[i] && expanded[j] ==> i == j
  }

  /** Only item `k` is expanded. */
  function OpenOnly(n: nat, k: nat): seq<bool> {
    seq(n, i => i == k)
  }

  // ---------------------------------------------------------------------
  // Fragment identifiers
  // ---------------------------------------------------------------------

  predicate IsSlugChar(c: char) {
    'a' <= c <= 'z' || IsDigit(c) || c == '-'
  }

  /** `text.replace(/[^a-zA-Z0-9]/g, '-').toLowerCase()` */
  function Slug(text: string): string {
    if text == [] then []
    else [if IsAsciiAlnum(text[0]) then ToLowerAscii(text[0]) else '-'] + Slug(text[1..])
  }

  /** Every character of the question maps to one slug character. */
  lemma {:induction false} SlugShape(text: string)
    ensures |Slug(text)| == |text|
    ensures forall i :: 0 <= i < |text| ==> IsSlugChar(Slug(text)[i])
    ensures forall i :: 0 <= i < |text| ==>
      Slug(text)[i] == if IsAsciiAlnum(text[i]) then ToLowerAscii(text[i]) else '-'
  {
    if text != [] {
      SlugShape(text[1..]);
    }
  }

  /** A slug is its own slug. */
  lemma {:induction false} SlugIdempotent(text: string)
    ensures Slug(Slug(text)) == Slug(text)
  {
    if text != [] {
      SlugIdempotent(text[1..]);
      SlugShape(text);
      assert Slug(text)[1..] == Slug(text[1..]);
    }
  }

  /** The fragment `updateFAQURL` writes when an item is opened. */
  function Fragment(question: string): string {
    "faq-" + Slug(question)
  }

  /** The slug `initializeFAQFromURL` looks for in `location.hash`, if any. */
  function HashTarget(hash: string): Option<string> {
    if |hash| >= 5 && hash[..5] == "#faq-" then Some(hash[5..]) else None
  }

  /** Whether loading the page with `hash` opens the item asking `question`. */
  predicate HashSelects(hash: string, question: string) {
    HashTarget(hash) == Some(Slug(question))
  }

  /**
   * Reloading with the fragment written for an item reopens that item, and
   * every other item whose question has the same slug.
   */
  lemma FragmentRoundTrip(question: string, other: string)
    ensures HashSelects("#" + Fragment(question), question)
    ensures HashSelects("#" + Fragment(question), other) <==> Slug(other) == Slug(question)
  {
    var h := "#" + Fragment(question);
    assert h[..5] == "#faq-";
    assert h[5..] == Slug(question);
  }

  /** With distinct slugs, a fragment selects at most one item. */
  lemma HashSelectsAtMostOne(hash: string, questions: seq<string>)
    requires forall i, j :: 0 <= i < |questions| && 0 <= j < |questions| && Slug(questions[i]) == Slug(questions[j]) ==> i == j
    ensures AtMostOneOpen(seq(|questions|, i requires 0 <= i < |questions| => HashSelects(hash, questions[i])))
  {
  }

  // ---------------------------------------------------------------------
  // Keyboard focus
  // ---------------------------------------------------------------------

  /**
   * The keydown handler of the question at position `i` of `n`: the position
   * that receives focus (ArrowDown, ArrowUp, Home, End), or None.
   */
  function FocusTarget(key: string, i: nat, n: nat): (t: Option<nat>)
    requires i < n
    ensures t.Some? <==> key in {"ArrowDown", "ArrowUp", "Home", "End"}
    ensures t.Some? ==> t.value < n
    ensures key == "ArrowDown" ==> t == Some(WrapNext(i, n))
    ensures key == "ArrowUp" ==> t == Some(WrapPrev(i, n))
    ensures key == "Home" ==> t == Some(0)
    ensures key == "End" ==> t == Some(n - 1)
  {
    match key
    case "ArrowDown" => Some(WrapNext(i, n))
    case "ArrowUp" => Some(WrapPrev(i, n))
    case "Home" => Some(0)
    case "End" => Some(n - 1)
    case _ => None
  }

  /** ArrowUp undoes ArrowDown, including from the last question to the first. */
  lemma FocusDownUp(i: nat, n: nat)
    requires i < n
    ensures FocusTarget("ArrowUp", FocusTarget("ArrowDown", i, n).value, n) == Some(i)
  {
    WrapInverse(i, n);
  }

  // ---------------------------------------------------------------------
  // The accordion
  // ---------------------------------------------------------------------

  class Accordion {
    const questions: seq<string>
    var expanded: seq<bool>
    /** `window.location.hash` */
    var hash: string

    ghost predicate Valid()
      reads this
    {
      |expanded| == |questions|
    }

    /**
     * `initializeFAQAccordion` on a page loaded with `hash`: aria-expanded
     * is not set, so every item reads as closed.
     */
    constructor (questions: seq<string>, hash: string)
      ensures Valid() && this.questions == questions && this.hash == hash
      ensures expanded == seq(|questions|, i => false) && AtMostOneOpen(expanded)
    {
      this.questions := questions;
      this.hash := hash;
      expanded := seq(|questions|, i => false);
    }

    /**
     * `toggleFAQItem` on item `k`: opening closes every other item first;
     * closing touches only item `k`. `updateFAQURL` then writes the item's
     * fragment, or clears it.
     */
    method Toggle(k: nat)
      requires Valid() && k < |questions|
      modifies this
      ensures Valid()
      ensures old(expanded[k]) ==> expanded == old(expanded)[k := false]
      ensures !old(expanded[k]) ==> expanded == OpenOnly(|questions|, k)
      ensures !old(expanded[k]) ==> expanded[k] && AtMostOneOpen(expanded)
      ensures AtMostOneOpen(old(expanded)) ==> AtMostOneOpen(expanded)
      ensures hash == if old(expanded[k]) then "" else "#" + Fragment(questions[k])
    {
      var isExpanded := expanded[k];
      if !isExpanded {
        var j := 0;
        while j < |expanded|
          invariant 0 <= j <= |expanded| == |questions|
          invariant forall i :: 0 <= i < j && i != k ==> !expanded[i]
          invariant expanded[k] == old(expanded[k])
        {
          if j != k {
            expanded := expanded[j := false];
          }
          j := j + 1;
        }
        expanded := expanded[k := true];
      } else {
        expanded := expanded[k := false];
      }
      hash := if isExpanded then "" else "#" + Fragment(questions[k]);
    }

    /**
     * `initializeFAQFromURL`: every item whose slug matches the fragment is
     * opened, without closing the others.
     */
    method OpenFromHash()
      requires Valid()
      modifies this
      ensures Valid() && hash == old(hash)
      ensures forall i :: 0 <= i < |expanded| ==> expanded[i] == (old(expanded[i]) || HashSelects(hash, questions[i]))
    {
      var target := HashTarget(hash);
      if target.Some? {
        var i := 0;
        while i < |questions|
          invariant 0 <= i <= |questions| == |expanded| && hash == old(hash)
          invariant forall j :: 0 <= j < i ==> expanded[j] == (old(expanded[j]) || HashSelects(hash, questions[j]))
          invariant forall j :: i <= j < |expanded| ==> expanded[j] == old(expanded[j])
        {
          if Slug(questions[i]) == target.value {
            expanded := expanded[i := true];
          }
          i := i + 1;
        }
      }
    }
  }

  /**
   * Opening item `k` and reloading the page with the fragment it wrote
   * opens item `k` again.
   */
  method ReloadReopens(questions: seq<string>, k: nat) returns (reopened: bool)
    requires k < |questions|
    ensures reopened
  {
    var page := new Accordion(questions, "");
    page.Toggle(k);
    var reloaded := new Accordion(questions, page.hash);
    reloaded.OpenFromHash();
    FragmentRoundTrip(questions[k], questions[k]);
    reopened := reloaded.expanded[k];
  }

  /** Closing the open item clears the fragment, so a reload opens nothing. */
  method ReloadAfterCloseOpensNothing(questions: seq<string>, k: nat) returns (anyOpen: bool)
    requires k < |questions|
    ensures !anyOpen
  {
    var page := new Accordion(questions, "");
    page.Toggle(k);
    page.Toggle(k);
    var reloaded := new Accordion(questions, page.hash);
    reloaded.OpenFromHash();
    anyOpen := exists i :: 0 <= i < |reloaded.expanded| && reloaded.expanded[i];
  }
}
