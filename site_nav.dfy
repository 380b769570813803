/**
 * Site navigation of js/main.js: the mobile menu toggle (js/main.js:26-40)
 * and the highlighting of the link to the current page (js/main.js:129-140).
 * Element lookups are abstracted away: a link is its `href` attribute.
 */
module SiteNav {
  import opened Wrappers
  import opened Text

  /**
   * The 'active' class on `.mobile-menu` and on `.mobile-menu-toggle`.
   * Both elements are assumed present, which is when the toggle handler
   * is attached.
   */
  class MobileMenu {
    var menuActive: bool
    var toggleActive: bool

    /** The menu and its toggle show the same state. */
    predicate InSync()
      reads this
    {
      menuActive == toggleActive
    }

    constructor ()
      ensures !menuActive && !toggleActive
      ensures InSync()
    {
      menuActive := false;
      toggleActive := false;
    }

    /** A click on the toggle flips 'active' on both elements. */
    method ClickToggle()
      modifies this
      ensures menuActive == !old(menuActive) && toggleActive == !old(toggleActive)
      ensures old(InSync()) ==> InSync()
    {
      menuActive := !menuActive;
      toggleActive := !toggleActive;
    }

    /** A click on a menu link removes 'active' from both elements. */
    method ClickLink()
      modifies this
      ensures !menuActive && !toggleActive
      ensures InSync()
    {
      menuActive := false;
      toggleActive := false;
    }
  }

  /** The last `/`-separated segment of `pathname`, `split('/').pop()`. */
  function LastSegment(pathname: string): string
  {
    var parts := Split(pathname, '/');
    parts[|parts| - 1]
  }

  /** `t` is a (possibly empty) final part of `s`. */
  predicate IsSuffix(t: string, s: string)
  {
    |t| <= |s| && s[|s| - |t|..] == t
  }

  /** A final part of a final part of `s` is a final part of `s`. */
  lemma SuffixOfSuffix(t: string, u: string, s: string)
    requires IsSuffix(t, u) && IsSuffix(u, s)
    ensures IsSuffix(t, s)
    ensures |t| < |u| ==> s[|s| - |t| - 1] == u[|u| - |t| - 1]
  {
    assert s[|s| - |t|..] == s[|s| - |u|..][|u| - |t|..];
  }

  /** Past the first '/', the last segment is that of the rest of the path. */
  lemma LastSegmentStep(pathname: string, k: nat)
    requires '/' in pathname && k == IndexOf(pathname, '/')
    ensures LastSegment(pathname) == LastSegment(pathname[k + 1..])
  {
    var parts := Split(pathname[k + 1..], '/');
    assert Split(pathname, '/') == [pathname[..k]] + parts;
  }

  /**
   * The last segment is the text after the final '/', or all of the
   * path when it holds no '/'.
   */
  lemma {:induction false} LastSegmentShape(pathname: string)
    ensures '/' !in LastSegment(pathname)
    ensures IsSuffix(LastSegment(pathname), pathname)
    ensures '/' !in pathname ==> LastSegment(pathname) == pathname
    ensures '/' in pathname ==> |LastSegment(pathname)| < |pathname|
    ensures '/' in pathname ==> pathname[|pathname| - |LastSegment(pathname)| - 1] == '/'
    decreases |pathname|
  {
    if '/' in pathname {
      var k := IndexOf(pathname, '/');
      var rest := pathname[k + 1..];
      var last := LastSegment(rest);
      LastSegmentStep(pathname, k);
      LastSegmentShape(rest);
      assert IsSuffix(rest, pathname);
      SuffixOfSuffix(last, rest, pathname);
      if '/' !in rest {
        assert pathname[|pathname| - |last| - 1] == pathname[k];
      }
    }
  }

  /** `window.location.pathname.split('/').pop() || 'index.html'` */
  function CurrentPage(pathname: string): (page: string)
    ensures page != []
    ensures '/' !in page
  {
    var last := LastSegment(pathname);
    if last == [] then "index.html" else last
  }

  /** A path ending in '/' names the index page; otherwise its last segment. */
  lemma CurrentPageOfPath(pathname: string)
    ensures |pathname| > 0 && pathname[|pathname| - 1] == '/' ==> CurrentPage(pathname) == "index.html"
    ensures LastSegment(pathname) != [] ==> IsSuffix(CurrentPage(pathname), pathname)
  {
    LastSegmentShape(pathname);
  }

  /**
   * Whether the link with `href` is marked: its href equals the current
   * page, or the page is empty and the href is 'index.html'.
   */
  predicate Matches(href: Option<string>, page: string)
  {
    href == Some(page) || (page == [] && href == Some("index.html"))
  }

  /** The second alternative of the test can never fire, since the page is never empty. */
  lemma MatchesCurrentPage(href: Option<string>, pathname: string)
    ensures Matches(href, CurrentPage(pathname)) <==> href == Some(CurrentPage(pathname))
  {
  }

  /**
   * `highlightActiveNavItem()`: every link whose href names the current
   * page gains 'active'; no link loses it.
   */
  method HighlightActiveNavItem(pathname: string, hrefs: seq<Option<string>>, active: array<bool>)
    requires active.Length == |hrefs|
    modifies active
    ensures forall i :: 0 <= i < active.Length ==>
      active[i] == (old(active[i]) || hrefs[i] == Some(CurrentPage(pathname)))
  {
    var page := CurrentPage(pathname);
    var i := 0;
    while i < active.Length
      invariant 0 <= i <= active.Length
      invariant forall j :: 0 <= j < i ==> active[j] == (old(active[j]) || hrefs[j] == Some(page))
      invariant forall j :: i <= j < active.Length ==> active[j] == old(active[j])
    {
      if Matches(hrefs[i], page) {
        active[i] := true;
      }
      i := i + 1;
    }
  }
}
