/**
 * The gallery category filter. Items and buttons are reduced to their
 * `data-category` and `data-filter` attributes, each a string or missing
 * (`getAttribute` returns null); an item is identified by its position in the
 * gallery. Covers the enhanced filter's partition into shown and hidden items
 * and its per-button counts (js/main-backup.js:350-407), and the basic
 * click handler that marks the active button and sets each item's display
 * (js/main.js:145-170).
 */
module GalleryFilter {
  import opened Wrappers
  import opened Text

  /** `filter === 'all' || itemCategory === filter`, with `===` on string-or-null. */
  predicate Shows(filter: Option<string>, category: Option<string>) {
    filter == Some("all") || category == filter
  }

  /** Positions among the first `n` items that the filter shows, in gallery order. */
  function ShownUpTo(categories: seq<Option<string>>, filter: Option<string>, n: nat): seq<nat>
    requires n <= |categories|
  {
    if n == 0 then []
    else ShownUpTo(categories, filter, n - 1) + (if Shows(filter, categories[n - 1]) then [n - 1] else [])
  }

  /** Positions among the first `n` items that the filter hides, in gallery order. */
  function HiddenUpTo(categories: seq<Option<string>>, filter: Option<string>, n: nat): seq<nat>
    requires n <= |categories|
  {
    if n == 0 then []
    else HiddenUpTo(categories, filter, n - 1) + (if Shows(filter, categories[n - 1]) then [] else [n - 1])
  }

  predicate Increasing(s: seq<nat>) {
    forall a, b :: 0 <= a < b < |s| ==> s[a] < s[b]
  }

  /** The shown positions are exactly those the filter accepts, each once and in order. */
  lemma {:induction false} ShownMembers(categories: seq<Option<string>>, filter: Option<string>, n: nat)
    requires n <= |categories|
    ensures forall i: nat :: i in ShownUpTo(categories, filter, n) <==> i < n && Shows(filter, categories[i])
    ensures Increasing(ShownUpTo(categories, filter, n))
  {
    if n > 0 {
      ShownMembers(categories, filter, n - 1);
      var p := ShownUpTo(categories, filter, n - 1);
      forall a | 0 <= a < |p| ensures p[a] < n - 1 {
        assert p[a] in p;
      }
    }
  }

  /** The hidden positions are exactly those the filter rejects, each once and in order. */
  lemma {:induction false} HiddenMembers(categories: seq<Option<string>>, filter: Option<string>, n: nat)
    requires n <= |categories|
    ensures forall i: nat :: i in HiddenUpTo(categories, filter, n) <==> i < n && !Shows(filter, categories[i])
    ensures Increasing(HiddenUpTo(categories, filter, n))
  {
    if n > 0 {
      HiddenMembers(categories, filter, n - 1);
      var p := HiddenUpTo(categories, filter, n - 1);
      forall a | 0 <= a < |p| ensures p[a] < n - 1 {
        assert p[a] in p;
      }
    }
  }

  /** Together the two lists account for every item exactly once. */
  lemma {:induction false} PartitionSizes(categories: seq<Option<string>>, filter: Option<string>, n: nat)
    requires n <= |categories|
    ensures |ShownUpTo(categories, filter, n)| + |HiddenUpTo(categories, filter, n)| == n
  {
    if n > 0 {
      PartitionSizes(categories, filter, n - 1);
    }
  }

  /**
   * The first loop of `filterGalleryItems`: every item goes to `itemsToShow`
   * or to `itemsToHide`, never both, in gallery order.
   */
  method PartitionItems(categories: seq<Option<string>>, filter: Option<string>)
    returns (shown: seq<nat>, hidden: seq<nat>)
    ensures shown == ShownUpTo(categories, filter, |categories|)
    ensures hidden == HiddenUpTo(categories, filter, |categories|)
    ensures forall i: nat :: i < |categories| ==>
      (i in shown <==> Shows(filter, categories[i])) && (i in hidden <==> !Shows(filter, categories[i]))
    ensures |shown| + |hidden| == |categories|
  {
    shown, hidden := [], [];
    var i := 0;
    while i < |categories|
      invariant 0 <= i <= |categories|
      invariant shown == ShownUpTo(categories, filter, i)
      invariant hidden == HiddenUpTo(categories, filter, i)
    {
      if Shows(filter, categories[i]) {
        shown := shown + [i];
      } else {
        hidden := hidden + [i];
      }
      i := i + 1;
    }
    ShownMembers(categories, filter, i);
    HiddenMembers(categories, filter, i);
    PartitionSizes(categories, filter, i);
  }

  /** How many of the first `n` items have exactly the category `filter`. */
  function CountMatching(categories: seq<Option<string>>, filter: Option<string>, n: nat): nat
    requires n <= |categories|
  {
    if n == 0 then 0
    else CountMatching(categories, filter, n - 1) + (if categories[n - 1] == filter then 1 else 0)
  }

  /** The count `updateFilterCounts` computes for one button. */
  function FilterCount(filter: Option<string>, categories: seq<Option<string>>): nat {
    if filter == Some("all") then |categories| else CountMatching(categories, filter, |categories|)
  }

  lemma {:induction false} AllShowsEverything(categories: seq<Option<string>>, n: nat)
    requires n <= |categories|
    ensures |ShownUpTo(categories, Some("all"), n)| == n
  {
    if n > 0 {
      AllShowsEverything(categories, n - 1);
    }
  }

  lemma {:induction false} MatchingIsShown(categories: seq<Option<string>>, filter: Option<string>, n: nat)
    requires n <= |categories| && filter != Some("all")
    ensures CountMatching(categories, filter, n) == |ShownUpTo(categories, filter, n)|
  {
    if n > 0 {
      MatchingIsShown(categories, filter, n - 1);
    }
  }

  /** The number on a button is the number of items that button's filter shows. */
  lemma CountAgreesWithShown(filter: Option<string>, categories: seq<Option<string>>)
    ensures FilterCount(filter, categories) == |ShownUpTo(categories, filter, |categories|)|
  {
    if filter == Some("all") {
      AllShowsEverything(categories, |categories|);
    } else {
      MatchingIsShown(categories, filter, |categories|);
    }
  }

  /** A button's text after `updateFilterCounts`: the count is appended unless a '(' is already there. */
  function WithCount(text: string, count: nat): string {
    if '(' in text then text else text + " (" + NatToString(count) + ")"
  }

  /** A second pass never appends a second count. */
  lemma WithCountIdempotent(text: string, count: nat, again: nat)
    ensures WithCount(WithCount(text, count), again) == WithCount(text, count)
  {
    if '(' !in text {
      var r := WithCount(text, count);
      assert r[|text| + 1] == '(';
    }
  }

  /** The appended suffix reads back as the count, after the unchanged original text. */
  lemma WithCountReadsBack(text: string, count: nat)
    requires '(' !in text
    ensures |WithCount(text, count)| >= |text| + 4
    ensures WithCount(text, count)[..|text|] == text
    ensures WithCount(text, count)[|text|..|text| + 2] == " ("
    ensures WithCount(text, count)[|WithCount(text, count)| - 1] == ')'
    ensures ParseDecimal(WithCount(text, count)[|text| + 2..|WithCount(text, count)| - 1]) == count
  {
    var r := WithCount(text, count);
    assert r == text + " (" + NatToString(count) + ")";
    assert r[|text| + 2..|r| - 1] == NatToString(count);
    ParseNatToString(count);
  }

  /**
   * `updateFilterCounts`: `labels[k]` is the text of the button whose
   * `data-filter` is `filters[k]`.
   */
  method UpdateFilterCounts(filters: seq<Option<string>>, labels: array<string>, categories: seq<Option<string>>)
    requires labels.Length == |filters|
    modifies labels
    ensures forall k :: 0 <= k < labels.Length ==>
      labels[k] == WithCount(old(labels[k]), FilterCount(filters[k], categories))
  {
    var k := 0;
    while k < labels.Length
      invariant 0 <= k <= labels.Length
      invariant forall j :: 0 <= j < k ==> labels[j] == WithCount(old(labels[j]), FilterCount(filters[j], categories))
      invariant forall j :: k <= j < labels.Length ==> labels[j] == old(labels[j])
    {
      var count := if filters[k] == Some("all") then |categories|
                   else CountMatching(categories, filters[k], |categories|);
      var original := labels[k];
      if '(' !in original {
        labels[k] := original + " (" + NatToString(count) + ")";
      }
      k := k + 1;
    }
  }

  /** How many flags are set. */
  function ActiveCount(flags: seq<bool>): nat {
    if flags == [] then 0 else ActiveCount(flags[..|flags| - 1]) + (if flags[|flags| - 1] then 1 else 0)
  }

  /** Exactly the flag at `b` is set. */
  function OneHot(n: nat, b: nat): seq<bool> {
    seq(n, k => k == b)
  }

  /** Only the clicked button keeps the 'active' class. */
  lemma {:induction false} OneHotCount(n: nat, b: nat)
    requires b < n
    ensures ActiveCount(OneHot(n, b)) == 1
  {
    if n - 1 == b {
      assert OneHot(n, b)[..n - 1] == seq(n - 1, k => false);
      AllClearCount(n - 1);
    } else {
      assert OneHot(n, b)[..n - 1] == OneHot(n - 1, b);
      OneHotCount(n - 1, b);
    }
  }

  lemma {:induction false} AllClearCount(n: nat)
    ensures ActiveCount(seq(n, k => false)) == 0
  {
    if n > 0 {
      assert seq(n, k => false)[..n - 1] == seq(n - 1, k => false);
      AllClearCount(n - 1);
    }
  }

  /**
   * The buttons and items the basic click handler of js/main.js works on:
   * which button carries 'active' and which item is displayed.
   */
  class FilterView {
    const filters: seq<Option<string>>
    const categories: seq<Option<string>>
    var active: seq<bool>
    var displayed: seq<bool>

    ghost predicate Valid()
      reads this
    {
      |active| == |filters| && |displayed| == |categories|
    }

    constructor (filters: seq<Option<string>>, categories: seq<Option<string>>,
                 active: seq<bool>, displayed: seq<bool>)
      requires |active| == |filters| && |displayed| == |categories|
      ensures Valid()
      ensures this.filters == filters && this.categories == categories
      ensures this.active == active && this.displayed == displayed
    {
      this.filters := filters;
      this.categories := categories;
      this.active := active;
      this.displayed := displayed;
    }

    /** A click on button `b`: it alone becomes active and the items are shown or hidden. */
    method Click(b: nat)
      requires Valid() && b < |filters|
      modifies this
      ensures Valid()
      ensures active == OneHot(|filters|, b) && ActiveCount(active) == 1
      ensures forall i :: 0 <= i < |categories| ==> displayed[i] == Shows(filters[b], categories[i])
      ensures forall i: nat :: i < |categories| ==>
        (displayed[i] <==> i in ShownUpTo(categories, filters[b], |categories|))
    {
      var filter := filters[b];
      var k := 0;
      while k < |active|
        invariant 0 <= k <= |active| == |filters|
        invariant forall j :: 0 <= j < k ==> !active[j]
        invariant |displayed| == |categories|
      {
        active := active[k := false];
        k := k + 1;
      }
      active := active[b := true];
      assert active == OneHot(|filters|, b);
      OneHotCount(|filters|, b);
      var i := 0;
      while i < |displayed|
        invariant 0 <= i <= |displayed| == |categories|
        invariant forall j :: 0 <= j < i ==> displayed[j] == Shows(filter, categories[j])
        invariant active == OneHot(|filters|, b)
      {
        displayed := displayed[i := filter == Some("all") || categories[i] == filter];
        i := i + 1;
      }
      ShownMembers(categories, filter, |categories|);
    }
  }
}
