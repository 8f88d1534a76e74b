/**
 * The blog tab strip of script.js: activateTab, the keydown handler of the tab list and
 * the start-up selection. The `.tab-btn` elements and the `.blog-post` elements are fixed
 * collections whose per-element state (class, ARIA attribute, tabIndex, display) is
 * updated in place; each such state is an array indexed like the NodeList. An element is
 * named by its index; the focused element is -1 when it is none of the tab buttons.
 */
module Tabs {
  import opened Options

  /** The post filter: the 'all' tab shows every post, another only posts with that class. */
  predicate Shows(category: string, postClasses: set<string>) {
    category == "all" || category in postClasses
  }

  /**
   * JavaScript's % on integers: the remainder keeps the sign of the dividend, so it is the
   * dividend moved towards zero by whole multiples of n until it lies strictly between -n and n.
   */
  function JsRem(a: int, n: int): (r: int)
    requires n > 0
    ensures -n < r < n
    ensures (a >= 0 ==> r >= 0) && (a <= 0 ==> r <= 0)
    ensures -n < a < n ==> r == a
    ensures n <= a < 2 * n ==> r == a - n
    decreases if a >= 0 then a else -a
  {
    if a >= n then JsRem(a - n, n) else if a <= -n then JsRem(a + n, n) else a
  }

  /** What one keydown on the tab list does. */
  datatype KeyEffect =
    | Ignored                 // not one of the six keys: the default action stays
    | MoveFocus(to: int)      // focus moves to tab `to`
    | Activate(at: int)       // Enter or Space on tab `at`
    | Consumed                // Enter or Space while no tab button has focus
    | Throws                  // focus() called on a missing tab: there are no tabs

  /** The six keys the handler reacts to. */
  const Keys: seq<string> := ["ArrowLeft", "ArrowRight", "Home", "End", "Enter", " "]

  /** The keydown handler for key with tab idx focused (-1: none) among n tabs. */
  function OnKey(key: string, idx: int, n: nat): (r: KeyEffect)
    requires -1 <= idx < n
    ensures r == Ignored <==> key !in Keys
    ensures r.Throws? <==> n == 0 && key in Keys[..4]
    ensures r.MoveFocus? ==> 0 <= r.to < n
    ensures r.Activate? ==> r.at == idx && 0 <= idx
  {
    if key !in Keys then Ignored
    else if key == "ArrowLeft" then (if n == 0 then Throws else MoveFocus(JsRem(idx - 1 + n, n)))
    else if key == "ArrowRight" then (if n == 0 then Throws else MoveFocus(JsRem(idx + 1, n)))
    else if key == "Home" then (if n == 0 then Throws else MoveFocus(0))
    else if key == "End" then (if n == 0 then Throws else MoveFocus(n - 1))
    else if idx >= 0 then Activate(idx)
    else Consumed
  }

  /** ArrowLeft and ArrowRight undo each other and wrap around at both ends. */
  lemma ArrowsWrap(i: int, n: nat)
    requires 0 <= i < n
    ensures OnKey("ArrowRight", i, n) == MoveFocus(if i == n - 1 then 0 else i + 1)
    ensures OnKey("ArrowLeft", i, n) == MoveFocus(if i == 0 then n - 1 else i - 1)
    ensures OnKey("ArrowLeft", OnKey("ArrowRight", i, n).to, n) == MoveFocus(i)
  {
  }

  /** With focus outside the tabs, ArrowRight goes to the first tab and ArrowLeft to the last. */
  lemma ArrowsFromOutside(n: nat)
    requires n > 0
    ensures OnKey("ArrowRight", -1, n) == MoveFocus(0)
    ensures OnKey("ArrowLeft", -1, n) == MoveFocus(if n == 1 then 0 else n - 2)
  {
  }

  /** The tab the start-up code activates: the first one with the active class, else tab 0. */
  function InitialTab(active: seq<bool>): (r: int)
    requires |active| > 0
    ensures 0 <= r < |active|
    ensures forall i :: 0 <= i < r ==> !active[i]
    ensures active[r] || (r == 0 && forall i :: 0 <= i < |active| ==> !active[i])
  {
    if active[0] || |active| == 1 then 0
    else
      var rest := InitialTab(active[1..]);
      if active[1 + rest] then 1 + rest else 0
  }

  class TabStrip {
    /** data-category of each tab button. */
    const categories: seq<string>
    /** The class list of each blog post. */
    const postClasses: seq<set<string>>
    /** Whether each tab button has the `active` class. */
    const active: array<bool>
    /** aria-selected of each tab button. */
    const ariaSelected: array<string>
    /** tabIndex of each tab button. */
    const tabIndex: array<int>
    /** style.display of each blog post. */
    const display: array<string>
    /** The focused element: a tab index, -1 for anything else. */
    var focused: int

    ghost predicate Valid()
      reads this
    {
      active.Length == ariaSelected.Length == tabIndex.Length == |categories| &&
      display.Length == |postClasses| && ariaSelected != display &&
      -1 <= focused < |categories|
    }

    constructor (categories0: seq<string>, active0: seq<bool>, postClasses0: seq<set<string>>)
      requires |active0| == |categories0|
      ensures Valid() && fresh(active) && fresh(ariaSelected) && fresh(tabIndex) && fresh(display)
      ensures categories == categories0 && postClasses == postClasses0 && active[..] == active0 && focused == -1
    {
      categories := categories0;
      postClasses := postClasses0;
      active := new bool[|active0|](i requires 0 <= i < |active0| => active0[i]);
      ariaSelected := new string[|active0|](i => "");
      tabIndex := new int[|active0|](i => 0);
      display := new string[|postClasses0|](i => "");
      focused := -1;
      new;
      assert active[..] == active0;
    }

    /** Exactly tab btn is marked: active class, aria-selected "true", tabIndex 0. */
    ghost predicate Selected(btn: int)
      reads this, active, ariaSelected, tabIndex
      requires Valid()
    {
      forall i :: 0 <= i < active.Length ==>
        active[i] == (i == btn) &&
        ariaSelected[i] == (if i == btn then "true" else "false") &&
        tabIndex[i] == (if i == btn then 0 else -1)
    }

    /** Every post is displayed or hidden by the filter for category. */
    ghost predicate Filtered(category: string)
      reads this, display
      requires Valid()
    {
      forall j :: 0 <= j < display.Length ==>
        display[j] == (if Shows(category, postClasses[j]) then "block" else "none")
    }

    /** activateTab: a missing button changes nothing; otherwise select it and filter the posts. */
    method ActivateTab(btn: Option<int>)
      requires Valid() && (btn.Some? ==> 0 <= btn.value < |categories|)
      modifies active, ariaSelected, tabIndex, display
      ensures Valid()
      ensures btn.None? ==> unchanged(active, ariaSelected, tabIndex, display)
      ensures btn.Some? ==> Selected(btn.value) && Filtered(categories[btn.value])
    {
      if btn.None? {
        return;
      }
      var b := btn.value;
      for i := 0 to active.Length
        invariant forall k :: 0 <= k < i ==>
          active[k] == (k == b) &&
          ariaSelected[k] == (if k == b then "true" else "false") &&
          tabIndex[k] == (if k == b then 0 else -1)
      {
        active[i] := i == b;
        ariaSelected[i] := if i == b then "true" else "false";
        tabIndex[i] := if i == b then 0 else -1;
      }
      var category := categories[b];
      for j := 0 to display.Length
        invariant forall k :: 0 <= k < j ==>
          display[k] == (if Shows(category, postClasses[k]) then "block" else "none")
        invariant Selected(b)
      {
        if category == "all" || category in postClasses[j] {
          display[j] := "block";
        } else {
          display[j] := "none";
        }
      }
    }

    /** The keydown handler of the tab list; the result says whether the default was prevented. */
    method KeyDown(key: string) returns (prevented: bool)
      requires Valid()
      modifies this, active, ariaSelected, tabIndex, display
      ensures Valid()
      ensures var r := OnKey(key, old(focused), |categories|);
        prevented == (r != Ignored) &&
        (if r.MoveFocus? then focused == r.to else focused == old(focused)) &&
        (if r.Activate? then Selected(r.at) && Filtered(categories[r.at])
         else unchanged(active, ariaSelected, tabIndex, display))
    {
      var n := |categories|;
      if key !in Keys {
        return false;
      }
      prevented := true;
      if key == "ArrowLeft" || key == "ArrowRight" || key == "Home" || key == "End" {
        if n == 0 {
          return;
        }
        if key == "ArrowLeft" {
          focused := JsRem(focused - 1 + n, n);
        } else if key == "ArrowRight" {
          focused := JsRem(focused + 1, n);
        } else if key == "Home" {
          focused := 0;
        } else {
          focused := n - 1;
        }
      } else if focused >= 0 {
        ActivateTab(Some(focused));
      }
    }

    /** Start-up: clear every tabIndex, then activate the first active tab, else the first tab. */
    method Init()
      requires Valid()
      modifies active, ariaSelected, tabIndex, display
      ensures Valid()
      ensures active.Length == 0 ==> unchanged(active, ariaSelected, tabIndex, display)
      ensures active.Length > 0 ==>
        var b := InitialTab(old(active[..]));
        Selected(b) && Filtered(categories[b])
    {
      if active.Length == 0 {
        return;
      }
      var initial := InitialTab(active[..]);
      for i := 0 to tabIndex.Length
        invariant forall k :: 0 <= k < i ==> tabIndex[k] == -1
      {
        tabIndex[i] := -1;
      }
      ActivateTab(Some(initial));
    }
  }

  /** Start-up keeps a tab that was already marked active, the first one when there are several. */
  lemma InitKeepsMarkedTab(active: seq<bool>, i: int)
    requires 0 <= i < |active| && active[i]
    ensures InitialTab(active) <= i && active[InitialTab(active)]
  {
  }
}
