/**
 * The dropdown menus of script.js: each `.dropdown-wrapper` holds one `.dropdown-toggle`.
 * A click on a toggle closes every other open wrapper and flips its own; a click anywhere
 * else closes them all. The wrappers are a fixed collection whose `active` class and whose
 * toggle's aria-expanded are updated in place; wrapper w is named by its index.
 */
module Dropdowns {

  /** The text setAttribute stores for a boolean. */
  function BoolText(b: bool): string {
    if b then "true" else "false"
  }

  class Menus {
    /** Whether each wrapper has the `active` class. */
    const active: array<bool>
    /** aria-expanded of each wrapper's toggle. */
    const expanded: array<string>

    ghost predicate Valid() {
      active.Length == expanded.Length
    }

    constructor (n: nat)
      ensures Valid() && fresh(active) && fresh(expanded) && active.Length == n
      ensures Consistent()
    {
      active := new bool[n](i => false);
      expanded := new string[n](i => "false");
    }

    /** At most one wrapper is open, and every toggle's aria-expanded says whether it is. */
    ghost predicate Consistent()
      reads active, expanded
      requires Valid()
    {
      (forall i :: 0 <= i < active.Length ==> expanded[i] == BoolText(active[i])) &&
      (forall i, j :: 0 <= i < active.Length && 0 <= j < active.Length && active[i] && active[j] ==> i == j)
    }

    /**
     * The click handler of the toggle of wrapper w. Every other open wrapper is closed and its
     * toggle set to "false"; w's class is flipped and its toggle set to the negation of what its
     * own aria-expanded said. Afterwards no wrapper but w is open.
     */
    method ClickToggle(w: int)
      requires Valid() && 0 <= w < active.Length
      modifies active, expanded
      ensures active[w] == !old(active[w]) && expanded[w] == BoolText(old(expanded[w]) != "true")
      ensures forall j :: 0 <= j < active.Length && j != w ==>
        !active[j] && expanded[j] == (if old(active[j]) then "false" else old(expanded[j]))
      ensures forall j :: 0 <= j < active.Length && active[j] ==> j == w
      ensures old(Consistent()) ==> Consistent()
    {
      var isExpanded := expanded[w] == "true";
      for j := 0 to active.Length
        invariant active[w] == old(active[w]) && expanded[w] == old(expanded[w])
        invariant forall k :: 0 <= k < j && k != w ==>
          !active[k] && expanded[k] == (if old(active[k]) then "false" else old(expanded[k]))
        invariant forall k :: j <= k < active.Length ==> active[k] == old(active[k]) && expanded[k] == old(expanded[k])
      {
        if active[j] && j != w {
          active[j] := false;
          expanded[j] := "false";
        }
      }
      active[w] := !active[w];
      expanded[w] := BoolText(!isExpanded);
    }

    /** The document click handler: every open wrapper is closed and its toggle set to "false". */
    method ClickOutside()
      requires Valid()
      modifies active, expanded
      ensures forall j :: 0 <= j < active.Length ==>
        !active[j] && expanded[j] == (if old(active[j]) then "false" else old(expanded[j]))
      ensures old(Consistent()) ==> Consistent()
    {
      for j := 0 to active.Length
        invariant forall k :: 0 <= k < j ==>
          !active[k] && expanded[k] == (if old(active[k]) then "false" else old(expanded[k]))
        invariant forall k :: j <= k < active.Length ==> active[k] == old(active[k]) && expanded[k] == old(expanded[k])
      {
        if active[j] {
          active[j] := false;
          expanded[j] := "false";
        }
      }
    }
  }
}
