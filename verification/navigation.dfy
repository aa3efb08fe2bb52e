/**
 * The navigation bar: the active section follows the scroll position, and
 * the arrow keys (or `s` and `w`) scroll to the neighbouring section.
 * The page layout is a parameter: each section id may name an element
 * with a top offset and a height.
 */
module Navigation {
  import opened Wrappers
  import opened JsMath

  datatype NavItem = NavItem(id: string, name: string)

  const DefaultItems := [
    NavItem("home", "Hero"),
    NavItem("about", "About"),
    NavItem("projects", "Projects"),
    NavItem("philosophy", "Philosophy"),
    NavItem("contact", "Contact")]

  const InitialSection := "home"

  /** The scroll position is measured this far below the top of the window. */
  const ScrollOffset := 100

  /** An element's `offsetTop` and `offsetHeight`. */
  datatype Box = Box(top: int, height: int)

  type Layout = string -> Option<Box>

  /** The section `id` exists on the page and the position lies inside it. */
  predicate Covers(layout: Layout, id: string, position: int)
  {
    layout(id).Some? && layout(id).value.top <= position < layout(id).value.top + layout(id).value.height
  }

  predicate DistinctIds(items: seq<NavItem>)
  {
    forall i, j | 0 <= i < j < |items| :: items[i].id != items[j].id
  }

  /** The last item whose section covers the position, if any. */
  function LastCovering(items: seq<NavItem>, layout: Layout, position: int): (r: Option<nat>)
    ensures r.None? <==> forall i | 0 <= i < |items| :: !Covers(layout, items[i].id, position)
    ensures r.Some? ==> r.value < |items| && Covers(layout, items[r.value].id, position)
    ensures r.Some? ==> forall j | r.value < j < |items| :: !Covers(layout, items[j].id, position)
  {
    if items == [] then None
    else if Covers(layout, items[|items| - 1].id, position) then Some(|items| - 1)
    else LastCovering(items[..|items| - 1], layout, position)
  }

  /** The active section `onScroll` leaves: every covering section in turn
   *  becomes active, so the last one wins; with none, it stays. */
  method OnScroll(items: seq<NavItem>, active: string, layout: Layout, scrollY: int) returns (r: string)
    ensures LastCovering(items, layout, scrollY + ScrollOffset).None? ==> r == active
    ensures LastCovering(items, layout, scrollY + ScrollOffset).Some? ==>
              r == items[LastCovering(items, layout, scrollY + ScrollOffset).value].id
  {
    var position := scrollY + ScrollOffset;
    r := active;
    var i := 0;
    while i < |items|
      invariant 0 <= i <= |items|
      invariant LastCovering(items[..i], layout, position).None? ==> r == active
      invariant LastCovering(items[..i], layout, position).Some? ==>
                  r == items[LastCovering(items[..i], layout, position).value].id
    {
      assert items[..i + 1][..i] == items[..i];
      if Covers(layout, items[i].id, position) {
        r := items[i].id;
      }
      i := i + 1;
    }
    assert items[..i] == items;
  }

  /** When exactly one section covers the position, it becomes active. */
  lemma ScrollSelectsCoveringSection(items: seq<NavItem>, layout: Layout, position: int, k: nat)
    requires k < |items| && Covers(layout, items[k].id, position)
    requires forall j | 0 <= j < |items| && j != k :: !Covers(layout, items[j].id, position)
    ensures LastCovering(items, layout, position) == Some(k)
  {
  }

  /** `findIndex`: the first position of the id, or -1. */
  function FindIndex(items: seq<NavItem>, id: string): (i: int)
    ensures -1 <= i < |items|
    ensures i == -1 <==> forall j | 0 <= j < |items| :: items[j].id != id
    ensures i >= 0 ==> items[i].id == id && forall j | 0 <= j < i :: items[j].id != id
  {
    if items == [] then -1
    else if items[0].id == id then 0
    else
      var k := FindIndex(items[1..], id);
      if k == -1 then -1 else k + 1
  }

  /** Down moves one section on, up one back; other keys are ignored. */
  function Direction(key: string): (d: Option<int>)
    ensures d.Some? <==> key in ["ArrowDown", "ArrowUp", "s", "w"]
    ensures d == Some(1) <==> key == "ArrowDown" || key == "s"
  {
    if key == "ArrowDown" || key == "s" then Some(1)
    else if key == "ArrowUp" || key == "w" then Some(-1)
    else None
  }

  /** `onKeyPress`: the id of the section to scroll to, clamped to the
   *  list; nothing for another key or an unknown active section. */
  function KeyTarget(items: seq<NavItem>, active: string, key: string): (r: Option<string>)
    ensures r.Some? <==> Direction(key).Some? && exists j | 0 <= j < |items| :: items[j].id == active
    ensures r.Some? ==> exists j | 0 <= j < |items| :: items[j].id == r.value
  {
    match Direction(key)
    case None => None
    case Some(d) =>
      var index := FindIndex(items, active);
      if index == -1 then None
      else
        var next := Clamp(index + d, 0, |items| - 1);
        Some(items[next].id)
  }

  /** With distinct ids, down and then up from a section that has a next one
   *  returns to it, and the keys stop at both ends of the list. */
  lemma KeyNavigationRoundTrip(items: seq<NavItem>, i: nat)
    requires DistinctIds(items) && i < |items|
    ensures i + 1 < |items| ==> KeyTarget(items, items[i].id, "ArrowDown") == Some(items[i + 1].id)
    ensures i + 1 < |items| ==> KeyTarget(items, items[i + 1].id, "w") == Some(items[i].id)
    ensures i == |items| - 1 ==> KeyTarget(items, items[i].id, "s") == Some(items[i].id)
    ensures i == 0 ==> KeyTarget(items, items[i].id, "ArrowUp") == Some(items[i].id)
  {
    assert FindIndex(items, items[i].id) == i;
    if i + 1 < |items| {
      assert FindIndex(items, items[i + 1].id) == i + 1;
    }
  }

  /** From the initial section the keys go on to `about` and stay on
   *  `home` going up. */
  lemma DefaultOrder()
    ensures KeyTarget(DefaultItems, InitialSection, "s") == Some("about")
    ensures KeyTarget(DefaultItems, InitialSection, "w") == Some("home")
  {
    assert FindIndex(DefaultItems, InitialSection) == 0;
  }
}
