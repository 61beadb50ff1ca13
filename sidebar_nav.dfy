/**
 * The dashboard's sidebar: a stateless list of buttons. A click on an entry asks the
 * parent to change section unless the entry is disabled; each button shows the active
 * highlight, a check mark and a lock according to its entry and the active section.
 */
module SidebarNav {
  import opened Text

  datatype NavItem = NavItem(id: string, caption: string, completed: bool, disabled: bool)

  /** What one button shows. */
  datatype ButtonView = ButtonView(highlighted: bool, showsCheck: bool, showsLock: bool, htmlDisabled: bool)

  /** `!item.disabled && onSectionChange(item.id)`: the section the click asks for, if any. */
  function OnClick(item: NavItem): (request: Option<string>)
    ensures request.Some? <==> !item.disabled
    ensures request.Some? ==> request.value == item.id
  {
    if item.disabled then None else Some(item.id)
  }

  /** The active section after the parent applies a click on entry `k`. */
  function AfterClick(items: seq<NavItem>, k: nat, active: string): string
    requires k < |items|
  {
    match OnClick(items[k])
    case None => active
    case Some(id) => id
  }

  /** How entry `item` is drawn when `active` is the active section. */
  function View(item: NavItem, active: string): ButtonView
  {
    ButtonView(active == item.id, item.completed, item.disabled, item.disabled)
  }

  function Render(items: seq<NavItem>, active: string): (r: seq<ButtonView>)
    ensures |r| == |items|
    ensures forall k :: 0 <= k < |items| ==> r[k] == View(items[k], active)
  {
    if items == [] then [] else [View(items[0], active)] + Render(items[1..], active)
  }

  // ---------------------------------------------------------------------------
  // Properties
  // ---------------------------------------------------------------------------

  /** A click on a disabled entry leaves the active section as it was; a click on an
      enabled entry makes that entry's id active. */
  lemma ClickGuard(items: seq<NavItem>, k: nat, active: string)
    requires k < |items|
    ensures items[k].disabled ==> AfterClick(items, k, active) == active
    ensures !items[k].disabled ==> AfterClick(items, k, active) == items[k].id
  {
  }

  /** Whatever entries are clicked, the active section is the starting one or the id of
      an entry that was enabled when it was clicked. */
  function AfterClicks(items: seq<NavItem>, clicks: seq<nat>, active: string): string
    requires forall i :: 0 <= i < |clicks| ==> clicks[i] < |items|
  {
    if clicks == [] then active
    else AfterClicks(items, clicks[1..], AfterClick(items, clicks[0], active))
  }

  lemma {:induction false} ClicksReachOnlyEnabled(items: seq<NavItem>, clicks: seq<nat>, active: string)
    requires forall i :: 0 <= i < |clicks| ==> clicks[i] < |items|
    ensures var r := AfterClicks(items, clicks, active);
      r == active || exists k :: 0 <= k < |items| && !items[k].disabled && items[k].id == r
  {
    if clicks != [] {
      var next := AfterClick(items, clicks[0], active);
      ClicksReachOnlyEnabled(items, clicks[1..], next);
      if next != active {
        assert !items[clicks[0]].disabled && items[clicks[0]].id == next;
      }
    }
  }

  /** The lock is shown exactly on disabled entries, the check exactly on completed ones,
      and exactly the entries whose id is the active section are highlighted. */
  lemma Markers(items: seq<NavItem>, active: string, k: nat)
    requires k < |items|
    ensures Render(items, active)[k].showsLock <==> items[k].disabled
    ensures Render(items, active)[k].showsCheck <==> items[k].completed
    ensures Render(items, active)[k].highlighted <==> items[k].id == active
  {
  }

  /** Distinct ids: no two entries share an id. */
  predicate DistinctIds(items: seq<NavItem>)
  {
    forall i, j :: 0 <= i < j < |items| ==> items[i].id != items[j].id
  }

  function HighlightCount(views: seq<ButtonView>): nat
  {
    if views == [] then 0 else (if views[0].highlighted then 1 else 0) + HighlightCount(views[1..])
  }

  /** With distinct ids, at most one button is highlighted, and exactly one when the active
      section is one of the entries. */
  lemma {:induction false} AtMostOneHighlighted(items: seq<NavItem>, active: string)
    requires DistinctIds(items)
    ensures HighlightCount(Render(items, active)) == if exists k :: 0 <= k < |items| && items[k].id == active then 1 else 0
  {
    if items != [] {
      var rest := items[1..];
      assert DistinctIds(rest);
      AtMostOneHighlighted(rest, active);
      assert Render(items, active)[1..] == Render(rest, active);
      if items[0].id == active {
        assert !exists k :: 0 <= k < |rest| && rest[k].id == active by {
          forall k | 0 <= k < |rest| ensures rest[k].id != active {
            assert rest[k] == items[k + 1];
          }
        }
      } else {
        if exists k :: 0 <= k < |items| && items[k].id == active {
          var k :| 0 <= k < |items| && items[k].id == active;
          assert rest[k - 1] == items[k];
        }
        if exists k :: 0 <= k < |rest| && rest[k].id == active {
          var k :| 0 <= k < |rest| && rest[k].id == active;
          assert items[k + 1] == rest[k];
        }
      }
    }
  }
}
