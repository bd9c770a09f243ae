/**
 * The window's workspace tabs (ui/src/renderer/App.tsx, and the same
 * handlers in app/src/App.tsx): a list of workspaces and the index of the
 * active one. The title bar reports reordering, closing, selecting and the
 * new-tab button; the body shows the workspace whose index equals the
 * active index, and a placeholder when there is none.
 */
module WorkspaceTabs {
  import opened Wrappers

  datatype Tabs<W> = Tabs(workspaces: seq<W>, active: Option<int>)

  /** What the body shows: the workspace at the active index, if there is one. */
  function Rendered<W>(s: Tabs<W>): (r: Option<W>)
    ensures r.Some? <==> s.active.Some? && 0 <= s.active.value < |s.workspaces|
    ensures r.Some? ==> r.value == s.workspaces[s.active.value]
  {
    match s.active
    case Some(i) => if 0 <= i < |s.workspaces| then Some(s.workspaces[i]) else None
    case None => None
  }

  /** Every workspace list that is not empty has an active workspace that exists; an empty one has none. */
  predicate ActiveValid<W>(s: Tabs<W>) {
    if |s.workspaces| == 0 then s.active.None? else s.active.Some? && 0 <= s.active.value < |s.workspaces|
  }

  /** `splice(i, 1)` with `i` in range. */
  function RemoveAt<W>(ws: seq<W>, i: nat): (r: seq<W>)
    requires i < |ws|
    ensures |r| == |ws| - 1
    ensures forall j | 0 <= j < i :: r[j] == ws[j]
    ensures forall j | i <= j < |r| :: r[j] == ws[j + 1]
    ensures multiset(r) == multiset(ws) - multiset{ws[i]}
  {
    assert ws == ws[..i] + [ws[i]] + ws[i + 1..];
    ws[..i] + ws[i + 1..]
  }

  /** `splice(i, 0, w)` with `i` in range. */
  function InsertAt<W>(ws: seq<W>, i: nat, w: W): (r: seq<W>)
    requires i <= |ws|
    ensures |r| == |ws| + 1 && r[i] == w
    ensures forall j | 0 <= j < i :: r[j] == ws[j]
    ensures forall j | i < j < |r| :: r[j] == ws[j - 1]
    ensures multiset(r) == multiset(ws) + multiset{w}
  {
    assert ws == ws[..i] + ws[i..];
    ws[..i] + [w] + ws[i..]
  }

  lemma RemoveInserted<W>(ws: seq<W>, i: nat, w: W)
    requires i <= |ws|
    ensures RemoveAt(InsertAt(ws, i, w), i) == ws
  {
    var r := RemoveAt(InsertAt(ws, i, w), i);
    assert forall j | 0 <= j < |ws| :: r[j] == ws[j];
  }

  lemma InsertRemoved<W>(ws: seq<W>, i: nat)
    requires i < |ws|
    ensures InsertAt(RemoveAt(ws, i), i, ws[i]) == ws
  {
    var r := InsertAt(RemoveAt(ws, i), i, ws[i]);
    assert forall j | 0 <= j < |ws| :: r[j] == ws[j];
  }

  /**
   * `onReorder(oldIdx, newIdx)`: the dragged tab taken out and put back at
   * `newIdx`, and that position made active. The title bar only reports
   * positions of tabs it shows.
   */
  function Reorder<W>(s: Tabs<W>, oldIdx: nat, newIdx: nat): (r: Tabs<W>)
    requires oldIdx < |s.workspaces| && newIdx < |s.workspaces|
    ensures r.active == Some(newIdx) && ActiveValid(r)
    ensures |r.workspaces| == |s.workspaces| && r.workspaces[newIdx] == s.workspaces[oldIdx]
    ensures RemoveAt(r.workspaces, newIdx) == RemoveAt(s.workspaces, oldIdx)
    ensures multiset(r.workspaces) == multiset(s.workspaces)
    ensures Rendered(r) == Some(s.workspaces[oldIdx])
  {
    var moved := s.workspaces[oldIdx];
    var rest := RemoveAt(s.workspaces, oldIdx);
    RemoveInserted(rest, newIdx, moved);
    Tabs(InsertAt(rest, newIdx, moved), Some(newIdx))
  }

  /** Dragging the tab back to where it came from restores the order. */
  lemma ReorderBack<W>(s: Tabs<W>, oldIdx: nat, newIdx: nat)
    requires oldIdx < |s.workspaces| && newIdx < |s.workspaces|
    ensures Reorder(Reorder(s, oldIdx, newIdx), newIdx, oldIdx).workspaces == s.workspaces
  {
    var t := Reorder(s, oldIdx, newIdx);
    assert RemoveAt(t.workspaces, newIdx) == RemoveAt(s.workspaces, oldIdx);
    InsertRemoved(s.workspaces, oldIdx);
  }

  /** `onActiveIndexChange`: the clicked tab becomes active. */
  function Select<W>(s: Tabs<W>, index: nat): (r: Tabs<W>)
    requires index < |s.workspaces|
    ensures r.workspaces == s.workspaces && ActiveValid(r)
    ensures Rendered(r) == Some(s.workspaces[index])
  {
    s.(active := Some(index))
  }

  /**
   * `onCloseClick(index)` as written. Closing the active tab moves the
   * active index one back, or keeps it at 0 (the check for an empty list
   * runs before the tab is removed, so it never applies). Closing any other
   * tab leaves the active index as it was.
   */
  function Close<W>(s: Tabs<W>, index: nat): (r: Tabs<W>)
    requires index < |s.workspaces|
    ensures r.workspaces == RemoveAt(s.workspaces, index)
    ensures s.active != Some(index) ==> r.active == s.active
    ensures s.active == Some(index) ==> r.active == Some(if index == 0 then 0 else index - 1)
  {
    var active :=
      if s.active == Some(index) then
        if |s.workspaces| == 0 then None
        else if s.active == Some(0) then Some(0)
        else Some(s.active.value - 1)
      else s.active;
    Tabs(RemoveAt(s.workspaces, index), active)
  }

  /** `onNewClick`: a workspace appended and made active. */
  function NewTab<W>(s: Tabs<W>, w: W): (r: Tabs<W>)
    ensures r.workspaces == s.workspaces + [w] && ActiveValid(r)
    ensures Rendered(r) == Some(w)
  {
    Tabs(s.workspaces + [w], Some(|s.workspaces|))
  }

  /** Closing the tab just opened gives the workspace list back. */
  lemma NewThenClose<W>(s: Tabs<W>, w: W)
    ensures Close(NewTab(s, w), |s.workspaces|).workspaces == s.workspaces
  {
    assert (s.workspaces + [w])[..|s.workspaces|] == s.workspaces;
  }

  /**
   * As written, closing a tab in front of the active one leaves the index
   * where it was, so the body shows a different workspace, or none: with
   * workspaces 0, 1, 2 and the last one active, closing the first shows
   * nothing.
   */
  lemma CloseInFrontLosesView()
    ensures var s := Tabs([0, 1, 2], Some(2));
      Rendered(s) == Some(2) && Rendered(Close(s, 0)) == None && !ActiveValid(Close(s, 0))
    ensures var s := Tabs([0, 1, 2], Some(1));
      Rendered(s) == Some(1) && Rendered(Close(s, 0)) == Some(2)
  {
    var s := Tabs([0, 1, 2], Some(2));
    assert Close(s, 0).workspaces == [1, 2];
    var t := Tabs([0, 1, 2], Some(1));
    assert Close(t, 0).workspaces == [1, 2];
  }

  /**
   * Closing as evidently intended: the active index follows the workspace
   * that was active; closing the active tab activates the one in front of
   * it (or the new first one); closing the last tab leaves none active.
   */
  function CloseTracking<W>(s: Tabs<W>, index: nat): (r: Tabs<W>)
    requires index < |s.workspaces|
    ensures r.workspaces == RemoveAt(s.workspaces, index)
    ensures ActiveValid(s) ==> ActiveValid(r)
    ensures ActiveValid(s) && s.active != Some(index) ==> Rendered(r) == Rendered(s)
    ensures ActiveValid(s) && s.active == Some(index) && |s.workspaces| > 1 ==>
      Rendered(r) == Some(if index == 0 then s.workspaces[1] else s.workspaces[index - 1])
  {
    var ws := RemoveAt(s.workspaces, index);
    var active :=
      if |ws| == 0 then None
      else match s.active
        case None => None
        case Some(a) =>
          if a == index then Some(if index == 0 then 0 else index - 1)
          else if index < a then Some(a - 1)
          else Some(a);
    Tabs(ws, active)
  }

  /** Closing a tab behind the active one, the handler as written agrees with the tracking version. */
  lemma CloseBehindActiveAgrees<W>(s: Tabs<W>, index: nat)
    requires ActiveValid(s) && index < |s.workspaces| && s.active.value < index
    ensures Close(s, index) == CloseTracking(s, index)
  {
  }
}
