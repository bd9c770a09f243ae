/**
 * The drop dispatch of the renderer's panel view
 * (ui/src/renderer/panels/render.tsx): a dragged tab and the first drop
 * target under the mouse select one of the panel tree's edits. A tab
 * dropped on a tab bar moves into that bar; dropped on the centre of a
 * panel it joins the panel's tabs or splits the panel; dropped on an edge
 * of a split it joins the split or splits the split's own node.
 */
module PanelDrop {
  import opened Wrappers
  import opened PanelStore
  import opened PanelTree
  import opened PanelTreeEdit

  /** What is being dragged: a tab showing a leaf, or something the dispatch does not handle. */
  datatype DragData = TabDrag(panel: Uuid) | OtherDrag

  datatype Side = Left | Right | Top | Bottom

  datatype CenterKind = CenterMiddle | CenterSide(side: Side)

  /**
   * Where it is dropped: on a tab bar (at an optional index), on the centre
   * area of a panel (whose id carries a parent or a leaf tag), on the edge
   * area of a parent, or on something else.
   */
  datatype DropData =
    | TabBarDrop(parent: Uuid, idx: Option<int>)
    | CenterDrop(kind: CenterKind, panelId: Uuid, taggedParent: bool)
    | EdgeAreaDrop(side: Side, parentId: Uuid)
    | OtherDrop

  /** The split axis a side lies on: left and right split horizontally, top and bottom vertically. */
  function SideAxis(s: Side): (d: Direction)
    ensures d == Horizontal <==> s == Left || s == Right
  {
    match s
    case Left => Horizontal
    case Right => Horizontal
    case Top => Vertical
    case Bottom => Vertical
  }

  /** Left and top are the start of their axis. */
  predicate AtStart(s: Side) { s == Left || s == Top }

  /** The index a centre-side drop gives the tab under the new split: the first or the second slot. */
  function CenterIndex(s: Side): (i: int)
    ensures i == 0 <==> AtStart(s)
    ensures i == 0 || i == 1
  {
    if AtStart(s) then 0 else 1
  }

  /** The index an edge drop gives the tab in a split: the start, or appended at the end. */
  function EdgeIndex(s: Side): (i: Option<int>)
    ensures i == Some(0) <==> AtStart(s)
    ensures i.None? <==> !AtStart(s)
  {
    if AtStart(s) then Some(0) else None
  }

  /** A step that produced a value, handed to the next step; a failure or defect stops the sequence. */
  function AndThen(s: Step<Uuid>, next: (Tree, Uuid) -> Step<()>): (r: Step<()>)
    ensures s.outcome.Fail? ==> r == Step(s.tree, Fail(s.outcome.error))
    ensures s.outcome.Defect? ==> r == Step(s.tree, Defect)
    ensures s.outcome.Ok? ==> r == next(s.tree, s.outcome.value)
  {
    match s.outcome
    case Ok(v) => next(s.tree, v)
    case Fail(e) => Step(s.tree, Fail(e))
    case Rejected => Step(s.tree, Rejected)
    case Defect => Step(s.tree, Defect)
  }

  /** A step without a value, followed by the next; a failure or defect stops the sequence. */
  function Then(s: Step<()>, next: Tree -> Step<()>): (r: Step<()>)
    ensures !s.outcome.Succeeded() ==> r == Step(s.tree, Propagate(s.outcome))
    ensures s.outcome.Succeeded() ==> r == next(s.tree)
  {
    if s.outcome.Succeeded() then next(s.tree) else Step(s.tree, Propagate(s.outcome))
  }

  /** `handleDropMiddle`: into a parent's tabs directly; a leaf is first promoted to a tabs parent. */
  function DropMiddle(t: Tree, panel: Uuid, target: Uuid, taggedParent: bool, newId: Uuid): (r: Step<()>)
  {
    if taggedParent then ReParent(t, panel, target, None)
    else AndThen(PromoteToParent(t, target, Tabs(None), [], newId), (t1, p) => ReParent(t1, panel, p, None))
  }

  /** `handleDir`: the target is promoted to a split on the side's axis, the tab is sized to fill, and moved into the first or second slot. */
  function DropSide(t: Tree, panel: Uuid, target: Uuid, s: Side, newId: Uuid): (r: Step<()>)
  {
    AndThen(PromoteToParent(t, target, Split(SideAxis(s)), [], newId), (t1, p) =>
      Then(SetPercentOfParent(t1, panel, 1.0), t2 => ReParent(t2, panel, p, Some(CenterIndex(s)))))
  }

  /**
   * `handleEdge`: the parent is fetched (a missing one fails, a leaf
   * throws) and must not be a tabs layout (the assertion throws); on a split
   * along the side's axis the tab joins it at the start or the end;
   * otherwise the parent is first promoted to a split on that axis.
   */
  function DropEdge(t: Tree, panel: Uuid, parentId: Uuid, s: Side, newId: Uuid): (r: Step<()>)
  {
    match ParentGetOrError(t, parentId, None)
    case Fail(e) => Step(t, Fail(e))
    case Defect => Step(t, Defect)
    case Ok(n) =>
      if n.attrs.kind.layout.Tabs? then Step(t, Defect)
      else if n.attrs.kind.layout.direction == SideAxis(s) then ReParent(t, panel, parentId, EdgeIndex(s))
      else AndThen(PromoteToParent(t, parentId, Split(SideAxis(s)), [], newId), (t1, p) => ReParent(t1, panel, p, EdgeIndex(s)))
  }

  /**
   * The `onDrop` handler: nothing happens without a drop target or for a
   * source and target it does not pair; `newId` is the id a promotion
   * would give its new parent.
   */
  function Drop(t: Tree, source: DragData, destination: Option<DropData>, newId: Uuid): (r: Step<()>)
    ensures destination.None? || source.OtherDrag? || destination.value.OtherDrop? ==> r == Step(t, Ok(()))
  {
    if destination.None? || source.OtherDrag? then Step(t, Ok(()))
    else
      var panel := source.panel;
      match destination.value
      case TabBarDrop(parent, idx) => ReParent(t, panel, parent, idx)
      case CenterDrop(kind, target, taggedParent) =>
        (match kind
         case CenterMiddle => DropMiddle(t, panel, target, taggedParent, newId)
         case CenterSide(s) => DropSide(t, panel, target, s, newId))
      case EdgeAreaDrop(s, parentId) => DropEdge(t, panel, parentId, s, newId)
      case OtherDrop => Step(t, Ok(()))
  }

  /** A tab dropped on a tab bar of a valid tree moves into that bar at the index, and the tree stays valid. */
  lemma TabBarDropPlaces(t: Tree, panel: Uuid, bar: Uuid, idx: Option<int>, newId: Uuid)
    requires Valid(t) && panel in t.nodes && t.nodes[panel].parent.Some?
    requires bar in t.nodes && IsParent(t.nodes[bar])
    ensures Drop(t, TabDrag(panel), Some(TabBarDrop(bar, idx)), newId).outcome.Ok?
    ensures Valid(Drop(t, TabDrag(panel), Some(TabBarDrop(bar, idx)), newId).tree)
    ensures Drop(t, TabDrag(panel), Some(TabBarDrop(bar, idx)), newId).tree.nodes[panel].parent == Some(bar)
    ensures Drop(t, TabDrag(panel), Some(TabBarDrop(bar, idx)), newId).tree.nodes[bar].children ==
      InsertAt(Without(t.nodes[bar].children, panel), idx, panel)
  {
    ReParentKeepsValid(t, panel, bar, idx);
    ReParentPlaces(t, panel, bar, idx);
  }

  /** A tab dropped on the middle of a parent joins its list at the end, and the tree stays valid. */
  lemma MiddleOnParentPlaces(t: Tree, panel: Uuid, target: Uuid, newId: Uuid)
    requires Valid(t) && panel in t.nodes && t.nodes[panel].parent.Some?
    requires target in t.nodes && IsParent(t.nodes[target])
    ensures Drop(t, TabDrag(panel), Some(CenterDrop(CenterMiddle, target, true)), newId).outcome.Ok?
    ensures Valid(Drop(t, TabDrag(panel), Some(CenterDrop(CenterMiddle, target, true)), newId).tree)
    ensures Drop(t, TabDrag(panel), Some(CenterDrop(CenterMiddle, target, true)), newId).tree.nodes[target].children ==
      Without(t.nodes[target].children, panel) + [panel]
  {
    MiddleOnParentIsReParent(t, panel, target, newId);
    ReParentKeepsValid(t, panel, target, None);
    ReParentPlaces(t, panel, target, None);
    InsertAtEnds(Without(t.nodes[target].children, panel), panel);
  }

  /** On a parent, a middle drop is a plain move to the end of its list. */
  lemma MiddleOnParentIsReParent(t: Tree, panel: Uuid, target: Uuid, newId: Uuid)
    requires target in t.nodes && IsParent(t.nodes[target])
    ensures Drop(t, TabDrag(panel), Some(CenterDrop(CenterMiddle, target, true)), newId) == ReParent(t, panel, target, None)
  {
  }

  /**
   * A tab dropped on the edge of a split along the edge's axis joins that
   * split first (left, top) or last (right, bottom), and the tree stays valid.
   */
  lemma EdgeAlongAxisPlaces(t: Tree, panel: Uuid, parentId: Uuid, s: Side, newId: Uuid)
    requires Valid(t) && panel in t.nodes && t.nodes[panel].parent.Some?
    requires parentId in t.nodes && IsParent(t.nodes[parentId]) && t.nodes[parentId].attrs.kind.layout == Split(SideAxis(s))
    ensures Drop(t, TabDrag(panel), Some(EdgeAreaDrop(s, parentId)), newId).outcome.Ok?
    ensures Valid(Drop(t, TabDrag(panel), Some(EdgeAreaDrop(s, parentId)), newId).tree)
    ensures var cs := Drop(t, TabDrag(panel), Some(EdgeAreaDrop(s, parentId)), newId).tree.nodes[parentId].children;
      var rest := Without(t.nodes[parentId].children, panel);
      if AtStart(s) then cs == [panel] + rest else cs == rest + [panel]
  {
    EdgeAlongAxisIsReParent(t, panel, parentId, s, newId);
    ReParentKeepsValid(t, panel, parentId, EdgeIndex(s));
    ReParentPlaces(t, panel, parentId, EdgeIndex(s));
    InsertAtEnds(Without(t.nodes[parentId].children, panel), panel);
  }

  /** On a split along the side's axis, an edge drop is a plain move into that split. */
  lemma EdgeAlongAxisIsReParent(t: Tree, panel: Uuid, parentId: Uuid, s: Side, newId: Uuid)
    requires parentId in t.nodes && IsParent(t.nodes[parentId]) && t.nodes[parentId].attrs.kind.layout == Split(SideAxis(s))
    ensures Drop(t, TabDrag(panel), Some(EdgeAreaDrop(s, parentId)), newId) == ReParent(t, panel, parentId, EdgeIndex(s))
  {
    assert ParentGetOrError(t, parentId, None) == Ok(t.nodes[parentId]);
  }

  /** Inserting at index 0 puts the id first; inserting without an index appends it. */
  lemma InsertAtEnds(s: seq<Uuid>, x: Uuid)
    ensures InsertAt(s, Some(0), x) == [x] + s
    ensures InsertAt(s, None, x) == s + [x]
  {
  }

  /** An edge drop on a tabs parent breaks the handler's assertion; on a missing parent it fails naming it; either way nothing changes. */
  lemma EdgeOnTabsOrMissing(t: Tree, panel: Uuid, parentId: Uuid, s: Side, newId: Uuid)
    ensures parentId !in t.nodes ==>
      Drop(t, TabDrag(panel), Some(EdgeAreaDrop(s, parentId)), newId) == Step(t, Fail(NodeNotInTree(parentId, [])))
    ensures parentId in t.nodes && t.nodes[parentId].attrs.kind.ParentKind? && t.nodes[parentId].attrs.kind.layout.Tabs? ==>
      Drop(t, TabDrag(panel), Some(EdgeAreaDrop(s, parentId)), newId) == Step(t, Defect)
  {
  }

  /**
   * A tab dropped on the middle of a leaf turns the leaf's place into a new
   * tabs parent: it lists the leaf and then the tab, shows the tab, and is
   * shared between them as 1 to the tab's old percent, the leaf having
   * filled it alone.
   */
  lemma MiddleOnLeafPlaces(t: Tree, panel: Uuid, target: Uuid, newId: Uuid)
    requires Valid(t) && panel in t.nodes && t.nodes[panel].parent.Some?
    requires target in t.nodes && !IsParent(t.nodes[target]) && t.nodes[target].parent.Some?
    requires newId !in t.nodes && panel != target
    ensures var r := Drop(t, TabDrag(panel), Some(CenterDrop(CenterMiddle, target, false)), newId);
      var x := t.nodes[panel].percent;
      && r.outcome.Ok?
      && Valid(r.tree)
      && PairParent(r.tree, newId, t.nodes[target].parent, Tabs(Some(panel)), target, panel, FillerShare(x), NewcomerShare(x))
  {
    var t1 := PromotedBeside(t, panel, target, Tabs(None), newId);
    MiddleOnLeafIsReParent(t, panel, target, newId, t1);
    ReParentBeside(t1, panel, newId, None, target, t.nodes[panel].percent, Tabs(Some(panel)), t.nodes[target].parent);
  }

  /**
   * The tree after a promotion of `target` under `newId`, as the drops use
   * it: valid, the new parent filled by the target alone in the target's
   * old place, and the tab where and as large as it was.
   */
  lemma PromotedBeside(t: Tree, panel: Uuid, target: Uuid, layout: Layout, newId: Uuid) returns (t1: Tree)
    requires Valid(t) && panel in t.nodes && t.nodes[panel].parent.Some?
    requires target in t.nodes && t.nodes[target].parent.Some? && !(IsParent(t.nodes[target]) && layout.Tabs?)
    requires newId !in t.nodes && panel != target
    ensures PromoteToParent(t, target, layout, [], newId) == Step(t1, Ok(newId))
    ensures Valid(t1) && panel in t1.nodes && newId in t1.nodes && panel != newId
    ensures t1.nodes[panel].parent == t.nodes[panel].parent && t1.nodes[panel].percent == t.nodes[panel].percent
    ensures t.nodes[panel].parent.value != newId
    ensures IsParent(t1.nodes[newId]) && t1.nodes[newId].attrs.kind.layout == layout
    ensures t1.nodes[newId].children == [target] && t1.nodes[newId].parent == t.nodes[target].parent
    ensures forall k | k in t.nodes && k != t.nodes[target].parent.value :: t1.nodes[k].children == t.nodes[k].children
    ensures var q := t.nodes[target].parent.value;
      q in t.nodes && t1.nodes[q].children == t.nodes[q].children[IndexOf(t.nodes[q].children, target) := newId]
  {
    PromoteKeepsValid(t, target, layout, newId);
    PromoteFrame(t, target, layout, newId);
    t1 := PromoteToParent(t, target, layout, [], newId).tree;
  }

  /**
   * A tab dropped on a side of a panel's centre puts a new split, on the
   * side's axis, in the panel's place: the tab goes first for the left and
   * top sides and second otherwise, and the two share the split equally,
   * since the tab is first sized to fill its old parent. The tab's old
   * parent must keep another child for that sizing to succeed.
   */
  lemma SideDropSplits(t: Tree, panel: Uuid, target: Uuid, tagged: bool, s: Side, newId: Uuid)
    requires Valid(t) && panel in t.nodes && t.nodes[panel].parent.Some? && t.nodes[panel].parent.value in t.nodes
    requires exists c | c in t.nodes[t.nodes[panel].parent.value].children :: c != panel
    requires target in t.nodes && t.nodes[target].parent.Some?
    requires newId !in t.nodes && panel != target
    ensures var r := Drop(t, TabDrag(panel), Some(CenterDrop(CenterSide(s), target, tagged)), newId);
      var up := t.nodes[target].parent;
      && r.outcome.Ok?
      && Valid(r.tree)
      && (AtStart(s) ==> PairParent(r.tree, newId, up, Split(SideAxis(s)), panel, target, 0.5, 0.5))
      && (!AtStart(s) ==> PairParent(r.tree, newId, up, Split(SideAxis(s)), target, panel, 0.5, 0.5))
  {
    var pp := t.nodes[panel].parent.value;
    var t1 := PromotedBeside(t, panel, target, Split(SideAxis(s)), newId);
    OtherStays(t.nodes[pp].children, t1.nodes[pp].children, panel, target, newId);
    SetPercentOfParentKeepsValid(t1, panel, 1.0);
    var t2 := SetPercentOfParent(t1, panel, 1.0).tree;
    assert t2.nodes[newId] == t1.nodes[newId].(percent := t2.nodes[newId].percent);
    assert t2.nodes[panel] == t1.nodes[panel].(percent := 1.0);
    var idx := Some(CenterIndex(s));
    SideIsReParent(t, panel, target, tagged, s, newId, t1);
    IndexSlots(s);
    EvenShares();
    ReParentBeside(t2, panel, newId, idx, target, 1.0, Split(SideAxis(s)), t.nodes[target].parent);
  }

  /** A list that held something besides the tab still does after one entry, if any, is overwritten with another id. */
  lemma OtherStays(before: seq<Uuid>, after: seq<Uuid>, panel: Uuid, target: Uuid, newId: Uuid)
    requires exists c | c in before :: c != panel
    requires newId != panel
    requires after == before || (target in before && after == before[IndexOf(before, target) := newId])
    ensures exists c | c in after :: c != panel
  {
    var c :| c in before && c != panel;
    if after != before {
      var j := IndexOf(before, target);
      if c == before[j] {
        assert after[j] == newId;
        assert newId in after;
      } else {
        var i :| 0 <= i < |before| && before[i] == c;
        assert after[i] == c;
        assert c in after;
      }
    } else {
      assert c in after;
    }
  }

  /** Into a one-entry list, a centre side's index and an edge's index both put the tab first exactly at the start of the axis. */
  lemma IndexSlots(s: Side)
    ensures InsertPos(1, Some(CenterIndex(s))) == 0 <==> AtStart(s)
    ensures InsertPos(1, EdgeIndex(s)) == 0 <==> AtStart(s)
  {
  }

  /** A pair that started level shares its parent equally. */
  lemma EvenShares()
    ensures FillerShare(1.0) == 0.5 && NewcomerShare(1.0) == 0.5
  {
  }

  /**
   * A tab dropped on the edge of a split across the edge's axis promotes
   * the split: a new split on the edge's axis takes its place and lists the
   * tab first (left, top) or last (right, bottom) beside the old split,
   * which filled it alone and so keeps 1 to the tab's old percent.
   */
  lemma EdgeAcrossAxisPromotes(t: Tree, panel: Uuid, parentId: Uuid, s: Side, newId: Uuid)
    requires Valid(t) && panel in t.nodes && t.nodes[panel].parent.Some?
    requires parentId in t.nodes && IsParent(t.nodes[parentId]) && t.nodes[parentId].parent.Some?
    requires t.nodes[parentId].attrs.kind.layout.Split? && t.nodes[parentId].attrs.kind.layout.direction != SideAxis(s)
    requires newId !in t.nodes && panel != parentId
    ensures var r := Drop(t, TabDrag(panel), Some(EdgeAreaDrop(s, parentId)), newId);
      var x := t.nodes[panel].percent;
      var up := t.nodes[parentId].parent;
      && r.outcome.Ok?
      && Valid(r.tree)
      && (AtStart(s) ==> PairParent(r.tree, newId, up, Split(SideAxis(s)), panel, parentId, NewcomerShare(x), FillerShare(x)))
      && (!AtStart(s) ==> PairParent(r.tree, newId, up, Split(SideAxis(s)), parentId, panel, FillerShare(x), NewcomerShare(x)))
  {
    var t1 := PromotedBeside(t, panel, parentId, Split(SideAxis(s)), newId);
    EdgeAcrossIsReParent(t, panel, parentId, s, newId, t1);
    var idx := EdgeIndex(s);
    IndexSlots(s);
    ReParentBeside(t1, panel, newId, idx, parentId, t.nodes[panel].percent, Split(SideAxis(s)), t.nodes[parentId].parent);
  }

  /** On a leaf, a middle drop is the promotion followed by a move to the end of the new tabs. */
  lemma MiddleOnLeafIsReParent(t: Tree, panel: Uuid, target: Uuid, newId: Uuid, t1: Tree)
    requires PromoteToParent(t, target, Tabs(None), [], newId) == Step(t1, Ok(newId))
    ensures Drop(t, TabDrag(panel), Some(CenterDrop(CenterMiddle, target, false)), newId) == ReParent(t1, panel, newId, None)
  {
    assert Drop(t, TabDrag(panel), Some(CenterDrop(CenterMiddle, target, false)), newId) == DropMiddle(t, panel, target, false, newId);
  }

  /** A centre-side drop is the promotion, the sizing of the tab, and a move into the new split's slot. */
  lemma SideIsReParent(t: Tree, panel: Uuid, target: Uuid, tagged: bool, s: Side, newId: Uuid, t1: Tree)
    requires PromoteToParent(t, target, Split(SideAxis(s)), [], newId) == Step(t1, Ok(newId))
    requires SetPercentOfParent(t1, panel, 1.0).outcome.Ok?
    ensures Drop(t, TabDrag(panel), Some(CenterDrop(CenterSide(s), target, tagged)), newId) ==
      ReParent(SetPercentOfParent(t1, panel, 1.0).tree, panel, newId, Some(CenterIndex(s)))
  {
    assert Drop(t, TabDrag(panel), Some(CenterDrop(CenterSide(s), target, tagged)), newId) == DropSide(t, panel, target, s, newId);
    var s1 := SetPercentOfParent(t1, panel, 1.0);
    assert s1.outcome.Succeeded();
  }

  /** Across the axis, an edge drop is the promotion followed by a move into the new split. */
  lemma EdgeAcrossIsReParent(t: Tree, panel: Uuid, parentId: Uuid, s: Side, newId: Uuid, t1: Tree)
    requires parentId in t.nodes && IsParent(t.nodes[parentId])
    requires t.nodes[parentId].attrs.kind.layout.Split? && t.nodes[parentId].attrs.kind.layout.direction != SideAxis(s)
    requires PromoteToParent(t, parentId, Split(SideAxis(s)), [], newId) == Step(t1, Ok(newId))
    ensures Drop(t, TabDrag(panel), Some(EdgeAreaDrop(s, parentId)), newId) == ReParent(t1, panel, newId, EdgeIndex(s))
  {
    assert Drop(t, TabDrag(panel), Some(EdgeAreaDrop(s, parentId)), newId) == DropEdge(t, panel, parentId, s, newId);
    assert ParentGetOrError(t, parentId, None) == Ok(t.nodes[parentId]);
  }

  /**
   * The centre and edge handlers agree on sides: a side's tab goes first
   * exactly when the side is the start of its axis, for both.
   */
  lemma SidesAgree(s: Side)
    ensures CenterIndex(s) == 0 <==> EdgeIndex(s) == Some(0)
  {
  }
}
