/**
 * Drag and drop over the layout tree (ui/src/renderer/ui/Panels/View/dnd.ts
 * with the views that hand it its data, and the same handlers in
 * ui/src/renderer/ui/panel3/View.tsx).
 *
 * A view's update closure writes one node of the workspace: it is the chain
 * of `updateNode`/`updateSplit` closures from a workspace tree down through
 * split children, each asserting the node it receives is the kind it expects.
 * Here it is a location (a tree of the workspace and a path of child
 * indices) and `ModifyAt`. A drop runs its writes in order; a write that
 * throws leaves the writes before it in place.
 */
module LayoutDnd {
  import opened Wrappers
  import opened PanelSizing
  import opened LayoutData

  datatype Loc = Loc(part: Part, path: seq<nat>)

  /** The node a path leads to, if every step is a split child in range. */
  function NodeAt(n: PanelNode, path: seq<nat>): Option<PanelNode>
    decreases |path|
  {
    if path == [] then Some(n)
    else if n.Split? && path[0] < |n.children| then NodeAt(n.children[path[0]].node, path[1..])
    else None
  }

  function NodeAtLoc(ws: Workspace, loc: Loc): Option<PanelNode>
  {
    NodeAt(PartNode(ws, loc.part), loc.path)
  }

  /**
   * The composed update closures: each enclosing `updateSplit` asserts a
   * split; `Array.modify` leaves the children as they are for an index out
   * of range (the update is then never applied); at the end of the path the
   * update itself runs. Anything but success is a thrown error.
   */
  function ModifyAt(n: PanelNode, path: seq<nat>, f: PanelNode -> Outcome<PanelNode, ()>): (r: Outcome<PanelNode, ()>)
    ensures r.Ok? || r.Defect?
    decreases |path|
  {
    if path == [] then (if f(n).Ok? then f(n) else Defect)
    else if !n.Split? then Defect
    else if path[0] >= |n.children| then Ok(n)
    else
      var c := n.children[path[0]];
      match ModifyAt(c.node, path[1..], f)
      case Ok(m) => Ok(Split(n.axis, n.children[path[0] := SplitChild(c.percent, m)]))
      case _ => Defect
  }

  /** The workspace setter through a location. */
  function ModifyLoc(ws: Workspace, loc: Loc, f: PanelNode -> Outcome<PanelNode, ()>): (r: Outcome<Workspace, ()>)
    ensures r.Ok? || r.Defect?
  {
    match ModifyAt(PartNode(ws, loc.part), loc.path, f)
    case Ok(m) => Ok(WithPart(ws, loc.part, m))
    case _ => Defect
  }

  /** `updateTabs`: the view asserts the node is a tabs node before applying the update. */
  function OnTabs(g: TabsNode -> Outcome<TabsNode, ()>): PanelNode -> Outcome<PanelNode, ()>
  {
    (n: PanelNode) => if n.Tabs? then g(n) else Defect
  }

  /** `updateSplit`: the view asserts the node is a split before applying the update. */
  function OnSplit(g: SplitNode -> Outcome<SplitNode, ()>): PanelNode -> Outcome<PanelNode, ()>
  {
    (n: PanelNode) => if n.Split? then g(n) else Defect
  }

  /** The write lands where the path leads: that node becomes the update's result. */
  lemma {:induction false} ModifyAtSets(n: PanelNode, path: seq<nat>, f: PanelNode -> Outcome<PanelNode, ()>)
    requires NodeAt(n, path).Some?
    ensures f(NodeAt(n, path).value).Ok? ==>
      ModifyAt(n, path, f).Ok? && NodeAt(ModifyAt(n, path, f).value, path) == Some(f(NodeAt(n, path).value).value)
    ensures !f(NodeAt(n, path).value).Ok? ==> ModifyAt(n, path, f) == Defect
    decreases |path|
  {
    if path != [] {
      var c := n.children[path[0]];
      ModifyAtSets(c.node, path[1..], f);
    }
  }

  /** One path is a prefix of the other: one of the two nodes contains the other. */
  predicate Nested(p: seq<nat>, q: seq<nat>)
  {
    (|p| <= |q| && q[..|p|] == p) || (|q| <= |p| && p[..|q|] == q)
  }

  /** A write leaves every node off its path, and not above it, as it was. */
  lemma {:induction false} ModifyAtElsewhere(n: PanelNode, p: seq<nat>, q: seq<nat>, f: PanelNode -> Outcome<PanelNode, ()>)
    requires ModifyAt(n, p, f).Ok? && !Nested(p, q)
    ensures NodeAt(ModifyAt(n, p, f).value, q) == NodeAt(n, q)
    decreases |p|
  {
    if p[0] < |n.children| {
      var m := ModifyAt(n, p, f).value;
      var c := n.children[p[0]];
      if p[0] == q[0] {
        ModifyAtElsewhere(c.node, p[1..], q[1..], f);
      }
    }
  }

  lemma ModifyLocSets(ws: Workspace, loc: Loc, f: PanelNode -> Outcome<PanelNode, ()>)
    requires NodeAtLoc(ws, loc).Some?
    ensures f(NodeAtLoc(ws, loc).value).Ok? ==>
      ModifyLoc(ws, loc, f).Ok? && NodeAtLoc(ModifyLoc(ws, loc, f).value, loc) == Some(f(NodeAtLoc(ws, loc).value).value)
    ensures !f(NodeAtLoc(ws, loc).value).Ok? ==> ModifyLoc(ws, loc, f) == Defect
  {
    ModifyAtSets(PartNode(ws, loc.part), loc.path, f);
  }

  /** Two locations neither of which contains the other. */
  predicate Apart(a: Loc, b: Loc)
  {
    a.part != b.part || !Nested(a.path, b.path)
  }

  lemma ModifyLocElsewhere(ws: Workspace, a: Loc, b: Loc, f: PanelNode -> Outcome<PanelNode, ()>)
    requires ModifyLoc(ws, a, f).Ok? && Apart(a, b)
    ensures NodeAtLoc(ModifyLoc(ws, a, f).value, b) == NodeAtLoc(ws, b)
  {
    if a.part == b.part {
      ModifyAtElsewhere(PartNode(ws, a.part), a.path, b.path, f);
    }
  }

  // ---------------------------------------------------------------------
  // The drop handlers.

  datatype DropSide = Left | Right | Top | Bottom

  predicate AtStart(s: DropSide) { s == Left || s == Top }

  /** The axis a side lies on: left and right split horizontally, top and bottom vertically. */
  function SideAxis(s: DropSide): (a: Axis)
    ensures a == Horizontal <==> s == Left || s == Right
  {
    if s == Left || s == Right then Horizontal else Vertical
  }

  /** A dragged tab: where its tabs node is, the tab's index there, and its leaf. */
  datatype DragSource = TabSource(from: Loc, idx: int, leaf: Leaf) | OtherSource

  /**
   * Where it is dropped: on a tabs node's bar (at an index or at the end),
   * on a split's insert point, on a side of a tabs node (whose id is what
   * the handler compares), or on something else.
   */
  datatype DropTarget =
    | OntoTabs(at: Loc, tabsIdx: Option<int>)
    | OntoSplit(at: Loc, splitIdx: int)
    | OntoSide(tabsId: Uuid, side: DropSide)
    | OtherTarget

  /** A drop's end state, and whether one of its writes threw. */
  datatype Run = Run(ws: Workspace, threw: bool)

  /** The first write of every handled drop: the dragged tab leaves its tabs node by index. */
  function TakeTab(ws: Workspace, from: Loc, idx: int): Outcome<Workspace, ()>
  {
    ModifyLoc(ws, from, OnTabs(t => Ok(RemoveTab(t, idx))))
  }

  /** The next write after a successful one; a throw keeps the state the earlier writes left. */
  function Continue(ws: Workspace, o: Outcome<Workspace, ()>): (r: Run)
    ensures o.Ok? ==> r == Run(o.value, false)
    ensures !o.Ok? ==> r == Run(ws, true)
  {
    if o.Ok? then Run(o.value, false) else Run(ws, true)
  }

  /** The single-leaf tabs node a drop creates, showing its leaf. */
  function NewTabs(newId: Uuid, leaf: Leaf): (t: TabsNode)
  {
    MakeTabs(newId, Some(0), [leaf])
  }

  /** `makeNewSplit`: an even two-way split, the new tabs first for left and top, second otherwise. */
  function NewSplit(axis: Axis, existing: PanelNode, side: DropSide, newId: Uuid, leaf: Leaf): (r: SplitNode)
    ensures r.axis == axis && |r.children| == 2
    ensures AtStart(side) ==> Nodes(r.children) == [NewTabs(newId, leaf), existing]
    ensures !AtStart(side) ==> Nodes(r.children) == [existing, NewTabs(newId, leaf)]
    ensures r.children[0].percent == 0.5 && r.children[1].percent == 0.5
  {
    var nodes := if AtStart(side) then [NewTabs(newId, leaf), existing] else [existing, NewTabs(newId, leaf)];
    MakeSplit(axis, nodes).value
  }

  predicate IsTabs(id: Uuid, n: PanelNode) { n.Tabs? && n.id == id }

  /** `findIndex` of the child showing the tabs node. */
  function FindTabs(cs: seq<SplitChild>, id: Uuid): (r: Option<nat>)
    ensures r.Some? ==> r.value < |cs| && IsTabs(id, cs[r.value].node)
    ensures r.Some? ==> forall j | 0 <= j < r.value :: !IsTabs(id, cs[j].node)
    ensures r.None? ==> forall j | 0 <= j < |cs| :: !IsTabs(id, cs[j].node)
  {
    if |cs| == 0 then None
    else if IsTabs(id, cs[0].node) then Some(0)
    else match FindTabs(cs[1..], id)
      case None => None
      case Some(j) => Some(j + 1)
  }

  /**
   * The search handed to `updateNodesInWorkspace` for a side drop away from
   * a tree's root: a split with the tabs node among its children gets that
   * child replaced by a new split across the split's own axis.
   */
  function EnclosingSplit(id: Uuid, side: DropSide, newId: Uuid, leaf: Leaf): PanelNode -> Option<PanelNode>
  {
    (n: PanelNode) =>
      if !n.Split? then None
      else match FindTabs(n.children, id)
        case None => None
        case Some(i) =>
          var c := n.children[i];
          Some(Split(n.axis, n.children[i := SplitChild(c.percent, NewSplit(AxisCross(n.axis), c.node, side, newId, leaf))]))
  }

  /** The tree whose root is the tabs node, checked in the handler's order. */
  function RootTabsPart(ws: Workspace, id: Uuid): (r: Option<Part>)
    ensures r.Some? ==> IsTabs(id, PartNode(ws, r.value))
    ensures r.None? ==> forall p :: !IsTabs(id, PartNode(ws, p))
  {
    if IsTabs(id, ws.root) then Some(RootPart)
    else if IsTabs(id, ws.sidebars.left.node) then Some(BarPart(LeftBar))
    else if IsTabs(id, ws.sidebars.right.node) then Some(BarPart(RightBar))
    else if IsTabs(id, ws.sidebars.bottom.node) then Some(BarPart(BottomBar))
    else
      NoTreeIsTabs(ws, id);
      None
  }

  lemma NoTreeIsTabs(ws: Workspace, id: Uuid)
    requires !IsTabs(id, ws.root) && !IsTabs(id, ws.sidebars.left.node)
    requires !IsTabs(id, ws.sidebars.right.node) && !IsTabs(id, ws.sidebars.bottom.node)
    ensures forall p :: !IsTabs(id, PartNode(ws, p))
  {
    forall p
      ensures !IsTabs(id, PartNode(ws, p))
    {
      match p
      case RootPart =>
      case BarPart(s) => match s { case LeftBar => case RightBar => case BottomBar => }
    }
  }

  /**
   * `handle_DragDataForTab_on_DropTargetSplitTabs` after the tab is taken:
   * a tabs node at the root of a tree becomes a split along the side's axis;
   * elsewhere its enclosing split's child becomes a split across that split,
   * and finding no enclosing split throws. `search` is how each tree is
   * searched (the one-level `UpdateNodes` as written, or `UpdateNodesDeep`).
   */
  function SideDrop(ws: Workspace, id: Uuid, side: DropSide, newId: Uuid, leaf: Leaf,
                    search: (PanelNode, PanelNode -> Option<PanelNode>) -> Option<PanelNode>): (r: Run)
  {
    match RootTabsPart(ws, id)
    case Some(p) => Run(WithPart(ws, p, NewSplit(SideAxis(side), PartNode(ws, p), side, newId, leaf)), false)
    case None =>
      match UpdateWorkspace(ws, n => search(n, EnclosingSplit(id, side, newId, leaf)))
      case None => Run(ws, true)
      case Some(w) => Run(w, false)
  }

  /**
   * `handleDrop`: the first drop target decides; without one, or for a pair
   * it does not handle, nothing happens. Every handled pair first takes the
   * tab from its tabs node, then adds it to the target: into a tabs bar
   * with `tabsAddTab`, into a split as a new single-leaf tabs node with
   * `splitAddChild`, or beside a tabs node with a new split. `newId` is the
   * fresh id of a new tabs node. The side drop searches the whole tree with
   * `UpdateNodesDeep`, the intended walk; the source's one-level
   * `UpdateNodes` misses nested tabs (`DeepSideDropThrows`).
   */
  function HandleDrop(ws: Workspace, source: DragSource, target: Option<DropTarget>, newId: Uuid): (r: Run)
    ensures target.None? || source.OtherSource? || target.value.OtherTarget? ==> r == Run(ws, false)
  {
    if target.None? || source.OtherSource? || target.value.OtherTarget? then Run(ws, false)
    else
      match TakeTab(ws, source.from, source.idx)
      case Ok(ws1) =>
        (match target.value
         case OntoTabs(at, idx) => Continue(ws1, ModifyLoc(ws1, at, OnTabs(t => TabsAddTab(t, source.leaf, idx))))
         case OntoSplit(at, idx) =>
           Continue(ws1, ModifyLoc(ws1, at, OnSplit(s => SplitAddChild(s, NewTabs(newId, source.leaf), Some(idx)))))
         case OntoSide(id, side) => SideDrop(ws1, id, side, newId, source.leaf, UpdateNodesDeep))
      case _ => Run(ws, true)
  }

  // ---------------------------------------------------------------------
  // What the handlers do.

  /** The drag source holds the dragged leaf at its index. */
  predicate HoldsTab(ws: Workspace, from: Loc, idx: int, leaf: Leaf)
  {
    NodeAtLoc(ws, from).Some? && NodeAtLoc(ws, from).value.Tabs? &&
    0 <= idx < |NodeAtLoc(ws, from).value.leaves| && NodeAtLoc(ws, from).value.leaves[idx] == leaf
  }

  lemma TakeTabRemoves(ws: Workspace, from: Loc, idx: int)
    requires NodeAtLoc(ws, from).Some? && NodeAtLoc(ws, from).value.Tabs?
    ensures TakeTab(ws, from, idx).Ok?
    ensures NodeAtLoc(TakeTab(ws, from, idx).value, from) == Some(RemoveTab(NodeAtLoc(ws, from).value, idx))
  {
    ModifyLocSets(ws, from, OnTabs(t => Ok(RemoveTab(t, idx))));
  }

  /** Taking the tab at `i` and adding the same leaf back loses and duplicates nothing. */
  lemma RemoveThenAddKeepsLeaves(t: TabsNode, i: int, leaf: Leaf, idx: Option<int>)
    requires 0 <= i < |t.leaves| && t.leaves[i] == leaf
    requires TabsAddTab(RemoveTab(t, i), leaf, idx).Ok?
    ensures multiset(TabsAddTab(RemoveTab(t, i), leaf, idx).value.leaves) == multiset(t.leaves)
  {
    assert t.leaves == t.leaves[..i] + [leaf] + t.leaves[i + 1..];
  }

  /**
   * A tab dropped on a tab bar of the same tabs node is reordered: the node
   * becomes the bar with the tab removed and then added at the drop index,
   * the tab is active, and no leaf is lost or duplicated.
   */
  lemma TabOntoOwnBar(ws: Workspace, from: Loc, i: int, leaf: Leaf, idx: Option<int>, newId: Uuid)
    requires HoldsTab(ws, from, i, leaf)
    requires idx.None? || 0 <= idx.value <= |NodeAtLoc(ws, from).value.leaves| - 1
    ensures var r := HandleDrop(ws, TabSource(from, i, leaf), Some(OntoTabs(from, idx)), newId);
      var t := NodeAtLoc(ws, from).value;
      && !r.threw
      && NodeAtLoc(r.ws, from) == Some(TabsAddTab(RemoveTab(t, i), leaf, idx).value)
      && ActiveLeaf(NodeAtLoc(r.ws, from).value) == Some(leaf)
      && multiset(NodeAtLoc(r.ws, from).value.leaves) == multiset(t.leaves)
  {
    var t := NodeAtLoc(ws, from).value;
    TakeTabRemoves(ws, from, i);
    var ws1 := TakeTab(ws, from, i).value;
    var g := OnTabs(t => TabsAddTab(t, leaf, idx));
    ModifyLocSets(ws1, from, g);
    RemoveThenAddKeepsLeaves(t, i, leaf, idx);
  }

  /**
   * A tab dropped on the bar of another tabs node (neither containing the
   * other) leaves its source and joins the target at the drop index; the
   * two nodes together keep exactly the leaves they had.
   */
  lemma TabOntoOtherBar(ws: Workspace, from: Loc, i: int, leaf: Leaf, at: Loc, idx: Option<int>, newId: Uuid)
    requires HoldsTab(ws, from, i, leaf) && Apart(from, at)
    requires NodeAtLoc(ws, at).Some? && NodeAtLoc(ws, at).value.Tabs?
    requires TabsAddTab(NodeAtLoc(ws, at).value, leaf, idx).Ok?
    ensures var r := HandleDrop(ws, TabSource(from, i, leaf), Some(OntoTabs(at, idx)), newId);
      var src := NodeAtLoc(ws, from).value; var dst := NodeAtLoc(ws, at).value;
      && !r.threw
      && NodeAtLoc(r.ws, from) == Some(RemoveTab(src, i))
      && NodeAtLoc(r.ws, at) == Some(TabsAddTab(dst, leaf, idx).value)
      && multiset(RemoveTab(src, i).leaves) + multiset(TabsAddTab(dst, leaf, idx).value.leaves) ==
         multiset(src.leaves) + multiset(dst.leaves)
  {
    var src := NodeAtLoc(ws, from).value;
    var dst := NodeAtLoc(ws, at).value;
    TakeTabRemoves(ws, from, i);
    var take := OnTabs(t => Ok(RemoveTab(t, i)));
    var ws1 := TakeTab(ws, from, i).value;
    ModifyLocElsewhere(ws, from, at, take);
    var g := OnTabs(t => TabsAddTab(t, leaf, idx));
    ModifyLocSets(ws1, at, g);
    ModifyLocElsewhere(ws1, at, from, g);
    assert src.leaves == src.leaves[..i] + [leaf] + src.leaves[i + 1..];
  }

  /**
   * A tab dropped on a split's insert point (away from its own tabs node)
   * becomes a new single-leaf tabs node showing it, added to that split with
   * `splitAddChild` at the point's index.
   */
  lemma TabOntoSplit(ws: Workspace, from: Loc, i: int, leaf: Leaf, at: Loc, idx: int, newId: Uuid)
    requires HoldsTab(ws, from, i, leaf) && Apart(from, at)
    requires NodeAtLoc(ws, at).Some? && NodeAtLoc(ws, at).value.Split?
    ensures var r := HandleDrop(ws, TabSource(from, i, leaf), Some(OntoSplit(at, idx)), newId);
      var added := SplitAddChild(NodeAtLoc(ws, at).value, NewTabs(newId, leaf), Some(idx));
      && NodeAtLoc(r.ws, from) == Some(RemoveTab(NodeAtLoc(ws, from).value, i))
      && (r.threw <==> !added.Ok?)
      && (added.Ok? ==> NodeAtLoc(r.ws, at) == Some(added.value))
      && ActiveLeaf(NewTabs(newId, leaf)) == Some(leaf)
  {
    TakeTabRemoves(ws, from, i);
    var take := OnTabs(t => Ok(RemoveTab(t, i)));
    var ws1 := TakeTab(ws, from, i).value;
    ModifyLocElsewhere(ws, from, at, take);
    var g := OnSplit(s => SplitAddChild(s, NewTabs(newId, leaf), Some(idx)));
    ModifyLocSets(ws1, at, g);
    if ModifyLoc(ws1, at, g).Ok? {
      ModifyLocElsewhere(ws1, at, from, g);
    }
  }

  /**
   * A side drop on the tabs node at the root of a tree turns that tree into
   * an even two-way split along the side's axis, the new tab first for left
   * and top; the other trees stay as they were.
   */
  lemma SideDropAtRoot(ws: Workspace, id: Uuid, side: DropSide, newId: Uuid, leaf: Leaf, p: Part)
    requires IsTabs(id, PartNode(ws, p))
    requires forall q | q != p :: !IsTabs(id, PartNode(ws, q))
    ensures var r := SideDrop(ws, id, side, newId, leaf, UpdateNodesDeep);
      && !r.threw
      && PartNode(r.ws, p) == NewSplit(SideAxis(side), PartNode(ws, p), side, newId, leaf)
      && (forall q | q != p :: PartNode(r.ws, q) == PartNode(ws, q))
  {
  }

  /**
   * A side drop on a nested tabs node: the search finds a split with that
   * node among its children (at any depth), and that child becomes an even
   * split across the enclosing split. With no such split it throws.
   */
  lemma SideDropNested(ws: Workspace, id: Uuid, side: DropSide, newId: Uuid, leaf: Leaf)
    requires forall q :: !IsTabs(id, PartNode(ws, q))
    ensures var r := SideDrop(ws, id, side, newId, leaf, UpdateNodesDeep);
      r.threw <==> forall q :: !Reaches(PartNode(ws, q), EnclosingSplit(id, side, newId, leaf))
    ensures var r := SideDrop(ws, id, side, newId, leaf, UpdateNodesDeep);
      var f := EnclosingSplit(id, side, newId, leaf);
      !r.threw ==>
        && (forall q :: Reaches(PartNode(ws, q), f) ==> PartNode(r.ws, q) == UpdateNodesDeep(PartNode(ws, q), f).value)
        && (forall q :: !Reaches(PartNode(ws, q), f) ==> PartNode(r.ws, q) == PartNode(ws, q))
        && (forall s :: SidebarOf(r.ws.sidebars, s).enabled == SidebarOf(ws.sidebars, s).enabled)
        && (forall s :: SidebarOf(r.ws.sidebars, s).size == SidebarOf(ws.sidebars, s).size)
  {
    var f := EnclosingSplit(id, side, newId, leaf);
    assert RootTabsPart(ws, id).None?;
    var u := UpdateWorkspace(ws, n => UpdateNodesDeep(n, f));
    assert u.None? <==> forall q :: !Reaches(PartNode(ws, q), f) by {
      forall q
        ensures UpdateNodesDeep(PartNode(ws, q), f).Some? <==> Reaches(PartNode(ws, q), f)
      {
      }
    }
  }

  /**
   * Every split `EnclosingSplit` answers for keeps its axis and shares; the
   * first child showing the tabs node now holds a split across that axis
   * with the tabs node and the new tab.
   */
  lemma EnclosingSplitShape(id: Uuid, side: DropSide, newId: Uuid, leaf: Leaf, n: PanelNode)
    requires EnclosingSplit(id, side, newId, leaf)(n).Some?
    ensures var m := EnclosingSplit(id, side, newId, leaf)(n).value;
      var i := FindTabs(n.children, id).value;
      && n.Split? && m.Split? && m.axis == n.axis && Shares(m.children) == Shares(n.children)
      && m.children[i].node.Split? && m.children[i].node.axis == AxisCross(n.axis)
      && n.children[i].node in Nodes(m.children[i].node.children)
      && NewTabs(newId, leaf) in Nodes(m.children[i].node.children)
  {
  }

  // ---------------------------------------------------------------------
  // One level of search is not enough.

  /** A root split holding a split holding a split whose only child is the tabs node "t". */
  function DeepWorkspace(): Workspace
  {
    var t := Tabs("t", Some(0), [Leaf("a")]);
    var inner := Split(Horizontal, [SplitChild(1.0, t)]);
    var middle := Split(Vertical, [SplitChild(1.0, inner)]);
    var root := Split(Horizontal, [SplitChild(1.0, middle)]);
    var bar := Tabs("bar", None, []);
    Workspace(root, Sidebars(Sidebar(true, 0.25, bar), Sidebar(true, 0.25, bar), Sidebar(true, 0.25, bar)))
  }

  /**
   * With the one-level `updateNodes` the handler cannot find the split
   * enclosing a tabs node three levels down and throws.
   */
  lemma DeepSideDropThrows(side: DropSide, newId: Uuid, leaf: Leaf)
    ensures SideDrop(DeepWorkspace(), "t", side, newId, leaf, UpdateNodes).threw
  {
    DeepNotAtRoot();
    DeepOneLevelMisses(side, newId, leaf);
  }

  /** The deep search finds the split enclosing the tabs node, so the same drop goes through. */
  lemma DeepSideDropSplits(side: DropSide, newId: Uuid, leaf: Leaf)
    ensures !SideDrop(DeepWorkspace(), "t", side, newId, leaf, UpdateNodesDeep).threw
  {
    var f := EnclosingSplit("t", side, newId, leaf);
    DeepNotAtRoot();
    DeepSearchFinds(side, newId, leaf);
    assert UpdateNodesDeep(PartNode(DeepWorkspace(), RootPart), f).Some?;
  }

  lemma DeepNotAtRoot()
    ensures RootTabsPart(DeepWorkspace(), "t").None?
  {
  }

  /** Neither the root split nor its child holds the tabs node directly, and the sidebars hold none. */
  lemma DeepOneLevelMisses(side: DropSide, newId: Uuid, leaf: Leaf)
    ensures UpdateWorkspace(DeepWorkspace(), n => UpdateNodes(n, EnclosingSplit("t", side, newId, leaf))).None?
  {
    var ws := DeepWorkspace();
    var f := EnclosingSplit("t", side, newId, leaf);
    assert f(ws.root).None?;
    assert f(ws.root.children[0].node).None?;
    assert UpdateNodes(ws.root, f).None?;
    assert f(ws.sidebars.left.node).None?;
  }

  /** The split two levels down holds it, and the deep search reaches that split. */
  lemma DeepSearchFinds(side: DropSide, newId: Uuid, leaf: Leaf)
    ensures Reaches(DeepWorkspace().root, EnclosingSplit("t", side, newId, leaf))
  {
    var ws := DeepWorkspace();
    var f := EnclosingSplit("t", side, newId, leaf);
    var inner := ws.root.children[0].node.children[0].node;
    assert f(inner).Some?;
    assert Reaches(ws.root.children[0].node, f);
  }

  // ---------------------------------------------------------------------
  // Which drops the views offer.

  /**
   * The tabs overlay offers left and right when the enclosing split is
   * vertical or there is none, top and bottom when it is horizontal or there
   * is none.
   */
  predicate SideOffered(parentAxis: Option<Axis>, s: DropSide)
  {
    if s == Left || s == Right then GetOr(parentAxis, Vertical) == Vertical
    else GetOr(parentAxis, Horizontal) == Horizontal
  }

  /**
   * The offered sides agree with the handler: a nested tabs node's new split
   * runs across its enclosing split, which is the axis of every side offered
   * for it; at a root every side is offered.
   */
  lemma OfferedSidesAgree(parentAxis: Option<Axis>, s: DropSide)
    ensures parentAxis.None? ==> SideOffered(parentAxis, s)
    ensures parentAxis.Some? ==> (SideOffered(parentAxis, s) <==> AxisCross(parentAxis.value) == SideAxis(s))
  {
  }

  /** The split overlay's append points: index 0 at left and top, the end at right and bottom. */
  function AppendIndex(s: DropSide, n: nat): (i: nat)
    ensures i == 0 <==> AtStart(s) || n == 0
    ensures i == 0 || i == n
  {
    if AtStart(s) then 0 else n
  }

  /** Horizontal splits offer their left and right append points, vertical ones top and bottom. */
  predicate AppendOffered(axis: Axis, s: DropSide) { SideAxis(s) == axis }

  /**
   * An append point adds the tab at the start or the end of the split, and
   * the points offered for a split lie on its axis.
   */
  lemma AppendPointPlaces(split: SplitNode, s: DropSide, newId: Uuid, leaf: Leaf)
    requires SplitAddChild(split, NewTabs(newId, leaf), Some(AppendIndex(s, |split.children|))).Ok?
    ensures var r := SplitAddChild(split, NewTabs(newId, leaf), Some(AppendIndex(s, |split.children|))).value;
      if AtStart(s) then Nodes(r.children) == [NewTabs(newId, leaf)] + Nodes(split.children)
      else Nodes(r.children) == Nodes(split.children) + [NewTabs(newId, leaf)]
    ensures AppendOffered(split.axis, s) <==> (s == Left || s == Right) == (split.axis == Horizontal)
  {
    var n := |split.children|;
    SplitAddChildPlaces(split, NewTabs(newId, leaf), Some(AppendIndex(s, n)));
    assert split.children[..0] == [] && split.children[0..] == split.children;
    assert split.children[..n] == split.children && split.children[n..] == [];
  }

  /**
   * Effect's `Array.range(start, end)`: the integers from start to end
   * inclusive, and `[start]` alone when start > end.
   */
  function Range(start: int, end: int): (r: seq<int>)
    ensures |r| > 0 && r[0] == start
    ensures start <= end ==> |r| == end - start + 1 && forall j | 0 <= j < |r| :: r[j] == start + j
    decreases end - start
  {
    if start >= end then [start] else [start] + Range(start + 1, end)
  }

  /** The insert points as written: `Array.range(0, n - 2)`, each targeting the index after its child. */
  function InsertPoints(n: nat): seq<int>
  {
    Range(0, n - 2)
  }

  /** The insert points evidently intended: one between each pair of neighbouring children. */
  function InsertPointsBetween(n: nat): (r: seq<int>)
    ensures |r| == if n == 0 then 0 else n - 1
    ensures forall j | 0 <= j < |r| :: r[j] == j
  {
    if n <= 1 then [] else Range(0, n - 2)
  }

  /** An insert point's offset: the shares through child i, asserted below 1. */
  function InsertPointOffset(split: SplitNode, i: int): (r: Outcome<real, ()>)
  {
    if !(0 <= i < |split.children|) then Defect
    else
      var through := Sum(Shares(split.children[..i + 1]));
      if through < 1.0 then Ok(through) else Defect
  }

  /**
   * Between two children every insert point targets an index strictly
   * inside the split, and in a split whose shares fill it, its offset is
   * below 1 exactly when some later child has a share.
   */
  lemma {:induction false} InsertPointsInside(split: SplitNode, j: nat)
    requires j < |InsertPointsBetween(|split.children|)|
    requires Sum(Shares(split.children)) == 1.0
    ensures var i := InsertPointsBetween(|split.children|)[j];
      && 1 <= i + 1 < |split.children|
      && (InsertPointOffset(split, i).Ok? <==> Sum(Shares(split.children[i + 1..])) > 0.0)
  {
    var cs := split.children;
    var i := j;
    assert cs[..i + 1] + cs[i + 1..] == cs;
    SharesAppend(cs[..i + 1], cs[i + 1..]);
    SumAppend(Shares(cs[..i + 1]), Shares(cs[i + 1..]));
  }

  /**
   * As written, a split with a single child still gets one insert point,
   * for that child; its offset is the child's whole share, so when that
   * share is 1 (as `splitAddChild` gives the first child) the assertion
   * throws while a tab is dragged over the split.
   */
  lemma SingleChildInsertPointThrows(axis: Axis, n: PanelNode)
    ensures InsertPoints(1) == [0]
    ensures InsertPointsBetween(1) == []
    ensures InsertPointOffset(Split(axis, [SplitChild(1.0, n)]), InsertPoints(1)[0]) == Defect
  {
    var split: SplitNode := Split(axis, [SplitChild(1.0, n)]);
    assert split.children[..1] == split.children;
    assert Shares(split.children) == [1.0];
    assert Sum([1.0]) == 1.0 by {
      assert [1.0][1..] == [];
    }
  }

  // ---------------------------------------------------------------------
  // Tab handles.

  /** A handle is selected when the active index is its own. */
  predicate Selected(t: TabsNode, idx: int) { t.active == Some(idx) }

  /** A click on a handle selects it; a click on the selected handle does nothing. */
  function ClickHandle(t: TabsNode, idx: int): (r: TabsNode)
  {
    if Selected(t, idx) then t else TabsSelect(t, Some(idx))
  }

  /** A click on the empty part of the tab strip clears the selection. */
  function ClickStrip(t: TabsNode): (r: TabsNode)
  {
    TabsSelect(t, None)
  }

  /** After a click on handle i, that handle is the one selected and its leaf is shown; clicking it again changes nothing. */
  lemma ClickSelects(t: TabsNode, idx: int)
    requires 0 <= idx < |t.leaves|
    ensures Selected(ClickHandle(t, idx), idx)
    ensures forall j | j != idx :: !Selected(ClickHandle(t, idx), j)
    ensures ActiveLeaf(ClickHandle(t, idx)) == Some(t.leaves[idx])
    ensures ClickHandle(ClickHandle(t, idx), idx) == ClickHandle(t, idx)
    ensures ClickHandle(t, idx).leaves == t.leaves
  {
  }

  /** After a click on the strip no handle is selected and no leaf is shown. */
  lemma ClickStripClears(t: TabsNode)
    ensures forall j :: !Selected(ClickStrip(t), j)
    ensures ActiveLeaf(ClickStrip(t)) == None
    ensures ClickStrip(t).leaves == t.leaves
  {
  }
}
