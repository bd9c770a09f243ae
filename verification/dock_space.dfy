/**
 * The DockSpace panel store (ui/src/renderer/ui/panels2/data.ts and the
 * logic of ui/src/renderer/ui/panels2/context.tsx).
 *
 * Nodes live in a record keyed by uuid. A node is either a dock space,
 * which arranges its children by a layout (a split with a share per child,
 * tabs over leaves, or named slots filled by the application), or a leaf.
 * A node is stored under the uuid of its own id (`addNode` writes
 * `[node.id.uuid]: node`), so here the key is the node's id and the node
 * itself carries only its tag.
 */
module DockSpace {
  import opened Wrappers
  import opened Percents
  import opened PanelSizing

  type Uuid = string

  /** A panel id: a uuid tagged with the kind of node it names. */
  datatype PanelId = DockSpaceId(uuid: Uuid) | LeafId(uuid: Uuid)

  datatype Direction = Horizontal | Vertical

  datatype SplitEntry = SplitEntry(percent: Percent, child: PanelId)

  /** A named slot; `enabled` and `child` are accessors in the view, read here as values. */
  datatype Slot = Slot(name: string, enabled: bool, child: Option<PanelId>)

  /**
   * How a dock space arranges its children. A slotted layout may come with
   * an `addChild` of its own; `acceptsChildren` says whether it does (what
   * that callback does is the application's, and is a parameter below).
   */
  datatype Layout =
    | SplitLayout(direction: Direction, entries: seq<SplitEntry>)
    | TabsLayout(active: Option<int>, tabs: seq<Uuid>)
    | SlottedLayout(slots: map<string, Slot>, acceptsChildren: bool)

  datatype Node =
    | DockSpaceNode(parent: Option<Uuid>, layout: Layout)
    | LeafNode(parent: Option<Uuid>, title: string)

  type Store = map<Uuid, Node>

  datatype DockError =
    | DoesNotExist(id: PanelId)
    | AlreadyHasParent(id: PanelId, existing: Uuid, addingTo: Uuid)
    | DoesNotAcceptChild(id: PanelId, parent: Uuid, reason: string)
    | NotTabsLayout(dockSpace: Uuid)
    | OutOfBounds(index: int)

  const SlottedRefusal := "This Slotted layout DockSpace does not allow adding children"
  const TabsRefusal := "Cannot add DockSpace child to Tabs layout DockSpace"

  /** The id naming a node stored under `uuid`: its tag comes from the node's kind. */
  function IdOf(uuid: Uuid, n: Node): (id: PanelId)
    ensures id.uuid == uuid
    ensures id.DockSpaceId? <==> n.DockSpaceNode?
  {
    if n.DockSpaceNode? then DockSpaceId(uuid) else LeafId(uuid)
  }

  // ---------------------------------------------------------------------
  // Constructors.

  /** `PanelNode.DockSpace`: the given id or a fresh one, the parent if given, and the layout. */
  function NewDockSpace(id: Option<Uuid>, newUuid: Uuid, parent: Option<Uuid>, layout: Layout): (r: (PanelId, Node))
    ensures r.0.DockSpaceId? && r.1.DockSpaceNode?
    ensures id.Some? ==> r.0.uuid == id.value
    ensures id.None? ==> r.0.uuid == newUuid
    ensures r.1.parent == parent && r.1.layout == layout
  {
    (DockSpaceId(GetOr(id, newUuid)), DockSpaceNode(parent, layout))
  }

  /** `PanelNode.Leaf`: always a fresh id. */
  function NewLeaf(newUuid: Uuid, parent: Option<Uuid>, title: string): (r: (PanelId, Node))
    ensures r.0 == LeafId(newUuid) && r.1.LeafNode?
    ensures r.1.parent == parent && r.1.title == title
  {
    (LeafId(newUuid), LeafNode(parent, title))
  }

  /** `DockSpaceLayout.Split`: no children yet. */
  function NewSplit(direction: Direction): (l: Layout)
    ensures l.SplitLayout? && l.direction == direction && l.entries == []
  {
    SplitLayout(direction, [])
  }

  /** `DockSpaceLayout.Tabs`: no children and nothing active. */
  function NewTabs(): (l: Layout)
    ensures l.TabsLayout? && l.tabs == [] && l.active.None?
  {
    TabsLayout(None, [])
  }

  /** The slot list folded into a record by name, left to right. */
  function SlotRecord(slots: seq<Slot>): (r: map<string, Slot>)
    ensures r.Keys == set i | 0 <= i < |slots| :: slots[i].name
    decreases |slots|
  {
    if |slots| == 0 then map[]
    else
      var last := slots[|slots| - 1];
      var r0 := SlotRecord(slots[..|slots| - 1]);
      assert forall i | 0 <= i < |slots| - 1 :: slots[..|slots| - 1][i] == slots[i];
      r0[last.name := last]
  }

  /** `DockSpaceLayout.Slotted`: the slots keyed by name. */
  function NewSlotted(slots: seq<Slot>, acceptsChildren: bool): (l: Layout)
    ensures l.SlottedLayout? && l.acceptsChildren == acceptsChildren
    ensures l.slots.Keys == set i | 0 <= i < |slots| :: slots[i].name
  {
    SlottedLayout(SlotRecord(slots), acceptsChildren)
  }

  /** For a repeated name the later slot wins: each name holds its last slot. */
  lemma {:induction false} SlotRecordLastWins(slots: seq<Slot>, i: nat)
    requires i < |slots|
    requires forall j | i < j < |slots| :: slots[j].name != slots[i].name
    ensures SlotRecord(slots)[slots[i].name] == slots[i]
    decreases |slots|
  {
    if i < |slots| - 1 {
      var init := slots[..|slots| - 1];
      assert init[i] == slots[i];
      SlotRecordLastWins(init, i);
    }
  }

  /** A node shaped like the root: a parentless dock space with a slotted layout. */
  predicate CanBeRoot(n: Node)
  {
    n.DockSpaceNode? && n.parent.None? && n.layout.SlottedLayout?
  }

  /** Only a fresh slotted dock space can be the root; fresh split or tabs dock spaces and leaves cannot. */
  lemma CanBeRootOfNew(id: Option<Uuid>, newUuid: Uuid, parent: Option<Uuid>, layout: Layout, title: string)
    ensures CanBeRoot(NewDockSpace(id, newUuid, parent, layout).1) <==> parent.None? && layout.SlottedLayout?
    ensures !CanBeRoot(NewLeaf(newUuid, parent, title).1)
  {
  }

  // ---------------------------------------------------------------------
  // Reading the store.

  /** `addNode`: the node stored under its id. */
  function AddNode(m: Store, id: PanelId, n: Node): (r: Store)
    ensures r.Keys == m.Keys + {id.uuid}
  {
    m[id.uuid := n]
  }

  /**
   * `getNode`: a missing uuid fails with `DoesNotExistError`; a node of the
   * other kind breaks the handler's assertion.
   */
  function GetNode(m: Store, id: PanelId): (r: Outcome<Node, DockError>)
    ensures r.Fail? <==> id.uuid !in m
    ensures r.Fail? ==> r.error == DoesNotExist(id)
    ensures r.Defect? <==> id.uuid in m && IdOf(id.uuid, m[id.uuid]) != id
    ensures r.Ok? ==> id.uuid in m && r.value == m[id.uuid] && IdOf(id.uuid, r.value) == id
  {
    if id.uuid !in m then Fail(DoesNotExist(id))
    else if m[id.uuid].DockSpaceNode? != id.DockSpaceId? then Defect
    else Ok(m[id.uuid])
  }

  /** A node added under its own id is what `getNode` gives back for that id. */
  lemma AddThenGet(m: Store, id: PanelId, n: Node)
    requires IdOf(id.uuid, n) == id
    ensures GetNode(AddNode(m, id, n), id) == Ok(n)
    ensures forall other: PanelId | other.uuid != id.uuid :: GetNode(AddNode(m, id, n), other) == GetNode(m, other)
  {
  }

  // ---------------------------------------------------------------------
  // addChild

  function EntryShares(es: seq<SplitEntry>): (r: seq<real>)
    ensures |r| == |es| && AllPercents(r)
    ensures forall i | 0 <= i < |es| :: r[i] == es[i].percent
  {
    seq(|es|, i requires 0 <= i < |es| => es[i].percent as real)
  }

  function EntryChildren(es: seq<SplitEntry>): (r: seq<PanelId>)
    ensures |r| == |es|
    ensures forall i | 0 <= i < |es| :: r[i] == es[i].child
  {
    seq(|es|, i requires 0 <= i < |es| => es[i].child)
  }

  /** The split's entries after the new child has made room: each old share rescaled, then the new child's. */
  function SplitAdded(es: seq<SplitEntry>, child: PanelId): (r: seq<SplitEntry>)
    ensures |r| == |es| + 1
    ensures EntryChildren(r) == EntryChildren(es) + [child]
    ensures EntryShares(r) == MapRule(EntryShares(es), AddChildPlan(EntryShares(es), 1.0).0) + [AddChildPlan(EntryShares(es), 1.0).1 as real]
  {
    var ps := EntryShares(es);
    var plan := AddChildPlan(ps, 1.0);
    var mapped := MapRule(ps, plan.0);
    AddChildPlanSumsToOne(ps, 1.0);
    var r := seq(|es|, i requires 0 <= i < |es| => SplitEntry(mapped[i], es[i].child)) + [SplitEntry(plan.1, child)];
    assert EntryChildren(r) == EntryChildren(es) + [child];
    assert EntryShares(r) == mapped + [plan.1 as real];
    r
  }

  /** The dock space's layout with the child added (for tabs and splits). */
  function LayoutAdded(l: Layout, child: PanelId): (r: Layout)
    requires l.TabsLayout? || l.SplitLayout?
  {
    match l
    case TabsLayout(active, tabs) => TabsLayout(active, tabs + [child.uuid])
    case SplitLayout(direction, es) => SplitLayout(direction, SplitAdded(es, child))
  }

  /** The two writes of a tabs or split `addChild`: the parent's layout, then the child's parent. */
  function Attach(m: Store, ds: Uuid, child: PanelId): (r: Store)
    requires ds in m && m[ds].DockSpaceNode? && (m[ds].layout.TabsLayout? || m[ds].layout.SplitLayout?)
    requires child.uuid in m
    ensures r.Keys == m.Keys
  {
    var m1 := m[ds := m[ds].(layout := LayoutAdded(m[ds].layout, child))];
    m1[child.uuid := m1[child.uuid].(parent := Some(ds))]
  }

  /**
   * `addChild`: both nodes are fetched (missing ones fail, the wrong kind
   * throws); a child that already has a parent fails. A slotted dock space
   * hands the child to its own `addChild` (`slotAdd`) or refuses it; tabs
   * refuse a dock space and append a leaf; a split appends the child with
   * share 1/(n+1) and rescales the others to fill the rest.
   */
  function AddChild(m: Store, ds: Uuid, child: PanelId, slotAdd: (Store, PanelId) -> Outcome<Store, DockError>): (r: Outcome<Store, DockError>)
    ensures ds !in m ==> r == Fail(DoesNotExist(DockSpaceId(ds)))
    ensures r.Ok? ==> ds in m && child.uuid in m && m[child.uuid].parent.None?
  {
    match GetNode(m, DockSpaceId(ds))
    case Fail(e) => Fail(e)
    case Defect => Defect
    case Ok(parent) =>
      match GetNode(m, child)
      case Fail(e) => Fail(e)
      case Defect => Defect
      case Ok(c) =>
        if c.parent.Some? then Fail(AlreadyHasParent(child, c.parent.value, ds))
        else match parent.layout
          case SlottedLayout(_, accepts) =>
            if accepts then slotAdd(m, child) else Fail(DoesNotAcceptChild(child, ds, SlottedRefusal))
          case TabsLayout(_, _) =>
            if c.DockSpaceNode? then Fail(DoesNotAcceptChild(child, ds, TabsRefusal)) else Ok(Attach(m, ds, child))
          case SplitLayout(_, _) => Ok(Attach(m, ds, child))
  }

  /** What `addChild` does to tabs: the leaf is appended, becomes the leaf's parent, and nothing else changes. */
  lemma AddChildToTabs(m: Store, ds: Uuid, child: PanelId, slotAdd: (Store, PanelId) -> Outcome<Store, DockError>)
    requires ds in m && m[ds].DockSpaceNode? && m[ds].layout.TabsLayout?
    requires child.uuid in m && IdOf(child.uuid, m[child.uuid]) == child
    ensures var r := AddChild(m, ds, child, slotAdd);
      && (m[child.uuid].parent.Some? ==> r == Fail(AlreadyHasParent(child, m[child.uuid].parent.value, ds)))
      && (m[child.uuid].parent.None? && child.DockSpaceId? ==> r == Fail(DoesNotAcceptChild(child, ds, TabsRefusal)))
      && (m[child.uuid].parent.None? && child.LeafId? ==>
        && r.Ok?
        && r.value[ds].DockSpaceNode? && r.value[ds].layout.TabsLayout?
        && r.value[ds].layout.tabs == m[ds].layout.tabs + [child.uuid]
        && r.value[ds].layout.active == m[ds].layout.active
        && r.value[child.uuid].parent == Some(ds)
        && forall u | u in m && u != ds && u != child.uuid :: r.value[u] == m[u])
  {
  }

  /**
   * The split's new entries: the shares still sum to 1, a first child gets
   * the whole split, and the old children keep their ratios.
   */
  lemma SplitAddedShares(es: seq<SplitEntry>, child: PanelId)
    ensures Sum(EntryShares(SplitAdded(es, child))) == 1.0
    ensures |es| == 0 ==> SplitAdded(es, child)[0].percent == 1.0
    ensures Sum(EntryShares(es)) > 0.0 ==> forall i | 0 <= i < |es| ::
      SplitAdded(es, child)[i].percent * Sum(EntryShares(es)) == es[i].percent * (1.0 - SplitAdded(es, child)[|es|].percent)
  {
    SplitAddedSum(es, child);
    if |es| == 0 {
      AddChildPlanShape(EntryShares(es), 1.0);
      assert EntryShares(SplitAdded(es, child))[0] == SplitAdded(es, child)[0].percent;
    }
    if Sum(EntryShares(es)) > 0.0 {
      forall i | 0 <= i < |es|
        ensures SplitAdded(es, child)[i].percent * Sum(EntryShares(es)) == es[i].percent * (1.0 - SplitAdded(es, child)[|es|].percent)
      {
        SplitAddedRatio(es, child, i);
      }
    }
  }

  lemma {:induction false} SplitAddedSum(es: seq<SplitEntry>, child: PanelId)
    ensures Sum(EntryShares(SplitAdded(es, child))) == 1.0
  {
    var ps := EntryShares(es);
    var plan := AddChildPlan(ps, 1.0);
    AddChildPlanSumsToOne(ps, 1.0);
    SumAppend(MapRule(ps, plan.0), [plan.1 as real]);
    assert Sum([plan.1 as real]) == plan.1 as real;
  }

  lemma SplitAddedRatio(es: seq<SplitEntry>, child: PanelId, i: nat)
    requires Sum(EntryShares(es)) > 0.0 && i < |es|
    ensures SplitAdded(es, child)[i].percent * Sum(EntryShares(es)) == es[i].percent * (1.0 - SplitAdded(es, child)[|es|].percent)
  {
    var ps := EntryShares(es);
    var added := SplitAdded(es, child);
    assert EntryShares(added)[i] == added[i].percent;
    assert EntryShares(added)[|es|] == added[|es|].percent;
    AddChildPlanKeepsRatios(ps, 1.0, i);
  }

  /**
   * What `addChild` does to a split: the child is appended (with the
   * shares `SplitAddedShares` describes) and the split becomes the child's
   * parent; nothing else changes.
   */
  lemma AddChildToSplit(m: Store, ds: Uuid, child: PanelId, slotAdd: (Store, PanelId) -> Outcome<Store, DockError>)
    requires ds in m && m[ds].DockSpaceNode? && m[ds].layout.SplitLayout?
    requires child.uuid in m && IdOf(child.uuid, m[child.uuid]) == child && m[child.uuid].parent.None?
    ensures AddChild(m, ds, child, slotAdd).Ok?
    ensures var r := AddChild(m, ds, child, slotAdd).value;
      && r[ds].DockSpaceNode? && r[ds].layout.SplitLayout?
      && r[ds].layout.direction == m[ds].layout.direction
      && r[ds].layout.entries == SplitAdded(m[ds].layout.entries, child)
      && EntryChildren(r[ds].layout.entries) == EntryChildren(m[ds].layout.entries) + [child]
      && r[child.uuid].parent == Some(ds)
      && forall u | u in m && u != ds && u != child.uuid :: r[u] == m[u]
  {
    assert AddChild(m, ds, child, slotAdd) == Ok(Attach(m, ds, child));
    var r := Attach(m, ds, child);
    assert r[ds].layout == LayoutAdded(m[ds].layout, child);
  }

  /**
   * Every child a tabs or split layout lists is stored, is of the kind the
   * layout allows, and names that dock space as its parent.
   */
  predicate Listed(m: Store)
  {
    && (forall p, i | p in m && m[p].DockSpaceNode? && m[p].layout.TabsLayout? && 0 <= i < |m[p].layout.tabs| ::
         m[p].layout.tabs[i] in m && m[m[p].layout.tabs[i]].LeafNode? && m[m[p].layout.tabs[i]].parent == Some(p))
    && (forall p, i | p in m && m[p].DockSpaceNode? && m[p].layout.SplitLayout? && 0 <= i < |m[p].layout.entries| ::
         m[p].layout.entries[i].child.uuid in m &&
         IdOf(m[p].layout.entries[i].child.uuid, m[m[p].layout.entries[i].child.uuid]) == m[p].layout.entries[i].child &&
         m[m[p].layout.entries[i].child.uuid].parent == Some(p))
  }

  /** A tabs or split `addChild` that succeeds keeps every listed child pointing back at its parent. */
  lemma AddChildKeepsListed(m: Store, ds: Uuid, child: PanelId, slotAdd: (Store, PanelId) -> Outcome<Store, DockError>)
    requires Listed(m)
    requires ds in m && m[ds].DockSpaceNode? && !m[ds].layout.SlottedLayout?
    requires AddChild(m, ds, child, slotAdd).Ok?
    ensures Listed(AddChild(m, ds, child, slotAdd).value)
  {
    var r := AddChild(m, ds, child, slotAdd).value;
    assert r == Attach(m, ds, child);
    var m1 := m[ds := m[ds].(layout := LayoutAdded(m[ds].layout, child))];
    assert forall u | u in r && u != child.uuid :: r[u] == m1[u];
    assert forall u | u in m && u != ds :: m1[u] == m[u];
    assert r[child.uuid].parent == Some(ds);
    assert forall u | u in m && u != child.uuid :: r[u].parent == m[u].parent;
    assert forall u | u in m && u != ds :: r[u].DockSpaceNode? == m[u].DockSpaceNode? && (r[u].DockSpaceNode? ==> r[u].layout == m[u].layout);
    assert r[ds].DockSpaceNode? == m[ds].DockSpaceNode? && r[child.uuid].DockSpaceNode? == m[child.uuid].DockSpaceNode?;
    ListedTabs(m, ds, child, r);
    ListedSplit(m, ds, child, r);
  }

  lemma ListedTabs(m: Store, ds: Uuid, child: PanelId, r: Store)
    requires Listed(m)
    requires ds in m && m[ds].DockSpaceNode? && !m[ds].layout.SlottedLayout?
    requires child.uuid in m && IdOf(child.uuid, m[child.uuid]) == child && m[child.uuid].parent.None?
    requires m[ds].layout.TabsLayout? ==> child.LeafId?
    requires r == Attach(m, ds, child)
    ensures forall p, i | p in r && r[p].DockSpaceNode? && r[p].layout.TabsLayout? && 0 <= i < |r[p].layout.tabs| ::
      r[p].layout.tabs[i] in r && r[r[p].layout.tabs[i]].LeafNode? && r[r[p].layout.tabs[i]].parent == Some(p)
  {
    forall p, i | p in r && r[p].DockSpaceNode? && r[p].layout.TabsLayout? && 0 <= i < |r[p].layout.tabs|
      ensures r[p].layout.tabs[i] in r && r[r[p].layout.tabs[i]].LeafNode? && r[r[p].layout.tabs[i]].parent == Some(p)
    {
      var c := r[p].layout.tabs[i];
      if p == ds {
        assert r[ds].layout == LayoutAdded(m[ds].layout, child);
        if i < |m[ds].layout.tabs| {
          assert c == m[ds].layout.tabs[i];
          assert c != child.uuid;
        }
      } else {
        assert r[p].layout == m[p].layout;
        assert c == m[p].layout.tabs[i];
        assert c != child.uuid;
      }
    }
  }

  lemma ListedSplit(m: Store, ds: Uuid, child: PanelId, r: Store)
    requires Listed(m)
    requires ds in m && m[ds].DockSpaceNode? && !m[ds].layout.SlottedLayout?
    requires child.uuid in m && IdOf(child.uuid, m[child.uuid]) == child && m[child.uuid].parent.None?
    requires r == Attach(m, ds, child)
    ensures forall p, i | p in r && r[p].DockSpaceNode? && r[p].layout.SplitLayout? && 0 <= i < |r[p].layout.entries| ::
      r[p].layout.entries[i].child.uuid in r &&
      IdOf(r[p].layout.entries[i].child.uuid, r[r[p].layout.entries[i].child.uuid]) == r[p].layout.entries[i].child &&
      r[r[p].layout.entries[i].child.uuid].parent == Some(p)
  {
    forall p, i | p in r && r[p].DockSpaceNode? && r[p].layout.SplitLayout? && 0 <= i < |r[p].layout.entries|
      ensures r[p].layout.entries[i].child.uuid in r
      ensures IdOf(r[p].layout.entries[i].child.uuid, r[r[p].layout.entries[i].child.uuid]) == r[p].layout.entries[i].child
      ensures r[r[p].layout.entries[i].child.uuid].parent == Some(p)
    {
      var c := r[p].layout.entries[i].child;
      if p == ds {
        assert r[ds].layout == LayoutAdded(m[ds].layout, child);
        var es := m[ds].layout.entries;
        assert EntryChildren(r[ds].layout.entries) == EntryChildren(es) + [child];
        assert c == EntryChildren(r[ds].layout.entries)[i];
        if i < |es| {
          assert c == es[i].child;
          assert c.uuid != child.uuid;
        }
      } else {
        assert r[p].layout == m[p].layout;
        assert c == m[p].layout.entries[i].child;
        assert c.uuid != child.uuid;
      }
    }
  }

  // ---------------------------------------------------------------------
  // selectTab

  /**
   * `selectTab` as written: fails on anything but tabs, fails with
   * `OutOfBounds` when the index is negative or greater than the number of
   * tabs, does nothing when the index is already the active one, and
   * otherwise makes it active.
   */
  function SelectTab(m: Store, ds: Uuid, index: Option<int>): (r: Outcome<Store, DockError>)
    ensures r.Ok? ==> ds in m && m[ds].DockSpaceNode? && m[ds].layout.TabsLayout?
  {
    SelectTabBounded(m, ds, index, false)
  }

  /** `selectTab` with the index check evidently intended: an index equal to the number of tabs is out of bounds. */
  function SelectTabInRange(m: Store, ds: Uuid, index: Option<int>): (r: Outcome<Store, DockError>)
    ensures r.Ok? ==> ds in m && m[ds].DockSpaceNode? && m[ds].layout.TabsLayout?
  {
    SelectTabBounded(m, ds, index, true)
  }

  /** The two bounds checks differ only at an index equal to the number of tabs. */
  function SelectTabBounded(m: Store, ds: Uuid, index: Option<int>, strict: bool): (r: Outcome<Store, DockError>)
    ensures r.Ok? ==> ds in m && m[ds].DockSpaceNode? && m[ds].layout.TabsLayout?
  {
    match GetNode(m, DockSpaceId(ds))
    case Fail(e) => Fail(e)
    case Defect => Defect
    case Ok(n) =>
      if !n.layout.TabsLayout? then Fail(NotTabsLayout(ds))
      else if index.Some? && (index.value < 0 || index.value > |n.layout.tabs| || (strict && index.value == |n.layout.tabs|)) then
        Fail(OutOfBounds(index.value))
      else if n.layout.active == index then Ok(m)
      else Ok(m[ds := n.(layout := n.layout.(active := index))])
  }

  /**
   * The contract of `selectTab`: errors for a missing dock space, another
   * layout or an out-of-range index; otherwise the index becomes active and
   * nothing else in the store changes.
   */
  lemma SelectTabSelects(m: Store, ds: Uuid, index: Option<int>)
    ensures ds !in m ==> SelectTab(m, ds, index) == Fail(DoesNotExist(DockSpaceId(ds)))
    ensures ds in m && m[ds].DockSpaceNode? && !m[ds].layout.TabsLayout? ==> SelectTab(m, ds, index) == Fail(NotTabsLayout(ds))
    ensures ds in m && m[ds].DockSpaceNode? && m[ds].layout.TabsLayout? ==>
      && (index.Some? && (index.value < 0 || index.value > |m[ds].layout.tabs|) ==> SelectTab(m, ds, index) == Fail(OutOfBounds(index.value)))
      && (index.None? || 0 <= index.value <= |m[ds].layout.tabs| ==>
        && SelectTab(m, ds, index).Ok?
        && SelectTab(m, ds, index).value.Keys == m.Keys
        && SelectTab(m, ds, index).value[ds] == m[ds].(layout := m[ds].layout.(active := index))
        && forall u | u in m && u != ds :: SelectTab(m, ds, index).value[u] == m[u])
  {
  }

  /** Selecting the same tab twice is selecting it once. */
  lemma SelectTabIdempotent(m: Store, ds: Uuid, index: Option<int>)
    requires SelectTab(m, ds, index).Ok?
    ensures SelectTab(SelectTab(m, ds, index).value, ds, index) == SelectTab(m, ds, index)
  {
  }

  /** After a successful select the active index names a tab, or is none. */
  predicate ActiveInRange(n: Node)
  {
    n.DockSpaceNode? && n.layout.TabsLayout? &&
    (n.layout.active.Some? ==> 0 <= n.layout.active.value < |n.layout.tabs|)
  }

  /** With the intended bound, a successful select always leaves the active index naming a tab (or none). */
  lemma SelectTabInRangeActive(m: Store, ds: Uuid, index: Option<int>)
    requires SelectTabInRange(m, ds, index).Ok?
    ensures ActiveInRange(SelectTabInRange(m, ds, index).value[ds])
    ensures SelectTabInRange(m, ds, index).value[ds].layout.active == index
  {
  }

  /** As written, selecting index `length` on a tabs dock space succeeds and leaves the active index past the last tab. */
  lemma SelectTabPastEnd()
    ensures var m: Store := map["d" := DockSpaceNode(None, TabsLayout(None, ["a"]))];
      && SelectTab(m, "d", Some(1)).Ok?
      && !ActiveInRange(SelectTab(m, "d", Some(1)).value["d"])
      && SelectTabInRange(m, "d", Some(1)) == Fail(OutOfBounds(1))
  {
  }
}
