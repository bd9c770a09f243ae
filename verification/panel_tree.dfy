/**
 * The current panel tree of the renderer (ui/src/renderer/panels/Panel.ts):
 * a root id and a map from id to node, where a parent node carries a split
 * or tabs layout and a leaf carries a title. The node's kind stands for the
 * tag of its id, and ids are compared by their uuid.
 *
 * Every operation returns the tree after its writes together with what the
 * caller observes: the writes already done stay when an operation fails
 * part-way.
 */
module PanelTree {
  import opened Wrappers
  import opened Percents
  import opened PanelSizing
  import opened PanelStore

  datatype Direction = Vertical | Horizontal

  /** `Layout.crossDirection`: the other split axis. */
  function CrossDirection(d: Direction): (r: Direction)
    ensures r != d
  {
    if d == Vertical then Horizontal else Vertical
  }

  /** A parent's layout, without its children (those are the store's list). */
  datatype Layout = Split(direction: Direction) | Tabs(active: Option<Uuid>)

  /** A Solid component supplied by the caller; only its identity matters here. */
  datatype Component = Component(name: string)

  datatype EdgeDrop = EdgeDrop(left: bool, right: bool, top: bool, bottom: bool)

  datatype Kind =
    | ParentKind(layout: Layout, titlebar: Option<Component>)
    | LeafKind(title: string, content: Option<Component>)

  datatype Attrs = Attrs(kind: Kind, edgeDrop: EdgeDrop)

  type PanelNode = Node<Attrs>

  datatype Tree = Tree(root: Uuid, nodes: Nodes<Attrs>)

  datatype Error =
    | NodeNotInTree(id: Uuid, parentList: seq<Uuid>)
    | NodeAlreadyHasParent(id: Uuid)
    | NodeHasNoParent(id: Uuid)
    | CannotDeleteRoot
    | CannotAddParentToTabsLayout(addingTo: Uuid, child: Uuid)

  /** The tree after an operation's writes, and what its caller observes. */
  datatype Step<+T> = Step(tree: Tree, outcome: Outcome<T, Error>)

  const AllEdges := EdgeDrop(true, true, true, true)

  predicate IsParent(n: PanelNode) { n.attrs.kind.ParentKind? }

  /**
   * What every operation keeps: the links agree, no list repeats a child,
   * siblings share their parent exactly, the root is present and has no
   * parent, and a leaf lists no children.
   */
  predicate Valid(t: Tree)
  {
    && Wf(t.nodes)
    && t.root in t.nodes
    && t.nodes[t.root].parent.None?
    && (forall k | k in t.nodes && !IsParent(t.nodes[k]) :: t.nodes[k].children == [])
  }

  // ---------------------------------------------------------------------
  // Lookups.

  /** `Node.get`. */
  function Get(t: Tree, id: Uuid): (r: Option<PanelNode>)
    ensures r.None? <==> id !in t.nodes
    ensures r.Some? ==> r.value == t.nodes[id]
  {
    if id in t.nodes then Some(t.nodes[id]) else None
  }

  /** The error of a failed lookup, with the parent being fetched for, if any, as its chain. */
  function NotInTree(id: Uuid, gettingParent: Option<Uuid>): (e: Error)
  {
    NodeNotInTree(id, OptionToSeq(gettingParent))
  }

  /** `Node.getOrError`. */
  function GetOrError(t: Tree, id: Uuid, gettingParent: Option<Uuid>): (r: Outcome<PanelNode, Error>)
    ensures r.Fail? || r.Ok?
    ensures r.Fail? <==> id !in t.nodes
    ensures r.Fail? ==> r.error == NodeNotInTree(id, OptionToSeq(gettingParent))
    ensures r.Ok? ==> r.value == t.nodes[id]
  {
    match Get(t, id)
    case None => Fail(NotInTree(id, gettingParent))
    case Some(n) => Ok(n)
  }

  /** `Node.Parent.getOrError`: a leaf under a parent id makes `getOrThrow` throw. */
  function ParentGetOrError(t: Tree, id: Uuid, gettingParent: Option<Uuid>): (r: Outcome<PanelNode, Error>)
    ensures r.Fail? <==> id !in t.nodes
    ensures r.Fail? ==> r.error == NodeNotInTree(id, OptionToSeq(gettingParent))
    ensures r.Defect? <==> id in t.nodes && !IsParent(t.nodes[id])
    ensures r.Ok? <==> id in t.nodes && IsParent(t.nodes[id])
    ensures r.Ok? ==> r.value == t.nodes[id]
  {
    match GetOrError(t, id, gettingParent)
    case Fail(e) => Fail(e)
    case Ok(n) => if IsParent(n) then Ok(n) else Defect
  }

  /** `Node.Leaf.getOrError`: a parent under a leaf id makes `getOrThrow` throw. */
  function LeafGetOrError(t: Tree, id: Uuid, gettingParent: Option<Uuid>): (r: Outcome<PanelNode, Error>)
    ensures r.Fail? <==> id !in t.nodes
    ensures r.Fail? ==> r.error == NodeNotInTree(id, OptionToSeq(gettingParent))
    ensures r.Defect? <==> id in t.nodes && IsParent(t.nodes[id])
    ensures r.Ok? <==> id in t.nodes && !IsParent(t.nodes[id])
    ensures r.Ok? ==> r.value == t.nodes[id]
  {
    match GetOrError(t, id, gettingParent)
    case Fail(e) => Fail(e)
    case Ok(n) => if IsParent(n) then Defect else Ok(n)
  }

  // ---------------------------------------------------------------------
  // Updates: `{ ...node, ...props }` for the fields the props give.

  datatype CommonProps = CommonProps(parent: Option<Option<Uuid>>, percent: Option<Percent>, edgeDrop: Option<EdgeDrop>)

  /** A new layout for a parent; it replaces the layout's children too. */
  datatype ParentProps = ParentProps(common: CommonProps, layout: Option<(Layout, seq<Uuid>)>, titlebar: Option<Option<Component>>)

  datatype LeafProps = LeafProps(common: CommonProps, title: Option<string>, content: Option<Option<Component>>)

  const NoCommonProps := CommonProps(None, None, None)

  function MergeCommon(n: PanelNode, p: CommonProps): (r: PanelNode)
    ensures r.children == n.children && r.attrs.kind == n.attrs.kind
  {
    n.(parent := GetOr(p.parent, n.parent), percent := GetOr(p.percent, n.percent),
       attrs := n.attrs.(edgeDrop := GetOr(p.edgeDrop, n.attrs.edgeDrop)))
  }

  function MergeParent(n: PanelNode, p: ParentProps): (r: PanelNode)
    requires IsParent(n)
    ensures IsParent(r)
  {
    var c := MergeCommon(n, p.common);
    var layout := GetOr(p.layout, (n.attrs.kind.layout, n.children));
    c.(children := layout.1,
       attrs := c.attrs.(kind := ParentKind(layout.0, GetOr(p.titlebar, n.attrs.kind.titlebar))))
  }

  function MergeLeaf(n: PanelNode, p: LeafProps): (r: PanelNode)
    requires !IsParent(n)
    ensures !IsParent(r) && r.children == n.children
  {
    var c := MergeCommon(n, p.common);
    c.(attrs := c.attrs.(kind := LeafKind(GetOr(p.title, n.attrs.kind.title), GetOr(p.content, n.attrs.kind.content))))
  }

  /** `Node.update`: fails on a missing id; otherwise only that node changes. */
  function Update(t: Tree, id: Uuid, props: CommonProps): (r: Step<()>)
    ensures r.outcome.Fail? || r.outcome.Ok?
    ensures r.outcome.Fail? <==> id !in t.nodes
    ensures r.outcome.Fail? ==> r.tree == t && r.outcome.error == NodeNotInTree(id, [])
    ensures r.outcome.Ok? ==> r.tree.root == t.root && r.tree.nodes.Keys == t.nodes.Keys
    ensures r.outcome.Ok? ==> forall k | k in t.nodes && k != id :: r.tree.nodes[k] == t.nodes[k]
    ensures r.outcome.Ok? ==>
      && r.tree.nodes[id].children == t.nodes[id].children
      && r.tree.nodes[id].attrs.kind == t.nodes[id].attrs.kind
      && (props.parent.Some? ==> r.tree.nodes[id].parent == props.parent.value)
      && (props.parent.None? ==> r.tree.nodes[id].parent == t.nodes[id].parent)
      && (props.percent.Some? ==> r.tree.nodes[id].percent == props.percent.value)
      && (props.percent.None? ==> r.tree.nodes[id].percent == t.nodes[id].percent)
  {
    match GetOrError(t, id, None)
    case Fail(e) => Step(t, Fail(e))
    case Ok(n) => Step(t.(nodes := t.nodes[id := MergeCommon(n, props)]), Ok(()))
  }

  /** Applying the same update twice is the same as applying it once; an empty update changes nothing. */
  lemma UpdateIdempotent(t: Tree, id: Uuid, props: CommonProps)
    ensures Update(Update(t, id, props).tree, id, props) == Update(t, id, props)
    ensures Update(t, id, NoCommonProps).tree == t
  {
    if id in t.nodes {
      assert MergeCommon(t.nodes[id], NoCommonProps) == t.nodes[id];
    }
  }

  /** `Node.Parent.update`: a missing id fails, a leaf throws, a parent is merged. */
  function ParentUpdate(t: Tree, id: Uuid, props: ParentProps): (r: Step<()>)
    ensures r.outcome.Ok? <==> id in t.nodes && IsParent(t.nodes[id])
    ensures r.outcome.Fail? <==> id !in t.nodes
    ensures !r.outcome.Ok? ==> r.tree == t
    ensures r.outcome.Ok? ==> r.tree.nodes.Keys == t.nodes.Keys && IsParent(r.tree.nodes[id])
    ensures r.outcome.Ok? ==> forall k | k in t.nodes && k != id :: r.tree.nodes[k] == t.nodes[k]
    ensures r.outcome.Ok? && props.layout.Some? ==>
      r.tree.nodes[id].children == props.layout.value.1 && r.tree.nodes[id].attrs.kind.layout == props.layout.value.0
    ensures r.outcome.Ok? && props.layout.None? ==>
      r.tree.nodes[id].children == t.nodes[id].children && r.tree.nodes[id].attrs.kind.layout == t.nodes[id].attrs.kind.layout
  {
    match ParentGetOrError(t, id, None)
    case Fail(e) => Step(t, Fail(e))
    case Defect => Step(t, Defect)
    case Ok(n) => Step(t.(nodes := t.nodes[id := MergeParent(n, props)]), Ok(()))
  }

  /** `Node.Leaf.update`: a missing id fails, a parent throws, a leaf is merged. */
  function LeafUpdate(t: Tree, id: Uuid, props: LeafProps): (r: Step<()>)
    ensures r.outcome.Ok? <==> id in t.nodes && !IsParent(t.nodes[id])
    ensures r.outcome.Fail? <==> id !in t.nodes
    ensures !r.outcome.Ok? ==> r.tree == t
    ensures r.outcome.Ok? ==> r.tree.nodes.Keys == t.nodes.Keys
    ensures r.outcome.Ok? ==> forall k | k in t.nodes && k != id :: r.tree.nodes[k] == t.nodes[k]
    ensures r.outcome.Ok? ==> !IsParent(r.tree.nodes[id]) && r.tree.nodes[id].children == t.nodes[id].children
    ensures r.outcome.Ok? && props.title.Some? ==> r.tree.nodes[id].attrs.kind.title == props.title.value
  {
    match LeafGetOrError(t, id, None)
    case Fail(e) => Step(t, Fail(e))
    case Defect => Step(t, Defect)
    case Ok(n) => Step(t.(nodes := t.nodes[id := MergeLeaf(n, props)]), Ok(()))
  }

  /**
   * Changing a node's kind or edge config keeps the links and sizes, and
   * keeps the tree valid as long as a node with children stays a parent.
   */
  lemma SetAttrsKeeps(m: Nodes<Attrs>, k: Uuid, a: Attrs, skip: set<Uuid>)
    requires k in m
    ensures Linked(m) ==> Linked(m[k := m[k].(attrs := a)])
    ensures Distinct(m) ==> Distinct(m[k := m[k].(attrs := a)])
    ensures SizedBut(m, skip) ==> SizedBut(m[k := m[k].(attrs := a)], skip)
  {
    var r := m[k := m[k].(attrs := a)];
    forall q | q in m && AllIn(m, m[q].children) ensures ChildPercents(r, r[q].children) == ChildPercents(m, m[q].children) {
    }
  }

  // ---------------------------------------------------------------------
  // Creation.

  /** `Node.Data.ParentProps()` overridden by the given props. */
  function NewParent(props: ParentProps): (n: PanelNode)
    ensures IsParent(n)
    ensures n.parent == GetOr(props.common.parent, None)
    ensures n.percent == GetOr(props.common.percent, 1.0)
    ensures n.attrs.edgeDrop == GetOr(props.common.edgeDrop, AllEdges)
    ensures props.layout.None? ==> n.children == [] && n.attrs.kind.layout == Split(Horizontal)
    ensures props.layout.Some? ==> n.children == props.layout.value.1 && n.attrs.kind.layout == props.layout.value.0
    ensures n.attrs.kind.titlebar == GetOr(props.titlebar, None)
  {
    var layout := GetOr(props.layout, (Split(Horizontal), []));
    Node(GetOr(props.common.parent, None), GetOr(props.common.percent, 1.0), layout.1,
         Attrs(ParentKind(layout.0, GetOr(props.titlebar, None)), GetOr(props.common.edgeDrop, AllEdges)))
  }

  /** `Node.Data.LeafProps()` overridden by the given props; the title is required. */
  function NewLeaf(title: string, props: LeafProps): (n: PanelNode)
    ensures !IsParent(n) && n.children == []
    ensures n.parent == GetOr(props.common.parent, None)
    ensures n.percent == GetOr(props.common.percent, 1.0)
    ensures n.attrs.edgeDrop == GetOr(props.common.edgeDrop, AllEdges)
    ensures n.attrs.kind.title == GetOr(props.title, title)
    ensures n.attrs.kind.content == GetOr(props.content, None)
  {
    Node(GetOr(props.common.parent, None), GetOr(props.common.percent, 1.0), [],
         Attrs(LeafKind(GetOr(props.title, title), GetOr(props.content, None)), GetOr(props.common.edgeDrop, AllEdges)))
  }

  /** `Tree.create`: a lone root parent whose left and right edges accept drops. */
  function TreeCreate(newId: Uuid, titlebar: Option<Component>): (t: Tree)
    ensures t.root == newId && t.nodes.Keys == {newId}
    ensures IsParent(t.nodes[newId]) && t.nodes[newId].children == [] && t.nodes[newId].parent.None?
    ensures t.nodes[newId].percent == 1.0 && t.nodes[newId].attrs.kind == ParentKind(Split(Horizontal), titlebar)
    ensures t.nodes[newId].attrs.edgeDrop == EdgeDrop(true, true, false, false)
  {
    var props := ParentProps(CommonProps(None, None, Some(EdgeDrop(true, true, false, false))), None, Some(titlebar));
    Tree(newId, map[newId := NewParent(props)])
  }

  lemma TreeCreateValid(newId: Uuid, titlebar: Option<Component>)
    ensures Valid(TreeCreate(newId, titlebar))
  {
  }

  /** Stores `n` under `newId`, then adds it to `addTo` when one is given. */
  function CreateWith(t: Tree, newId: Uuid, n: PanelNode, addTo: Option<Uuid>): (r: Step<Uuid>)
    ensures newId in r.tree.nodes && r.tree.root == t.root
    ensures addTo.None? ==> r == Step(t.(nodes := t.nodes[newId := n]), Ok(newId))
    ensures r.outcome.Ok? ==> r.outcome.value == newId
    ensures !r.outcome.Rejected?
  {
    var t1 := t.(nodes := t.nodes[newId := n]);
    match addTo
    case None => Step(t1, Ok(newId))
    case Some(p) =>
      var s := AddChild(t1, p, newId);
      if s.outcome.Succeeded() then Step(s.tree, Ok(newId)) else Step(s.tree, Propagate(s.outcome))
  }

  /** `Node.Parent.create`, with the newId id supplied by the caller. */
  function ParentCreate(t: Tree, newId: Uuid, props: ParentProps, addTo: Option<Uuid>): (r: Step<Uuid>)
    ensures newId in r.tree.nodes && r.tree.root == t.root
    ensures r.outcome.Ok? ==> r.outcome.value == newId
    ensures addTo.None? ==> r.outcome == Ok(newId) && r.tree.nodes == t.nodes[newId := NewParent(props)]
  {
    CreateWith(t, newId, NewParent(props), addTo)
  }

  /** `Node.Leaf.create`, with the newId id supplied by the caller. */
  function LeafCreate(t: Tree, newId: Uuid, title: string, props: LeafProps, addTo: Option<Uuid>): (r: Step<Uuid>)
    ensures newId in r.tree.nodes && r.tree.root == t.root
    ensures r.outcome.Ok? ==> r.outcome.value == newId
    ensures addTo.None? ==> r.outcome == Ok(newId) && r.tree.nodes == t.nodes[newId := NewLeaf(title, props)]
  {
    CreateWith(t, newId, NewLeaf(title, props), addTo)
  }

  // ---------------------------------------------------------------------
  // Adding a child and refilling a parent.

  /**
   * `Node.Parent.addChild`. The parent and then the child are fetched; a
   * parent child under a tabs layout, or a child that already has a parent,
   * is turned away without a change (the generator returns the error
   * instead of raising it); otherwise the store's `Attach` runs, and a
   * missing sibling fails tagged with the parent.
   */
  function AddChild(t: Tree, parent: Uuid, child: Uuid): (r: Step<()>)
    ensures r.tree.root == t.root && r.tree.nodes.Keys == t.nodes.Keys
    ensures parent !in t.nodes ==> r == Step(t, Fail(NodeNotInTree(parent, [])))
    ensures parent in t.nodes && !IsParent(t.nodes[parent]) ==> r == Step(t, Defect)
    ensures parent in t.nodes && IsParent(t.nodes[parent]) && child !in t.nodes ==>
      r == Step(t, Fail(NodeNotInTree(child, [])))
    ensures r.outcome.Rejected? <==>
      && parent in t.nodes && IsParent(t.nodes[parent]) && child in t.nodes
      && ((IsParent(t.nodes[child]) && t.nodes[parent].attrs.kind.layout.Tabs?) || t.nodes[child].parent.Some?)
    ensures r.outcome.Rejected? ==> r.tree == t
    ensures r.outcome.Fail? && parent in t.nodes && child in t.nodes ==>
      exists c | c in t.nodes[parent].children :: r.outcome.error == NodeNotInTree(c, [parent])
  {
    match ParentGetOrError(t, parent, None)
    case Fail(e) => Step(t, Fail(e))
    case Defect => Step(t, Defect)
    case Ok(p) =>
      match GetOrError(t, child, None)
      case Fail(e) => Step(t, Fail(e))
      case Ok(c) =>
        if IsParent(c) && p.attrs.kind.layout.Tabs? then Step(t, Rejected)
        else if c.parent.Some? then Step(t, Rejected)
        else
          var (m, o) := Attach(t.nodes, parent, child);
          match o
          case Ok(_) => Step(t.(nodes := m), Ok(()))
          case Fail(missing) =>
            assert missing in t.nodes[parent].children by { AttachMissingListed(t.nodes, parent, child); }
            Step(t.(nodes := m), Fail(NodeNotInTree(missing, [parent])))
          case Defect => Step(t.(nodes := m), Defect)
  }

  /**
   * On a valid tree, adding a parentless node other than the root to a
   * parent that accepts it always succeeds, appends the child, and keeps
   * the tree valid.
   */
  lemma AddChildKeepsValid(t: Tree, parent: Uuid, child: Uuid)
    requires Valid(t) && parent in t.nodes && IsParent(t.nodes[parent]) && child in t.nodes && child != t.root
    requires t.nodes[child].parent.None?
    requires !(IsParent(t.nodes[child]) && t.nodes[parent].attrs.kind.layout.Tabs?)
    ensures AddChild(t, parent, child).outcome.Ok?
    ensures Valid(AddChild(t, parent, child).tree)
    ensures AddChild(t, parent, child).tree.nodes[parent].children == t.nodes[parent].children + [child]
    ensures AddChild(t, parent, child).tree.nodes[child].parent == Some(parent)
  {
    AttachKeepsWf(t.nodes, parent, child);
    var r := AddChild(t, parent, child);
    assert r.tree.nodes == Attach(t.nodes, parent, child).0;
  }

  /**
   * `Node.Parent.redistributeChildren`: the parent is fetched (missing
   * fails, a leaf throws), then the store's `Redistribute` runs; a missing
   * child fails tagged with the parent.
   */
  function Redistribute(t: Tree, parent: Uuid, exclude: seq<Uuid>): (r: Step<()>)
    ensures r.tree.root == t.root && r.tree.nodes.Keys == t.nodes.Keys
    ensures forall k | k in t.nodes :: r.tree.nodes[k] == t.nodes[k].(percent := r.tree.nodes[k].percent)
    ensures !r.outcome.Ok? ==> r.tree == t
    ensures !r.outcome.Rejected?
    ensures parent !in t.nodes ==> r.outcome == Fail(NodeNotInTree(parent, []))
    ensures parent in t.nodes && !IsParent(t.nodes[parent]) ==> r.outcome.Defect?
    ensures r.outcome.Fail? && parent in t.nodes ==>
      exists c | c in t.nodes[parent].children :: r.outcome.error == NodeNotInTree(c, [parent])
  {
    match ParentGetOrError(t, parent, None)
    case Fail(e) => Step(t, Fail(e))
    case Defect => Step(t, Defect)
    case Ok(_) =>
      var (m, o) := PanelStore.Redistribute(t.nodes, parent, exclude);
      RedistributeMissingListed(t.nodes, parent, exclude);
      match o
      case Ok(_) => Step(t.(nodes := m), Ok(()))
      case Fail(missing) => Step(t, Fail(NodeNotInTree(missing, [parent])))
      case Defect => Step(t, Defect)
  }


  /**
   * Redistributing with nothing excluded on a valid tree always succeeds and
   * keeps the tree valid; only the percents of the parent's children change.
   */
  lemma RedistributeKeepsValid(t: Tree, parent: Uuid)
    requires Valid(t) && parent in t.nodes && IsParent(t.nodes[parent])
    ensures Redistribute(t, parent, []).outcome.Ok?
    ensures Valid(Redistribute(t, parent, []).tree)
    ensures forall k | k in t.nodes && k !in t.nodes[parent].children :: Redistribute(t, parent, []).tree.nodes[k] == t.nodes[k]
  {
    RedistributeKeepsWf(t.nodes, parent, []);
    ExcludedSumNone(t.nodes, t.nodes[parent].children);
    SizedButNothing(t.nodes);
    assert SizedBut(t.nodes, {} + {parent});
    RedistributeSizes(t.nodes, parent, [], {});
  }
}
