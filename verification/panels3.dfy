/**
 * The third-generation panel tree of the app shell (app/src/panels3/Panel.ts):
 * an id-keyed map of panels, each with a parent link, a children list, a
 * percent of its parent, a split direction and a list of tabs. Unlike the
 * renderer's tree there are no leaf and parent kinds: any panel may have
 * children. Failures are raised (`yield*`), never returned.
 */
module Panels3 {
  import opened Wrappers
  import opened Percents
  import opened PanelSizing
  import opened PanelStore

  datatype Layout = Vertical | Horizontal

  datatype Tab = Tab(title: string)

  datatype Attrs = Attrs(dbgName: string, layout: Layout, tabs: seq<Tab>)

  type Panel = Node<Attrs>

  datatype Tree = Tree(root: Uuid, nodes: Nodes<Attrs>)

  datatype Error =
    | PanelDoesNotExist(id: Uuid, parentList: seq<Uuid>)
    | CannotDeleteRootPanel
    | AlreadyHasParent(id: Uuid)

  /** The tree after an operation's writes, and what its caller observes. */
  datatype Step<+T> = Step(tree: Tree, outcome: Outcome<T, Error>)

  /** What the operations keep: links agree, no list repeats, siblings share their parent, the root is present and parentless. */
  predicate Valid(t: Tree)
  {
    Wf(t.nodes) && t.root in t.nodes && t.nodes[t.root].parent.None?
  }

  /** The optional props of `createNode` and `updateNode`; absent ones keep the default or the current value. */
  datatype Props = Props(dbgName: Option<string>, layout: Option<Layout>, percent: Option<Percent>, tabs: Option<seq<Tab>>)

  // ---------------------------------------------------------------------
  // Creation and lookup.

  /** `createTree`: one panel, the root, named "root", with the default props. */
  function CreateTree(root: Uuid): (t: Tree)
    ensures t.root == root && t.nodes.Keys == {root}
    ensures t.nodes[root].parent.None? && t.nodes[root].children == []
    ensures Valid(t)
  {
    Tree(root, map[root := Node(None, 1.0, [], Attrs("root", Horizontal, []))])
  }

  /**
   * `createNode`: the panel is written under the given id (the source's
   * fresh uuid when none is given), parentless and childless, with each
   * default (horizontal, the whole parent, no tabs) replaced by the prop
   * when one is given.
   */
  function CreateNode(t: Tree, newId: Uuid, dbgName: string, props: Props): (r: Step<Uuid>)
    ensures r.outcome == Ok(newId)
    ensures r.tree.root == t.root && r.tree.nodes.Keys == t.nodes.Keys + {newId}
    ensures forall k | k in t.nodes && k != newId :: r.tree.nodes[k] == t.nodes[k]
    ensures var n := r.tree.nodes[newId];
      && n.parent.None? && n.children == [] && n.attrs.dbgName == dbgName
      && n.percent == GetOr(props.percent, 1.0)
      && n.attrs.layout == GetOr(props.layout, Horizontal)
      && n.attrs.tabs == GetOr(props.tabs, [])
  {
    var n := Node(None, GetOr(props.percent, 1.0), [], Attrs(dbgName, GetOr(props.layout, Horizontal), GetOr(props.tabs, [])));
    Step(t.(nodes := t.nodes[newId := n]), Ok(newId))
  }

  /** A fresh panel keeps a valid tree valid: it is linked to nothing. */
  lemma CreateNodeKeepsValid(t: Tree, newId: Uuid, dbgName: string, props: Props)
    requires Valid(t) && newId !in t.nodes
    ensures Valid(CreateNode(t, newId, dbgName, props).tree)
  {
    var m := t.nodes;
    var r := CreateNode(t, newId, dbgName, props).tree.nodes;
    forall k | k in m && |m[k].children| > 0 && AllIn(m, m[k].children)
      ensures Sum(ChildPercents(r, r[k].children)) == 1.0
    {
      assert ChildPercents(r, m[k].children) == ChildPercents(m, m[k].children);
    }
  }

  /** `getNode`: a missing panel fails, tagged with the parent being fetched for when one is given. */
  function GetNode(t: Tree, id: Uuid, parentId: Option<Uuid>): (r: Outcome<Panel, Error>)
    ensures r.Ok? || r.Fail?
    ensures r.Fail? <==> id !in t.nodes
    ensures r.Fail? ==> r.error == PanelDoesNotExist(id, OptionToSeq(parentId))
    ensures r.Ok? ==> r.value == t.nodes[id]
  {
    if id in t.nodes then Ok(t.nodes[id]) else Fail(PanelDoesNotExist(id, OptionToSeq(parentId)))
  }

  // ---------------------------------------------------------------------
  // Sizing.

  /**
   * `addChild`: the parent and the child are fetched, a child that already
   * has a parent fails, and the store's `Attach` runs; a missing sibling
   * fails tagged with the parent.
   */
  function AddChild(t: Tree, parent: Uuid, child: Uuid): (r: Step<()>)
    ensures r.tree.root == t.root && r.tree.nodes.Keys == t.nodes.Keys
    ensures !r.outcome.Rejected?
    ensures parent !in t.nodes ==> r == Step(t, Fail(PanelDoesNotExist(parent, [])))
    ensures parent in t.nodes && child !in t.nodes ==> r == Step(t, Fail(PanelDoesNotExist(child, [])))
    ensures parent in t.nodes && child in t.nodes && t.nodes[child].parent.Some? ==>
      r == Step(t, Fail(AlreadyHasParent(child)))
    ensures r.outcome.Fail? && parent in t.nodes && child in t.nodes && t.nodes[child].parent.None? ==>
      exists c | c in t.nodes[parent].children :: r.outcome.error == PanelDoesNotExist(c, [parent])
  {
    match GetNode(t, parent, None)
    case Fail(e) => Step(t, Fail(e))
    case Ok(_) =>
      match GetNode(t, child, None)
      case Fail(e) => Step(t, Fail(e))
      case Ok(c) =>
        if c.parent.Some? then Step(t, Fail(AlreadyHasParent(child)))
        else
          var (m, o) := Attach(t.nodes, parent, child);
          AttachMissingListed(t.nodes, parent, child);
          match o
          case Ok(_) => Step(t.(nodes := m), Ok(()))
          case Fail(missing) => Step(t.(nodes := m), Fail(PanelDoesNotExist(missing, [parent])))
          case Defect => Step(t.(nodes := m), Defect)
  }

  /**
   * On a valid tree, adding a parentless panel other than the root always
   * succeeds, makes it the last child, and keeps the tree valid (so the
   * siblings, the new one included, share the parent exactly).
   */
  lemma AddChildKeepsValid(t: Tree, parent: Uuid, child: Uuid)
    requires Valid(t) && parent in t.nodes && child in t.nodes && child != t.root
    requires t.nodes[child].parent.None?
    ensures AddChild(t, parent, child).outcome.Ok?
    ensures Valid(AddChild(t, parent, child).tree)
    ensures AddChild(t, parent, child).tree.nodes[parent].children == t.nodes[parent].children + [child]
    ensures AddChild(t, parent, child).tree.nodes[child].parent == Some(parent)
  {
    AttachKeepsWf(t.nodes, parent, child);
  }

  /**
   * `redistributeChildren`: the parent is fetched, then the store's
   * `Redistribute` runs with the given exclusions; a missing child fails
   * tagged with the parent before any write.
   */
  function RedistributeChildren(t: Tree, id: Uuid, exclude: seq<Uuid>): (r: Step<()>)
    ensures r.tree.root == t.root && r.tree.nodes.Keys == t.nodes.Keys
    ensures forall k | k in t.nodes :: r.tree.nodes[k] == t.nodes[k].(percent := r.tree.nodes[k].percent)
    ensures !r.outcome.Ok? ==> r.tree == t
    ensures !r.outcome.Rejected?
    ensures id !in t.nodes ==> r.outcome == Fail(PanelDoesNotExist(id, []))
    ensures r.outcome.Fail? && id in t.nodes ==>
      exists c | c in t.nodes[id].children :: r.outcome.error == PanelDoesNotExist(c, [id])
  {
    match GetNode(t, id, None)
    case Fail(e) => Step(t, Fail(e))
    case Ok(_) =>
      var (m, o) := PanelStore.Redistribute(t.nodes, id, exclude);
      RedistributeMissingListed(t.nodes, id, exclude);
      match o
      case Ok(_) => Step(t.(nodes := m), Ok(()))
      case Fail(missing) => Step(t, Fail(PanelDoesNotExist(missing, [id])))
      case Defect => Step(t, Defect)
  }

  /**
   * On a valid tree a refill with nothing excluded always succeeds, keeps
   * the tree valid and touches only the parent's children.
   */
  lemma RedistributeKeepsValid(t: Tree, id: Uuid)
    requires Valid(t) && id in t.nodes
    ensures RedistributeChildren(t, id, []).outcome.Ok?
    ensures Valid(RedistributeChildren(t, id, []).tree)
    ensures forall k | k in t.nodes && k !in t.nodes[id].children :: RedistributeChildren(t, id, []).tree.nodes[k] == t.nodes[k]
  {
    RedistributeKeepsWf(t.nodes, id, []);
    ExcludedSumNone(t.nodes, t.nodes[id].children);
    SizedButNothing(t.nodes);
    assert SizedBut(t.nodes, {} + {id});
    RedistributeSizes(t.nodes, id, [], {});
  }

  /**
   * The writes of `uniformChildren`: each listed panel is fetched and set
   * to `v` in turn; the first missing one stops the loop with the earlier
   * writes done, and is returned.
   */
  function SetAll<A>(m: Nodes<A>, ids: seq<Uuid>, v: Percent): (r: (Nodes<A>, Option<Uuid>))
    ensures r.0.Keys == m.Keys
    ensures r.1.None? <==> AllIn(m, ids)
    ensures r.1.Some? ==> r.1.value in ids && r.1.value !in m
    ensures forall k | k in m :: r.0[k] == m[k].(percent := r.0[k].percent)
    ensures forall k | k in m && k !in ids :: r.0[k] == m[k]
    ensures r.1.None? ==> forall k | k in ids :: r.0[k].percent == v
    decreases |ids|
  {
    if |ids| == 0 then (m, None)
    else if ids[0] !in m then (m, Some(ids[0]))
    else
      var rest := SetAll(SetPercent(m, ids[0], v), ids[1..], v);
      assert forall k | k in ids :: k == ids[0] || k in ids[1..];
      assert rest.1.None? ==> AllIn(m, ids) by {
        if rest.1.None? {
          forall i | 0 <= i < |ids| ensures ids[i] in m {
            if i > 0 { assert ids[i] == ids[1..][i - 1]; }
          }
        }
      }
      rest
  }

  /**
   * `uniformChildren`: the parent is fetched; with children, each gets an
   * equal share, a missing one failing tagged with the parent after the
   * earlier writes.
   */
  function UniformChildren(t: Tree, id: Uuid): (r: Step<()>)
    ensures r.tree.root == t.root && r.tree.nodes.Keys == t.nodes.Keys
    ensures r.outcome.Ok? || r.outcome.Fail?
    ensures id !in t.nodes ==> r == Step(t, Fail(PanelDoesNotExist(id, [])))
    ensures r.outcome.Fail? && id in t.nodes ==>
      exists c | c in t.nodes[id].children :: r.outcome.error == PanelDoesNotExist(c, [id])
    ensures r.outcome.Ok? ==> AllIn(t.nodes, t.nodes[id].children)
    ensures r.outcome.Ok? ==> forall k | k in t.nodes[id].children :: r.tree.nodes[k].percent == 1.0 / |t.nodes[id].children| as real
    ensures forall k | k in t.nodes && k !in (if id in t.nodes then t.nodes[id].children else []) :: r.tree.nodes[k] == t.nodes[k]
  {
    match GetNode(t, id, None)
    case Fail(e) => Step(t, Fail(e))
    case Ok(p) =>
      var n := |p.children|;
      if n == 0 then Step(t, Ok(()))
      else
        EvenShareInRange(1.0, n as real);
        var (m, missing) := SetAll(t.nodes, p.children, 1.0 / n as real);
        match missing
        case None => Step(t.(nodes := m), Ok(()))
        case Some(c) => Step(t.(nodes := m), Fail(PanelDoesNotExist(c, [id])))
  }

  /** Equal shares fill the parent: after a successful `uniformChildren` of a list without repeats, the children sum to 1. */
  lemma UniformSumsToOne(t: Tree, id: Uuid)
    requires id in t.nodes && |t.nodes[id].children| > 0 && NoDup(t.nodes[id].children)
    requires UniformChildren(t, id).outcome.Ok?
    ensures Sum(ChildPercents(UniformChildren(t, id).tree.nodes, t.nodes[id].children)) == 1.0
  {
    var kids := t.nodes[id].children;
    var r := UniformChildren(t, id).tree.nodes;
    assert AllIn(r, kids) && forall k | k in kids :: r[k].percent == 1.0 / |kids| as real;
    EqualSharesFill(r, kids);
  }

  lemma EqualSharesFill(r: Nodes<Attrs>, kids: seq<Uuid>)
    requires |kids| > 0 && AllIn(r, kids)
    requires forall k | k in kids :: r[k].percent == 1.0 / |kids| as real
    ensures Sum(ChildPercents(r, kids)) == 1.0
  {
    var v := 1.0 / |kids| as real;
    var ps := ChildPercents(r, kids);
    assert forall i | 0 <= i < |ps| :: ps[i] == v by {
      forall i | 0 <= i < |ps| ensures ps[i] == v {
        assert kids[i] in kids;
      }
    }
    SumConstant(ps, v);
    MulDivCancel(1.0, |kids| as real);
  }

  // ---------------------------------------------------------------------
  // Reading and updating.

  /**
   * `validateChildrenSizes`: a panel without children is fine with no
   * difference; otherwise every child is fetched (a missing one fails
   * tagged with the panel) and the sizes are fine iff they sum to 1, the
   * difference being the sum less 1.
   */
  function ValidateChildrenSizes(t: Tree, id: Uuid): (r: Outcome<(bool, real), Error>)
    ensures r.Ok? || r.Fail?
    ensures id !in t.nodes ==> r == Fail(PanelDoesNotExist(id, []))
    ensures id in t.nodes && r.Fail? ==> exists c | c in t.nodes[id].children :: r.error == PanelDoesNotExist(c, [id])
    ensures id in t.nodes && t.nodes[id].children == [] ==> r == Ok((true, 0.0))
    ensures r.Ok? && id in t.nodes && t.nodes[id].children != [] ==>
      AllIn(t.nodes, t.nodes[id].children)
      && r.value.1 == Sum(ChildPercents(t.nodes, t.nodes[id].children)) - 1.0
      && (r.value.0 <==> r.value.1 == 0.0)
  {
    match GetNode(t, id, None)
    case Fail(e) => Fail(e)
    case Ok(p) =>
      if p.children == [] then Ok((true, 0.0))
      else match FirstMissing(t.nodes, p.children)
        case Some(c) => Fail(PanelDoesNotExist(c, [id]))
        case None =>
          var sum := Sum(ChildPercents(t.nodes, p.children));
          Ok((sum == 1.0, sum - 1.0))
  }

  /** In a valid tree every panel's children check out. */
  lemma ValidSizesCheckOut(t: Tree, id: Uuid)
    requires Valid(t) && id in t.nodes
    ensures ValidateChildrenSizes(t, id) == Ok((true, 0.0))
  {
    LinkedAllIn(t.nodes, id);
  }

  /** `updateNode`: the panel is fetched and the given props replace its fields. */
  function UpdateNode(t: Tree, id: Uuid, props: Props): (r: Step<()>)
    ensures r.tree.root == t.root && r.tree.nodes.Keys == t.nodes.Keys
    ensures id !in t.nodes ==> r == Step(t, Fail(PanelDoesNotExist(id, [])))
    ensures id in t.nodes ==> r.outcome.Ok?
    ensures forall k | k in t.nodes && k != id :: r.tree.nodes[k] == t.nodes[k]
    ensures id in t.nodes ==>
      var n := t.nodes[id];
      var u := r.tree.nodes[id];
      && u.parent == n.parent && u.children == n.children
      && u.percent == GetOr(props.percent, n.percent)
      && u.attrs == Attrs(GetOr(props.dbgName, n.attrs.dbgName), GetOr(props.layout, n.attrs.layout), GetOr(props.tabs, n.attrs.tabs))
  {
    match GetNode(t, id, None)
    case Fail(e) => Step(t, Fail(e))
    case Ok(n) =>
      var u := n.(percent := GetOr(props.percent, n.percent),
                  attrs := Attrs(GetOr(props.dbgName, n.attrs.dbgName), GetOr(props.layout, n.attrs.layout), GetOr(props.tabs, n.attrs.tabs)));
      Step(t.(nodes := t.nodes[id := u]), Ok(()))
  }

  /** Updating with the same props twice is updating once. */
  lemma UpdateIdempotent(t: Tree, id: Uuid, props: Props)
    ensures UpdateNode(UpdateNode(t, id, props).tree, id, props) == UpdateNode(t, id, props)
  {
  }

  /** An update that leaves the percent alone keeps a valid tree valid: links and sizes are untouched. */
  lemma UpdateKeepsValid(t: Tree, id: Uuid, props: Props)
    requires Valid(t) && props.percent.None?
    ensures Valid(UpdateNode(t, id, props).tree)
  {
    SameShapeKeepsWf(t.nodes, UpdateNode(t, id, props).tree.nodes);
  }
}
