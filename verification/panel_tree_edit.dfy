/**
 * The restructuring operations of the renderer's panel tree
 * (ui/src/renderer/panels/Panel.ts): moving a node to another parent,
 * putting one node in another's place, wrapping a node in a new parent, and
 * setting a node's size among its siblings.
 */
module PanelTreeEdit {
  import opened Wrappers
  import opened Percents
  import opened PanelSizing
  import opened PanelStore
  import opened PanelTree


  // ---------------------------------------------------------------------
  // Shared steps.

  /** In a valid tree only a parent kind lists children. */
  lemma ListerIsParent(t: Tree, p: Uuid, c: Uuid)
    requires Valid(t) && p in t.nodes && c in t.nodes[p].children
    ensures IsParent(t.nodes[p])
  {
    assert t.nodes[p].children != [];
  }

  /** On a parent kind the tree's refill is the store's: a store success or defect carries over as it is. */
  lemma RefillIsStore(t: Tree, parent: Uuid, exclude: seq<Uuid>)
    requires parent in t.nodes && IsParent(t.nodes[parent])
    ensures PanelStore.Redistribute(t.nodes, parent, exclude).1.Ok? ==>
      PanelTree.Redistribute(t, parent, exclude) == Step(t.(nodes := PanelStore.Redistribute(t.nodes, parent, exclude).0), Ok(()))
    ensures PanelStore.Redistribute(t.nodes, parent, exclude).1.Defect? ==>
      PanelTree.Redistribute(t, parent, exclude) == Step(t, Defect)
  {
  }

  /**
   * One refill, with nothing excluded, of a parent kind in a store that is
   * linked and sized apart from that parent (and `skip`): it succeeds, only
   * the parent's children change, and the store is sized apart from `skip`.
   */
  lemma RefillStep(t: Tree, parent: Uuid, skip: set<Uuid>)
    requires Linked(t.nodes) && Distinct(t.nodes) && SizedBut(t.nodes, skip + {parent})
    requires parent in t.nodes && IsParent(t.nodes[parent])
    ensures PanelTree.Redistribute(t, parent, []).outcome.Ok?
    ensures Linked(PanelTree.Redistribute(t, parent, []).tree.nodes)
    ensures Distinct(PanelTree.Redistribute(t, parent, []).tree.nodes)
    ensures SizedBut(PanelTree.Redistribute(t, parent, []).tree.nodes, skip)
    ensures forall k | k in t.nodes && k !in t.nodes[parent].children ::
      PanelTree.Redistribute(t, parent, []).tree.nodes[k] == t.nodes[k]
  {
    var m := t.nodes;
    var kids := m[parent].children;
    LinkedAllIn(m, parent);
    ExcludedSumNone(m, kids);
    RedistributeSizes(m, parent, [], skip);
    RedistributeMissingListed(m, parent, []);
    if |kids| > 0 {
      assert kids[0] in kids && kids[0] !in [];
    }
    RefillIsStore(t, parent, []);
  }

  /**
   * A well-formed store keeps the tree valid when the root stays parentless
   * and no leaf gains children or comes into being from a parent.
   */
  lemma KeepsValid(t: Tree, t': Tree)
    requires Valid(t) && Wf(t'.nodes) && t'.root == t.root && t'.nodes.Keys == t.nodes.Keys
    requires t'.nodes[t.root].parent.None?
    requires forall k | k in t.nodes && !IsParent(t'.nodes[k]) :: !IsParent(t.nodes[k]) && t'.nodes[k].children == t.nodes[k].children
    ensures Valid(t')
  {
  }

  // ---------------------------------------------------------------------
  // Tabs bookkeeping of a re-parent.

  /** A tabs parent whose active tab is `id` is left with no active tab; any other node is left alone. */
  function ClearActive(m: Nodes<Attrs>, p: Uuid, id: Uuid): (r: Nodes<Attrs>)
    requires p in m
    ensures r.Keys == m.Keys
    ensures forall k | k in m && k != p :: r[k] == m[k]
    ensures r[p] == m[p].(attrs := r[p].attrs) && r[p].attrs.edgeDrop == m[p].attrs.edgeDrop
    ensures IsParent(r[p]) == IsParent(m[p])
    ensures IsParent(m[p]) && m[p].attrs.kind.layout == Tabs(Some(id)) ==>
      r[p].attrs.kind == m[p].attrs.kind.(layout := Tabs(None))
    ensures !(IsParent(m[p]) && m[p].attrs.kind.layout == Tabs(Some(id))) ==> r == m
  {
    match m[p].attrs.kind
    case ParentKind(Tabs(Some(a)), tb) =>
      if a == id then m[p := m[p].(attrs := m[p].attrs.(kind := ParentKind(Tabs(None), tb)))] else m
    case _ => m
  }

  /** A tabs parent makes `id` its active tab; any other node is left alone. */
  function MarkActive(m: Nodes<Attrs>, p: Uuid, id: Uuid): (r: Nodes<Attrs>)
    requires p in m
    ensures r.Keys == m.Keys
    ensures forall k | k in m && k != p :: r[k] == m[k]
    ensures r[p] == m[p].(attrs := r[p].attrs) && r[p].attrs.edgeDrop == m[p].attrs.edgeDrop
    ensures IsParent(r[p]) == IsParent(m[p])
    ensures IsParent(m[p]) && m[p].attrs.kind.layout.Tabs? ==>
      r[p].attrs.kind == m[p].attrs.kind.(layout := Tabs(Some(id)))
    ensures !(IsParent(m[p]) && m[p].attrs.kind.layout.Tabs?) ==> r == m
  {
    match m[p].attrs.kind
    case ParentKind(Tabs(_), tb) => m[p := m[p].(attrs := m[p].attrs.(kind := ParentKind(Tabs(Some(id)), tb)))]
    case _ => m
  }

  /** Changing one node's attributes keeps the links and sizes; used for the tabs writes. */
  lemma ActiveKeeps(m: Nodes<Attrs>, from: Uuid, to: Uuid, id: Uuid, skip: set<Uuid>)
    requires from in m && to in m && Linked(m) && Distinct(m) && SizedBut(m, skip)
    ensures Linked(MarkActive(ClearActive(m, from, id), to, id))
    ensures Distinct(MarkActive(ClearActive(m, from, id), to, id))
    ensures SizedBut(MarkActive(ClearActive(m, from, id), to, id), skip)
  {
    var m1 := ClearActive(m, from, id);
    SetAttrsKeeps(m, from, m1[from].attrs, skip);
    assert m1 == m[from := m[from].(attrs := m1[from].attrs)];
    var m2 := MarkActive(m1, to, id);
    SetAttrsKeeps(m1, to, m2[to].attrs, skip);
    assert m2 == m1[to := m1[to].(attrs := m2[to].attrs)];
  }

  // ---------------------------------------------------------------------
  // Re-parenting.

  /** The writes of a re-parent: the move, then the tabs bookkeeping of both parents. */
  function Relocate(m: Nodes<Attrs>, id: Uuid, from: Uuid, to: Uuid, idx: Option<int>): (r: Nodes<Attrs>)
    requires id in m && from in m && to in m
    ensures r.Keys == m.Keys
  {
    MarkActive(ClearActive(Move(m, id, from, to, idx), from, id), to, id)
  }

  /** The two refills that end a re-parent, the old parent first; the first that does not succeed stops it. */
  function RefillBoth(t: Tree, a: Uuid, b: Uuid): (r: Step<()>)
    ensures r.tree.root == t.root && r.tree.nodes.Keys == t.nodes.Keys
    ensures !r.outcome.Rejected?
  {
    var s1 := PanelTree.Redistribute(t, a, []);
    if !s1.outcome.Succeeded() then Step(s1.tree, Propagate(s1.outcome))
    else
      var s2 := PanelTree.Redistribute(s1.tree, b, []);
      if !s2.outcome.Succeeded() then Step(s2.tree, Propagate(s2.outcome))
      else Step(s2.tree, Ok(()))
  }

  /**
   * `Node.reParent`: the node must have a parent; both parents are fetched;
   * the node leaves the old list and enters the new one at `idx` (appended
   * without one); the tabs' active entries follow; then both parents are
   * refilled. The collapse of a unary parent that follows in the source
   * only builds effects and never runs them, so it changes nothing.
   */
  function ReParent(t: Tree, id: Uuid, newParent: Uuid, idx: Option<int>): (r: Step<()>)
    ensures r.tree.root == t.root && r.tree.nodes.Keys == t.nodes.Keys
    ensures id !in t.nodes ==> r == Step(t, Fail(NodeNotInTree(id, [])))
    ensures id in t.nodes && t.nodes[id].parent.None? ==> r == Step(t, Fail(NodeHasNoParent(id)))
    ensures id in t.nodes && t.nodes[id].parent.Some? ==>
      var from := t.nodes[id].parent.value;
      from in t.nodes && IsParent(t.nodes[from]) && newParent !in t.nodes ==> r == Step(t, Fail(NodeNotInTree(newParent, [])))
    ensures !r.outcome.Rejected?
  {
    match GetOrError(t, id, None)
    case Fail(e) => Step(t, Fail(e))
    case Ok(n) =>
      if n.parent.None? then Step(t, Fail(NodeHasNoParent(id)))
      else
        var from := n.parent.value;
        match ParentGetOrError(t, from, None)
        case Fail(e) => Step(t, Fail(e))
        case Defect => Step(t, Defect)
        case Ok(_) =>
          match ParentGetOrError(t, newParent, None)
          case Fail(e) => Step(t, Fail(e))
          case Defect => Step(t, Defect)
          case Ok(_) => RefillBoth(t.(nodes := Relocate(t.nodes, id, from, newParent, idx)), from, newParent)
  }

  /** What the writes of a re-parent do to the links and sizes of a store whose links agree. */
  lemma RelocateLinks(m: Nodes<Attrs>, id: Uuid, from: Uuid, to: Uuid, idx: Option<int>)
    requires Linked(m) && Distinct(m) && SizedBut(m, {}) && id in m && to in m && m[id].parent == Some(from)
    ensures from in m
    ensures Linked(Relocate(m, id, from, to, idx)) && Distinct(Relocate(m, id, from, to, idx))
    ensures SizedBut(Relocate(m, id, from, to, idx), {to} + {from})
  {
    MoveLinks(m, id, from, to, idx, {});
    ActiveKeeps(Move(m, id, from, to, idx), from, to, id, {} + {from, to});
    PairSwap(from, to);
  }

  lemma PairSwap(a: Uuid, b: Uuid)
    ensures {} + {a, b} == {b} + {a}
  {
  }

  /** Where the writes of a re-parent put the node, and what they leave alone. */
  lemma RelocateShape(m: Nodes<Attrs>, id: Uuid, from: Uuid, to: Uuid, idx: Option<int>)
    requires id in m && from in m && to in m && (from != to ==> id !in m[to].children)
    ensures forall k | k in m :: Relocate(m, id, from, to, idx)[k].percent == m[k].percent
    ensures forall k | k in m :: IsParent(Relocate(m, id, from, to, idx)[k]) == IsParent(m[k])
    ensures forall k | k in m && k != id :: Relocate(m, id, from, to, idx)[k].parent == m[k].parent
    ensures Relocate(m, id, from, to, idx)[id].parent == Some(to)
    ensures Relocate(m, id, from, to, idx)[to].children == InsertAt(Without(m[to].children, id), idx, id)
    ensures from != to ==> Relocate(m, id, from, to, idx)[from].children == Without(m[from].children, id)
    ensures forall k | k in m && k != from && k != to :: Relocate(m, id, from, to, idx)[k].children == m[k].children
    ensures IsParent(m[to]) && m[to].attrs.kind.layout.Tabs? ==>
      Relocate(m, id, from, to, idx)[to].attrs.kind == m[to].attrs.kind.(layout := Tabs(Some(id)))
  {
    MoveShape(m, id, from, to, idx);
    var m1 := Move(m, id, from, to, idx);
    assert m1[to].children == InsertAt(Without(m[to].children, id), idx, id);
    ActiveFacts(m1, from, to, id);
  }

  lemma MoveOtherParents<A>(m: Nodes<A>, id: Uuid, from: Uuid, to: Uuid, idx: Option<int>)
    requires id in m && from in m && to in m
    ensures forall k | k in m && k != id :: Move(m, id, from, to, idx)[k].parent == m[k].parent
  {
  }

  /** The tabs writes touch only attributes, and never whether a node is a parent. */
  lemma ActiveFacts(m: Nodes<Attrs>, from: Uuid, to: Uuid, id: Uuid)
    requires from in m && to in m
    ensures forall k | k in m :: MarkActive(ClearActive(m, from, id), to, id)[k] == m[k].(attrs := MarkActive(ClearActive(m, from, id), to, id)[k].attrs)
    ensures forall k | k in m :: IsParent(MarkActive(ClearActive(m, from, id), to, id)[k]) == IsParent(m[k])
    ensures IsParent(m[to]) && m[to].attrs.kind.layout.Tabs? ==>
      MarkActive(ClearActive(m, from, id), to, id)[to].attrs.kind == m[to].attrs.kind.(layout := Tabs(Some(id)))
  {
    var m1 := ClearActive(m, from, id);
    assert IsParent(m1[to]) == IsParent(m[to]);
    assert IsParent(m[to]) && m[to].attrs.kind.layout.Tabs? ==> m1[to].attrs.kind.layout.Tabs?;
  }

  /** The two refills of a re-parent succeed on a store that only those two parents unsettle, and touch only percents. */
  lemma RefillBothKeeps(t: Tree, a: Uuid, b: Uuid)
    requires Linked(t.nodes) && Distinct(t.nodes) && SizedBut(t.nodes, {b} + {a})
    requires a in t.nodes && IsParent(t.nodes[a]) && b in t.nodes && IsParent(t.nodes[b])
    ensures RefillBoth(t, a, b).outcome.Ok?
    ensures Wf(RefillBoth(t, a, b).tree.nodes)
    ensures forall k | k in t.nodes :: RefillBoth(t, a, b).tree.nodes[k] == t.nodes[k].(percent := RefillBoth(t, a, b).tree.nodes[k].percent)
  {
    RefillStep(t, a, {b});
    var t2 := PanelTree.Redistribute(t, a, []).tree;
    assert {b} == {} + {b};
    RefillStep(t2, b, {});
    var t3 := PanelTree.Redistribute(t2, b, []).tree;
    SizedButNothing(t3.nodes);
    assert RefillBoth(t, a, b) == Step(t3, Ok(()));
  }

  /** Once both parents are found, a re-parent is the writes followed by the two refills. */
  lemma ReParentUnfolds(t: Tree, id: Uuid, newParent: Uuid, idx: Option<int>)
    requires id in t.nodes && t.nodes[id].parent.Some?
    requires t.nodes[id].parent.value in t.nodes && IsParent(t.nodes[t.nodes[id].parent.value])
    requires newParent in t.nodes && IsParent(t.nodes[newParent])
    ensures ReParent(t, id, newParent, idx) ==
      RefillBoth(t.(nodes := Relocate(t.nodes, id, t.nodes[id].parent.value, newParent, idx)), t.nodes[id].parent.value, newParent)
  {
  }

  /**
   * The tree after the writes of a re-parent, before its refills: links and
   * lists are sound, the root is still parentless, no leaf lists children,
   * and only the two parents may need resizing.
   */
  predicate Settling(t: Tree, a: Uuid, b: Uuid)
  {
    && Linked(t.nodes) && Distinct(t.nodes) && SizedBut(t.nodes, {b} + {a})
    && t.root in t.nodes && t.nodes[t.root].parent.None?
    && a in t.nodes && IsParent(t.nodes[a]) && b in t.nodes && IsParent(t.nodes[b])
    && (forall k | k in t.nodes && !IsParent(t.nodes[k]) :: t.nodes[k].children == [])
  }

  lemma RelocateSettles(t: Tree, id: Uuid, newParent: Uuid, idx: Option<int>)
    requires Valid(t) && id in t.nodes && t.nodes[id].parent.Some?
    requires newParent in t.nodes && IsParent(t.nodes[newParent])
    ensures t.nodes[id].parent.value in t.nodes && IsParent(t.nodes[t.nodes[id].parent.value])
    ensures Settling(t.(nodes := Relocate(t.nodes, id, t.nodes[id].parent.value, newParent, idx)), t.nodes[id].parent.value, newParent)
  {
    var m := t.nodes;
    var from := m[id].parent.value;
    assert id in m[from].children;
    ListerIsParent(t, from, id);
    SizedButNothing(m);
    RelocateLinks(m, id, from, newParent, idx);
    assert from != newParent ==> id !in m[newParent].children;
    RelocateShape(m, id, from, newParent, idx);
    assert t.root != id;
  }

  /** The refills that end a re-parent turn a settling tree into a valid one. */
  lemma RefillBothValid(t: Tree, a: Uuid, b: Uuid)
    requires Settling(t, a, b)
    ensures RefillBoth(t, a, b).outcome.Ok?
    ensures Valid(RefillBoth(t, a, b).tree)
    ensures forall k | k in t.nodes :: RefillBoth(t, a, b).tree.nodes[k] == t.nodes[k].(percent := RefillBoth(t, a, b).tree.nodes[k].percent)
  {
    RefillBothKeeps(t, a, b);
  }

  /**
   * Re-parenting within a valid tree always succeeds and keeps it valid.
   */
  lemma ReParentKeepsValid(t: Tree, id: Uuid, newParent: Uuid, idx: Option<int>)
    requires Valid(t) && id in t.nodes && t.nodes[id].parent.Some?
    requires newParent in t.nodes && IsParent(t.nodes[newParent])
    ensures ReParent(t, id, newParent, idx).outcome.Ok?
    ensures Valid(ReParent(t, id, newParent, idx).tree)
  {
    var from := t.nodes[id].parent.value;
    RelocateSettles(t, id, newParent, idx);
    ReParentUnfolds(t, id, newParent, idx);
    RefillBothValid(t.(nodes := Relocate(t.nodes, id, from, newParent, idx)), from, newParent);
  }

  /** Where a successful re-parent in a valid tree leaves the node and the lists. */
  lemma ReParentPlaces(t: Tree, id: Uuid, newParent: Uuid, idx: Option<int>)
    requires Valid(t) && id in t.nodes && t.nodes[id].parent.Some?
    requires newParent in t.nodes && IsParent(t.nodes[newParent])
    ensures ReParent(t, id, newParent, idx).tree.nodes[id].parent == Some(newParent)
    ensures ReParent(t, id, newParent, idx).tree.nodes[newParent].children ==
      InsertAt(Without(t.nodes[newParent].children, id), idx, id)
    ensures t.nodes[id].parent.value != newParent ==>
      ReParent(t, id, newParent, idx).tree.nodes[t.nodes[id].parent.value].children ==
        Without(t.nodes[t.nodes[id].parent.value].children, id)
    ensures forall k | k in t.nodes && k != t.nodes[id].parent.value && k != newParent ::
      ReParent(t, id, newParent, idx).tree.nodes[k].children == t.nodes[k].children
    ensures t.nodes[newParent].attrs.kind.layout.Tabs? ==>
      ReParent(t, id, newParent, idx).tree.nodes[newParent].attrs.kind == t.nodes[newParent].attrs.kind.(layout := Tabs(Some(id)))
  {
    var m := t.nodes;
    var from := m[id].parent.value;
    RelocateSettles(t, id, newParent, idx);
    assert id in m[from].children;
    assert from != newParent ==> id !in m[newParent].children;
    RelocateShape(m, id, from, newParent, idx);
    var t1 := t.(nodes := Relocate(m, id, from, newParent, idx));
    RefillBothValid(t1, from, newParent);
    ReParentUnfolds(t, id, newParent, idx);
    var r := RefillBoth(t1, from, newParent).tree.nodes;
    assert r[id].parent == t1.nodes[id].parent;
    assert r[newParent].children == t1.nodes[newParent].children;
    assert r[from].children == t1.nodes[from].children;
    assert r[newParent].attrs == t1.nodes[newParent].attrs;
  }

  /**
   * What a re-parent in a valid tree leaves alone: every other node keeps
   * its parent link, and a split parent receiving the node keeps its
   * attributes.
   */
  lemma ReParentFrame(t: Tree, id: Uuid, newParent: Uuid, idx: Option<int>)
    requires Valid(t) && id in t.nodes && t.nodes[id].parent.Some?
    requires newParent in t.nodes && IsParent(t.nodes[newParent])
    ensures forall k | k in t.nodes && k != id :: ReParent(t, id, newParent, idx).tree.nodes[k].parent == t.nodes[k].parent
    ensures !t.nodes[newParent].attrs.kind.layout.Tabs? ==>
      ReParent(t, id, newParent, idx).tree.nodes[newParent].attrs == t.nodes[newParent].attrs
  {
    var m := t.nodes;
    var from := m[id].parent.value;
    RelocateSettles(t, id, newParent, idx);
    ReParentUnfolds(t, id, newParent, idx);
    RefillBothValid(t.(nodes := Relocate(m, id, from, newParent, idx)), from, newParent);
    MoveShape(m, id, from, newParent, idx);
    var m0 := Move(m, id, from, newParent, idx);
    ActiveFacts(m0, from, newParent, id);
    var m1 := ClearActive(m0, from, id);
    assert !m[newParent].attrs.kind.layout.Tabs? ==> m1[newParent] == m0[newParent];
  }

  /**
   * Moving a node beside the only child of another parent splits that
   * parent between the two in proportion: the child, which filled it, keeps
   * `1 / (1 + x)` and the node, arriving with percent `x`, gets
   * `x / (1 + x)`.
   */
  lemma ReParentBesideOnly(t: Tree, id: Uuid, newParent: Uuid, idx: Option<int>)
    requires Valid(t) && id in t.nodes && t.nodes[id].parent.Some? && t.nodes[id].parent.value != newParent
    requires newParent in t.nodes && IsParent(t.nodes[newParent]) && |t.nodes[newParent].children| == 1
    ensures var a := t.nodes[newParent].children[0];
      && a != id && a in t.nodes
      && ReParent(t, id, newParent, idx).tree.nodes[newParent].children ==
           (if InsertPos(1, idx) == 0 then [id, a] else [a, id])
      && ReParent(t, id, newParent, idx).tree.nodes[a].percent == FillerShare(t.nodes[id].percent)
      && ReParent(t, id, newParent, idx).tree.nodes[id].percent == NewcomerShare(t.nodes[id].percent)
  {
    var from := t.nodes[id].parent.value;
    var a := t.nodes[newParent].children[0];
    RelocateBesideOnly(t, id, newParent, idx);
    RelocateSettles(t, id, newParent, idx);
    var t1 := t.(nodes := Relocate(t.nodes, id, from, newParent, idx));
    ReParentUnfolds(t, id, newParent, idx);
    RefillBothIsSecond(t1, from, newParent);
    var t2 := PanelTree.Redistribute(t1, from, []).tree;
    assert t2.nodes[a] == t1.nodes[a] && t2.nodes[id] == t1.nodes[id];
    RefillPair(t2, newParent, a, id, t.nodes[id].percent);
    assert ReParent(t, id, newParent, idx).tree.nodes == PanelTree.Redistribute(t2, newParent, []).tree.nodes;
  }

  /**
   * `p` is a parent with the given layout, linked under `up`, holding
   * exactly `first` and then `second`, at the given percents, both linked
   * back to it.
   */
  predicate PairParent(t: Tree, p: Uuid, up: Option<Uuid>, layout: Layout, first: Uuid, second: Uuid, pFirst: real, pSecond: real)
  {
    && p in t.nodes && first in t.nodes && second in t.nodes
    && IsParent(t.nodes[p]) && t.nodes[p].attrs.kind.layout == layout && t.nodes[p].parent == up
    && t.nodes[p].children == [first, second]
    && t.nodes[first].parent == Some(p) && t.nodes[second].parent == Some(p)
    && t.nodes[first].percent == pFirst && t.nodes[second].percent == pSecond
  }

  /** The layout a parent shows once `id` has moved in: a tabs parent shows it, a split is unchanged. */
  function LayoutAfterMove(l: Layout, id: Uuid): (r: Layout)
    ensures r.Tabs? <==> l.Tabs?
  {
    if l.Tabs? then Tabs(Some(id)) else l
  }

  /**
   * Moving a node beside the only child of another parent, in a valid tree,
   * succeeds and leaves that parent, where it was, holding the pair in the
   * order the index gives, split between them as 1 to the node's old
   * percent; a tabs parent shows the node.
   */
  lemma ReParentBeside(t: Tree, id: Uuid, newParent: Uuid, idx: Option<int>, a: Uuid, x: real, layout: Layout, up: Option<Uuid>)
    requires Valid(t) && id in t.nodes && t.nodes[id].parent.Some? && t.nodes[id].parent.value != newParent
    requires newParent in t.nodes && IsParent(t.nodes[newParent]) && t.nodes[newParent].children == [a] && newParent != id
    requires x == t.nodes[id].percent && up == t.nodes[newParent].parent
    requires layout == LayoutAfterMove(t.nodes[newParent].attrs.kind.layout, id)
    ensures ReParent(t, id, newParent, idx).outcome.Ok?
    ensures Valid(ReParent(t, id, newParent, idx).tree)
    ensures InsertPos(1, idx) == 0 ==>
      PairParent(ReParent(t, id, newParent, idx).tree, newParent, up, layout, id, a, NewcomerShare(x), FillerShare(x))
    ensures InsertPos(1, idx) != 0 ==>
      PairParent(ReParent(t, id, newParent, idx).tree, newParent, up, layout, a, id, FillerShare(x), NewcomerShare(x))
  {
    ReParentBesideOnly(t, id, newParent, idx);
    ReParentKeepsValid(t, id, newParent, idx);
    ReParentPlaces(t, id, newParent, idx);
    ReParentFrame(t, id, newParent, idx);
    assert a in t.nodes[newParent].children;
  }

  /** The writes of a move beside an only child, before the refills. */
  lemma RelocateBesideOnly(t: Tree, id: Uuid, newParent: Uuid, idx: Option<int>)
    requires Valid(t) && id in t.nodes && t.nodes[id].parent.Some? && t.nodes[id].parent.value != newParent
    requires newParent in t.nodes && IsParent(t.nodes[newParent]) && |t.nodes[newParent].children| == 1
    ensures var a := t.nodes[newParent].children[0];
      var from := t.nodes[id].parent.value;
      var m1 := Relocate(t.nodes, id, from, newParent, idx);
      && a != id && a in t.nodes && from in t.nodes
      && m1[newParent].children == (if InsertPos(1, idx) == 0 then [id, a] else [a, id])
      && a !in m1[from].children && id !in m1[from].children
      && m1[a].percent == 1.0 && m1[id].percent == t.nodes[id].percent
  {
    var m := t.nodes;
    var from := m[id].parent.value;
    var a := m[newParent].children[0];
    assert ChildrenLinked(m) && Sized(m);
    ListerNamed(m, newParent, a);
    ListerNamed(m, from, id);
    OnlyChildFills(m, newParent);
    RelocatePoints(m, id, from, newParent, idx, a);
    assert Without([a], id) == [a];
    InsertBesideOne(a, idx, id);
    if a in m[from].children {
      ListerNamed(m, from, a);
    }
  }

  /** What the writes of a re-parent do to the two parents' lists and to one other node. */
  lemma RelocatePoints(m: Nodes<Attrs>, id: Uuid, from: Uuid, to: Uuid, idx: Option<int>, a: Uuid)
    requires id in m && from in m && to in m && from != to && id !in m[to].children && a in m && a != id
    ensures Relocate(m, id, from, to, idx)[to].children == InsertAt(Without(m[to].children, id), idx, id)
    ensures Relocate(m, id, from, to, idx)[from].children == Without(m[from].children, id)
    ensures Relocate(m, id, from, to, idx)[a].parent == m[a].parent
    ensures Relocate(m, id, from, to, idx)[a].percent == m[a].percent
    ensures Relocate(m, id, from, to, idx)[id].percent == m[id].percent
  {
    RelocateShape(m, id, from, to, idx);
  }

  /**
   * The refills of a re-parent succeed on a settling tree; the first
   * changes only the old parent's children, and the second gives the result.
   */
  lemma RefillBothIsSecond(t: Tree, a: Uuid, b: Uuid)
    requires Settling(t, a, b)
    ensures var t2 := PanelTree.Redistribute(t, a, []).tree;
      && RefillBoth(t, a, b).tree == PanelTree.Redistribute(t2, b, []).tree
      && t2.nodes.Keys == t.nodes.Keys
      && (forall k | k in t.nodes :: t2.nodes[k] == t.nodes[k].(percent := t2.nodes[k].percent))
      && (forall k | k in t.nodes && k !in t.nodes[a].children :: t2.nodes[k] == t.nodes[k])
  {
    RefillStep(t, a, {b});
    var t2 := PanelTree.Redistribute(t, a, []).tree;
    assert {b} == {} + {b};
    RefillStep(t2, b, {});
  }

  /**
   * Refilling a parent whose two children are a node that filled it and a
   * newcomer with percent `x`: they end at `1 / (1 + x)` and `x / (1 + x)`.
   */
  lemma RefillPair(t: Tree, p: Uuid, a: Uuid, id: Uuid, x: real)
    requires p in t.nodes && IsParent(t.nodes[p]) && a != id && a in t.nodes && id in t.nodes
    requires t.nodes[p].children == [a, id] || t.nodes[p].children == [id, a]
    requires t.nodes[a].percent == 1.0 && t.nodes[id].percent == x
    ensures PanelTree.Redistribute(t, p, []).outcome.Ok?
    ensures PanelTree.Redistribute(t, p, []).tree.nodes[a].percent == FillerShare(x)
    ensures PanelTree.Redistribute(t, p, []).tree.nodes[id].percent == NewcomerShare(x)
  {
    RedistributeFiller(t.nodes, p, a, id, x);
    RefillIsStore(t, p, []);
    assert PanelTree.Redistribute(t, p, []).tree.nodes == PanelStore.Redistribute(t.nodes, p, []).0;
  }

  /** A parent's only child holds the whole parent. */
  lemma OnlyChildFills<A>(m: Nodes<A>, p: Uuid)
    requires Sized(m) && p in m && |m[p].children| == 1 && m[p].children[0] in m
    ensures m[m[p].children[0]].percent == 1.0
  {
    var kids := m[p].children;
    assert AllIn(m, kids);
    var ps := ChildPercents(m, kids);
    assert Sum(ps) == 1.0;
    assert ps[1..] == [];
    assert Sum(ps) == ps[0] + Sum(ps[1..]);
  }

  /** Inserting into a one-entry list puts the new entry first or second. */
  lemma InsertBesideOne(a: Uuid, idx: Option<int>, x: Uuid)
    ensures InsertAt([a], idx, x) == (if InsertPos(1, idx) == 0 then [x, a] else [a, x])
  {
  }

  // ---------------------------------------------------------------------
  // Replacing.

  /**
   * The first half of `replaceWith` when the replacement has a parent: that
   * parent is fetched, drops the replacement from its list and is refilled
   * (a failure there stops with the list already filtered), and only then
   * is the replacement's parent link cleared.
   */
  function TakeOut(t: Tree, id: Uuid): (r: Step<()>)
    requires id in t.nodes && t.nodes[id].parent.Some?
    ensures r.tree.root == t.root && r.tree.nodes.Keys == t.nodes.Keys
    ensures !r.outcome.Rejected?
    ensures t.nodes[id].parent.value !in t.nodes ==> r == Step(t, Fail(NodeNotInTree(t.nodes[id].parent.value, [])))
  {
    var rp := t.nodes[id].parent.value;
    match ParentGetOrError(t, rp, None)
    case Fail(e) => Step(t, Fail(e))
    case Defect => Step(t, Defect)
    case Ok(_) =>
      var m1 := SetChildren(t.nodes, rp, Without(t.nodes[rp].children, id));
      var s := PanelTree.Redistribute(t.(nodes := m1), rp, []);
      if !s.outcome.Succeeded() then Step(s.tree, Propagate(s.outcome))
      else Step(s.tree.(nodes := SetParent(s.tree.nodes, id, None)), Ok(()))
  }

  /** The replacement leaves its parent, if it has one. */
  function Release(t: Tree, id: Uuid): (r: Step<()>)
    requires id in t.nodes
    ensures r.tree.root == t.root && r.tree.nodes.Keys == t.nodes.Keys
    ensures !r.outcome.Rejected?
    ensures t.nodes[id].parent.None? ==> r == Step(t, Ok(()))
  {
    if t.nodes[id].parent.Some? then TakeOut(t, id) else Step(t, Ok(()))
  }

  /** The siblings of a node, itself included: the list of its parent, or nothing. */
  function Family(t: Tree, id: Uuid): (r: seq<Uuid>)
    requires id in t.nodes
    ensures t.nodes[id].parent.None? ==> r == []
  {
    match t.nodes[id].parent
    case Some(p) => if p in t.nodes then t.nodes[p].children else []
    case None => []
  }

  /**
   * `Node.replaceWith`: both nodes are fetched; a node without a parent is
   * turned away unchanged (the error is returned, not raised); the parent is
   * fetched; the replacement leaves its own parent if it has one; then the
   * replacement takes the replaced node's percent and slot, and the replaced
   * node is reset to 1 and loses its parent.
   */
  function ReplaceWith(t: Tree, toReplace: Uuid, replacement: Uuid): (r: Step<()>)
    ensures r.tree.root == t.root && r.tree.nodes.Keys == t.nodes.Keys
    ensures toReplace !in t.nodes ==> r == Step(t, Fail(NodeNotInTree(toReplace, [])))
    ensures toReplace in t.nodes && replacement !in t.nodes ==> r == Step(t, Fail(NodeNotInTree(replacement, [])))
    ensures r.outcome.Rejected? <==> toReplace in t.nodes && replacement in t.nodes && t.nodes[toReplace].parent.None?
    ensures r.outcome.Rejected? ==> r.tree == t
  {
    match GetOrError(t, toReplace, None)
    case Fail(e) => Step(t, Fail(e))
    case Ok(out) =>
      match GetOrError(t, replacement, None)
      case Fail(e) => Step(t, Fail(e))
      case Ok(inc) =>
        if out.parent.None? then Step(t, Rejected)
        else
          var p := out.parent.value;
          match ParentGetOrError(t, p, None)
          case Fail(e) => Step(t, Fail(e))
          case Defect => Step(t, Defect)
          case Ok(_) =>
            var s := Release(t, replacement);
            if !s.outcome.Succeeded() then Step(s.tree, Propagate(s.outcome))
            else Step(s.tree.(nodes := Swap(s.tree.nodes, p, toReplace, replacement)), Ok(()))
  }

  /** Taking a node out is detaching it and then refilling its old parent, once that refill succeeds. */
  lemma TakeOutIsDetach(t: Tree, id: Uuid)
    requires id in t.nodes && t.nodes[id].parent.Some?
    requires t.nodes[id].parent.value in t.nodes && IsParent(t.nodes[t.nodes[id].parent.value])
    ensures var rp := t.nodes[id].parent.value;
      PanelStore.Redistribute(Detach(t.nodes, rp, id), rp, []).1.Ok? ==>
        TakeOut(t, id) == Step(t.(nodes := PanelStore.Redistribute(Detach(t.nodes, rp, id), rp, []).0), Ok(()))
  {
    var m := t.nodes;
    var rp := m[id].parent.value;
    var m1 := SetChildren(m, rp, Without(m[rp].children, id));
    assert Detach(m, rp, id) == SetParent(m1, id, None);
    RedistributeSetParent(m1, rp, [], id, None);
    RefillIsStore(t.(nodes := m1), rp, []);
  }

  /**
   * Taking a node out of its parent in a valid tree succeeds and leaves a
   * well-formed store in which it is parentless and unlisted; other parent
   * links, other lists and all attributes are untouched, and only the old
   * parent's children change size.
   */
  lemma TakeOutKeeps(t: Tree, id: Uuid)
    requires Valid(t) && id in t.nodes && t.nodes[id].parent.Some?
    ensures TakeOut(t, id).outcome.Ok?
    ensures Wf(TakeOut(t, id).tree.nodes)
    ensures TakeOut(t, id).tree.nodes[id].parent.None?
    ensures TakeOut(t, id).tree.nodes[t.nodes[id].parent.value].children == Without(t.nodes[t.nodes[id].parent.value].children, id)
    ensures forall k | k in t.nodes && k != id :: TakeOut(t, id).tree.nodes[k].parent == t.nodes[k].parent
    ensures forall k | k in t.nodes && k != t.nodes[id].parent.value ::
      TakeOut(t, id).tree.nodes[k].children == t.nodes[k].children
    ensures forall k | k in t.nodes && k !in t.nodes[t.nodes[id].parent.value].children ::
      TakeOut(t, id).tree.nodes[k].percent == t.nodes[k].percent
    ensures forall k | k in t.nodes :: TakeOut(t, id).tree.nodes[k].attrs == t.nodes[k].attrs
  {
    var m := t.nodes;
    var rp := m[id].parent.value;
    assert id in m[rp].children;
    ListerIsParent(t, rp, id);
    SizedButNothing(m);
    DetachLinks(m, rp, id, {});
    var d := Detach(m, rp, id);
    assert SizedBut(d, {} + {rp});
    LinkedAllIn(d, rp);
    ExcludedSumNone(d, d[rp].children);
    RedistributeSizes(d, rp, [], {});
    RedistributeMissingListed(d, rp, []);
    if |d[rp].children| > 0 {
      assert d[rp].children[0] in d[rp].children && d[rp].children[0] !in [];
    }
    TakeOutIsDetach(t, id);
    SizedButNothing(PanelStore.Redistribute(d, rp, []).0);
  }

  /** A `Swap` changes the parent link of the two nodes it exchanges and of no other. */
  lemma SwapOtherParents<A>(m: Nodes<A>, p: Uuid, outgoing: Uuid, incoming: Uuid)
    requires p in m && outgoing in m && incoming in m
    ensures forall k | k in m && k != outgoing && k != incoming :: Swap(m, p, outgoing, incoming)[k].parent == m[k].parent
  {
  }

  /**
   * Releasing a node in a valid tree succeeds and keeps the tree valid: the
   * node is parentless and unlisted, other parent links, other lists and
   * all attributes are untouched, and only the node's old siblings change
   * size.
   */
  lemma ReleaseKeeps(t: Tree, id: Uuid)
    requires Valid(t) && id in t.nodes
    ensures Release(t, id).outcome.Ok?
    ensures Valid(Release(t, id).tree)
    ensures Release(t, id).tree.nodes[id].parent.None?
    ensures forall k | k in t.nodes && k != id :: Release(t, id).tree.nodes[k].parent == t.nodes[k].parent
    ensures forall k | k in t.nodes :: Release(t, id).tree.nodes[k].attrs == t.nodes[k].attrs
    ensures forall k | k in t.nodes && Some(k) != t.nodes[id].parent :: Release(t, id).tree.nodes[k].children == t.nodes[k].children
    ensures forall k | k in t.nodes && k !in Family(t, id) :: Release(t, id).tree.nodes[k].percent == t.nodes[k].percent
  {
    if t.nodes[id].parent.Some? {
      var rp := t.nodes[id].parent.value;
      assert id in t.nodes[rp].children;
      ListerIsParent(t, rp, id);
      TakeOutKeeps(t, id);
      assert t.root != id;
      KeepsValid(t, TakeOut(t, id).tree);
    }
  }

  /** Swapping a parentless node other than the root into a child's slot keeps a valid tree valid. */
  lemma SwapKeepsValid(t: Tree, p: Uuid, outgoing: Uuid, incoming: Uuid)
    requires Valid(t) && outgoing in t.nodes && t.nodes[outgoing].parent == Some(p)
    requires incoming in t.nodes && t.nodes[incoming].parent.None?
    requires incoming != outgoing && incoming != p && incoming != t.root
    ensures p in t.nodes
    ensures Valid(t.(nodes := Swap(t.nodes, p, outgoing, incoming)))
  {
    var m := t.nodes;
    assert outgoing in m[p].children;
    ListerIsParent(t, p, outgoing);
    SizedButNothing(m);
    SwapLinks(m, p, outgoing, incoming, {});
    SwapOtherParents(m, p, outgoing, incoming);
    SizedButNothing(Swap(m, p, outgoing, incoming));
    assert t.root != outgoing;
    KeepsValid(t, t.(nodes := Swap(m, p, outgoing, incoming)));
  }

  /** Once the parent is found, a replace is the release followed by the swap. */
  lemma ReplaceWithUnfolds(t: Tree, toReplace: Uuid, replacement: Uuid)
    requires toReplace in t.nodes && replacement in t.nodes && t.nodes[toReplace].parent.Some?
    requires t.nodes[toReplace].parent.value in t.nodes && IsParent(t.nodes[t.nodes[toReplace].parent.value])
    ensures var s := Release(t, replacement);
      s.outcome.Ok? ==>
        ReplaceWith(t, toReplace, replacement) ==
          Step(s.tree.(nodes := Swap(s.tree.nodes, t.nodes[toReplace].parent.value, toReplace, replacement)), Ok(()))
  {
  }

  /**
   * Replacing a child with a node other than the root and its own parent
   * keeps a valid tree valid and always succeeds.
   */
  lemma ReplaceWithKeepsValid(t: Tree, toReplace: Uuid, replacement: Uuid)
    requires Valid(t) && toReplace in t.nodes && t.nodes[toReplace].parent.Some?
    requires replacement in t.nodes && replacement != toReplace && replacement != t.root
    requires replacement != t.nodes[toReplace].parent.value
    ensures ReplaceWith(t, toReplace, replacement).outcome.Ok?
    ensures Valid(ReplaceWith(t, toReplace, replacement).tree)
  {
    var p := t.nodes[toReplace].parent.value;
    assert toReplace in t.nodes[p].children;
    ListerIsParent(t, p, toReplace);
    ReleaseKeeps(t, replacement);
    ReplaceWithUnfolds(t, toReplace, replacement);
    SwapKeepsValid(Release(t, replacement).tree, p, toReplace, replacement);
  }

  /**
   * Where a replace in a valid tree leaves the two nodes: the replacement
   * holds the replaced node's slot (and its percent, when it did not come
   * from the same parent), the replaced node is parentless at 1, attributes
   * are untouched and no list other than the two parents' changes.
   */
  lemma ReplaceWithPlaces(t: Tree, toReplace: Uuid, replacement: Uuid)
    requires Valid(t) && toReplace in t.nodes && t.nodes[toReplace].parent.Some?
    requires replacement in t.nodes && replacement != toReplace && replacement != t.root
    requires replacement != t.nodes[toReplace].parent.value
    ensures ReplaceWith(t, toReplace, replacement).tree.nodes[replacement].parent == t.nodes[toReplace].parent
    ensures ReplaceWith(t, toReplace, replacement).tree.nodes[toReplace].parent.None?
    ensures ReplaceWith(t, toReplace, replacement).tree.nodes[toReplace].percent == 1.0
    ensures forall k | k in t.nodes :: ReplaceWith(t, toReplace, replacement).tree.nodes[k].attrs == t.nodes[k].attrs
    ensures forall k | k in t.nodes && k != t.nodes[toReplace].parent.value && Some(k) != t.nodes[replacement].parent ::
      ReplaceWith(t, toReplace, replacement).tree.nodes[k].children == t.nodes[k].children
    ensures t.nodes[replacement].parent != t.nodes[toReplace].parent ==>
      var p := t.nodes[toReplace].parent.value;
      && ReplaceWith(t, toReplace, replacement).tree.nodes[p].children ==
           t.nodes[p].children[IndexOf(t.nodes[p].children, toReplace) := replacement]
      && ReplaceWith(t, toReplace, replacement).tree.nodes[replacement].percent == t.nodes[toReplace].percent
  {
    var m := t.nodes;
    var p := m[toReplace].parent.value;
    assert toReplace in m[p].children;
    ListerIsParent(t, p, toReplace);
    ReleaseKeeps(t, replacement);
    ReplaceWithUnfolds(t, toReplace, replacement);
    var ma := Release(t, replacement).tree.nodes;
    assert toReplace !in Family(t, replacement) || m[replacement].parent == Some(p);
    SizedButNothing(ma);
    SwapLinks(ma, p, toReplace, replacement, {});
  }

  /** Writing a parent link commutes with a refill, which reads and writes only lists and percents. */
  lemma RedistributeSetParent<A>(m: Nodes<A>, p: Uuid, exclude: seq<Uuid>, x: Uuid, v: Option<Uuid>)
    requires p in m && x in m
    ensures PanelStore.Redistribute(SetParent(m, x, v), p, exclude).1 == PanelStore.Redistribute(m, p, exclude).1
    ensures PanelStore.Redistribute(SetParent(m, x, v), p, exclude).0 == SetParent(PanelStore.Redistribute(m, p, exclude).0, x, v)
  {
    var m' := SetParent(m, x, v);
    var kids := m[p].children;
    assert m'[p].children == kids;
    FirstMissingSameKeys(m, m', kids);
    if |kids| > 0 && FirstMissing(m, kids).None? {
      assert ChildPercents(m', kids) == ChildPercents(m, kids);
      var adjustable := Adjustable(kids, exclude);
      assert AllIn(m, adjustable) by {
        forall i | 0 <= i < |adjustable| ensures adjustable[i] in m {
          assert adjustable[i] in kids;
        }
      }
      match RedistributePlan(ChildPercents(m, kids), FixedMask(kids, exclude))
      case None =>
      case Some(rule) =>
        RewriteSetParent(m, adjustable, rule, x, v);
    }
  }

  /** Which listed id is missing depends only on the keys. */
  lemma {:induction false} FirstMissingSameKeys<A>(m: Nodes<A>, m': Nodes<A>, ids: seq<Uuid>)
    requires m.Keys == m'.Keys
    ensures FirstMissing(m, ids) == FirstMissing(m', ids)
    decreases |ids|
  {
    if |ids| > 0 {
      FirstMissingSameKeys(m, m', ids[1..]);
    }
  }

  /** The percent writes of a refill commute with a parent-link write. */
  lemma {:induction false} RewriteSetParent<A>(m: Nodes<A>, ids: seq<Uuid>, rule: Rule, x: Uuid, v: Option<Uuid>)
    requires AllIn(m, ids) && x in m
    ensures Rewrite(SetParent(m, x, v), ids, rule).Some? == Rewrite(m, ids, rule).Some?
    ensures Rewrite(m, ids, rule).Some? ==>
      Rewrite(SetParent(m, x, v), ids, rule).value == SetParent(Rewrite(m, ids, rule).value, x, v)
    decreases |ids|
  {
    if |ids| > 0 {
      var k := ids[0];
      var val := Apply(rule, m[k].percent);
      if IsPercent(val) {
        var m1 := SetPercent(m, k, val);
        assert AllIn(m1, ids[1..]);
        assert SetPercent(SetParent(m, x, v), k, val) == SetParent(m1, x, v);
        RewriteSetParent(m1, ids[1..], rule, x, v);
      }
    }
  }

  // ---------------------------------------------------------------------
  // Promoting.

  /**
   * `Node.promoteToParent`: a new parent with the given layout (and the
   * children that layout value lists) is created, takes the node's place,
   * and receives the node as its child. A turned-away replace or add is a
   * success for the caller, so the sequence goes on; a raised failure stops
   * it.
   */
  function PromoteToParent(t: Tree, id: Uuid, layout: Layout, listed: seq<Uuid>, newId: Uuid): (r: Step<Uuid>)
    ensures r.tree.root == t.root && r.tree.nodes.Keys == t.nodes.Keys + {newId}
    ensures r.outcome.Ok? ==> r.outcome.value == newId
    ensures id !in t.nodes && id != newId ==> r.outcome == Fail(NodeNotInTree(id, []))
  {
    var t0 := ParentCreate(t, newId, ParentProps(NoCommonProps, Some((layout, listed)), None), None).tree;
    var s1 := ReplaceWith(t0, id, newId);
    if !s1.outcome.Succeeded() then Step(s1.tree, Propagate(s1.outcome))
    else
      var s2 := AddChild(s1.tree, newId, id);
      if !s2.outcome.Succeeded() then Step(s2.tree, Propagate(s2.outcome))
      else Step(s2.tree, Ok(newId))
  }

  /** Storing a new parentless, childless node under an unused id keeps a valid tree valid. */
  lemma NewNodeKeepsValid(t: Tree, newId: Uuid, n: PanelNode)
    requires Valid(t) && newId !in t.nodes && n.parent.None? && n.children == []
    ensures Valid(t.(nodes := t.nodes[newId := n]))
  {
    var m := t.nodes;
    var r := m[newId := n];
    forall k | k in m ensures newId !in m[k].children {
    }
    forall k | k in m && AllIn(m, m[k].children) ensures ChildPercents(r, r[k].children) == ChildPercents(m, m[k].children) {
    }
  }

  /** Adding to a parent with no children gives the child the whole parent and changes nothing else but the two links. */
  lemma AttachToEmpty<A>(m: Nodes<A>, parent: Uuid, child: Uuid)
    requires parent in m && child in m && m[parent].children == [] && parent != child
    ensures Attach(m, parent, child) ==
      (SetChildren(SetPercent(SetParent(m, child, Some(parent)), child, 1.0), parent, [child]), Ok(()))
  {
    var m1 := SetParent(m, child, Some(parent));
    var kids := m[parent].children;
    assert FirstMissing(m1, kids) == None;
    var plan := AddChildPlan(ChildPercents(m1, kids), m1[child].percent);
    AddChildPlanShape(ChildPercents(m1, kids), m1[child].percent);
    assert plan == (Times(1.0), 1.0);
    assert Rewrite(m1, kids, plan.0) == Some(m1);
    var m3 := SetPercent(m1, child, plan.1);
    assert m3[parent].children + [child] == [child];
  }

  /**
   * Promoting a child of a valid tree under an unused id, with a layout
   * value that lists no children, succeeds and keeps the tree valid: the
   * new parent holds the node's slot and percent, and the node is its only
   * child, filling it.
   */
  lemma PromoteKeepsValid(t: Tree, id: Uuid, layout: Layout, newId: Uuid)
    requires Valid(t) && id in t.nodes && t.nodes[id].parent.Some? && newId !in t.nodes
    requires !(IsParent(t.nodes[id]) && layout.Tabs?)
    ensures PromoteToParent(t, id, layout, [], newId).outcome == Ok(newId)
    ensures Valid(PromoteToParent(t, id, layout, [], newId).tree)
    ensures var p := t.nodes[id].parent.value;
      PromoteToParent(t, id, layout, [], newId).tree.nodes[p].children ==
        t.nodes[p].children[IndexOf(t.nodes[p].children, id) := newId]
    ensures PromoteToParent(t, id, layout, [], newId).tree.nodes[newId].children == [id]
    ensures PromoteToParent(t, id, layout, [], newId).tree.nodes[newId].parent == t.nodes[id].parent
    ensures PromoteToParent(t, id, layout, [], newId).tree.nodes[newId].percent == t.nodes[id].percent
    ensures PromoteToParent(t, id, layout, [], newId).tree.nodes[id].parent == Some(newId)
    ensures PromoteToParent(t, id, layout, [], newId).tree.nodes[id].percent == 1.0
  {
    var props := ParentProps(NoCommonProps, Some((layout, [])), None);
    var n := NewParent(props);
    var t0 := t.(nodes := t.nodes[newId := n]);
    assert ParentCreate(t, newId, props, None).tree == t0;
    NewNodeKeepsValid(t, newId, n);
    ReplaceWithKeepsValid(t0, id, newId);
    ReplaceWithPlaces(t0, id, newId);
    var t1 := ReplaceWith(t0, id, newId).tree;
    assert t1.nodes[newId].children == [];
    AddChildKeepsValid(t1, newId, id);
    AttachToEmpty(t1.nodes, newId, id);
    var t2 := AddChild(t1, newId, id).tree;
    assert t2.nodes == Attach(t1.nodes, newId, id).0;
    assert PromoteToParent(t, id, layout, [], newId) == Step(t2, Ok(newId));
  }

  /**
   * What a promotion leaves alone: every other node keeps its parent link,
   * its percent and its attributes, only the old parent's list changes, and
   * the new parent is a parent with the requested layout.
   */
  lemma PromoteFrame(t: Tree, id: Uuid, layout: Layout, newId: Uuid)
    requires Valid(t) && id in t.nodes && t.nodes[id].parent.Some? && newId !in t.nodes
    requires !(IsParent(t.nodes[id]) && layout.Tabs?)
    ensures forall k | k in t.nodes && k != id ::
      && PromoteToParent(t, id, layout, [], newId).tree.nodes[k].parent == t.nodes[k].parent
      && PromoteToParent(t, id, layout, [], newId).tree.nodes[k].percent == t.nodes[k].percent
    ensures forall k | k in t.nodes && k != t.nodes[id].parent.value ::
      PromoteToParent(t, id, layout, [], newId).tree.nodes[k].children == t.nodes[k].children
    ensures forall k | k in t.nodes :: PromoteToParent(t, id, layout, [], newId).tree.nodes[k].attrs == t.nodes[k].attrs
    ensures IsParent(PromoteToParent(t, id, layout, [], newId).tree.nodes[newId])
    ensures PromoteToParent(t, id, layout, [], newId).tree.nodes[newId].attrs.kind.layout == layout
  {
    var p := t.nodes[id].parent.value;
    var props := ParentProps(NoCommonProps, Some((layout, [])), None);
    var n := NewParent(props);
    var t0 := t.(nodes := t.nodes[newId := n]);
    assert ParentCreate(t, newId, props, None).tree == t0;
    assert id in t.nodes[p].children;
    ListerIsParent(t, p, id);
    ReplaceWithUnfolds(t0, id, newId);
    var m1 := Swap(t0.nodes, p, id, newId);
    var t1 := t0.(nodes := m1);
    assert ReplaceWith(t0, id, newId) == Step(t1, Ok(()));
    PromoteWrites(t.nodes, p, id, newId, n);
    AttachToEmpty(m1, newId, id);
    assert AddChild(t1, newId, id) == Step(t1.(nodes := Attach(m1, newId, id).0), Ok(()));
  }

  /**
   * The writes of a promotion: the new node is stored, swapped into the
   * node's slot and given the node as its only child. Nodes other than
   * these keep their links and percents, and no attributes change.
   */
  lemma PromoteWrites(m: Nodes<Attrs>, p: Uuid, id: Uuid, newId: Uuid, n: PanelNode)
    requires id in m && p in m && m[id].parent == Some(p) && newId !in m && n.children == []
    ensures var r := Attach(Swap(m[newId := n], p, id, newId), newId, id).0;
      && (forall k | k in m && k != id :: r[k].parent == m[k].parent && r[k].percent == m[k].percent)
      && (forall k | k in m && k != p :: r[k].children == m[k].children)
      && (forall k | k in m :: r[k].attrs == m[k].attrs)
      && r[newId].attrs == n.attrs
  {
    var m0 := m[newId := n];
    var m1 := Swap(m0, p, id, newId);
    AttachToEmpty(m1, newId, id);
    forall k | k in m ensures
      && (k != id ==> m1[k].parent == m[k].parent && m1[k].percent == m[k].percent)
      && (k != p ==> m1[k].children == m[k].children)
      && m1[k].attrs == m[k].attrs
    {
      SwapAt(m0, p, id, newId, k);
    }
    SwapAt(m0, p, id, newId, newId);
  }

  /** What a swap does to one node: only the two exchanged nodes change links and percents, and only the parent's list changes. */
  lemma SwapAt<A>(m: Nodes<A>, p: Uuid, outgoing: Uuid, incoming: Uuid, k: Uuid)
    requires p in m && outgoing in m && incoming in m && k in m
    ensures k != outgoing && k != incoming ==>
      Swap(m, p, outgoing, incoming)[k].parent == m[k].parent && Swap(m, p, outgoing, incoming)[k].percent == m[k].percent
    ensures k != p ==> Swap(m, p, outgoing, incoming)[k].children == m[k].children
    ensures Swap(m, p, outgoing, incoming)[k].attrs == m[k].attrs
  {
  }

  // ---------------------------------------------------------------------
  // Setting a size.

  /**
   * `Node.setPercentOfParent`: the node is fetched and given the percent;
   * if it has a parent, its siblings are refilled around it.
   */
  function SetPercentOfParent(t: Tree, id: Uuid, percent: Percent): (r: Step<()>)
    ensures r.tree.root == t.root && r.tree.nodes.Keys == t.nodes.Keys
    ensures id !in t.nodes ==> r == Step(t, Fail(NodeNotInTree(id, [])))
    ensures id in t.nodes && t.nodes[id].parent.None? ==>
      r.outcome.Ok? && r.tree.nodes == t.nodes[id := t.nodes[id].(percent := percent)]
    ensures !r.outcome.Rejected?
  {
    match GetOrError(t, id, None)
    case Fail(e) => Step(t, Fail(e))
    case Ok(n) =>
      var t1 := t.(nodes := SetPercent(t.nodes, id, percent));
      if n.parent.None? then Step(t1, Ok(()))
      else
        var s := PanelTree.Redistribute(t1, n.parent.value, [id]);
        if s.outcome.Succeeded() then Step(s.tree, Ok(())) else Step(s.tree, Propagate(s.outcome))
  }

  /** Percents read from nodes whose percents agree are the same. */
  lemma ChildPercentsAgree<A>(m: Nodes<A>, r: Nodes<A>, ids: seq<Uuid>)
    requires AllIn(m, ids) && AllIn(r, ids)
    requires forall i | 0 <= i < |ids| :: r[ids[i]].percent == m[ids[i]].percent
    ensures ChildPercents(r, ids) == ChildPercents(m, ids)
  {
  }

  /** A percent write leaves the links alone. */
  lemma SetPercentLinks<A>(m: Nodes<A>, id: Uuid, v: Percent)
    requires Linked(m) && Distinct(m) && id in m
    ensures Linked(SetPercent(m, id, v)) && Distinct(SetPercent(m, id, v))
  {
    var r := SetPercent(m, id, v);
    assert forall k | k in m :: r[k].parent == m[k].parent && r[k].children == m[k].children;
  }

  /** Resizing a child leaves the links alone and unsettles only its own parent. */
  lemma SetPercentKeeps<A>(m: Nodes<A>, id: Uuid, v: Percent)
    requires Wf(m) && id in m && m[id].parent.Some?
    ensures Linked(SetPercent(m, id, v)) && Distinct(SetPercent(m, id, v))
    ensures SizedBut(SetPercent(m, id, v), {m[id].parent.value})
  {
    var p := m[id].parent.value;
    var r := SetPercent(m, id, v);
    SetPercentLinks(m, id, v);
    forall k | k in r && k !in {p} && |r[k].children| > 0 && AllIn(r, r[k].children)
      ensures Sum(ChildPercents(r, r[k].children)) == 1.0
    {
      SiblingsKeepPercents(m, id, v, k);
    }
  }

  lemma SiblingsKeepPercents<A>(m: Nodes<A>, id: Uuid, v: Percent, k: Uuid)
    requires Wf(m) && id in m && m[id].parent.Some? && k in m && k != m[id].parent.value
    requires |m[k].children| > 0
    ensures AllIn(SetPercent(m, id, v), m[k].children)
    ensures Sum(ChildPercents(SetPercent(m, id, v), m[k].children)) == 1.0
  {
    var kids := m[k].children;
    LinkedAllIn(m, k);
    assert id !in kids by {
      if id in kids { ListedOnlyByParent(m, k, id); }
    }
    assert Sum(ChildPercents(m, kids)) == 1.0;
    OthersKeepPercents(m, id, v, kids);
  }

  /** Writing one node's percent leaves the percents of a list without it as they were. */
  lemma OthersKeepPercents<A>(m: Nodes<A>, id: Uuid, v: Percent, kids: seq<Uuid>)
    requires id in m && AllIn(m, kids) && id !in kids
    ensures AllIn(SetPercent(m, id, v), kids)
    ensures ChildPercents(SetPercent(m, id, v), kids) == ChildPercents(m, kids)
  {
    var r := SetPercent(m, id, v);
    forall i | 0 <= i < |kids| ensures r[kids[i]].percent == m[kids[i]].percent {
      assert kids[i] in kids;
    }
    ChildPercentsAgree(m, r, kids);
  }

  /** Once the node is found with a parent kind as parent, sizing it is the store's write and refill. */
  lemma SetPercentOfParentUnfolds(t: Tree, id: Uuid, percent: Percent)
    requires id in t.nodes && t.nodes[id].parent.Some?
    requires t.nodes[id].parent.value in t.nodes && IsParent(t.nodes[t.nodes[id].parent.value])
    ensures var refill := PanelStore.Redistribute(SetPercent(t.nodes, id, percent), t.nodes[id].parent.value, [id]);
      refill.1.Ok? ==> SetPercentOfParent(t, id, percent) == Step(t.(nodes := refill.0), Ok(()))
  {
    RefillIsStore(t.(nodes := SetPercent(t.nodes, id, percent)), t.nodes[id].parent.value, [id]);
  }

  /**
   * In a well-formed store, writing a child's percent and refilling its
   * siblings around it succeeds when it has a sibling, and leaves the store
   * well formed with the child at the written percent; only the siblings'
   * percents change.
   */
  lemma SizeAmongSiblings<A>(m: Nodes<A>, id: Uuid, percent: Percent)
    requires Wf(m) && id in m && m[id].parent.Some? && m[id].parent.value in m
    requires exists c | c in m[m[id].parent.value].children :: c != id
    ensures var refill := PanelStore.Redistribute(SetPercent(m, id, percent), m[id].parent.value, [id]);
      && refill.1.Ok?
      && Wf(refill.0)
      && refill.0[id].percent == percent
      && (forall k | k in m :: refill.0[k] == m[k].(percent := refill.0[k].percent))
      && (forall k | k in m && k !in m[m[id].parent.value].children :: refill.0[k] == m[k])
  {
    var p := m[id].parent.value;
    var kids := m[p].children;
    assert id in kids;
    var m1 := SetPercent(m, id, percent);
    SetPercentKeeps(m, id, percent);
    assert SizedBut(m1, {} + {p});
    assert m1[p].children == kids;
    LinkedAllIn(m1, p);
    ExcludedSumOne(m1, kids, id);
    RedistributeSizes(m1, p, [id], {});
    RedistributeMissingListed(m1, p, [id]);
    var c :| c in kids && c != id;
    assert c !in [id];
    var r := PanelStore.Redistribute(m1, p, [id]);
    assert r.1.Ok?;
    SizedButNothing(r.0);
    RefillFrame(m, r.0, id, percent, kids);
  }

  /** A refill that kept the written child and touched only its siblings' percents, read against the store before the write. */
  lemma RefillFrame<A>(m: Nodes<A>, r: Nodes<A>, id: Uuid, percent: Percent, kids: seq<Uuid>)
    requires id in m && id in kids && r.Keys == m.Keys
    requires forall k | k in m :: r[k] == SetPercent(m, id, percent)[k].(percent := r[k].percent)
    requires forall k | k in m && (k !in kids || k in [id]) :: r[k] == SetPercent(m, id, percent)[k]
    ensures r[id].percent == percent
    ensures forall k | k in m :: r[k] == m[k].(percent := r[k].percent)
    ensures forall k | k in m && k !in kids :: r[k] == m[k]
  {
    assert id in [id];
  }

  /**
   * On a valid tree, sizing a node that has a sibling always succeeds and
   * keeps the tree valid: the node holds the given percent, its siblings
   * fill the rest, and nodes outside the family are untouched.
   */
  lemma SetPercentOfParentKeepsValid(t: Tree, id: Uuid, percent: Percent)
    requires Valid(t) && id in t.nodes && t.nodes[id].parent.Some?
    requires exists c | c in t.nodes[t.nodes[id].parent.value].children :: c != id
    ensures SetPercentOfParent(t, id, percent).outcome.Ok?
    ensures Valid(SetPercentOfParent(t, id, percent).tree)
    ensures SetPercentOfParent(t, id, percent).tree.nodes[id].percent == percent
    ensures forall k | k in t.nodes ::
      SetPercentOfParent(t, id, percent).tree.nodes[k] == t.nodes[k].(percent := SetPercentOfParent(t, id, percent).tree.nodes[k].percent)
    ensures forall k | k in t.nodes && k !in t.nodes[t.nodes[id].parent.value].children ::
      SetPercentOfParent(t, id, percent).tree.nodes[k] == t.nodes[k]
  {
    var p := t.nodes[id].parent.value;
    assert id in t.nodes[p].children;
    ListerIsParent(t, p, id);
    SizeAmongSiblings(t.nodes, id, percent);
    SetPercentOfParentUnfolds(t, id, percent);
    KeepsValid(t, SetPercentOfParent(t, id, percent).tree);
  }

  /** With one listed child excluded, the excluded sum is that child's percent. */
  lemma {:induction false} ExcludedSumOne<A>(m: Nodes<A>, ids: seq<Uuid>, x: Uuid)
    requires AllIn(m, ids) && NoDup(ids) && x in ids
    ensures ExcludedSum(m, ids, [x]) == m[x].percent
    decreases |ids|
  {
    assert AllIn(m, ids[1..]);
    NoDupTail(ids);
    if ids[0] == x {
      ExcludedSumAbsent(m, ids[1..], x);
    } else {
      ExcludedSumOne(m, ids[1..], x);
    }
  }

  /** With the excluded child not listed, nothing is excluded. */
  lemma {:induction false} ExcludedSumAbsent<A>(m: Nodes<A>, ids: seq<Uuid>, x: Uuid)
    requires AllIn(m, ids) && x !in ids
    ensures ExcludedSum(m, ids, [x]) == 0.0
    decreases |ids|
  {
    if |ids| > 0 {
      assert AllIn(m, ids[1..]);
      ExcludedSumAbsent(m, ids[1..], x);
    }
  }
}
