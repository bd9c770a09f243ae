/**
 * The second-generation panel store of the app shell
 * (the `panels` object of app/src/panels2/panel.ts): an id-keyed map of
 * panels with a debug name, a split direction, a percent of the parent, an
 * optional parent and a children list. The root is the panel with the fixed
 * id "__root". Handlers that `return Effect.fail(..)` from a generator turn
 * the call away without failing it; a failure inside the `runSync` of the
 * child loop is thrown, and so surfaces as a defect.
 */
module Panels2 {
  import opened Wrappers
  import opened Percents
  import opened PanelSizing
  import opened PanelStore
  import opened PanelSubtree
  import Panels3

  /** The name of the root panel. */
  const RootId: Uuid := "__root"

  datatype Attrs = Attrs(dbgName: string, layout: Panels3.Layout)

  type Panel = Node<Attrs>

  datatype Error =
    | PanelDoesNotExist(id: Uuid, parentList: seq<Uuid>)
    | CannotDeleteRootPanel

  /** The store after an operation's writes, and what its caller observes. */
  datatype Step<+T> = Step(nodes: Nodes<Attrs>, outcome: Outcome<T, Error>)

  /**
   * The links agree, no list repeats, the root is present and parentless,
   * and no panel has the empty id (which the source's truthiness tests on
   * parent ids would pass over). This generation does not keep sizes.
   */
  predicate Valid<A>(m: Nodes<A>)
  {
    Linked(m) && Distinct(m) && RootId in m && m[RootId].parent.None? && "" !in m
  }

  /** The props of `newPanelNode`: the debug name is required, the layout and percent default. */
  datatype Props = Props(dbgName: string, layout: Option<Panels3.Layout>, percent: Option<Percent>)

  /**
   * `newPanelNode`: the panel is written under the given id (the source's
   * fresh uuid when none is given), parentless and childless, horizontal
   * and filling its parent unless the props say otherwise.
   */
  function NewPanelNode(m: Nodes<Attrs>, props: Props, newId: Uuid): (r: (Nodes<Attrs>, Uuid))
    ensures r.1 == newId && r.0.Keys == m.Keys + {newId}
    ensures forall k | k in m && k != newId :: r.0[k] == m[k]
    ensures r.0[newId].parent.None? && r.0[newId].children == []
    ensures r.0[newId].attrs == Attrs(props.dbgName, GetOr(props.layout, Panels3.Horizontal))
    ensures r.0[newId].percent == GetOr(props.percent, 1.0)
  {
    var n := Node(None, GetOr(props.percent, 1.0), [], Attrs(props.dbgName, GetOr(props.layout, Panels3.Horizontal)));
    (m[newId := n], newId)
  }

  /** `createRootPanelNode`: a panel named "root" under the root id; on an empty store that is a valid tree. */
  function CreateRootPanelNode(m: Nodes<Attrs>): (r: (Nodes<Attrs>, Uuid))
    ensures r.1 == RootId && RootId in r.0 && r.0[RootId].attrs.dbgName == "root"
    ensures m == map[] ==> Valid(r.0) && r.0.Keys == {RootId}
  {
    NewPanelNode(m, Props("root", None, None), RootId)
  }

  /** The parent tag of a lookup: an absent or empty parent id (both falsy) adds none. */
  function Tag(parentId: Option<Uuid>): (r: seq<Uuid>)
    ensures |r| <= 1
    ensures |r| == 1 <==> parentId.Some? && parentId.value != ""
    ensures |r| == 1 ==> r[0] == parentId.value
  {
    if parentId.Some? && parentId.value != "" then [parentId.value] else []
  }

  /** `getPanel`: a missing panel fails, tagged with the given parent. */
  function GetPanel(m: Nodes<Attrs>, id: Uuid, parentId: Option<Uuid>): (r: Outcome<Panel, Error>)
    ensures r.Ok? || r.Fail?
    ensures r.Fail? <==> id !in m
    ensures r.Fail? ==> r.error == PanelDoesNotExist(id, Tag(parentId))
    ensures r.Ok? ==> r.value == m[id]
  {
    if id in m then Ok(m[id]) else Fail(PanelDoesNotExist(id, Tag(parentId)))
  }

  /**
   * `addChild`: the parent and the child are fetched, each failure tagged
   * with the parent, and the store's `Attach` runs with no check that the
   * child is free.
   */
  function AddChild(m: Nodes<Attrs>, parent: Uuid, child: Uuid): (r: Step<()>)
    ensures r.nodes.Keys == m.Keys
    ensures !r.outcome.Rejected?
    ensures parent !in m ==> r == Step(m, Fail(PanelDoesNotExist(parent, Tag(Some(parent)))))
    ensures parent in m && child !in m ==> r == Step(m, Fail(PanelDoesNotExist(child, Tag(Some(parent)))))
    ensures r.outcome.Fail? && parent in m && child in m ==>
      exists c | c in m[parent].children :: r.outcome.error == PanelDoesNotExist(c, Tag(Some(parent)))
  {
    match GetPanel(m, parent, Some(parent))
    case Fail(e) => Step(m, Fail(e))
    case Ok(_) =>
      match GetPanel(m, child, Some(parent))
      case Fail(e) => Step(m, Fail(e))
      case Ok(_) =>
        var (m1, o) := Attach(m, parent, child);
        AttachMissingListed(m, parent, child);
        match o
        case Ok(_) => Step(m1, Ok(()))
        case Fail(missing) => Step(m1, Fail(PanelDoesNotExist(missing, Tag(Some(parent)))))
        case Defect => Step(m1, Defect)
  }

  /** Adding a free panel other than the root keeps a valid store valid and appends it. */
  lemma AddChildKeepsValid(m: Nodes<Attrs>, parent: Uuid, child: Uuid)
    requires Valid(m) && Sized(m) && parent in m && child in m && child != RootId && m[child].parent.None?
    ensures AddChild(m, parent, child).outcome.Ok?
    ensures Valid(AddChild(m, parent, child).nodes) && Sized(AddChild(m, parent, child).nodes)
    ensures AddChild(m, parent, child).nodes[parent].children == m[parent].children + [child]
    ensures AddChild(m, parent, child).nodes[child].parent == Some(parent)
  {
    AttachKeepsWf(m, parent, child);
  }

  /**
   * Without the free-child check, a successful add of a panel that another
   * parent lists leaves that parent listing a child whose link now points
   * elsewhere.
   */
  lemma AddChildOfParentedBreaksLinks(m: Nodes<Attrs>, parent: Uuid, child: Uuid)
    requires Linked(m) && parent in m && child in m && m[child].parent.Some? && m[child].parent.value != parent
    ensures AddChild(m, parent, child).outcome.Ok? ==> !Linked(AddChild(m, parent, child).nodes)
  {
    var q := m[child].parent.value;
    var r := AddChild(m, parent, child);
    if r.outcome.Ok? {
      assert r.nodes[q].children == m[q].children;
      AttachLinksChild(m, parent, child);
      assert r.nodes[child].parent == Some(parent);
    }
  }

  /**
   * `update`: the panel is fetched and the given props replace its fields.
   */
  function Update(m: Nodes<Attrs>, id: Uuid, props: Props3): (r: Step<()>)
    ensures r.nodes.Keys == m.Keys
    ensures id !in m ==> r == Step(m, Fail(PanelDoesNotExist(id, [])))
    ensures id in m ==> r.outcome.Ok?
    ensures forall k | k in m && k != id :: r.nodes[k] == m[k]
    ensures id in m ==>
      && r.nodes[id].parent == m[id].parent && r.nodes[id].children == m[id].children
      && r.nodes[id].percent == GetOr(props.percent, m[id].percent)
      && r.nodes[id].attrs == Attrs(GetOr(props.dbgName, m[id].attrs.dbgName), GetOr(props.layout, m[id].attrs.layout))
  {
    match GetPanel(m, id, None)
    case Fail(e) => Step(m, Fail(e))
    case Ok(n) =>
      var u := n.(percent := GetOr(props.percent, n.percent),
                  attrs := Attrs(GetOr(props.dbgName, n.attrs.dbgName), GetOr(props.layout, n.attrs.layout)));
      Step(m[id := u], Ok(()))
  }

  /** The optional props of `update`. */
  datatype Props3 = Props3(dbgName: Option<string>, layout: Option<Panels3.Layout>, percent: Option<Percent>)

  /** An update keeps a valid store valid, and keeps the sizes when it leaves the percent alone. */
  lemma UpdateKeepsValid(m: Nodes<Attrs>, id: Uuid, props: Props3)
    requires Valid(m)
    ensures Valid(Update(m, id, props).nodes)
    ensures props.percent.None? && Sized(m) ==> Sized(Update(m, id, props).nodes)
  {
    var r := Update(m, id, props).nodes;
    assert SameLinks(m, r);
    SameLinksKeep(m, r);
    if props.percent.None? && Sized(m) {
      assert SameShape(m, r);
      SameShapeKeepsWf(m, r);
    }
  }

  /** Applying the same update twice is applying it once. */
  lemma UpdateIdempotent(m: Nodes<Attrs>, id: Uuid, props: Props3)
    ensures Update(Update(m, id, props).nodes, id, props) == Update(m, id, props)
  {
  }

  /** The percents of the listed children that exist, in order; missing ones are skipped. */
  function PresentPercents(m: Nodes<Attrs>, ids: seq<Uuid>): (r: seq<real>)
    ensures AllIn(m, ids) ==> r == ChildPercents(m, ids)
  {
    if |ids| == 0 then []
    else
      var rest := PresentPercents(m, ids[1..]);
      assert AllIn(m, ids) ==> AllIn(m, ids[1..]) && ChildPercents(m, ids) == [m[ids[0]].percent] + ChildPercents(m, ids[1..]);
      if ids[0] in m then [m[ids[0]].percent] + rest else rest
  }

  function Abs(x: real): (r: real)
    ensures r >= 0.0 && (r == x || r == -x)
  {
    if x < 0.0 then -x else x
  }

  /**
   * `validateChildrenSizes`: reading a missing panel throws; a panel
   * without children is fine; otherwise the present children's percents
   * are summed, fine iff the sum is exactly 1, with the distance from 1 as
   * the difference.
   */
  function ValidateChildrenSizes(m: Nodes<Attrs>, id: Uuid): (r: Outcome<(bool, real), Error>)
    ensures r.Ok? <==> id in m
    ensures r.Defect? <==> id !in m
    ensures r.Ok? ==> r.value.1 >= 0.0 && (r.value.0 <==> r.value.1 == 0.0)
    ensures r.Ok? && m[id].children != [] ==> r.value.1 == Abs(Sum(PresentPercents(m, m[id].children)) - 1.0)
  {
    if id !in m then Defect
    else if m[id].children == [] then Ok((true, 0.0))
    else
      var sum := Sum(PresentPercents(m, m[id].children));
      Ok((sum == 1.0, Abs(sum - 1.0)))
  }

  /** A linked and sized store checks out at every panel. */
  lemma SizedChecksOut(m: Nodes<Attrs>, id: Uuid)
    requires Linked(m) && Sized(m) && id in m
    ensures ValidateChildrenSizes(m, id) == Ok((true, 0.0))
  {
    LinkedAllIn(m, id);
  }

  // ---------------------------------------------------------------------
  // Deleting a subtree.

  /**
   * The unhook of `deletePanel`: the parent's list loses the entry at the
   * index `findIndex` gives (the last entry when the panel is not listed),
   * and the panel loses its parent link.
   */
  function Unhooked<A>(m: Nodes<A>, id: Uuid, p: Uuid): (r: Nodes<A>)
    requires id in m && p in m
    ensures r.Keys == m.Keys
    ensures forall k | k in m && k != p :: r[k].children == m[k].children
  {
    var cs := RemoveAt(m[p].children, IndexOf(m[p].children, id));
    var m1 := m[p := m[p].(children := cs)];
    m1[id := m1[id].(parent := None)]
  }

  /** Every child listed by a deleted panel is deleted too, the root aside. */
  predicate SubtreeGone<A>(m: Nodes<A>, r: Nodes<A>)
  {
    ListsGone(m, r, RootId)
  }

  /**
   * `deletePanel` of `id`, with `visiting` the ids on the recursion path
   * and `universe` the ids of the store the first call saw. The root is
   * turned away; a missing panel or parent fails; with `removeFromParent`
   * and a (non-empty) parent id the panel is unhooked; its children are deleted in turn without
   * unhooking; finally its entry goes.
   */
  function DeleteFrom(m: Nodes<Attrs>, id: Uuid, removeFromParent: bool, universe: set<Uuid>, visiting: set<Uuid>): (r: Step<()>)
    requires m.Keys <= universe && visiting <= universe
    ensures r.nodes.Keys <= m.Keys
    ensures r.outcome.Rejected? <==> id == RootId
    ensures r.outcome.Rejected? ==> r.nodes == m
    ensures id != RootId && id !in m ==> r == Step(m, Fail(PanelDoesNotExist(id, [])))
    ensures r.outcome.Fail? ==> r.nodes == m
    ensures r.outcome.Ok? ==> id !in r.nodes
    ensures RootId in m ==> RootId in r.nodes
    ensures !removeFromParent ==> forall k | k in r.nodes :: r.nodes[k] == m[k]
    ensures !removeFromParent && r.outcome.Ok? ==> SubtreeGone(m, r.nodes)
    decreases |universe - visiting|, 1, 0
  {
    if id == RootId then Step(m, Rejected)
    else match GetPanel(m, id, None)
    case Fail(e) => Step(m, Fail(e))
    case Ok(n) =>
      if removeFromParent && n.parent.Some? && n.parent.value != "" then
        var p := n.parent.value;
        match GetPanel(m, p, None)
        case Fail(e) => Step(m, Fail(e))
        case Ok(_) =>
          Finish(Unhooked(m, id, p), id, universe, visiting)
      else
        Finish(m, id, universe, visiting)
  }

  /** The child loop and the final delete of `deletePanel`. */
  function Finish(m: Nodes<Attrs>, id: Uuid, universe: set<Uuid>, visiting: set<Uuid>): (r: Step<()>)
    requires m.Keys <= universe && visiting <= universe
    requires id in m && id != RootId
    ensures r.nodes.Keys <= m.Keys
    ensures r.outcome.Ok? || r.outcome.Defect?
    ensures r.outcome.Ok? ==> id !in r.nodes
    ensures RootId in m ==> RootId in r.nodes
    ensures forall k | k in r.nodes :: r.nodes[k] == m[k]
    ensures r.outcome.Ok? ==> SubtreeGone(m, r.nodes)
    decreases |universe - visiting|, 0, 0
  {
    var kids := m[id].children;
    if kids == [] then Step(m - {id}, Ok(()))
    else if id in visiting then Step(m, Defect)
    else
      assert universe - (visiting + {id}) < universe - visiting;
      var s := DeleteAll(m, kids, universe, visiting + {id});
      if s.outcome.Ok? then Step(s.nodes - {id}, Ok(())) else Step(s.nodes, Defect)
  }

  /**
   * The child loop: each child is deleted without unhooking. The root as a
   * child is turned away and the loop goes on; any failure or defect of a
   * child is thrown by `runSync`, so the loop ends in a defect with the
   * earlier deletes done.
   */
  function DeleteAll(m: Nodes<Attrs>, kids: seq<Uuid>, universe: set<Uuid>, visiting: set<Uuid>): (r: Step<()>)
    requires m.Keys <= universe && visiting <= universe
    ensures r.nodes.Keys <= m.Keys
    ensures r.outcome.Ok? || r.outcome.Defect?
    ensures forall k | k in r.nodes :: r.nodes[k] == m[k]
    ensures RootId in m ==> RootId in r.nodes
    ensures r.outcome.Ok? ==> forall c | c in kids :: c !in r.nodes || c == RootId
    ensures r.outcome.Ok? ==> SubtreeGone(m, r.nodes)
    decreases |universe - visiting|, 2, |kids|
  {
    if |kids| == 0 then Step(m, Ok(()))
    else
      var s := DeleteFrom(m, kids[0], false, universe, visiting);
      if !s.outcome.Succeeded() then Step(s.nodes, Defect)
      else
        var rest := DeleteAll(s.nodes, kids[1..], universe, visiting);
        assert forall c | c in kids :: c == kids[0] || c in kids[1..];
        rest
  }

  /** `deletePanel` as called: the recursion starts with the whole store and an empty path. */
  function DeletePanel(m: Nodes<Attrs>, id: Uuid, removeFromParent: bool): (r: Step<()>)
    ensures r.nodes.Keys <= m.Keys
    ensures r.outcome.Rejected? <==> id == RootId
    ensures r.outcome.Rejected? ==> r.nodes == m
    ensures id != RootId && id !in m ==> r == Step(m, Fail(PanelDoesNotExist(id, [])))
    ensures r.outcome.Ok? ==> id !in r.nodes
    ensures RootId in m ==> RootId in r.nodes
  {
    DeleteFrom(m, id, removeFromParent, m.Keys, {})
  }

  /** The child loop deletes only the listed children and what deleted panels listed. */
  lemma {:induction false} DeleteAllListed(m: Nodes<Attrs>, kids: seq<Uuid>, universe: set<Uuid>, visiting: set<Uuid>)
    requires m.Keys <= universe && visiting <= universe
    ensures DeleteAll(m, kids, universe, visiting).outcome.Ok? ==>
      DeletedListed(m, DeleteAll(m, kids, universe, visiting).nodes, set c | c in kids)
    decreases |universe - visiting|, 2, |kids|
  {
    if |kids| > 0 {
      var s := DeleteFrom(m, kids[0], false, universe, visiting);
      var r := DeleteAll(m, kids, universe, visiting);
      if r.outcome.Ok? {
        assert s.outcome.Ok? || s.outcome.Rejected?;
        if kids[0] != RootId && kids[0] in m {
          FinishListed(m, kids[0], universe, visiting);
        }
        DeleteAllListed(s.nodes, kids[1..], universe, visiting);
        forall d | d in m && d !in r.nodes && d !in (set c | c in kids)
          ensures ListedByDeleted(m, r.nodes, d)
        {
          if d in s.nodes {
            assert d !in (set c | c in kids[1..]);
            var q :| q in s.nodes && q !in r.nodes && d in s.nodes[q].children;
            assert q in m && m[q] == s.nodes[q];
          } else {
            assert d != kids[0];
            var q :| q in m && q !in s.nodes && d in m[q].children;
            assert q !in r.nodes;
          }
        }
      }
    }
  }

  /** Past the unhook, a delete removes the panel itself and only what deleted panels listed. */
  lemma {:induction false} FinishListed(m: Nodes<Attrs>, id: Uuid, universe: set<Uuid>, visiting: set<Uuid>)
    requires m.Keys <= universe && visiting <= universe
    requires id in m && id != RootId
    ensures Finish(m, id, universe, visiting).outcome.Ok? ==>
      DeletedListed(m, Finish(m, id, universe, visiting).nodes, {id})
    decreases |universe - visiting|, 0, 0
  {
    var kids := m[id].children;
    var r := Finish(m, id, universe, visiting);
    if r.outcome.Ok? && kids != [] {
      assert id !in visiting;
      assert universe - (visiting + {id}) < universe - visiting;
      var s := DeleteAll(m, kids, universe, visiting + {id});
      DeleteAllListed(m, kids, universe, visiting + {id});
      forall d | d in m && d !in r.nodes && d != id
        ensures ListedByDeleted(m, r.nodes, d)
      {
        if d !in (set c | c in kids) {
          var q :| q in m && q !in s.nodes && d in m[q].children;
          assert q !in r.nodes;
        } else {
          assert id !in r.nodes;
        }
      }
    }
  }

  /** On a valid store the unhook is the store's detach: the parent lists the panel once, at the index found. */
  lemma UnhookIsDetach<A>(m: Nodes<A>, id: Uuid)
    requires Valid(m) && id in m && m[id].parent.Some?
    ensures m[id].parent.value in m
    ensures Unhooked(m, id, m[id].parent.value) == Detach(m, m[id].parent.value, id)
    ensures Linked(Detach(m, m[id].parent.value, id)) && Distinct(Detach(m, m[id].parent.value, id))
  {
    var p := m[id].parent.value;
    RemoveFoundIsWithout(m[p].children, id);
    assert SizedBut(m, m.Keys);
    DetachLinks(m, p, id, m.Keys);
  }

  /**
   * Deleting a panel of a valid store, unhooking it as the default does,
   * leaves a valid store whenever it succeeds. Sizes are not kept: the
   * siblings are not refilled.
   */
  lemma DeleteKeepsValid(m: Nodes<Attrs>, id: Uuid)
    requires Valid(m)
    ensures DeletePanel(m, id, true).outcome.Ok? ==> Valid(DeletePanel(m, id, true).nodes)
  {
    if id != RootId && id in m {
      var u := m.Keys;
      var m1 := if m[id].parent.Some? then Detach(m, m[id].parent.value, id) else m;
      if m[id].parent.Some? {
        UnhookIsDetach(m, id);
      }
      assert DeletePanel(m, id, true) == Finish(m1, id, u, {});
      FinishKeepsLinked(m1, id, u);
    }
  }

  /** Past the unhook, a successful delete of a parentless panel keeps the links in agreement. */
  lemma FinishKeepsLinked(m: Nodes<Attrs>, id: Uuid, universe: set<Uuid>)
    requires Linked(m) && id in m && id != RootId && m[id].parent.None? && m.Keys <= universe
    requires RootId in m && m[RootId].parent.None?
    ensures Finish(m, id, universe, {}).outcome.Ok? ==> Linked(Finish(m, id, universe, {}).nodes)
  {
    var r := Finish(m, id, universe, {});
    if r.outcome.Ok? {
      FinishListed(m, id, universe, {});
      PrunedLinked(m, r.nodes, id, RootId);
    }
  }

  // ---------------------------------------------------------------------
  // Deleting from a store whose children lists do not loop.

  /**
   * On a valid store ranked by `rank`, deleting any panel but the root
   * without unhooking succeeds and removes exactly the panel's subtree,
   * leaving every other panel as it was.
   */
  lemma DeleteDetachedRemovesSubtree(m: Nodes<Attrs>, id: Uuid, rank: map<Uuid, nat>)
    requires Valid(m) && Ranked(m, rank) && id in m && id != RootId
    ensures DeletePanel(m, id, false) == Step(m - Sub(m, rank, id), Ok(()))
  {
    RootOutside(m, rank, id, RootId);
    assert DeletePanel(m, id, false) == Finish(m, id, m.Keys, {});
    FinishRemovesSub(m, rank, m, id, m.Keys, {});
  }

  /**
   * On a valid store ranked by `rank`, deleting any panel but the root,
   * with the unhook the default asks for, succeeds and removes exactly the
   * panel's subtree.
   */
  lemma DeleteRemovesSubtree(m: Nodes<Attrs>, id: Uuid, rank: map<Uuid, nat>)
    requires Valid(m) && Ranked(m, rank) && id in m && id != RootId
    ensures DeletePanel(m, id, true).outcome.Ok?
    ensures DeletePanel(m, id, true).nodes.Keys == m.Keys - Sub(m, rank, id)
  {
    if m[id].parent.None? {
      assert DeletePanel(m, id, true) == DeletePanel(m, id, false);
      DeleteDetachedRemovesSubtree(m, id, rank);
    } else {
      var p := m[id].parent.value;
      UnhookIsDetach(m, id);
      var m1 := Detach(m, p, id);
      assert id in m[p].children;
      DetachRanked(m, rank, p, id);
      assert DeletePanel(m, id, true) == Finish(m1, id, m.Keys, {});
      DetachShape(m, p, id);
      RootOutside(m1, rank, id, RootId);
      FinishRemovesSub(m1, rank, m1, id, m.Keys, {});
    }
  }

  /**
   * Past the unhook, with the subtree of `id` still as the ranked store
   * `m0` has it and every panel on the recursion path above `id`, the
   * delete succeeds and removes exactly that subtree.
   */
  lemma {:induction false} FinishRemovesSub(m0: Nodes<Attrs>, rank: map<Uuid, nat>, m: Nodes<Attrs>, id: Uuid, universe: set<Uuid>, visiting: set<Uuid>)
    requires Linked(m0) && Distinct(m0) && Ranked(m0, rank) && id in m0
    requires m.Keys <= universe && visiting <= universe && id != RootId
    requires Intact(m0, m, Sub(m0, rank, id)) && RootId !in Sub(m0, rank, id)
    requires forall v | v in visiting :: v in rank && rank[v] > rank[id]
    ensures Finish(m, id, universe, visiting) == Step(m - Sub(m0, rank, id), Ok(()))
    decreases rank[id], 1, 0
  {
    var kids := m0[id].children;
    var below := SubAll(m0, rank, kids, rank[id]);
    assert m[id] == m0[id];
    LinkedAllIn(m0, id);
    if kids == [] {
      assert m - Sub(m0, rank, id) == m - {id};
    } else {
      assert id !in visiting;
      DeleteAllRemovesSub(m0, rank, m, kids, id, universe, visiting + {id});
      SubSplit(m0, rank, id);
      MinusTwice(m, below, {id});
    }
  }

  /**
   * The child loop over distinct children of `p`, with their subtrees as
   * the ranked store `m0` has them and the recursion path at or above `p`,
   * succeeds and removes exactly those subtrees.
   */
  lemma {:induction false} DeleteAllRemovesSub(m0: Nodes<Attrs>, rank: map<Uuid, nat>, m: Nodes<Attrs>, kids: seq<Uuid>, p: Uuid, universe: set<Uuid>, visiting: set<Uuid>)
    requires Linked(m0) && Distinct(m0) && Ranked(m0, rank) && p in m0
    requires m.Keys <= universe && visiting <= universe
    requires NoDup(kids) && forall c | c in kids :: c in m0[p].children
    requires Intact(m0, m, SubAll(m0, rank, kids, rank[p])) && RootId !in SubAll(m0, rank, kids, rank[p])
    requires forall v | v in visiting :: v in rank && rank[v] >= rank[p]
    ensures DeleteAll(m, kids, universe, visiting) == Step(m - SubAll(m0, rank, kids, rank[p]), Ok(()))
    decreases rank[p], 0, |kids|
  {
    if |kids| == 0 {
      assert m - {} == m;
    } else {
      var c := kids[0];
      FirstApart(m0, rank, p, kids);
      var top := Sub(m0, rank, c);
      var rest := SubAll(m0, rank, kids[1..], rank[p]);
      assert SubAll(m0, rank, kids, rank[p]) == top + rest;
      assert DeleteFrom(m, c, false, universe, visiting) == Finish(m, c, universe, visiting);
      FinishRemovesSub(m0, rank, m, c, universe, visiting);
      NoDupTail(kids);
      DeleteAllRemovesSub(m0, rank, m - top, kids[1..], p, universe, visiting);
      MinusTwice(m, top, rest);
    }
  }

  /** A root split in two halves, "a" and "b". */
  function Halves(): (m: Nodes<Attrs>)
    ensures Valid(m) && Sized(m)
  {
    var a := Attrs("a", Panels3.Horizontal);
    var m := map[RootId := Node(None, 1.0, ["a", "b"], a),
                 "a" := Node(Some(RootId), 0.5, [], a),
                 "b" := Node(Some(RootId), 0.5, [], a)];
    assert "a" != RootId && "b" != RootId by { assert RootId[0] == '_'; }
    assert NoDup(["a", "b"]);
    assert Sum(ChildPercents(m, ["a", "b"])) == 1.0 by {
      assert ChildPercents(m, ["a", "b"]) == [0.5, 0.5];
      assert [0.5, 0.5][1..] == [0.5] && [0.5][1..] == [];
    }
    m
  }

  /**
   * The delete does not refill the siblings: with the root split in two
   * halves, deleting one half succeeds and leaves the root's children
   * summing to 0.5.
   */
  lemma DeleteLeavesGap()
    ensures DeletePanel(Halves(), "a", true).outcome.Ok?
    ensures Valid(DeletePanel(Halves(), "a", true).nodes)
    ensures ValidateChildrenSizes(DeletePanel(Halves(), "a", true).nodes, RootId) == Ok((false, 0.5))
  {
    var m := Halves();
    DeleteHalf();
    DeleteKeepsValid(m, "a");
    var r := DeletePanel(m, "a", true).nodes;
    assert "a" != RootId && "b" != RootId by { assert RootId[0] == '_'; }
    assert r[RootId].children == ["b"] && "b" in r && r["b"].percent == 0.5;
    HalfLeft(r);
  }

  lemma HalfLeft(r: Nodes<Attrs>)
    requires RootId in r && r[RootId].children == ["b"] && "b" in r && r["b"].percent == 0.5
    ensures ValidateChildrenSizes(r, RootId) == Ok((false, 0.5))
  {
    assert ["b"][1..] == [];
    assert PresentPercents(r, ["b"]) == [0.5];
    assert Sum([0.5]) == 0.5 by { assert [0.5][1..] == []; }
  }

  /** Deleting a leaf with a parent unhooks it from that parent and drops its entry. */
  lemma DeleteLeaf(m: Nodes<Attrs>, id: Uuid, p: Uuid)
    requires id in m && p in m && id != RootId && id != p && p != ""
    requires m[id].parent == Some(p) && m[id].children == []
    ensures DeletePanel(m, id, true) == Step(Unhooked(m, id, p) - {id}, Ok(()))
  {
    var m1 := Unhooked(m, id, p);
    assert m1[id].children == [];
    assert Finish(m1, id, m.Keys, {}) == Step(m1 - {id}, Ok(()));
  }

  /** Deleting "a" from the halves unhooks it from the root and drops its entry. */
  lemma DeleteHalf()
    ensures DeletePanel(Halves(), "a", true) == Step(Unhooked(Halves(), "a", RootId) - {"a"}, Ok(()))
    ensures Unhooked(Halves(), "a", RootId)[RootId].children == ["b"]
  {
    var m := Halves();
    assert "a" != RootId && "b" != RootId by { assert RootId[0] == '_'; }
    assert m[RootId].children == ["a", "b"] && m["a"].parent == Some(RootId) && m["a"].children == [];
    DeleteLeaf(m, "a", RootId);
    assert IndexOf(["a", "b"], "a") == 0;
    assert RemoveAt(["a", "b"], 0) == ["b"];
  }
}
