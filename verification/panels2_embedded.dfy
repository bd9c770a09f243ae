/**
 * The panel store embedded in the panels2 demo page (app/src/panels2.tsx):
 * the same id-keyed map with a fixed root id as the panels2 module, but a
 * panel holds only its debug name, links and children. Its handlers build
 * plain effects rather than generators, so every `Effect.fail` they return
 * is a real failure for the caller, and a child's failure travels up the
 * delete with the id of each panel on the way appended to it.
 */
module Panels2Embedded {
  import opened Wrappers
  import opened PanelStore
  import opened PanelSubtree
  import Panels2

  /** Panels keyed by id; a panel's attribute is its debug name (the store's percent is not used here and stays 1). */
  type Tree = Nodes<string>

  /** The store after an operation's writes, and what its caller observes. */
  datatype Step<+T> = Step(tree: Tree, outcome: Outcome<T, Panels2.Error>)

  /** `newPanelNode`: a parentless, childless panel written under the given id. */
  function NewPanelNode(m: Tree, dbgName: string, newId: Uuid): (r: (Tree, Uuid))
    ensures r.1 == newId && r.0.Keys == m.Keys + {newId}
    ensures forall k | k in m && k != newId :: r.0[k] == m[k]
    ensures r.0[newId].parent.None? && r.0[newId].children == [] && r.0[newId].attrs == dbgName
  {
    (m[newId := Node(None, 1.0, [], dbgName)], newId)
  }

  /** `createRootPanelNode`: on an empty store this makes a valid tree of one panel. */
  function CreateRootPanelNode(m: Tree): (r: (Tree, Uuid))
    ensures r.1 == Panels2.RootId && Panels2.RootId in r.0 && r.0[Panels2.RootId].attrs == "root"
    ensures m == map[] ==> Panels2.Valid(r.0) && r.0.Keys == {Panels2.RootId}
  {
    NewPanelNode(m, "root", Panels2.RootId)
  }

  /**
   * `addChild`: a missing parent or child fails before any write;
   * otherwise the child is appended to the parent's list and linked to it,
   * with no check that it was free.
   */
  function AddChild(m: Tree, parent: Uuid, child: Uuid): (r: Step<()>)
    ensures r.tree.Keys == m.Keys
    ensures parent !in m ==> r == Step(m, Fail(Panels2.PanelDoesNotExist(parent, [])))
    ensures parent in m && child !in m ==> r == Step(m, Fail(Panels2.PanelDoesNotExist(child, [])))
    ensures parent in m && child in m ==>
      && r.outcome.Ok?
      && r.tree[parent].children == m[parent].children + [child]
      && r.tree[child].parent == Some(parent)
      && (forall k | k in m && k != parent :: r.tree[k].children == m[k].children)
      && (forall k | k in m && k != child :: r.tree[k].parent == m[k].parent)
      && (forall k | k in m :: r.tree[k].attrs == m[k].attrs)
  {
    if parent !in m then Step(m, Fail(Panels2.PanelDoesNotExist(parent, [])))
    else if child !in m then Step(m, Fail(Panels2.PanelDoesNotExist(child, [])))
    else
      var m1 := SetChildren(m, parent, m[parent].children + [child]);
      Step(SetParent(m1, child, Some(parent)), Ok(()))
  }

  /** Adding a free panel other than the root keeps a valid store valid. */
  lemma AddChildKeepsValid(m: Tree, parent: Uuid, child: Uuid)
    requires Panels2.Valid(m) && parent in m && child in m && child != Panels2.RootId && m[child].parent.None?
    ensures AddChild(m, parent, child).outcome.Ok?
    ensures Panels2.Valid(AddChild(m, parent, child).tree)
  {
    var r := AddChild(m, parent, child).tree;
    assert Linked(r) by {
      AddedLinked(m, r, parent, child);
    }
    assert Distinct(r) by {
      forall k | k in m ensures child !in m[k].children {
        if child in m[k].children { ListedOnlyByParent(m, k, child); }
      }
      AppendNoDup(m[parent].children, child);
    }
  }

  lemma AppendNoDup(cs: seq<Uuid>, x: Uuid)
    requires NoDup(cs) && x !in cs
    ensures NoDup(cs + [x])
  {
    forall i, j | 0 <= i < j < |cs| + 1 ensures (cs + [x])[i] != (cs + [x])[j] {
      if j == |cs| {
        assert cs[i] in cs;
      }
    }
  }

  /** The links after appending a parentless child agree again. */
  lemma AddedLinked(m: Tree, r: Tree, parent: Uuid, child: Uuid)
    requires Linked(m) && parent in m && child in m && m[child].parent.None?
    requires r.Keys == m.Keys
    requires r[parent].children == m[parent].children + [child] && r[child].parent == Some(parent)
    requires forall k | k in m && k != parent :: r[k].children == m[k].children
    requires forall k | k in m && k != child :: r[k].parent == m[k].parent
    ensures Linked(r)
  {
    forall k, c | k in r && c in r[k].children
      ensures c in r && r[c].parent == Some(k)
    {
      if !(k == parent && c == child) {
        assert c in m[k].children;
        if c == child { ListedOnlyByParent(m, k, c); }
      }
    }
    forall k | k in r && r[k].parent.Some?
      ensures r[k].parent.value in r && k in r[r[k].parent.value].children
    {
      if k != child {
        var q := m[k].parent.value;
        assert k in m[q].children;
      }
    }
  }

  /** Without the free-child check, adding a panel that another parent lists leaves that parent listing a child linked elsewhere. */
  lemma AddChildOfParentedBreaksLinks(m: Tree, parent: Uuid, child: Uuid)
    requires Linked(m) && parent in m && child in m && m[child].parent.Some? && m[child].parent.value != parent
    ensures AddChild(m, parent, child).outcome.Ok? && !Linked(AddChild(m, parent, child).tree)
  {
    var q := m[child].parent.value;
    var r := AddChild(m, parent, child).tree;
    assert child in r[q].children && r[child].parent == Some(parent);
  }

  /** The `mapError` of the child loop: a missing-panel failure gets the deleting panel's id appended; other failures pass. */
  function Tagged(e: Panels2.Error, id: Uuid): (r: Panels2.Error)
    ensures e.CannotDeleteRootPanel? ==> r == e
    ensures e.PanelDoesNotExist? ==> r == Panels2.PanelDoesNotExist(e.id, e.parentList + [id])
  {
    match e
    case PanelDoesNotExist(x, l) => Panels2.PanelDoesNotExist(x, l + [id])
    case CannotDeleteRootPanel => e
  }

  /**
   * A missing-panel failure of the delete of `id` names `id` itself with an
   * empty chain, or names a panel further down with a chain ending at `id`.
   */
  predicate ChainEndsAt(o: Outcome<(), Panels2.Error>, id: Uuid)
  {
    o.Fail? && o.error.PanelDoesNotExist? ==>
      if o.error.parentList == [] then o.error.id == id
      else o.error.parentList[|o.error.parentList| - 1] == id
  }

  /**
   * `deletePanel` of `id`, with `visiting` the ids on the recursion path
   * and `universe` the ids of the store the first call saw. The root and a
   * missing panel fail; with `removeFromParent` and a (non-empty) parent id
   * the panel is unhooked, and reading a missing parent throws; then its
   * children are deleted in turn without unhooking, the first failure
   * stopping the loop and travelling up; on success its entry goes.
   */
  function DeleteFrom(m: Tree, id: Uuid, removeFromParent: bool, universe: set<Uuid>, visiting: set<Uuid>): (r: Step<()>)
    requires m.Keys <= universe && visiting <= universe
    ensures r.tree.Keys <= m.Keys
    ensures !r.outcome.Rejected?
    ensures id == Panels2.RootId ==> r == Step(m, Fail(Panels2.CannotDeleteRootPanel))
    ensures id != Panels2.RootId && id !in m ==> r == Step(m, Fail(Panels2.PanelDoesNotExist(id, [])))
    ensures r.outcome.Ok? ==> id !in r.tree
    ensures Panels2.RootId in m ==> Panels2.RootId in r.tree
    ensures !removeFromParent ==> forall k | k in r.tree :: r.tree[k] == m[k]
    ensures !removeFromParent && r.outcome.Ok? ==> Panels2.SubtreeGone(m, r.tree)
    ensures ChainEndsAt(r.outcome, id)
    decreases |universe - visiting|, 1, 0
  {
    if id == Panels2.RootId then Step(m, Fail(Panels2.CannotDeleteRootPanel))
    else if id !in m then Step(m, Fail(Panels2.PanelDoesNotExist(id, [])))
    else if removeFromParent && m[id].parent.Some? && m[id].parent.value != "" then
      var p := m[id].parent.value;
      if p !in m then Step(m, Defect)
      else Finish(Panels2.Unhooked(m, id, p), id, universe, visiting)
    else
      Finish(m, id, universe, visiting)
  }

  /** The child loop and the final delete of `deletePanel`. */
  function Finish(m: Tree, id: Uuid, universe: set<Uuid>, visiting: set<Uuid>): (r: Step<()>)
    requires m.Keys <= universe && visiting <= universe
    requires id in m && id != Panels2.RootId
    ensures r.tree.Keys <= m.Keys
    ensures !r.outcome.Rejected?
    ensures r.outcome.Ok? ==> id !in r.tree
    ensures Panels2.RootId in m ==> Panels2.RootId in r.tree
    ensures forall k | k in r.tree :: r.tree[k] == m[k]
    ensures r.outcome.Ok? ==> Panels2.SubtreeGone(m, r.tree)
    ensures ChainEndsAt(r.outcome, id)
    decreases |universe - visiting|, 0, 0
  {
    var kids := m[id].children;
    if kids == [] then Step(m - {id}, Ok(()))
    else if id in visiting then Step(m, Defect)
    else
      assert universe - (visiting + {id}) < universe - visiting;
      var s := DeleteAll(m, kids, universe, visiting + {id});
      if s.outcome.Ok? then Step(s.tree - {id}, Ok(()))
      else if s.outcome.Fail? then Step(s.tree, Fail(Tagged(s.outcome.error, id)))
      else Step(s.tree, Defect)
  }

  /**
   * The child loop: each child is deleted without unhooking, and the first
   * failure or defect ends the loop with the earlier deletes done. A
   * missing-panel failure names a listed child, or carries a chain that
   * ends at one.
   */
  function DeleteAll(m: Tree, kids: seq<Uuid>, universe: set<Uuid>, visiting: set<Uuid>): (r: Step<()>)
    requires m.Keys <= universe && visiting <= universe
    ensures r.tree.Keys <= m.Keys
    ensures !r.outcome.Rejected?
    ensures forall k | k in r.tree :: r.tree[k] == m[k]
    ensures Panels2.RootId in m ==> Panels2.RootId in r.tree
    ensures r.outcome.Ok? ==> forall c | c in kids :: c !in r.tree
    ensures r.outcome.Ok? ==> Panels2.SubtreeGone(m, r.tree)
    ensures r.outcome.Fail? && r.outcome.error.PanelDoesNotExist? ==>
      if r.outcome.error.parentList == [] then r.outcome.error.id in kids
      else r.outcome.error.parentList[|r.outcome.error.parentList| - 1] in kids
    decreases |universe - visiting|, 2, |kids|
  {
    if |kids| == 0 then Step(m, Ok(()))
    else
      var s := DeleteFrom(m, kids[0], false, universe, visiting);
      if !s.outcome.Ok? then s
      else
        var rest := DeleteAll(s.tree, kids[1..], universe, visiting);
        assert forall c | c in kids[1..] :: c in kids;
        assert forall c | c in kids :: c == kids[0] || c in kids[1..];
        rest
  }

  /** `deletePanel` as called: the recursion starts with the whole store and an empty path. */
  function DeletePanel(m: Tree, id: Uuid, removeFromParent: bool): (r: Step<()>)
    ensures r.tree.Keys <= m.Keys
    ensures !r.outcome.Rejected?
    ensures id == Panels2.RootId ==> r == Step(m, Fail(Panels2.CannotDeleteRootPanel))
    ensures id != Panels2.RootId && id !in m ==> r == Step(m, Fail(Panels2.PanelDoesNotExist(id, [])))
    ensures r.outcome.Ok? ==> id !in r.tree
    ensures Panels2.RootId in m ==> Panels2.RootId in r.tree
    ensures ChainEndsAt(r.outcome, id)
  {
    DeleteFrom(m, id, removeFromParent, m.Keys, {})
  }

  /** The child loop deletes only the listed children and what deleted panels listed. */
  lemma {:induction false} DeleteAllListed(m: Tree, kids: seq<Uuid>, universe: set<Uuid>, visiting: set<Uuid>)
    requires m.Keys <= universe && visiting <= universe
    ensures DeleteAll(m, kids, universe, visiting).outcome.Ok? ==>
      DeletedListed(m, DeleteAll(m, kids, universe, visiting).tree, set c | c in kids)
    decreases |universe - visiting|, 2, |kids|
  {
    if |kids| > 0 {
      var s := DeleteFrom(m, kids[0], false, universe, visiting);
      var r := DeleteAll(m, kids, universe, visiting);
      if r.outcome.Ok? {
        assert s.outcome.Ok?;
        assert kids[0] != Panels2.RootId && kids[0] in m;
        FinishListed(m, kids[0], universe, visiting);
        DeleteAllListed(s.tree, kids[1..], universe, visiting);
        forall d | d in m && d !in r.tree && d !in (set c | c in kids)
          ensures ListedByDeleted(m, r.tree, d)
        {
          if d in s.tree {
            assert d !in (set c | c in kids[1..]);
            var q :| q in s.tree && q !in r.tree && d in s.tree[q].children;
            assert q in m && m[q] == s.tree[q];
          } else {
            assert d != kids[0];
            var q :| q in m && q !in s.tree && d in m[q].children;
            assert q !in r.tree;
          }
        }
      }
    }
  }

  /** Past the unhook, a delete removes the panel itself and only what deleted panels listed. */
  lemma {:induction false} FinishListed(m: Tree, id: Uuid, universe: set<Uuid>, visiting: set<Uuid>)
    requires m.Keys <= universe && visiting <= universe
    requires id in m && id != Panels2.RootId
    ensures Finish(m, id, universe, visiting).outcome.Ok? ==>
      DeletedListed(m, Finish(m, id, universe, visiting).tree, {id})
    decreases |universe - visiting|, 0, 0
  {
    var kids := m[id].children;
    var r := Finish(m, id, universe, visiting);
    if r.outcome.Ok? && kids != [] {
      assert id !in visiting;
      assert universe - (visiting + {id}) < universe - visiting;
      var s := DeleteAll(m, kids, universe, visiting + {id});
      DeleteAllListed(m, kids, universe, visiting + {id});
      forall d | d in m && d !in r.tree && d != id
        ensures ListedByDeleted(m, r.tree, d)
      {
        if d !in (set c | c in kids) {
          var q :| q in m && q !in s.tree && d in m[q].children;
          assert q !in r.tree;
        } else {
          assert id !in r.tree;
        }
      }
    }
  }

  /** Deleting a panel of a valid store, unhooking it as the default does, leaves a valid store whenever it succeeds. */
  lemma DeleteKeepsValid(m: Tree, id: Uuid)
    requires Panels2.Valid(m)
    ensures DeletePanel(m, id, true).outcome.Ok? ==> Panels2.Valid(DeletePanel(m, id, true).tree)
  {
    if id != Panels2.RootId && id in m {
      var u := m.Keys;
      var m1 := if m[id].parent.Some? then Detach(m, m[id].parent.value, id) else m;
      if m[id].parent.Some? {
        Panels2.UnhookIsDetach(m, id);
      }
      assert DeletePanel(m, id, true) == Finish(m1, id, u, {});
      FinishKeepsLinked(m1, id, u);
    }
  }

  /** Past the unhook, a successful delete of a parentless panel keeps the links in agreement. */
  lemma FinishKeepsLinked(m: Tree, id: Uuid, universe: set<Uuid>)
    requires Linked(m) && id in m && id != Panels2.RootId && m[id].parent.None? && m.Keys <= universe
    requires Panels2.RootId in m && m[Panels2.RootId].parent.None?
    ensures Finish(m, id, universe, {}).outcome.Ok? ==> Linked(Finish(m, id, universe, {}).tree)
  {
    var r := Finish(m, id, universe, {});
    if r.outcome.Ok? {
      FinishListed(m, id, universe, {});
      PrunedLinked(m, r.tree, id, Panels2.RootId);
    }
  }

  /**
   * Unlike the panels2 module, a root listed as a child fails the whole
   * delete: the loop stops there and nothing is deleted.
   */
  lemma RootChildFails(m: Tree, id: Uuid)
    requires id in m && id != Panels2.RootId && m[id].children == [Panels2.RootId]
    ensures DeletePanel(m, id, false) == Step(m, Fail(Panels2.CannotDeleteRootPanel))
  {
    assert DeleteFrom(m, Panels2.RootId, false, m.Keys, {id}) == Step(m, Fail(Panels2.CannotDeleteRootPanel));
    assert DeleteAll(m, [Panels2.RootId], m.Keys, {id}) == Step(m, Fail(Panels2.CannotDeleteRootPanel));
    assert Tagged(Panels2.CannotDeleteRootPanel, id) == Panels2.CannotDeleteRootPanel;
    assert Finish(m, id, m.Keys, {}) == Step(m, Fail(Panels2.CannotDeleteRootPanel));
  }

  // ---------------------------------------------------------------------
  // Deleting from a store whose children lists do not loop.

  /**
   * On a valid store ranked by `rank`, deleting any panel but the root
   * without unhooking succeeds and removes exactly the panel's subtree,
   * leaving every other panel as it was.
   */
  lemma DeleteDetachedRemovesSubtree(m: Tree, id: Uuid, rank: map<Uuid, nat>)
    requires Panels2.Valid(m) && Ranked(m, rank) && id in m && id != Panels2.RootId
    ensures DeletePanel(m, id, false) == Step(m - Sub(m, rank, id), Ok(()))
  {
    RootOutside(m, rank, id, Panels2.RootId);
    assert DeletePanel(m, id, false) == Finish(m, id, m.Keys, {});
    FinishRemovesSub(m, rank, m, id, m.Keys, {});
  }

  /**
   * On a valid store ranked by `rank`, deleting any panel but the root,
   * with the unhook the default asks for, succeeds and removes exactly the
   * panel's subtree.
   */
  lemma DeleteRemovesSubtree(m: Tree, id: Uuid, rank: map<Uuid, nat>)
    requires Panels2.Valid(m) && Ranked(m, rank) && id in m && id != Panels2.RootId
    ensures DeletePanel(m, id, true).outcome.Ok?
    ensures DeletePanel(m, id, true).tree.Keys == m.Keys - Sub(m, rank, id)
  {
    if m[id].parent.None? {
      assert DeletePanel(m, id, true) == DeletePanel(m, id, false);
      DeleteDetachedRemovesSubtree(m, id, rank);
    } else {
      var p := m[id].parent.value;
      Panels2.UnhookIsDetach(m, id);
      var m1 := Detach(m, p, id);
      assert id in m[p].children;
      DetachRanked(m, rank, p, id);
      assert DeletePanel(m, id, true) == Finish(m1, id, m.Keys, {});
      DetachShape(m, p, id);
      RootOutside(m1, rank, id, Panels2.RootId);
      FinishRemovesSub(m1, rank, m1, id, m.Keys, {});
    }
  }

  /**
   * Past the unhook, with the subtree of `id` still as the ranked store
   * `m0` has it and every panel on the recursion path above `id`, the
   * delete succeeds and removes exactly that subtree.
   */
  lemma {:induction false} FinishRemovesSub(m0: Tree, rank: map<Uuid, nat>, m: Tree, id: Uuid, universe: set<Uuid>, visiting: set<Uuid>)
    requires Linked(m0) && Distinct(m0) && Ranked(m0, rank) && id in m0
    requires m.Keys <= universe && visiting <= universe && id != Panels2.RootId
    requires Intact(m0, m, Sub(m0, rank, id)) && Panels2.RootId !in Sub(m0, rank, id)
    requires forall v | v in visiting :: v in rank && rank[v] > rank[id]
    ensures Finish(m, id, universe, visiting) == Step(m - Sub(m0, rank, id), Ok(()))
    decreases rank[id], 1, 0
  {
    var kids := m0[id].children;
    var below := SubAll(m0, rank, kids, rank[id]);
    assert m[id] == m0[id];
    LinkedAllIn(m0, id);
    if kids == [] {
      assert m - Sub(m0, rank, id) == m - {id};
    } else {
      assert id !in visiting;
      DeleteAllRemovesSub(m0, rank, m, kids, id, universe, visiting + {id});
      SubSplit(m0, rank, id);
      MinusTwice(m, below, {id});
    }
  }

  /**
   * The child loop over distinct children of `p`, with their subtrees as
   * the ranked store `m0` has them and the recursion path at or above `p`,
   * succeeds and removes exactly those subtrees.
   */
  lemma {:induction false} DeleteAllRemovesSub(m0: Tree, rank: map<Uuid, nat>, m: Tree, kids: seq<Uuid>, p: Uuid, universe: set<Uuid>, visiting: set<Uuid>)
    requires Linked(m0) && Distinct(m0) && Ranked(m0, rank) && p in m0
    requires m.Keys <= universe && visiting <= universe
    requires NoDup(kids) && forall c | c in kids :: c in m0[p].children
    requires Intact(m0, m, SubAll(m0, rank, kids, rank[p])) && Panels2.RootId !in SubAll(m0, rank, kids, rank[p])
    requires forall v | v in visiting :: v in rank && rank[v] >= rank[p]
    ensures DeleteAll(m, kids, universe, visiting) == Step(m - SubAll(m0, rank, kids, rank[p]), Ok(()))
    decreases rank[p], 0, |kids|
  {
    if |kids| == 0 {
      assert m - {} == m;
    } else {
      var c := kids[0];
      FirstApart(m0, rank, p, kids);
      var top := Sub(m0, rank, c);
      var rest := SubAll(m0, rank, kids[1..], rank[p]);
      assert SubAll(m0, rank, kids, rank[p]) == top + rest;
      assert DeleteFrom(m, c, false, universe, visiting) == Finish(m, c, universe, visiting);
      FinishRemovesSub(m0, rank, m, c, universe, visiting);
      NoDupTail(kids);
      DeleteAllRemovesSub(m0, rank, m - top, kids[1..], p, universe, visiting);
      MinusTwice(m, top, rest);
    }
  }
}
