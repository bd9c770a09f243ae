/**
 * Deleting a subtree of the third-generation panel tree (`deleteNode` in
 * app/src/panels3/Panel.ts).
 *
 * Like the renderer's destroy, the source recurses through children lists
 * without a guard against a list naming an ancestor; the model carries the
 * ids on the recursion path and reports a defect when one comes round
 * again. Unlike it, reaching the root raises `CannotDeleteRootPanel`, and a
 * child that raises it makes the whole delete fail with it.
 */
module Panels3Delete {
  import opened Wrappers
  import opened Percents
  import opened PanelSizing
  import opened PanelStore
  import opened Panels3
  import opened PanelSubtree

  /**
   * The first half of `deleteNode` with `removeFromParent`: the parent is
   * fetched, drops the node from its list, the node loses its parent link,
   * and the parent's children are refilled; a failed refill stops with
   * those writes done.
   */
  function Unhook(t: Tree, id: Uuid): (r: Step<()>)
    requires id in t.nodes && t.nodes[id].parent.Some?
    ensures r.tree.root == t.root && r.tree.nodes.Keys == t.nodes.Keys
    ensures !r.outcome.Rejected?
    ensures r.outcome.Fail? ==> r.outcome.error.PanelDoesNotExist?
    ensures forall k | k in t.nodes && k != t.nodes[id].parent.value :: r.tree.nodes[k].children == t.nodes[k].children
    ensures t.nodes[id].parent.value in t.nodes ==>
      var p := t.nodes[id].parent.value;
      r.tree.nodes[p].children == t.nodes[p].children || r.tree.nodes[p].children == Without(t.nodes[p].children, id)
  {
    var p := t.nodes[id].parent.value;
    match GetNode(t, p, None)
    case Fail(e) => Step(t, Fail(e))
    case Ok(_) =>
      var t1 := t.(nodes := Detach(t.nodes, p, id));
      DetachShape(t.nodes, p, id);
      RedistributeChildren(t1, p, [])
  }

  /** Every child listed by a deleted panel is deleted too: what a successful delete promises. */
  predicate SubtreeGone(t: Tree, r: Tree)
  {
    forall q, c | q in t.nodes && q !in r.nodes && c in t.nodes[q].children :: c !in r.nodes
  }

  /**
   * `deleteNode` of `id`, with `visiting` the ids on the recursion path and
   * `universe` the ids of the tree the first call saw.
   *
   * The root fails unchanged; a missing panel fails. With
   * `removeFromParent` and a parent, the panel is unhooked first, and the
   * rest runs on the tree that leaves.
   */
  function DeleteFrom(t: Tree, id: Uuid, removeFromParent: bool, universe: set<Uuid>, visiting: set<Uuid>): (r: Step<()>)
    requires t.nodes.Keys <= universe && visiting <= universe
    ensures r.tree.root == t.root && r.tree.nodes.Keys <= t.nodes.Keys
    ensures !r.outcome.Rejected?
    ensures id == t.root ==> r == Step(t, Fail(CannotDeleteRootPanel))
    ensures id != t.root && id !in t.nodes ==> r == Step(t, Fail(PanelDoesNotExist(id, [])))
    ensures r.outcome.Fail? && r.outcome.error.PanelDoesNotExist? ==> r.tree.nodes.Keys == t.nodes.Keys
    ensures r.outcome.Ok? ==> id !in r.tree.nodes
    ensures t.root in t.nodes ==> t.root in r.tree.nodes
    ensures !removeFromParent ==> forall k | k in r.tree.nodes :: r.tree.nodes[k] == t.nodes[k]
    ensures r.outcome.Ok? ==> SubtreeGone(t, r.tree)
    decreases |universe - visiting|, 1, 0
  {
    if id == t.root then Step(t, Fail(CannotDeleteRootPanel))
    else match GetNode(t, id, None)
    case Fail(e) => Step(t, Fail(e))
    case Ok(n) =>
      if removeFromParent && n.parent.Some? then
        var s1 := Unhook(t, id);
        if !s1.outcome.Succeeded() then Step(s1.tree, Propagate(s1.outcome))
        else
          var r := Finish(s1.tree, id, universe, visiting);
          assert r.outcome.Ok? ==> SubtreeGone(t, r.tree) by {
            if r.outcome.Ok? { UnhookedGone(t, s1.tree, r.tree, id); }
          }
          r
      else
        Finish(t, id, universe, visiting)
  }

  /**
   * The unhook only took `id` out of its parent's list, and a successful
   * delete removes `id`, so the closure against the unhooked tree carries
   * over to the tree before it.
   */
  lemma UnhookedGone(t: Tree, t1: Tree, r: Tree, id: Uuid)
    requires id in t.nodes && t.nodes[id].parent.Some?
    requires t1 == Unhook(t, id).tree
    requires SubtreeGone(t1, r) && id !in r.nodes && r.nodes.Keys <= t1.nodes.Keys
    ensures SubtreeGone(t, r)
  {
    var p := t.nodes[id].parent.value;
    forall q, c | q in t.nodes && q !in r.nodes && c in t.nodes[q].children
      ensures c !in r.nodes
    {
      if q == p && c != id {
        WithoutKeeps(t.nodes[p].children, id, c);
      }
    }
  }

  /** Filtering keeps every other element. */
  lemma WithoutKeeps(s: seq<Uuid>, x: Uuid, c: Uuid)
    requires c in s && c != x
    ensures c in Without(s, x)
  {
    var i :| 0 <= i < |s| && s[i] == c;
    assert Without(s, x)[..] == Without(s, x);
  }

  /**
   * The rest of `deleteNode` once the panel is found and, if asked,
   * unhooked: every listed child must exist (the first missing one fails,
   * tagged with the panel, before anything is deleted), then each child is
   * deleted in turn without unhooking, and finally the panel's entry goes.
   */
  function Finish(t: Tree, id: Uuid, universe: set<Uuid>, visiting: set<Uuid>): (r: Step<()>)
    requires t.nodes.Keys <= universe && visiting <= universe
    requires id in t.nodes && id != t.root
    ensures r.tree.root == t.root && r.tree.nodes.Keys <= t.nodes.Keys
    ensures !r.outcome.Rejected?
    ensures r.outcome.Fail? && r.outcome.error.PanelDoesNotExist? ==> r.tree.nodes.Keys == t.nodes.Keys
    ensures r.outcome.Ok? ==> id !in r.tree.nodes
    ensures t.root in t.nodes ==> t.root in r.tree.nodes
    ensures forall k | k in r.tree.nodes :: r.tree.nodes[k] == t.nodes[k]
    ensures r.outcome.Ok? ==> SubtreeGone(t, r.tree)
    ensures !AllIn(t.nodes, t.nodes[id].children) ==> MissingChildFails(t, id, r)
    decreases |universe - visiting|, 0, 0
  {
    var kids := t.nodes[id].children;
    match FirstMissing(t.nodes, kids)
    case Some(c) => Step(t, Fail(PanelDoesNotExist(c, [id])))
    case None =>
      if kids == [] then Step(t.(nodes := t.nodes - {id}), Ok(()))
      else if id in visiting then Step(t, Defect)
      else
        assert universe - (visiting + {id}) < universe - visiting;
        var s2 := DeleteAll(t, kids, universe, visiting + {id});
        if !s2.outcome.Succeeded() then Step(s2.tree, Propagate(s2.outcome))
        else Step(s2.tree.(nodes := s2.tree.nodes - {id}), Ok(()))
  }

  /**
   * A panel listing a child that has no node fails the delete with that
   * child's id, tagged with the panel's, before anything is written.
   */
  predicate MissingChildFails(t: Tree, id: Uuid, r: Step<()>)
    requires id in t.nodes
  {
    && r.tree == t
    && r.outcome.Fail? && r.outcome.error.PanelDoesNotExist?
    && r.outcome.error.parentList == [id]
    && r.outcome.error.id in t.nodes[id].children && r.outcome.error.id !in t.nodes
  }

  /**
   * The child loop of `deleteNode`: each listed child is deleted in turn
   * without unhooking. A child that is the root, or holds it below, fails
   * with `CannotDeleteRootPanel`, which is raised again; any other failure
   * (a missing grandchild) dies, and so does the loop on a defect.
   */
  function DeleteAll(t: Tree, kids: seq<Uuid>, universe: set<Uuid>, visiting: set<Uuid>): (r: Step<()>)
    requires t.nodes.Keys <= universe && visiting <= universe
    ensures r.tree.root == t.root && r.tree.nodes.Keys <= t.nodes.Keys
    ensures r.outcome.Ok? || r.outcome.Defect? || r.outcome == Fail(CannotDeleteRootPanel)
    ensures forall k | k in r.tree.nodes :: r.tree.nodes[k] == t.nodes[k]
    ensures t.root in t.nodes ==> t.root in r.tree.nodes
    ensures t.root in kids ==> !r.outcome.Ok?
    ensures r.outcome.Ok? ==> forall c | c in kids :: c !in r.tree.nodes
    ensures r.outcome.Ok? ==> SubtreeGone(t, r.tree)
    decreases |universe - visiting|, 2, |kids|
  {
    if |kids| == 0 then Step(t, Ok(()))
    else
      var s := DeleteFrom(t, kids[0], false, universe, visiting);
      if s.outcome == Fail(CannotDeleteRootPanel) then Step(s.tree, Fail(CannotDeleteRootPanel))
      else if !s.outcome.Ok? then Step(s.tree, Defect)
      else
        var rest := DeleteAll(s.tree, kids[1..], universe, visiting);
        assert forall c | c in kids :: c == kids[0] || c in kids[1..];
        rest
  }

  /** `deleteNode` as called: the recursion starts with the whole tree and an empty path. */
  function DeleteNode(t: Tree, id: Uuid, removeFromParent: bool): (r: Step<()>)
    ensures r.tree.root == t.root && r.tree.nodes.Keys <= t.nodes.Keys
    ensures !r.outcome.Rejected?
    ensures id == t.root ==> r == Step(t, Fail(CannotDeleteRootPanel))
    ensures id != t.root && id !in t.nodes ==> r == Step(t, Fail(PanelDoesNotExist(id, [])))
    ensures r.outcome.Ok? ==> id !in r.tree.nodes
    ensures t.root in t.nodes ==> t.root in r.tree.nodes
    ensures (&& id in t.nodes && id != t.root && (!removeFromParent || t.nodes[id].parent.None?)
             && !AllIn(t.nodes, t.nodes[id].children)) ==> MissingChildFails(t, id, r)
  {
    DeleteFrom(t, id, removeFromParent, t.nodes.Keys, {})
  }

  // ---------------------------------------------------------------------
  // What a successful delete leaves of a valid tree.

  /**
   * Unhooking a panel of a valid tree succeeds and keeps the tree valid:
   * the panel is parentless and unlisted, and its old parent lists the
   * rest.
   */
  lemma UnhookKeepsValid(t: Tree, id: Uuid)
    requires Valid(t) && id in t.nodes && t.nodes[id].parent.Some?
    ensures Unhook(t, id).outcome.Ok?
    ensures Valid(Unhook(t, id).tree)
    ensures Unhook(t, id).tree.nodes[id].parent.None?
    ensures Unhook(t, id).tree.nodes[t.nodes[id].parent.value].children == Without(t.nodes[t.nodes[id].parent.value].children, id)
  {
    var p := t.nodes[id].parent.value;
    DetachRefillKeepsWf(t.nodes, p, id);
    assert Unhook(t, id).tree.nodes == PanelStore.Redistribute(Detach(t.nodes, p, id), p, []).0;
  }

  /** Taking a child out of a well-formed store and refilling its old parent succeeds and keeps the store well formed. */
  lemma DetachRefillKeepsWf<A>(m: Nodes<A>, p: Uuid, id: Uuid)
    requires Wf(m) && id in m && m[id].parent == Some(p)
    ensures p in m
    ensures PanelStore.Redistribute(Detach(m, p, id), p, []).1.Ok?
    ensures Wf(PanelStore.Redistribute(Detach(m, p, id), p, []).0)
    ensures PanelStore.Redistribute(Detach(m, p, id), p, []).0[id].parent.None?
    ensures PanelStore.Redistribute(Detach(m, p, id), p, []).0[p].children == Without(m[p].children, id)
  {
    SizedButNothing(m);
    DetachLinks(m, p, id, {});
    var d := Detach(m, p, id);
    assert SizedBut(d, {} + {p});
    RefillSizes(d, p, {});
    SizedButNothing(PanelStore.Redistribute(d, p, []).0);
  }

  /** The child loop deletes only the listed children and what deleted panels listed. */
  lemma {:induction false} DeleteAllListed(t: Tree, kids: seq<Uuid>, universe: set<Uuid>, visiting: set<Uuid>)
    requires t.nodes.Keys <= universe && visiting <= universe
    ensures DeleteAll(t, kids, universe, visiting).outcome.Ok? ==>
      DeletedListed(t.nodes, DeleteAll(t, kids, universe, visiting).tree.nodes, set c | c in kids)
    decreases |universe - visiting|, 2, |kids|
  {
    if |kids| > 0 {
      var s := DeleteFrom(t, kids[0], false, universe, visiting);
      var r := DeleteAll(t, kids, universe, visiting);
      if r.outcome.Ok? {
        assert s.outcome.Ok?;
        assert kids[0] != t.root && kids[0] in t.nodes;
        FinishListed(t, kids[0], universe, visiting);
        DeleteAllListed(s.tree, kids[1..], universe, visiting);
        forall d | d in t.nodes && d !in r.tree.nodes && d !in (set c | c in kids)
          ensures ListedByDeleted(t.nodes, r.tree.nodes, d)
        {
          if d in s.tree.nodes {
            assert d !in (set c | c in kids[1..]);
            var q :| q in s.tree.nodes && q !in r.tree.nodes && d in s.tree.nodes[q].children;
            assert q in t.nodes && t.nodes[q] == s.tree.nodes[q];
          } else {
            assert d != kids[0];
            var q :| q in t.nodes && q !in s.tree.nodes && d in t.nodes[q].children;
            assert q !in r.tree.nodes;
          }
        }
      }
    }
  }

  /** Past the unhook, a delete removes the panel itself and only what deleted panels listed. */
  lemma {:induction false} FinishListed(t: Tree, id: Uuid, universe: set<Uuid>, visiting: set<Uuid>)
    requires t.nodes.Keys <= universe && visiting <= universe
    requires id in t.nodes && id != t.root
    ensures Finish(t, id, universe, visiting).outcome.Ok? ==>
      DeletedListed(t.nodes, Finish(t, id, universe, visiting).tree.nodes, {id})
    decreases |universe - visiting|, 0, 0
  {
    var kids := t.nodes[id].children;
    var r := Finish(t, id, universe, visiting);
    if r.outcome.Ok? && kids != [] {
      assert FirstMissing(t.nodes, kids).None? && id !in visiting;
      assert universe - (visiting + {id}) < universe - visiting;
      var s2 := DeleteAll(t, kids, universe, visiting + {id});
      DeleteAllListed(t, kids, universe, visiting + {id});
      forall d | d in t.nodes && d !in r.tree.nodes && d != id
        ensures ListedByDeleted(t.nodes, r.tree.nodes, d)
      {
        if d !in (set c | c in kids) {
          var q :| q in t.nodes && q !in s2.tree.nodes && d in t.nodes[q].children;
          assert q !in r.tree.nodes;
        } else {
          assert id !in r.tree.nodes;
        }
      }
    }
  }

  /**
   * Deleting from a valid tree a parentless panel, every child of a deleted
   * panel, and only panels some deleted panel listed, keeping every
   * survivor untouched, leaves the tree valid.
   */
  lemma GoneKeepsValid(t: Tree, r: Tree, id: Uuid)
    requires Valid(t) && id in t.nodes && t.nodes[id].parent.None?
    requires r.root == t.root && t.root in r.nodes && Survives(t.nodes, r.nodes)
    requires SubtreeGone(t, r) && DeletedListed(t.nodes, r.nodes, {id})
    ensures Valid(r)
  {
    assert ListsGone(t.nodes, r.nodes, t.root);
    PrunedKeepsWf(t.nodes, r.nodes, id, t.root);
  }

  /**
   * Deleting a panel of a valid tree, unhooking it from its parent as the
   * default does, leaves a valid tree whenever it succeeds: no survivor
   * lists a deleted panel or has a deleted parent.
   */
  lemma DeleteKeepsValid(t: Tree, id: Uuid)
    requires Valid(t)
    ensures DeleteNode(t, id, true).outcome.Ok? ==> Valid(DeleteNode(t, id, true).tree)
  {
    if id != t.root && id in t.nodes {
      var u := t.nodes.Keys;
      var t1 := if t.nodes[id].parent.Some? then Unhook(t, id).tree else t;
      if t.nodes[id].parent.Some? {
        UnhookKeepsValid(t, id);
      }
      assert DeleteNode(t, id, true) == Finish(t1, id, u, {});
      var r := Finish(t1, id, u, {});
      if r.outcome.Ok? {
        FinishListed(t1, id, u, {});
        GoneKeepsValid(t1, r.tree, id);
      }
    }
  }

  /**
   * A child that is the root fails the whole delete with
   * `CannotDeleteRootPanel`, whatever was deleted before it.
   */
  lemma RootChildFails(t: Tree, id: Uuid)
    requires id in t.nodes && id != t.root && t.root in t.nodes[id].children
    requires FirstMissing(t.nodes, t.nodes[id].children).None?
    ensures !DeleteNode(t, id, false).outcome.Ok?
  {
    assert DeleteNode(t, id, false) == Finish(t, id, t.nodes.Keys, {});
  }

  /**
   * Deleting a childless panel of a valid tree always succeeds: exactly it
   * goes, its old parent lists the rest of its children, and the tree
   * stays valid.
   */
  lemma DeleteLeafPlaces(t: Tree, id: Uuid)
    requires Valid(t) && id in t.nodes && t.nodes[id].children == [] && t.nodes[id].parent.Some?
    ensures DeleteNode(t, id, true).outcome.Ok?
    ensures DeleteNode(t, id, true).tree.nodes.Keys == t.nodes.Keys - {id}
    ensures DeleteNode(t, id, true).tree.nodes[t.nodes[id].parent.value].children ==
      Without(t.nodes[t.nodes[id].parent.value].children, id)
    ensures Valid(DeleteNode(t, id, true).tree)
  {
    var p := t.nodes[id].parent.value;
    assert id in t.nodes[p].children;
    UnhookKeepsValid(t, id);
    DeleteLeafUnfolds(t, id);
    assert p != id;
    DeleteKeepsValid(t, id);
  }

  /** On a childless panel whose unhook succeeds, a delete is the unhook followed by deleting the entry. */
  lemma DeleteLeafUnfolds(t: Tree, id: Uuid)
    requires id in t.nodes && t.nodes[id].children == [] && t.nodes[id].parent.Some? && id != t.root
    requires Unhook(t, id).outcome.Ok?
    ensures DeleteNode(t, id, true) == Step(Unhook(t, id).tree.(nodes := Unhook(t, id).tree.nodes - {id}), Ok(()))
  {
    var u := Unhook(t, id).tree;
    assert DeleteFrom(t, id, true, t.nodes.Keys, {}) == Finish(u, id, t.nodes.Keys, {});
    FinishLeaf(u, id, t.nodes.Keys, {});
  }

  /** Past the unhook, a childless panel is just deleted. */
  lemma FinishLeaf(t: Tree, id: Uuid, universe: set<Uuid>, visiting: set<Uuid>)
    requires t.nodes.Keys <= universe && visiting <= universe
    requires id in t.nodes && id != t.root && t.nodes[id].children == []
    ensures Finish(t, id, universe, visiting) == Step(t.(nodes := t.nodes - {id}), Ok(()))
  {
  }

  // ---------------------------------------------------------------------
  // Deleting from a tree whose children lists do not loop.

  /**
   * On a valid tree ranked by `rank`, deleting any panel but the root
   * without unhooking succeeds and removes exactly the panel's subtree,
   * leaving every other panel as it was.
   */
  lemma DeleteDetachedRemovesSubtree(t: Tree, id: Uuid, rank: map<Uuid, nat>)
    requires Valid(t) && Ranked(t.nodes, rank) && id in t.nodes && id != t.root
    ensures DeleteNode(t, id, false) == Step(t.(nodes := t.nodes - Sub(t.nodes, rank, id)), Ok(()))
  {
    RootOutside(t.nodes, rank, id, t.root);
    assert DeleteNode(t, id, false) == Finish(t, id, t.nodes.Keys, {});
    FinishRemovesSub(t, rank, t, id, t.nodes.Keys, {});
  }

  /**
   * On a valid tree ranked by `rank`, deleting any panel but the root, with
   * the unhook the default asks for, succeeds and removes exactly the
   * panel's subtree.
   */
  lemma DeleteRemovesSubtree(t: Tree, id: Uuid, rank: map<Uuid, nat>)
    requires Valid(t) && Ranked(t.nodes, rank) && id in t.nodes && id != t.root
    ensures DeleteNode(t, id, true).outcome.Ok?
    ensures DeleteNode(t, id, true).tree.nodes.Keys == t.nodes.Keys - Sub(t.nodes, rank, id)
  {
    if t.nodes[id].parent.None? {
      assert DeleteNode(t, id, true) == DeleteNode(t, id, false);
      DeleteDetachedRemovesSubtree(t, id, rank);
    } else {
      var p := t.nodes[id].parent.value;
      UnhookKeepsValid(t, id);
      var t1 := Unhook(t, id).tree;
      UnhookRanked(t, id, rank);
      assert DeleteNode(t, id, true) == Finish(t1, id, t.nodes.Keys, {});
      RootOutside(t1.nodes, rank, id, t1.root);
      FinishRemovesSub(t1, rank, t1, id, t.nodes.Keys, {});
    }
  }

  /** The unhook only drops `id` from the parent's list: the rank stays a height and the subtree of `id` stays the same. */
  lemma UnhookRanked(t: Tree, id: Uuid, rank: map<Uuid, nat>)
    requires Valid(t) && Ranked(t.nodes, rank) && id in t.nodes && t.nodes[id].parent.Some?
    ensures Ranked(Unhook(t, id).tree.nodes, rank)
    ensures Sub(Unhook(t, id).tree.nodes, rank, id) == Sub(t.nodes, rank, id)
  {
    var p := t.nodes[id].parent.value;
    UnhookKeepsValid(t, id);
    var m1 := Unhook(t, id).tree.nodes;
    ShrunkRanked(t.nodes, m1, rank);
    assert id in t.nodes[p].children;
    AboveOutside(t.nodes, rank, id, p);
    SubFrame(t.nodes, m1, rank, id);
  }

  /**
   * Past the unhook, with the subtree of `id` still as the ranked tree `t0`
   * has it and every panel on the recursion path above `id`, the delete
   * succeeds and removes exactly that subtree.
   */
  lemma {:induction false} FinishRemovesSub(t0: Tree, rank: map<Uuid, nat>, t: Tree, id: Uuid, universe: set<Uuid>, visiting: set<Uuid>)
    requires Linked(t0.nodes) && Distinct(t0.nodes) && Ranked(t0.nodes, rank) && id in t0.nodes
    requires t.nodes.Keys <= universe && visiting <= universe && id != t.root
    requires Intact(t0.nodes, t.nodes, Sub(t0.nodes, rank, id)) && t.root !in Sub(t0.nodes, rank, id)
    requires forall v | v in visiting :: v in rank && rank[v] > rank[id]
    ensures Finish(t, id, universe, visiting) == Step(t.(nodes := t.nodes - Sub(t0.nodes, rank, id)), Ok(()))
    decreases rank[id], 1, 0
  {
    var m0 := t0.nodes;
    var kids := m0[id].children;
    var below := SubAll(m0, rank, kids, rank[id]);
    assert t.nodes[id] == m0[id];
    LinkedAllIn(m0, id);
    assert AllIn(t.nodes, kids) by {
      forall c | c in kids ensures c in t.nodes {
        SubAllHas(m0, rank, kids, rank[id], c);
      }
    }
    if kids == [] {
      assert t.nodes - Sub(m0, rank, id) == t.nodes - {id};
    } else {
      assert id !in visiting;
      DeleteAllRemovesSub(t0, rank, t, kids, id, universe, visiting + {id});
      SubSplit(m0, rank, id);
      MinusTwice(t.nodes, below, {id});
    }
  }

  /**
   * The child loop over distinct children of `p`, with their subtrees as
   * the ranked tree `t0` has them and the recursion path at or above `p`,
   * succeeds and removes exactly those subtrees.
   */
  lemma {:induction false} DeleteAllRemovesSub(t0: Tree, rank: map<Uuid, nat>, t: Tree, kids: seq<Uuid>, p: Uuid, universe: set<Uuid>, visiting: set<Uuid>)
    requires Linked(t0.nodes) && Distinct(t0.nodes) && Ranked(t0.nodes, rank) && p in t0.nodes
    requires t.nodes.Keys <= universe && visiting <= universe
    requires NoDup(kids) && forall c | c in kids :: c in t0.nodes[p].children
    requires Intact(t0.nodes, t.nodes, SubAll(t0.nodes, rank, kids, rank[p]))
    requires t.root !in SubAll(t0.nodes, rank, kids, rank[p])
    requires forall v | v in visiting :: v in rank && rank[v] >= rank[p]
    ensures DeleteAll(t, kids, universe, visiting) == Step(t.(nodes := t.nodes - SubAll(t0.nodes, rank, kids, rank[p])), Ok(()))
    decreases rank[p], 0, |kids|
  {
    var m0 := t0.nodes;
    if |kids| == 0 {
      assert t.(nodes := t.nodes - {}) == t;
    } else {
      var c := kids[0];
      FirstApart(m0, rank, p, kids);
      var top := Sub(m0, rank, c);
      var rest := SubAll(m0, rank, kids[1..], rank[p]);
      assert SubAll(m0, rank, kids, rank[p]) == top + rest;
      assert DeleteFrom(t, c, false, universe, visiting) == Finish(t, c, universe, visiting);
      FinishRemovesSub(t0, rank, t, c, universe, visiting);
      NoDupTail(kids);
      DeleteAllRemovesSub(t0, rank, t.(nodes := t.nodes - top), kids[1..], p, universe, visiting);
      MinusTwice(t.nodes, top, rest);
    }
  }
}
