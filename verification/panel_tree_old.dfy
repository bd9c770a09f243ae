/**
 * The older renderer panel tree (ui/src/renderer/src/panels/Panel.ts). Its
 * store, lookups, refill and percent setter behave as the current tree's
 * do, so the model reuses those; nodes of this generation have no edge-drop
 * flags or titlebar, which stay at their defaults and are never read here.
 * Two operations differ: `addChild` raises (`yield*`) on a child that
 * already has a parent and has no tabs rule, and `destroy` raises on the
 * root, also when a child is the root.
 */
module PanelTreeOld {
  import opened Wrappers
  import opened Percents
  import opened PanelSizing
  import opened PanelStore
  import opened PanelTree
  import PanelTreeDestroy
  import opened PanelSubtree

  /**
   * `Node.Parent.addChild` of this generation: the parent (a leaf throws)
   * and the child are fetched, a child with a parent fails, and the store's
   * `Attach` runs; a missing sibling fails tagged with the parent.
   */
  function AddChild(t: Tree, parent: Uuid, child: Uuid): (r: Step<()>)
    ensures r.tree.root == t.root && r.tree.nodes.Keys == t.nodes.Keys
    ensures !r.outcome.Rejected?
    ensures parent !in t.nodes ==> r == Step(t, Fail(NodeNotInTree(parent, [])))
    ensures parent in t.nodes && !IsParent(t.nodes[parent]) ==> r == Step(t, Defect)
    ensures parent in t.nodes && IsParent(t.nodes[parent]) && child !in t.nodes ==>
      r == Step(t, Fail(NodeNotInTree(child, [])))
    ensures parent in t.nodes && IsParent(t.nodes[parent]) && child in t.nodes && t.nodes[child].parent.Some? ==>
      r == Step(t, Fail(NodeAlreadyHasParent(child)))
    ensures r.outcome.Fail? && parent in t.nodes && child in t.nodes && t.nodes[child].parent.None? ==>
      exists c | c in t.nodes[parent].children :: r.outcome.error == NodeNotInTree(c, [parent])
  {
    match ParentGetOrError(t, parent, None)
    case Fail(e) => Step(t, Fail(e))
    case Defect => Step(t, Defect)
    case Ok(_) =>
      match GetOrError(t, child, None)
      case Fail(e) => Step(t, Fail(e))
      case Ok(c) =>
        if c.parent.Some? then Step(t, Fail(NodeAlreadyHasParent(child)))
        else
          var (m, o) := Attach(t.nodes, parent, child);
          AttachMissingListed(t.nodes, parent, child);
          match o
          case Ok(_) => Step(t.(nodes := m), Ok(()))
          case Fail(missing) => Step(t.(nodes := m), Fail(NodeNotInTree(missing, [parent])))
          case Defect => Step(t.(nodes := m), Defect)
  }

  /**
   * On a valid tree, adding a parentless node other than the root to a
   * parent always succeeds, here even a parent under tabs, appends the
   * child and keeps the tree valid.
   */
  lemma AddChildKeepsValid(t: Tree, parent: Uuid, child: Uuid)
    requires Valid(t) && parent in t.nodes && IsParent(t.nodes[parent]) && child in t.nodes && child != t.root
    requires t.nodes[child].parent.None?
    ensures AddChild(t, parent, child).outcome.Ok?
    ensures Valid(AddChild(t, parent, child).tree)
    ensures AddChild(t, parent, child).tree.nodes[parent].children == t.nodes[parent].children + [child]
    ensures AddChild(t, parent, child).tree.nodes[child].parent == Some(parent)
  {
    AttachKeepsWf(t.nodes, parent, child);
    assert AddChild(t, parent, child).tree.nodes == Attach(t.nodes, parent, child).0;
  }

  /** Every child a deleted parent kind listed is deleted too: what a successful destroy promises. */
  predicate SubtreeGone(t: Tree, r: Tree)
  {
    forall q, c | q in t.nodes && q !in r.nodes && IsParent(t.nodes[q]) && c in t.nodes[q].children :: c !in r.nodes
  }

  /**
   * `Node.destroy` of this generation, with `visiting` the ids on the
   * recursion path and `universe` the ids of the tree the first call saw.
   * The root fails unchanged; otherwise it runs as the current destroy.
   */
  function DestroyFrom(t: Tree, id: Uuid, removeFromParent: bool, universe: set<Uuid>, visiting: set<Uuid>): (r: Step<()>)
    requires t.nodes.Keys <= universe && visiting <= universe
    ensures r.tree.root == t.root && r.tree.nodes.Keys <= t.nodes.Keys
    ensures !r.outcome.Rejected?
    ensures id == t.root ==> r == Step(t, Fail(CannotDeleteRoot))
    ensures id != t.root && id !in t.nodes ==> r == Step(t, Fail(NodeNotInTree(id, [])))
    ensures r.outcome.Fail? && r.outcome.error.NodeNotInTree? ==> r.tree.nodes.Keys == t.nodes.Keys
    ensures r.outcome.Ok? ==> id !in r.tree.nodes
    ensures t.root in t.nodes ==> t.root in r.tree.nodes
    ensures !removeFromParent ==> forall k | k in r.tree.nodes :: r.tree.nodes[k] == t.nodes[k]
    ensures r.outcome.Ok? ==> SubtreeGone(t, r.tree)
    decreases |universe - visiting|, 1, 0
  {
    if id == t.root then Step(t, Fail(CannotDeleteRoot))
    else match GetOrError(t, id, None)
    case Fail(e) => Step(t, Fail(e))
    case Ok(n) =>
      if removeFromParent && n.parent.Some? then
        var s1 := PanelTreeDestroy.Unhook(t, id);
        if !s1.outcome.Succeeded() then Step(s1.tree, Propagate(s1.outcome))
        else
          var r := Finish(s1.tree, id, universe, visiting);
          assert r.outcome.Ok? ==> SubtreeGone(t, r.tree) by {
            if r.outcome.Ok? { UnhookedGone(t, s1.tree, r.tree, id); }
          }
          r
      else
        Finish(t, id, universe, visiting)
  }

  /** The unhook only took `id` out of its parent's list, so the closure carries over to the tree before it. */
  lemma UnhookedGone(t: Tree, t1: Tree, r: Tree, id: Uuid)
    requires id in t.nodes && t.nodes[id].parent.Some?
    requires t1 == PanelTreeDestroy.Unhook(t, id).tree
    requires SubtreeGone(t1, r) && id !in r.nodes && r.nodes.Keys <= t1.nodes.Keys
    ensures SubtreeGone(t, r)
  {
    var p := t.nodes[id].parent.value;
    forall q, c | q in t.nodes && q !in r.nodes && IsParent(t.nodes[q]) && c in t.nodes[q].children
      ensures c !in r.nodes
    {
      assert IsParent(t1.nodes[q]);
      if q == p && c != id {
        PanelTreeDestroy.WithoutKeeps(t.nodes[p].children, id, c);
      }
    }
  }

  /**
   * The rest of `destroy` once the node is found and, if asked, unhooked:
   * a parent kind checks that every listed child exists (the first missing
   * one fails, tagged with it, before anything is deleted), then destroys
   * each child in turn without unhooking; finally the entry is deleted.
   */
  function Finish(t: Tree, id: Uuid, universe: set<Uuid>, visiting: set<Uuid>): (r: Step<()>)
    requires t.nodes.Keys <= universe && visiting <= universe
    requires id in t.nodes && id != t.root
    ensures r.tree.root == t.root && r.tree.nodes.Keys <= t.nodes.Keys
    ensures !r.outcome.Rejected?
    ensures r.outcome.Fail? && r.outcome.error.NodeNotInTree? ==> r.tree.nodes.Keys == t.nodes.Keys
    ensures r.outcome.Ok? ==> id !in r.tree.nodes
    ensures t.root in t.nodes ==> t.root in r.tree.nodes
    ensures forall k | k in r.tree.nodes :: r.tree.nodes[k] == t.nodes[k]
    ensures r.outcome.Ok? ==> SubtreeGone(t, r.tree)
    ensures IsParent(t.nodes[id]) && !AllIn(t.nodes, t.nodes[id].children) ==> PanelTreeDestroy.MissingChildFails(t, id, r)
    decreases |universe - visiting|, 0, 0
  {
    var n := t.nodes[id];
    if !IsParent(n) then Step(t.(nodes := t.nodes - {id}), Ok(()))
    else
      match FirstMissing(t.nodes, n.children)
      case Some(c) => Step(t, Fail(NodeNotInTree(c, [id])))
      case None =>
        if id in visiting then Step(t, Defect)
        else
          assert universe - (visiting + {id}) < universe - visiting;
          var s2 := DestroyAll(t, n.children, universe, visiting + {id});
          if !s2.outcome.Succeeded() then Step(s2.tree, Propagate(s2.outcome))
          else Step(s2.tree.(nodes := s2.tree.nodes - {id}), Ok(()))
  }

  /**
   * The child loop: each child is destroyed in turn without unhooking. A
   * child that is (or holds) the root fails with `CannotDeleteRoot`, which
   * is raised again; any other failure dies, and so does the loop on a
   * defect.
   */
  function DestroyAll(t: Tree, kids: seq<Uuid>, universe: set<Uuid>, visiting: set<Uuid>): (r: Step<()>)
    requires t.nodes.Keys <= universe && visiting <= universe
    ensures r.tree.root == t.root && r.tree.nodes.Keys <= t.nodes.Keys
    ensures r.outcome.Ok? || r.outcome.Defect? || r.outcome == Fail(CannotDeleteRoot)
    ensures forall k | k in r.tree.nodes :: r.tree.nodes[k] == t.nodes[k]
    ensures t.root in t.nodes ==> t.root in r.tree.nodes
    ensures t.root in kids ==> !r.outcome.Ok?
    ensures r.outcome.Ok? ==> forall c | c in kids :: c !in r.tree.nodes
    ensures r.outcome.Ok? ==> SubtreeGone(t, r.tree)
    decreases |universe - visiting|, 2, |kids|
  {
    if |kids| == 0 then Step(t, Ok(()))
    else
      var s := DestroyFrom(t, kids[0], false, universe, visiting);
      if s.outcome == Fail(CannotDeleteRoot) then Step(s.tree, Fail(CannotDeleteRoot))
      else if !s.outcome.Ok? then Step(s.tree, Defect)
      else
        var rest := DestroyAll(s.tree, kids[1..], universe, visiting);
        assert forall c | c in kids :: c == kids[0] || c in kids[1..];
        rest
  }

  /** `Node.destroy` as called: the recursion starts with the whole tree and an empty path. */
  function Destroy(t: Tree, id: Uuid, removeFromParent: bool): (r: Step<()>)
    ensures r.tree.root == t.root && r.tree.nodes.Keys <= t.nodes.Keys
    ensures !r.outcome.Rejected?
    ensures id == t.root ==> r == Step(t, Fail(CannotDeleteRoot))
    ensures id != t.root && id !in t.nodes ==> r == Step(t, Fail(NodeNotInTree(id, [])))
    ensures r.outcome.Ok? ==> id !in r.tree.nodes
    ensures t.root in t.nodes ==> t.root in r.tree.nodes
    ensures (&& id in t.nodes && id != t.root && (!removeFromParent || t.nodes[id].parent.None?)
             && IsParent(t.nodes[id]) && !AllIn(t.nodes, t.nodes[id].children)) ==> PanelTreeDestroy.MissingChildFails(t, id, r)
  {
    DestroyFrom(t, id, removeFromParent, t.nodes.Keys, {})
  }

  // ---------------------------------------------------------------------
  // What a successful destroy leaves of a valid tree.

  /** The child loop deletes only the listed children and what deleted nodes listed. */
  lemma {:induction false} DestroyAllListed(t: Tree, kids: seq<Uuid>, universe: set<Uuid>, visiting: set<Uuid>)
    requires t.nodes.Keys <= universe && visiting <= universe
    ensures DestroyAll(t, kids, universe, visiting).outcome.Ok? ==>
      DeletedListed(t.nodes, DestroyAll(t, kids, universe, visiting).tree.nodes, set c | c in kids)
    decreases |universe - visiting|, 2, |kids|
  {
    if |kids| > 0 {
      var s := DestroyFrom(t, kids[0], false, universe, visiting);
      var r := DestroyAll(t, kids, universe, visiting);
      if r.outcome.Ok? {
        assert s.outcome.Ok?;
        assert kids[0] != t.root && kids[0] in t.nodes;
        FinishListed(t, kids[0], universe, visiting);
        DestroyAllListed(s.tree, kids[1..], universe, visiting);
        forall d | d in t.nodes && d !in r.tree.nodes && d !in (set c | c in kids)
          ensures ListedByDeleted(t.nodes, r.tree.nodes, d)
        {
          if d in s.tree.nodes {
            assert d !in (set c | c in kids[1..]);
            var q :| q in s.tree.nodes && q !in r.tree.nodes && d in s.tree.nodes[q].children;
            assert q in t.nodes && t.nodes[q] == s.tree.nodes[q];
          } else {
            assert d != kids[0];
            var q :| q in t.nodes && q !in s.tree.nodes && d in t.nodes[q].children;
            assert q !in r.tree.nodes;
          }
        }
      }
    }
  }

  /** Past the unhook, a destroy deletes the node itself and only what deleted nodes listed. */
  lemma {:induction false} FinishListed(t: Tree, id: Uuid, universe: set<Uuid>, visiting: set<Uuid>)
    requires t.nodes.Keys <= universe && visiting <= universe
    requires id in t.nodes && id != t.root
    ensures Finish(t, id, universe, visiting).outcome.Ok? ==>
      DeletedListed(t.nodes, Finish(t, id, universe, visiting).tree.nodes, {id})
    decreases |universe - visiting|, 0, 0
  {
    var n := t.nodes[id];
    var r := Finish(t, id, universe, visiting);
    if r.outcome.Ok? && IsParent(n) {
      assert FirstMissing(t.nodes, n.children).None? && id !in visiting;
      assert universe - (visiting + {id}) < universe - visiting;
      var s2 := DestroyAll(t, n.children, universe, visiting + {id});
      DestroyAllListed(t, n.children, universe, visiting + {id});
      forall d | d in t.nodes && d !in r.tree.nodes && d != id
        ensures ListedByDeleted(t.nodes, r.tree.nodes, d)
      {
        if d !in (set c | c in n.children) {
          var q :| q in t.nodes && q !in s2.tree.nodes && d in t.nodes[q].children;
          assert q !in r.tree.nodes;
        } else {
          assert id !in r.tree.nodes;
        }
      }
    }
  }

  /**
   * Destroying a node of a valid tree, unhooking it from its parent as the
   * default does, leaves a valid tree whenever it succeeds.
   */
  lemma DestroyKeepsValid(t: Tree, id: Uuid)
    requires Valid(t)
    ensures Destroy(t, id, true).outcome.Ok? ==> Valid(Destroy(t, id, true).tree)
  {
    if id != t.root && id in t.nodes {
      var u := t.nodes.Keys;
      var t1 := if t.nodes[id].parent.Some? then PanelTreeDestroy.Unhook(t, id).tree else t;
      if t.nodes[id].parent.Some? {
        PanelTreeDestroy.UnhookKeepsValid(t, id);
      }
      assert Destroy(t, id, true) == Finish(t1, id, u, {});
      var r := Finish(t1, id, u, {});
      if r.outcome.Ok? {
        FinishListed(t1, id, u, {});
        assert PanelTreeDestroy.SubtreeGone(t1, r.tree);
        PanelTreeDestroy.GoneKeepsValid(t1, r.tree, id);
      }
    }
  }

  /** A parent that lists the root cannot be destroyed: the child loop raises `CannotDeleteRoot`. */
  lemma RootChildFails(t: Tree, id: Uuid)
    requires id in t.nodes && id != t.root && IsParent(t.nodes[id]) && t.root in t.nodes[id].children
    requires FirstMissing(t.nodes, t.nodes[id].children).None?
    ensures !Destroy(t, id, false).outcome.Ok?
  {
    assert Destroy(t, id, false) == Finish(t, id, t.nodes.Keys, {});
  }

  // ---------------------------------------------------------------------
  // Destroying in a tree whose children lists do not loop.

  /**
   * On a valid tree ranked by `rank`, destroying any node but the root
   * without unhooking succeeds and removes exactly the node's subtree,
   * leaving every other node as it was.
   */
  lemma DestroyDetachedRemovesSubtree(t: Tree, id: Uuid, rank: map<Uuid, nat>)
    requires Valid(t) && Ranked(t.nodes, rank) && id in t.nodes && id != t.root
    ensures Destroy(t, id, false) == Step(t.(nodes := t.nodes - Sub(t.nodes, rank, id)), Ok(()))
  {
    RootOutside(t.nodes, rank, id, t.root);
    assert Destroy(t, id, false) == Finish(t, id, t.nodes.Keys, {});
    FinishRemovesSub(t, rank, t, id, t.nodes.Keys, {});
  }

  /**
   * On a valid tree ranked by `rank`, destroying any node but the root,
   * with the unhook the default asks for, succeeds and removes exactly the
   * node's subtree.
   */
  lemma DestroyRemovesSubtree(t: Tree, id: Uuid, rank: map<Uuid, nat>)
    requires Valid(t) && Ranked(t.nodes, rank) && id in t.nodes && id != t.root
    ensures Destroy(t, id, true).outcome.Ok?
    ensures Destroy(t, id, true).tree.nodes.Keys == t.nodes.Keys - Sub(t.nodes, rank, id)
  {
    if t.nodes[id].parent.None? {
      assert Destroy(t, id, true) == Destroy(t, id, false);
      DestroyDetachedRemovesSubtree(t, id, rank);
    } else {
      PanelTreeDestroy.UnhookKeepsValid(t, id);
      var t1 := PanelTreeDestroy.Unhook(t, id).tree;
      PanelTreeDestroy.UnhookRanked(t, id, rank);
      assert Destroy(t, id, true) == Finish(t1, id, t.nodes.Keys, {});
      RootOutside(t1.nodes, rank, id, t1.root);
      FinishRemovesSub(t1, rank, t1, id, t.nodes.Keys, {});
    }
  }

  /**
   * Past the unhook, with the subtree of `id` still as the valid ranked
   * tree `t0` has it and every node on the recursion path above `id`, the
   * destroy succeeds and removes exactly that subtree.
   */
  lemma {:induction false} FinishRemovesSub(t0: Tree, rank: map<Uuid, nat>, t: Tree, id: Uuid, universe: set<Uuid>, visiting: set<Uuid>)
    requires Valid(t0) && Ranked(t0.nodes, rank) && id in t0.nodes
    requires t.nodes.Keys <= universe && visiting <= universe && id != t.root
    requires Intact(t0.nodes, t.nodes, Sub(t0.nodes, rank, id)) && t.root !in Sub(t0.nodes, rank, id)
    requires forall v | v in visiting :: v in rank && rank[v] > rank[id]
    ensures Finish(t, id, universe, visiting) == Step(t.(nodes := t.nodes - Sub(t0.nodes, rank, id)), Ok(()))
    decreases rank[id], 1, 0
  {
    var m0 := t0.nodes;
    var kids := m0[id].children;
    var below := SubAll(m0, rank, kids, rank[id]);
    assert t.nodes[id] == m0[id];
    LinkedAllIn(m0, id);
    assert AllIn(t.nodes, kids) by {
      forall c | c in kids ensures c in t.nodes {
        SubAllHas(m0, rank, kids, rank[id], c);
      }
    }
    if kids == [] {
      assert t.nodes - Sub(m0, rank, id) == t.nodes - {id};
    } else {
      assert IsParent(m0[id]) && id !in visiting;
      DestroyAllRemovesSub(t0, rank, t, kids, id, universe, visiting + {id});
      SubSplit(m0, rank, id);
      MinusTwice(t.nodes, below, {id});
    }
  }

  /**
   * The child loop over distinct children of `p`, with their subtrees as
   * the valid ranked tree `t0` has them and the recursion path at or above
   * `p`, succeeds and removes exactly those subtrees.
   */
  lemma {:induction false} DestroyAllRemovesSub(t0: Tree, rank: map<Uuid, nat>, t: Tree, kids: seq<Uuid>, p: Uuid, universe: set<Uuid>, visiting: set<Uuid>)
    requires Valid(t0) && Ranked(t0.nodes, rank) && p in t0.nodes
    requires t.nodes.Keys <= universe && visiting <= universe
    requires NoDup(kids) && forall c | c in kids :: c in t0.nodes[p].children
    requires Intact(t0.nodes, t.nodes, SubAll(t0.nodes, rank, kids, rank[p]))
    requires t.root !in SubAll(t0.nodes, rank, kids, rank[p])
    requires forall v | v in visiting :: v in rank && rank[v] >= rank[p]
    ensures DestroyAll(t, kids, universe, visiting) == Step(t.(nodes := t.nodes - SubAll(t0.nodes, rank, kids, rank[p])), Ok(()))
    decreases rank[p], 0, |kids|
  {
    var m0 := t0.nodes;
    if |kids| == 0 {
      assert t.(nodes := t.nodes - {}) == t;
    } else {
      var c := kids[0];
      FirstApart(m0, rank, p, kids);
      var top := Sub(m0, rank, c);
      var rest := SubAll(m0, rank, kids[1..], rank[p]);
      assert SubAll(m0, rank, kids, rank[p]) == top + rest;
      assert DestroyFrom(t, c, false, universe, visiting) == Finish(t, c, universe, visiting);
      FinishRemovesSub(t0, rank, t, c, universe, visiting);
      NoDupTail(kids);
      DestroyAllRemovesSub(t0, rank, t.(nodes := t.nodes - top), kids[1..], p, universe, visiting);
      MinusTwice(t.nodes, top, rest);
    }
  }
}
