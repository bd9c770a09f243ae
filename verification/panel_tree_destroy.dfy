/**
 * Deleting a subtree of the renderer's panel tree
 * (`Node.destroy` in ui/src/renderer/panels/Panel.ts).
 *
 * The source recurses through the children lists with no guard against a
 * node listing one of its own ancestors; such a cycle never ends there. The
 * model carries the ids on the current recursion path and reports a defect
 * when one comes round again, which is also what makes the recursion
 * terminate: every step down adds an id of the original tree to the path.
 */
module PanelTreeDestroy {
  import opened Wrappers
  import opened Percents
  import opened PanelSizing
  import opened PanelStore
  import opened PanelTree
  import opened PanelTreeEdit
  import opened PanelSubtree

  /**
   * The first half of `destroy` with `removeFromParent`: the parent is
   * fetched, drops the node from its list, the node loses its parent link,
   * and the parent is refilled; a failed refill stops with those writes
   * done.
   */
  function Unhook(t: Tree, id: Uuid): (r: Step<()>)
    requires id in t.nodes && t.nodes[id].parent.Some?
    ensures r.tree.root == t.root && r.tree.nodes.Keys == t.nodes.Keys
    ensures !r.outcome.Rejected?
    ensures r.outcome.Fail? ==> r.outcome.error.NodeNotInTree?
    ensures forall k | k in t.nodes :: r.tree.nodes[k].attrs == t.nodes[k].attrs
    ensures forall k | k in t.nodes && k != t.nodes[id].parent.value :: r.tree.nodes[k].children == t.nodes[k].children
    ensures t.nodes[id].parent.value in t.nodes ==>
      var p := t.nodes[id].parent.value;
      r.tree.nodes[p].children == t.nodes[p].children || r.tree.nodes[p].children == Without(t.nodes[p].children, id)
  {
    var p := t.nodes[id].parent.value;
    match ParentGetOrError(t, p, None)
    case Fail(e) => Step(t, Fail(e))
    case Defect => Step(t, Defect)
    case Ok(_) =>
      var t1 := t.(nodes := Detach(t.nodes, p, id));
      DetachShape(t.nodes, p, id);
      var s := PanelTree.Redistribute(t1, p, []);
      if s.outcome.Succeeded() then Step(s.tree, Ok(())) else Step(s.tree, Propagate(s.outcome))
  }

  /**
   * No deleted parent kind leaves a listed child behind, the root aside:
   * what a successful delete promises about the subtree.
   */
  predicate SubtreeGone(t: Tree, r: Tree)
  {
    forall q, c | q in t.nodes && q !in r.nodes && IsParent(t.nodes[q]) && c in t.nodes[q].children ::
      c !in r.nodes || c == t.root
  }

  /**
   * `Node.destroy` of `id`, with `visiting` the ids on the recursion path
   * and `universe` the ids of the tree the first call saw.
   *
   * The root is turned away unchanged (the error is returned, not raised).
   * A missing node fails. With `removeFromParent` and a parent, the node is
   * unhooked first, and the rest runs on the tree that leaves.
   */
  function DestroyFrom(t: Tree, id: Uuid, removeFromParent: bool, universe: set<Uuid>, visiting: set<Uuid>): (r: Step<()>)
    requires t.nodes.Keys <= universe && visiting <= universe
    ensures r.tree.root == t.root && r.tree.nodes.Keys <= t.nodes.Keys
    ensures r.outcome.Rejected? <==> id == t.root
    ensures r.outcome.Rejected? ==> r.tree == t
    ensures id != t.root && id !in t.nodes ==> r == Step(t, Fail(NodeNotInTree(id, [])))
    ensures r.outcome.Fail? ==> r.outcome.error.NodeNotInTree? && r.tree.nodes.Keys == t.nodes.Keys
    ensures r.outcome.Ok? ==> id !in r.tree.nodes
    ensures t.root in t.nodes ==> t.root in r.tree.nodes
    ensures !removeFromParent ==> forall k | k in r.tree.nodes :: r.tree.nodes[k] == t.nodes[k]
    ensures r.outcome.Ok? ==> SubtreeGone(t, r.tree)
    decreases |universe - visiting|, 1, 0
  {
    if id == t.root then Step(t, Rejected)
    else match GetOrError(t, id, None)
    case Fail(e) => Step(t, Fail(e))
    case Ok(n) =>
      if removeFromParent && n.parent.Some? then
        var s1 := Unhook(t, id);
        if !s1.outcome.Succeeded() then Step(s1.tree, Propagate(s1.outcome))
        else
          var r := Finish(s1.tree, id, universe, visiting);
          assert r.outcome.Ok? ==> SubtreeGone(t, r.tree) by {
            if r.outcome.Ok? { UnhookedGone(t, s1.tree, r.tree, id); }
          }
          r
      else
        Finish(t, id, universe, visiting)
  }

  /**
   * What a successful delete after an unhook leaves: the unhook only took
   * `id` out of its parent's list, and `id` is gone, so the closure against
   * the unhooked tree carries over to the tree before it.
   */
  lemma UnhookedGone(t: Tree, t1: Tree, r: Tree, id: Uuid)
    requires id in t.nodes && t.nodes[id].parent.Some?
    requires t1 == Unhook(t, id).tree
    requires SubtreeGone(t1, r) && id !in r.nodes && r.nodes.Keys <= t1.nodes.Keys
    ensures SubtreeGone(t, r)
  {
    var p := t.nodes[id].parent.value;
    forall q, c | q in t.nodes && q !in r.nodes && IsParent(t.nodes[q]) && c in t.nodes[q].children
      ensures c !in r.nodes || c == t.root
    {
      assert IsParent(t1.nodes[q]);
      if q == p && c != id {
        WithoutKeeps(t.nodes[p].children, id, c);
      }
    }
  }

  /** Filtering keeps every other element. */
  lemma WithoutKeeps(s: seq<Uuid>, x: Uuid, c: Uuid)
    requires c in s && c != x
    ensures c in Without(s, x)
  {
    var i :| 0 <= i < |s| && s[i] == c;
    assert Without(s, x)[..] == Without(s, x);
  }

  /**
   * The rest of `destroy` once the node is found and, if asked, unhooked. A
   * parent kind checks that every listed child exists, failing with the
   * first missing one tagged with itself before deleting anything, then
   * destroys each child in turn without unhooking it. Finally the node's
   * entry is deleted.
   */
  function Finish(t: Tree, id: Uuid, universe: set<Uuid>, visiting: set<Uuid>): (r: Step<()>)
    requires t.nodes.Keys <= universe && visiting <= universe
    requires id in t.nodes && id != t.root
    ensures r.tree.root == t.root && r.tree.nodes.Keys <= t.nodes.Keys
    ensures !r.outcome.Rejected?
    ensures r.outcome.Fail? ==> r.outcome.error.NodeNotInTree? && r.tree.nodes.Keys == t.nodes.Keys
    ensures r.outcome.Ok? ==> id !in r.tree.nodes
    ensures t.root in t.nodes ==> t.root in r.tree.nodes
    ensures forall k | k in r.tree.nodes :: r.tree.nodes[k] == t.nodes[k]
    ensures r.outcome.Ok? ==> SubtreeGone(t, r.tree)
    ensures IsParent(t.nodes[id]) && !AllIn(t.nodes, t.nodes[id].children) ==> MissingChildFails(t, id, r)
    decreases |universe - visiting|, 0, 0
  {
    var n := t.nodes[id];
    if !IsParent(n) then
      var r := t.(nodes := t.nodes - {id});
      Step(r, Ok(()))
    else
      match FirstMissing(t.nodes, n.children)
      case Some(c) => Step(t, Fail(NodeNotInTree(c, [id])))
      case None =>
        if id in visiting then Step(t, Defect)
        else
          assert universe - (visiting + {id}) < universe - visiting;
          var s2 := DestroyAll(t, n.children, universe, visiting + {id});
          if !s2.outcome.Succeeded() then Step(s2.tree, Propagate(s2.outcome))
          else Step(s2.tree.(nodes := s2.tree.nodes - {id}), Ok(()))
  }

  /**
   * A parent listing a child that has no node fails the destroy with that
   * child's id, tagged with the parent's, before anything is written.
   */
  predicate MissingChildFails(t: Tree, id: Uuid, r: Step<()>)
    requires id in t.nodes
  {
    && r.tree == t
    && r.outcome.Fail? && r.outcome.error.NodeNotInTree?
    && r.outcome.error.parentList == [id]
    && r.outcome.error.id in t.nodes[id].children && r.outcome.error.id !in t.nodes
  }

  /**
   * The child loop of `destroy`: each listed child is destroyed in turn
   * without unhooking. A child that is the root is turned away with a
   * returned, not raised, `CannotDeleteRoot`, so the loop goes on; the
   * re-raise of that error is therefore never reached. A child that fails
   * (necessarily with `NodeNotInTree`, from a grandchild's check) dies, and
   * a defect stops the loop.
   */
  function DestroyAll(t: Tree, kids: seq<Uuid>, universe: set<Uuid>, visiting: set<Uuid>): (r: Step<()>)
    requires t.nodes.Keys <= universe && visiting <= universe
    ensures r.tree.root == t.root && r.tree.nodes.Keys <= t.nodes.Keys
    ensures r.outcome.Ok? || r.outcome.Defect?
    ensures forall k | k in r.tree.nodes :: r.tree.nodes[k] == t.nodes[k]
    ensures t.root in t.nodes ==> t.root in r.tree.nodes
    ensures r.outcome.Ok? ==> forall c | c in kids :: c !in r.tree.nodes || c == t.root
    ensures r.outcome.Ok? ==> SubtreeGone(t, r.tree)
    decreases |universe - visiting|, 2, |kids|
  {
    if |kids| == 0 then Step(t, Ok(()))
    else
      var s := DestroyFrom(t, kids[0], false, universe, visiting);
      match s.outcome
      case Fail(_) => Step(s.tree, Defect)
      case Defect => Step(s.tree, Defect)
      case _ =>
        var rest := DestroyAll(s.tree, kids[1..], universe, visiting);
        assert forall c | c in kids :: c == kids[0] || c in kids[1..];
        rest
  }

  /** `Node.destroy` as called: the recursion starts with the whole tree and an empty path. */
  function Destroy(t: Tree, id: Uuid, removeFromParent: bool): (r: Step<()>)
    ensures r.tree.root == t.root && r.tree.nodes.Keys <= t.nodes.Keys
    ensures r.outcome.Rejected? <==> id == t.root
    ensures r.outcome.Rejected? ==> r.tree == t
    ensures t.root in t.nodes ==> t.root in r.tree.nodes
    ensures (&& id in t.nodes && id != t.root && (!removeFromParent || t.nodes[id].parent.None?)
             && IsParent(t.nodes[id]) && !AllIn(t.nodes, t.nodes[id].children)) ==> MissingChildFails(t, id, r)
  {
    DestroyFrom(t, id, removeFromParent, t.nodes.Keys, {})
  }

  // ---------------------------------------------------------------------
  // What a successful destroy leaves of a valid tree.

  /**
   * Unhooking a node of a valid tree succeeds and keeps the tree valid: the
   * node is parentless and unlisted, its old parent lists the rest, and no
   * other list or parent link changes.
   */
  lemma UnhookKeepsValid(t: Tree, id: Uuid)
    requires Valid(t) && id in t.nodes && t.nodes[id].parent.Some?
    ensures Unhook(t, id).outcome.Ok?
    ensures Valid(Unhook(t, id).tree)
    ensures Unhook(t, id).tree.nodes[id].parent.None?
    ensures Unhook(t, id).tree.nodes[t.nodes[id].parent.value].children == Without(t.nodes[t.nodes[id].parent.value].children, id)
    ensures forall k | k in t.nodes && k != id :: Unhook(t, id).tree.nodes[k].parent == t.nodes[k].parent
  {
    var m := t.nodes;
    var p := m[id].parent.value;
    assert id in m[p].children;
    ListerIsParent(t, p, id);
    SizedButNothing(m);
    DetachLinks(m, p, id, {});
    var t1 := t.(nodes := Detach(m, p, id));
    assert SizedBut(t1.nodes, {} + {p});
    RefillStep(t1, p, {});
    var r := PanelTree.Redistribute(t1, p, []);
    SizedButNothing(r.tree.nodes);
    KeepsValid(t, r.tree);
  }

  /** The child loop deletes only the listed children and what their parents listed. */
  lemma {:induction false} DestroyAllListed(t: Tree, kids: seq<Uuid>, universe: set<Uuid>, visiting: set<Uuid>)
    requires t.nodes.Keys <= universe && visiting <= universe
    ensures DestroyAll(t, kids, universe, visiting).outcome.Ok? ==>
      DeletedListed(t.nodes, DestroyAll(t, kids, universe, visiting).tree.nodes, set c | c in kids)
    decreases |universe - visiting|, 2, |kids|
  {
    if |kids| > 0 {
      var s := DestroyFrom(t, kids[0], false, universe, visiting);
      var r := DestroyAll(t, kids, universe, visiting);
      if r.outcome.Ok? {
        assert s.outcome.Ok? || s.outcome.Rejected?;
        if kids[0] != t.root && kids[0] in t.nodes {
          FinishListed(t, kids[0], universe, visiting);
        }
        DestroyAllListed(s.tree, kids[1..], universe, visiting);
        forall d | d in t.nodes && d !in r.tree.nodes && d !in (set c | c in kids)
          ensures ListedByDeleted(t.nodes, r.tree.nodes, d)
        {
          if d in s.tree.nodes {
            assert d !in (set c | c in kids[1..]);
            var q :| q in s.tree.nodes && q !in r.tree.nodes && d in s.tree.nodes[q].children;
            assert q in t.nodes && t.nodes[q] == s.tree.nodes[q];
          } else {
            assert d != kids[0];
            var q :| q in t.nodes && q !in s.tree.nodes && d in t.nodes[q].children;
            assert q !in r.tree.nodes;
          }
        }
      }
    }
  }

  /** Past the unhook, a destroy deletes the node itself and only what deleted parents listed. */
  lemma {:induction false} FinishListed(t: Tree, id: Uuid, universe: set<Uuid>, visiting: set<Uuid>)
    requires t.nodes.Keys <= universe && visiting <= universe
    requires id in t.nodes && id != t.root
    ensures Finish(t, id, universe, visiting).outcome.Ok? ==>
      DeletedListed(t.nodes, Finish(t, id, universe, visiting).tree.nodes, {id})
    decreases |universe - visiting|, 0, 0
  {
    var n := t.nodes[id];
    var r := Finish(t, id, universe, visiting);
    if r.outcome.Ok? && IsParent(n) {
      assert FirstMissing(t.nodes, n.children).None? && id !in visiting;
      assert universe - (visiting + {id}) < universe - visiting;
      var s2 := DestroyAll(t, n.children, universe, visiting + {id});
      DestroyAllListed(t, n.children, universe, visiting + {id});
      forall d | d in t.nodes && d !in r.tree.nodes && d != id
        ensures ListedByDeleted(t.nodes, r.tree.nodes, d)
      {
        if d !in (set c | c in n.children) {
          var q :| q in t.nodes && q !in s2.tree.nodes && d in t.nodes[q].children;
          assert q !in r.tree.nodes;
        } else {
          assert id !in r.tree.nodes;
        }
      }
    }
  }

  /**
   * Deleting from a valid tree a parentless node, the children of every
   * deleted parent kind (the root aside), and only nodes some deleted node
   * listed, keeping every survivor untouched, leaves the tree valid.
   */
  lemma GoneKeepsValid(t: Tree, r: Tree, id: Uuid)
    requires Valid(t) && id in t.nodes && t.nodes[id].parent.None?
    requires r.root == t.root && t.root in r.nodes && Survives(t.nodes, r.nodes)
    requires SubtreeGone(t, r) && DeletedListed(t.nodes, r.nodes, {id})
    ensures Valid(r)
  {
    assert ListsGone(t.nodes, r.nodes, t.root) by {
      forall q, c | q in t.nodes && q !in r.nodes && c in t.nodes[q].children
        ensures c !in r.nodes || c == t.root
      {
        assert t.nodes[q].children != [];
      }
    }
    PrunedKeepsWf(t.nodes, r.nodes, id, t.root);
  }

  /**
   * Destroying a node other than the root of a valid tree, unhooking it
   * from its parent as the default does, leaves a valid tree whenever it
   * succeeds: no survivor lists a deleted node or has a deleted parent.
   */
  lemma DestroyKeepsValid(t: Tree, id: Uuid)
    requires Valid(t) && id in t.nodes && id != t.root
    ensures Destroy(t, id, true).outcome.Ok? ==> Valid(Destroy(t, id, true).tree)
  {
    var u := t.nodes.Keys;
    var t1 := if t.nodes[id].parent.Some? then Unhook(t, id).tree else t;
    if t.nodes[id].parent.Some? {
      UnhookKeepsValid(t, id);
    }
    assert Destroy(t, id, true) == Finish(t1, id, u, {});
    var r := Finish(t1, id, u, {});
    if r.outcome.Ok? {
      FinishListed(t1, id, u, {});
      GoneKeepsValid(t1, r.tree, id);
    }
  }

  /**
   * Destroying a leaf of a valid tree always succeeds: exactly the leaf
   * goes, its old parent lists the rest of its children, and the tree stays
   * valid.
   */
  lemma DestroyLeafPlaces(t: Tree, id: Uuid)
    requires Valid(t) && id in t.nodes && !IsParent(t.nodes[id]) && t.nodes[id].parent.Some?
    ensures Destroy(t, id, true).outcome.Ok?
    ensures Destroy(t, id, true).tree.nodes.Keys == t.nodes.Keys - {id}
    ensures Destroy(t, id, true).tree.nodes[t.nodes[id].parent.value].children ==
      Without(t.nodes[t.nodes[id].parent.value].children, id)
    ensures Valid(Destroy(t, id, true).tree)
  {
    var p := t.nodes[id].parent.value;
    assert id in t.nodes[p].children;
    UnhookKeepsValid(t, id);
    var u := Unhook(t, id).tree;
    DestroyLeafUnfolds(t, id);
    assert p in u.nodes && p != id;
    DestroyKeepsValid(t, id);
  }

  /** On a leaf whose unhook succeeds, a destroy is the unhook followed by deleting the entry. */
  lemma DestroyLeafUnfolds(t: Tree, id: Uuid)
    requires id in t.nodes && !IsParent(t.nodes[id]) && t.nodes[id].parent.Some? && id != t.root
    requires Unhook(t, id).outcome.Ok?
    ensures Destroy(t, id, true) == Step(Unhook(t, id).tree.(nodes := Unhook(t, id).tree.nodes - {id}), Ok(()))
  {
    var u := Unhook(t, id).tree;
    assert u.nodes[id].attrs == t.nodes[id].attrs;
    assert DestroyFrom(t, id, true, t.nodes.Keys, {}) == Finish(u, id, t.nodes.Keys, {});
    FinishLeaf(u, id, t.nodes.Keys, {});
  }

  /** Past the unhook, a leaf is just deleted. */
  lemma FinishLeaf(t: Tree, id: Uuid, universe: set<Uuid>, visiting: set<Uuid>)
    requires t.nodes.Keys <= universe && visiting <= universe
    requires id in t.nodes && id != t.root && !IsParent(t.nodes[id])
    ensures Finish(t, id, universe, visiting) == Step(t.(nodes := t.nodes - {id}), Ok(()))
  {
  }

  // ---------------------------------------------------------------------
  // Destroying in a tree whose children lists do not loop.

  /**
   * On a valid tree ranked by `rank`, destroying any node but the root
   * without unhooking succeeds and removes exactly the node's subtree,
   * leaving every other node as it was.
   */
  lemma DestroyDetachedRemovesSubtree(t: Tree, id: Uuid, rank: map<Uuid, nat>)
    requires Valid(t) && Ranked(t.nodes, rank) && id in t.nodes && id != t.root
    ensures Destroy(t, id, false) == Step(t.(nodes := t.nodes - Sub(t.nodes, rank, id)), Ok(()))
  {
    RootOutside(t.nodes, rank, id, t.root);
    assert Destroy(t, id, false) == Finish(t, id, t.nodes.Keys, {});
    FinishRemovesSub(t, rank, t, id, t.nodes.Keys, {});
  }

  /**
   * On a valid tree ranked by `rank`, destroying any node but the root,
   * with the unhook the default asks for, succeeds and removes exactly the
   * node's subtree.
   */
  lemma DestroyRemovesSubtree(t: Tree, id: Uuid, rank: map<Uuid, nat>)
    requires Valid(t) && Ranked(t.nodes, rank) && id in t.nodes && id != t.root
    ensures Destroy(t, id, true).outcome.Ok?
    ensures Destroy(t, id, true).tree.nodes.Keys == t.nodes.Keys - Sub(t.nodes, rank, id)
  {
    if t.nodes[id].parent.None? {
      assert Destroy(t, id, true) == Destroy(t, id, false);
      DestroyDetachedRemovesSubtree(t, id, rank);
    } else {
      UnhookKeepsValid(t, id);
      var t1 := Unhook(t, id).tree;
      UnhookRanked(t, id, rank);
      assert Destroy(t, id, true) == Finish(t1, id, t.nodes.Keys, {});
      RootOutside(t1.nodes, rank, id, t1.root);
      FinishRemovesSub(t1, rank, t1, id, t.nodes.Keys, {});
    }
  }

  /** The unhook only drops `id` from the parent's list: the rank stays a height and the subtree of `id` stays the same. */
  lemma UnhookRanked(t: Tree, id: Uuid, rank: map<Uuid, nat>)
    requires Valid(t) && Ranked(t.nodes, rank) && id in t.nodes && t.nodes[id].parent.Some?
    ensures Ranked(Unhook(t, id).tree.nodes, rank)
    ensures Sub(Unhook(t, id).tree.nodes, rank, id) == Sub(t.nodes, rank, id)
  {
    var p := t.nodes[id].parent.value;
    UnhookKeepsValid(t, id);
    var m1 := Unhook(t, id).tree.nodes;
    assert forall k | k in t.nodes && k != p :: m1[k].children == t.nodes[k].children;
    ShrunkRanked(t.nodes, m1, rank);
    assert id in t.nodes[p].children;
    AboveOutside(t.nodes, rank, id, p);
    SubFrame(t.nodes, m1, rank, id);
  }

  /**
   * Past the unhook, with the subtree of `id` still as the valid ranked
   * tree `t0` has it and every node on the recursion path above `id`, the
   * destroy succeeds and removes exactly that subtree.
   */
  lemma {:induction false} FinishRemovesSub(t0: Tree, rank: map<Uuid, nat>, t: Tree, id: Uuid, universe: set<Uuid>, visiting: set<Uuid>)
    requires Valid(t0) && Ranked(t0.nodes, rank) && id in t0.nodes
    requires t.nodes.Keys <= universe && visiting <= universe && id != t.root
    requires Intact(t0.nodes, t.nodes, Sub(t0.nodes, rank, id)) && t.root !in Sub(t0.nodes, rank, id)
    requires forall v | v in visiting :: v in rank && rank[v] > rank[id]
    ensures Finish(t, id, universe, visiting) == Step(t.(nodes := t.nodes - Sub(t0.nodes, rank, id)), Ok(()))
    decreases rank[id], 1, 0
  {
    var m0 := t0.nodes;
    var kids := m0[id].children;
    var below := SubAll(m0, rank, kids, rank[id]);
    assert t.nodes[id] == m0[id];
    LinkedAllIn(m0, id);
    assert AllIn(t.nodes, kids) by {
      forall c | c in kids ensures c in t.nodes {
        SubAllHas(m0, rank, kids, rank[id], c);
      }
    }
    if kids == [] {
      assert t.nodes - Sub(m0, rank, id) == t.nodes - {id};
    } else {
      assert IsParent(m0[id]) && id !in visiting;
      DestroyAllRemovesSub(t0, rank, t, kids, id, universe, visiting + {id});
      SubSplit(m0, rank, id);
      MinusTwice(t.nodes, below, {id});
    }
  }

  /**
   * The child loop over distinct children of `p`, with their subtrees as
   * the valid ranked tree `t0` has them and the recursion path at or above
   * `p`, succeeds and removes exactly those subtrees.
   */
  lemma {:induction false} DestroyAllRemovesSub(t0: Tree, rank: map<Uuid, nat>, t: Tree, kids: seq<Uuid>, p: Uuid, universe: set<Uuid>, visiting: set<Uuid>)
    requires Valid(t0) && Ranked(t0.nodes, rank) && p in t0.nodes
    requires t.nodes.Keys <= universe && visiting <= universe
    requires NoDup(kids) && forall c | c in kids :: c in t0.nodes[p].children
    requires Intact(t0.nodes, t.nodes, SubAll(t0.nodes, rank, kids, rank[p]))
    requires t.root !in SubAll(t0.nodes, rank, kids, rank[p])
    requires forall v | v in visiting :: v in rank && rank[v] >= rank[p]
    ensures DestroyAll(t, kids, universe, visiting) == Step(t.(nodes := t.nodes - SubAll(t0.nodes, rank, kids, rank[p])), Ok(()))
    decreases rank[p], 0, |kids|
  {
    var m0 := t0.nodes;
    if |kids| == 0 {
      assert t.(nodes := t.nodes - {}) == t;
    } else {
      var c := kids[0];
      FirstApart(m0, rank, p, kids);
      var top := Sub(m0, rank, c);
      var rest := SubAll(m0, rank, kids[1..], rank[p]);
      assert SubAll(m0, rank, kids, rank[p]) == top + rest;
      assert DestroyFrom(t, c, false, universe, visiting) == Finish(t, c, universe, visiting);
      FinishRemovesSub(t0, rank, t, c, universe, visiting);
      NoDupTail(kids);
      DestroyAllRemovesSub(t0, rank, t.(nodes := t.nodes - top), kids[1..], p, universe, visiting);
      MinusTwice(t.nodes, top, rest);
    }
  }
}
