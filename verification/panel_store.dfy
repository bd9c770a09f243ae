/**
 * The id-keyed panel store that every panel-tree generation shares: a map
 * from id to node, where a node has a parent link, an ordered list of child
 * ids and a percent of its parent; `attrs` holds what differs between
 * generations (layout, titles, debug names).
 *
 * Store updates in the source mutate draft objects in place, one write after
 * the other, so a failure half-way keeps the earlier writes. The functions
 * here make each write a map update and re-read nodes from the map after
 * every write, so a node that plays two roles (say, parent and child at
 * once) sees its own earlier writes.
 */
module PanelStore {
  import opened Wrappers
  import opened Percents
  import opened PanelSizing

  type Uuid = string

  datatype Node<A> = Node(parent: Option<Uuid>, percent: Percent, children: seq<Uuid>, attrs: A)

  type Nodes<A> = map<Uuid, Node<A>>

  predicate AllIn<A>(m: Nodes<A>, ids: seq<Uuid>)
  {
    forall i | 0 <= i < |ids| :: ids[i] in m
  }

  predicate NoDup(ids: seq<Uuid>)
  {
    forall i, j | 0 <= i < j < |ids| :: ids[i] != ids[j]
  }

  /** The tail of a list without repeats has none and does not hold the head. */
  lemma NoDupTail(ids: seq<Uuid>)
    requires NoDup(ids) && |ids| > 0
    ensures NoDup(ids[1..]) && ids[0] !in ids[1..]
  {
    forall i, j | 0 <= i < j < |ids[1..]| ensures ids[1..][i] != ids[1..][j] {
      assert ids[1..][i] == ids[i + 1] && ids[1..][j] == ids[j + 1];
    }
    forall i | 0 <= i < |ids[1..]| ensures ids[1..][i] != ids[0] {
      assert ids[1..][i] == ids[i + 1];
    }
  }

  /** The first listed id that has no node: the fetch loop fails there. */
  function FirstMissing<A>(m: Nodes<A>, ids: seq<Uuid>): (r: Option<Uuid>)
    ensures r.None? <==> AllIn(m, ids)
    ensures r.Some? ==> r.value in ids && r.value !in m
    ensures r.Some? ==> exists i | 0 <= i < |ids| :: ids[i] == r.value && AllIn(m, ids[..i])
  {
    if |ids| == 0 then None
    else if ids[0] !in m then
      assert AllIn(m, ids[..0]);
      Some(ids[0])
    else
      var rest := FirstMissing(m, ids[1..]);
      if rest.Some? then
        var i :| 0 <= i < |ids[1..]| && ids[1..][i] == rest.value && AllIn(m, ids[1..][..i]);
        assert ids[..i + 1] == [ids[0]] + ids[1..][..i];
        rest
      else
        rest
  }

  /** The percents of the listed children, in order. */
  function ChildPercents<A>(m: Nodes<A>, ids: seq<Uuid>): (r: seq<real>)
    requires AllIn(m, ids)
    ensures |r| == |ids|
    ensures forall i | 0 <= i < |ids| :: r[i] == m[ids[i]].percent
    ensures AllPercents(r)
  {
    seq(|ids|, i requires 0 <= i < |ids| => m[ids[i]].percent)
  }

  function SetParent<A>(m: Nodes<A>, k: Uuid, p: Option<Uuid>): (r: Nodes<A>)
    requires k in m
  {
    m[k := m[k].(parent := p)]
  }

  function SetPercent<A>(m: Nodes<A>, k: Uuid, v: Percent): (r: Nodes<A>)
    requires k in m
  {
    m[k := m[k].(percent := v)]
  }

  function SetChildren<A>(m: Nodes<A>, k: Uuid, cs: seq<Uuid>): (r: Nodes<A>)
    requires k in m
  {
    m[k := m[k].(children := cs)]
  }

  /** `children.filter(c => c !== id)`: every occurrence goes, the order of the rest is kept. */
  function Without(ids: seq<Uuid>, x: Uuid): (r: seq<Uuid>)
    ensures x !in r
    ensures forall y :: y in r <==> y in ids && y != x
    ensures |r| <= |ids|
    ensures x !in ids ==> r == ids
  {
    if |ids| == 0 then []
    else if ids[0] == x then Without(ids[1..], x)
    else [ids[0]] + Without(ids[1..], x)
  }

  /** The children not listed in `exclude`, in order. */
  function Adjustable(ids: seq<Uuid>, exclude: seq<Uuid>): (r: seq<Uuid>)
    ensures forall y :: y in r <==> y in ids && y !in exclude
  {
    if |ids| == 0 then []
    else if ids[0] in exclude then Adjustable(ids[1..], exclude)
    else [ids[0]] + Adjustable(ids[1..], exclude)
  }

  /** Which children `redistributeChildren` keeps fixed. */
  function FixedMask(ids: seq<Uuid>, exclude: seq<Uuid>): (r: seq<bool>)
    ensures |r| == |ids|
    ensures forall i | 0 <= i < |ids| :: r[i] == (ids[i] in exclude)
  {
    seq(|ids|, i requires 0 <= i < |ids| => ids[i] in exclude)
  }

  /** The summed percents of the listed children that are in `exclude`. */
  function ExcludedSum<A>(m: Nodes<A>, ids: seq<Uuid>, exclude: seq<Uuid>): real
    requires AllIn(m, ids)
  {
    if |ids| == 0 then 0.0
    else (if ids[0] in exclude then m[ids[0]].percent else 0.0) + ExcludedSum(m, ids[1..], exclude)
  }

  /**
   * Writes the percent of each listed node in turn, reading its current
   * value at the moment of the write. None: a value fell outside [0, 1] and
   * the `Percent` refinement threw.
   */
  function Rewrite<A>(m: Nodes<A>, ids: seq<Uuid>, rule: Rule): (r: Option<Nodes<A>>)
    requires AllIn(m, ids)
    ensures r.Some? ==> r.value.Keys == m.Keys
    ensures r.Some? ==> forall k | k in m :: r.value[k] == m[k].(percent := r.value[k].percent)
    decreases |ids|
  {
    if |ids| == 0 then Some(m)
    else
      var k := ids[0];
      var v := Apply(rule, m[k].percent);
      if !IsPercent(v) then None
      else
        var m1 := SetPercent(m, k, v);
        assert AllIn(m1, ids[1..]);
        Rewrite(m1, ids[1..], rule)
  }

  /**
   * With distinct ids, the sequential writes land exactly as the rule says:
   * each listed node gets the rule applied to its old percent, every other
   * node is untouched; and the writes succeed iff every new value is a percent.
   */
  lemma {:induction false} RewriteDistinct<A>(m: Nodes<A>, ids: seq<Uuid>, rule: Rule)
    requires AllIn(m, ids) && NoDup(ids)
    ensures Rewrite(m, ids, rule).Some? <==> AllPercents(MapRule(ChildPercents(m, ids), rule))
    ensures Rewrite(m, ids, rule).Some? ==>
      forall k | k in m :: Rewrite(m, ids, rule).value[k] ==
        if k in ids then m[k].(percent := Apply(rule, m[k].percent)) else m[k]
    decreases |ids|
  {
    if |ids| > 0 {
      var k := ids[0];
      var v := Apply(rule, m[k].percent);
      var ps := MapRule(ChildPercents(m, ids), rule);
      if IsPercent(v) {
        var m1 := SetPercent(m, k, v);
        assert AllIn(m1, ids[1..]);
        NoDupTail(ids);
        RewriteDistinct(m1, ids[1..], rule);
        assert ChildPercents(m1, ids[1..]) == ChildPercents(m, ids)[1..];
        assert MapRule(ChildPercents(m1, ids[1..]), rule) == ps[1..];
        AllPercentsCons(ps);
      } else {
        assert !IsPercent(ps[0]);
      }
    }
  }

  // ---------------------------------------------------------------------
  // The shared core of `addChild` and `redistributeChildren`.

  /**
   * The part of `addChild` after its generation-specific checks: the
   * child's parent link is written first; then every sibling is fetched (a
   * missing one fails with its id, the parent link already written); the
   * siblings are resized by the plan; the child gets its share and is
   * appended.
   */
  function Attach<A>(m: Nodes<A>, parent: Uuid, child: Uuid): (r: (Nodes<A>, Outcome<(), Uuid>))
    requires parent in m && child in m
    ensures r.0.Keys == m.Keys
    ensures forall k | k in m :: r.0[k].attrs == m[k].attrs
    ensures forall k | k in m && k != parent :: r.0[k].children == m[k].children
    ensures forall k | k in m && k != child :: r.0[k].parent == m[k].parent
  {
    var kids := m[parent].children;
    var m1 := SetParent(m, child, Some(parent));
    match FirstMissing(m1, kids)
    case Some(c) => (m1, Fail(c))
    case None =>
      var plan := AddChildPlan(ChildPercents(m1, kids), m1[child].percent);
      match Rewrite(m1, kids, plan.0)
      case None => (m1, Defect)
      case Some(m2) =>
        var m3 := SetPercent(m2, child, plan.1);
        (SetChildren(m3, parent, m3[parent].children + [child]), Ok(()))
  }

  /**
   * The body of `redistributeChildren` once the parent is found: nothing to
   * do without children; a missing child fails with its id before any
   * write; otherwise the children not in `exclude` are resized by the plan.
   */
  function Redistribute<A>(m: Nodes<A>, parent: Uuid, exclude: seq<Uuid>): (r: (Nodes<A>, Outcome<(), Uuid>))
    requires parent in m
    ensures r.0.Keys == m.Keys
    ensures forall k | k in m :: r.0[k] == m[k].(percent := r.0[k].percent)
    ensures !r.1.Ok? ==> r.0 == m
  {
    var kids := m[parent].children;
    if |kids| == 0 then (m, Ok(()))
    else match FirstMissing(m, kids)
      case Some(c) => (m, Fail(c))
      case None =>
        match RedistributePlan(ChildPercents(m, kids), FixedMask(kids, exclude))
        case None => (m, Ok(()))
        case Some(rule) =>
          var adjustable := Adjustable(kids, exclude);
          assert AllIn(m, adjustable) by {
            forall i | 0 <= i < |adjustable| ensures adjustable[i] in m {
              assert adjustable[i] in kids;
            }
          }
          match Rewrite(m, adjustable, rule)
          case None => (m, Defect)
          case Some(m2) => (m2, Ok(()))
  }

  /** A failed attach names a listed child; an attach is never turned away. */
  lemma AttachMissingListed<A>(m: Nodes<A>, parent: Uuid, child: Uuid)
    requires parent in m && child in m
    ensures Attach(m, parent, child).1.Fail? ==> Attach(m, parent, child).1.error in m[parent].children
    ensures Attach(m, parent, child).1.Fail? || Attach(m, parent, child).1.Ok? || Attach(m, parent, child).1.Defect?
  {
  }

  /** A successful attach links the child to the parent and appends it, whatever parent it had before. */
  lemma AttachLinksChild<A>(m: Nodes<A>, parent: Uuid, child: Uuid)
    requires parent in m && child in m
    ensures Attach(m, parent, child).1.Ok? ==> Attach(m, parent, child).0[child].parent == Some(parent)
    ensures Attach(m, parent, child).1.Ok? ==>
      Attach(m, parent, child).0[parent].children == m[parent].children + [child]
  {
    var kids := m[parent].children;
    var m1 := SetParent(m, child, Some(parent));
    if FirstMissing(m1, kids).None? {
      var plan := AddChildPlan(ChildPercents(m1, kids), m1[child].percent);
      var w := Rewrite(m1, kids, plan.0);
      if w.Some? {
        assert w.value[child].parent == Some(parent);
        assert w.value[parent].children == m1[parent].children;
      }
    }
  }

  /** A failed refill names a listed child; a refill is never turned away. */
  lemma RedistributeMissingListed<A>(m: Nodes<A>, parent: Uuid, exclude: seq<Uuid>)
    requires parent in m
    ensures Redistribute(m, parent, exclude).1.Fail? ==>
      Redistribute(m, parent, exclude).1.error in m[parent].children
    ensures !Redistribute(m, parent, exclude).1.Rejected?
  {
  }

  // ---------------------------------------------------------------------
  // Invariants of a well-formed store.

  /** Parent and child links agree in both directions. */
  predicate Linked<A>(m: Nodes<A>)
  {
    ChildrenLinked(m) && ParentsLinked(m)
  }

  /** Every listed child exists and names the parent that lists it. */
  predicate ChildrenLinked<A>(m: Nodes<A>)
  {
    forall k, c | k in m && c in m[k].children :: c in m && m[c].parent == Some(k)
  }

  /** Every parent link points at an existing node that lists the child. */
  predicate ParentsLinked<A>(m: Nodes<A>)
  {
    forall k | k in m && m[k].parent.Some? :: m[k].parent.value in m && k in m[m[k].parent.value].children
  }

  /** No parent lists a child twice. */
  predicate Distinct<A>(m: Nodes<A>)
  {
    forall k | k in m :: NoDup(m[k].children)
  }

  /**
   * The children of every parent with children, except the parents in
   * `skip`, share it exactly; operations that resize several parents one
   * after the other pass through such states.
   */
  predicate SizedBut<A>(m: Nodes<A>, skip: set<Uuid>)
  {
    forall k | k in m && k !in skip && |m[k].children| > 0 && AllIn(m, m[k].children) ::
      Sum(ChildPercents(m, m[k].children)) == 1.0
  }

  /** The children of every parent with children share it exactly. */
  predicate Sized<A>(m: Nodes<A>)
  {
    forall k | k in m && |m[k].children| > 0 && AllIn(m, m[k].children) ::
      Sum(ChildPercents(m, m[k].children)) == 1.0
  }

  lemma SizedButNothing<A>(m: Nodes<A>)
    ensures Sized(m) <==> SizedBut(m, {})
  {
  }

  lemma SizedButAt<A>(m: Nodes<A>, skip: set<Uuid>, k: Uuid)
    requires SizedBut(m, skip) && k in m && k !in skip && |m[k].children| > 0 && AllIn(m, m[k].children)
    ensures Sum(ChildPercents(m, m[k].children)) == 1.0
  {
  }

  predicate Wf<A>(m: Nodes<A>)
  {
    Linked(m) && Distinct(m) && Sized(m)
  }

  lemma LinkedAllIn<A>(m: Nodes<A>, k: Uuid)
    requires Linked(m) && k in m
    ensures AllIn(m, m[k].children)
  {
    forall i | 0 <= i < |m[k].children| ensures m[k].children[i] in m {
      assert m[k].children[i] in m[k].children;
    }
  }

  /** A node is listed by at most one parent: its own. */
  lemma ListedOnlyByParent<A>(m: Nodes<A>, k: Uuid, c: Uuid)
    requires Linked(m) && k in m && c in m[k].children
    ensures m[c].parent == Some(k)
  {
  }

  /** How `Attach` leaves each node when it succeeds on a child with no parent. */
  predicate AttachedShape<A>(m: Nodes<A>, m4: Nodes<A>, parent: Uuid, child: Uuid, rule: Rule, pNew: real)
    requires parent in m
  {
    && m4.Keys == m.Keys
    && forall k | k in m ::
      && m4[k].parent == (if k == child then Some(parent) else m[k].parent)
      && m4[k].children == (if k == parent then m[parent].children + [child] else m[k].children)
      && m4[k].percent == (if k == child then pNew
                           else if k in m[parent].children then Apply(rule, m[k].percent)
                           else m[k].percent)
  }

  lemma AttachedLinked<A>(m: Nodes<A>, m4: Nodes<A>, parent: Uuid, child: Uuid, rule: Rule, pNew: real)
    requires Linked(m) && parent in m && child in m && m[child].parent.None?
    requires AttachedShape(m, m4, parent, child, rule, pNew)
    ensures Linked(m4)
  {
    AttachedChildLinks(m, m4, parent, child, rule, pNew);
    AttachedParentLinks(m, m4, parent, child, rule, pNew);
  }

  lemma AttachedChildLinks<A>(m: Nodes<A>, m4: Nodes<A>, parent: Uuid, child: Uuid, rule: Rule, pNew: real)
    requires Linked(m) && parent in m && child in m && m[child].parent.None?
    requires AttachedShape(m, m4, parent, child, rule, pNew)
    ensures ChildrenLinked(m4)
  {
    forall k, c | k in m4 && c in m4[k].children
      ensures c in m4 && m4[c].parent == Some(k)
    {
      if !(k == parent && c == child) {
        AttachedOldLink(m, m4, parent, child, rule, pNew, k, c);
      }
    }
  }

  /** A link other than the new one was already in the store, and `Attach` keeps it. */
  lemma AttachedOldLink<A>(m: Nodes<A>, m4: Nodes<A>, parent: Uuid, child: Uuid, rule: Rule, pNew: real, k: Uuid, c: Uuid)
    requires ChildrenLinked(m) && parent in m && child in m && m[child].parent.None?
    requires AttachedShape(m, m4, parent, child, rule, pNew)
    requires k in m4 && c in m4[k].children && !(k == parent && c == child)
    ensures c in m4 && m4[c].parent == Some(k)
  {
    var kids := m4[k].children;
    if k == parent {
      assert kids == m[parent].children + [child];
      assert c in m[parent].children;
    } else {
      assert kids == m[k].children;
    }
    assert c in m[k].children;
    assert m[c].parent == Some(k);
  }

  lemma AttachedParentLinks<A>(m: Nodes<A>, m4: Nodes<A>, parent: Uuid, child: Uuid, rule: Rule, pNew: real)
    requires Linked(m) && parent in m && child in m && m[child].parent.None?
    requires AttachedShape(m, m4, parent, child, rule, pNew)
    ensures ParentsLinked(m4)
  {
    forall k | k in m4 && m4[k].parent.Some?
      ensures m4[k].parent.value in m4 && k in m4[m4[k].parent.value].children
    {
      if k != child {
        var p := m[k].parent.value;
        assert k in m[p].children;
      }
    }
  }

  lemma AttachedDistinct<A>(m: Nodes<A>, m4: Nodes<A>, parent: Uuid, child: Uuid, rule: Rule, pNew: real)
    requires Linked(m) && Distinct(m) && parent in m && child in m && m[child].parent.None?
    requires AttachedShape(m, m4, parent, child, rule, pNew)
    ensures Distinct(m4)
  {
    var kids := m[parent].children;
    assert child !in kids;
    var s := kids + [child];
    forall i, j | 0 <= i < j < |s| ensures s[i] != s[j] {
      if j == |kids| { assert s[i] == kids[i]; assert kids[i] in kids; }
    }
    assert NoDup(s);
  }

  lemma AttachedParentSum<A>(m: Nodes<A>, m4: Nodes<A>, parent: Uuid, child: Uuid, rule: Rule, pNew: real)
    requires Linked(m) && parent in m && child in m && m[child].parent.None?
    requires AttachedShape(m, m4, parent, child, rule, pNew)
    requires AllIn(m, m[parent].children) && Sum(MapRule(ChildPercents(m, m[parent].children), rule)) + pNew == 1.0
    ensures AllIn(m4, m4[parent].children)
    ensures Sum(ChildPercents(m4, m4[parent].children)) == 1.0
  {
    var kids := m[parent].children;
    LinkedAllIn(m, parent);
    var ps := ChildPercents(m, kids);
    assert child !in kids;
    var after := kids + [child];
    assert AllIn(m4, after) by {
      forall i | 0 <= i < |after| ensures after[i] in m4 {
        if i < |kids| { assert after[i] == kids[i]; }
      }
    }
    var qs := ChildPercents(m4, after);
    forall i | 0 <= i < |kids| ensures qs[i] == Apply(rule, ps[i]) {
      assert after[i] == kids[i] && kids[i] in kids;
    }
    assert qs == MapRule(ps, rule) + [pNew];
    SumAppend(MapRule(ps, rule), [pNew]);
  }

  lemma AttachedSized<A>(m: Nodes<A>, m4: Nodes<A>, parent: Uuid, child: Uuid, rule: Rule, pNew: real)
    requires Linked(m) && Sized(m) && parent in m && child in m && m[child].parent.None?
    requires AttachedShape(m, m4, parent, child, rule, pNew)
    requires Linked(m4)
    requires AllIn(m, m[parent].children) && Sum(MapRule(ChildPercents(m, m[parent].children), rule)) + pNew == 1.0
    ensures Sized(m4)
  {
    forall k | k in m4 && |m4[k].children| > 0 && AllIn(m4, m4[k].children)
      ensures Sum(ChildPercents(m4, m4[k].children)) == 1.0
    {
      if k == parent {
        AttachedParentSum(m, m4, parent, child, rule, pNew);
      } else {
        AttachedOtherPercents(m, m4, parent, child, rule, pNew, k);
        SizedButNothing(m);
        SizedButAt(m, {}, k);
      }
    }
  }

  /** The children of any other parent keep their percents. */
  lemma AttachedOtherPercents<A>(m: Nodes<A>, m4: Nodes<A>, parent: Uuid, child: Uuid, rule: Rule, pNew: real, k: Uuid)
    requires Linked(m) && parent in m && child in m && m[child].parent.None?
    requires AttachedShape(m, m4, parent, child, rule, pNew)
    requires k in m && k != parent
    ensures AllIn(m, m[k].children) && m4[k].children == m[k].children
    ensures AllIn(m4, m[k].children) && ChildPercents(m4, m[k].children) == ChildPercents(m, m[k].children)
  {
    var cs := m[k].children;
    LinkedAllIn(m, k);
    forall i | 0 <= i < |cs| ensures m4[cs[i]].percent == m[cs[i]].percent {
      var c := cs[i];
      assert c in cs;
      ListedOnlyByParent(m, k, c);
      if c in m[parent].children {
        ListedOnlyByParent(m, parent, c);
      }
    }
  }

  /**
   * `Attach` on a well-formed store, for a child that has no parent yet,
   * always succeeds, keeps the store well formed, appends the child and
   * gives the parent's children a total of exactly 1.
   */
  lemma AttachKeepsWf<A>(m: Nodes<A>, parent: Uuid, child: Uuid)
    requires Wf(m) && parent in m && child in m && m[child].parent.None?
    ensures Attach(m, parent, child).1.Ok?
    ensures Wf(Attach(m, parent, child).0)
    ensures Attach(m, parent, child).0[parent].children == m[parent].children + [child]
    ensures Attach(m, parent, child).0[child].parent == Some(parent)
  {
    var kids := m[parent].children;
    LinkedAllIn(m, parent);
    assert child !in kids;
    var ps := ChildPercents(m, kids);
    assert AllPercents(ps);
    var plan := AddChildPlan(ps, m[child].percent);
    AttachWrites(m, parent, child);
    var m4 := Attach(m, parent, child).0;
    AttachedLinked(m, m4, parent, child, plan.0, plan.1);
    AttachedDistinct(m, m4, parent, child, plan.0, plan.1);
    AttachedSized(m, m4, parent, child, plan.0, plan.1);
  }

  /**
   * The writes `Attach` makes when the parent's list is complete and has no
   * repeats and the new child is not on it: each listed sibling is rescaled
   * by the plan, the child takes the plan's share and is appended.
   */
  lemma AttachWrites<A>(m: Nodes<A>, parent: Uuid, child: Uuid)
    requires parent in m && child in m && child !in m[parent].children
    requires AllIn(m, m[parent].children) && NoDup(m[parent].children)
    requires AllPercents(ChildPercents(m, m[parent].children))
    ensures Attach(m, parent, child).1.Ok?
    ensures AttachedShape(m, Attach(m, parent, child).0, parent, child,
      AddChildPlan(ChildPercents(m, m[parent].children), m[child].percent).0,
      AddChildPlan(ChildPercents(m, m[parent].children), m[child].percent).1)
    ensures Sum(MapRule(ChildPercents(m, m[parent].children), AddChildPlan(ChildPercents(m, m[parent].children), m[child].percent).0))
      + AddChildPlan(ChildPercents(m, m[parent].children), m[child].percent).1 == 1.0
  {
    var kids := m[parent].children;
    var m1 := SetParent(m, child, Some(parent));
    assert AllIn(m1, kids);
    var ps := ChildPercents(m1, kids);
    assert ps == ChildPercents(m, kids);
    var plan := AddChildPlan(ps, m1[child].percent);
    AddChildPlanSumsToOne(ps, m1[child].percent);
    RewriteDistinct(m1, kids, plan.0);
    var m2 := Rewrite(m1, kids, plan.0).value;
    var m3 := SetPercent(m2, child, plan.1);
    var m4 := SetChildren(m3, parent, m3[parent].children + [child]);
    assert Attach(m, parent, child) == (m4, Ok(()));
  }

  lemma {:induction false} AdjustableNoDup(ids: seq<Uuid>, exclude: seq<Uuid>)
    requires NoDup(ids)
    ensures NoDup(Adjustable(ids, exclude))
    decreases |ids|
  {
    if |ids| > 0 {
      NoDupTail(ids);
      AdjustableNoDup(ids[1..], exclude);
      if ids[0] !in exclude {
        var r := [ids[0]] + Adjustable(ids[1..], exclude);
        forall i, j | 0 <= i < j < |r| ensures r[i] != r[j] {
          if i == 0 { assert r[j] in Adjustable(ids[1..], exclude); }
          else { assert r[i] == Adjustable(ids[1..], exclude)[i - 1]; }
        }
      }
    }
  }

  /**
   * `redistributeChildren` on a store whose links agree and whose parents
   * other than `skip` and `parent` are sized: it never fails; it throws
   * exactly when some child is adjustable and the excluded children already
   * sum past 1; otherwise it changes only the percents of the parent's
   * adjustable children, and once it has something to resize (or the
   * parent has no children) the parent is sized again.
   */
  lemma RedistributeSizes<A>(m: Nodes<A>, parent: Uuid, exclude: seq<Uuid>, skip: set<Uuid>)
    requires Linked(m) && Distinct(m) && SizedBut(m, skip + {parent}) && parent in m
    ensures AllIn(m, m[parent].children)
    ensures !Redistribute(m, parent, exclude).1.Fail?
    ensures Redistribute(m, parent, exclude).1.Defect? <==>
      (exists c | c in m[parent].children :: c !in exclude)
      && ExcludedSum(m, m[parent].children, exclude) > 1.0
    ensures Redistribute(m, parent, exclude).1.Ok? ==>
      && Linked(Redistribute(m, parent, exclude).0)
      && Distinct(Redistribute(m, parent, exclude).0)
      && (forall k | k in m && (k !in m[parent].children || k in exclude) ::
            Redistribute(m, parent, exclude).0[k] == m[k])
      && ((exists c | c in m[parent].children :: c !in exclude) || |m[parent].children| == 0 ==>
            SizedBut(Redistribute(m, parent, exclude).0, skip))
    ensures (forall c | c in m[parent].children :: c in exclude) ==> Redistribute(m, parent, exclude).0 == m
  {
    var kids := m[parent].children;
    LinkedAllIn(m, parent);
    RedistributeOutcome(m, parent, exclude);
    var r := Redistribute(m, parent, exclude);
    if |kids| == 0 {
      forall k | k in m && k !in skip && |m[k].children| > 0 && AllIn(m, m[k].children)
        ensures Sum(ChildPercents(m, m[k].children)) == 1.0
      {
        SizedButAt(m, skip + {parent}, k);
      }
    } else if r.1.Ok? && exists c | c in kids :: c !in exclude {
      var rule := RedistributePlan(ChildPercents(m, kids), FixedMask(kids, exclude)).value;
      RedistributedSized(m, r.0, parent, exclude, rule, skip);
    }
  }

  /**
   * What `redistributeChildren` does to the store once its children are all
   * present and distinct: it never fails, it throws exactly when some child
   * is adjustable and the excluded ones sum past 1, it changes nothing when
   * every child is excluded, and when it changes something it rewrote the
   * adjustable children by the plan's rule.
   */
  lemma RedistributeOutcome<A>(m: Nodes<A>, parent: Uuid, exclude: seq<Uuid>)
    requires parent in m && AllIn(m, m[parent].children) && NoDup(m[parent].children)
    ensures !Redistribute(m, parent, exclude).1.Fail?
    ensures Redistribute(m, parent, exclude).1.Defect? <==>
      (exists c | c in m[parent].children :: c !in exclude)
      && ExcludedSum(m, m[parent].children, exclude) > 1.0
    ensures (forall c | c in m[parent].children :: c in exclude) ==> Redistribute(m, parent, exclude).0 == m
    ensures Redistribute(m, parent, exclude).1.Ok? && (exists c | c in m[parent].children :: c !in exclude) ==>
      && |m[parent].children| > 0
      && RedistributePlan(ChildPercents(m, m[parent].children), FixedMask(m[parent].children, exclude)).Some?
      && Rewritten(m, Redistribute(m, parent, exclude).0, Adjustable(m[parent].children, exclude),
           RedistributePlan(ChildPercents(m, m[parent].children), FixedMask(m[parent].children, exclude)).value)
  {
    var kids := m[parent].children;
    var r := Redistribute(m, parent, exclude);
    if |kids| > 0 {
      var ps := ChildPercents(m, kids);
      var fixed := FixedMask(kids, exclude);
      ExcludedSumIsSumWhere(m, kids, exclude);
      CountPositive(fixed, false);
      FreeChildIsFalseMask(kids, exclude);
      match RedistributePlan(ps, fixed)
      case None =>
      case Some(rule) =>
        var adjustable := Adjustable(kids, exclude);
        AdjustableAllIn(m, kids, exclude);
        AdjustableNoDup(kids, exclude);
        RewriteDistinct(m, adjustable, rule);
        RedistributeInRange(ps, fixed);
        AdjustableValues(m, kids, exclude, rule);
        if Rewrite(m, adjustable, rule).Some? {
          var m2 := Rewrite(m, adjustable, rule).value;
          assert r.0 == m2;
          assert Rewritten(m, m2, adjustable, rule);
        }
    }
  }

  /**
   * Refilling a parent of exactly two children, nothing excluded, gives
   * each child its share of the pair's sum and touches nothing else.
   */
  lemma RedistributePair<A>(m: Nodes<A>, parent: Uuid, a: Uuid, b: Uuid)
    requires parent in m && m[parent].children == [a, b] && a != b && a in m && b in m
    requires m[a].percent + m[b].percent > 0.0
    ensures Redistribute(m, parent, []).1.Ok?
    ensures Redistribute(m, parent, []).0[a].percent == m[a].percent / (m[a].percent + m[b].percent)
    ensures Redistribute(m, parent, []).0[b].percent == m[b].percent / (m[a].percent + m[b].percent)
    ensures forall k | k in m && k != a && k != b :: Redistribute(m, parent, []).0[k] == m[k]
  {
    var rule := PairRewritten(m, parent, a, b);
    var r0 := Redistribute(m, parent, []).0;
    var ids := Adjustable([a, b], []);
    assert a in ids && b in ids;
    RewrittenAt(m, r0, ids, rule, a);
    RewrittenAt(m, r0, ids, rule, b);
    PairShare(r0[a].percent, m[a].percent, m[b].percent, rule);
    PairShare(r0[b].percent, m[b].percent, m[a].percent, rule);
  }

  /**
   * Refilling a parent whose two children are one that filled it and a
   * newcomer with percent `x`, in either order: they end at `1 / (1 + x)`
   * and `x / (1 + x)`.
   */
  /**
   * The two shares of a parent split between a child that filled it and a
   * newcomer of percent `x`: the sizes 1 and `x`, scaled to sum to one.
   */
  function FillerShare(x: real): real
    requires x >= 0.0
  {
    1.0 / (1.0 + x)
  }

  function NewcomerShare(x: real): real
    requires x >= 0.0
  {
    x / (1.0 + x)
  }

  lemma RedistributeFiller<A>(m: Nodes<A>, p: Uuid, a: Uuid, id: Uuid, x: real)
    requires p in m && a != id && a in m && id in m
    requires m[p].children == [a, id] || m[p].children == [id, a]
    requires m[a].percent == 1.0 && m[id].percent == x
    ensures Redistribute(m, p, []).1.Ok?
    ensures Redistribute(m, p, []).0[a].percent == FillerShare(x)
    ensures Redistribute(m, p, []).0[id].percent == NewcomerShare(x)
  {
    var r := Redistribute(m, p, []).0;
    if m[p].children == [a, id] {
      RedistributePair(m, p, a, id);
    } else {
      RedistributePair(m, p, id, a);
    }
    FillerShares(r[a].percent, r[id].percent, m[a].percent, m[id].percent);
  }

  /** The two shares of a pair whose one member was 1 and whose other was `x`, summed in either order. */
  lemma FillerShares(va: real, vx: real, one: real, x: real)
    requires one == 1.0 && x >= 0.0
    requires (va == one / (one + x) && vx == x / (one + x)) || (va == one / (x + one) && vx == x / (x + one))
    ensures va == FillerShare(x) && vx == NewcomerShare(x)
  {
    assert x + one == 1.0 + x;
  }

  /** The refill of a two-child parent is the rescale by the inverse of the pair's sum. */
  lemma PairRewritten<A>(m: Nodes<A>, parent: Uuid, a: Uuid, b: Uuid) returns (rule: Rule)
    requires parent in m && m[parent].children == [a, b] && a != b && a in m && b in m
    requires m[a].percent + m[b].percent > 0.0
    ensures rule == Times(1.0 / (m[a].percent + m[b].percent))
    ensures Redistribute(m, parent, []).1.Ok?
    ensures Rewritten(m, Redistribute(m, parent, []).0, Adjustable([a, b], []), rule)
  {
    var kids := [a, b];
    var pa: real, pb: real := m[a].percent, m[b].percent;
    assert NoDup(kids);
    RedistributeOutcome(m, parent, []);
    RedistributeMissingListed(m, parent, []);
    assert ChildPercents(m, kids) == [pa, pb];
    assert FixedMask(kids, []) == [false, false];
    PairPlan(pa, pb);
    ExcludedSumNone(m, kids);
    assert a in kids && a !in [];
    rule := Times(1.0 / (pa + pb));
  }

  /** A rewritten listed node holds its rule's value. */
  lemma RewrittenAt<A>(m: Nodes<A>, m2: Nodes<A>, ids: seq<Uuid>, rule: Rule, k: Uuid)
    requires Rewritten(m, m2, ids, rule) && k in m && k in ids
    ensures m2[k].percent == Apply(rule, m[k].percent)
  {
  }

  /** Two free children with a positive sum are rescaled by the inverse of that sum. */
  lemma PairPlan(pa: real, pb: real)
    requires pa + pb > 0.0
    ensures RedistributePlan([pa, pb], [false, false]) == Some(Times(1.0 / (pa + pb)))
  {
    PairSums(pa, pb);
  }

  /** Two free percents: two adjustable entries, nothing fixed, the pair's sum free. */
  lemma PairSums(pa: real, pb: real)
    ensures Count([false, false], false) == 2
    ensures SumWhere([pa, pb], [false, false], true) == 0.0
    ensures SumWhere([pa, pb], [false, false], false) == pa + pb
  {
    var mask, ps := [false, false], [pa, pb];
    assert mask[1..] == [false] && mask[1..][1..] == [];
    assert ps[1..] == [pb] && ps[1..][1..] == [];
    assert Count(mask[1..], false) == 1;
    assert SumWhere(ps[1..], mask[1..], true) == 0.0;
    assert SumWhere(ps[1..], mask[1..], false) == pb;
  }

  /** Rescaling `x` by the inverse of `x + y` gives `x`'s share of the pair. */
  lemma PairShare(v: real, x: real, y: real, rule: Rule)
    requires x + y > 0.0 && (rule == Times(1.0 / (x + y)) || rule == Times(1.0 / (y + x))) && v == Apply(rule, x)
    ensures v == x / (x + y)
  {
    assert y + x == x + y;
  }

  /** A child outside `exclude` is exactly a `false` in the fixed mask. */
  lemma FreeChildIsFalseMask(kids: seq<Uuid>, exclude: seq<Uuid>)
    ensures (exists c | c in kids :: c !in exclude) <==>
      (exists i | 0 <= i < |FixedMask(kids, exclude)| :: FixedMask(kids, exclude)[i] == false)
  {
    var fixed := FixedMask(kids, exclude);
    if exists c | c in kids :: c !in exclude {
      var c :| c in kids && c !in exclude;
      var i :| 0 <= i < |kids| && kids[i] == c;
      assert fixed[i] == false;
    }
  }

  /** The adjustable children of a list whose children all have nodes have nodes too. */
  lemma AdjustableAllIn<A>(m: Nodes<A>, kids: seq<Uuid>, exclude: seq<Uuid>)
    requires AllIn(m, kids)
    ensures AllIn(m, Adjustable(kids, exclude))
  {
    var adjustable := Adjustable(kids, exclude);
    forall i | 0 <= i < |adjustable| ensures adjustable[i] in m {
      assert adjustable[i] in kids;
    }
  }

  /**
   * `redistributeChildren` on a well-formed store never fails, throws
   * exactly when the excluded children already sum past 1 while some child
   * is adjustable, and otherwise keeps the store well formed.
   */
  lemma RedistributeKeepsWf<A>(m: Nodes<A>, parent: Uuid, exclude: seq<Uuid>)
    requires Wf(m) && parent in m
    ensures AllIn(m, m[parent].children)
    ensures !Redistribute(m, parent, exclude).1.Fail?
    ensures Redistribute(m, parent, exclude).1.Defect? <==>
      (exists c | c in m[parent].children :: c !in exclude)
      && ExcludedSum(m, m[parent].children, exclude) > 1.0
    ensures Redistribute(m, parent, exclude).1.Ok? ==> Wf(Redistribute(m, parent, exclude).0)
  {
    SizedButNothing(m);
    assert SizedBut(m, {} + {parent});
    RedistributeSizes(m, parent, exclude, {});
    if Redistribute(m, parent, exclude).1.Ok? {
      SizedButNothing(Redistribute(m, parent, exclude).0);
    }
  }

  /**
   * One refill, with nothing excluded, of a parent in a store that is
   * linked and sized apart from that parent (and `skip`): it succeeds, only
   * the parent's children change, and the store is sized apart from `skip`.
   */
  lemma RefillSizes<A>(m: Nodes<A>, parent: Uuid, skip: set<Uuid>)
    requires Linked(m) && Distinct(m) && SizedBut(m, skip + {parent}) && parent in m
    ensures Redistribute(m, parent, []).1.Ok?
    ensures Linked(Redistribute(m, parent, []).0) && Distinct(Redistribute(m, parent, []).0)
    ensures SizedBut(Redistribute(m, parent, []).0, skip)
    ensures forall k | k in m && k !in m[parent].children :: Redistribute(m, parent, []).0[k] == m[k]
  {
    var kids := m[parent].children;
    LinkedAllIn(m, parent);
    ExcludedSumNone(m, kids);
    RedistributeSizes(m, parent, [], skip);
    RedistributeMissingListed(m, parent, []);
    if |kids| > 0 {
      assert kids[0] in kids && kids[0] !in [];
    }
  }

  /** With nothing excluded the excluded sum is 0, so redistribution never throws. */
  lemma {:induction false} ExcludedSumNone<A>(m: Nodes<A>, ids: seq<Uuid>)
    requires AllIn(m, ids)
    ensures ExcludedSum(m, ids, []) == 0.0
    decreases |ids|
  {
    if |ids| > 0 {
      assert AllIn(m, ids[1..]);
      ExcludedSumNone(m, ids[1..]);
    }
  }

  lemma {:induction false} ExcludedSumIsSumWhere<A>(m: Nodes<A>, kids: seq<Uuid>, exclude: seq<Uuid>)
    requires AllIn(m, kids)
    ensures ExcludedSum(m, kids, exclude) == SumWhere(ChildPercents(m, kids), FixedMask(kids, exclude), true)
    decreases |kids|
  {
    if |kids| > 0 {
      assert AllIn(m, kids[1..]);
      ExcludedSumIsSumWhere(m, kids[1..], exclude);
      assert ChildPercents(m, kids)[1..] == ChildPercents(m, kids[1..]);
      assert FixedMask(kids, exclude)[1..] == FixedMask(kids[1..], exclude);
    }
  }

  /** Every adjustable child's new value is a percent iff all the children's are. */
  lemma AdjustableValues<A>(m: Nodes<A>, kids: seq<Uuid>, exclude: seq<Uuid>, rule: Rule)
    requires AllIn(m, kids)
    requires AllIn(m, Adjustable(kids, exclude))
    ensures AllPercents(MapRule(ChildPercents(m, Adjustable(kids, exclude)), rule))
        <==> AllPercents(ApplyWhere(ChildPercents(m, kids), FixedMask(kids, exclude), rule))
  {
    var fixed := FixedMask(kids, exclude);
    var adjustable := Adjustable(kids, exclude);
    var a := MapRule(ChildPercents(m, adjustable), rule);
    var b := ApplyWhere(ChildPercents(m, kids), fixed, rule);
    if AllPercents(a) {
      forall i | 0 <= i < |kids| ensures IsPercent(b[i]) {
        if !fixed[i] {
          assert kids[i] in adjustable;
          var j :| 0 <= j < |adjustable| && adjustable[j] == kids[i];
          assert a[j] == b[i];
        }
      }
    }
    if AllPercents(b) {
      forall j | 0 <= j < |adjustable| ensures IsPercent(a[j]) {
        assert adjustable[j] in adjustable;
        var i :| 0 <= i < |kids| && kids[i] == adjustable[j];
        assert !fixed[i];
        assert a[j] == b[i];
      }
    }
  }

  /**
   * `m2` is `m` with the percents of the nodes `ids` rewritten by `rule`,
   * every link and every other node kept.
   */
  ghost predicate Rewritten<A>(m: Nodes<A>, m2: Nodes<A>, ids: seq<Uuid>, rule: Rule) {
    && m2.Keys == m.Keys
    && (forall k | k in m :: m2[k].parent == m[k].parent && m2[k].children == m[k].children)
    && (forall k | k in m && k !in ids :: m2[k] == m[k])
    && (forall k | k in m && k in ids :: m2[k].percent == Apply(rule, m[k].percent))
  }

  /** Percent writes leave the tree's links, and so `Linked` and `Distinct`, alone. */
  lemma RewrittenKeepsLinks<A>(m: Nodes<A>, m2: Nodes<A>, ids: seq<Uuid>, rule: Rule)
    requires Linked(m) && Distinct(m) && Rewritten(m, m2, ids, rule)
    ensures Linked(m2) && Distinct(m2)
  {
  }

  /** The parent's children after the rewrite carry exactly the redistributed percents. */
  lemma RedistributedParentSum<A>(m: Nodes<A>, m2: Nodes<A>, parent: Uuid, exclude: seq<Uuid>, rule: Rule)
    requires parent in m && AllIn(m, m[parent].children) && |m[parent].children| > 0
    requires RedistributePlan(ChildPercents(m, m[parent].children), FixedMask(m[parent].children, exclude)) == Some(rule)
    requires Rewritten(m, m2, Adjustable(m[parent].children, exclude), rule)
    ensures AllIn(m2, m[parent].children)
    ensures Sum(ChildPercents(m2, m[parent].children)) == 1.0
  {
    var kids := m[parent].children;
    var fixed := FixedMask(kids, exclude);
    var ps := ChildPercents(m, kids);
    forall i | 0 <= i < |kids| ensures ChildPercents(m2, kids)[i] == ApplyWhere(ps, fixed, rule)[i] {
      assert kids[i] in kids;
    }
    assert ChildPercents(m2, kids) == ApplyWhere(ps, fixed, rule);
    RedistributeSumsToOne(ps, fixed);
  }

  /** Two different parents in a linked store list no child in common. */
  lemma ChildrenDisjoint<A>(m: Nodes<A>, k: Uuid, p: Uuid)
    requires Linked(m) && k in m && p in m && k != p
    ensures forall c | c in m[k].children :: c !in m[p].children
  {
    forall c | c in m[k].children ensures c !in m[p].children {
      ListedOnlyByParent(m, k, c);
      if c in m[p].children {
        ListedOnlyByParent(m, p, c);
      }
    }
  }

  /** Any other parent's children are untouched by the rewrite, so their sum stays 1. */
  lemma RedistributedOtherSum<A>(m: Nodes<A>, m2: Nodes<A>, parent: Uuid, k: Uuid, exclude: seq<Uuid>, rule: Rule)
    requires parent in m && k in m
    requires forall c | c in m[k].children :: c !in m[parent].children
    requires AllIn(m, m[k].children) && Sum(ChildPercents(m, m[k].children)) == 1.0
    requires Rewritten(m, m2, Adjustable(m[parent].children, exclude), rule)
    ensures AllIn(m2, m[k].children)
    ensures Sum(ChildPercents(m2, m[k].children)) == 1.0
  {
    var cs := m[k].children;
    forall i | 0 <= i < |cs| ensures cs[i] in m2 && m2[cs[i]].percent == m[cs[i]].percent {
      assert cs[i] in cs;
    }
    assert ChildPercents(m2, cs) == ChildPercents(m, cs);
  }

  lemma RedistributedSized<A>(m: Nodes<A>, m2: Nodes<A>, parent: Uuid, exclude: seq<Uuid>, rule: Rule, skip: set<Uuid>)
    requires Linked(m) && Distinct(m) && SizedBut(m, skip + {parent})
    requires parent in m && AllIn(m, m[parent].children) && |m[parent].children| > 0
    requires RedistributePlan(ChildPercents(m, m[parent].children), FixedMask(m[parent].children, exclude)) == Some(rule)
    requires Rewritten(m, m2, Adjustable(m[parent].children, exclude), rule)
    ensures Linked(m2) && Distinct(m2) && SizedBut(m2, skip)
  {
    RewrittenKeepsLinks(m, m2, Adjustable(m[parent].children, exclude), rule);
    forall k | k in m2 && k !in skip && |m2[k].children| > 0 && AllIn(m2, m2[k].children)
      ensures Sum(ChildPercents(m2, m2[k].children)) == 1.0
    {
      if k == parent {
        RedistributedParentSum(m, m2, parent, exclude, rule);
      } else {
        LinkedAllIn(m, k);
        SizedButAt(m, skip + {parent}, k);
        ChildrenDisjoint(m, k, parent);
        RedistributedOtherSum(m, m2, parent, k, exclude, rule);
      }
    }
  }

  // ---------------------------------------------------------------------
  // Moving children between parents.

  /** Where `splice(idx, ..)` starts on a list of length `len`: a negative index counts back from the end. */
  function SpliceStart(len: nat, idx: int): (r: nat)
    ensures r <= len
    ensures 0 <= idx <= len ==> r == idx
  {
    if idx < 0 then (if len + idx < 0 then 0 else len + idx)
    else if idx > len then len
    else idx
  }

  /** The position an optional `idx` inserts at: `splice(idx, 0, x)` when given, `push(x)` otherwise. */
  function InsertPos(len: nat, idx: Option<int>): (r: nat)
    ensures r <= len
    ensures idx.None? ==> r == len
  {
    match idx
    case None => len
    case Some(i) => SpliceStart(len, i)
  }

  function InsertAt(s: seq<Uuid>, idx: Option<int>, x: Uuid): (r: seq<Uuid>)
    ensures |r| == |s| + 1
    ensures r[InsertPos(|s|, idx)] == x
    ensures r[..InsertPos(|s|, idx)] == s[..InsertPos(|s|, idx)]
    ensures r[InsertPos(|s|, idx) + 1..] == s[InsertPos(|s|, idx)..]
    ensures forall y :: y in r <==> y in s || y == x
  {
    var k := InsertPos(|s|, idx);
    assert forall y :: y in s <==> y in s[..k] || y in s[k..] by {
      assert s == s[..k] + s[k..];
    }
    s[..k] + [x] + s[k..]
  }

  lemma InsertAtNoDup(s: seq<Uuid>, idx: Option<int>, x: Uuid)
    requires NoDup(s) && x !in s
    ensures NoDup(InsertAt(s, idx, x))
  {
    var r := InsertAt(s, idx, x);
    var k := InsertPos(|s|, idx);
    forall i, j | 0 <= i < j < |r| ensures r[i] != r[j] {
      var si := if i < k then i else i - 1;
      var sj := if j < k then j else j - 1;
      if i != k && j != k {
        assert r[i] == s[si] && r[j] == s[sj];
      } else if i == k {
        assert r[j] == s[sj];
      } else {
        assert r[i] == s[si];
      }
    }
  }

  lemma {:induction false} WithoutNoDup(s: seq<Uuid>, x: Uuid)
    requires NoDup(s)
    ensures NoDup(Without(s, x))
    decreases |s|
  {
    if |s| > 0 {
      assert NoDup(s[1..]) by {
        forall i, j | 0 <= i < j < |s[1..]| ensures s[1..][i] != s[1..][j] {
          assert s[1..][i] == s[i + 1] && s[1..][j] == s[j + 1];
        }
      }
      WithoutNoDup(s[1..], x);
      if s[0] != x {
        var r := Without(s, x);
        assert s[0] !in s[1..] by {
          forall i | 0 <= i < |s[1..]| ensures s[1..][i] != s[0] {
            assert s[1..][i] == s[i + 1];
          }
        }
        forall i, j | 0 <= i < j < |r| ensures r[i] != r[j] {
          if i == 0 {
            assert r[j] == Without(s[1..], x)[j - 1];
            assert r[j] in Without(s[1..], x);
          } else {
            assert r[i] == Without(s[1..], x)[i - 1] && r[j] == Without(s[1..], x)[j - 1];
          }
        }
      }
    }
  }

  /**
   * The writes of a re-parent: drop `id` from the old parent's list, insert
   * it into the new parent's list, point it at the new parent.
   */
  function Move<A>(m: Nodes<A>, id: Uuid, from: Uuid, to: Uuid, idx: Option<int>): (r: Nodes<A>)
    requires id in m && from in m && to in m
    ensures r.Keys == m.Keys
  {
    var m1 := SetChildren(m, from, Without(m[from].children, id));
    var m2 := SetChildren(m1, to, InsertAt(m1[to].children, idx, id));
    SetParent(m2, id, Some(to))
  }

  /**
   * Moving a child keeps the links in agreement and the lists free of
   * duplicates; only the two parents involved may need resizing; percents
   * and attributes are untouched.
   */
  lemma MoveLinks<A>(m: Nodes<A>, id: Uuid, from: Uuid, to: Uuid, idx: Option<int>, skip: set<Uuid>)
    requires Linked(m) && Distinct(m) && SizedBut(m, skip)
    requires id in m && to in m && m[id].parent == Some(from)
    ensures from in m
    ensures Linked(Move(m, id, from, to, idx)) && Distinct(Move(m, id, from, to, idx))
    ensures SizedBut(Move(m, id, from, to, idx), skip + {from, to})
    ensures forall k | k in m :: Move(m, id, from, to, idx)[k].percent == m[k].percent
    ensures forall k | k in m :: Move(m, id, from, to, idx)[k].attrs == m[k].attrs
    ensures Move(m, id, from, to, idx)[id].parent == Some(to)
    ensures from != to ==> Move(m, id, from, to, idx)[from].children == Without(m[from].children, id)
    ensures Move(m, id, from, to, idx)[to].children == InsertAt(Without(m[to].children, id), idx, id)
    ensures forall k | k in m && k != from && k != to :: Move(m, id, from, to, idx)[k].children == m[k].children
  {
    var r := Move(m, id, from, to, idx);
    MoveShape(m, id, from, to, idx);
    MovedLinked(m, r, id, from, to, idx);
    assert from != to ==> id !in m[to].children;
    forall k | k in r ensures NoDup(r[k].children) {
      if k == to {
        WithoutNoDup(m[to].children, id);
        InsertAtNoDup(Without(m[to].children, id), idx, id);
      } else if k == from {
        WithoutNoDup(m[from].children, id);
      }
    }
    MoveSized(m, id, from, to, idx, skip);
  }

  /** How `Move` leaves each node. */
  ghost predicate MovedShape<A>(m: Nodes<A>, r: Nodes<A>, id: Uuid, from: Uuid, to: Uuid, idx: Option<int>)
    requires from in m && to in m
  {
    && r.Keys == m.Keys
    && (forall k | k in m :: r[k].percent == m[k].percent && r[k].attrs == m[k].attrs)
    && (forall k | k in m :: r[k].parent == if k == id then Some(to) else m[k].parent)
    && (forall k | k in m :: r[k].children ==
          if k == to then InsertAt(if to == from then Without(m[from].children, id) else m[to].children, idx, id)
          else if k == from then Without(m[from].children, id)
          else m[k].children)
  }

  lemma MoveShape<A>(m: Nodes<A>, id: Uuid, from: Uuid, to: Uuid, idx: Option<int>)
    requires id in m && to in m && from in m
    ensures MovedShape(m, Move(m, id, from, to, idx), id, from, to, idx)
  {
    var r := Move(m, id, from, to, idx);
    MoveKeepsRest(m, id, from, to, idx);
    MoveChildren(m, id, from, to, idx);
    forall k | k in m
      ensures r[k].children ==
        (if k == to then InsertAt(if to == from then Without(m[from].children, id) else m[to].children, idx, id)
         else if k == from then Without(m[from].children, id)
         else m[k].children)
    {
    }
  }

  lemma MoveKeepsRest<A>(m: Nodes<A>, id: Uuid, from: Uuid, to: Uuid, idx: Option<int>)
    requires id in m && to in m && from in m
    ensures forall k | k in m :: Move(m, id, from, to, idx)[k].percent == m[k].percent && Move(m, id, from, to, idx)[k].attrs == m[k].attrs
    ensures forall k | k in m :: Move(m, id, from, to, idx)[k].parent == if k == id then Some(to) else m[k].parent
  {
  }

  /** Two list writes and a parent write: the lists read back as written, every other list as it was. */
  lemma ListWrites<A>(m: Nodes<A>, from: Uuid, to: Uuid, id: Uuid, a: seq<Uuid>, b: seq<Uuid>)
    requires id in m && to in m && from in m
    ensures SetParent(SetChildren(SetChildren(m, from, a), to, b), id, Some(to))[to].children == b
    ensures from != to ==> SetParent(SetChildren(SetChildren(m, from, a), to, b), id, Some(to))[from].children == a
    ensures forall k | k in m && k != from && k != to ::
      SetParent(SetChildren(SetChildren(m, from, a), to, b), id, Some(to))[k].children == m[k].children
  {
  }

  lemma MoveChildren<A>(m: Nodes<A>, id: Uuid, from: Uuid, to: Uuid, idx: Option<int>)
    requires id in m && to in m && from in m
    ensures Move(m, id, from, to, idx)[to].children ==
      InsertAt(if to == from then Without(m[from].children, id) else m[to].children, idx, id)
    ensures from != to ==> Move(m, id, from, to, idx)[from].children == Without(m[from].children, id)
    ensures forall k | k in m && k != from && k != to :: Move(m, id, from, to, idx)[k].children == m[k].children
  {
    var w := Without(m[from].children, id);
    var m1 := SetChildren(m, from, w);
    var toKids := if to == from then w else m[to].children;
    assert m1[to].children == toKids;
    ListWrites(m, from, to, id, w, InsertAt(toKids, idx, id));
  }

  lemma MoveLinked<A>(m: Nodes<A>, id: Uuid, from: Uuid, to: Uuid, idx: Option<int>)
    requires Linked(m) && id in m && to in m && m[id].parent == Some(from) && from in m
    ensures Linked(Move(m, id, from, to, idx))
  {
    var r := Move(m, id, from, to, idx);
    MoveShape(m, id, from, to, idx);
    MovedLinked(m, r, id, from, to, idx);
  }

  /** A child listed after the move, other than the moved one, was listed by the same parent before. */
  lemma MovedChildWasListed<A>(m: Nodes<A>, r: Nodes<A>, id: Uuid, from: Uuid, to: Uuid, idx: Option<int>, k: Uuid, c: Uuid)
    requires from in m && to in m && MovedShape(m, r, id, from, to, idx)
    requires k in r && c in r[k].children && c != id
    ensures c in m[k].children
  {
  }

  /** A child listed before the move, other than the moved one, is listed by the same parent after. */
  lemma MovedChildStaysListed<A>(m: Nodes<A>, r: Nodes<A>, id: Uuid, from: Uuid, to: Uuid, idx: Option<int>, k: Uuid, c: Uuid)
    requires from in m && to in m && MovedShape(m, r, id, from, to, idx)
    requires k in m && c in m[k].children && c != id
    ensures c in r[k].children
  {
    if k == to && to == from {
      assert c in Without(m[from].children, id);
    } else if k == from {
      assert c in Without(m[from].children, id);
    }
  }

  /** What `Move` does to the links, and nothing about the order of the lists. */
  predicate MovedLinks<A>(m: Nodes<A>, r: Nodes<A>, id: Uuid, to: Uuid)
  {
    && r.Keys == m.Keys
    && to in r && id in r[to].children
    && (forall k | k in m :: r[k].parent == if k == id then Some(to) else m[k].parent)
    && (forall k, c | k in r && c in r[k].children && c != id :: c in m[k].children)
    && (forall k, c | k in m && c in m[k].children && c != id :: c in r[k].children)
    && (forall k | k in r && id in r[k].children :: k == to)
  }

  lemma MovedShapeLinks<A>(m: Nodes<A>, r: Nodes<A>, id: Uuid, from: Uuid, to: Uuid, idx: Option<int>)
    requires Linked(m) && id in m && m[id].parent == Some(from)
    requires from in m && to in m && MovedShape(m, r, id, from, to, idx)
    ensures MovedLinks(m, r, id, to)
  {
    forall k | k in r && id in r[k].children ensures k == to {
      if k != to && k != from {
        ListedOnlyByParent(m, k, id);
      }
    }
    forall k, c | k in r && c in r[k].children && c != id ensures c in m[k].children {
      MovedChildWasListed(m, r, id, from, to, idx, k, c);
    }
    forall k, c | k in m && c in m[k].children && c != id ensures c in r[k].children {
      MovedChildStaysListed(m, r, id, from, to, idx, k, c);
    }
  }

  lemma MovedLinked<A>(m: Nodes<A>, r: Nodes<A>, id: Uuid, from: Uuid, to: Uuid, idx: Option<int>)
    requires Linked(m) && id in m && to in m && m[id].parent == Some(from) && from in m
    requires MovedShape(m, r, id, from, to, idx)
    ensures Linked(r)
  {
    MovedShapeLinks(m, r, id, from, to, idx);
    LinksMoved(m, r, id, to);
  }

  lemma LinksMoved<A>(m: Nodes<A>, r: Nodes<A>, id: Uuid, to: Uuid)
    requires Linked(m) && id in m && MovedLinks(m, r, id, to)
    ensures Linked(r)
  {
    forall k, c | k in r && c in r[k].children ensures c in r && r[c].parent == Some(k) {
      if c != id {
        ListedOnlyByParent(m, k, c);
      }
    }
    forall k | k in r && r[k].parent.Some? ensures r[k].parent.value in r && k in r[r[k].parent.value].children {
      if k != id {
        var q := m[k].parent.value;
        assert k in m[q].children;
      }
    }
  }

  lemma MoveSized<A>(m: Nodes<A>, id: Uuid, from: Uuid, to: Uuid, idx: Option<int>, skip: set<Uuid>)
    requires Linked(m) && SizedBut(m, skip) && id in m && to in m && from in m
    ensures SizedBut(Move(m, id, from, to, idx), skip + {from, to})
  {
    var r := Move(m, id, from, to, idx);
    MoveShape(m, id, from, to, idx);
    forall k | k in r && k !in skip + {from, to} && |r[k].children| > 0 && AllIn(r, r[k].children)
      ensures Sum(ChildPercents(r, r[k].children)) == 1.0
    {
      assert r[k].children == m[k].children;
      LinkedAllIn(m, k);
      assert ChildPercents(r, r[k].children) == ChildPercents(m, m[k].children);
      SizedButAt(m, skip, k);
    }
  }

  // ---------------------------------------------------------------------
  // Detaching a child, and putting another node in a child's slot.

  /** The writes that take `id` out of its parent's list and clear its parent link. */
  function Detach<A>(m: Nodes<A>, p: Uuid, id: Uuid): (r: Nodes<A>)
    requires p in m && id in m
    ensures r.Keys == m.Keys
  {
    SetParent(SetChildren(m, p, Without(m[p].children, id)), id, None)
  }

  /**
   * Detaching keeps the links in agreement: afterwards no node lists `id`
   * and it has no parent; only its old parent may need resizing.
   */
  lemma DetachLinks<A>(m: Nodes<A>, p: Uuid, id: Uuid, skip: set<Uuid>)
    requires Linked(m) && Distinct(m) && SizedBut(m, skip)
    requires id in m && m[id].parent == Some(p)
    ensures p in m
    ensures Linked(Detach(m, p, id)) && Distinct(Detach(m, p, id)) && SizedBut(Detach(m, p, id), skip + {p})
    ensures Detach(m, p, id)[id].parent.None?
    ensures forall k | k in m :: id !in Detach(m, p, id)[k].children
    ensures Detach(m, p, id)[p].children == Without(m[p].children, id)
    ensures forall k | k in m :: Detach(m, p, id)[k].percent == m[k].percent && Detach(m, p, id)[k].attrs == m[k].attrs
    ensures forall k | k in m && k != p :: Detach(m, p, id)[k].children == m[k].children
    ensures forall k | k in m && k != id :: Detach(m, p, id)[k].parent == m[k].parent
  {
    var r := Detach(m, p, id);
    DetachShape(m, p, id);
    DetachedLinks(m, r, p, id, skip);
  }

  lemma DetachShape<A>(m: Nodes<A>, p: Uuid, id: Uuid)
    requires p in m && id in m
    ensures forall k | k in m :: Detach(m, p, id)[k].percent == m[k].percent && Detach(m, p, id)[k].attrs == m[k].attrs
    ensures forall k | k in m :: Detach(m, p, id)[k].children == if k == p then Without(m[p].children, id) else m[k].children
    ensures forall k | k in m :: Detach(m, p, id)[k].parent == if k == id then None else m[k].parent
  {
  }

  lemma DetachedLinks<A>(m: Nodes<A>, r: Nodes<A>, p: Uuid, id: Uuid, skip: set<Uuid>)
    requires Linked(m) && Distinct(m) && SizedBut(m, skip)
    requires id in m && m[id].parent == Some(p) && p in m
    requires r.Keys == m.Keys
    requires forall k | k in m :: r[k].percent == m[k].percent
    requires forall k | k in m :: r[k].children == if k == p then Without(m[p].children, id) else m[k].children
    requires forall k | k in m :: r[k].parent == if k == id then None else m[k].parent
    ensures Linked(r) && Distinct(r) && SizedBut(r, skip + {p})
    ensures forall k | k in m :: id !in r[k].children
  {
    DetachedShapeLinks(m, r, p, id);
    LinksDetached(m, r, id);
    DetachedDistinct(m, r, p, id);
    DetachedSized(m, r, p, id, skip);
  }

  lemma DetachedDistinct<A>(m: Nodes<A>, r: Nodes<A>, p: Uuid, id: Uuid)
    requires Distinct(m) && p in m && r.Keys == m.Keys
    requires forall k | k in m :: r[k].children == if k == p then Without(m[p].children, id) else m[k].children
    ensures Distinct(r)
  {
    forall k | k in r ensures NoDup(r[k].children) {
      if k == p {
        WithoutNoDup(m[p].children, id);
      }
    }
  }

  lemma DetachedSized<A>(m: Nodes<A>, r: Nodes<A>, p: Uuid, id: Uuid, skip: set<Uuid>)
    requires Linked(m) && SizedBut(m, skip) && p in m && r.Keys == m.Keys
    requires forall k | k in m :: r[k].percent == m[k].percent
    requires forall k | k in m :: r[k].children == if k == p then Without(m[p].children, id) else m[k].children
    ensures SizedBut(r, skip + {p})
  {
    forall k | k in r && k !in skip + {p} && |r[k].children| > 0 && AllIn(r, r[k].children)
      ensures Sum(ChildPercents(r, r[k].children)) == 1.0
    {
      LinkedAllIn(m, k);
      assert ChildPercents(r, r[k].children) == ChildPercents(m, m[k].children);
      SizedButAt(m, skip, k);
    }
  }

  /** Only a node's own parent lists it. */
  lemma ListedOnlyBy<A>(m: Nodes<A>, k: Uuid, c: Uuid, p: Uuid)
    requires Linked(m) && k in m && c in m && m[c].parent == Some(p) && k != p
    ensures c !in m[k].children
  {
  }

  /** What `Detach` does to the links, and nothing about the order of the lists. */
  predicate DetachedLinkFacts<A>(m: Nodes<A>, r: Nodes<A>, id: Uuid)
  {
    && r.Keys == m.Keys
    && (forall k | k in m :: r[k].parent == if k == id then None else m[k].parent)
    && (forall k, c | k in r && c in r[k].children :: c in m[k].children && c != id)
    && (forall k, c | k in m && c in m[k].children && c != id :: c in r[k].children)
  }

  lemma DetachedShapeLinks<A>(m: Nodes<A>, r: Nodes<A>, p: Uuid, id: Uuid)
    requires Linked(m) && id in m && m[id].parent == Some(p) && p in m
    requires r.Keys == m.Keys
    requires forall k | k in m :: r[k].children == if k == p then Without(m[p].children, id) else m[k].children
    requires forall k | k in m :: r[k].parent == if k == id then None else m[k].parent
    ensures DetachedLinkFacts(m, r, id)
    ensures forall k | k in m :: id !in r[k].children
  {
    forall k | k in m ensures id !in r[k].children {
      if k != p {
        ListedOnlyBy(m, k, id, p);
      }
    }
    forall k, c | k in r && c in r[k].children ensures c in m[k].children && c != id {
      DetachedChildWasListed(m, r, p, id, k, c);
    }
    forall k, c | k in m && c in m[k].children && c != id ensures c in r[k].children {
      DetachedChildStaysListed(m, r, p, id, k, c);
    }
  }

  lemma DetachedChildWasListed<A>(m: Nodes<A>, r: Nodes<A>, p: Uuid, id: Uuid, k: Uuid, c: Uuid)
    requires p in m && r.Keys == m.Keys
    requires forall k | k in m :: r[k].children == if k == p then Without(m[p].children, id) else m[k].children
    requires forall k | k in m :: id !in r[k].children
    requires k in r && c in r[k].children
    ensures c in m[k].children && c != id
  {
  }

  lemma DetachedChildStaysListed<A>(m: Nodes<A>, r: Nodes<A>, p: Uuid, id: Uuid, k: Uuid, c: Uuid)
    requires p in m && r.Keys == m.Keys
    requires forall k | k in m :: r[k].children == if k == p then Without(m[p].children, id) else m[k].children
    requires k in m && c in m[k].children && c != id
    ensures c in r[k].children
  {
    if k == p {
      assert c in Without(m[p].children, id);
    }
  }

  lemma LinksDetached<A>(m: Nodes<A>, r: Nodes<A>, id: Uuid)
    requires Linked(m) && id in m && DetachedLinkFacts(m, r, id)
    ensures Linked(r)
  {
    forall k, c | k in r && c in r[k].children ensures c in r && r[c].parent == Some(k) {
      ListedOnlyByParent(m, k, c);
    }
    forall k | k in r && r[k].parent.Some? ensures r[k].parent.value in r && k in r[r[k].parent.value].children {
      var q := m[k].parent.value;
      assert k in m[q].children;
    }
  }

  /** `findIndex`: the first position of `x`, or -1. */
  function IndexOf(s: seq<Uuid>, x: Uuid): (r: int)
    ensures -1 <= r < |s|
    ensures r == -1 <==> x !in s
    ensures r >= 0 ==> s[r] == x && x !in s[..r]
  {
    if |s| == 0 then -1
    else if s[0] == x then 0
    else
      var i := IndexOf(s[1..], x);
      if i == -1 then -1
      else
        assert s[..i + 1] == [s[0]] + s[1..][..i];
        i + 1
  }

  /** `splice(i, 1, x)`: the entry at `i` (counted from the end when negative) becomes `x`; on an empty list `x` is added. */
  function SpliceOne(s: seq<Uuid>, i: int, x: Uuid): (r: seq<Uuid>)
    ensures 0 <= i < |s| ==> r == s[i := x]
  {
    var k := SpliceStart(|s|, i);
    if k == |s| then s + [x] else s[..k] + [x] + s[k + 1..]
  }

  /** `splice(idx, 1)`: the entry at `idx` (counted from the end when negative) goes; past the end nothing does. */
  function RemoveAt(s: seq<Uuid>, idx: int): (r: seq<Uuid>)
    ensures 0 <= idx < |s| ==> r == s[..idx] + s[idx + 1..]
    ensures idx == -1 && |s| > 0 ==> r == s[..|s| - 1]
  {
    var k := SpliceStart(|s|, idx);
    if k == |s| then s else s[..k] + s[k + 1..]
  }

  /** In a list without repeats, removing at the index `findIndex` gives is filtering the id out. */
  lemma RemoveFoundIsWithout(s: seq<Uuid>, x: Uuid)
    requires NoDup(s) && x in s
    ensures RemoveAt(s, IndexOf(s, x)) == Without(s, x)
  {
    var i := IndexOf(s, x);
    NoDupSplit(s, i);
    WithoutAround(s[..i], s[i + 1..], x);
  }

  /** A list without repeats splits around any position into two parts without that entry. */
  lemma NoDupSplit(s: seq<Uuid>, i: int)
    requires NoDup(s) && 0 <= i < |s|
    ensures s == s[..i] + [s[i]] + s[i + 1..]
    ensures s[i] !in s[i + 1..]
  {
    forall j | i + 1 <= j < |s| ensures s[j] != s[i] {
    }
  }

  /** Filtering out the one copy of `x` between two lists without it joins the lists. */
  lemma WithoutAround(pre: seq<Uuid>, post: seq<Uuid>, x: Uuid)
    requires x !in pre && x !in post
    ensures Without(pre + [x] + post, x) == pre + post
  {
    var tail := [x] + post;
    assert pre + [x] + post == pre + tail;
    assert tail[0] == x && tail[1..] == post;
    assert Without(tail, x) == Without(post, x);
    WithoutConcat(pre, tail, x);
  }

  lemma {:induction false} WithoutConcat(a: seq<Uuid>, b: seq<Uuid>, x: Uuid)
    ensures Without(a + b, x) == Without(a, x) + Without(b, x)
    decreases |a|
  {
    if |a| > 0 {
      assert (a + b)[0] == a[0];
      assert (a + b)[1..] == a[1..] + b;
      WithoutConcat(a[1..], b, x);
    } else {
      assert a + b == b;
    }
  }

  /**
   * The writes at the end of `replaceWith`: `incoming` takes `outgoing`'s percent,
   * `outgoing` is reset to 1, `incoming` takes `outgoing`'s slot in the parent's list, and
   * the parent links follow.
   */
  function Swap<A>(m: Nodes<A>, p: Uuid, outgoing: Uuid, incoming: Uuid): (r: Nodes<A>)
    requires p in m && outgoing in m && incoming in m
    ensures r.Keys == m.Keys
  {
    var m2 := SetPercent(m, incoming, m[outgoing].percent);
    var m3 := SetPercent(m2, outgoing, 1.0);
    var kids := m3[p].children;
    var m4 := SetChildren(m3, p, SpliceOne(kids, IndexOf(kids, outgoing), incoming));
    SetParent(SetParent(m4, outgoing, None), incoming, Some(p))
  }

  /**
   * Swapping a detached node into a child's slot keeps the store well
   * formed: the parent's list is the same incoming `incoming` in `outgoing`'s place, and
   * since `incoming` carries `outgoing`'s percent the parent stays sized.
   */
  lemma SwapLinks<A>(m: Nodes<A>, p: Uuid, outgoing: Uuid, incoming: Uuid, skip: set<Uuid>)
    requires Linked(m) && Distinct(m) && SizedBut(m, skip)
    requires outgoing in m && m[outgoing].parent == Some(p) && incoming in m && m[incoming].parent.None?
    requires incoming != outgoing && incoming != p
    ensures p in m
    ensures Linked(Swap(m, p, outgoing, incoming)) && Distinct(Swap(m, p, outgoing, incoming)) && SizedBut(Swap(m, p, outgoing, incoming), skip)
    ensures Swap(m, p, outgoing, incoming)[p].children == m[p].children[IndexOf(m[p].children, outgoing) := incoming]
    ensures Swap(m, p, outgoing, incoming)[incoming].percent == m[outgoing].percent
    ensures Swap(m, p, outgoing, incoming)[incoming].parent == Some(p)
    ensures Swap(m, p, outgoing, incoming)[outgoing].parent.None? && Swap(m, p, outgoing, incoming)[outgoing].percent == 1.0
    ensures forall k | k in m :: Swap(m, p, outgoing, incoming)[k].attrs == m[k].attrs
    ensures forall k | k in m && k != p :: Swap(m, p, outgoing, incoming)[k].children == m[k].children
  {
    var kids := m[p].children;
    assert outgoing in kids;
    var i := IndexOf(kids, outgoing);
    var r := Swap(m, p, outgoing, incoming);
    SwapShape(m, p, outgoing, incoming);
    forall k | k in m ensures incoming !in m[k].children {
      NeverListed(m, k, incoming);
    }
    SwappedLinked(m, r, p, outgoing, incoming, i);
    forall k | k in r ensures NoDup(r[k].children) {
      if k == p {
        forall a, b | 0 <= a < b < |kids| ensures r[p].children[a] != r[p].children[b] {
          assert kids[a] != kids[b];
        }
      }
    }
    SwappedSized(m, r, p, outgoing, incoming, i, skip);
  }

  /** A node without a parent is nobody's child. */
  lemma NeverListed<A>(m: Nodes<A>, k: Uuid, c: Uuid)
    requires Linked(m) && k in m && c in m && m[c].parent.None?
    ensures c !in m[k].children
  {
  }

  lemma SwapShape<A>(m: Nodes<A>, p: Uuid, outgoing: Uuid, incoming: Uuid)
    requires p in m && outgoing in m && incoming in m && outgoing in m[p].children
    requires incoming != outgoing && incoming != p
    ensures Swap(m, p, outgoing, incoming)[p].children == m[p].children[IndexOf(m[p].children, outgoing) := incoming]
    ensures forall k | k in m && k != p :: Swap(m, p, outgoing, incoming)[k].children == m[k].children
    ensures forall k | k in m :: Swap(m, p, outgoing, incoming)[k].attrs == m[k].attrs
    ensures forall k | k in m ::
      Swap(m, p, outgoing, incoming)[k].parent == if k == outgoing then None else if k == incoming then Some(p) else m[k].parent
    ensures forall k | k in m ::
      Swap(m, p, outgoing, incoming)[k].percent == if k == outgoing then 1.0 else if k == incoming then m[outgoing].percent else m[k].percent
  {
    var kids := m[p].children;
    var i := IndexOf(kids, outgoing);
    var m2 := SetPercent(m, incoming, m[outgoing].percent);
    var m3 := SetPercent(m2, outgoing, 1.0);
    assert m3[p].children == kids;
    var m4 := SetChildren(m3, p, kids[i := incoming]);
    var r := SetParent(SetParent(m4, outgoing, None), incoming, Some(p));
    assert Swap(m, p, outgoing, incoming) == r;
  }

  lemma SwappedLinked<A>(m: Nodes<A>, r: Nodes<A>, p: Uuid, outgoing: Uuid, incoming: Uuid, i: int)
    requires Linked(m) && Distinct(m) && outgoing in m && m[outgoing].parent == Some(p) && incoming in m && m[incoming].parent.None?
    requires incoming != outgoing && incoming != p && p in m
    requires 0 <= i < |m[p].children| && m[p].children[i] == outgoing
    requires forall k | k in m :: incoming !in m[k].children
    requires r.Keys == m.Keys
    requires r[p].children == m[p].children[i := incoming]
    requires forall k | k in m && k != p :: r[k].children == m[k].children
    requires forall k | k in m :: r[k].parent == if k == outgoing then None else if k == incoming then Some(p) else m[k].parent
    ensures Linked(r)
  {
    SwappedChildrenLinked(m, r, p, outgoing, incoming, i);
    SwappedParentsLinked(m, r, p, outgoing, incoming, i);
  }

  lemma SwappedChildrenLinked<A>(m: Nodes<A>, r: Nodes<A>, p: Uuid, outgoing: Uuid, incoming: Uuid, i: int)
    requires Linked(m) && Distinct(m) && outgoing in m && m[outgoing].parent == Some(p) && incoming in m && m[incoming].parent.None?
    requires incoming != outgoing && incoming != p && p in m
    requires 0 <= i < |m[p].children| && m[p].children[i] == outgoing
    requires forall k | k in m :: incoming !in m[k].children
    requires r.Keys == m.Keys
    requires r[p].children == m[p].children[i := incoming]
    requires forall k | k in m && k != p :: r[k].children == m[k].children
    requires forall k | k in m :: r[k].parent == if k == outgoing then None else if k == incoming then Some(p) else m[k].parent
    ensures ChildrenLinked(r)
  {
    var kids := m[p].children;
    forall k, c | k in r && c in r[k].children ensures c in r && r[c].parent == Some(k) {
      if c != incoming {
        assert c in m[k].children;
        if k == p {
          var j :| 0 <= j < |kids| && r[p].children[j] == c;
          assert j != i;
          assert kids[j] == c;
        }
        ListedOnlyByParent(m, k, c);
      }
    }
  }

  lemma SwappedParentsLinked<A>(m: Nodes<A>, r: Nodes<A>, p: Uuid, outgoing: Uuid, incoming: Uuid, i: int)
    requires Linked(m) && Distinct(m) && outgoing in m && m[outgoing].parent == Some(p) && incoming in m && m[incoming].parent.None?
    requires incoming != outgoing && incoming != p && p in m
    requires 0 <= i < |m[p].children| && m[p].children[i] == outgoing
    requires forall k | k in m :: incoming !in m[k].children
    requires r.Keys == m.Keys
    requires r[p].children == m[p].children[i := incoming]
    requires forall k | k in m && k != p :: r[k].children == m[k].children
    requires forall k | k in m :: r[k].parent == if k == outgoing then None else if k == incoming then Some(p) else m[k].parent
    ensures ParentsLinked(r)
  {
    var kids := m[p].children;
    forall k | k in r && r[k].parent.Some? ensures r[k].parent.value in r && k in r[r[k].parent.value].children {
      if k == incoming {
        assert r[p].children[i] == incoming;
      } else {
        var q := m[k].parent.value;
        assert k in m[q].children;
        if q == p {
          var j :| 0 <= j < |kids| && kids[j] == k;
          assert j != i;
          assert r[p].children[j] == k;
        }
      }
    }
  }

  lemma SwappedSized<A>(m: Nodes<A>, r: Nodes<A>, p: Uuid, outgoing: Uuid, incoming: Uuid, i: int, skip: set<Uuid>)
    requires Linked(m) && Distinct(m) && SizedBut(m, skip) && outgoing in m && incoming in m && p in m
    requires incoming != outgoing && incoming != p
    requires 0 <= i < |m[p].children| && m[p].children[i] == outgoing
    requires forall k | k in m :: incoming !in m[k].children
    requires r.Keys == m.Keys
    requires r[p].children == m[p].children[i := incoming]
    requires forall k | k in m && k != p :: r[k].children == m[k].children
    requires r[incoming].percent == m[outgoing].percent
    requires forall k | k in m && k != incoming && k != outgoing :: r[k].percent == m[k].percent
    ensures SizedBut(r, skip)
  {
    forall k | k in r && k !in skip && |r[k].children| > 0 && AllIn(r, r[k].children)
      ensures Sum(ChildPercents(r, r[k].children)) == 1.0
    {
      LinkedAllIn(m, k);
      if k == p {
        SwappedParentPercents(m, r, p, outgoing, incoming, i);
      } else {
        SwappedOtherPercents(m, r, k, p, outgoing, incoming, i);
      }
      SizedButAt(m, skip, k);
    }
  }

  /** The parent's list keeps its percents: `incoming` carries `outgoing`'s into the same place. */
  lemma SwappedParentPercents<A>(m: Nodes<A>, r: Nodes<A>, p: Uuid, outgoing: Uuid, incoming: Uuid, i: int)
    requires p in m && incoming in m && incoming != outgoing && NoDup(m[p].children) && AllIn(m, m[p].children)
    requires 0 <= i < |m[p].children| && m[p].children[i] == outgoing && incoming !in m[p].children
    requires r.Keys == m.Keys && r[p].children == m[p].children[i := incoming]
    requires r[incoming].percent == m[outgoing].percent
    requires forall k | k in m && k != incoming && k != outgoing :: r[k].percent == m[k].percent
    ensures AllIn(r, r[p].children) && ChildPercents(r, r[p].children) == ChildPercents(m, m[p].children)
  {
    var cs := m[p].children;
    assert AllIn(r, r[p].children) by {
      forall j | 0 <= j < |cs| ensures r[p].children[j] in r {
        if j != i { assert cs[j] in m; }
      }
    }
    forall j | 0 <= j < |cs| ensures ChildPercents(r, r[p].children)[j] == ChildPercents(m, cs)[j] {
      if j != i {
        assert cs[j] != cs[i] && cs[j] in cs;
      }
    }
  }

  /** Any other parent's children keep their percents: `outgoing` is not theirs and `incoming` is nobody's. */
  lemma SwappedOtherPercents<A>(m: Nodes<A>, r: Nodes<A>, k: Uuid, p: Uuid, outgoing: Uuid, incoming: Uuid, i: int)
    requires Linked(m) && k in m && p in m && k != p
    requires 0 <= i < |m[p].children| && m[p].children[i] == outgoing
    requires incoming !in m[k].children
    requires r.Keys == m.Keys && r[k].children == m[k].children
    requires forall k | k in m && k != incoming && k != outgoing :: r[k].percent == m[k].percent
    ensures AllIn(m, m[k].children) && AllIn(r, r[k].children)
    ensures ChildPercents(r, r[k].children) == ChildPercents(m, m[k].children)
  {
    var cs := m[k].children;
    LinkedAllIn(m, k);
    forall j | 0 <= j < |cs| ensures r[cs[j]].percent == m[cs[j]].percent {
      assert cs[j] in cs;
      if cs[j] == outgoing {
        ListedOnlyByParent(m, k, outgoing);
        assert outgoing in m[p].children;
        ListedOnlyByParent(m, p, outgoing);
      }
    }
  }

  // ---------------------------------------------------------------------
  // Deleting a subtree.

  /** The nodes of `r` are nodes of `m`, untouched. */
  /** Every node keeps its links and its size; only its attributes may change. */
  predicate SameShape<A>(m: Nodes<A>, r: Nodes<A>)
  {
    && m.Keys == r.Keys
    && forall k | k in m :: r[k].parent == m[k].parent && r[k].children == m[k].children && r[k].percent == m[k].percent
  }

  /** The parent and child links of every node, and nothing else, agree. */
  predicate SameLinks<A>(m: Nodes<A>, r: Nodes<A>)
  {
    && m.Keys == r.Keys
    && forall k | k in m :: r[k].parent == m[k].parent && r[k].children == m[k].children
  }

  /** Changing only percents and attributes keeps the links in agreement and the lists free of repeats. */
  lemma SameLinksKeep<A>(m: Nodes<A>, r: Nodes<A>)
    requires SameLinks(m, r)
    ensures Linked(r) == Linked(m) && Distinct(r) == Distinct(m)
  {
    assert ChildrenLinked(r) == ChildrenLinked(m);
    assert ParentsLinked(r) == ParentsLinked(m);
  }

  /** Changing only attributes keeps a store well formed. */
  lemma SameShapeKeepsWf<A>(m: Nodes<A>, r: Nodes<A>)
    requires Wf(m) && SameShape(m, r)
    ensures Wf(r)
  {
    assert Linked(r);
    assert Distinct(r);
    forall k | k in r && |r[k].children| > 0 && AllIn(r, r[k].children)
      ensures Sum(ChildPercents(r, r[k].children)) == 1.0
    {
      assert ChildPercents(r, m[k].children) == ChildPercents(m, m[k].children);
    }
  }

  ghost predicate Survives<A>(m: Nodes<A>, r: Nodes<A>)
  {
    r.Keys <= m.Keys && forall k | k in r :: r[k] == m[k]
  }

  /** Every child listed by a deleted node is deleted too, `keep` aside. */
  predicate ListsGone<A>(m: Nodes<A>, r: Nodes<A>, keep: Uuid)
  {
    forall q, c | q in m && q !in r && c in m[q].children :: c !in r || c == keep
  }

  /** Some deleted node listed `d`. */
  ghost predicate ListedByDeleted<A>(m: Nodes<A>, r: Nodes<A>, d: Uuid)
  {
    exists q | q in m && q !in r :: d in m[q].children
  }

  /** Every deleted node outside `top` was listed by a deleted node: nothing unrelated goes. */
  ghost predicate DeletedListed<A>(m: Nodes<A>, r: Nodes<A>, top: set<Uuid>)
  {
    forall d | d in m && d !in r && d !in top :: ListedByDeleted(m, r, d)
  }

  /** A deleted node other than the parentless `id` had a deleted parent: its only lister. */
  lemma DeletedParentDeleted<A>(m: Nodes<A>, r: Nodes<A>, id: Uuid, c: Uuid)
    requires Linked(m) && id in m && m[id].parent.None?
    requires DeletedListed(m, r, {id}) && c in m
    ensures c !in r ==> m[c].parent.None? || m[c].parent.value !in r
  {
    if c !in r && c != id {
      assert ListedByDeleted(m, r, c);
      var q :| q in m && q !in r && c in m[q].children;
      ListerNamed(m, q, c);
    }
  }

  /** Under the link invariant, the panel that lists `c` is its parent. */
  lemma ListerNamed<A>(m: Nodes<A>, q: Uuid, c: Uuid)
    requires ChildrenLinked(m) && q in m && c in m[q].children
    ensures c in m && m[c].parent == Some(q)
  {
  }

  /** No survivor lists a deleted node. */
  lemma SurvivorsListSurvivors<A>(m: Nodes<A>, r: Nodes<A>, id: Uuid)
    requires Linked(m) && id in m && m[id].parent.None?
    requires Survives(m, r) && DeletedListed(m, r, {id})
    ensures forall k, c | k in r && c in r[k].children :: c in r && r[c].parent == Some(k)
  {
    forall k, c | k in r && c in r[k].children
      ensures c in r && r[c].parent == Some(k)
    {
      assert c in m && m[c].parent == Some(k);
      DeletedParentDeleted(m, r, id, c);
    }
  }

  /** No survivor has a deleted parent: the only child of a deleted node that may survive is `keep`, which has no parent. */
  lemma SurvivorsHaveSurvivingParents<A>(m: Nodes<A>, r: Nodes<A>, keep: Uuid)
    requires Linked(m) && keep in m && m[keep].parent.None?
    requires Survives(m, r) && ListsGone(m, r, keep)
    ensures forall k | k in r && r[k].parent.Some? :: r[k].parent.value in r && k in r[r[k].parent.value].children
  {
    forall k | k in r && r[k].parent.Some?
      ensures r[k].parent.value in r && k in r[r[k].parent.value].children
    {
      assert k in m[m[k].parent.value].children;
    }
  }

  /** Survivors' lists are unchanged and their members survive unchanged, so each still shares its parent exactly. */
  lemma SurvivorsSized<A>(m: Nodes<A>, r: Nodes<A>)
    requires Sized(m) && Survives(m, r)
    ensures Sized(r)
  {
    forall k | k in r && |r[k].children| > 0 && AllIn(r, r[k].children)
      ensures Sum(ChildPercents(r, r[k].children)) == 1.0
    {
      assert ChildPercents(r, m[k].children) == ChildPercents(m, m[k].children);
    }
  }

  /**
   * Deleting from a well-formed store a parentless node `id`, every child of
   * a deleted node (`keep`, parentless, aside), and only nodes some deleted
   * node listed, while every survivor stays untouched, keeps it well formed.
   */
  lemma PrunedKeepsWf<A>(m: Nodes<A>, r: Nodes<A>, id: Uuid, keep: Uuid)
    requires Wf(m) && id in m && m[id].parent.None? && keep in m && m[keep].parent.None?
    requires Survives(m, r) && ListsGone(m, r, keep) && DeletedListed(m, r, {id})
    ensures Wf(r)
  {
    assert Linked(r) by {
      PrunedLinked(m, r, id, keep);
    }
    assert Distinct(r);
    assert Sized(r) by {
      SurvivorsSized(m, r);
    }
  }

  lemma PrunedLinked<A>(m: Nodes<A>, r: Nodes<A>, id: Uuid, keep: Uuid)
    requires Linked(m) && id in m && m[id].parent.None? && keep in m && m[keep].parent.None?
    requires Survives(m, r) && ListsGone(m, r, keep) && DeletedListed(m, r, {id})
    ensures Linked(r)
  {
    assert ChildrenLinked(r) by {
      SurvivorsListSurvivors(m, r, id);
    }
    assert ParentsLinked(r) by {
      SurvivorsHaveSurvivingParents(m, r, keep);
    }
  }
}
