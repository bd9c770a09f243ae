/**
 * Subtrees of the id-keyed panel store, for stores whose children lists do
 * not loop.
 *
 * The store's link invariant (`Linked`, `Distinct`) does not rule out a
 * cycle: two panels that name each other as parent and child satisfy it.
 * Every recursive delete in the source would run on such a cycle until the
 * stack gives out. A `rank` map, a height for every panel with each listed
 * child strictly below its lister, is what excludes that; with it the
 * subtree of a panel is a finite set built the way the deletes walk it.
 */
module PanelSubtree {
  import opened Wrappers
  import opened PanelStore

  /**
   * `rank` is a height for the store: every listed child that has a node
   * sits strictly below the panel that lists it. Such a map exists exactly
   * when no chain of children lists leads back to where it started.
   */
  predicate Ranked<A>(m: Nodes<A>, rank: map<Uuid, nat>)
  {
    && m.Keys <= rank.Keys
    && forall k, c | k in m && c in m[k].children && c in m :: rank[c] < rank[k]
  }

  /** The panel and everything below it, walking the children lists in order. */
  function Sub<A>(m: Nodes<A>, rank: map<Uuid, nat>, id: Uuid): (r: set<Uuid>)
    requires Ranked(m, rank) && id in m
    ensures id in r && r <= m.Keys
    decreases rank[id], 1, 0
  {
    {id} + SubAll(m, rank, m[id].children, rank[id])
  }

  /** The subtrees of the listed panels that have nodes, all below `bound`. */
  function SubAll<A>(m: Nodes<A>, rank: map<Uuid, nat>, kids: seq<Uuid>, bound: nat): (r: set<Uuid>)
    requires Ranked(m, rank)
    requires forall c | c in kids && c in m :: rank[c] < bound
    ensures r <= m.Keys
    decreases bound, 0, |kids|
  {
    if |kids| == 0 then {}
    else (if kids[0] in m then Sub(m, rank, kids[0]) else {}) + SubAll(m, rank, kids[1..], bound)
  }

  /** Removing two key sets one after the other removes their union. */
  lemma MinusTwice<K, V>(m: map<K, V>, a: set<K>, b: set<K>)
    ensures (m - a) - b == m - (a + b)
  {
  }

  /** A subtree with its top taken off is the walk over the top's children. */
  lemma SubSplit<A>(m: Nodes<A>, rank: map<Uuid, nat>, id: Uuid)
    requires Ranked(m, rank) && id in m
    ensures Sub(m, rank, id) == SubAll(m, rank, m[id].children, rank[id]) + {id}
  {
  }

  /** Every panel of `s` has a node in both stores, unchanged from `m0` to `m`. */
  predicate Intact<A(==)>(m0: Nodes<A>, m: Nodes<A>, s: set<Uuid>)
  {
    s <= m0.Keys && s <= m.Keys && forall k | k in s :: m[k] == m0[k]
  }

  /** Every panel of a subtree is at most as high as its top, and strictly lower unless it is the top. */
  lemma {:induction false} SubRank<A>(m: Nodes<A>, rank: map<Uuid, nat>, id: Uuid, x: Uuid)
    requires Ranked(m, rank) && id in m && x in Sub(m, rank, id)
    ensures rank[x] <= rank[id]
    ensures x != id ==> rank[x] < rank[id]
    decreases rank[id], 1, 0
  {
    if x != id {
      SubAllRank(m, rank, m[id].children, rank[id], x);
    }
  }

  lemma {:induction false} SubAllRank<A>(m: Nodes<A>, rank: map<Uuid, nat>, kids: seq<Uuid>, bound: nat, x: Uuid)
    requires Ranked(m, rank)
    requires forall c | c in kids && c in m :: rank[c] < bound
    requires x in SubAll(m, rank, kids, bound)
    ensures rank[x] < bound
    decreases bound, 0, |kids|
  {
    if kids[0] in m && x in Sub(m, rank, kids[0]) {
      SubRank(m, rank, kids[0], x);
    } else {
      SubAllRank(m, rank, kids[1..], bound, x);
    }
  }

  /** A panel of a children walk lies in the subtree of one of the listed panels. */
  lemma {:induction false} SubAllFrom<A>(m: Nodes<A>, rank: map<Uuid, nat>, kids: seq<Uuid>, bound: nat, x: Uuid)
    returns (c: Uuid)
    requires Ranked(m, rank)
    requires forall c | c in kids && c in m :: rank[c] < bound
    requires x in SubAll(m, rank, kids, bound)
    ensures c in kids && c in m && x in Sub(m, rank, c)
    decreases |kids|
  {
    if kids[0] in m && x in Sub(m, rank, kids[0]) {
      c := kids[0];
    } else {
      c := SubAllFrom(m, rank, kids[1..], bound, x);
    }
  }

  /** The walk over a list takes in the whole subtree of every listed panel. */
  lemma {:induction false} SubAllHas<A>(m: Nodes<A>, rank: map<Uuid, nat>, kids: seq<Uuid>, bound: nat, c: Uuid)
    requires Ranked(m, rank)
    requires forall c | c in kids && c in m :: rank[c] < bound
    requires c in kids && c in m
    ensures Sub(m, rank, c) <= SubAll(m, rank, kids, bound)
    decreases |kids|
  {
    if kids[0] != c {
      SubAllHas(m, rank, kids[1..], bound, c);
    }
  }

  /** Below the top, every panel of a subtree has a parent link, to a panel of the same subtree. */
  lemma {:induction false} ParentInSub<A>(m: Nodes<A>, rank: map<Uuid, nat>, id: Uuid, x: Uuid)
    requires Linked(m) && Ranked(m, rank) && id in m
    requires x in Sub(m, rank, id) && x != id
    ensures m[x].parent.Some? && m[x].parent.value in Sub(m, rank, id)
    decreases rank[id]
  {
    LinkedAllIn(m, id);
    var c := SubAllFrom(m, rank, m[id].children, rank[id], x);
    SubAllHas(m, rank, m[id].children, rank[id], c);
    if x == c {
      assert m[x].parent == Some(id);
    } else {
      ParentInSub(m, rank, c, x);
    }
  }

  /** Two subtrees that meet are nested: the lower top lies in the other subtree. */
  lemma {:induction false} SubsNest<A>(m: Nodes<A>, rank: map<Uuid, nat>, a: Uuid, b: Uuid, x: Uuid)
    requires Linked(m) && Ranked(m, rank) && a in m && b in m
    requires x in Sub(m, rank, a) && x in Sub(m, rank, b) && rank[a] <= rank[b]
    ensures a in Sub(m, rank, b)
    decreases if rank[x] <= rank[a] then rank[a] - rank[x] else 0
  {
    SubRank(m, rank, a, x);
    if x != a {
      SubRank(m, rank, b, x);
      ParentInSub(m, rank, a, x);
      ParentInSub(m, rank, b, x);
      var y := m[x].parent.value;
      assert x in m[y].children;
      SubRank(m, rank, a, y);
      SubsNest(m, rank, a, b, y);
    }
  }

  /** The subtrees of two different children of one panel share nothing. */
  lemma SiblingsApart<A>(m: Nodes<A>, rank: map<Uuid, nat>, p: Uuid, a: Uuid, b: Uuid)
    requires Linked(m) && Ranked(m, rank) && p in m
    requires a in m[p].children && b in m[p].children && a != b
    ensures a in m && b in m
    ensures Sub(m, rank, a) !! Sub(m, rank, b)
  {
    LinkedAllIn(m, p);
    if x :| x in Sub(m, rank, a) && x in Sub(m, rank, b) {
      if rank[a] <= rank[b] {
        SubsNest(m, rank, a, b, x);
        ParentInSub(m, rank, b, a);
        SubRank(m, rank, b, p);
      } else {
        SubsNest(m, rank, b, a, x);
        ParentInSub(m, rank, a, b);
        SubRank(m, rank, a, p);
      }
    }
  }

  /**
   * The subtree of the first of a parent's (distinct) children and the
   * walk over the rest share nothing.
   */
  lemma FirstApart<A>(m: Nodes<A>, rank: map<Uuid, nat>, p: Uuid, kids: seq<Uuid>)
    requires Linked(m) && Ranked(m, rank) && p in m && |kids| > 0 && NoDup(kids)
    requires forall c | c in kids :: c in m[p].children
    ensures kids[0] in m
    ensures Sub(m, rank, kids[0]) !! SubAll(m, rank, kids[1..], rank[p])
  {
    LinkedAllIn(m, p);
    NoDupTail(kids);
    var a, rest := kids[0], kids[1..];
    assert a in m[p].children;
    forall x | x in SubAll(m, rank, rest, rank[p]) ensures x !in Sub(m, rank, a) {
      var c := SubAllFrom(m, rank, rest, rank[p], x);
      assert c in kids && c != a;
      SiblingsApart(m, rank, p, a, c);
    }
  }

  /** Nothing below a panel other than the root is the parentless root. */
  lemma RootOutside<A>(m: Nodes<A>, rank: map<Uuid, nat>, id: Uuid, root: Uuid)
    requires Linked(m) && Ranked(m, rank) && id in m && id != root
    requires root in m ==> m[root].parent.None?
    ensures root !in Sub(m, rank, id)
  {
    if root in Sub(m, rank, id) {
      ParentInSub(m, rank, id, root);
    }
  }

  /** A panel above `id` is outside its subtree. */
  lemma AboveOutside<A>(m: Nodes<A>, rank: map<Uuid, nat>, id: Uuid, p: Uuid)
    requires Ranked(m, rank) && id in m && p in m && rank[p] > rank[id]
    ensures p !in Sub(m, rank, id)
  {
    if p in Sub(m, rank, id) {
      SubRank(m, rank, id, p);
    }
  }

  /** Dropping entries from children lists keeps a rank a height. */
  lemma ShrunkRanked<A>(m: Nodes<A>, m1: Nodes<A>, rank: map<Uuid, nat>)
    requires Ranked(m, rank) && m1.Keys == m.Keys
    requires forall k, c | k in m && c in m1[k].children :: c in m[k].children
    ensures Ranked(m1, rank)
  {
  }

  /** Changing children lists only outside a subtree keeps the subtree the same set. */
  lemma {:induction false} SubFrame<A>(m: Nodes<A>, m1: Nodes<A>, rank: map<Uuid, nat>, id: Uuid)
    requires Ranked(m, rank) && Ranked(m1, rank) && m1.Keys == m.Keys && id in m
    requires forall k | k in Sub(m, rank, id) :: m1[k].children == m[k].children
    ensures Sub(m1, rank, id) == Sub(m, rank, id)
    decreases rank[id], 1, 0
  {
    SubAllFrame(m, m1, rank, m[id].children, rank[id], Sub(m, rank, id));
  }

  lemma {:induction false} SubAllFrame<A>(m: Nodes<A>, m1: Nodes<A>, rank: map<Uuid, nat>, kids: seq<Uuid>, bound: nat, s: set<Uuid>)
    requires Ranked(m, rank) && Ranked(m1, rank) && m1.Keys == m.Keys
    requires forall c | c in kids && c in m :: rank[c] < bound
    requires SubAll(m, rank, kids, bound) <= s
    requires forall k | k in s :: k in m && m1[k].children == m[k].children
    ensures SubAll(m1, rank, kids, bound) == SubAll(m, rank, kids, bound)
    decreases bound, 0, |kids|
  {
    if |kids| > 0 {
      if kids[0] in m {
        SubFrame(m, m1, rank, kids[0]);
      }
      SubAllFrame(m, m1, rank, kids[1..], bound, s);
    }
  }

  /** Detaching a listed child keeps a rank a height and the child's subtree the same set. */
  lemma DetachRanked<A>(m: Nodes<A>, rank: map<Uuid, nat>, p: Uuid, id: Uuid)
    requires Ranked(m, rank) && p in m && id in m && id in m[p].children
    ensures Ranked(Detach(m, p, id), rank)
    ensures Sub(Detach(m, p, id), rank, id) == Sub(m, rank, id)
  {
    var m1 := Detach(m, p, id);
    DetachShape(m, p, id);
    ShrunkRanked(m, m1, rank);
    AboveOutside(m, rank, id, p);
    SubFrame(m, m1, rank, id);
  }
}
