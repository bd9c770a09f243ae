/**
 * The immutable layout tree of the workspace view
 * (ui/app/src/renderer/ui/Panels/data.ts, and its near-copy
 * ui/src/renderer/ui/panel3/data.ts).
 *
 * A panel node is either a split, whose children each carry a percent of the
 * split's extent, or a tabs node, which shows one of its leaves. A workspace
 * holds a root node and three sidebars. Every operation builds a new value;
 * an `assert` or a brand refinement that does not hold in the source is a
 * `Defect` here.
 */
module LayoutData {
  import opened Wrappers
  import opened Percents
  import opened PanelSizing
  import PanelStore

  type Uuid = PanelStore.Uuid

  datatype Axis = Horizontal | Vertical

  /** A leaf: the id under which the leaf's content is registered. */
  datatype Leaf = Leaf(id: Uuid)

  datatype PanelNode =
    | Split(axis: Axis, children: seq<SplitChild>)
    | Tabs(id: Uuid, active: Option<int>, leaves: seq<Leaf>)

  datatype SplitChild = SplitChild(percent: Percent, node: PanelNode)

  type SplitNode = n: PanelNode | n.Split? witness Split(Horizontal, [])

  type TabsNode = n: PanelNode | n.Tabs? witness Tabs("", None, [])

  function Shares(cs: seq<SplitChild>): (ps: seq<real>)
    ensures |ps| == |cs|
    ensures forall i | 0 <= i < |cs| :: ps[i] == cs[i].percent
  {
    seq(|cs|, i requires 0 <= i < |cs| => cs[i].percent)
  }

  function Nodes(cs: seq<SplitChild>): (ns: seq<PanelNode>)
    ensures |ns| == |cs|
    ensures forall i | 0 <= i < |cs| :: ns[i] == cs[i].node
  {
    seq(|cs|, i requires 0 <= i < |cs| => cs[i].node)
  }

  /** `splitAxisCross`: the axis a split across the given one runs along. */
  function AxisCross(a: Axis): (r: Axis)
    ensures r != a
  {
    match a
    case Horizontal => Vertical
    case Vertical => Horizontal
  }

  lemma AxisCrossInvolution(a: Axis)
    ensures AxisCross(AxisCross(a)) == a
    ensures AxisCross(a) == Horizontal <==> a == Vertical
  {
  }

  // ---------------------------------------------------------------------
  // Constructors.

  /**
   * `PanelNode.makeSplit`: every child gets the same share 1/k. For no
   * children the share is 1/0, which is not a finite number, so the
   * refinement throws.
   */
  function MakeSplit(axis: Axis, nodes: seq<PanelNode>): (r: Outcome<SplitNode, ()>)
    ensures r.Ok? <==> |nodes| > 0
    ensures r.Ok? ==> r.value.axis == axis && Nodes(r.value.children) == nodes
    ensures r.Ok? ==> forall i | 0 <= i < |nodes| :: r.value.children[i].percent * |nodes| as real == 1.0
  {
    if |nodes| == 0 then Defect
    else
      var k := |nodes| as real;
      MulDivCancel(1.0, k);
      var each: Percent := 1.0 / k;
      Ok(Split(axis, seq(|nodes|, i requires 0 <= i < |nodes| => SplitChild(each, nodes[i]))))
  }

  /** `PanelNode.makeTabs`: a tabs node under a fresh id (a parameter here), showing the optional index. */
  function MakeTabs(newId: Uuid, active: Option<int>, leaves: seq<Leaf>): (r: TabsNode)
  {
    Tabs(newId, active, leaves)
  }

  /**
   * The leaf a tabs node shows (`active` in the tabs view): none without an
   * active index or when the index is past the last leaf.
   */
  function ActiveLeaf(t: TabsNode): (r: Option<Leaf>)
    ensures r.Some? ==> r.value in t.leaves
    ensures t.active.None? ==> r.None?
    ensures t.active.Some? && t.active.value >= |t.leaves| ==> r.None?
  {
    match t.active
    case None => None
    case Some(i) => if i >= |t.leaves| || i < 0 then None else Some(t.leaves[i])
  }

  /** A tab created by a drop shows its single leaf; a default tabs node shows nothing. */
  lemma MakeTabsShows(newId: Uuid, leaf: Leaf)
    ensures ActiveLeaf(MakeTabs(newId, Some(0), [leaf])) == Some(leaf)
    ensures ActiveLeaf(MakeTabs(newId, None, [])) == None
  {
  }

  /** Each of the k children of a made split has share 1/k, so the shares fill the split. */
  lemma {:induction false} MakeSplitFills(axis: Axis, nodes: seq<PanelNode>)
    requires |nodes| > 0
    ensures MakeSplit(axis, nodes).Ok?
    ensures Sum(Shares(MakeSplit(axis, nodes).value.children)) == 1.0
  {
    var k := |nodes| as real;
    var ps := Shares(MakeSplit(axis, nodes).value.children);
    SumConstant(ps, 1.0 / k);
    MulDivCancel(1.0, k);
  }

  // ---------------------------------------------------------------------
  // splitAddChild

  /** JavaScript `slice` bound: a negative index counts from the end; the result is clamped to [0, len]. */
  function SliceIndex(len: nat, i: int): (k: nat)
    ensures k <= len
    ensures 0 <= i <= len ==> k == i
  {
    if i < 0 then (if len + i < 0 then 0 else len + i) else if i > len then len else i
  }

  /** Where `splitAddChild` places the new child: `idx`, defaulting to the end. */
  function InsertPosition(n: nat, idx: Option<int>): (k: nat)
    ensures k <= n
    ensures idx.None? ==> k == n
  {
    if idx.None? then n else SliceIndex(n, idx.value)
  }

  /** The drift below which `splitAddChild` leaves the total alone (1e-12). */
  const DriftTolerance: real := 0.000000000001

  function Abs(x: real): real { if x < 0.0 then -x else x }

  /** Every child's percent multiplied by `f`. */
  function Scale(cs: seq<SplitChild>, f: real): (r: seq<SplitChild>)
    requires 0.0 <= f <= 1.0
    ensures |r| == |cs|
    ensures forall i | 0 <= i < |cs| :: r[i].percent == cs[i].percent * f && r[i].node == cs[i].node
  {
    seq(|cs|, i requires 0 <= i < |cs| =>
      ProductInRange(cs[i].percent, f);
      SplitChild(cs[i].percent * f, cs[i].node))
  }

  lemma ProductInRange(x: real, f: real)
    requires IsPercent(x) && 0.0 <= f <= 1.0
    ensures IsPercent(x * f)
  {
    NonNegProduct(x, f);
    NonNegProduct(x, 1.0 - f);
  }

  lemma NonNegProduct(a: real, b: real)
    requires a >= 0.0 && b >= 0.0
    ensures a * b >= 0.0
  {
  }

  /** The children of `splitAddChild` before the drift correction: old children scaled, new one at `k`. */
  function Inserted(cs: seq<SplitChild>, child: PanelNode, k: nat): (r: seq<SplitChild>)
    requires 0 < |cs| && k <= |cs|
    ensures |r| == |cs| + 1
  {
    var n := |cs| as real;
    var newShare := 1.0 / (n + 1.0);
    MulDivCancel(1.0, n + 1.0);
    var scaled := Scale(cs, 1.0 - newShare);
    scaled[..k] + [SplitChild(newShare, child)] + scaled[k..]
  }

  /**
   * `splitAddChild`: a split with no children gets the child at 1.
   * Otherwise the new child gets 1/(n+1) at `idx` (the end by default) and
   * every old child is scaled by 1 − 1/(n+1); if the total then misses 1
   * by more than the tolerance, the last child absorbs the difference.
   * The bound `idx <= n` is asserted only for a non-zero `idx`, and the
   * corrected last percent must still be a percent.
   */
  function SplitAddChild(split: SplitNode, child: PanelNode, idx: Option<int>): (r: Outcome<SplitNode, ()>)
    ensures idx.Some? && idx.value > |split.children| ==> r.Defect?
    ensures r.Ok? ==> r.value.axis == split.axis && |r.value.children| == |split.children| + 1
  {
    var n := |split.children|;
    if idx.Some? && idx.value != 0 && idx.value > n then Defect
    else if n == 0 then Ok(Split(split.axis, [SplitChild(1.0, child)]))
    else
      var children := Inserted(split.children, child, InsertPosition(n, idx));
      var drift := 1.0 - Sum(Shares(children));
      if Abs(drift) > DriftTolerance then
        var last := children[n].percent + drift;
        if IsPercent(last) then Ok(Split(split.axis, children[n := SplitChild(last, children[n].node)]))
        else Defect
      else Ok(Split(split.axis, children))
  }

  lemma SharesAppend(a: seq<SplitChild>, b: seq<SplitChild>)
    ensures Shares(a + b) == Shares(a) + Shares(b)
    ensures Nodes(a + b) == Nodes(a) + Nodes(b)
  {
  }

  /** Splicing one child in at `k` adds its share to the total and its node at `k`. */
  lemma SpliceSums(a: seq<SplitChild>, x: SplitChild, k: nat)
    requires k <= |a|
    ensures Sum(Shares(a[..k] + [x] + a[k..])) == Sum(Shares(a)) + x.percent
    ensures Nodes(a[..k] + [x] + a[k..]) == Nodes(a[..k]) + [x.node] + Nodes(a[k..])
  {
    SpliceTotal(a, x, k);
    SharesAppend(a[..k] + [x], a[k..]);
    SharesAppend(a[..k], [x]);
  }

  lemma SpliceTotal(a: seq<SplitChild>, x: SplitChild, k: nat)
    requires k <= |a|
    ensures Sum(Shares(a[..k] + [x] + a[k..])) == Sum(Shares(a)) + x.percent
  {
    var pre, post := a[..k], a[k..];
    SharesAppend(pre + [x], post);
    SharesAppend(pre, [x]);
    assert Shares([x]) == [x.percent];
    assert pre + post == a;
    SharesAppend(pre, post);
    SumSplice(Shares(pre), x.percent, Shares(post));
  }

  /** A value spliced between two lists adds itself to their total. */
  lemma SumSplice(p1: seq<real>, v: real, p2: seq<real>)
    ensures Sum(p1 + [v] + p2) == Sum(p1 + p2) + v
  {
    SumAppend(p1 + [v], p2);
    SumAppend(p1, [v]);
    SumAppend(p1, p2);
    assert Sum([v]) == v by {
      assert [v][1..] == [];
    }
  }

  /** Scaling multiplies the total and keeps the nodes. */
  lemma ScaleSums(cs: seq<SplitChild>, f: real)
    requires 0.0 <= f <= 1.0
    ensures Sum(Shares(Scale(cs, f))) == f * Sum(Shares(cs))
    ensures Nodes(Scale(cs, f)) == Nodes(cs)
  {
    forall i | 0 <= i < |cs|
      ensures Shares(Scale(cs, f))[i] == MapRule(Shares(cs), Times(f))[i]
    {
    }
    assert Shares(Scale(cs, f)) == MapRule(Shares(cs), Times(f));
    SumMapRule(Shares(cs), Times(f));
  }

  /** Before the correction the children add up to the old total scaled by 1 - 1/(n+1), plus the new share. */
  lemma InsertedSum(cs: seq<SplitChild>, child: PanelNode, k: nat)
    requires 0 < |cs| && k <= |cs|
    ensures var n := |cs| as real;
      Sum(Shares(Inserted(cs, child, k))) == (1.0 - 1.0 / (n + 1.0)) * Sum(Shares(cs)) + 1.0 / (n + 1.0)
    ensures Nodes(Inserted(cs, child, k)) == Nodes(cs[..k]) + [child] + Nodes(cs[k..])
  {
    InsertedTotal(cs, child, k, 1.0 / (|cs| as real + 1.0));
    InsertedNodes(cs, child, k, 1.0 / (|cs| as real + 1.0));
  }

  lemma InsertedTotal(cs: seq<SplitChild>, child: PanelNode, k: nat, newShare: real)
    requires 0 < |cs| && k <= |cs| && newShare == 1.0 / (|cs| as real + 1.0)
    ensures Sum(Shares(Inserted(cs, child, k))) == (1.0 - newShare) * Sum(Shares(cs)) + newShare
  {
    UnitShare(|cs| as real);
    assert Inserted(cs, child, k) == Scale(cs, 1.0 - newShare)[..k] + [SplitChild(newShare, child)] + Scale(cs, 1.0 - newShare)[k..];
    ScaledSpliceTotal(cs, child, k, newShare);
  }

  /** Scaling the old shares by 1 - share and splicing in a child with that share. */
  lemma ScaledSpliceTotal(cs: seq<SplitChild>, child: PanelNode, k: nat, share: real)
    requires k <= |cs| && 0.0 <= share <= 1.0
    ensures Sum(Shares(Scale(cs, 1.0 - share)[..k] + [SplitChild(share, child)] + Scale(cs, 1.0 - share)[k..]))
      == (1.0 - share) * Sum(Shares(cs)) + share
  {
    var scaled := Scale(cs, 1.0 - share);
    SpliceTotal(scaled, SplitChild(share, child), k);
    ScaleSums(cs, 1.0 - share);
  }

  /** The share of one among n + 1 is a fraction. */
  lemma UnitShare(n: real)
    requires n >= 0.0
    ensures 0.0 < 1.0 / (n + 1.0) <= 1.0
  {
  }

  lemma InsertedNodes(cs: seq<SplitChild>, child: PanelNode, k: nat, newShare: real)
    requires 0 < |cs| && k <= |cs| && newShare == 1.0 / (|cs| as real + 1.0)
    ensures Nodes(Inserted(cs, child, k)) == Nodes(cs[..k]) + [child] + Nodes(cs[k..])
  {
    MulDivCancel(1.0, |cs| as real + 1.0);
    var scaled := Scale(cs, 1.0 - newShare);
    assert Inserted(cs, child, k) == scaled[..k] + [SplitChild(newShare, child)] + scaled[k..];
    SpliceSums(scaled, SplitChild(newShare, child), k);
    ScaleSums(cs, 1.0 - newShare);
    assert Nodes(scaled[..k]) == Nodes(cs[..k]);
    assert Nodes(scaled[k..]) == Nodes(cs[k..]);
  }

  /** The new child is at the insert position and the old children keep their order around it. */
  lemma SplitAddChildPlaces(split: SplitNode, child: PanelNode, idx: Option<int>)
    requires SplitAddChild(split, child, idx).Ok?
    ensures var k := InsertPosition(|split.children|, idx);
      Nodes(SplitAddChild(split, child, idx).value.children) ==
        Nodes(split.children[..k]) + [child] + Nodes(split.children[k..])
  {
    var n := |split.children|;
    var k := InsertPosition(n, idx);
    var r := SplitAddChild(split, child, idx).value;
    if n > 0 {
      var cs := Inserted(split.children, child, k);
      InsertedSum(split.children, child, k);
      assert Nodes(r.children) == Nodes(cs);
    }
  }

  /** The new child's share is 1/(n+1); every old child's share is scaled by 1 - 1/(n+1), in order around it. */
  lemma InsertedShares(cs: seq<SplitChild>, child: PanelNode, k: nat)
    requires 0 < |cs| && k <= |cs|
    ensures var n := |cs| as real; var r := Inserted(cs, child, k);
      && r[k].percent == 1.0 / (n + 1.0)
      && (forall i | 0 <= i < k :: r[i].percent == cs[i].percent * (1.0 - 1.0 / (n + 1.0)))
      && (forall i | k < i <= |cs| :: r[i].percent == cs[i - 1].percent * (1.0 - 1.0 / (n + 1.0)))
  {
  }

  /**
   * When the old shares fill the split, nothing can throw and no correction
   * happens: the result is the spliced list, whose shares fill the split
   * (the new child's share and the old children's scaling are stated by
   * `InsertedShares`).
   */
  lemma SplitAddChildKeepsTotal(split: SplitNode, child: PanelNode, idx: Option<int>)
    requires idx.None? || idx.value <= |split.children|
    requires |split.children| > 0 && Sum(Shares(split.children)) == 1.0
    ensures var cs := Inserted(split.children, child, InsertPosition(|split.children|, idx));
      Sum(Shares(cs)) == 1.0 && SplitAddChild(split, child, idx) == Ok(Split(split.axis, cs))
  {
    var n := |split.children|;
    var k := InsertPosition(n, idx);
    InsertedSum(split.children, child, k);
    var a := 1.0 / (n as real + 1.0);
    assert (1.0 - a) * 1.0 + a == 1.0;
  }

  /** Whatever the old shares, a successful add leaves the total within the drift tolerance of 1. */
  lemma {:induction false} SplitAddChildNearOne(split: SplitNode, child: PanelNode, idx: Option<int>)
    requires SplitAddChild(split, child, idx).Ok?
    ensures Abs(Sum(Shares(SplitAddChild(split, child, idx).value.children)) - 1.0) <= DriftTolerance
  {
    var n := |split.children|;
    if n > 0 {
      var cs := Inserted(split.children, child, InsertPosition(n, idx));
      var drift := 1.0 - Sum(Shares(cs));
      if Abs(drift) > DriftTolerance {
        var last := cs[n].percent + drift;
        var fixed := cs[n := SplitChild(last, cs[n].node)];
        SumLastReplaced(Shares(cs), last);
        assert Shares(fixed) == Shares(cs)[n := last];
      }
    }
  }

  /** Replacing the last of a list's values changes its sum by the difference. */
  lemma {:induction false} SumLastReplaced(ps: seq<real>, v: real)
    requires |ps| > 0
    ensures Sum(ps[|ps| - 1 := v]) == Sum(ps) - ps[|ps| - 1] + v
  {
    var m := |ps| - 1;
    assert ps == ps[..m] + [ps[m]];
    assert ps[m := v] == ps[..m] + [v];
    SumAppend(ps[..m], [ps[m]]);
    SumAppend(ps[..m], [v]);
  }

  // ---------------------------------------------------------------------
  // splitUpdateChildPercent, tabsAddTab, tabsSelect

  /**
   * `splitUpdateChildPercent`: asserts 0 <= idx <= n (so idx = n passes and
   * changes nothing) and sets that child's percent.
   */
  function SplitUpdateChildPercent(split: SplitNode, idx: int, percent: Percent): (r: Outcome<SplitNode, ()>)
    ensures r.Ok? <==> 0 <= idx <= |split.children|
    ensures r.Ok? ==> r.value.axis == split.axis && Nodes(r.value.children) == Nodes(split.children)
    ensures r.Ok? ==> forall i | 0 <= i < |split.children| && i != idx :: r.value.children[i] == split.children[i]
    ensures r.Ok? && idx < |split.children| ==> r.value.children[idx].percent == percent
  {
    var cs := split.children;
    if !(0 <= idx <= |cs|) then Defect
    else Ok(Split(split.axis, seq(|cs|, i requires 0 <= i < |cs| =>
      if i == idx then SplitChild(percent, cs[i].node) else cs[i])))
  }

  /** Setting a child to the percent it already has, or addressing one past the end, changes nothing. */
  lemma SplitUpdateChildPercentNoOp(split: SplitNode, idx: int)
    requires 0 <= idx <= |split.children|
    ensures idx < |split.children| ==> SplitUpdateChildPercent(split, idx, split.children[idx].percent) == Ok(split)
    ensures SplitUpdateChildPercent(split, |split.children|, 0.0) == Ok(split)
  {
    var r := SplitUpdateChildPercent(split, |split.children|, 0.0).value;
    assert r.children == split.children;
    if idx < |split.children| {
      var r' := SplitUpdateChildPercent(split, idx, split.children[idx].percent).value;
      assert r'.children == split.children;
    }
  }

  /** The leaves with the one at `i` filtered out (the drag source's update); out of range keeps them all. */
  function RemoveTab(t: TabsNode, i: int): (r: TabsNode)
    ensures r.id == t.id && r.active == t.active
    ensures 0 <= i < |t.leaves| ==> |r.leaves| == |t.leaves| - 1
    ensures !(0 <= i < |t.leaves|) ==> r.leaves == t.leaves
  {
    if 0 <= i < |t.leaves| then Tabs(t.id, t.active, t.leaves[..i] + t.leaves[i + 1..]) else t
  }

  /**
   * `tabsAddTab`: with an index other than the length it asserts the index
   * is below the length, and `Array.insertAt` refuses a negative one (the
   * `getOrThrow` throws); the leaf is inserted there and made active.
   * Without an index, or at the length, the leaf is appended and made active.
   */
  function TabsAddTab(t: TabsNode, leaf: Leaf, idx: Option<int>): (r: Outcome<TabsNode, ()>)
    ensures r.Ok? <==> idx.None? || 0 <= idx.value <= |t.leaves|
    ensures r.Ok? ==> r.value.id == t.id && |r.value.leaves| == |t.leaves| + 1
    ensures r.Ok? ==> ActiveLeaf(r.value) == Some(leaf)
    ensures r.Ok? ==> multiset(r.value.leaves) == multiset(t.leaves) + multiset{leaf}
  {
    var n := |t.leaves|;
    if idx.Some? && idx.value != n then
      if !(idx.value < n) then Defect
      else if idx.value < 0 then Defect
      else
        var i := idx.value;
        assert t.leaves == t.leaves[..i] + t.leaves[i..];
        Ok(Tabs(t.id, Some(i), t.leaves[..i] + [leaf] + t.leaves[i..]))
    else Ok(Tabs(t.id, Some(n), t.leaves + [leaf]))
  }

  /** Where `tabsAddTab` put the leaf. */
  function AddedAt(t: TabsNode, idx: Option<int>): nat
  {
    if idx.Some? && 0 <= idx.value <= |t.leaves| then idx.value else |t.leaves|
  }

  /** Removing the tab just added gives the old leaves back, with the new tab's index active. */
  lemma AddThenRemoveTab(t: TabsNode, leaf: Leaf, idx: Option<int>)
    requires TabsAddTab(t, leaf, idx).Ok?
    ensures RemoveTab(TabsAddTab(t, leaf, idx).value, AddedAt(t, idx)) == Tabs(t.id, Some(AddedAt(t, idx)), t.leaves)
  {
    var k := AddedAt(t, idx);
    var r := TabsAddTab(t, leaf, idx).value;
    assert r.leaves == t.leaves[..k] + [leaf] + t.leaves[k..];
    assert r.leaves[..k] + r.leaves[k + 1..] == t.leaves;
  }

  /** `tabsSelect`: replaces the active index only. */
  function TabsSelect(t: TabsNode, index: Option<int>): (r: TabsNode)
  {
    Tabs(t.id, index, t.leaves)
  }

  /** Selecting an index in range shows that leaf; selecting none shows nothing; the leaves stay. */
  lemma TabsSelectShows(t: TabsNode, index: Option<int>)
    ensures TabsSelect(t, index).leaves == t.leaves && TabsSelect(t, index).id == t.id
    ensures index.Some? && 0 <= index.value < |t.leaves| ==> ActiveLeaf(TabsSelect(t, index)) == Some(t.leaves[index.value])
    ensures index.None? ==> ActiveLeaf(TabsSelect(t, index)) == None
  {
  }

  // ---------------------------------------------------------------------
  // Sidebars and the workspace

  datatype SidebarSide = LeftBar | RightBar | BottomBar

  datatype Sidebar = Sidebar(enabled: bool, size: Percent, node: PanelNode)

  datatype Sidebars = Sidebars(left: Sidebar, right: Sidebar, bottom: Sidebar)

  datatype Workspace = Workspace(root: PanelNode, sidebars: Sidebars)

  function SidebarOf(sb: Sidebars, side: SidebarSide): Sidebar
  {
    match side
    case LeftBar => sb.left
    case RightBar => sb.right
    case BottomBar => sb.bottom
  }

  function WithSidebar(sb: Sidebars, side: SidebarSide, s: Sidebar): (r: Sidebars)
    ensures SidebarOf(r, side) == s
    ensures forall other | other != side :: SidebarOf(r, other) == SidebarOf(sb, other)
  {
    match side
    case LeftBar => sb.(left := s)
    case RightBar => sb.(right := s)
    case BottomBar => sb.(bottom := s)
  }

  /** The `WorkspaceSidebar` constructor: enabled and a quarter of the window unless given. */
  function MakeSidebar(node: PanelNode, enabled: Option<bool>, size: Option<Percent>): (r: Sidebar)
    ensures r.node == node
    ensures enabled.None? ==> r.enabled
    ensures size.None? ==> From(25.0) == Some(r.size)
  {
    FromTwentyFive();
    Sidebar(GetOr(enabled, true), GetOr(size, 0.25), node)
  }

  /** A `Partial<WorkspaceSidebar>`: the fields present override. */
  datatype SidebarPatch = SidebarPatch(enabled: Option<bool>, size: Option<Percent>, node: Option<PanelNode>)

  /** `sidebarUpdate`: merges the patch into one side. */
  function SidebarUpdate(sb: Sidebars, side: SidebarSide, patch: SidebarPatch): (r: Sidebars)
    ensures forall other | other != side :: SidebarOf(r, other) == SidebarOf(sb, other)
    ensures SidebarOf(r, side).enabled == GetOr(patch.enabled, SidebarOf(sb, side).enabled)
    ensures SidebarOf(r, side).size == GetOr(patch.size, SidebarOf(sb, side).size)
    ensures SidebarOf(r, side).node == GetOr(patch.node, SidebarOf(sb, side).node)
  {
    var cur := SidebarOf(sb, side);
    WithSidebar(sb, side, Sidebar(GetOr(patch.enabled, cur.enabled), GetOr(patch.size, cur.size), GetOr(patch.node, cur.node)))
  }

  /** `sidebarToggle`: flips one side's `enabled`. */
  function SidebarToggle(sb: Sidebars, side: SidebarSide): (r: Sidebars)
    ensures SidebarOf(r, side).enabled == !SidebarOf(sb, side).enabled
    ensures SidebarOf(r, side).size == SidebarOf(sb, side).size && SidebarOf(r, side).node == SidebarOf(sb, side).node
    ensures forall other | other != side :: SidebarOf(r, other) == SidebarOf(sb, other)
  {
    SidebarUpdate(sb, side, SidebarPatch(Some(!SidebarOf(sb, side).enabled), None, None))
  }

  /** Toggling a side twice restores the sidebars; an empty patch changes nothing. */
  lemma SidebarToggleTwice(sb: Sidebars, side: SidebarSide)
    ensures SidebarToggle(SidebarToggle(sb, side), side) == sb
    ensures SidebarUpdate(sb, side, SidebarPatch(None, None, None)) == sb
  {
    var once := SidebarToggle(sb, side);
    var twice := SidebarToggle(once, side);
    assert SidebarOf(twice, side) == SidebarOf(sb, side);
    assert forall s :: SidebarOf(twice, s) == SidebarOf(sb, s);
    assert twice.left == sb.left && twice.right == sb.right && twice.bottom == sb.bottom by {
      assert SidebarOf(twice, LeftBar) == SidebarOf(sb, LeftBar);
      assert SidebarOf(twice, RightBar) == SidebarOf(sb, RightBar);
      assert SidebarOf(twice, BottomBar) == SidebarOf(sb, BottomBar);
    }
    var same := SidebarUpdate(sb, side, SidebarPatch(None, None, None));
    assert same.left == sb.left && same.right == sb.right && same.bottom == sb.bottom by {
      assert SidebarOf(same, LeftBar) == SidebarOf(sb, LeftBar);
      assert SidebarOf(same, RightBar) == SidebarOf(sb, RightBar);
      assert SidebarOf(same, BottomBar) == SidebarOf(sb, BottomBar);
    }
  }

  /** The four trees of a workspace: the root and the three sidebars' nodes. */
  datatype Part = RootPart | BarPart(side: SidebarSide)

  function PartNode(ws: Workspace, p: Part): PanelNode
  {
    match p
    case RootPart => ws.root
    case BarPart(s) => SidebarOf(ws.sidebars, s).node
  }

  function WithPart(ws: Workspace, p: Part, n: PanelNode): (r: Workspace)
    ensures PartNode(r, p) == n
    ensures forall q | q != p :: PartNode(r, q) == PartNode(ws, q)
    ensures forall s :: SidebarOf(r.sidebars, s).enabled == SidebarOf(ws.sidebars, s).enabled
    ensures forall s :: SidebarOf(r.sidebars, s).size == SidebarOf(ws.sidebars, s).size
  {
    match p
    case RootPart => ws.(root := n)
    case BarPart(s) => ws.(sidebars := WithSidebar(ws.sidebars, s, SidebarOf(ws.sidebars, s).(node := n)))
  }

  // ---------------------------------------------------------------------
  // updateNodes

  /**
   * `updateNodes` as written: the update's answer for the node itself if it
   * has one; otherwise, for a split, the update applied to each direct child
   * (children it does not match are kept), and none when no child matched;
   * tabs are not descended into. The search stops one level below the node.
   */
  function UpdateNodes(node: PanelNode, update: PanelNode -> Option<PanelNode>): (r: Option<PanelNode>)
    ensures r.Some? <==> (update(node).Some? ||
      (node.Split? && exists i | 0 <= i < |node.children| :: update(node.children[i].node).Some?))
    ensures update(node).Some? ==> r == update(node)
    ensures update(node).None? && r.Some? ==>
      && node.Split? && r.value.Split? && r.value.axis == node.axis
      && |r.value.children| == |node.children|
      && forall i | 0 <= i < |node.children| ::
        && r.value.children[i].percent == node.children[i].percent
        && (update(node.children[i].node).None? ==> r.value.children[i] == node.children[i])
        && (update(node.children[i].node).Some? ==> r.value.children[i].node == update(node.children[i].node).value)
  {
    if update(node).Some? then update(node)
    else match node
      case Tabs(_, _, _) => None
      case Split(axis, cs) =>
        if exists i | 0 <= i < |cs| :: update(cs[i].node).Some? then
          Some(Split(axis, seq(|cs|, i requires 0 <= i < |cs| =>
            SplitChild(cs[i].percent, GetOr(update(cs[i].node), cs[i].node)))))
        else None
  }

  /** Some node of the tree, reached through splits the update does not match itself, is matched. */
  predicate Reaches(node: PanelNode, update: PanelNode -> Option<PanelNode>)
  {
    update(node).Some? ||
    (node.Split? && exists i | 0 <= i < |node.children| :: Reaches(node.children[i].node, update))
  }

  /**
   * `updateNodes` as evidently intended: the same rule applied at every
   * depth, so that a matching node anywhere in the tree is found.
   */
  function UpdateNodesDeep(node: PanelNode, update: PanelNode -> Option<PanelNode>): (r: Option<PanelNode>)
    ensures r.Some? <==> Reaches(node, update)
    ensures update(node).Some? ==> r == update(node)
    ensures update(node).None? && r.Some? ==>
      node.Split? && r.value.Split? && r.value.axis == node.axis && Shares(r.value.children) == Shares(node.children)
    ensures update(node).None? && r.Some? ==>
      && node.Split? && r.value.Split? && |r.value.children| == |node.children|
      && forall i | 0 <= i < |node.children| ::
        && r.value.children[i].percent == node.children[i].percent
        && (!Reaches(node.children[i].node, update) ==> r.value.children[i] == node.children[i])
        && (Reaches(node.children[i].node, update) ==>
              r.value.children[i].node == UpdateNodesDeep(node.children[i].node, update).value)
  {
    if update(node).Some? then update(node)
    else match node
      case Tabs(_, _, _) => None
      case Split(axis, cs) =>
        if exists i | 0 <= i < |cs| :: UpdateNodesDeep(cs[i].node, update).Some? then
          Some(Split(axis, seq(|cs|, i requires 0 <= i < |cs| =>
            SplitChild(cs[i].percent, GetOr(UpdateNodesDeep(cs[i].node, update), cs[i].node)))))
        else None
  }

  /** Whatever the one-level search finds, the deep one finds too. */
  lemma UpdateNodesDeepExtends(node: PanelNode, update: PanelNode -> Option<PanelNode>)
    ensures UpdateNodes(node, update).Some? ==> UpdateNodesDeep(node, update).Some?
  {
    if UpdateNodes(node, update).Some? && update(node).None? {
      var i :| 0 <= i < |node.children| && update(node.children[i].node).Some?;
      assert Reaches(node.children[i].node, update);
    }
  }

  lemma NoPartMatched(ws: Workspace, search: PanelNode -> Option<PanelNode>)
    requires search(ws.root).None? && search(ws.sidebars.left.node).None?
    requires search(ws.sidebars.right.node).None? && search(ws.sidebars.bottom.node).None?
    ensures forall p :: search(PartNode(ws, p)).None?
  {
    forall p
      ensures search(PartNode(ws, p)).None?
    {
      match p
      case RootPart =>
      case BarPart(s) => match s { case LeftBar => case RightBar => case BottomBar => }
    }
  }

  /**
   * `updateNodesInWorkspace`, over the search each tree is given to: some
   * when at least one of the four trees matched, with every tree replaced
   * by its search result or kept, and the sidebars' flags and sizes kept.
   */
  function UpdateWorkspace(ws: Workspace, search: PanelNode -> Option<PanelNode>): (r: Option<Workspace>)
    ensures r.Some? <==> exists p :: search(PartNode(ws, p)).Some?
    ensures r.Some? ==> forall p :: PartNode(r.value, p) == GetOr(search(PartNode(ws, p)), PartNode(ws, p))
    ensures r.Some? ==> forall s :: SidebarOf(r.value.sidebars, s).enabled == SidebarOf(ws.sidebars, s).enabled
    ensures r.Some? ==> forall s :: SidebarOf(r.value.sidebars, s).size == SidebarOf(ws.sidebars, s).size
  {
    var root := GetOr(search(ws.root), ws.root);
    var left := GetOr(search(ws.sidebars.left.node), ws.sidebars.left.node);
    var right := GetOr(search(ws.sidebars.right.node), ws.sidebars.right.node);
    var bottom := GetOr(search(ws.sidebars.bottom.node), ws.sidebars.bottom.node);
    assert PartNode(ws, RootPart) == ws.root && PartNode(ws, BarPart(LeftBar)) == ws.sidebars.left.node;
    assert PartNode(ws, BarPart(RightBar)) == ws.sidebars.right.node && PartNode(ws, BarPart(BottomBar)) == ws.sidebars.bottom.node;
    if search(ws.root).None? && search(ws.sidebars.left.node).None? &&
       search(ws.sidebars.right.node).None? && search(ws.sidebars.bottom.node).None? then
      NoPartMatched(ws, search);
      None
    else
      Some(Workspace(root, Sidebars(
        ws.sidebars.left.(node := left),
        ws.sidebars.right.(node := right),
        ws.sidebars.bottom.(node := bottom))))
  }
}
