/**
 * The earlier node graph prototype (app/ui/src/renderer/NodeGraphTest.tsx):
 * its tag-narrowing helper, and pressing on a node, which moves the node
 * to the end of the node list (drawn on top) before updating the
 * selection. Its snapping helpers and canvas mouse-down are the same as
 * the later editor's and are modelled once, in `NodeSnap` and `NodeGraph`.
 */
module NodeGraphTest {
  import opened Wrappers

  /** A JavaScript value as `TaggedEnumAs` sees it: falsy, or an object with or without a `_tag`. */
  datatype JsValue = Falsy | Obj(tag: Option<string>)

  /** `TaggedEnumAs(tag)(x)`: the value itself when it is truthy and carries that tag, else nothing. */
  function TaggedEnumAs(tag: string, x: JsValue): (r: Option<JsValue>)
    ensures r.Some? <==> x != Falsy && x.tag == Some(tag)
    ensures r.Some? ==> r.value == x
  {
    if x.Obj? && x.tag == Some(tag) then Some(x) else None
  }

  /** A value narrows to at most one tag. */
  lemma TaggedEnumAsExclusive(t1: string, t2: string, x: JsValue)
    requires TaggedEnumAs(t1, x).Some? && TaggedEnumAs(t2, x).Some?
    ensures t1 == t2
  {
  }

  /** `items.push(items.splice(idx, 1)[0])`: the item at `idx` moved to the end. */
  function BringToFront<T>(items: seq<T>, idx: int): (r: seq<T>)
    requires 0 <= idx < |items|
    ensures |r| == |items| && r[|r| - 1] == items[idx]
    ensures multiset(r) == multiset(items)
    ensures forall i | 0 <= i < idx :: r[i] == items[i]
    ensures forall i | idx <= i < |items| - 1 :: r[i] == items[i + 1]
  {
    assert items == items[..idx] + [items[idx]] + items[idx + 1..];
    items[..idx] + items[idx + 1..] + [items[idx]]
  }

  /** The last item is already on top. */
  lemma BringLastToFront<T>(items: seq<T>)
    requires |items| > 0
    ensures BringToFront(items, |items| - 1) == items
  {
  }

  /** Bringing the same item to the front twice is bringing it once. */
  lemma BringToFrontTwice<T>(items: seq<T>, idx: int)
    requires 0 <= idx < |items|
    ensures BringToFront(BringToFront(items, idx), |items| - 1) == BringToFront(items, idx)
  {
  }

  datatype Press<T> = Press(items: seq<T>, selected: seq<T>)

  /**
   * `onMouseDown` on the node at `idx`: it moves to the end of the list;
   * then, unless a drag is in progress, ctrl appends it to the selection
   * and a plain press makes it the only selected node.
   */
  function NodePress<T>(items: seq<T>, selected: seq<T>, idx: int, dragging: bool, ctrl: bool): (r: Press<T>)
    requires 0 <= idx < |items|
    ensures r.items == BringToFront(items, idx)
    ensures dragging ==> r.selected == selected
    ensures !dragging && ctrl ==> r.selected == selected + [items[idx]]
    ensures !dragging && !ctrl ==> r.selected == [items[idx]]
  {
    var front := BringToFront(items, idx);
    if dragging then Press(front, selected)
    else if ctrl then Press(front, selected + [items[idx]])
    else Press(front, [items[idx]])
  }

  /** Whatever the press does to the selection, the pressed node ends up drawn last. */
  lemma PressedDrawnLast<T>(items: seq<T>, selected: seq<T>, idx: int, dragging: bool, ctrl: bool)
    requires 0 <= idx < |items|
    ensures var r := NodePress(items, selected, idx, dragging, ctrl);
      r.items[|r.items| - 1] == items[idx] && multiset(r.items) == multiset(items)
  {
  }
}
