/**
 * The status bar's item registry (ui/app/src/renderer/ui/StatusBar/ContextProvider.tsx,
 * with identical copies in ui/src/renderer/ui/StatusBar/ContextProvider.tsx
 * and ui/src/renderer/ui/StatusBarContext.tsx): items are stored by id in a
 * map, and each alignment keeps the order of its ids in a list. `addItem`
 * registers an item under a fresh id, placed after or before another id or
 * at the end, and hands back a cleanup that unregisters it.
 */
module StatusBar {
  type ItemId = string

  datatype Alignment = Left | Right

  /** `Object.assign(item, { id })`: the caller's item, now carrying its id. */
  datatype IdItem<T> = IdItem(item: T, id: ItemId)

  datatype Bar<T> = Bar(itemMap: map<ItemId, IdItem<T>>, left: seq<ItemId>, right: seq<ItemId>)

  /** Where `addItem` was asked to put the item; the option type admits `after` or `before`, never both. */
  datatype Placement = AtEnd | After(after: ItemId) | Before(before: ItemId)

  function Empty<T>(): (b: Bar<T>)
    ensures b.itemMap == map[] && b.left == [] && b.right == []
  {
    Bar(map[], [], [])
  }

  function List<T>(b: Bar<T>, a: Alignment): seq<ItemId> {
    match a
    case Left => b.left
    case Right => b.right
  }

  function WithList<T>(b: Bar<T>, a: Alignment, l: seq<ItemId>): (r: Bar<T>)
    ensures List(r, a) == l && r.itemMap == b.itemMap
    ensures forall o: Alignment | o != a :: List(r, o) == List(b, o)
  {
    match a
    case Left => b.(left := l)
    case Right => b.(right := l)
  }

  /** `findIndex(item => item == x)`: the first position holding `x`, or -1. */
  function IndexOf(l: seq<ItemId>, x: ItemId): (r: int)
    ensures -1 <= r < |l|
    ensures r == -1 <==> x !in l
    ensures r >= 0 ==> l[r] == x && x !in l[..r]
  {
    if |l| == 0 then -1
    else if l[0] == x then 0
    else
      var i := IndexOf(l[1..], x);
      assert i >= 0 ==> l[..i + 1] == [l[0]] + l[1..][..i];
      if i == -1 then -1 else i + 1
  }

  /** `splice(i, 0, x)` with `i` in range: `x` now sits at `i`. */
  function InsertAt(l: seq<ItemId>, i: nat, x: ItemId): (r: seq<ItemId>)
    requires i <= |l|
    ensures |r| == |l| + 1 && r[i] == x && r[..i] == l[..i] && r[i + 1..] == l[i..]
    ensures multiset(r) == multiset(l) + multiset{x}
  {
    assert l == l[..i] + l[i..];
    l[..i] + [x] + l[i..]
  }

  /**
   * The list update of `addItem` as written. An `after` id (a non-empty
   * string is truthy) that is in the list puts the new id AT its index,
   * which is in front of it; an absent one appends. The `before` branch
   * looks up `opts.after`, which the option type rules out in that branch,
   * so it never finds anything and always appends.
   */
  function PlaceAsWritten(l: seq<ItemId>, p: Placement, id: ItemId): (r: seq<ItemId>)
    ensures multiset(r) == multiset(l) + multiset{id}
    ensures p.After? && p.after != "" && p.after in l ==>
      var k := IndexOf(l, p.after);
      && r == l[..k] + [id] + l[k..]
      && (id !in l ==> IndexOf(r, id) == k && IndexOf(r, p.after) == k + 1)
    ensures !(p.After? && p.after != "" && p.after in l) ==> r == l + [id]
  {
    match p
    case After(a) =>
      if a != "" then
        var idx := IndexOf(l, a);
        if idx != -1 then
          var r := InsertAt(l, idx, id);
          assert r == l[..idx] + [id] + l[idx..];
          assert id !in l ==> IndexOf(r, id) == idx && IndexOf(r, a) == idx + 1 by {
            if id !in l {
              InsertedIndexesFront(l, idx, id, a);
            }
          }
          r
        else l + [id]
      else l + [id]
    case Before(b) => l + [id]
    case AtEnd => l + [id]
  }

  /** `addItem` as written: the item stored under a fresh id, and the id placed in its alignment's list. */
  function AddItem<T>(b: Bar<T>, item: T, a: Alignment, p: Placement, newId: ItemId): (r: Bar<T>)
    requires newId !in b.itemMap && newId !in List(b, a)
    ensures r.itemMap == b.itemMap[newId := IdItem(item, newId)]
    ensures forall o: Alignment | o != a :: List(r, o) == List(b, o)
    ensures multiset(List(r, a)) == multiset(List(b, a)) + multiset{newId}
    ensures p.After? && p.after != "" && p.after in List(b, a) ==>
      var k := IndexOf(List(b, a), p.after);
      && List(r, a) == List(b, a)[..k] + [newId] + List(b, a)[k..]
      && IndexOf(List(r, a), newId) == k && IndexOf(List(r, a), p.after) == k + 1
    ensures !(p.After? && p.after != "" && p.after in List(b, a)) ==> List(r, a) == List(b, a) + [newId]
  {
    WithList(b.(itemMap := b.itemMap[newId := IdItem(item, newId)]), a, PlaceAsWritten(List(b, a), p, newId))
  }

  /** `list.filter(item => item !== id)`. */
  function Without(l: seq<ItemId>, id: ItemId): (r: seq<ItemId>)
    ensures id !in r
    ensures forall x | x in l && x != id :: x in r
    ensures forall x | x in r :: x in l
    ensures id !in l ==> r == l
  {
    if |l| == 0 then []
    else if l[0] == id then Without(l[1..], id)
    else [l[0]] + Without(l[1..], id)
  }

  /** The cleanup `addItem` returns: that id leaves the map and its alignment's list, and nothing else changes. */
  function Cleanup<T>(b: Bar<T>, a: Alignment, id: ItemId): (r: Bar<T>)
    ensures id !in r.itemMap && id !in List(r, a)
    ensures forall k | k in b.itemMap && k != id :: k in r.itemMap && r.itemMap[k] == b.itemMap[k]
    ensures forall k | k in r.itemMap :: k in b.itemMap
    ensures forall o: Alignment | o != a :: List(r, o) == List(b, o)
  {
    WithList(b.(itemMap := map k | k in b.itemMap && k != id :: b.itemMap[k]), a, Without(List(b, a), id))
  }

  /** Filtering distributes over concatenation. */
  lemma {:induction false} WithoutConcat(x: seq<ItemId>, y: seq<ItemId>, id: ItemId)
    ensures Without(x + y, id) == Without(x, id) + Without(y, id)
    decreases |x|
  {
    if |x| > 0 {
      assert (x + y)[0] == x[0] && (x + y)[1..] == x[1..] + y;
      WithoutConcat(x[1..], y, id);
    } else {
      assert x + y == y;
    }
  }

  /** Removing an id that was inserted into a list without it gives the list back. */
  lemma WithoutInsert(l: seq<ItemId>, i: nat, id: ItemId)
    requires i <= |l| && id !in l
    ensures Without(InsertAt(l, i, id), id) == l
  {
    var pre, post := l[..i], l[i..];
    assert l == pre + post;
    assert id !in pre && id !in post;
    assert InsertAt(l, i, id) == pre + [id] + post;
    WithoutConcat(pre + [id], post, id);
    WithoutConcat(pre, [id], id);
    assert Without([id], id) == [];
  }

  lemma WithoutAppend(l: seq<ItemId>, id: ItemId)
    requires id !in l
    ensures Without(l + [id], id) == l
  {
    WithoutInsert(l, |l|, id);
    assert InsertAt(l, |l|, id) == l + [id];
  }

  /** Unregistering an id that was added to a bar without it, and whose removal from the list gives the old list, gives the old bar. */
  lemma CleanupUndoes<T>(b: Bar<T>, a: Alignment, newId: ItemId, v: IdItem<T>, l: seq<ItemId>)
    requires newId !in b.itemMap && Without(l, newId) == List(b, a)
    ensures Cleanup(WithList(b.(itemMap := b.itemMap[newId := v]), a, l), a, newId) == b
  {
    var r := Cleanup(WithList(b.(itemMap := b.itemMap[newId := v]), a, l), a, newId);
    assert r.itemMap == b.itemMap;
    match a {
      case Left =>
      case Right =>
    }
  }

  /** Running the cleanup straight after `addItem` restores the bar exactly. */
  lemma AddThenCleanup<T>(b: Bar<T>, item: T, a: Alignment, p: Placement, newId: ItemId)
    requires newId !in b.itemMap && newId !in List(b, a)
    ensures Cleanup(AddItem(b, item, a, p, newId), a, newId) == b
  {
    var l := List(b, a);
    match p {
      case After(x) =>
        if x != "" && IndexOf(l, x) != -1 {
          WithoutInsert(l, IndexOf(l, x), newId);
        } else {
          WithoutAppend(l, newId);
        }
      case Before(_) => WithoutAppend(l, newId);
      case AtEnd => WithoutAppend(l, newId);
    }
    CleanupUndoes(b, a, newId, IdItem(item, newId), PlaceAsWritten(l, p, newId));
  }

  /** As written, `after: x` puts the new id in front of `x`, not behind it. */
  lemma AfterLandsInFront(x: ItemId, newId: ItemId)
    requires x != "" && newId != x
    ensures PlaceAsWritten([x], After(x), newId) == [newId, x]
  {
  }

  /** As written, `before: x` with `x` first in the list still appends. */
  lemma BeforeAppends(x: ItemId, newId: ItemId)
    ensures PlaceAsWritten([x], Before(x), newId) == [x, newId]
  {
  }

  /** Placement as the option names promise: right behind `after`, right in front of `before`, at the end when the anchor is absent. */
  function PlaceIntended(l: seq<ItemId>, p: Placement, id: ItemId): (r: seq<ItemId>)
    ensures multiset(r) == multiset(l) + multiset{id}
    ensures p.AtEnd? ==> r == l + [id]
    ensures id !in l && p.After? && p.after in l ==> IndexOf(r, id) == IndexOf(r, p.after) + 1
    ensures id !in l && p.Before? && p.before in l ==> IndexOf(r, p.before) == IndexOf(r, id) + 1
    ensures (p.After? && p.after !in l) || (p.Before? && p.before !in l) ==> r == l + [id]
  {
    match p
    case AtEnd => l + [id]
    case After(x) =>
      var idx := IndexOf(l, x);
      if idx == -1 then l + [id]
      else
        var r := InsertAt(l, idx + 1, id);
        assert id !in l ==> IndexOf(r, x) == idx && IndexOf(r, id) == idx + 1 by {
          if id !in l {
            InsertedIndexes(l, idx + 1, id, x);
          }
        }
        r
    case Before(x) =>
      var idx := IndexOf(l, x);
      if idx == -1 then l + [id]
      else
        var r := InsertAt(l, idx, id);
        assert id !in l ==> IndexOf(r, id) == idx && IndexOf(r, x) == idx + 1 by {
          if id !in l {
            InsertedIndexesFront(l, idx, id, x);
          }
        }
        r
  }

  /** Inserting behind the first `x` keeps `x` where it was found and puts the new id right behind it. */
  lemma InsertedIndexes(l: seq<ItemId>, i: nat, id: ItemId, x: ItemId)
    requires 0 < i <= |l| && IndexOf(l, x) == i - 1 && id != x && id !in l
    ensures IndexOf(InsertAt(l, i, id), x) == i - 1 && IndexOf(InsertAt(l, i, id), id) == i
  {
    var r := InsertAt(l, i, id);
    FirstIndex(r, x, i - 1);
    assert r[..i] == l[..i];
    FirstIndex(r, id, i);
  }

  /** Inserting in front of the first `x` puts the new id where `x` was and `x` right behind it. */
  lemma InsertedIndexesFront(l: seq<ItemId>, i: nat, id: ItemId, x: ItemId)
    requires i < |l| && IndexOf(l, x) == i && id != x && id !in l
    ensures IndexOf(InsertAt(l, i, id), id) == i && IndexOf(InsertAt(l, i, id), x) == i + 1
  {
    var r := InsertAt(l, i, id);
    assert r[..i] == l[..i];
    FirstIndex(r, id, i);
    assert r[..i + 1] == l[..i] + [id];
    FirstIndex(r, x, i + 1);
  }

  /** `IndexOf` is the first position holding the value. */
  lemma FirstIndex(l: seq<ItemId>, x: ItemId, i: nat)
    requires i < |l| && l[i] == x && x !in l[..i]
    ensures IndexOf(l, x) == i
  {
  }

  /** `addItem` with the placement the option names promise. */
  function AddItemPlaced<T>(b: Bar<T>, item: T, a: Alignment, p: Placement, newId: ItemId): (r: Bar<T>)
    requires newId !in b.itemMap && newId !in List(b, a)
    ensures r.itemMap == b.itemMap[newId := IdItem(item, newId)]
    ensures forall o: Alignment | o != a :: List(r, o) == List(b, o)
    ensures List(r, a) == PlaceIntended(List(b, a), p, newId)
  {
    WithList(b.(itemMap := b.itemMap[newId := IdItem(item, newId)]), a, PlaceIntended(List(b, a), p, newId))
  }

  /** With the intended placement, `before: x` lands right in front of `x`. */
  lemma BeforePlacedInFront(l: seq<ItemId>, x: ItemId, newId: ItemId)
    requires x in l && newId !in l
    ensures var r := PlaceIntended(l, Before(x), newId);
      IndexOf(r, newId) + 1 == IndexOf(r, x)
  {
  }

  /** The intended placement is undone by the cleanup too. */
  lemma AddPlacedThenCleanup<T>(b: Bar<T>, item: T, a: Alignment, p: Placement, newId: ItemId)
    requires newId !in b.itemMap && newId !in List(b, a)
    ensures Cleanup(AddItemPlaced(b, item, a, p, newId), a, newId) == b
  {
    var l := List(b, a);
    match p {
      case After(x) =>
        if IndexOf(l, x) != -1 {
          WithoutInsert(l, IndexOf(l, x) + 1, newId);
        } else {
          WithoutAppend(l, newId);
        }
      case Before(x) =>
        if IndexOf(l, x) != -1 {
          WithoutInsert(l, IndexOf(l, x), newId);
        } else {
          WithoutAppend(l, newId);
        }
      case AtEnd => WithoutAppend(l, newId);
    }
    CleanupUndoes(b, a, newId, IdItem(item, newId), PlaceIntended(l, p, newId));
  }
}
