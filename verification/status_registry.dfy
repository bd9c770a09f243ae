/**
 * The first status bar (app/src/StatusBar.tsx): one map of items per
 * alignment, keyed by the caller's own id. `createItem` is idempotent so
 * that hot reloading does not register an item twice.
 */
module StatusRegistry {
  datatype Alignment = Left | Right
  datatype Kind = Text | Button

  datatype Props = Props(id: string, kind: Kind, alignment: Alignment)

  /** What an item shows; a fresh item shows the empty fragment until its owner sets something else. */
  datatype Content = EmptyFragment | Shown(name: string)

  datatype Item = Item(props: Props, content: Content)

  datatype Registry = Registry(left: map<string, Item>, right: map<string, Item>)

  function Empty(): (r: Registry)
    ensures r.left == map[] && r.right == map[]
  {
    Registry(map[], map[])
  }

  function Side(reg: Registry, a: Alignment): map<string, Item> {
    match a
    case Left => reg.left
    case Right => reg.right
  }

  datatype Created = Created(reg: Registry, item: Item)

  /**
   * `createItem`: an item already stored under the same alignment and id is
   * returned as it is, and nothing changes; otherwise a new item with the
   * given props and empty content is stored and returned.
   */
  function CreateItem(reg: Registry, props: Props): (r: Created)
    ensures props.id in Side(reg, props.alignment) ==>
      r.reg == reg && r.item == Side(reg, props.alignment)[props.id]
    ensures props.id !in Side(reg, props.alignment) ==>
      r.item == Item(props, EmptyFragment) &&
      Side(r.reg, props.alignment) == Side(reg, props.alignment)[props.id := r.item]
    ensures forall a: Alignment | a != props.alignment :: Side(r.reg, a) == Side(reg, a)
    ensures props.id in Side(r.reg, props.alignment) && Side(r.reg, props.alignment)[props.id] == r.item
  {
    var side := Side(reg, props.alignment);
    if props.id in side then Created(reg, side[props.id])
    else
      var item := Item(props, EmptyFragment);
      match props.alignment
      case Left => Created(reg.(left := reg.left[props.id := item]), item)
      case Right => Created(reg.(right := reg.right[props.id := item]), item)
  }

  /** Creating the same item again returns the same item and leaves the registry alone. */
  lemma CreateTwice(reg: Registry, props: Props)
    ensures var first := CreateItem(reg, props);
      CreateItem(first.reg, props) == first
  {
  }

  /** The same id under the other alignment is a separate entry: creating it does not disturb the first. */
  lemma SidesIndependent(reg: Registry, id: string, k1: Kind, k2: Kind)
    requires id !in reg.left && id !in reg.right
    ensures var one := CreateItem(reg, Props(id, k1, Left));
      var two := CreateItem(one.reg, Props(id, k2, Right));
      two.reg.left[id] == one.item && two.reg.right[id] == two.item && one.item != two.item
  {
  }
}
