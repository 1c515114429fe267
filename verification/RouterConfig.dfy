/** A router's configuration and the effect of the commands that change it. */
module RouterConfig {
  import opened QueryText

  /** A RouterOS `where` expression: a property equal to a text, one starting with a text, or either of two. */
  datatype Selector = Equals(key: string, value: string)
                    | Prefixed(key: string, text: string)
                    | AnyOf(first: Selector, rest: Selector)

  datatype Command = Add(path: string, fields: seq<(string, string)>)
                   | Set(path: string, sel: Selector, fields: seq<(string, string)>)
                   | Remove(path: string, sel: Selector)

  /** The router's configuration: the items of each menu path, in order. */
  type Menus = map<string, seq<Item>>

  function ItemsAt(m: Menus, path: string): (items: seq<Item>) {
    if path in m then m[path] else []
  }

  predicate Matches(it: Item, sel: Selector) {
    match sel
    case Equals(k, v) => Prop(it, k) == v
    case Prefixed(k, t) => t <= Prop(it, k)
    case AnyOf(a, b) => Matches(it, a) || Matches(it, b)
  }

  function Find(items: seq<Item>, sel: Selector): (r: seq<Item>) {
    if items == [] then []
    else
      var before, it := Find(items[..|items| - 1], sel), items[|items| - 1];
      if Matches(it, sel) then before + [it] else before
  }

  function WithFields(it: Item, fields: seq<(string, string)>): (r: Item) {
    if fields == [] then it
    else WithFields(it, fields[..|fields| - 1])[fields[|fields| - 1].0 := fields[|fields| - 1].1]
  }

  function SetWhere(items: seq<Item>, sel: Selector, fields: seq<(string, string)>): (r: seq<Item>) {
    if items == [] then []
    else
      var it := items[|items| - 1];
      SetWhere(items[..|items| - 1], sel, fields) + [if Matches(it, sel) then WithFields(it, fields) else it]
  }

  function RemoveWhere(items: seq<Item>, sel: Selector): (r: seq<Item>) {
    if items == [] then []
    else
      var before, it := RemoveWhere(items[..|items| - 1], sel), items[|items| - 1];
      if Matches(it, sel) then before else before + [it]
  }

  function ExecOn(items: seq<Item>, c: Command): (r: seq<Item>) {
    match c
    case Add(_, fields) => items + [WithFields(map[], fields)]
    case Set(_, sel, fields) => SetWhere(items, sel, fields)
    case Remove(_, sel) => RemoveWhere(items, sel)
  }

  function Exec(m: Menus, c: Command): (r: Menus) {
    m[c.path := ExecOn(ItemsAt(m, c.path), c)]
  }
}
