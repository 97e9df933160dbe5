/** What menu_finalize makes of a tree of menus, for any outcome of its dependency tests
    (nemu/tools/kconfig/menu.c:306-585). */
module MenuTree {
  /** A chain of menu entries as the list and next pointers spell it */
  datatype Menus = Nil | Entry(id: int, list: Menus, next: Menus)

  /** Whether an entry has a symbol, whether its prompt has no text, and whether a following
      entry depends on the first one (menu.c:461-491); each pair is tested once at most. */
  datatype Tests = Tests(symbol: int -> bool, promptless: int -> bool, below: (int, int) -> bool)

  /** All entries, in the order of the configuration file */
  function Preorder(m: Menus): seq<int> {
    match m
    case Nil => []
    case Entry(id, list, next) => [id] + (Preorder(list) + Preorder(next))
  }

  /** b behind the last entry of the chain a */
  function Append(a: Menus, b: Menus): Menus {
    if a.Nil? then b else Entry(a.id, a.list, Append(a.next, b))
  }

  lemma Assoc(a: seq<int>, b: seq<int>, c: seq<int>)
    ensures (a + b) + c == a + (b + c)
  {}

  lemma {:induction false} PreorderAppend(a: Menus, b: Menus)
    ensures Preorder(Append(a, b)) == Preorder(a) + Preorder(b)
  {
    if a.Entry? {
      PreorderAppend(a.next, b);
      Assoc(Preorder(a.list), Preorder(a.next), Preorder(b));
      Assoc([a.id], Preorder(a.list) + Preorder(a.next), Preorder(b));
    }
  }

  // ---- flattening ----

  /** The lists of promptless entries move up behind them. */
  function Flatten(k: Tests, m: Menus): Menus
    decreases |Preorder(m)|
  {
    if m.Nil? then Nil
    else if m.list.Entry? && k.promptless(m.id) then
      PreorderAppend(m.list, m.next);
      Entry(m.id, Nil, Flatten(k, Append(m.list, m.next)))
    else Entry(m.id, m.list, Flatten(k, m.next))
  }

  lemma {:induction false} FlattenOrder(k: Tests, m: Menus)
    ensures Preorder(Flatten(k, m)) == Preorder(m)
    decreases |Preorder(m)|
  {
    if m.Entry? {
      if m.list.Entry? && k.promptless(m.id) {
        PreorderAppend(m.list, m.next);
        FlattenOrder(k, Append(m.list, m.next));
      } else {
        FlattenOrder(k, m.next);
      }
    }
  }

  // ---- the loops of menu_finalize ----

  /** One call: the list of the entry and the entries that follow it, afterwards */
  function Finalize(k: Tests, id: int, list: Menus, next: Menus): (r: (Menus, Menus))
    ensures Preorder(r.0) + Preorder(r.1) == Preorder(list) + Preorder(next)
    decreases |Preorder(list)| + |Preorder(next)|, 1
  {
    if list.Entry? then
      FlattenOrder(k, FinalizeAll(k, list));
      (Flatten(k, FinalizeAll(k, list)), next)
    else if k.symbol(id) then
      var (gathered, rest) := Gather(k, id, next);
      FlattenOrder(k, gathered);
      (Flatten(k, gathered), rest)
    else (Nil, next)
  }

  /** The children, one after the other; each may take some of those behind it. */
  function FinalizeAll(k: Tests, m: Menus): (r: Menus)
    ensures Preorder(r) == Preorder(m)
    decreases |Preorder(m)|, 0
  {
    if m.Nil? then Nil
    else
      var (list, rest) := Finalize(k, m.id, m.list, m.next);
      Entry(m.id, list, FinalizeAll(k, rest))
  }

  /** The entries that follow a symbol and depend on it */
  function Gather(k: Tests, p: int, m: Menus): (r: (Menus, Menus))
    ensures Preorder(r.0) + Preorder(r.1) == Preorder(m)
    decreases |Preorder(m)|, 0
  {
    if m.Nil? || !k.below(p, m.id) then (Nil, m)
    else
      var (list, rest) := Finalize(k, m.id, m.list, m.next);
      var (more, left) := Gather(k, p, rest);
      Assoc(Preorder(list), Preorder(more), Preorder(left));
      Assoc([m.id], Preorder(list) + Preorder(more), Preorder(left));
      (Entry(m.id, list, more), left)
  }

  // ---- no promptless entry keeps a list ----

  predicate Flat(k: Tests, m: Menus) {
    m.Entry? ==> (k.promptless(m.id) ==> m.list.Nil?) && Flat(k, m.list) && Flat(k, m.next)
  }

  /** The same for the lists of the entries of a chain only */
  predicate ListsFlat(k: Tests, m: Menus) {
    m.Entry? ==> Flat(k, m.list) && ListsFlat(k, m.next)
  }

  lemma {:induction false} AppendFlat(k: Tests, a: Menus, b: Menus)
    requires Flat(k, a) && ListsFlat(k, b)
    ensures ListsFlat(k, Append(a, b))
  {
    if a.Entry? { AppendFlat(k, a.next, b); }
  }

  lemma {:induction false} FlattenFlat(k: Tests, m: Menus)
    requires ListsFlat(k, m)
    ensures Flat(k, Flatten(k, m))
    decreases |Preorder(m)|
  {
    if m.Entry? {
      if m.list.Entry? && k.promptless(m.id) {
        PreorderAppend(m.list, m.next);
        AppendFlat(k, m.list, m.next);
        FlattenFlat(k, Append(m.list, m.next));
      } else {
        FlattenFlat(k, m.next);
      }
    }
  }

  /** After menu_finalize no promptless entry has a list, at any depth. */
  lemma {:induction false} FinalizeFlat(k: Tests, id: int, list: Menus, next: Menus)
    ensures Flat(k, Finalize(k, id, list, next).0)
    decreases |Preorder(list)| + |Preorder(next)|, 1
  {
    if list.Entry? {
      FinalizeAllFlat(k, list);
      FlattenFlat(k, FinalizeAll(k, list));
    } else if k.symbol(id) {
      GatherFlat(k, id, next);
      FlattenFlat(k, Gather(k, id, next).0);
    }
  }

  lemma {:induction false} FinalizeAllFlat(k: Tests, m: Menus)
    ensures ListsFlat(k, FinalizeAll(k, m))
    decreases |Preorder(m)|, 0
  {
    if m.Entry? {
      FinalizeFlat(k, m.id, m.list, m.next);
      FinalizeAllFlat(k, Finalize(k, m.id, m.list, m.next).1);
    }
  }

  lemma {:induction false} GatherFlat(k: Tests, p: int, m: Menus)
    ensures ListsFlat(k, Gather(k, p, m).0)
    decreases |Preorder(m)|, 0
  {
    if m.Entry? && k.below(p, m.id) {
      FinalizeFlat(k, m.id, m.list, m.next);
      GatherFlat(k, p, Finalize(k, m.id, m.list, m.next).1);
    }
  }
}
