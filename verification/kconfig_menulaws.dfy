/** Which entries end up below which (nemu/tools/kconfig/menu.c:306-585). */
module MenuLaws {
  import opened Wrappers
  import opened MenuTree
  import opened MenuLinks

  // ---- what one call takes ----

  /** An entry with a list of its own keeps all of it, and takes nothing from behind it. */
  lemma ListKept(k: Tests, id: int, list: Menus, next: Menus)
    requires list.Entry?
    ensures Finalize(k, id, list, next).1 == next && Preorder(Finalize(k, id, list, next).0) == Preorder(list)
  {
    FlattenOrder(k, FinalizeAll(k, list));
  }

  /** A chain all of whose entries pass the test */
  predicate AllBelow(k: Tests, p: int, m: Menus) { m.Entry? ==> k.below(p, m.id) && AllBelow(k, p, m.next) }

  /** The entries gathered are those that pass, up to the first one that does not. */
  lemma {:induction false} GatherMeaning(k: Tests, p: int, m: Menus)
    ensures var (taken, left) := Gather(k, p, m);
            && AllBelow(k, p, taken)
            && (left.Entry? ==> !k.below(p, left.id))
            && (m.Entry? && k.below(p, m.id) ==> taken.Entry? && taken.id == m.id)
            && (m.Entry? && !k.below(p, m.id) ==> taken.Nil? && left == m)
    decreases |Preorder(m)|
  {
    if m.Entry? && k.below(p, m.id) {
      GatherMeaning(k, p, Finalize(k, m.id, m.list, m.next).1);
    }
  }

  /** An entry without a list takes entries from behind it just if it has a symbol and the next one passes
      the test; the first entry that is left does not pass. */
  lemma TakenFromBehind(k: Tests, id: int, next: Menus)
    ensures var (taken, left) := Finalize(k, id, Nil, next);
            && (taken.Entry? <==> k.symbol(id) && next.Entry? && k.below(id, next.id))
            && (taken.Entry? ==> taken.id == next.id)
            && (taken.Nil? ==> left == next)
            && (k.symbol(id) && left.Entry? ==> !k.below(id, left.id))
  {
    GatherMeaning(k, id, next);
  }

  // ---- parents ----

  /** The entry that c hangs under, in a chain whose entries hang under p */
  function ParentIn(m: Menus, p: int, c: int): Option<int> {
    match m
    case Nil => None
    case Entry(id, list, next) =>
      if c == id then Some(p)
      else if ParentIn(list, id, c).Some? then ParentIn(list, id, c)
      else ParentIn(next, p, c)
  }

  lemma {:induction false} ParentOfAppended(a: Menus, b: Menus, p: int, c: int)
    ensures ParentIn(Append(a, b), p, c) == if ParentIn(a, p, c).Some? then ParentIn(a, p, c) else ParentIn(b, p, c)
  {
    if a.Entry? { ParentOfAppended(a.next, b, p, c); }
  }

  lemma {:induction false} ParentPresent(m: Menus, p: int, c: int)
    ensures ParentIn(m, p, c).Some? <==> c in Preorder(m)
    ensures ParentIn(m, p, c).Some? ==> ParentIn(m, p, c).value == p || ParentIn(m, p, c).value in Preorder(m)
  {
    if m.Entry? {
      ParentPresent(m.list, m.id, c);
      ParentPresent(m.next, p, c);
    }
  }

  /** Hanging a chain under another entry changes the parent of its own entries only. */
  lemma {:induction false} Rehung(m: Menus, p: int, q: int, c: int)
    requires p !in Preorder(m)
    ensures ParentIn(m, q, c) == if ParentIn(m, p, c) == Some(p) then Some(q) else ParentIn(m, p, c)
  {
    if m.Entry? {
      assert m.id in Preorder(m) && m.id != p;
      assert forall x | x in Preorder(m.list) || x in Preorder(m.next) :: x in Preorder(m);
      ParentPresent(m.list, m.id, c);
      Rehung(m.next, p, q, c);
    }
  }

  lemma {:induction false} FlatParent(k: Tests, m: Menus, p: int, c: int)
    requires Flat(k, m) && ParentIn(m, p, c).Some?
    ensures ParentIn(m, p, c).value == p || !k.promptless(ParentIn(m, p, c).value)
  {
    if m.Entry? && c != m.id {
      if ParentIn(m.list, m.id, c).Some? {
        FlatParent(k, m.list, m.id, c);
      } else {
        FlatParent(k, m.next, p, c);
      }
    }
  }

  /** The parent after flattening: that of the chain for what hung under an entry without a prompt, and the
      old one for everything else. */
  function NewParent(k: Tests, p: int, old_: Option<int>): Option<int> {
    if old_.Some? && old_.value != p && k.promptless(old_.value) then Some(p) else old_
  }

  /** Flattening moves the entries of promptless ones up by one level and no others. */
  lemma {:induction false} FlattenParents(k: Tests, m: Menus, p: int, c: int)
    requires ListsFlat(k, m) && Distinct([p] + Preorder(m))
    ensures ParentIn(Flatten(k, m), p, c) == NewParent(k, p, ParentIn(m, p, c))
    decreases |Preorder(m)|
  {
    if m.Entry? {
      SplitDistinct([p], Preorder(m));
      Separated(m);
      SplitDistinct([p], Preorder(m.next));
      assert p in [p] && m.id in Preorder(m);
      assert forall x | x in Preorder(m.list) || x in Preorder(m.next) :: x in Preorder(m);
      if m.list.Entry? && k.promptless(m.id) {
        MovedUp(k, m, p, c);
      } else {
        FlattenParents(k, m.next, p, c);
        ParentPresent(m.list, m.id, c);
        if ParentIn(m.list, m.id, c).Some? { FlatParent(k, m.list, m.id, c); }
      }
    }
  }

  lemma MovedUp(k: Tests, m: Menus, p: int, c: int)
    requires ListsFlat(k, m) && Distinct([p] + Preorder(m)) && m.Entry? && m.list.Entry? && k.promptless(m.id)
    requires p != m.id && p !in Preorder(m.list) && p !in Preorder(m.next) && m.id !in Preorder(m.list)
    ensures ParentIn(Flatten(k, m), p, c) == NewParent(k, p, ParentIn(m, p, c))
    decreases |Preorder(m)|, 0
  {
    var moved := Append(m.list, m.next);
    PreorderAppend(m.list, m.next);
    AppendFlat(k, m.list, m.next);
    SplitDistinct([p, m.id], Preorder(moved));
    assert [p] + Preorder(m) == [p, m.id] + Preorder(moved);
    SplitDistinct([p], Preorder(moved));
    FlattenParents(k, moved, p, c);
    ParentOfAppended(m.list, m.next, p, c);
    Rehung(m.list, m.id, p, c);
    ParentPresent(m.list, m.id, c);
  }
}
