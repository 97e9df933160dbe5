/** The single steps of the loops of menu_finalize, on the pointers they change
    (nemu/tools/kconfig/menu.c:398-550). */
module MenuSteps {
  import opened MenuTree
  import opened MenuLinks

  lemma SameSelf(h: Links, ids: seq<int>)
    requires Sized(h)
    ensures SameOutside(h, h, ids)
  {}

  /** A change within ids keeps what p holds and the chain behind it. */
  lemma BesideKept(h: Links, h': Links, p: int, ids: seq<int>, n: Menus, pn: seq<int>)
    requires SameOutside(h, h', ids) && In(h, p) && p !in ids && pn == Preorder(n) && Apart(ids, pn)
    requires Spells(h, n, h.next[p], NULL, h.parent[p])
    ensures In(h', p) && h'.next[p] == h.next[p] && h'.parent[p] == h.parent[p] && h'.list[p] == h.list[p]
    ensures Spells(h', n, h'.next[p], NULL, h'.parent[p])
  {
    assert SameAt(h, h', p);
    SpellsFrame(h, h', n, h.next[p], NULL, h.parent[p]);
  }

  lemma WithinAll(h0: Links, h1: Links, h2: Links, p: int, pl: seq<int>, pn: seq<int>, pm: seq<int>)
    requires Sized(h0) && SameOutside(h1, h2, pm) && forall x | x in pm :: x in pl || x in pn
    requires SameOutside(h0, h1, pl) || SameOutside(h0, h1, [p] + pn) || SameOutside(h0, h1, [p] + (pl + pn))
    ensures SameOutside(h0, h2, [p] + (pl + pn))
  {
    var all := [p] + (pl + pn);
    assert forall x :: x in all <==> x == p || x in pl || x in pn;
    if SameOutside(h0, h1, pl) { SameWithin(h0, h1, pl, all); }
    if SameOutside(h0, h1, [p] + pn) { SameWithin(h0, h1, [p] + pn, all); }
    SameWithin(h1, h2, pm, all);
    SameTwice(h0, h1, h2, all);
  }

  /** The three cases, before the lists are flattened, and their orders */
  lemma FinalizeCases(k: Tests, p: int, l: Menus, n: Menus)
    ensures var (r, all, g) := (MenuTree.Finalize(k, p, l, n), FinalizeAll(k, l), Gather(k, p, n));
            if l.Entry? then r == (Flatten(k, all), n) && Preorder(all) == Preorder(l) == Preorder(r.0)
            else if k.symbol(p) then
              && r == (Flatten(k, g.0), g.1)
              && Preorder(g.0) + Preorder(g.1) == Preorder(n) && Preorder(r.0) == Preorder(g.0)
            else r == (Flatten(k, l), n) && Preorder(r.0) == Preorder(l) == []
  {
    FlattenOrder(k, FinalizeAll(k, l));
    FlattenOrder(k, Gather(k, p, n).0);
  }

  lemma ChainOf(h: Links, done: Menus, first: int, mid: int, par: int)
    requires Spells(h, done, first, mid, par)
    ensures done.Nil? ==> first == mid && Spells(h, done, NULL, NULL, par)
    ensures done.Entry? ==> Last(done) in Preorder(done) && In(h, Last(done))
  {
    if done.Entry? {
      LastNext(h, done, first, mid, par);
      LastIn(done);
    }
  }

  lemma FlattenNil(k: Tests)
    ensures Flatten(k, Nil) == Nil
  {}

  lemma StillIn(h: Links, h': Links, ids: seq<int>, id: int)
    requires SameOutside(h, h', ids) && In(h, id)
    ensures In(h', id)
  {}

  /** The changes of one round are within the chain of the loop. */
  lemma Accumulate(h0: Links, h: Links, h': Links, done: seq<int>, rest: seq<int>)
    requires Sized(h0) && SameOutside(h0, h, done + rest) && SameOutside(h, h', rest)
    ensures SameOutside(h0, h', done + rest)
  {
    SameWithin(h, h', rest, done + rest);
    SameTwice(h0, h, h', done + rest);
  }

  /** The entry whose chain it is stays as it is. */
  lemma HeadKept(h: Links, h': Links, p: int, done: seq<int>, rest: seq<int>)
    requires In(h, p) && SameOutside(h, h', rest) && p !in done + rest
    ensures In(h', p) && h'.next[p] == h.next[p] && h'.list[p] == h.list[p] && h'.parent[p] == h.parent[p]
  {
    assert p !in rest;
    assert SameAt(h, h', p);
  }

  lemma StartAppend(m: Menus)
    ensures Append(Nil, m) == m
  {}

  lemma {:induction false} AppendNil(a: Menus)
    ensures Append(a, Nil) == a
  {
    if a.Entry? { AppendNil(a.next); }
  }

  lemma StartLoop(h: Links, m: Menus, first: int, par: int)
    requires Sized(h)
    ensures Spells(h, Nil, first, first, par) && Preorder(Nil) + Preorder(m) == Preorder(m) && Append(Nil, m) == m
    ensures SameOutside(h, h, Preorder(m))
  {
    SameSelf(h, Preorder(m));
    hide SameOutside;
  }

  lemma ReparentStep(h: Links, done: Menus, first: int, rest: Menus, oldParent: int, par: int)
    requires rest.Entry? && Spells(h, done, first, rest.id, par) && Spells(h, rest, rest.id, NULL, oldParent)
    requires Distinct(Preorder(done) + Preorder(rest))
    ensures In(h, rest.id)
    ensures var h' := h.(parent := h.parent[rest.id := par]);
            && Spells(h', Append(done, Entry(rest.id, rest.list, Nil)), first, h'.next[rest.id], par)
            && Spells(h', rest.next, h'.next[rest.id], NULL, oldParent)
            && Preorder(Append(done, Entry(rest.id, rest.list, Nil))) + Preorder(rest.next)
               == Preorder(done) + Preorder(rest)
  {
    var h' := h.(parent := h.parent[rest.id := par]);
    SplitDistinct(Preorder(done), Preorder(rest));
    Separated(rest);
    SpellsFrame(h, h', rest.list, h.list[rest.id], NULL, rest.id);
    SpellsFrame(h, h', rest.next, h.next[rest.id], NULL, oldParent);
    Advance(h, h', done, first, rest, rest.list, rest.next, par);
  }

  lemma ReparentWithin(h0: Links, h: Links, m: Menus, done: Menus, rest: Menus, par: int)
    requires rest.Entry? && In(h, rest.id) && Sized(h0) && SameOutside(h0, h, Preorder(m))
    requires Preorder(done) + Preorder(rest) == Preorder(m)
    ensures SameOutside(h0, h.(parent := h.parent[rest.id := par]), Preorder(m))
  {
    InBoth(Preorder(done), Preorder(rest), rest.id);
    hide Preorder;
    SameTwice(h0, h, h.(parent := h.parent[rest.id := par]), Preorder(m));
  }

  lemma InBoth(a: seq<int>, b: seq<int>, id: int)
    requires id in b
    ensures id in a + b
  {
    assert id in a + b;
  }

  /** What the pointers of the current entry hold */
  lemma ListOf(h: Links, rest: Menus, first: int, par: int)
    requires rest.Entry? && Spells(h, rest, first, NULL, par) && Distinct(Preorder(rest))
    ensures In(h, first) && h.parent[first] == par
    ensures Spells(h, rest.list, h.list[first], NULL, first) && Spells(h, rest.next, h.next[first], NULL, par)
    ensures rest.list.Entry? <==> h.list[first] != NULL
    ensures Distinct(Preorder(rest.list)) && Distinct(Preorder(rest.next))
  {
    Separated(rest);
    ChainEnds(h, rest.list, h.list[first], first);
  }

  lemma ShorterRest(rest: Menus, list: Menus, more: Menus)
    requires rest.Entry? && Preorder(rest) == [rest.id] + (Preorder(list) + Preorder(more))
    ensures |Preorder(more)| < |Preorder(rest)| && |Preorder(list)| + |Preorder(more)| < |Preorder(rest)|
  {}

  /** One round of Flatten, behind the entries done */
  lemma FlattenStep(k: Tests, done: Menus, rest: Menus)
    requires rest.Entry?
    ensures Preorder(rest) == [rest.id] + (Preorder(rest.list) + Preorder(rest.next))
    ensures Preorder(Append(rest.list, rest.next)) == Preorder(rest.list) + Preorder(rest.next)
    ensures var moved := Append(rest.list, rest.next);
            if rest.list.Entry? && k.promptless(rest.id)
            then Append(Append(done, Entry(rest.id, Nil, Nil)), Flatten(k, moved)) == Append(done, Flatten(k, rest))
            else
              Append(Append(done, Entry(rest.id, rest.list, Nil)), Flatten(k, rest.next))
              == Append(done, Flatten(k, rest))
  {
    PreorderAppend(rest.list, rest.next);
    if rest.list.Entry? && k.promptless(rest.id) {
      AppendOne(done, rest.id, Nil, Flatten(k, Append(rest.list, rest.next)));
    } else {
      AppendOne(done, rest.id, rest.list, Flatten(k, rest.next));
    }
  }

  /** The links after the list of id, ending in last, was spliced behind it */
  function Spliced(h: Links, id: int, last: int): Links
    requires In(h, id) && In(h, last)
  {
    Links(h.next[last := h.next[id]][id := h.list[id]], h.list[id := NULL], h.parent)
  }

  /** h1 is h with the parents of the list changed. */
  lemma SpliceStep(h: Links, h1: Links, done: Menus, first: int, rest: Menus, par: int)
    requires rest.Entry? && rest.list.Entry? && Distinct(Preorder(done) + Preorder(rest))
    requires Spells(h, done, first, rest.id, par) && Spells(h, rest, rest.id, NULL, par)
    requires SameOutside(h, h1, Preorder(rest.list)) && In(h1, rest.id)
    requires Spells(h1, rest.list, h.list[rest.id], NULL, par)
    ensures In(h1, Last(rest.list)) && In(h, rest.id)
    ensures var h' := Spliced(h1, rest.id, Last(rest.list));
            var moved := Append(rest.list, rest.next);
            && Spells(h', Append(done, Entry(rest.id, Nil, Nil)), first, h'.next[rest.id], par)
            && Spells(h', moved, h'.next[rest.id], NULL, par)
            && Preorder(Append(done, Entry(rest.id, Nil, Nil))) + Preorder(moved) == Preorder(done) + Preorder(rest)
            && SameOutside(h, h', Preorder(rest))
  {
    hide Distinct;
    SplitDistinct(Preorder(done), Preorder(rest));
    SplicedList(h, h1, rest, par);
    Separated(rest);
    var id := rest.id;
    var h' := Spliced(h1, id, Last(rest.list));
    SpellsFrame(h, h', rest.next, h.next[id], NULL, par);
    SpellsAppend(h', rest.list, rest.next, h.list[id], h.next[id], NULL, par);
    PreorderAppend(rest.list, rest.next);
    Advance(h, h', done, first, rest, Nil, Append(rest.list, rest.next), par);
  }

  /** The last entry of the list now leads to what comes behind the list's owner. */
  lemma SplicedList(h: Links, h1: Links, rest: Menus, par: int)
    requires rest.Entry? && rest.list.Entry? && Distinct(Preorder(rest)) && Spells(h, rest, rest.id, NULL, par)
    requires SameOutside(h, h1, Preorder(rest.list)) && In(h1, rest.id)
    requires Spells(h1, rest.list, h.list[rest.id], NULL, par)
    ensures In(h1, Last(rest.list)) && In(h, rest.id)
    ensures var h' := Spliced(h1, rest.id, Last(rest.list));
            && Spells(h', rest.list, h.list[rest.id], h.next[rest.id], par)
            && h'.next[rest.id] == h.list[rest.id] && h'.list[rest.id] == NULL
            && SameOutside(h, h', [rest.id] + Preorder(rest.list))
  {
    ChainEnds(h, rest, rest.id, par);
    Separated(rest);
    var id, last := rest.id, Last(rest.list);
    LastIn(rest.list);
    InChain(h1, rest.list, h.list[id], NULL, par, last);
    hide Spells, Preorder, Distinct, Last, SameOutside;
    SplicedFields(h, h1, id, last, Preorder(rest.list));
    var h2 := h1.(next := h1.next[last := h1.next[id]]);
    Retarget(h1, h2, rest.list, h.list[id], NULL, par, h.next[id]);
    SpellsFrame(h2, Spliced(h1, id, last), rest.list, h.list[id], h.next[id], par);
  }

  lemma SplicedFields(h: Links, h1: Links, id: int, last: int, ids: seq<int>)
    requires In(h, id) && In(h1, id) && In(h1, last) && last in ids && id !in ids && SameOutside(h, h1, ids)
    ensures var h2 := h1.(next := h1.next[last := h1.next[id]]);
            OnlyNext(h1, h2, last, h.next[id]) && SameOn(h2, Spliced(h1, id, last), ids)
    ensures var h' := Spliced(h1, id, last);
            h'.next[id] == h.list[id] && h'.list[id] == NULL && SameOutside(h, h', [id] + ids)
  {
    assert SameAt(h, h1, id);
    forall x | x !in [id] + ids ensures SameAt(h, Spliced(h1, id, last), x) {
      assert SameAt(h, h1, x);
    }
  }

  lemma {:induction false} InChain(h: Links, m: Menus, first: int, stop: int, par: int, id: int)
    requires Spells(h, m, first, stop, par) && id in Preorder(m)
    ensures In(h, id)
  {
    if m.Entry? && id != m.id {
      if id in Preorder(m.list) {
        InChain(h, m.list, h.list[m.id], NULL, m.id, id);
      } else {
        InChain(h, m.next, h.next[m.id], stop, par, id);
      }
    }
  }

  /** One child is done: the loop over the children goes on with what it left. */
  lemma AllStep(k: Tests, done: Menus, rest: Menus)
    requires rest.Entry?
    ensures var r := MenuTree.Finalize(k, rest.id, rest.list, rest.next);
            && Preorder(rest) == [rest.id] + (Preorder(rest.list) + Preorder(rest.next))
            && Preorder(rest) == [rest.id] + (Preorder(r.0) + Preorder(r.1))
            && Append(Append(done, Entry(rest.id, r.0, Nil)), FinalizeAll(k, r.1)) == Append(done, FinalizeAll(k, rest))
  {
    var r := MenuTree.Finalize(k, rest.id, rest.list, rest.next);
    AppendOne(done, rest.id, r.0, FinalizeAll(k, r.1));
  }

  lemma GatherStep(k: Tests, p: int, done: Menus, rest: Menus)
    requires rest.Entry? && k.below(p, rest.id)
    ensures var r := MenuTree.Finalize(k, rest.id, rest.list, rest.next);
            && Preorder(rest) == [rest.id] + (Preorder(rest.list) + Preorder(rest.next))
            && Preorder(rest) == [rest.id] + (Preorder(r.0) + Preorder(r.1))
            && Append(Append(done, Entry(rest.id, r.0, Nil)), Gather(k, p, r.1).0) == Append(done, Gather(k, p, rest).0)
            && Gather(k, p, r.1).1 == Gather(k, p, rest).1
  {
    var r := MenuTree.Finalize(k, rest.id, rest.list, rest.next);
    AppendOne(done, rest.id, r.0, Gather(k, p, r.1).0);
  }

  lemma GatherStops(k: Tests, p: int, rest: Menus)
    requires rest.Nil? || !k.below(p, rest.id)
    ensures Gather(k, p, rest) == (Nil, rest)
  {}

  lemma AllNil(k: Tests)
    ensures FinalizeAll(k, Nil) == Nil
  {}

  lemma WithinOrder(done: seq<int>, rest: seq<int>)
    ensures |rest| <= |done + rest|
  {}

  lemma LogStep(done: Menus, id: int, list: Menus)
    ensures Preorder(Append(done, Entry(id, list, Nil))) == Preorder(done) + ([id] + Preorder(list))
  {
    PreorderAppend(done, Entry(id, list, Nil));
    assert Preorder(list) + [] == Preorder(list);
  }

  lemma {:induction false} LastOf(a: Menus, b: Menus)
    requires b.Entry?
    ensures Append(a, b).Entry? && Last(Append(a, b)) == Last(b)
  {
    if a.Entry? { LastOf(a.next, b); }
  }

  /** As Advance, where the current entry is also given the parent p. */
  lemma AdoptStep(h: Links, h1: Links, done: Menus, first: int, rest: Menus, list: Menus, rest': Menus, par: int,
                  p: int)
    requires rest.Entry? && Spells(h, done, first, rest.id, p)
    requires Distinct(Preorder(done) + Preorder(rest)) && SameOutside(h, h1, Preorder(rest)) && Sized(h)
    requires In(h1, rest.id) && Spells(h1, list, h1.list[rest.id], NULL, rest.id)
    requires Spells(h1, rest', h1.next[rest.id], NULL, par)
    requires [rest.id] + (Preorder(list) + Preorder(rest')) == Preorder(rest)
    ensures var h' := h1.(parent := h1.parent[rest.id := p]);
            var done' := Append(done, Entry(rest.id, list, Nil));
            && Spells(h', done', first, h'.next[rest.id], p) && Spells(h', rest', h'.next[rest.id], NULL, par)
            && Preorder(done') + Preorder(rest') == Preorder(done) + Preorder(rest)
            && SameOutside(h, h', Preorder(rest))
  {
    var h' := h1.(parent := h1.parent[rest.id := p]);
    SplitDistinct(Preorder(done), Preorder(rest));
    SplitDistinct([rest.id], Preorder(list) + Preorder(rest'));
    assert rest.id in [rest.id];
    SpellsFrame(h1, h', list, h1.list[rest.id], NULL, rest.id);
    SpellsFrame(h1, h', rest', h1.next[rest.id], NULL, par);
    OnlyInside(h, h1, h', Preorder(rest), rest.id);
    Advance(h, h', done, first, rest, list, rest', p);
  }

  lemma OnlyInside(h: Links, h1: Links, h': Links, ids: seq<int>, id: int)
    requires SameOutside(h, h1, ids) && Sized(h) && id in ids && In(h1, id)
    requires Sized(h') && |h'.next| == |h1.next| && forall x | x != id :: SameAt(h1, h', x)
    ensures SameOutside(h, h', ids)
  {
    forall x | x !in ids ensures SameAt(h, h', x) {
      assert SameAt(h, h1, x) && SameAt(h1, h', x);
    }
  }

  /** The links after the entries behind p, up to last, became its list */
  function Submenu(h: Links, p: int, last: int): Links
    requires In(h, p) && In(h, last)
  {
    Links(h.next[p := h.next[last]][last := NULL], h.list[p := h.next[p]], h.parent)
  }

  lemma {:induction false} LastNext(h: Links, m: Menus, first: int, stop: int, par: int)
    requires m.Entry? && Spells(h, m, first, stop, par)
    ensures In(h, Last(m)) && h.next[Last(m)] == stop
  {
    if m.next.Entry? { LastNext(h, m.next, h.next[m.id], stop, par); }
  }

  lemma SubmenuStep(h: Links, done: Menus, rest: Menus, p: int, mid: int)
    requires In(h, p) && done.Entry? && Distinct(Preorder(done) + Preorder(rest))
    requires p !in Preorder(done) && p !in Preorder(rest)
    requires Spells(h, done, h.next[p], mid, p) && Spells(h, rest, mid, NULL, h.parent[p])
    ensures In(h, Last(done))
    ensures var h' := Submenu(h, p, Last(done));
            Spells(h', done, h'.list[p], NULL, p) && Spells(h', rest, h'.next[p], NULL, h.parent[p])
  {
    var last := Last(done);
    LastNext(h, done, h.next[p], mid, p);
    LastIn(done);
    SplitDistinct(Preorder(done), Preorder(rest));
    hide Spells, Preorder, Distinct;
    SubmenuList(h, done, p, mid, last);
    SubmenuRest(h, rest, p, mid, last);
  }

  /** What stood behind p is now its list. */
  lemma SubmenuList(h: Links, done: Menus, p: int, mid: int, last: int)
    requires In(h, p) && In(h, last) && done.Entry? && last == Last(done)
    requires Distinct(Preorder(done)) && p !in Preorder(done) && Spells(h, done, h.next[p], mid, p)
    ensures Spells(Submenu(h, p, last), done, h.next[p], NULL, p)
  {
    var h2 := h.(next := h.next[last := NULL]);
    Retarget(h, h2, done, h.next[p], mid, p, NULL);
    forall x | x in Preorder(done) ensures SameAt(h2, Submenu(h, p, last), x) {}
    hide Spells, Distinct;
    SpellsFrame(h2, Submenu(h, p, last), done, h.next[p], NULL, p);
  }

  /** What followed it stays as it is. */
  lemma SubmenuRest(h: Links, rest: Menus, p: int, mid: int, last: int)
    requires In(h, p) && In(h, last) && p !in Preorder(rest) && last !in Preorder(rest)
    requires Spells(h, rest, mid, NULL, h.parent[p])
    ensures Spells(Submenu(h, p, last), rest, mid, NULL, h.parent[p])
  {
    forall x | x in Preorder(rest) ensures SameAt(h, Submenu(h, p, last), x) {}
    hide Spells;
    SpellsFrame(h, Submenu(h, p, last), rest, mid, NULL, h.parent[p]);
  }

  lemma SubmenuWithin(h0: Links, h: Links, p: int, last: int, ids: seq<int>)
    requires Sized(h0) && SameOutside(h0, h, ids) && In(h, p) && In(h, last) && last in ids
    ensures SameOutside(h0, Submenu(h, p, last), [p] + ids)
  {
    forall x | x !in [p] + ids ensures SameAt(h0, Submenu(h, p, last), x) {
      assert x !in ids;
      assert SameAt(h0, h, x);
      assert p in [p] + ids;
    }
  }

  lemma SameMore(h: Links, h': Links, a: seq<int>, b: seq<int>, c: seq<int>)
    requires SameOutside(h, h', b)
    ensures SameOutside(h, h', a + b) && SameOutside(h, h', a + (b + c)) && SameOutside(h, h', [] + b)
  {}

  lemma NothingBehind(k: Tests, p: int, l: Menus)
    ensures var r := MenuTree.Finalize(k, p, l, Nil); r.1 == Nil && Preorder(r.0) == Preorder(l)
  {
    var r := MenuTree.Finalize(k, p, l, Nil);
    assert Preorder(l) + Preorder(Nil) == Preorder(l);
    assert Preorder(r.0) + Preorder(Nil) == Preorder(r.0);
  }
}
