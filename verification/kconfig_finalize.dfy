/** menu_finalize on the pointers: automatic submenus and flattening in place
    (nemu/tools/kconfig/menu.c:306-585, without the expressions and the checks of choices). */
module MenuFinalize {
  import opened MenuTree
  import opened MenuLinks
  import opened MenuSteps

  class MenuConfig {
    var next: seq<int>
    var list: seq<int>
    var parent: seq<int>
    /** The entries menu_finalize was called for, in the order of the calls */
    var visited: seq<int>
    const k: Tests

    ghost function H(): Links
      reads this
    {
      Links(next, list, parent)
    }

    /** The entries of a promptless entry's list get a new parent; returns the last of them. */
    method Reparent(first: int, oldParent: int, par: int, ghost m: Menus) returns (last: int)
      requires m.Entry? && Spells(H(), m, first, NULL, oldParent) && Distinct(Preorder(m))
      modifies this`parent
      ensures Spells(H(), m, first, NULL, par) && last == Last(m)
      ensures SameOutside(old(H()), H(), Preorder(m))
    {
      hide Spells, Preorder, Append, Distinct, SameOutside;
      ghost var h0 := H();
      last := first;
      ghost var done, rest := Nil, m;
      ChainEnds(h0, m, first, oldParent);
      StartLoop(h0, m, first, par);
      while true
        invariant rest.Entry? && Spells(H(), done, first, last, par) && Spells(H(), rest, last, NULL, oldParent)
        invariant Preorder(done) + Preorder(rest) == Preorder(m) && Append(done, rest) == m && Last(rest) == Last(m)
        invariant SameOutside(h0, H(), Preorder(m))
        decreases rest
      {
        ghost var h := H();
        ChainEnds(h, rest, last, oldParent);
        ReparentStep(h, done, first, rest, oldParent, par);
        ReparentWithin(h0, h, m, done, rest, par);
        AppendOne(done, rest.id, rest.list, rest.next);
        parent := parent[last := par];
        ChainEnds(H(), rest.next, next[last], oldParent);
        done := Append(done, Entry(rest.id, rest.list, Nil));
        if next[last] == NULL { break; }
        last := next[last];
        rest := rest.next;
      }
      AppendNil(done);
    }

    /** The last loop of menu_finalize: the lists of promptless entries move up. */
    method FlattenList(p: int, ghost m: Menus)
      requires In(H(), p) && Spells(H(), m, list[p], NULL, p) && Distinct([p] + Preorder(m))
      modifies this`next, this`list, this`parent
      ensures In(H(), p) && Spells(H(), Flatten(k, m), list[p], NULL, p)
      ensures SameOutside(old(H()), H(), Preorder(m))
    {
      hide Spells, Preorder, Append, Distinct, SameOutside, Flatten;
      ghost var h0 := H();
      SplitDistinct([p], Preorder(m));
      assert p in [p];
      var menu := list[p];
      ghost var done, rest := Nil, m;
      StartLoop(h0, m, menu, p);
      StartAppend(Flatten(k, m));
      while menu != NULL
        invariant In(H(), p) && Spells(H(), done, list[p], menu, p) && Spells(H(), rest, menu, NULL, p)
        invariant Preorder(done) + Preorder(rest) == Preorder(m) && Append(done, Flatten(k, rest)) == Flatten(k, m)
        invariant SameOutside(h0, H(), Preorder(m))
        decreases |Preorder(rest)|
      {
        ghost var h := H();
        ChainEnds(h, rest, menu, p);
        SplitDistinct(Preorder(done), Preorder(rest));
        ListOf(h, rest, menu, p);
        FlattenStep(k, done, rest);
        ShorterRest(rest, rest.list, rest.next);
        if list[menu] != NULL && k.promptless(menu) {
          var last := Reparent(list[menu], menu, p, rest.list);
          StillIn(h, H(), Preorder(rest.list), menu);
          SpliceStep(h, H(), done, list[p], rest, p);
          Accumulate(h0, h, Spliced(H(), menu, last), Preorder(done), Preorder(rest));
          HeadKept(h, Spliced(H(), menu, last), p, Preorder(done), Preorder(rest));
          next := next[last := next[menu]];
          next := next[menu := list[menu]];
          list := list[menu := NULL];
          done, rest := Append(done, Entry(menu, Nil, Nil)), Append(rest.list, rest.next);
        } else {
          StartLoop(h, rest, menu, p);
          Advance(h, h, done, list[p], rest, rest.list, rest.next, p);
          done, rest := Append(done, Entry(menu, rest.list, Nil)), rest.next;
        }
        menu := next[menu];
      }
      ChainEnds(H(), rest, menu, p);
      FlattenNil(k);
      AppendNil(done);
    }

    /** The children of p, one after the other; each may take entries that follow it. */
    method FinalizeChildren(p: int, ghost m: Menus)
      requires In(H(), p) && Spells(H(), m, list[p], NULL, p) && Distinct([p] + Preorder(m))
      modifies this
      ensures In(H(), p) && Spells(H(), FinalizeAll(k, m), list[p], NULL, p)
      ensures SameOutside(old(H()), H(), Preorder(m)) && visited == old(visited) + Preorder(m)
      decreases |Preorder(m)|, 0
    {
      hide Spells, Preorder, Append, Distinct, SameOutside, MenuTree.Finalize, FinalizeAll;
      ghost var h0 := H();
      SplitDistinct([p], Preorder(m));
      assert p in [p];
      var menu := list[p];
      ghost var done, rest := Nil, m;
      StartLoop(h0, m, menu, p);
      StartAppend(FinalizeAll(k, m));
      while menu != NULL
        invariant In(H(), p) && Spells(H(), done, list[p], menu, p) && Spells(H(), rest, menu, NULL, p)
        invariant Preorder(done) + Preorder(rest) == Preorder(m)
        invariant Append(done, FinalizeAll(k, rest)) == FinalizeAll(k, m)
        invariant SameOutside(h0, H(), Preorder(m)) && visited == old(visited) + Preorder(done)
        decreases |Preorder(rest)|
      {
        ghost var h := H();
        ChainEnds(h, rest, menu, p);
        SplitDistinct(Preorder(done), Preorder(rest));
        ListOf(h, rest, menu, p);
        ghost var r := MenuTree.Finalize(k, menu, rest.list, rest.next);
        AllStep(k, done, rest);
        ShorterRest(rest, rest.list, rest.next);
        ShorterRest(rest, r.0, r.1);
        WithinOrder(Preorder(done), Preorder(rest));
        Finalize(menu, rest.list, rest.next);
        Accumulate(h0, h, H(), Preorder(done), Preorder(rest));
        HeadKept(h, H(), p, Preorder(done), Preorder(rest));
        Advance(h, H(), done, list[p], rest, r.0, r.1, p);
        LogStep(done, menu, r.0);
        done, rest := Append(done, Entry(menu, r.0, Nil)), r.1;
        menu := next[menu];
      }
      ChainEnds(H(), rest, menu, p);
      AllNil(k);
      AppendNil(done);
    }

    /** The entries behind a symbol without a list, as long as they depend on it */
    method GatherBelow(p: int, ghost m: Menus)
      requires In(H(), p) && Spells(H(), m, next[p], NULL, parent[p]) && Distinct([p] + Preorder(m))
      requires list[p] == NULL
      modifies this
      ensures In(H(), p) && Spells(H(), Gather(k, p, m).0, list[p], NULL, p)
      ensures Spells(H(), Gather(k, p, m).1, next[p], NULL, parent[p]) && parent[p] == old(parent[p])
      ensures SameOutside(old(H()), H(), [p] + Preorder(m)) && visited == old(visited) + Preorder(Gather(k, p, m).0)
      decreases |Preorder(m)|, 0
    {
      hide Spells, Preorder, Append, Distinct, SameOutside, MenuTree.Finalize, Gather;
      ghost var h0, par := H(), parent[p];
      SplitDistinct([p], Preorder(m));
      assert p in [p];
      var menu, lastMenu := next[p], NULL;
      ghost var done, rest := Nil, m;
      StartLoop(h0, m, menu, p);
      StartAppend(Gather(k, p, m).0);
      while menu != NULL && k.below(p, menu)
        invariant In(H(), p) && Spells(H(), done, next[p], menu, p) && Spells(H(), rest, menu, NULL, par)
        invariant Preorder(done) + Preorder(rest) == Preorder(m)
        invariant Append(done, Gather(k, p, rest).0) == Gather(k, p, m).0 && Gather(k, p, rest).1 == Gather(k, p, m).1
        invariant SameOutside(h0, H(), Preorder(m)) && visited == old(visited) + Preorder(done)
        invariant if done.Nil? then lastMenu == NULL else lastMenu == Last(done)
        invariant list[p] == NULL && parent[p] == par
        decreases |Preorder(rest)|
      {
        ghost var h := H();
        ChainEnds(h, rest, menu, par);
        SplitDistinct(Preorder(done), Preorder(rest));
        ListOf(h, rest, menu, par);
        ghost var r := MenuTree.Finalize(k, menu, rest.list, rest.next);
        GatherStep(k, p, done, rest);
        ShorterRest(rest, rest.list, rest.next);
        ShorterRest(rest, r.0, r.1);
        WithinOrder(Preorder(done), Preorder(rest));
        Finalize(menu, rest.list, rest.next);
        HeadKept(h, H(), p, Preorder(done), Preorder(rest));
        AdoptStep(h, H(), done, next[p], rest, r.0, r.1, par, p);
        parent := parent[menu := p];
        Accumulate(h0, h, H(), Preorder(done), Preorder(rest));
        HeadKept(h, H(), p, Preorder(done), Preorder(rest));
        LogStep(done, menu, r.0);
        LastOf(done, Entry(menu, r.0, Nil));
        done, rest := Append(done, Entry(menu, r.0, Nil)), r.1;
        lastMenu := menu;
        menu := next[menu];
      }
      ghost var h := H();
      ChainEnds(h, rest, menu, par);
      GatherStops(k, p, rest);
      AppendNil(done);
      SplitDistinct(Preorder(done), Preorder(rest));
      SameMore(h0, h, [p], Preorder(m), []);
      ChainOf(h, done, next[p], menu, p);
      if lastMenu != NULL {
        SubmenuStep(h, done, rest, p, menu);
        LastIn(done);
        SubmenuWithin(h0, h, p, lastMenu, Preorder(m));
        list := list[p := next[p]];
        next := next[p := next[lastMenu]];
        next := next[lastMenu := NULL];
      }
    }

    /** menu_finalize: the entry p with its list and what follows it become what the function
        Finalize says; it is called once for each entry that ends up below p, in order. */
    method Finalize(p: int, ghost l: Menus, ghost n: Menus)
      requires In(H(), p) && Spells(H(), l, list[p], NULL, p) && Spells(H(), n, next[p], NULL, parent[p])
      requires Distinct([p] + (Preorder(l) + Preorder(n)))
      modifies this
      ensures In(H(), p) && parent[p] == old(parent[p])
      ensures Spells(H(), MenuTree.Finalize(k, p, l, n).0, list[p], NULL, p)
      ensures Spells(H(), MenuTree.Finalize(k, p, l, n).1, next[p], NULL, parent[p])
      ensures SameOutside(old(H()), H(), [p] + (Preorder(l) + Preorder(n)))
      ensures visited == old(visited) + ([p] + Preorder(MenuTree.Finalize(k, p, l, n).0))
      decreases |Preorder(l)| + |Preorder(n)|, 1
    {
      hide Spells, Preorder, Append, Distinct, SameOutside, MenuTree.Finalize, FinalizeAll, Gather, Flatten;
      ghost var h0, pl, pn := H(), Preorder(l), Preorder(n);
      FinalizeCases(k, p, l, n);
      SplitDistinct([p], pl + pn);
      SplitDistinct(pl, pn);
      SplitDistinct([p], pl);
      SplitDistinct([p], pn);
      assert p in [p];
      ChainEnds(h0, l, list[p], p);
      visited := visited + [p];
      ghost var m, left := l, n;
      if list[p] != NULL {
        FinalizeChildren(p, l);
        BesideKept(h0, H(), p, pl, n, pn);
        m := FinalizeAll(k, l);
      } else if k.symbol(p) {
        GatherBelow(p, n);
        SameMore(h0, H(), pl, [p] + pn, []);
        m, left := Gather(k, p, n).0, Gather(k, p, n).1;
        SplitDistinct(Preorder(m), Preorder(left));
        SplitDistinct([p], Preorder(m));
        SplitDistinct([p], Preorder(left));
      } else {
        SameSelf(h0, [p] + (pl + pn));
      }
      ghost var h1 := H();
      FlattenList(p, m);
      BesideKept(h1, H(), p, Preorder(m), left, Preorder(left));
      WithinAll(h0, h1, H(), p, pl, pn, Preorder(m));
    }

    /** The whole configuration: every entry is finalized once, in the order of the files; the
        entries keep that order, every parent pointer is right and no promptless entry has a list. */
    method FinalizeAllMenus(root: int, ghost l: Menus)
      requires In(H(), root) && Spells(H(), l, list[root], NULL, root) && next[root] == NULL
      requires Distinct([root] + Preorder(l))
      modifies this
      ensures visited == old(visited) + ([root] + Preorder(l))
      ensures In(H(), root) && Spells(H(), MenuTree.Finalize(k, root, l, Nil).0, list[root], NULL, root)
      ensures var m := MenuTree.Finalize(k, root, l, Nil).0; Preorder(m) == Preorder(l) && Flat(k, m)
    {
      FinalizeFlat(k, root, l, Nil);
      NothingBehind(k, root, l);
      assert Preorder(l) + Preorder(Nil) == Preorder(l);
      Finalize(root, l, Nil);
    }
  }
}
