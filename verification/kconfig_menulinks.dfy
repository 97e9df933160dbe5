/** Menus as the pointers next, list and parent hold them. */
module MenuLinks {
  import opened MenuTree

  const NULL := -1

  /** The pointer fields of all entries */
  datatype Links = Links(next: seq<int>, list: seq<int>, parent: seq<int>)

  predicate Sized(h: Links) { |h.next| == |h.list| == |h.parent| }

  predicate In(h: Links, id: int) { Sized(h) && 0 <= id < |h.next| }

  /** The chain from first up to (and without) stop spells m, under the parent par; deeper lists
      end with NULL and hang under their own entries. */
  predicate Spells(h: Links, m: Menus, first: int, stop: int, par: int) {
    match m
    case Nil => first == stop
    case Entry(id, list, next) =>
      && first == id && In(h, id) && h.parent[id] == par
      && Spells(h, list, h.list[id], NULL, id)
      && Spells(h, next, h.next[id], stop, par)
  }

  /** Nothing the entries in ids hold has changed. */
  predicate SameAt(h: Links, h': Links, id: int) {
    In(h, id) ==> In(h', id) && h'.next[id] == h.next[id] && h'.list[id] == h.list[id] && h'.parent[id] == h.parent[id]
  }

  predicate SameOn(h: Links, h': Links, ids: seq<int>) {
    forall id | id in ids :: SameAt(h, h', id)
  }

  /** Nothing outside ids has changed. */
  ghost predicate SameOutside(h: Links, h': Links, ids: seq<int>) {
    |h'.next| == |h.next| && Sized(h') && forall id | id !in ids :: SameAt(h, h', id)
  }

  predicate Apart(a: seq<int>, b: seq<int>) { forall id | id in a :: id !in b }

  predicate Distinct(s: seq<int>) { forall i, j | 0 <= i < j < |s| :: s[i] != s[j] }

  lemma {:induction false} SpellsFrame(h: Links, h': Links, m: Menus, first: int, stop: int, par: int)
    requires Spells(h, m, first, stop, par) && SameOn(h, h', Preorder(m))
    ensures Spells(h', m, first, stop, par)
  {
    if m.Entry? {
      assert m.id in Preorder(m) && SameAt(h, h', m.id);
      SpellsFrame(h, h', m.list, h.list[m.id], NULL, m.id);
      SpellsFrame(h, h', m.next, h.next[m.id], stop, par);
    }
  }

  lemma {:induction false} SpellsAppend(h: Links, a: Menus, b: Menus, first: int, mid: int, stop: int, par: int)
    requires Spells(h, a, first, mid, par) && Spells(h, b, mid, stop, par)
    ensures Spells(h, Append(a, b), first, stop, par)
  {
    if a.Entry? { SpellsAppend(h, a.next, b, h.next[a.id], mid, stop, par); }
  }

  /** The last entry of a chain */
  function Last(m: Menus): int
    requires m.Entry?
  {
    if m.next.Nil? then m.id else Last(m.next)
  }

  lemma {:induction false} LastIn(m: Menus)
    requires m.Entry?
    ensures Last(m) in Preorder(m)
  {
    if m.next.Entry? { LastIn(m.next); }
  }

  predicate OnlyNext(h: Links, h': Links, id: int, target: int) {
    In(h, id) && h' == h.(next := h.next[id := target])
  }

  /** Setting the next pointer of the last entry moves the end of the chain. */
  lemma {:induction false} Retarget(h: Links, h': Links, m: Menus, first: int, stop: int, par: int, target: int)
    requires m.Entry? && Spells(h, m, first, stop, par) && Distinct(Preorder(m)) && OnlyNext(h, h', Last(m), target)
    ensures Spells(h', m, first, target, par)
  {
    Separated(m);
    if m.next.Nil? {
      SpellsFrame(h, h', m.list, h.list[m.id], NULL, m.id);
    } else {
      LastIn(m.next);
      SpellsFrame(h, h', m.list, h.list[m.id], NULL, m.id);
      Retarget(h, h', m.next, h.next[m.id], stop, par, target);
    }
  }

  lemma Separated(m: Menus)
    requires m.Entry? && Distinct(Preorder(m))
    ensures m.id !in Preorder(m.list) && m.id !in Preorder(m.next) && Apart(Preorder(m.list), Preorder(m.next))
    ensures Distinct(Preorder(m.list)) && Distinct(Preorder(m.next))
  {
    var a, b := Preorder(m.list), Preorder(m.next);
    var s := Preorder(m);
    assert s[1..] == a + b;
    SplitDistinct([m.id], a + b);
    SplitDistinct(a, b);
  }

  lemma SplitDistinct(a: seq<int>, b: seq<int>)
    ensures Distinct(a + b) <==> Distinct(a) && Distinct(b) && Apart(a, b)
  {
    if Distinct(a + b) {
      forall id | id in a ensures id !in b {
        var i :| 0 <= i < |a| && a[i] == id;
        assert (a + b)[i] == id;
        forall j | 0 <= j < |b| ensures b[j] != id { assert (a + b)[|a| + j] == b[j]; }
      }
      forall i, j | 0 <= i < j < |b| ensures b[i] != b[j] {
        assert (a + b)[|a| + i] == b[i] && (a + b)[|a| + j] == b[j];
      }
      forall i, j | 0 <= i < j < |a| ensures a[i] != a[j] {
        assert (a + b)[i] == a[i] && (a + b)[j] == a[j];
      }
    } else if Distinct(a) && Distinct(b) && Apart(a, b) {
      forall i, j | 0 <= i < j < |a + b| ensures (a + b)[i] != (a + b)[j] {
        if i < |a| <= j {
          assert a[i] in a && b[j - |a|] in b;
        }
      }
    }
  }

  // ---- a loop along a chain: the entries done, and the rest from the current one on ----

  lemma {:induction false} AppendOne(done: Menus, id: int, list: Menus, more: Menus)
    ensures Append(Append(done, Entry(id, list, Nil)), more) == Append(done, Entry(id, list, more))
  {
    if done.Entry? { AppendOne(done.next, id, list, more); }
  }

  lemma SameWithin(h: Links, h': Links, ids: seq<int>, more: seq<int>)
    requires SameOutside(h, h', ids) && forall id | id in ids :: id in more
    ensures SameOutside(h, h', more)
  {}

  lemma SameTwice(h: Links, h': Links, h'': Links, ids: seq<int>)
    requires Sized(h) && SameOutside(h, h', ids) && SameOutside(h', h'', ids)
    ensures SameOutside(h, h'', ids)
  {
    forall id | id !in ids ensures SameAt(h, h'', id) {
      assert SameAt(h, h', id) && SameAt(h', h'', id);
    }
  }

  /** A step that changes the current entry and those behind it moves the loop on. */
  lemma Advance(h: Links, h': Links, done: Menus, first: int, rest: Menus, list: Menus, rest': Menus, par: int)
    requires rest.Entry? && Spells(h, done, first, rest.id, par)
    requires Distinct(Preorder(done) + Preorder(rest)) && SameOutside(h, h', Preorder(rest))
    requires In(h', rest.id) && h'.parent[rest.id] == par && Spells(h', list, h'.list[rest.id], NULL, rest.id)
    requires [rest.id] + (Preorder(list) + Preorder(rest')) == Preorder(rest)
    ensures var done' := Append(done, Entry(rest.id, list, Nil));
            && Spells(h', done', first, h'.next[rest.id], par)
            && Preorder(done') + Preorder(rest') == Preorder(done) + Preorder(rest)
  {
    var one := Entry(rest.id, list, Nil);
    SplitDistinct(Preorder(done), Preorder(rest));
    forall id | id in Preorder(done) ensures SameAt(h, h', id) {}
    SpellsFrame(h, h', done, first, rest.id, par);
    SpellsAppend(h', done, one, first, rest.id, h'.next[rest.id], par);
    PreorderAppend(done, one);
    OrderOfStep(Preorder(done), rest.id, Preorder(list), Preorder(rest'));
  }

  lemma OrderOfStep(done: seq<int>, id: int, list: seq<int>, rest: seq<int>)
    ensures (done + ([id] + (list + []))) + rest == done + ([id] + (list + rest))
  {}

  /** No entry stands at NULL. */
  lemma ChainEnds(h: Links, m: Menus, first: int, par: int)
    requires Spells(h, m, first, NULL, par)
    ensures m.Nil? <==> first == NULL
    ensures m.Entry? ==> m.id == first && In(h, first)
  {}
}
