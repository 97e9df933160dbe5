/** The recursive release of page tables: which pages it frees, each of them once
    (abstract-machine/am/src/x86/qemu/vme.c:77-87). */
module Teardown {
  import opened PageState

  const LEVELS := 2

  function Without(mem: Memory, gone: set<Page>): Memory { mem - gone }

  predicate Descends(e: Entry) { e.present && e.user }

  /** The pages freed by a teardown of table p at a level */
  ghost function Freed(mem: Memory, level: nat, p: Page): set<Page>
    decreases LEVELS + 1 - level, 0
  {
    if level > LEVELS || p !in mem then {} else {p} + FreedBelow(mem, level, p, |mem[p]|)
  }

  /** The part of it freed by the first n entries of the table */
  ghost function FreedBelow(mem: Memory, level: nat, p: Page, n: nat): set<Page>
    requires level <= LEVELS
    decreases LEVELS + 1 - level, 0, n
  {
    if n == 0 then {} else FreedBelow(mem, level, p, n - 1) + FreedAt(mem, level, p, n - 1)
  }

  ghost function FreedAt(mem: Memory, level: nat, p: Page, i: nat): set<Page>
    requires level <= LEVELS
    decreases LEVELS + 1 - level, 0, i
  {
    var e := At(mem, p, i);
    if Descends(e) then Freed(mem, level + 1, e.frame) else {}
  }

  /** Every table page below p is reached once. */
  ghost predicate Tree(mem: Memory, level: nat, p: Page)
    decreases LEVELS + 1 - level, 0
  {
    level > LEVELS || (p in mem && p !in FreedBelow(mem, level, p, |mem[p]|) && TreeBelow(mem, level, p, |mem[p]|))
  }

  ghost predicate TreeBelow(mem: Memory, level: nat, p: Page, n: nat)
    requires level <= LEVELS
    decreases LEVELS + 1 - level, 0, n
  {
    n == 0 || (TreeBelow(mem, level, p, n - 1) && TreeAt(mem, level, p, n - 1))
  }

  ghost predicate TreeAt(mem: Memory, level: nat, p: Page, i: nat)
    requires level <= LEVELS
    decreases LEVELS + 1 - level, 0, i
  {
    var e := At(mem, p, i);
    Descends(e) ==> Tree(mem, level + 1, e.frame) && FreedAt(mem, level, p, i) !! FreedBelow(mem, level, p, i)
  }

  lemma {:induction false} TreeBelowFewer(mem: Memory, level: nat, p: Page, n: nat, k: nat)
    requires level <= LEVELS && k <= n
    ensures TreeBelow(mem, level, p, n) ==> TreeBelow(mem, level, p, k)
    ensures FreedBelow(mem, level, p, k) <= FreedBelow(mem, level, p, n)
    decreases n
  {
    if k < n { TreeBelowFewer(mem, level, p, n - 1, k); }
  }

  /** Freeing other pages leaves a tree as it is. */
  lemma {:induction false} FrameTree(mem: Memory, gone: set<Page>, level: nat, p: Page)
    requires Tree(mem, level, p) && gone !! Freed(mem, level, p)
    ensures Tree(Without(mem, gone), level, p) && Freed(Without(mem, gone), level, p) == Freed(mem, level, p)
    decreases LEVELS + 1 - level, 0
  {
    if level <= LEVELS { FrameBelow(mem, gone, level, p, |mem[p]|); }
  }

  lemma {:induction false} FrameBelow(mem: Memory, gone: set<Page>, level: nat, p: Page, n: nat)
    requires level <= LEVELS && p in mem && p !in gone && n <= |mem[p]|
    requires TreeBelow(mem, level, p, n) && gone !! FreedBelow(mem, level, p, n)
    ensures TreeBelow(mem - gone, level, p, n) && FreedBelow(mem - gone, level, p, n) == FreedBelow(mem, level, p, n)
    decreases LEVELS + 1 - level, 0, n
  {
    if n > 0 {
      FrameBelow(mem, gone, level, p, n - 1);
      var e := At(mem, p, n - 1);
      assert At(mem - gone, p, n - 1) == e;
      if Descends(e) { FrameTree(mem, gone, level + 1, e.frame); }
    }
  }

  // ---- the tables of a space ----

  /** Data pages, one level below the page tables, are not freed. */
  lemma {:induction false} LeavesFreeNothing(mem: Memory, p: Page, n: nat)
    ensures FreedBelow(mem, LEVELS, p, n) == {} && TreeBelow(mem, LEVELS, p, n)
  {
    if n > 0 {
      LeavesFreeNothing(mem, p, n - 1);
      assert Freed(mem, LEVELS + 1, At(mem, p, n - 1).frame) == {};
      assert Tree(mem, LEVELS + 1, At(mem, p, n - 1).frame);
    }
  }

  lemma TableTree(mem: Memory, p: Page)
    requires p in mem
    ensures Tree(mem, LEVELS, p) && Freed(mem, LEVELS, p) == {p}
  {
    LeavesFreeNothing(mem, p, |mem[p]|);
  }

  ghost function TablesBelow(z: State, s: Space, n: nat): set<Page> {
    set p | p in z.owner && z.owner[p].Table? && z.owner[p].space == s && 0 <= z.owner[p].slot < n
  }

  /** The user slots of a space are freed one after the other, the kernel's are passed over. */
  lemma {:induction false} SpaceBelow(z: State, s: Space, n: nat)
    requires Valid(z) && s in z.ptr && s != KERNEL && z.ptr[s].present && n <= FANOUT
    ensures FreedBelow(z.mem, 1, z.ptr[s].frame, n) == TablesBelow(z, s, n)
    ensures TreeBelow(z.mem, 1, z.ptr[s].frame, n)
  {
    if n > 0 {
      var i := n - 1;
      SpaceBelow(z, s, i);
      SlotHolds(z, s, i);
      if Shared(s, i) { SlotHolds(z, KERNEL, i); }
      var e := Dir(z, s, i);
      TablesStep(z, s, i);
      if Descends(e) { TableTree(z.mem, e.frame); }
    }
  }

  lemma TablesStep(z: State, s: Space, i: nat)
    requires Valid(z) && s in z.ptr && s != KERNEL && z.ptr[s].present && i < FANOUT
    ensures var e := Dir(z, s, i);
            TablesBelow(z, s, i + 1) == TablesBelow(z, s, i) + if Descends(e) then {e.frame} else {}
    ensures var e := Dir(z, s, i); Descends(e) ==> e.frame in z.mem && e.frame !in TablesBelow(z, s, i)
  {
    var e := Dir(z, s, i);
    SlotHolds(z, s, i);
    if Shared(s, i) { SlotHolds(z, KERNEL, i); }
    forall p | p in TablesBelow(z, s, i + 1) && p !in TablesBelow(z, s, i) ensures Descends(e) && p == e.frame {
      assert Referenced(z, p);
    }
  }

  /** A teardown of a space's directory frees exactly the pages the space owns. */
  lemma SpaceTree(z: State, s: Space)
    requires Valid(z) && s in z.ptr && s != KERNEL && z.ptr[s].present
    ensures Tree(z.mem, 1, z.ptr[s].frame) && Freed(z.mem, 1, z.ptr[s].frame) == PagesOf(z, s)
    ensures z.ptr[s].user
  {
    var root := z.ptr[s].frame;
    RootInMemory(z, s);
    SpaceBelow(z, s, FANOUT);
    SpacePages(z, s);
    hide Valid, TablesBelow, PagesOf;
  }

  lemma SpacePages(z: State, s: Space)
    requires Valid(z) && s in z.ptr && s != KERNEL && z.ptr[s].present
    ensures z.ptr[s].user && z.ptr[s].frame !in TablesBelow(z, s, FANOUT)
    ensures PagesOf(z, s) == {z.ptr[s].frame} + TablesBelow(z, s, FANOUT)
  {
    assert RootOk(z, s);
    forall p | p in PagesOf(z, s) ensures p == z.ptr[s].frame || p in TablesBelow(z, s, FANOUT) {
      assert Referenced(z, p);
    }
  }
}
