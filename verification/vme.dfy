/** Virtual memory of the abstract machine on 32-bit x86: vme_init, protect, unprotect and map
    (abstract-machine/am/src/x86/qemu/vme.c:3-156). */
module VirtualMemory {
  import opened Wrappers
  import opened Words
  import opened ShiftMath
  import opened Words64
  import opened PageState
  import opened Teardown

  /** Addresses, and the areas of the 32-bit address space; an end of 0 is the end of it. */
  datatype VmArea = VmArea(start: Word, end: Word, kernel: bool)

  const AREAS := [VmArea(0x4000_0000, 0x8000_0000, false), VmArea(0, 0x4000_0000, true), VmArea(0xfd00_0000, 0, true)]

  function FirstPage(area: VmArea): nat { area.start / 4096 }

  function PastPage(area: VmArea): nat { if area.end == 0 then PAGES else area.end / 4096 }

  predicate InPages(area: VmArea, v: Page) { FirstPage(area) <= v < PastPage(area) }

  /** indexof: the bits of an address that select an entry */
  function IndexOf(addr: Word, mask: Word, shift: nat): nat { And(addr, mask) / Pow2(shift) }

  const PD_MASK: Word := 0xffc0_0000
  const PT_MASK: Word := 0x003f_f000

  /** A mask of j ones above shift zeros selects j bits. */
  lemma IndexBits(addr: Word, shift: nat, j: nat, mask: Word)
    requires mask == Pow2(shift) * (Pow2(j) - 1)
    ensures IndexOf(addr, mask, shift) == addr / Pow2(shift) % Pow2(j)
  {
    hide And, Pow2;
    var lo, hi := addr % Pow2(shift), addr / Pow2(shift);
    var p, m := MaskMiddle(lo, hi, shift, j);
    var bits := hi % Pow2(j);
    assert addr == lo + p * hi;
    QuotientIs(p * bits, p, bits, 0);
  }

  lemma IndexMeaning(addr: Word, big: nat, small: nat, width: nat)
    requires big == 22 && small == 12 && width == 10
    ensures IndexOf(addr, PD_MASK, big) == addr / 4096 / FANOUT
    ensures IndexOf(addr, PT_MASK, small) == addr / 4096 % FANOUT
  {
    MorePowers(big, small, width);
    hide IndexOf, Pow2;
    IndexBits(addr, big, width, PD_MASK);
    IndexBits(addr, small, width, PT_MASK);
    DivDiv(addr, 4096, FANOUT);
    QuotientIs(addr / 0x40_0000, FANOUT, 0, addr / 0x40_0000);
  }

  lemma MorePowers(big: nat, small: nat, width: nat)
    requires big == 22 && small == 12 && width == 10
    ensures Pow2(big) == 0x40_0000 && Pow2(small) == 4096 && Pow2(width) == 1024
  {
    assert Pow2(width) == 1024;
    assert Pow2(small) == 4 * Pow2(width);
    Pow2Add(width, small);
  }

  /** All kernel pages are mapped to themselves, in every space. */
  function KernelMapping(v: Page): Option<Mapping> {
    if KernelSlot(v / FANOUT) then Some(Mapping(v, true, false)) else None
  }

  class Mmu {
    var mem: Memory
    var ptr: map<Space, Entry>
    /** pgalloc gave no page, where the source panics */
    var exhausted: bool
    ghost var owner: map<Page, Owner>

    ghost function St(): State
      reads this
    {
      State(mem, ptr, owner)
    }

    ghost predicate Booted()
      reads this
    {
      Valid(St()) && Running(St()) && forall v: Page :: Lookup(St(), KERNEL, v) == KernelMapping(v)
    }

    constructor ()
      ensures Valid(St()) && ptr == map[KERNEL := EMPTY] && mem == map[] && !exhausted
    {
      exhausted := false;
      mem := map[];
      ptr := map[KERNEL := EMPTY];
      owner := map[];
    }

    /** pgallocz: any page that holds no table yet, cleared; the allocator may also fail. */
    method PgallocZ() returns (page: Page, ok: bool)
      modifies this`mem, this`exhausted
      ensures exhausted == (old(exhausted) || !ok)
      ensures ok ==> page != 0 && page !in old(mem) && mem == old(mem)[page := Zeros()]
      ensures !ok ==> mem == old(mem)
    {
      page := *;
      ok := page != 0 && page !in mem;
      if ok {
        var base: seq<Entry> := [];
        for i := 0 to FANOUT
          invariant base == seq(i, _ => EMPTY)
        {
          base := base + [EMPTY];
        }
        mem := mem[page := base];
      } else {
        exhausted := true;
      }
    }

    /** ptwalk: the entry for an address, with new tables where there are none */
    method Ptwalk(s: Space, addr: Word) returns (table: Page, index: nat, ok: bool)
      requires Valid(St()) && s in ptr && MayFill(St(), s) && Own(s, addr / 4096 / FANOUT)
      requires s != KERNEL ==> ptr[s].present
      modifies this
      ensures Valid(St()) && s in ptr && ptr.Keys == old(ptr.Keys) && (s != KERNEL ==> ptr == old(ptr))
      ensures forall s', v | s' in ptr :: Lookup(St(), s', v) == old(Lookup(St(), s', v))
      ensures ok ==> HasTable(St(), s, addr / 4096) && index == addr / 4096 % FANOUT
      ensures ok ==> table == Dir(St(), s, addr / 4096 / FANOUT).frame
      ensures old(HasTable(St(), s, addr / 4096)) ==> ok
      ensures exhausted == (old(exhausted) || !ok)
    {
      hide Valid, WithTable, WithRoot, Lookup, IndexOf;
      IndexMeaning(addr, 22, 12, 10);
      table, index := 0, 0;
      if !ptr[s].present {
        EmptyAtFirst(St());
        table, ok := PgallocZ();
        if !ok { return; }
        ghost var z := State(map[], ptr, owner);
        WithRootKeeps(z, s, table, Entry(table, true, true, s != KERNEL));
        ptr := ptr[s := Entry(table, true, true, s != KERNEL)];
        owner := owner[table := Root(s)];
        WithRootIs(z, s, table, ptr[s]);
      }
      ghost var z := St();
      RootInMemory(z, s);
      var root := ptr[s].frame;
      index := IndexOf(addr, PD_MASK, 22);
      if !mem[root][index].present {
        SlotHolds(z, s, index);
        table, ok := PgallocZ();
        if !ok { return; }
        ghost var e := Entry(table, true, true, s != KERNEL);
        mem := mem[root := mem[root][index := Entry(table, true, true, s != KERNEL)]];
        owner := owner[table := Table(s, index)];
        WithTableIs(z, s, index, table, e);
        WithTableKeeps(z, s, index, table, e);
        forall s', v | s' in ptr ensures Lookup(St(), s', v) == Lookup(z, s', v) {
          LookupAfterTable(z, s, index, table, e, s', v);
        }
        DirAfterTable(z, s, index, table, e, s, index);
      } else {
        table := mem[root][index].frame;
      }
      index := IndexOf(addr, PT_MASK, 12);
      ok := true;
    }

    /** *ptentry = e */
    method Store(ghost s: Space, ghost v: Page, table: Page, index: nat, e: Entry)
      requires HasTable(St(), s, v) && table == Dir(St(), s, v / FANOUT).frame && index == v % FANOUT
      modifies this`mem
      ensures Valid(St()) && HasTable(St(), s, v)
      ensures forall s', v' | s' in ptr ::
                Lookup(St(), s', v') == if s' == s && v' == v then Meaning(s, e) else old(Lookup(St(), s', v'))
    {
      hide Valid, Lookup;
      ghost var z := St();
      TableOf(z, s, v);
      WithLeafKeeps(z, s, v, e);
      forall s', v': Page | s' in ptr
        ensures Lookup(WithLeaf(z, s, v, e), s', v') == if s' == s && v' == v then Meaning(s, e) else Lookup(z, s', v')
      {
        LookupAfterLeaf(z, s, v, e, s', v');
      }
      mem := mem[table := mem[table][index := e]];
      DirAfterLeaf(z, s, v, e, s, v / FANOUT);
    }

    /** One kernel area of vme_init: page by page, until the address meets the end */
    method MapArea(area: VmArea) returns (ok: bool)
      requires Valid(St()) && ptr.Keys == {KERNEL}
      requires area in AREAS && area.kernel
      modifies this
      ensures exhausted == (old(exhausted) || !ok)
      ensures ok ==> Valid(St()) && ptr.Keys == {KERNEL} && ptr[KERNEL].present
      ensures ok ==> forall v: Page | InPages(area, v) :: Lookup(St(), KERNEL, v) == Some(Mapping(v, true, false))
      ensures ok ==> forall v: Page | !InPages(area, v) :: Lookup(St(), KERNEL, v) == old(Lookup(St(), KERNEL, v))
    {
      hide Valid, Lookup, HasTable;
      var cur := area.start;
      ghost var c := FirstPage(area);
      while cur != area.end
        invariant Valid(St()) && ptr.Keys == {KERNEL}
        invariant FirstPage(area) <= c <= PastPage(area) && cur == c * 4096 % B32
        invariant c > FirstPage(area) ==> ptr[KERNEL].present
        invariant exhausted == old(exhausted)
        invariant forall v: Page :: Lookup(St(), KERNEL, v) ==
                    if FirstPage(area) <= v < c then Some(Mapping(v, true, false)) else old(Lookup(St(), KERNEL, v))
        decreases PastPage(area) - c
      {
        assert c < PastPage(area) && cur == c * 4096;
        var table, index;
        table, index, ok := Ptwalk(KERNEL, cur);
        if !ok { return; }
        Store(KERNEL, c, table, index, Entry(cur / 4096, true, true, false));
        TablePresent(St(), KERNEL, c);
        cur := (cur + 4096) % B32;
        c := c + 1;
      }
      ok := true;
    }

    /** vme_init: afterwards every kernel page is mapped to itself. */
    method VmeInit() returns (ok: bool)
      requires Valid(St()) && ptr == map[KERNEL := EMPTY]
      modifies this
      ensures ok ==> Booted() && ptr.Keys == {KERNEL}
      ensures exhausted == (old(exhausted) || !ok)
    {
      EmptyAtFirst(St());
      hide Valid, Lookup, Visited, KernelMapping, InPages;
      VisitedEnds();
      for i := 0 to |AREAS|
        invariant Valid(St()) && ptr.Keys == {KERNEL} && (i > 1 ==> ptr[KERNEL].present)
        invariant forall v: Page :: Lookup(St(), KERNEL, v) == Visited(i, v)
        invariant exhausted == old(exhausted)
      {
        VisitedStep(i);
        if AREAS[i].kernel {
          ok := MapArea(AREAS[i]);
          if !ok { return; }
        }
      }
      ok := true;
    }

    /** One kernel area of protect: its directory slots become the kernel's. */
    method CopyArea(area: VmArea, root: Page)
      requires area in AREAS && area.kernel && root in mem && |mem[root]| == FANOUT
      requires KERNEL in ptr && ptr[KERNEL].frame in mem && ptr[KERNEL].frame != root
      requires |mem[ptr[KERNEL].frame]| == FANOUT
      modifies this`mem
      ensures root in mem && |mem[root]| == FANOUT && mem == old(mem)[root := mem[root]]
      ensures forall i | 0 <= i < FANOUT ::
                mem[root][i] == if InArea(area, i) then mem[ptr[KERNEL].frame][i] else old(mem[root][i])
    {
      hide IndexOf;
      var cur := area.start;
      ghost var c := FirstSlot(area);
      while cur != area.end
        invariant FirstSlot(area) <= c <= PastSlot(area) && cur == c * 0x40_0000 % B32
        invariant root in mem && |mem[root]| == FANOUT && mem == old(mem)[root := mem[root]]
        invariant forall i | 0 <= i < FANOUT ::
                    mem[root][i] == if FirstSlot(area) <= i < c then mem[ptr[KERNEL].frame][i] else old(mem[root][i])
        decreases PastSlot(area) - c
      {
        assert c < PastSlot(area) && cur == c * 0x40_0000;
        IndexMeaning(cur, 22, 12, 10);
        var index := IndexOf(cur, PD_MASK, 22);
        mem := mem[root := mem[root][index := mem[ptr[KERNEL].frame][index]]];
        cur := (cur + 0x40_0000) % B32;
        c := c + 1;
      }
    }

    /** protect: a new space with the kernel areas, and nothing else */
    method Protect(s: Space) returns (ok: bool)
      requires Booted() && s !in ptr
      modifies this
      ensures Booted()
      ensures ptr.Keys == old(ptr.Keys) + if ok then {s} else {}
      ensures exhausted == (old(exhausted) || !ok)
      ensures forall s', v | s' in old(ptr) :: Lookup(St(), s', v) == old(Lookup(St(), s', v))
      ensures ok ==> forall v: Page :: Lookup(St(), s, v) == KernelMapping(v)
    {
      hide Valid, Lookup, Running;
      ghost var z := St();
      KernelPresent(z);
      RootInMemory(z, KERNEL);
      var root;
      root, ok := PgallocZ();
      if !ok { return; }
      for k := 0 to |AREAS|
        invariant root in mem && |mem[root]| == FANOUT && mem == z.mem[root := mem[root]]
        invariant ptr == z.ptr && owner == z.owner && exhausted == old(exhausted)
        invariant forall i | 0 <= i < FANOUT ::
                    mem[root][i] == if (k > 1 && i < 256) || (k > 2 && i >= 1012) then Dir(z, KERNEL, i) else EMPTY
      {
        if AREAS[k].kernel {
          CopyArea(AREAS[k], root);
        }
      }
      ghost var table := mem[root];
      assert FreshSpace(z, s, root, table);
      ptr := ptr[s := Entry(root, true, false, true)];
      owner := owner[root := Root(s)];
      WithSpaceKeeps(z, s, root, table);
      assert St() == WithSpace(z, s, root, table);
      forall s', v | s' in z.ptr ensures Lookup(St(), s', v) == Lookup(z, s', v) {
        LookupAfterSpace(z, s, root, table, s', v);
      }
      forall v: Page ensures Lookup(St(), s, v) == KernelMapping(v) {
        LookupAfterSpace(z, s, root, table, s, v);
      }
      RunningIs(z, St());
    }

    /** map: for a live space; prot as in MMAP_NONE, MMAP_READ and MMAP_WRITE */
    method Map(s: Space, va: Word, pa: Word, prot: nat) returns (r: Outcome)
      requires Booted() && s in ptr && s != KERNEL
      modifies this
      ensures Booted() && ptr == old(ptr)
      ensures r == OutOfMemory || r == Expected(old(Lookup(St(), s, va / 4096)), va, pa, prot)
      ensures exhausted == (old(exhausted) || r == OutOfMemory)
      ensures r == OutOfMemory ==> Reachable(va, pa) && !old(HasTable(St(), s, va / 4096))
      ensures forall s', v | s' in ptr :: Lookup(St(), s', v) ==
                if r == Done && s' == s && v == va / 4096 then Requested(pa, prot) else old(Lookup(St(), s', v))
    {
      ghost var z := St();
      KernelPresent(z);
      hide Valid, Lookup, Running;
      if !(0x4000_0000 <= va < 0x8000_0000) {
        return InvalidAddress;
      }
      if va % 4096 != 0 || pa % 4096 != 0 {
        return Misaligned;
      }
      r := MapPage(s, va, pa, prot);
      RunningIs(z, St());
    }

    method MapPage(s: Space, va: Word, pa: Word, prot: nat) returns (r: Outcome)
      requires Valid(St()) && s in ptr && s != KERNEL && ptr[s].present
      requires 0x4000_0000 <= va < 0x8000_0000 && va % 4096 == 0 && pa % 4096 == 0
      modifies this
      ensures Valid(St()) && ptr == old(ptr)
      ensures r == OutOfMemory || r == Expected(old(Lookup(St(), s, va / 4096)), va, pa, prot)
      ensures exhausted == (old(exhausted) || r == OutOfMemory)
      ensures r == OutOfMemory ==> Reachable(va, pa) && !old(HasTable(St(), s, va / 4096))
      ensures forall s', v | s' in ptr :: Lookup(St(), s', v) ==
                if r == Done && s' == s && v == va / 4096 then Requested(pa, prot) else old(Lookup(St(), s', v))
    {
      hide Valid, Lookup, HasTable;
      var table, index, ok := Ptwalk(s, va);
      if !ok { return OutOfMemory; }
      ghost var v := va / 4096;
      LookupIsEntry(St(), s, v);
      if prot == 0 {
        if !mem[table][index].present {
          return NotMapped;
        }
        Store(s, v, table, index, EMPTY);
      } else {
        if mem[table][index].present {
          return AlreadyMapped;
        }
        Store(s, v, table, index, Entry(pa / 4096, true, prot / 2 % 2 == 1, true));
      }
      table, index, ok := Ptwalk(s, va);
      r := Done;
    }

    /** pgfree: only pages that hold a table may be given back, so none is freed twice. */
    method Pgfree(p: Page)
      requires p in mem
      modifies this`mem
      ensures mem == Without(old(mem), {p})
    {
      mem := mem - {p};
    }

    /** teardown, for the levels below the ptr field */
    method TearDown(level: nat, p: Page)
      requires 1 <= level <= LEVELS + 1 && Tree(mem, level, p) && Full(mem)
      modifies this`mem
      ensures mem == Without(old(mem), Freed(old(mem), level, p))
      decreases LEVELS + 1 - level, 1
    {
      ghost var m := mem;
      if level > LEVELS {
        NothingFreed(m, level, p);
        return;
      }
      hide *;
      OpenTree(m, level, p);
      for index := 0 to FANOUT
        invariant mem == Without(m, FreedBelow(m, level, p, index))
      {
        TearDownEntry(level, p, index, m);
      }
      Pgfree(p);
      MinusMinus(m, FreedBelow(m, level, p, FANOUT), {p});
    }

    /** One entry: the table it leads to is torn down if it is a user's. */
    method TearDownEntry(level: nat, p: Page, index: nat, ghost m: Memory)
      requires 1 <= level <= LEVELS && index < FANOUT && Full(m) && p in m && |m[p]| == FANOUT
      requires p !in FreedBelow(m, level, p, |m[p]|) && TreeBelow(m, level, p, |m[p]|)
      requires mem == Without(m, FreedBelow(m, level, p, index))
      modifies this`mem
      ensures mem == Without(m, FreedBelow(m, level, p, index + 1))
      decreases LEVELS + 1 - level, 0
    {
      hide *;
      ghost var gone := FreedBelow(m, level, p, index);
      OpenBelow(m, level, p, index);
      FullMinus(m, gone, p);
      var e := mem[p][index];
      if e.present && e.user {
        FrameTree(m, gone, level + 1, e.frame);
        TearDown(level + 1, e.frame);
        MinusMinus(m, gone, Freed(m, level + 1, e.frame));
      }
    }

    /** unprotect: every table page of the space is freed, and nothing else changes. Level 0 of
        the teardown is the ptr field; the space is given up with it. */
    method Unprotect(s: Space)
      requires Booted() && s in ptr && s != KERNEL
      modifies this
      ensures Booted() && ptr == old(ptr) - {s} && exhausted == old(exhausted)
      ensures mem == old(mem) - old(PagesOf(St(), s))
      ensures forall s', v | s' in ptr :: Lookup(St(), s', v) == old(Lookup(St(), s', v))
    {
      hide Valid, Lookup, Running, PagesOf, Tree, Freed;
      ghost var z := St();
      SpaceIsPresent(z, s);
      SpaceTree(z, s);
      TablesAreFull(z);
      RootInMemory(z, s);
      if ptr[s].present && ptr[s].user {
        TearDown(1, ptr[s].frame);
      }
      ptr := ptr - {s};
      owner := owner - PagesOf(z, s);
      WithoutSpaceKeeps(z, s);
      assert St() == WithoutSpace(z, s);
      forall s', v | s' in ptr ensures Lookup(St(), s', v) == Lookup(z, s', v) {
        LookupAfterRemoval(z, s, s', v);
      }
      RunningIs(z, St());
    }
  }

  datatype Outcome = Done | InvalidAddress | Misaligned | OutOfMemory | NotMapped | AlreadyMapped

  /** Addresses for which map goes on to the page tables */
  predicate Reachable(va: Word, pa: Word) { 0x4000_0000 <= va < 0x8000_0000 && va % 4096 == 0 && pa % 4096 == 0 }

  /** What map does, memory permitting, for a page that is translated as before says */
  function Expected(before: Option<Mapping>, va: Word, pa: Word, prot: nat): Outcome {
    if !(0x4000_0000 <= va < 0x8000_0000) then InvalidAddress
    else if va % 4096 != 0 || pa % 4096 != 0 then Misaligned
    else if prot == 0 then (if before == None then NotMapped else Done)
    else if before == None then Done else AlreadyMapped
  }

  function Requested(pa: Word, prot: nat): Option<Mapping> {
    if prot == 0 then None else Some(Mapping(pa / 4096, prot / 2 % 2 == 1, true))
  }

  lemma LookupIsEntry(z: State, s: Space, v: Page)
    requires HasTable(z, s, v)
    ensures var p := Dir(z, s, v / FANOUT).frame;
            p in z.mem && |z.mem[p]| == FANOUT && Lookup(z, s, v) == Meaning(s, z.mem[p][v % FANOUT])
  {
    TableOf(z, s, v);
  }

  lemma MinusMinus(m: Memory, a: set<Page>, b: set<Page>)
    ensures Without(Without(m, a), b) == Without(m, a + b) && a + b == b + a
  {
    assert a + b == b + a;
  }

  lemma NothingFreed(m: Memory, level: nat, p: Page)
    requires level > LEVELS
    ensures Without(m, Freed(m, level, p)) == m
  {}

  ghost predicate Full(mem: Memory) { forall q | q in mem :: |mem[q]| == FANOUT }

  lemma OpenTree(mem: Memory, level: nat, p: Page)
    requires level <= LEVELS && Tree(mem, level, p)
    ensures p in mem && p !in FreedBelow(mem, level, p, |mem[p]|) && TreeBelow(mem, level, p, |mem[p]|)
    ensures Freed(mem, level, p) == {p} + FreedBelow(mem, level, p, |mem[p]|)
    ensures FreedBelow(mem, level, p, 0) == {} && Without(mem, {}) == mem
    ensures Full(mem) ==> |mem[p]| == FANOUT
  {}

  /** The next entry: not yet freed, and if it is a user table, a tree apart from the freed ones */
  lemma OpenBelow(mem: Memory, level: nat, p: Page, i: nat)
    requires level <= LEVELS && p in mem && i < |mem[p]| && TreeBelow(mem, level, p, |mem[p]|)
    requires p !in FreedBelow(mem, level, p, |mem[p]|)
    ensures p !in FreedBelow(mem, level, p, i)
    ensures var e := mem[p][i];
            if e.present && e.user
            then Tree(mem, level + 1, e.frame) && FreedBelow(mem, level, p, i) !! Freed(mem, level + 1, e.frame)
              && FreedBelow(mem, level, p, i + 1) == FreedBelow(mem, level, p, i) + Freed(mem, level + 1, e.frame)
            else FreedBelow(mem, level, p, i + 1) == FreedBelow(mem, level, p, i)
  {
    TreeBelowFewer(mem, level, p, |mem[p]|, i);
    TreeBelowFewer(mem, level, p, |mem[p]|, i + 1);
  }


  lemma FullMinus(m: Memory, gone: set<Page>, p: Page)
    requires Full(m) && p in m && p !in gone
    ensures var rest := Without(m, gone); Full(rest) && p in rest && rest[p] == m[p] && |m[p]| == FANOUT
  {}

  lemma SpaceIsPresent(z: State, s: Space)
    requires Running(z) && s in z.ptr
    ensures z.ptr[s].present
  {}

  lemma TablesAreFull(z: State)
    requires Valid(z)
    ensures Full(z.mem)
  {}

  /** What the kernel's table translates after so many areas */
  function Visited(i: nat, v: Page): Option<Mapping> {
    if (i > 1 && v < 0x4_0000) || (i > 2 && v >= 0xf_d000) then Some(Mapping(v, true, false)) else None
  }

  lemma VisitedEnds()
    ensures forall v: Page :: Visited(0, v) == None && Visited(|AREAS|, v) == KernelMapping(v)
  {}

  lemma VisitedStep(i: nat)
    requires i < |AREAS|
    ensures !AREAS[i].kernel ==> i == 0 && forall v: Page :: Visited(i + 1, v) == Visited(i, v)
    ensures AREAS[i].kernel ==>
              forall v: Page | InPages(AREAS[i], v) :: Visited(i + 1, v) == Some(Mapping(v, true, false))
    ensures AREAS[i].kernel ==> forall v: Page | !InPages(AREAS[i], v) :: Visited(i + 1, v) == Visited(i, v)
  {}

  function FirstSlot(area: VmArea): nat { area.start / 0x40_0000 }

  function PastSlot(area: VmArea): nat { if area.end == 0 then FANOUT else area.end / 0x40_0000 }

  predicate InArea(area: VmArea, i: int) { FirstSlot(area) <= i < PastSlot(area) }

  lemma KernelPresent(z: State)
    requires Valid(z) && Running(z)
    ensures KERNEL in z.ptr && z.ptr[KERNEL].present
  {}

  lemma RunningIs(z: State, y: State)
    requires Running(z) && forall s | s in y.ptr :: y.ptr[s].present || (s in z.ptr && y.ptr[s] == z.ptr[s])
    ensures Running(y)
  {}

  lemma WithRootIs(z: State, s: Space, p: Page, e: Entry)
    ensures WithRoot(z, s, p, e) == State(z.mem[p := Zeros()], z.ptr[s := e], z.owner[p := Root(s)])
  {}

  lemma WithTableIs(z: State, s: Space, i: nat, p: Page, e: Entry)
    requires FreshTable(z, s, i, p, e)
    ensures z.ptr[s].frame != p
    ensures var root := z.ptr[s].frame;
            WithTable(z, s, i, p, e)
              == State(z.mem[p := Zeros()][root := z.mem[root][i := e]], z.ptr, z.owner[p := Table(s, i)])
  {}

  lemma TablePresent(z: State, s: Space, v: Page)
    requires Valid(z) && s in z.ptr && Lookup(z, s, v).Some?
    ensures z.ptr[s].present
  {}

  lemma OwnerPresent(z: State, p: Page)
    requires Valid(z) && p in z.owner
    ensures z.owner[p].space in z.ptr && z.ptr[z.owner[p].space].present
  {
    assert Referenced(z, p);
  }

  /** Before the first space the memory holds no table. */
  lemma EmptyAtFirst(z: State)
    requires Valid(z) && z.ptr.Keys == {KERNEL} && !z.ptr[KERNEL].present
    ensures z.mem == map[] && z.owner == map[] && forall v: Page :: Lookup(z, KERNEL, v) == None
  {
    if p :| p in z.owner {
      OwnerPresent(z, p);
      assert false;
    }
  }
}
