/** Two-level page tables as a memory of table pages, and what the hardware reads from them
    (abstract-machine/am/src/x86/qemu/vme.c, the 32-bit configuration; section 4.3, 32-bit
    paging, of the Intel SDM volume 3A). */
module PageState {
  import opened Wrappers

  const FANOUT := 1024
  const PAGES := 0x10_0000

  /** A page by its number; its address is 4096 times that. */
  type Page = p: int | 0 <= p < 0x10_0000

  /** A page-table entry: the frame, and the bits P, W and U below it */
  datatype Entry = Entry(frame: Page, present: bool, writable: bool, user: bool)

  const EMPTY := Entry(0, false, false, false)

  type Memory = map<Page, seq<Entry>>

  /** The address of an AddrSpace structure; KERNEL is the one vme_init builds its table in. */
  type Space = int

  const KERNEL: Space := 0

  /** The directory slots of the kernel areas, which all spaces share, and of the user area */
  predicate KernelSlot(i: int) { 0 <= i < 256 || 1012 <= i < FANOUT }

  predicate UserSlot(i: int) { 256 <= i < 512 }

  /** Who holds a table page: the ptr field of a space, or a slot of its directory */
  datatype Owner = Root(space: Space) | Table(space: Space, slot: int)

  datatype State = State(mem: Memory, ptr: map<Space, Entry>, owner: map<Page, Owner>)

  /** A read of memory; pages that hold no table read as empty. */
  function At(mem: Memory, p: Page, i: int): Entry {
    if p in mem && 0 <= i < |mem[p]| then mem[p][i] else EMPTY
  }

  // ---- the hardware walk ----

  /** What a page number is translated to, with the rights of both levels together */
  datatype Mapping = Mapping(frame: Page, writable: bool, user: bool)

  function Walk(mem: Memory, root: Entry, v: Page): Option<Mapping> {
    var dir := At(mem, root.frame, v / FANOUT);
    var leaf := At(mem, dir.frame, v % FANOUT);
    if root.present && dir.present && leaf.present
    then Some(Mapping(leaf.frame, dir.writable && leaf.writable, dir.user && leaf.user))
    else None
  }

  function Lookup(z: State, s: Space, v: Page): Option<Mapping>
    requires s in z.ptr
  {
    Walk(z.mem, z.ptr[s], v)
  }

  // ---- the invariant ----

  predicate Shared(s: Space, i: int) { s != KERNEL && KernelSlot(i) }

  /** The slots a space may fill itself */
  predicate Own(s: Space, i: int) { if s == KERNEL then KernelSlot(i) else UserSlot(i) }

  function Dir(z: State, s: Space, i: int): Entry
    requires s in z.ptr
  {
    At(z.mem, z.ptr[s].frame, i)
  }

  predicate OwnedBy(z: State, p: Page, who: Owner) { p in z.owner && z.owner[p] == who }

  ghost predicate RootOk(z: State, s: Space)
    requires s in z.ptr
  {
    z.ptr[s].present ==> OwnedBy(z, z.ptr[s].frame, Root(s)) && (z.ptr[s].user <==> s != KERNEL)
  }

  ghost predicate Filled(z: State, s: Space, i: int, e: Entry) {
    Own(s, i) && e.present && e.writable && (e.user <==> s != KERNEL) && OwnedBy(z, e.frame, Table(s, i))
  }

  ghost predicate SlotOk(z: State, s: Space, i: int)
    requires s in z.ptr && KERNEL in z.ptr
  {
    var e := Dir(z, s, i);
    if Shared(s, i) then z.ptr[KERNEL].present && e == Dir(z, KERNEL, i) else e == EMPTY || Filled(z, s, i, e)
  }

  /** Every table page is in use: its owner refers to it. */
  ghost predicate Referenced(z: State, p: Page)
    requires p in z.owner
  {
    match z.owner[p]
    case Root(s) => s in z.ptr && z.ptr[s].present && z.ptr[s].frame == p
    case Table(s, i) => s in z.ptr && z.ptr[s].present && Own(s, i) && Dir(z, s, i).present && Dir(z, s, i).frame == p
  }

  ghost predicate Valid(z: State) {
    && KERNEL in z.ptr && 0 !in z.mem
    && z.mem.Keys == z.owner.Keys
    && (forall p | p in z.mem :: |z.mem[p]| == FANOUT)
    && (forall s | s in z.ptr :: RootOk(z, s))
    && (forall s, i | s in z.ptr && z.ptr[s].present && 0 <= i < FANOUT :: SlotOk(z, s, i))
    && (forall p | p in z.owner :: Referenced(z, p))
  }

  /** Once running, the kernel table is in place and every space has a directory. */
  ghost predicate Running(z: State) {
    forall s | s in z.ptr :: z.ptr[s].present
  }

  /** No page table is shared but by the kernel slots: each table page is referred to by one
      pointer or slot of a space, up to the copies of the kernel's slots. */
  lemma OneReference(z: State, s: Space, i: int, s': Space, i': int)
    requires Valid(z) && s in z.ptr && s' in z.ptr && z.ptr[s].present && z.ptr[s'].present
    requires 0 <= i < FANOUT && 0 <= i' < FANOUT
    requires Dir(z, s, i).present && Dir(z, s', i').present && Dir(z, s, i).frame == Dir(z, s', i').frame
    ensures i == i' && (s == s' || KernelSlot(i))
    ensures Dir(z, s, i).frame !in {z.ptr[s].frame, z.ptr[s'].frame}
  {
    assert SlotOk(z, s, i) && SlotOk(z, s', i');
    assert RootOk(z, s) && RootOk(z, s') && RootOk(z, KERNEL);
    if Shared(s, i) { assert SlotOk(z, KERNEL, i); }
    if Shared(s', i') { assert SlotOk(z, KERNEL, i'); }
  }

  // ---- the steps of the code on states ----

  function Zeros(): seq<Entry> { seq(FANOUT, i => EMPTY) }

  /** A root for a space that has none */
  function WithRoot(z: State, s: Space, p: Page, e: Entry): State {
    State(z.mem[p := Zeros()], z.ptr[s := e], z.owner[p := Root(s)])
  }

  lemma WithRootKeeps(z: State, s: Space, p: Page, e: Entry)
    requires Valid(z) && z.ptr.Keys == {KERNEL} && s == KERNEL && !z.ptr[s].present && z.mem == map[]
    requires p != 0 && e.frame == p && e.present && !e.user
    ensures Valid(WithRoot(z, s, p, e))
    ensures forall v: Page :: Lookup(WithRoot(z, s, p, e), s, v) == None
  {}

  /** A table for an empty slot */
  function WithTable(z: State, s: Space, i: nat, p: Page, e: Entry): State
    requires s in z.ptr && z.ptr[s].frame in z.mem && i < |z.mem[z.ptr[s].frame]|
  {
    var root := z.ptr[s].frame;
    State(z.mem[p := Zeros()][root := z.mem[root][i := e]], z.ptr, z.owner[p := Table(s, i)])
  }

  /** Only the boot code adds to the kernel's slots, before there is any other space. */
  predicate MayFill(z: State, s: Space) { s == KERNEL ==> z.ptr.Keys == {KERNEL} }

  lemma RootInMemory(z: State, s: Space)
    requires Valid(z) && s in z.ptr && z.ptr[s].present
    ensures z.ptr[s].frame in z.mem && |z.mem[z.ptr[s].frame]| == FANOUT && OwnedBy(z, z.ptr[s].frame, Root(s))
  {
    assert RootOk(z, s);
  }

  /** The conditions of adding a table page p for slot i of s */
  ghost predicate FreshTable(z: State, s: Space, i: nat, p: Page, e: Entry) {
    && Valid(z) && MayFill(z, s) && s in z.ptr && z.ptr[s].present && Own(s, i) && Dir(z, s, i) == EMPTY
    && p !in z.mem && p != 0 && e == Entry(p, true, true, s != KERNEL)
    && z.ptr[s].frame in z.mem && |z.mem[z.ptr[s].frame]| == FANOUT
  }

  lemma WithTableKeeps(z: State, s: Space, i: nat, p: Page, e: Entry)
    requires FreshTable(z, s, i, p, e)
    ensures Valid(WithTable(z, s, i, p, e))
  {
    hide WithTable, Dir, SlotOk, Referenced;
    var y := WithTable(z, s, i, p, e);
    WithTableFields(z, s, i, p, e);
    forall s' | s' in z.ptr ensures RootOk(y, s') { assert RootOk(z, s'); }
    forall s', i' | s' in y.ptr && y.ptr[s'].present && 0 <= i' < FANOUT ensures SlotOk(y, s', i') {
      SlotAfterTable(z, s, i, p, e, s', i');
    }
    forall q | q in y.owner ensures Referenced(y, q) {
      ReferencedAfterTable(z, s, i, p, e, q);
    }
  }

  lemma WithTableFields(z: State, s: Space, i: nat, p: Page, e: Entry)
    requires FreshTable(z, s, i, p, e)
    ensures var y := WithTable(z, s, i, p, e);
            && y.ptr == z.ptr && y.owner == z.owner[p := Table(s, i)] && y.mem.Keys == y.owner.Keys
            && 0 !in y.mem && forall q | q in y.mem :: |y.mem[q]| == FANOUT
  {}

  lemma SlotAfterTable(z: State, s: Space, i: nat, p: Page, e: Entry, s': Space, i': int)
    requires FreshTable(z, s, i, p, e) && s' in z.ptr && z.ptr[s'].present && 0 <= i' < FANOUT
    ensures SlotOk(WithTable(z, s, i, p, e), s', i')
  {
    assert p !in z.owner;
    hide Valid;
    WithTableFields(z, s, i, p, e);
    DirAfterTable(z, s, i, p, e, s', i');
    SlotHolds(z, s', i');
    if Shared(s', i') { DirAfterTable(z, s, i, p, e, KERNEL, i'); }
  }

  lemma SlotHolds(z: State, s: Space, i: int)
    requires Valid(z) && s in z.ptr && z.ptr[s].present && 0 <= i < FANOUT
    ensures KERNEL in z.ptr && SlotOk(z, s, i)
  {}

  lemma ReferencedAfterTable(z: State, s: Space, i: nat, p: Page, e: Entry, q: Page)
    requires FreshTable(z, s, i, p, e) && q in WithTable(z, s, i, p, e).owner
    ensures Referenced(WithTable(z, s, i, p, e), q)
  {
    WithTableFields(z, s, i, p, e);
    if q != p {
      assert Referenced(z, q);
      if z.owner[q].Table? { DirAfterTable(z, s, i, p, e, z.owner[q].space, z.owner[q].slot); }
    } else {
      DirAfterTable(z, s, i, p, e, s, i);
    }
  }

  lemma LookupAfterTable(z: State, s: Space, i: nat, p: Page, e: Entry, s': Space, v: Page)
    requires FreshTable(z, s, i, p, e) && s' in z.ptr
    ensures Lookup(WithTable(z, s, i, p, e), s', v) == Lookup(z, s', v)
  {
    if z.ptr[s'].present {
      var i' := v / FANOUT;
      DirAfterTable(z, s, i, p, e, s', i');
      if Dir(z, s', i').present {
        LeafTable(z, s', i');
        OwnerIsRoot(z, s);
      }
    }
  }

  lemma OwnerIsRoot(z: State, s: Space)
    requires Valid(z) && s in z.ptr && z.ptr[s].present
    ensures OwnedBy(z, z.ptr[s].frame, Root(s))
  {
    assert RootOk(z, s);
  }

  /** A present slot leads to a table page that is no directory. */
  lemma LeafTable(z: State, s: Space, i: int)
    requires Valid(z) && s in z.ptr && z.ptr[s].present && 0 <= i < FANOUT && Dir(z, s, i).present
    ensures var p, who := Dir(z, s, i).frame, if Shared(s, i) then KERNEL else s;
            OwnedBy(z, p, Table(who, i)) && p in z.mem
  {
    assert SlotOk(z, s, i);
    if Shared(s, i) { assert SlotOk(z, KERNEL, i); }
  }

  lemma DirAfterTable(z: State, s: Space, i: nat, p: Page, e: Entry, s': Space, i': int)
    requires FreshTable(z, s, i, p, e) && s' in z.ptr && z.ptr[s'].present && 0 <= i' < FANOUT
    ensures Dir(WithTable(z, s, i, p, e), s', i') == if s' == s && i' == i then e else Dir(z, s', i')
  {
    RootInMemory(z, s);
    RootInMemory(z, s');
  }

  // ---- entries of page tables ----

  /** An entry of the page table for slot v / FANOUT of s */
  function WithLeaf(z: State, s: Space, v: Page, e: Entry): State
    requires s in z.ptr
  {
    var p := Dir(z, s, v / FANOUT).frame;
    if p in z.mem && v % FANOUT < |z.mem[p]| then z.(mem := z.mem[p := z.mem[p][v % FANOUT := e]]) else z
  }

  ghost predicate HasTable(z: State, s: Space, v: Page) {
    && Valid(z) && s in z.ptr && MayFill(z, s) && z.ptr[s].present
    && Own(s, v / FANOUT) && Dir(z, s, v / FANOUT).present
  }

  /** What an entry of a page table means for the hardware, in a space of this kind */
  function Meaning(s: Space, e: Entry): Option<Mapping> {
    if e.present then Some(Mapping(e.frame, e.writable, e.user && s != KERNEL)) else None
  }

  /** Where the table of v stands: a page of its own, which is no directory */
  lemma TableOf(z: State, s: Space, v: Page)
    requires HasTable(z, s, v)
    ensures var p := Dir(z, s, v / FANOUT).frame;
            OwnedBy(z, p, Table(s, v / FANOUT)) && p in z.mem && |z.mem[p]| == FANOUT
    ensures Dir(z, s, v / FANOUT) == Entry(Dir(z, s, v / FANOUT).frame, true, true, s != KERNEL)
  {
    SlotHolds(z, s, v / FANOUT);
  }

  lemma DirAfterLeaf(z: State, s: Space, v: Page, e: Entry, s': Space, i: int)
    requires HasTable(z, s, v) && s' in z.ptr && z.ptr[s'].present
    ensures Dir(WithLeaf(z, s, v, e), s', i) == Dir(z, s', i)
  {
    TableOf(z, s, v);
    OwnerIsRoot(z, s');
  }

  lemma WithLeafKeeps(z: State, s: Space, v: Page, e: Entry)
    requires HasTable(z, s, v)
    ensures Valid(WithLeaf(z, s, v, e))
    ensures WithLeaf(z, s, v, e).ptr == z.ptr && WithLeaf(z, s, v, e).owner == z.owner
  {
    var y := WithLeaf(z, s, v, e);
    TableOf(z, s, v);
    forall s' | s' in z.ptr ensures RootOk(y, s') { assert RootOk(z, s'); }
    forall s', i | s' in y.ptr && y.ptr[s'].present && 0 <= i < FANOUT ensures SlotOk(y, s', i) {
      SlotAfterLeaf(z, s, v, e, s', i);
    }
    forall q | q in y.owner ensures Referenced(y, q) {
      assert Referenced(z, q);
      if z.owner[q].Table? { DirAfterLeaf(z, s, v, e, z.owner[q].space, z.owner[q].slot); }
    }
  }

  lemma SlotAfterLeaf(z: State, s: Space, v: Page, e: Entry, s': Space, i: int)
    requires HasTable(z, s, v) && s' in z.ptr && z.ptr[s'].present && 0 <= i < FANOUT
    ensures KERNEL in z.ptr && SlotOk(WithLeaf(z, s, v, e), s', i)
  {
    SlotHolds(z, s', i);
    DirAfterLeaf(z, s, v, e, s', i);
    if Shared(s', i) { DirAfterLeaf(z, s, v, e, KERNEL, i); }
  }

  /** Writing one entry changes the translation of one page in one space. */
  lemma LookupAfterLeaf(z: State, s: Space, v: Page, e: Entry, s': Space, v': Page)
    requires HasTable(z, s, v) && s' in z.ptr
    ensures Lookup(WithLeaf(z, s, v, e), s', v') == if s' == s && v' == v then Meaning(s, e) else Lookup(z, s', v')
  {
    TableOf(z, s, v);
    if z.ptr[s'].present {
      var i := v' / FANOUT;
      DirAfterLeaf(z, s, v, e, s', i);
      if Dir(z, s', i).present && v' < PAGES {
        LeafTable(z, s', i);
        SamePage(v, v');
      }
    }
  }

  lemma SamePage(v: Page, v': Page)
    ensures v / FANOUT == v' / FANOUT && v % FANOUT == v' % FANOUT ==> v == v'
  {}

  // ---- spaces come and go ----

  /** The directory of a new space: the kernel's slots and nothing else */
  ghost predicate SharesKernel(z: State, table: seq<Entry>)
    requires KERNEL in z.ptr
  {
    |table| == FANOUT && forall i | 0 <= i < FANOUT :: table[i] == if KernelSlot(i) then Dir(z, KERNEL, i) else EMPTY
  }

  function WithSpace(z: State, s: Space, p: Page, table: seq<Entry>): State {
    State(z.mem[p := table], z.ptr[s := Entry(p, true, false, true)], z.owner[p := Root(s)])
  }

  ghost predicate FreshSpace(z: State, s: Space, p: Page, table: seq<Entry>) {
    && Valid(z) && s != KERNEL && s !in z.ptr && z.ptr[KERNEL].present
    && p !in z.mem && p != 0 && SharesKernel(z, table)
  }

  lemma DirAfterSpace(z: State, s: Space, p: Page, table: seq<Entry>, s': Space, i: int)
    requires FreshSpace(z, s, p, table) && 0 <= i < FANOUT && s' in z.ptr && z.ptr[s'].present
    ensures Dir(WithSpace(z, s, p, table), s', i) == Dir(z, s', i)
    ensures Dir(WithSpace(z, s, p, table), s, i) == if KernelSlot(i) then Dir(z, KERNEL, i) else EMPTY
  {
    OwnerIsRoot(z, s');
  }

  lemma WithSpaceKeeps(z: State, s: Space, p: Page, table: seq<Entry>)
    requires FreshSpace(z, s, p, table)
    ensures Valid(WithSpace(z, s, p, table))
  {
    var y := WithSpace(z, s, p, table);
    assert p !in z.owner;
    forall s' | s' in y.ptr ensures RootOk(y, s') { if s' != s { assert RootOk(z, s'); } }
    forall s', i | s' in y.ptr && y.ptr[s'].present && 0 <= i < FANOUT ensures SlotOk(y, s', i) {
      SlotAfterSpace(z, s, p, table, s', i);
    }
    forall q | q in y.owner ensures Referenced(y, q) {
      if q != p {
        assert Referenced(z, q);
        if z.owner[q].Table? { DirAfterSpace(z, s, p, table, z.owner[q].space, z.owner[q].slot); }
      }
    }
  }

  lemma SlotAfterSpace(z: State, s: Space, p: Page, table: seq<Entry>, s': Space, i: int)
    requires FreshSpace(z, s, p, table) && s' in WithSpace(z, s, p, table).ptr && 0 <= i < FANOUT
    requires WithSpace(z, s, p, table).ptr[s'].present
    ensures SlotOk(WithSpace(z, s, p, table), s', i)
  {
    DirAfterSpace(z, s, p, table, KERNEL, i);
    if s' != s {
      SlotHolds(z, s', i);
      DirAfterSpace(z, s, p, table, s', i);
    }
  }

  /** A new space translates as the kernel does in the kernel areas, and nothing elsewhere. */
  lemma LookupAfterSpace(z: State, s: Space, p: Page, table: seq<Entry>, s': Space, v: Page)
    requires FreshSpace(z, s, p, table)
    ensures s' in z.ptr ==> Lookup(WithSpace(z, s, p, table), s', v) == Lookup(z, s', v)
    ensures Lookup(WithSpace(z, s, p, table), s, v) == if KernelSlot(v / FANOUT) then Lookup(z, KERNEL, v) else None
  {
    var i := v / FANOUT;
    DirAfterSpace(z, s, p, table, KERNEL, i);
    if Dir(z, KERNEL, i).present { LeafTable(z, KERNEL, i); }
    if s' in z.ptr && z.ptr[s'].present {
      DirAfterSpace(z, s, p, table, s', i);
      if Dir(z, s', i).present { LeafTable(z, s', i); }
    }
  }

  /** In the kernel slots all spaces translate alike. */
  lemma KernelEverywhere(z: State, s: Space, v: Page)
    requires Valid(z) && s in z.ptr && z.ptr[s].present && KernelSlot(v / FANOUT)
    ensures KERNEL in z.ptr && Lookup(z, s, v) == Lookup(z, KERNEL, v)
  {
    SlotHolds(z, s, v / FANOUT);
  }

  ghost function PagesOf(z: State, s: Space): set<Page> {
    set p | p in z.owner && z.owner[p].space == s
  }

  ghost function WithoutSpace(z: State, s: Space): State {
    State(z.mem - PagesOf(z, s), z.ptr - {s}, z.owner - PagesOf(z, s))
  }

  lemma DirAfterRemoval(z: State, s: Space, s': Space, i: int)
    requires Valid(z) && s != KERNEL && s' in z.ptr && s' != s && z.ptr[s'].present
    ensures Dir(WithoutSpace(z, s), s', i) == Dir(z, s', i)
  {
    OwnerIsRoot(z, s');
  }

  lemma WithoutSpaceKeeps(z: State, s: Space)
    requires Valid(z) && s != KERNEL
    ensures Valid(WithoutSpace(z, s))
  {
    var y := WithoutSpace(z, s);
    forall s' | s' in y.ptr ensures RootOk(y, s') { assert RootOk(z, s'); }
    forall s', i | s' in y.ptr && y.ptr[s'].present && 0 <= i < FANOUT ensures SlotOk(y, s', i) {
      SlotAfterRemoval(z, s, s', i);
    }
    forall q | q in y.owner ensures Referenced(y, q) {
      assert Referenced(z, q);
      if z.owner[q].Table? { DirAfterRemoval(z, s, z.owner[q].space, z.owner[q].slot); }
    }
  }

  lemma SlotAfterRemoval(z: State, s: Space, s': Space, i: int)
    requires Valid(z) && s != KERNEL && s' in z.ptr && s' != s && z.ptr[s'].present && 0 <= i < FANOUT
    ensures KERNEL in WithoutSpace(z, s).ptr && SlotOk(WithoutSpace(z, s), s', i)
  {
    SlotHolds(z, s', i);
    DirAfterRemoval(z, s, s', i);
    if Shared(s', i) { DirAfterRemoval(z, s, KERNEL, i); }
  }

  lemma LookupAfterRemoval(z: State, s: Space, s': Space, v: Page)
    requires Valid(z) && s != KERNEL && s' in z.ptr && s' != s
    ensures Lookup(WithoutSpace(z, s), s', v) == Lookup(z, s', v)
  {
    if z.ptr[s'].present {
      var i := v / FANOUT;
      DirAfterRemoval(z, s, s', i);
      if Dir(z, s', i).present { LeafTable(z, s', i); }
    }
  }
}
