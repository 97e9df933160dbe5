/** Whole runs of the virtual-memory calls against a plain map from pages to frames. */
module VirtualMemoryRuns {
  import opened Wrappers
  import opened Words
  import opened PageState
  import opened VirtualMemory

  /** The calls of an operating system after vme_init */
  datatype Call = Protect(space: Space) | Unprotect(space: Space) | Map(space: Space, va: Word, pa: Word, prot: nat)

  /** What each live space has mapped in the user area */
  type Spaces = map<Space, map<Page, Mapping>>

  function Mapped(spaces: Spaces, s: Space, v: Page): Option<Mapping> {
    if s in spaces && v in spaces[s] then Some(spaces[s][v]) else None
  }

  function Edited(m: map<Page, Mapping>, v: Page, mapping: Option<Mapping>): map<Page, Mapping> {
    if mapping == None then m - {v} else m[v := mapping.value]
  }

  /** The effect of one call on the plain map; none where the code panics, or where the space is
      not live. */
  function After(spaces: Spaces, call: Call): Option<Spaces> {
    match call
    case Protect(s) => if s == KERNEL || s in spaces then None else Some(spaces[s := map[]])
    case Unprotect(s) => if s !in spaces then None else Some(spaces - {s})
    case Map(s, va, pa, prot) =>
      if s !in spaces || Expected(Mapped(spaces, s, va / 4096), va, pa, prot) != Done then None
      else Some(spaces[s := Edited(spaces[s], va / 4096, Requested(pa, prot))])
  }

  function AfterAll(spaces: Spaces, calls: seq<Call>): Option<Spaces>
    decreases |calls|
  {
    if calls == [] then Some(spaces)
    else
      var next := After(spaces, calls[0]);
      if next == None then None else AfterAll(next.value, calls[1..])
  }

  /** The hardware sees the kernel areas and the plain map, in every space. */
  function Seen(spaces: Spaces, s: Space, v: Page): Option<Mapping> {
    if KernelSlot(v / FANOUT) then KernelMapping(v) else Mapped(spaces, s, v)
  }

  ghost predicate UserOnly(spaces: Spaces) {
    KERNEL !in spaces && forall s, v | s in spaces && v in spaces[s] :: 0x4_0000 <= v < 0x8_0000
  }

  ghost predicate Agrees(z: State, spaces: Spaces) {
    && UserOnly(spaces) && z.ptr.Keys == spaces.Keys + {KERNEL}
    && forall s, v: Page | s in z.ptr :: Lookup(z, s, v) == Seen(spaces, s, v)
  }

  lemma AfterProtect(z: State, y: State, spaces: Spaces, s: Space)
    requires Agrees(z, spaces) && s != KERNEL && s !in spaces && y.ptr.Keys == z.ptr.Keys + {s}
    requires forall s', v: Page | s' in z.ptr :: Lookup(y, s', v) == Lookup(z, s', v)
    requires forall v: Page :: Lookup(y, s, v) == KernelMapping(v)
    ensures Agrees(y, spaces[s := map[]])
  {
    hide Lookup;
  }

  lemma AfterUnprotect(z: State, y: State, spaces: Spaces, s: Space)
    requires Agrees(z, spaces) && s in spaces && y.ptr.Keys == z.ptr.Keys - {s}
    requires forall s', v: Page | s' in y.ptr && s' in z.ptr :: Lookup(y, s', v) == Lookup(z, s', v)
    ensures Agrees(y, spaces - {s})
  {
    hide Lookup, KernelMapping;
  }

  lemma AfterMap(z: State, y: State, spaces: Spaces, s: Space, v: Page, mapping: Option<Mapping>)
    requires Agrees(z, spaces) && s in spaces && y.ptr.Keys == z.ptr.Keys && 0x4_0000 <= v < 0x8_0000
    requires forall s', v': Page | s' in z.ptr ::
               Lookup(y, s', v') == if s' == s && v' == v then mapping else Lookup(z, s', v')
    ensures Agrees(y, spaces[s := Edited(spaces[s], v, mapping)])
  {
    hide Lookup, KernelMapping;
  }

  /** What became of a call, or of a run: it completed, the plain map has no next state, or no page
      could be allocated where one was needed. */
  datatype Ending = Completed | Stopped | Exhausted

  /** One call, as the operating system makes it: the outcome is that of the plain map, unless
      memory runs out. */
  method Perform(mmu: Mmu, call: Call, ghost spaces: Spaces) returns (e: Ending, ghost next: Spaces)
    requires mmu.Booted() && Agrees(mmu.St(), spaces) && !mmu.exhausted
    modifies mmu
    ensures e == Completed ==> mmu.Booted() && Agrees(mmu.St(), next) && After(spaces, call) == Some(next)
    ensures e == Stopped ==> After(spaces, call) == None
    ensures mmu.exhausted <==> e == Exhausted
  {
    e, next := Stopped, spaces;
    ghost var z := mmu.St();
    hide Valid, Lookup, KernelMapping, Running, Seen;
    match call {
      case Protect(s) =>
        if s == KERNEL || s in mmu.ptr { return; }
        var ok := mmu.Protect(s);
        e := if ok then Completed else Exhausted;
        next := spaces[s := map[]];
        if ok { AfterProtect(z, mmu.St(), spaces, s); }
      case Unprotect(s) =>
        if s == KERNEL || s !in mmu.ptr { return; }
        mmu.Unprotect(s);
        e, next := Completed, spaces - {s};
        AfterUnprotect(z, mmu.St(), spaces, s);
      case Map(s, va, pa, prot) =>
        if s == KERNEL || s !in mmu.ptr { return; }
        e, next := PerformMap(mmu, s, va, pa, prot, spaces);
    }
  }

  method PerformMap(mmu: Mmu, s: Space, va: Word, pa: Word, prot: nat, ghost spaces: Spaces)
    returns (e: Ending, ghost next: Spaces)
    requires mmu.Booted() && Agrees(mmu.St(), spaces) && s in spaces && !mmu.exhausted
    modifies mmu
    ensures e == Completed ==>
              mmu.Booted() && Agrees(mmu.St(), next) && After(spaces, Map(s, va, pa, prot)) == Some(next)
    ensures e == Stopped ==> After(spaces, Map(s, va, pa, prot)) == None
    ensures mmu.exhausted <==> e == Exhausted
  {
    ghost var z, v := mmu.St(), va / 4096;
    SeenByUser(z, spaces, s, va);
    hide Valid, Lookup, KernelMapping, Running, Seen;
    var r := mmu.Map(s, va, pa, prot);
    next := spaces;
    e := if r == Done then Completed else if r == OutOfMemory then Exhausted else Stopped;
    if r == Done {
      next := spaces[s := Edited(spaces[s], v, Requested(pa, prot))];
      AfterMap(z, mmu.St(), spaces, s, v, Requested(pa, prot));
    }
  }

  /** Outside the user area map does not look at the entry. */
  lemma SeenByUser(z: State, spaces: Spaces, s: Space, va: Word)
    requires Agrees(z, spaces) && s in spaces
    ensures s != KERNEL && s in z.ptr
    ensures 0x4000_0000 <= va < 0x8000_0000 ==> Lookup(z, s, va / 4096) == Mapped(spaces, s, va / 4096)
  {
    hide Lookup;
  }

  /** Any run of calls leaves the page tables agreeing with the plain map, or stops where the plain
      map does, or runs out of pages. */
  method Run(mmu: Mmu, calls: seq<Call>, ghost spaces: Spaces) returns (e: Ending, ghost last: Spaces)
    requires mmu.Booted() && Agrees(mmu.St(), spaces) && !mmu.exhausted
    modifies mmu
    ensures e == Completed ==> AfterAll(spaces, calls) == Some(last) && mmu.Booted() && Agrees(mmu.St(), last)
    ensures e == Stopped ==> AfterAll(spaces, calls) == None
    ensures mmu.exhausted <==> e == Exhausted
  {
    e := Completed;
    last := spaces;
    for k := 0 to |calls|
      invariant e == Completed && mmu.Booted() && Agrees(mmu.St(), last) && !mmu.exhausted
      invariant AfterAll(spaces, calls) == AfterAll(last, calls[k..])
    {
      assert calls[k..][1..] == calls[k + 1..];
      e, last := Perform(mmu, calls[k], last);
      if e != Completed { return; }
    }
  }

  /** From power-on: boot, then any calls. */
  method BootAndRun(calls: seq<Call>) returns (e: Ending, mmu: Mmu, ghost last: Spaces)
    ensures e == Completed ==> AfterAll(map[], calls) == Some(last) && mmu.Booted() && Agrees(mmu.St(), last)
    ensures e == Stopped ==> AfterAll(map[], calls) == None
    ensures mmu.exhausted <==> e == Exhausted
  {
    last := map[];
    mmu := new Mmu();
    var ok := mmu.VmeInit();
    e := Exhausted;
    if ok {
      e, last := Run(mmu, calls, map[]);
    }
  }
}
