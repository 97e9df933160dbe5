/** What the calls do to the plain map from pages to frames, in the terms of the interface
    (abstract-machine/am/include/am.h:11-13, src/x86/qemu/vme.c:24-33 and 117-156). */
module MappingLaws {
  import opened Wrappers
  import opened Words
  import opened PageState
  import opened VirtualMemory
  import opened VirtualMemoryRuns

  const MMAP_NONE := 0
  const MMAP_READ := 1
  const MMAP_WRITE := 2

  /** The kernel sees all its memory under the same addresses, writable and for itself only, and what lies
      between the areas is not there. */
  lemma KernelArea(v: Page)
    ensures var va := 4096 * v;
            KernelMapping(v) == if va < 0x4000_0000 || va >= 0xfd00_0000 then Some(Mapping(v, true, false)) else None
  {}

  /** An address map accepts: a page of the user area, and a frame */
  predicate Acceptable(va: Word, pa: Word) { 0x4000_0000 <= va < 0x8000_0000 && va % 4096 == 0 && pa % 4096 == 0 }

  /** Mapping a page gives it the frame, readable, and writable if asked for; a page that is mapped is
      never mapped again. */
  lemma MapGives(spaces: Spaces, s: Space, va: Word, pa: Word, prot: nat)
    requires s in spaces && prot in {MMAP_READ, MMAP_WRITE, MMAP_READ + MMAP_WRITE}
    ensures var next := After(spaces, Map(s, va, pa, prot));
            && (next.Some? <==> Acceptable(va, pa) && Mapped(spaces, s, va / 4096) == None)
            && (next.Some? ==>
                  Mapped(next.value, s, va / 4096) == Some(Mapping(pa / 4096, prot != MMAP_READ, true)))
  {}

  /** Unmapping takes a mapped page away; a page that is not mapped cannot be unmapped. */
  lemma MapTakes(spaces: Spaces, s: Space, va: Word, pa: Word)
    requires s in spaces
    ensures var next := After(spaces, Map(s, va, pa, MMAP_NONE));
            && (next.Some? <==> Acceptable(va, pa) && Mapped(spaces, s, va / 4096).Some?)
            && (next.Some? ==> Mapped(next.value, s, va / 4096) == None)
  {}

  /** No other page of the space and no other space changes. */
  lemma MapFrame(spaces: Spaces, s: Space, va: Word, pa: Word, prot: nat, s': Space, v: Page)
    requires s in spaces && (s' != s || v != va / 4096)
    ensures var next := After(spaces, Map(s, va, pa, prot));
            next.Some? ==> next.value.Keys == spaces.Keys && Mapped(next.value, s', v) == Mapped(spaces, s', v)
  {}

  /** Mapping a page and unmapping it again comes to nothing. */
  lemma MapThenUnmap(spaces: Spaces, s: Space, va: Word, pa: Word, prot: nat)
    requires s in spaces && prot > 0 && Acceptable(va, pa) && Mapped(spaces, s, va / 4096) == None
    ensures AfterAll(spaces, [Map(s, va, pa, prot), Map(s, va, pa, MMAP_NONE)]) == Some(spaces)
  {
    var first := After(spaces, Map(s, va, pa, prot)).value;
    var calls := [Map(s, va, pa, prot), Map(s, va, pa, MMAP_NONE)];
    assert calls[1..] == [Map(s, va, pa, MMAP_NONE)] && calls[1..][1..] == [];
    assert first[s] - {va / 4096} == spaces[s];
    assert first[s := spaces[s]] == spaces;
    assert After(first, Map(s, va, pa, MMAP_NONE)) == Some(spaces);
    assert AfterAll(first, calls[1..]) == AfterAll(spaces, []);
  }

  /** A new space has nothing mapped, a dropped one is gone, and both leave the others alone. */
  lemma SpacesComeAndGo(spaces: Spaces, s: Space, s': Space, v: Page)
    ensures var next := After(spaces, Protect(s));
            && (next.Some? <==> s != KERNEL && s !in spaces)
            && (next.Some? ==> next.value.Keys == spaces.Keys + {s} && Mapped(next.value, s, v) == None
                               && (s' != s ==> Mapped(next.value, s', v) == Mapped(spaces, s', v)))
    ensures var next := After(spaces, Unprotect(s));
            && (next.Some? <==> s in spaces)
            && (next.Some? ==> next.value.Keys == spaces.Keys - {s}
                               && (s' != s ==> Mapped(next.value, s', v) == Mapped(spaces, s', v)))
  {}

  /** Which of its panics map ends in */
  lemma PanicsMeaning(before: Option<Mapping>, va: Word, pa: Word, prot: nat)
    ensures var r := Expected(before, va, pa, prot);
            && (r == InvalidAddress <==> !(0x4000_0000 <= va < 0x8000_0000))
            && (r == Misaligned ==> va % 4096 != 0 || pa % 4096 != 0)
            && (r == NotMapped <==> Acceptable(va, pa) && prot == MMAP_NONE && before == None)
            && (r == AlreadyMapped <==> Acceptable(va, pa) && prot != MMAP_NONE && before != None)
  {}
}
