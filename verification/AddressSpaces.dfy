/** Building whole address spaces: setupkvm, allocuvm and copyuvm of vm.c. */
module AddressSpaces {
  import opened Blocks
  import opened Finite
  import opened Options
  import opened Frames
  import opened Paging
  import opened VirtualMemory

  // ---- setupkvm ----

  /**
    The kernel half of every address space: physical memory at KERNBASE, read-only from KERNLINK to the
    kernel's data, and the devices where they are. No user page is mapped.
   */
  function KernelEntry(data: nat, v: nat): (w: Word32)
  {
    if UPAGES <= v < UPAGES + NFRAMES then
      Pte(v - UPAGES, if UPAGES + 0x100 <= v < data / PGSIZE then PTE_P else PTE_P + PTE_W)
    else if 0xF_E000 <= v < PAGES then Pte(v, PTE_P + PTE_W)
    else 0
  }

  datatype Kmap = Kmap(virt: Word32, start: Word32, end: Word32, perm: nat)

  predicate WfData(data: nat)
  {
    data % PGSIZE == 0 && KERNBASE + 0x10_0000 < data < KERNBASE + NFRAMES * PGSIZE
  }

  /** kmap[] */
  function KmapAt(data: nat, k: nat): (r: Kmap)
    requires WfData(data)
  {
    if k == 0 then Kmap(KERNBASE, 0, 0x10_0000, PTE_W)
    else if k == 1 then Kmap(KERNBASE + 0x10_0000, 0x10_0000, data - KERNBASE, 0)
    else if k == 2 then Kmap(data, data - KERNBASE, NFRAMES * PGSIZE, PTE_W)
    else Kmap(0xFE00_0000, 0xFE00_0000, 0, PTE_W)
  }

  /** The first k rows of kmap[] set up the kernel's pages below this one. */
  function Edge(data: nat, k: nat): (v: nat)
  {
    if k == 0 then UPAGES else if k == 1 then UPAGES + 0x100 else if k == 2 then data / PGSIZE
    else if k == 3 then 0xF_E000 else PAGES
  }

  ghost predicate KernelUpTo(mem: Mem, d: nat, data: nat, e: nat)
    requires d < NFRAMES
  {
    forall v: nat :: Entry(mem, d, v) == if v < e then KernelEntry(data, v) else 0
  }

  lemma KmapFacts(data: nat, k: nat)
    requires WfData(data) && k < 4
    ensures var r := KmapAt(data, k);
            var size := (r.end - r.start) % TOP;
            && size >= 1 && r.virt + size <= TOP && r.start % PGSIZE == 0 && r.perm < PGSIZE
            && r.virt / PGSIZE >= Edge(data, k) && r.virt / PGSIZE >= UPAGES
            && (r.virt + size - 1) / PGSIZE < Edge(data, k + 1)
            && r.start / PGSIZE + (r.virt + size - 1) / PGSIZE - r.virt / PGSIZE < PAGES
  {}

  /** A row of kmap[] maps the pages up to the next edge as KernelEntry says. */
  lemma KmapRow(data: nat, k: nat, v: nat)
    requires WfData(data) && k < 4 && Edge(data, k) <= v < Edge(data, k + 1)
    ensures var r := KmapAt(data, k);
            var lo, hi := r.virt / PGSIZE, (r.virt + (r.end - r.start) % TOP - 1) / PGSIZE;
            && r.start / PGSIZE + hi - lo < PAGES
            && KernelEntry(data, v) == if lo <= v <= hi then Pte(r.start / PGSIZE + (v - lo), WithP(r.perm)) else 0
  {
    KmapFacts(data, k);
  }

  lemma EmptySpace(mem: Mem, free: set<nat>, d: nat, first: nat)
    requires d < NFRAMES && d in free && forall f :: f in free ==> Usable(first, f)
    ensures var mem' := mem[d := Filled(0)];
            && WfSpace(mem', free - {d}, d, first) && (forall v: nat :: Entry(mem', d, v) == 0)
            && Tabs(mem', d) == {} && forall f: nat :: Owns(mem', d, f) <==> f == d
  {
    var mem' := mem[d := Filled(0)];
    forall v: nat ensures Entry(mem', d, v) == 0 {}
    forall s ensures At(mem', d, s) == if s == Dir then d else 0 {}
    forall f: nat ensures Owns(mem', d, f) <==> f == d {
      if f == d { assert At(mem', d, Dir) == d; }
    }
  }

  /** Kernel pages need no frame of their own, so a row of kmap[] can always be tried. */
  lemma RowMappable(mem: Mem, free: set<nat>, d: nat, first: nat, data: nat, k: nat)
    requires d < NFRAMES && WfData(data) && k < 4 && KernelUpTo(mem, d, data, Edge(data, k))
    ensures var r := KmapAt(data, k);
            AllMappable(mem, free, d, first, r.virt / PGSIZE, (r.virt + (r.end - r.start) % TOP - 1) / PGSIZE,
                r.start / PGSIZE)
  {
    hide Entry, KernelEntry;
    KmapFacts(data, k);
  }

  lemma RowMapped(mem: Mem, mem': Mem, d: nat, data: nat, k: nat)
    requires d < NFRAMES && WfData(data) && k < 4 && KernelUpTo(mem, d, data, Edge(data, k))
    requires KmapAt(data, k).perm < PGSIZE
    requires var r := KmapAt(data, k);
             var lo, e := r.virt / PGSIZE, (r.virt + (r.end - r.start) % TOP - 1) / PGSIZE + 1;
             && lo <= e <= PAGES && r.start / PGSIZE + (e - lo) <= PAGES
             && Mapped(mem, mem', d, lo, e, r.start / PGSIZE, r.perm)
    ensures KernelUpTo(mem', d, data, Edge(data, k + 1))
  {
    KmapFacts(data, k);
    assert Edge(data, k) <= Edge(data, k + 1);
    forall v: nat ensures Entry(mem', d, v) == if v < Edge(data, k + 1) then KernelEntry(data, v) else 0 {
      hide Entry, KernelEntry, Pte;
      assert Entry(mem, d, v) == if v < Edge(data, k) then KernelEntry(data, v) else 0;
      if Edge(data, k) <= v < Edge(data, k + 1) { KmapRow(data, k, v); }
    }
  }

  /** The free frames of before are now free or the address space's own. */
  ghost predicate Divided(free0: set<nat>, mem: Mem, free: set<nat>, d: nat)
    requires d < NFRAMES
  {
    forall f: nat :: f in free0 <==> f in free || Owns(mem, d, f)
  }

  /** Only frames of free0 have been written. */
  ghost predicate SameOutside(free0: set<nat>, mem0: Mem, mem: Mem)
  {
    forall f :: 0 <= f < NFRAMES && f !in free0 ==> mem[f] == mem0[f]
  }

  /** Growing an address space that lives in free0 keeps it there. */
  lemma DividedGrown(free0: set<nat>, mem0: Mem, mem: Mem, free: set<nat>, mem': Mem, free': set<nat>, d: nat,
          x: set<nat>)
    requires 0 < d < NFRAMES && Divided(free0, mem, free + x, d) && Kept(mem, free, mem', free', d, x)
    requires SameOutside(free0, mem0, mem) && Grown(mem, free, mem', free', d)
    ensures Divided(free0, mem', free', d) && SameOutside(free0, mem0, mem')
  {
    forall f | 0 <= f < NFRAMES && f !in free0 ensures mem'[f] == mem0[f] {
      if Node(mem, d, f) { NodeOwned(mem, d, f); }
      assert !(f in free + x || Owns(mem, d, f));
    }
    hide Owns, Grown;
    forall f: nat ensures f in free0 <==> f in free' || Owns(mem', d, f) {
      assert f in free0 <==> f in free + x || Owns(mem, d, f);
    }
  }

  lemma NodeOwned(mem: Mem, d: nat, f: nat)
    requires d < NFRAMES && Node(mem, d, f)
    ensures Owns(mem, d, f)
  {
    if f == d {
      assert At(mem, d, Dir) == f;
    } else {
      var i: nat :| Table(mem, d, i) == f;
      assert At(mem, d, Tab(i)) == f;
    }
  }

  // ---- what processes and the kernel may then do ----

  /**
    What the kernel's half gives an access to page v: physical memory from KERNBASE on, its text for reading only, and
    the devices at their own addresses; a user gets none of it.
   */
  function KernelReach(data: nat, v: nat, user: bool, write: bool): (r: Option<nat>)
  {
    if user then None
    else if UPAGES <= v < UPAGES + NFRAMES then
      if write && UPAGES + 0x100 <= v < data / PGSIZE then None else Some(v - UPAGES)
    else if 0xF_E000 <= v < PAGES then Some(v) else None
  }

  ghost predicate KernelView(mem: Mem, d: nat, data: nat)
    requires d < NFRAMES
  {
    forall v: nat, user: bool, write: bool :: Translate(mem, d, v, user, write) == KernelReach(data, v, user, write)
  }

  lemma KernelSees(mem: Mem, free: set<nat>, d: nat, first: nat, data: nat)
    requires WfSpace(mem, free, d, first) && forall v: nat :: Entry(mem, d, v) == KernelEntry(data, v)
    ensures KernelView(mem, d, data)
  {
    SpaceDir(mem, free, d, first);
    hide WfSpace, Entry, Translate, Allowed, KernelEntry, KernelReach;
    forall v: nat, user: bool, write: bool
      ensures Translate(mem, d, v, user, write) == KernelReach(data, v, user, write)
    {
      TranslateIs(mem, free, d, first, v, user, write);
      KernelAllowed(data, v, user, write);
    }
  }

  lemma KernelAllowed(data: nat, v: nat, user: bool, write: bool)
    ensures Allowed(KernelEntry(data, v), user, write) == KernelReach(data, v, user, write)
  {
    if UPAGES <= v < UPAGES + NFRAMES {
      KernelFlags(v - UPAGES, PTE_P);
      KernelFlags(v - UPAGES, PTE_P + PTE_W);
    } else if 0xF_E000 <= v < PAGES {
      KernelFlags(v, PTE_P + PTE_W);
    }
  }

  lemma KernelFlags(f: nat, flags: nat)
    requires f < PAGES && (flags == PTE_P || flags == PTE_P + PTE_W)
    ensures var w := Pte(f, flags);
            FrameOf(w) == f && Present(w) && !Has(w, PTE_U) && (Has(w, PTE_W) <==> flags == PTE_P + PTE_W)
  {
    PteParts(f, flags);
    LowBits(Pte(f, flags));
  }

  /** A user may read and write the pages from lo up to k. */
  ghost predicate UserMayUse(mem: Mem, d: nat, lo: nat, k: nat)
    requires d < NFRAMES
  {
    forall v: nat :: lo <= v < k ==> Translate(mem, d, v, true, true) == Some(FrameOf(Entry(mem, d, v)))
  }

  lemma UserUses(mem0: Mem, free0: set<nat>, mem: Mem, free: set<nat>, d: nat, first: nat, lo: nat, k: nat)
    requires WfSpace(mem, free, d, first) && ZeroPages(mem0, free0, mem, d, lo, k)
    ensures UserMayUse(mem, d, lo, k)
  {
    SpaceDir(mem, free, d, first);
    hide WfSpace, Entry, Translate, Grants;
    forall v: nat | lo <= v < k ensures Translate(mem, d, v, true, true) == Some(FrameOf(Entry(mem, d, v))) {
      TranslateIs(mem, free, d, first, v, true, true);
      OpenGrants(Entry(mem, d, v), true, true);
    }
  }

  /** Whatever may be done with the first n pages of p may be done with those of d. */
  ghost predicate SameAccess(mem0: Mem, p: nat, mem: Mem, d: nat, n: nat)
    requires p < NFRAMES && d < NFRAMES
  {
    forall v: nat, user: bool, write: bool :: v < n ==>
      (Translate(mem, d, v, user, write).Some? <==> Translate(mem0, p, v, user, write).Some?)
  }

  lemma CopyUses(mem0: Mem, free0: set<nat>, p: nat, mem: Mem, free: set<nat>, d: nat, first: nat, data: nat, n: nat)
    requires WfSpace(mem0, free0, p, first) && WfSpace(mem, free, d, first) && Copied(mem0, p, mem, d, data, n)
    ensures SameAccess(mem0, p, mem, d, n)
  {
    SpaceDir(mem, free, d, first);
    SpaceDir(mem0, free0, p, first);
    hide WfSpace, Entry, Translate, Grants;
    forall v: nat, user: bool, write: bool | v < n
      ensures Translate(mem, d, v, user, write).Some? <==> Translate(mem0, p, v, user, write).Some?
    {
      TranslateIs(mem, free, d, first, v, user, write);
      TranslateIs(mem0, free0, p, first, v, user, write);
      SameFlagsGrant(Entry(mem, d, v), Entry(mem0, p, v), user, write);
    }
  }

  lemma SameFlagsGrant(w: Word32, x: Word32, user: bool, write: bool)
    requires FlagsOf(w) == FlagsOf(x)
    ensures Grants(w, user, write) == Grants(x, user, write)
  {
    LowBits(w);
    LowBits(x);
  }

  lemma LowBits(w: Word32)
    ensures Present(w) == (FlagsOf(w) % 2 == 1)
    ensures Has(w, PTE_U) == (FlagsOf(w) / 4 % 2 == 1) && Has(w, PTE_W) == (FlagsOf(w) / 2 % 2 == 1)
  {
    PteOfParts(w);
    assert w / 2 == 2 * (1024 * FrameOf(w)) + FlagsOf(w) / 2;
    assert w / 4 == 2 * (512 * FrameOf(w)) + FlagsOf(w) / 4;
    EvenPart(1024 * FrameOf(w), FlagsOf(w) / 2);
    EvenPart(512 * FrameOf(w), FlagsOf(w) / 4);
  }

  /** setupkvm(): a fresh address space with the kernel's half, or 0 and the free frames of before. */
  method Setupkvm(m: Memory, data: nat) returns (d: nat)
    requires m.Valid() && WfData(data)
    modifies m
    ensures m.Valid() && SameOutside(old(m.free), old(m.mem), m.mem)
    ensures d == 0 <==> |old(m.free)| < KERNEL_FRAMES
    ensures d == 0 ==> m.free == old(m.free)
    ensures d != 0 ==> WfSpace(m.mem, m.free, d, m.first) && Divided(old(m.free), m.mem, m.free, d)
    ensures d != 0 ==> forall v: nat :: Entry(m.mem, d, v) == KernelEntry(data, v)
    ensures d != 0 ==> Tabs(m.mem, d) == KernelTabs() && |m.free| == |old(m.free)| - KERNEL_FRAMES
    ensures d != 0 ==> KernelView(m.mem, d, data)
  {
    hide KernelView, WfSpace, Entry, KernelUpTo, Owns, Grown, Kept, Mapped, AllMappable, KernelEntry, Edge, KmapAt,
         WfData, Paid, TabsUpTo, Missing, TabsFor, UserFrames, KernelTabs, Divided, SameOutside;
    d := m.Kalloc();
    if d == 0 {
      NothingWritten(m.free, m.mem);
      return;
    }
    EmptySpace(m.mem, old(m.free), d, m.first);
    ghost var mem0 := m.mem;
    m.Put(d, Filled(0));
    NoKernelYet(m.mem, d, data);
    SetupStart(old(m.free), mem0, m.mem, m.free, d, data);
    ghost var memE, freeE := m.mem, m.free;
    for k := 0 to 4
      invariant m.Valid() && WfSpace(m.mem, m.free, d, m.first) && KernelUpTo(m.mem, d, data, Edge(data, k))
      invariant Divided(old(m.free), m.mem, m.free, d) && SameOutside(old(m.free), old(m.mem), m.mem)
      invariant Paid(memE, freeE, m.mem, m.free, d, TabsUpTo(data, k))
    {
      KmapFacts(data, k);
      RowMappable(m.mem, m.free, d, m.first, data, k);
      var r := KmapAt(data, k);
      ghost var mem1, free1 := m.mem, m.free;
      var ok, e := Mappages(m, d, r.virt, (r.end - r.start) % TOP, r.start, r.perm);
      NoUserFrames(old(m.free), old(m.mem), mem1, free1, m.mem, m.free, d, r.virt / PGSIZE, e, r.start / PGSIZE);
      if !ok {
        SetupShort(memE, freeE, mem1, free1, m.mem, m.free, d, data, k, e);
        ghost var mem2, free2 := m.mem, m.free;
        Freevm(m, d);
        FreedAll(old(m.free), old(m.mem), mem2, free2, m.mem, m.free, d);
        return 0;
      }
      RowMapped(mem1, m.mem, d, data, k);
      TabsNext(data, k);
      PaidAgain(memE, freeE, mem1, free1, m.mem, m.free, d, TabsUpTo(data, k), RowTabs(data, k), TabsUpTo(data, k + 1));
    }
    KernelDone(m.mem, d, data);
    SetupPaid(memE, freeE, m.mem, m.free, d, data);
    KernelSees(m.mem, m.free, d, m.first, data);
  }

  /** The directory and the tables of the kernel's half. */
  const KERNEL_FRAMES: nat := 65

  /** Directory entries of the kernel's half: physical memory and devices. */
  ghost function KernelTabs(): (r: set<nat>)
  {
    Interval(512, 56) + Interval(1016, 8)
  }

  lemma KernelTabsCount()
    ensures |KernelTabs()| == KERNEL_FRAMES - 1
  {
    hide Interval;
    assert Interval(512, 56) !! Interval(1016, 8);
  }

  ghost function RowTabs(data: nat, k: nat): (r: set<nat>)
    requires WfData(data)
  {
    var r := KmapAt(data, k);
    TabsFor(r.virt / PGSIZE, (r.virt + (r.end - r.start) % TOP - 1) / PGSIZE + 1)
  }

  ghost function TabsUpTo(data: nat, k: nat): (r: set<nat>)
    requires WfData(data)
  {
    if k == 0 then {} else TabsUpTo(data, k - 1) + RowTabs(data, k - 1)
  }

  lemma TabsNext(data: nat, k: nat)
    requires WfData(data)
    ensures TabsUpTo(data, k + 1) == TabsUpTo(data, k) + RowTabs(data, k)
  {}

  /** The first and last directory entry that row k falls under. */
  function RowFirst(data: nat, k: nat): (i: int)
  {
    if k < 2 then 512 else if k == 2 then data / PGSIZE / NENTRIES else 1016
  }

  function RowLast(data: nat, k: nat): (i: int)
  {
    if k == 0 then 512 else if k == 1 then (data / PGSIZE - 1) / NENTRIES else if k == 2 then 567 else 1023
  }

  lemma RowEnds(data: nat, k: nat)
    requires WfData(data) && k < 4
    ensures var r := KmapAt(data, k);
            var lo, hi := r.virt / PGSIZE, (r.virt + (r.end - r.start) % TOP - 1) / PGSIZE;
            lo <= hi && lo / NENTRIES == RowFirst(data, k) && hi / NENTRIES == RowLast(data, k)
  {}

  lemma RowIs(data: nat, k: nat)
    requires WfData(data) && k < 4
    ensures forall i: nat :: i in RowTabs(data, k) <==> RowFirst(data, k) <= i <= RowLast(data, k)
  {
    hide Interval, RowFirst, RowLast, KmapAt;
    RowEnds(data, k);
  }

  lemma InRows(data: nat, i: nat)
    requires WfData(data)
    ensures i in TabsUpTo(data, 4) <==> 512 <= i < 568 || 1016 <= i < 1024
  {
    hide Interval, RowTabs, TabsUpTo;
    NoRows(data);
    TabsNext(data, 0);
    TabsNext(data, 1);
    TabsNext(data, 2);
    TabsNext(data, 3);
    RowIs(data, 0);
    RowIs(data, 1);
    RowIs(data, 2);
    RowIs(data, 3);
    var p := data / PGSIZE;
    assert (p - 1) / NENTRIES <= p / NENTRIES <= (p - 1) / NENTRIES + 1;
    assert 512 <= (p - 1) / NENTRIES && p / NENTRIES <= 567;
  }

  /** The rows of kmap[] need exactly those tables, wherever the kernel's data begins. */
  lemma AllRows(data: nat)
    requires WfData(data)
    ensures TabsUpTo(data, 4) == KernelTabs()
  {
    hide Interval, TabsUpTo;
    forall i: nat ensures i in TabsUpTo(data, 4) <==> i in KernelTabs() { InRows(data, i); }
  }

  lemma NoRows(data: nat)
    requires WfData(data)
    ensures TabsUpTo(data, 0) == {}
  {}

  lemma {:induction false} TabsWithin(data: nat, k: nat)
    requires WfData(data) && k <= 4
    ensures TabsUpTo(data, k) <= KernelTabs()
    decreases 4 - k
  {
    hide RowTabs, KernelTabs, TabsUpTo, Interval;
    AllRows(data);
    if k < 4 {
      TabsWithin(data, k + 1);
      TabsNext(data, k);
    }
  }

  lemma NothingWritten(free0: set<nat>, mem: Mem)
    ensures SameOutside(free0, mem, mem)
  {}

  lemma SetupStart(free0: set<nat>, mem0: Mem, mem: Mem, free: set<nat>, d: nat, data: nat)
    requires 0 < d < NFRAMES && d in free0 && free == free0 - {d} && mem == mem0[d := Filled(0)] && WfData(data)
    requires forall f: nat :: Owns(mem, d, f) <==> f == d
    ensures Divided(free0, mem, free, d) && SameOutside(free0, mem0, mem)
    ensures Paid(mem, free, mem, free, d, TabsUpTo(data, 0))
  {
    PaidSame(mem, mem, free, d, {});
  }

  lemma NoUserFrames(free0: set<nat>, mem0: Mem, mem: Mem, free: set<nat>, mem': Mem, free': set<nat>, d: nat, lo: nat,
          k: nat, p0: nat)
    requires 0 < d < NFRAMES && UPAGES <= lo <= k && Divided(free0, mem, free, d) && SameOutside(free0, mem0, mem)
    requires Kept(mem, free, mem', free', d, UserFrames(lo, k, p0)) && Grown(mem, free, mem', free', d)
    ensures Divided(free0, mem', free', d) && SameOutside(free0, mem0, mem')
  {
    hide Kept, Grown, Divided;
    assert UserFrames(lo, k, p0) == {};
    assert free + {} == free;
    DividedGrown(free0, mem0, mem, free, mem', free', d, {});
  }

  lemma PartOfRow(data: nat, k: nat, lo: nat, hi: nat, e: nat)
    requires WfData(data) && k < 4 && lo <= e <= hi && RowTabs(data, k) == TabsFor(lo, hi + 1)
    ensures e / NENTRIES in RowTabs(data, k) && TabsFor(lo, e) <= RowTabs(data, k)
  {
    hide Interval, RowTabs;
    assert e > lo ==> lo / NENTRIES <= (e - 1) / NENTRIES <= hi / NENTRIES;
    assert lo / NENTRIES <= e / NENTRIES <= hi / NENTRIES;
  }

  /** Out of frames part way through the kernel's half: there were fewer than it takes. */
  lemma SetupShort(memE: Mem, freeE: set<nat>, mem1: Mem, free1: set<nat>, mem: Mem, free: set<nat>, d: nat, data: nat,
          k: nat, e: nat)
    requires d < NFRAMES && WfData(data) && k < 4 && Tabs(memE, d) == {} && free == {}
    requires Paid(memE, freeE, mem1, free1, d, TabsUpTo(data, k))
    requires var r := KmapAt(data, k);
             var lo, hi := r.virt / PGSIZE, (r.virt + (r.end - r.start) % TOP - 1) / PGSIZE;
             && lo <= e <= hi < PAGES && Paid(mem1, free1, mem, free, d, TabsFor(lo, e))
    requires Table(mem, d, e / NENTRIES) == 0
    ensures |freeE| < KERNEL_FRAMES - 1
  {
    hide Table, KmapAt, Interval, TabsUpTo, KernelTabs, TabsFor, Tabs;
    var r := KmapAt(data, k);
    var lo, hi := r.virt / PGSIZE, (r.virt + (r.end - r.start) % TOP - 1) / PGSIZE;
    TabsWithin(data, k);
    TabsWithin(data, k + 1);
    TabsNext(data, k);
    KernelTabsCount();
    PartOfRow(data, k, lo, hi, e);
    assert e / NENTRIES !in Tabs(mem, d);
    assert Tabs(mem, d) <= KernelTabs() - {e / NENTRIES};
    SubsetCard(Tabs(mem, d), KernelTabs() - {e / NENTRIES});
  }

  lemma SetupPaid(memE: Mem, freeE: set<nat>, mem: Mem, free: set<nat>, d: nat, data: nat)
    requires d < NFRAMES && WfData(data) && Tabs(memE, d) == {} && Paid(memE, freeE, mem, free, d, TabsUpTo(data, 4))
    ensures Tabs(mem, d) == KernelTabs() && |freeE| == |free| + KERNEL_FRAMES - 1
  {
    hide TabsUpTo, KernelTabs, Tabs, Table;
    AllRows(data);
    KernelTabsCount();
  }

  lemma NoKernelYet(mem: Mem, d: nat, data: nat)
    requires d < NFRAMES && forall v: nat :: Entry(mem, d, v) == 0
    ensures KernelUpTo(mem, d, data, Edge(data, 0))
  {
    hide Entry;
  }

  lemma KernelDone(mem: Mem, d: nat, data: nat)
    requires d < NFRAMES && KernelUpTo(mem, d, data, Edge(data, 4))
    ensures forall v: nat :: Entry(mem, d, v) == KernelEntry(data, v)
  {
    hide Entry;
  }

  // ---- one more user page, for allocuvm and copyuvm ----

  /** kalloc, fill, mappages of one page. f is the frame taken; it is still nobody's if mappages failed. */
  method AddPage(m: Memory, d: nat, a: Word32, page: Page, perm: nat) returns (f: nat, ok: bool)
    requires m.Valid() && WfSpace(m.mem, m.free, d, m.first) && perm < PGSIZE
    requires a % PGSIZE == 0 && a < KERNBASE && Entry(m.mem, d, a / PGSIZE) == 0
    modifies m
    ensures m.Valid() && WfSpace(m.mem, m.free, d, m.first) && Grown(old(m.mem), old(m.free), m.mem, m.free, d)
    ensures f == 0 ==> !ok && m.mem == old(m.mem) && m.free == old(m.free) == {}
    ensures f != 0 ==> f in old(m.free) && f !in m.free && f < PAGES
    ensures ok ==> f < NFRAMES && m.mem[f] == page && Kept(old(m.mem), old(m.free), m.mem, m.free, d, {})
    ensures ok ==> Mapped(old(m.mem), m.mem, d, a / PGSIZE, a / PGSIZE + 1, f, perm)
    ensures f != 0 && !ok ==> SameMap(old(m.mem), m.mem, d) && !Owns(m.mem, d, f)
    ensures f != 0 && !ok ==> Kept(old(m.mem), old(m.free), m.mem, m.free + {f}, d, {})
    ensures ok <==> PageCost(old(m.mem), d, a / PGSIZE) <= |old(m.free)|
    ensures ok ==> Spent(old(m.mem), old(m.free), m.mem, m.free, d, {a / PGSIZE / NENTRIES}, 1)
    ensures f != 0 && !ok ==> m.free == {}
  {
    hide WfSpace, Grown, Kept, Owns, Entry, Table, Mapped, SameMap, AllMappable, Paid, Missing, Spent, PageCost,
         TabsFor;
    SpaceDir(m.mem, m.free, d, m.first);
    SameStep(m.mem, m.free, d);
    CostPositive(m.mem, d, a / PGSIZE);
    f := m.Kalloc();
    if f == 0 {
      return 0, false;
    }
    FreshStep(m.mem, old(m.free), d, m.first, f, page);
    m.Put(f, page);
    ghost var mem1, free1 := m.mem, m.free;
    OneMappable(old(m.mem), mem1, free1, d, m.first, a / PGSIZE, f);
    ghost var k;
    ok, k := Mappages(m, d, a, PGSIZE, f * PGSIZE, perm);
    GrownAgain(old(m.mem), old(m.free), mem1, free1, m.mem, m.free, d);
    PageAdded(old(m.mem), old(m.free), mem1, m.mem, m.free, d, m.first, a / PGSIZE, k, f, perm);
    PagePaid(old(m.mem), old(m.free), mem1, m.mem, m.free, d, a / PGSIZE, k, f);
  }

  /** n user pages and the missing tables of the directory entries x have been paid for with free frames. */
  ghost predicate Spent(mem: Mem, free: set<nat>, mem': Mem, free': set<nat>, d: nat, x: set<nat>, n: nat)
    requires d < NFRAMES
  {
    |free'| + |Tabs(mem', d)| + n == |free| + |Tabs(mem, d)| && Tabs(mem', d) == Tabs(mem, d) + x
  }

  /** The frames one more user page takes: its own, and its table's if that is missing. */
  ghost function PageCost(mem: Mem, d: nat, v: nat): (n: nat)
    requires d < NFRAMES
  {
    if v / NENTRIES in Tabs(mem, d) then 1 else 2
  }

  lemma CostPositive(mem: Mem, d: nat, v: nat)
    requires d < NFRAMES
    ensures 1 <= PageCost(mem, d, v) <= 2
  {}

  lemma PagePaid(mem: Mem, free: set<nat>, mem1: Mem, mem': Mem, free': set<nat>, d: nat, v: nat, k: nat, f: nat)
    requires d < NFRAMES && f in free && v <= k <= v + 1 && forall i: nat :: Table(mem1, d, i) == Table(mem, d, i)
    requires Paid(mem1, free - {f}, mem', free', d, TabsFor(v, k))
    ensures PageCost(mem, d, v) <= |free| <==> Missing(mem1, d, v, v + 1) <= |free - {f}|
    ensures k == v + 1 ==> Spent(mem, free, mem', free', d, {v / NENTRIES}, 1)
  {
    hide Table, Tabs, TabsFor;
    SameTabs(mem, mem1, d);
    OneTab(v);
    OneMissing(Tabs(mem, d), v / NENTRIES);
  }

  lemma SameTabs(mem: Mem, mem': Mem, d: nat)
    requires d < NFRAMES && forall i: nat :: Table(mem', d, i) == Table(mem, d, i)
    ensures Tabs(mem', d) == Tabs(mem, d)
  {}

  lemma OneTab(v: nat)
    ensures TabsFor(v, v + 1) == {v / NENTRIES}
  {}

  lemma OneMissing(t: set<nat>, i: nat)
    ensures |{i} - t| == if i in t then 0 else 1
  {
    assert {i} - t == if i in t then {} else {i};
  }

  lemma SpentMore(mem: Mem, free: set<nat>, mem1: Mem, free1: set<nat>, mem': Mem, free': set<nat>, d: nat, lo: nat,
          k: nat)
    requires d < NFRAMES && lo <= k && Spent(mem, free, mem1, free1, d, TabsFor(lo, k), k - lo)
    requires Spent(mem1, free1, mem', free', d, {k / NENTRIES}, 1)
    ensures Spent(mem, free, mem', free', d, TabsFor(lo, k + 1), k + 1 - lo)
  {
    TabsForMore(lo, k);
    hide Table, TabsFor, Tabs;
  }

  lemma SpentNone(mem: Mem, free: set<nat>, d: nat, lo: nat)
    requires d < NFRAMES
    ensures Spent(mem, free, mem, free, d, TabsFor(lo, lo), 0)
  {}

  /** What the user pages from lo up to hi take: one frame each, and their missing tables. */
  ghost function Needed(mem: Mem, d: nat, lo: nat, hi: nat): (n: int)
    requires d < NFRAMES
  {
    hi - lo + Missing(mem, d, lo, hi)
  }

  lemma SpentIs(mem: Mem, free: set<nat>, mem': Mem, free': set<nat>, d: nat, lo: nat, k: nat)
    requires d < NFRAMES && lo <= k && Spent(mem, free, mem', free', d, TabsFor(lo, k), k - lo)
    ensures |free'| + Needed(mem, d, lo, k) == |free|
  {
    hide TabsFor, Table;
    var t0, r := Tabs(mem, d), TabsFor(lo, k);
    assert t0 + r == t0 + (r - t0);
  }

  /** The next page cannot be paid for: there were fewer frames than all pages take. */
  lemma SpentShort(mem: Mem, free: set<nat>, mem': Mem, free': set<nat>, d: nat, lo: nat, k: nat, hi: nat)
    requires d < NFRAMES && lo <= k < hi && Spent(mem, free, mem', free', d, TabsFor(lo, k), k - lo)
    requires |free'| < PageCost(mem', d, k)
    ensures |free| < Needed(mem, d, lo, hi)
  {
    SpentIs(mem, free, mem', free', d, lo, k);
    TabsForMore(lo, k);
    TabsForWider(lo, k, hi);
    TabsForWider(lo, k + 1, hi);
    hide TabsFor, Table, Tabs;
    MoreToCome(Tabs(mem, d), TabsFor(lo, k), k / NENTRIES, TabsFor(lo, hi));
  }

  lemma MoreToCome(t0: set<nat>, r: set<nat>, i: nat, full: set<nat>)
    requires r + {i} <= full
    ensures |full - t0| >= |r - t0| + if i in t0 + r then 0 else 1
  {
    SubsetCard(r - t0, full - t0);
    if i !in t0 + r {
      assert (r - t0) + {i} <= full - t0;
      SubsetCard((r - t0) + {i}, full - t0);
    }
  }

  lemma TabsForWider(lo: nat, k: nat, hi: nat)
    requires lo <= k <= hi
    ensures TabsFor(lo, k) <= TabsFor(lo, hi)
  {
    assert k > lo ==> lo / NENTRIES <= (k - 1) / NENTRIES <= (hi - 1) / NENTRIES;
  }

  lemma OneMappable(mem: Mem, mem1: Mem, free: set<nat>, d: nat, first: nat, v: nat, f: nat)
    requires d < NFRAMES && SameMap(mem, mem1, d) && Entry(mem, d, v) == 0 && Usable(first, f) && f !in free
             && !Owns(mem1, d, f)
    ensures AllMappable(mem1, free, d, first, v, v, f)
  {
    hide Entry, Owns;
    assert Entry(mem1, d, v) == 0;
  }

  lemma PageAdded(mem: Mem, free: set<nat>, mem1: Mem, mem': Mem, free': set<nat>, d: nat, first: nat,
                  v: nat, k: nat, f: nat, perm: nat)
    requires WfSpace(mem1, free - {f}, d, first) && f in free && f < NFRAMES && v < UPAGES && v <= k <= v + 1
             && perm < PGSIZE
    requires SameMap(mem, mem1, d) && !Owns(mem1, d, f) && forall g: nat :: Owns(mem1, d, g) <==> Owns(mem, d, g)
    requires Mapped(mem1, mem', d, v, k, f, perm) && Grown(mem1, free - {f}, mem', free', d)
    requires Kept(mem1, free - {f}, mem', free', d, UserFrames(v, k, f))
    ensures f !in free' && mem'[f] == mem1[f]
    ensures k == v + 1 ==> Mapped(mem, mem', d, v, k, f, perm) && Kept(mem, free, mem', free', d, {})
    ensures k == v ==> SameMap(mem, mem', d) && !Owns(mem', d, f) && Kept(mem, free, mem', free' + {f}, d, {})
  {
    assert !Node(mem1, d, f) by { if Node(mem1, d, f) { NodeOwned(mem1, d, f); } }
    hide Owns, Entry, Table, WfSpace, Node;
    assert UserFrames(v, k, f) == if k == v then {} else {f};
    forall g: nat ensures Owns(mem', d, g) || g in free' <==> (Owns(mem, d, g) || g in free) && (k == v ==> g != f) {
      assert Owns(mem', d, g) || g in free' <==> Owns(mem1, d, g) || g in free - {f} || g in UserFrames(v, k, f);
    }
  }

  // ---- allocuvm ----

  /** w maps a zeroed frame out of free0, writable by the user. */
  ghost predicate ZeroPage(free0: set<nat>, mem: Mem, w: Word32)
  {
    FlagsOf(w) == PTE_P + PTE_W + PTE_U && FrameOf(w) in free0 && FrameOf(w) < NFRAMES && mem[FrameOf(w)] == Filled(0)
  }

  ghost predicate ZeroPages(mem0: Mem, free0: set<nat>, mem: Mem, d: nat, lo: nat, k: nat)
    requires d < NFRAMES
  {
    && (forall v: nat :: lo <= v < k ==> ZeroPage(free0, mem, Entry(mem, d, v)))
    && forall v: nat :: !(lo <= v < k) ==> Entry(mem, d, v) == Entry(mem0, d, v)
  }

  /** A mapped user page is not written while the address space grows. */
  lemma UserPageStays(mem: Mem, free: set<nat>, mem': Mem, free': set<nat>, d: nat, first: nat, v: nat)
    requires WfSpace(mem, free, d, first) && Grown(mem, free, mem', free', d) && v < UPAGES && Entry(mem, d, v) != 0
    ensures FrameOf(Entry(mem, d, v)) < NFRAMES && mem'[FrameOf(Entry(mem, d, v))] == mem[FrameOf(Entry(mem, d, v))]
  {
    var f := At(mem, d, User(v));
    UsableAt(mem, free, d, first, User(v));
    assert f != At(mem, d, Dir);
    forall i: nat ensures Table(mem, d, i) != f { assert At(mem, d, Tab(i)) != f; }
  }

  lemma ZeroMore(mem0: Mem, free0: set<nat>, mem: Mem, free: set<nat>, mem': Mem, free': set<nat>, d: nat, first: nat,
                 lo: nat, k: nat, f: nat)
    requires WfSpace(mem, free, d, first) && Grown(mem, free, mem', free', d) && ZeroPages(mem0, free0, mem, d, lo, k)
    requires lo <= k < UPAGES && f in free0 && f < NFRAMES && mem'[f] == Filled(0)
    requires Mapped(mem, mem', d, k, k + 1, f, PTE_W + PTE_U)
    ensures ZeroPages(mem0, free0, mem', d, lo, k + 1)
  {
    PteParts(f, PTE_P + PTE_W + PTE_U);
    hide Entry, WfSpace, Grown, Pte, FlagsOf, FrameOf;
    forall v: nat | lo <= v < k + 1 ensures ZeroPage(free0, mem', Entry(mem', d, v)) {
      if v < k {
        assert Entry(mem, d, v) != 0 by { FlaggedNotZero(Entry(mem, d, v)); }
        UserPageStays(mem, free, mem', free', d, first, v);
      }
    }
  }

  lemma FlaggedNotZero(w: Word32)
    ensures FlagsOf(w) != 0 ==> w != 0
  {}

  /** Giving back the pages got so far undoes the mapping; only page tables have been used up. */
  lemma RolledBack(mem0: Mem, free0: set<nat>, mem1: Mem, free1: set<nat>, mem': Mem, free': set<nat>, d: nat, lo: nat,
          k: nat, hi: nat)
    requires d < NFRAMES && Grown(mem0, free0, mem1, free1, d) && ZeroPages(mem0, free0, mem1, d, lo, k)
             && lo <= k <= hi
    requires forall v: nat :: lo <= v < hi ==> Entry(mem0, d, v) == 0
    requires Released(mem1, free1, mem', free', d, lo, hi)
    ensures SameMap(mem0, mem', d) && Grown(mem0, free0, mem', free', d)
  {
    hide Entry, Table;
    forall f: nat | f in free' ensures f in free0 {
      if FreedBy(mem1, d, lo, hi, f) {
        var v: nat :| lo <= v < hi && At(mem1, d, User(v)) == f;
        assert v < k ==> ZeroPage(free0, mem1, Entry(mem1, d, v));
      }
    }
    forall f | 0 <= f < NFRAMES && f !in free0 && !Node(mem0, d, f) ensures mem'[f] == mem0[f] {
      assert !Node(mem1, d, f);
    }
  }

  lemma LooseFreed(mem0: Mem, free0: set<nat>, mem: Mem, free: set<nat>, mem': Mem, d: nat, first: nat, f: nat)
    requires WfSpace(mem, free, d, first) && f !in free && Usable(first, f) && !Owns(mem, d, f)
    requires forall g :: 0 <= g < NFRAMES && g != f ==> mem'[g] == mem[g]
    ensures WfSpace(mem', free + {f}, d, first) && SameMap(mem, mem', d)
    ensures Kept(mem, free + {f}, mem', free + {f}, d, {})
    ensures Grown(mem0, free0, mem, free, d) && f in free0 ==> Grown(mem0, free0, mem', free + {f}, d)
  {
    forall s ensures At(mem, d, s) != f {}
    assert At(mem, d, Dir) != f;
    forall i: nat ensures Table(mem, d, i) != f { assert At(mem, d, Tab(i)) != f; }
    NodesMap(mem, mem', d);
    SameSlots(mem, mem', free, d, first);
  }

  /**
    allocuvm(): on success the new pages are zeroed frames taken from the free ones; on failure the
    mapping is what it was and the only frames used up are the page tables made up to page k, where
    it stopped.
   */
  method Allocuvm(m: Memory, d: nat, oldsz: Word32, newsz: Word32) returns (sz: Word32, ghost ok: bool, ghost k: nat)
    requires m.Valid() && WfSpace(m.mem, m.free, d, m.first)
    requires newsz < KERNBASE ==> forall v: nat :: PageUp(oldsz) <= v < PageUp(newsz) ==> Entry(m.mem, d, v) == 0
    modifies m
    ensures m.Valid() && WfSpace(m.mem, m.free, d, m.first)
    ensures Grown(old(m.mem), old(m.free), m.mem, m.free, d) && Kept(old(m.mem), old(m.free), m.mem, m.free, d, {})
    ensures ok <==> && newsz < KERNBASE
                    && (newsz < oldsz || Needed(old(m.mem), d, PageUp(oldsz), PageUp(newsz)) <= |old(m.free)|)
    ensures newsz >= KERNBASE || newsz < oldsz ==> m.mem == old(m.mem) && m.free == old(m.free)
    ensures ok ==> sz == (if newsz < oldsz then oldsz else newsz)
    ensures ok ==> ZeroPages(old(m.mem), old(m.free), m.mem, d, PageUp(oldsz), PageUp(newsz))
    ensures ok ==> UserMayUse(m.mem, d, PageUp(oldsz), PageUp(newsz))
    ensures !ok ==> sz == 0 && SameMap(old(m.mem), m.mem, d)
    ensures !ok && newsz < KERNBASE ==>
              StoppedAt(old(m.mem), old(m.free), m.free, d, PageUp(oldsz), PageUp(newsz), k)
  {
    hide WfSpace, Grown, Kept, Owns, Entry, Table, Mapped, SameMap, ZeroPages, Released, Spent, PageCost, Needed,
         TabsFor, Missing, FirstMissing, StoppedAt, UserMayUse;
    k := 0;
    SpaceDir(m.mem, m.free, d, m.first);
    SameStep(m.mem, m.free, d);
    if newsz >= KERNBASE {
      return 0, false, k;
    }
    NoPages(m.mem, m.free, d);
    if newsz < oldsz {
      UserUses(m.mem, m.free, m.mem, m.free, d, m.first, PageUp(oldsz), PageUp(newsz));
      return oldsz, true, k;
    }
    ghost var lo, hi := PageUp(oldsz), PageUp(newsz);
    var a := (oldsz + PGSIZE - 1) / PGSIZE * PGSIZE;
    PageAddress(lo);
    SpentNone(m.mem, m.free, d, lo);
    while a < newsz
      invariant a % PGSIZE == 0 && lo <= a / PGSIZE <= hi
      invariant m.Valid() && WfSpace(m.mem, m.free, d, m.first)
      invariant Grown(old(m.mem), old(m.free), m.mem, m.free, d) && Kept(old(m.mem), old(m.free), m.mem, m.free, d, {})
      invariant ZeroPages(old(m.mem), old(m.free), m.mem, d, lo, a / PGSIZE)
      invariant Spent(old(m.mem), old(m.free), m.mem, m.free, d, TabsFor(lo, a / PGSIZE), a / PGSIZE - lo)
      decreases newsz - a
    {
      PageBounds(a, newsz);
      k := a / PGSIZE;
      ghost var mem1, free1 := m.mem, m.free;
      NotYet(old(m.mem), old(m.free), m.mem, d, lo, k);
      var f, done := AddPage(m, d, a, Filled(0), PTE_W + PTE_U);
      if !done {
        GiveUp(m, d, oldsz, newsz, f, old(m.mem), old(m.free), mem1, free1, k);
        return 0, false, k;
      }
      GrownIn(old(m.mem), old(m.free), mem1, free1, d);
      ZeroMore(old(m.mem), old(m.free), mem1, free1, m.mem, m.free, d, m.first, lo, k, f);
      GrownAgain(old(m.mem), old(m.free), mem1, free1, m.mem, m.free, d);
      KeptAgain(old(m.mem), old(m.free), mem1, free1, m.mem, m.free, d, {}, {}, {});
      SpentMore(old(m.mem), old(m.free), mem1, free1, m.mem, m.free, d, lo, k);
      PageAddress(k + 1);
      a := a + PGSIZE;
    }
    SpentIs(old(m.mem), old(m.free), m.mem, m.free, d, lo, hi);
    UserUses(old(m.mem), old(m.free), m.mem, m.free, d, m.first, lo, hi);
    return newsz, true, k;
  }

  /** The first page from lo on whose page table is missing, hi if there is none before. */
  ghost function FirstMissing(mem: Mem, d: nat, lo: nat, hi: nat): (v: nat)
    requires d < NFRAMES
    ensures lo <= hi ==> lo <= v <= hi
    decreases hi - lo
  {
    if lo >= hi then hi else if lo / NENTRIES !in Tabs(mem, d) then lo else FirstMissing(mem, d, lo + 1, hi)
  }

  lemma {:induction false} FirstMissingIs(mem: Mem, d: nat, lo: nat, hi: nat)
    requires d < NFRAMES && lo <= hi
    ensures var v := FirstMissing(mem, d, lo, hi);
            && (forall u: nat :: lo <= u < v ==> u / NENTRIES in Tabs(mem, d))
            && (v < hi ==> v / NENTRIES !in Tabs(mem, d))
    decreases hi - lo
  {
    hide Tabs;
    if lo < hi && lo / NENTRIES in Tabs(mem, d) { FirstMissingIs(mem, d, lo + 1, hi); }
  }

  /** Every page needs a table of its own or one that another page needs. */
  lemma InTabsFor(lo: nat, k: nat, v: nat)
    requires lo <= v < k
    ensures v / NENTRIES in TabsFor(lo, k)
  {
    assert lo / NENTRIES <= v / NENTRIES <= (k - 1) / NENTRIES;
  }

  lemma TabsForPage(lo: nat, k: nat, i: nat) returns (v: nat)
    requires i in TabsFor(lo, k)
    ensures lo <= v < k && v / NENTRIES == i
  {
    v := if i * NENTRIES >= lo then i * NENTRIES else lo;
  }

  /** No table is missing for the pages up to k exactly when k is not past the first page without one. */
  lemma NoneMissing(mem: Mem, d: nat, lo: nat, k: nat, hi: nat)
    requires d < NFRAMES && lo <= k <= hi
    ensures Missing(mem, d, lo, k) == 0 <==> k <= FirstMissing(mem, d, lo, hi)
  {
    hide TabsFor, Tabs, FirstMissing;
    var v, x := FirstMissing(mem, d, lo, hi), TabsFor(lo, k) - Tabs(mem, d);
    FirstMissingIs(mem, d, lo, hi);
    if v < k {
      InTabsFor(lo, k, v);
      assert v / NENTRIES in x;
    } else {
      forall i | i in TabsFor(lo, k) ensures i in Tabs(mem, d) { var u := TabsForPage(lo, k, i); }
      assert x == {};
    }
  }

  lemma NeededMono(mem: Mem, d: nat, lo: nat, k: nat, l: nat)
    requires d < NFRAMES && lo <= k <= l
    ensures Needed(mem, d, lo, k) <= Needed(mem, d, lo, l)
  {
    TabsForWider(lo, k, l);
    hide TabsFor, Tabs;
    SubsetCard(TabsFor(lo, k) - Tabs(mem, d), TabsFor(lo, l) - Tabs(mem, d));
  }

  lemma NeededIs(mem: Mem, d: nat, lo: nat, k: nat)
    requires d < NFRAMES
    ensures Needed(mem, d, lo, k) == k - lo + Missing(mem, d, lo, k)
  {}

  /**
    What a failed allocuvm that stopped at page k leaves of the free frames: all but the tables it made. k is as far
    as the frames reached, and all of them are back exactly when they did not reach past the first missing table.
   */
  ghost predicate StoppedAt(mem: Mem, free: set<nat>, free': set<nat>, d: nat, lo: nat, hi: nat, k: nat)
    requires d < NFRAMES
  {
    && lo <= k < hi && |free'| + Missing(mem, d, lo, k) == |free|
    && Needed(mem, d, lo, k) <= |free| < Needed(mem, d, lo, k + 1)
    && (free' == free <==> |free| < Needed(mem, d, lo, FirstMissing(mem, d, lo, hi) + 1))
  }

  lemma NonEmpty(free: set<nat>, f: nat)
    ensures f in free ==> |free| >= 1
  {}

  lemma AllocStopped(mem0: Mem, free0: set<nat>, mem1: Mem, free1: set<nat>, left: set<nat>, mem: Mem, free: set<nat>,
                     d: nat, lo: nat, k: nat, hi: nat, f: nat)
    requires d < NFRAMES && lo <= k < hi && Spent(mem0, free0, mem1, free1, d, TabsFor(lo, k), k - lo)
    requires |free1| < PageCost(mem1, d, k) && (if f == 0 then free1 == left == {} else f in free1 && left == {})
    requires |free| == |left| + (k - lo) + (if f == 0 then 0 else 1) && Grown(mem0, free0, mem, free, d)
    ensures StoppedAt(mem0, free0, free, d, lo, hi, k)
  {
    hide TabsFor, Tabs, FirstMissing, Needed, Missing, Spent, Grown, PageCost;
    CostPositive(mem1, d, k);
    assert |free1| == if f == 0 then 0 else 1 by { NonEmpty(free1, f); }
    SpentIs(mem0, free0, mem1, free1, d, lo, k);
    SpentShort(mem0, free0, mem1, free1, d, lo, k, k + 1);
    NeededIs(mem0, d, lo, k);
    LeaksExactly(mem0, free0, mem, free, d, lo, k, hi);
  }

  /** After a failure that stopped at page k the free frames are those of before exactly when no table had been made. */
  lemma LeaksExactly(mem: Mem, free: set<nat>, mem': Mem, free': set<nat>, d: nat, lo: nat, k: nat, hi: nat)
    requires d < NFRAMES && lo <= k < hi && Grown(mem, free, mem', free', d)
             && |free'| + Missing(mem, d, lo, k) == |free|
    requires Needed(mem, d, lo, k) <= |free| < Needed(mem, d, lo, k + 1)
    ensures free' == free <==> |free| < Needed(mem, d, lo, FirstMissing(mem, d, lo, hi) + 1)
  {
    hide TabsFor, Tabs, FirstMissing, Needed, Missing, Table, Node;
    var v := FirstMissing(mem, d, lo, hi);
    NoneMissing(mem, d, lo, k, hi);
    SubsetCard(free', free);
    if k <= v { NeededMono(mem, d, lo, k + 1, v + 1); } else { NeededMono(mem, d, lo, v + 1, k); }
  }

  /** allocuvm when page k could not be added; mem1 and free1 are from before the attempt. */
  method GiveUp(m: Memory, d: nat, oldsz: Word32, newsz: Word32, f: nat, ghost mem0: Mem, ghost free0: set<nat>,
          ghost mem1: Mem, ghost free1: set<nat>, ghost k: nat)
    requires m.Valid() && WfSpace(m.mem, m.free, d, m.first) && WfSpace(mem1, free1, d, m.first)
    requires oldsz < newsz < KERNBASE && PageUp(oldsz) <= k < PageUp(newsz) && |free1| < PageCost(mem1, d, k)
    requires forall v: nat :: PageUp(oldsz) <= v < PageUp(newsz) ==> Entry(mem0, d, v) == 0
    requires Grown(mem0, free0, mem1, free1, d) && Kept(mem0, free0, mem1, free1, d, {})
    requires ZeroPages(mem0, free0, mem1, d, PageUp(oldsz), k)
    requires Spent(mem0, free0, mem1, free1, d, TabsFor(PageUp(oldsz), k), k - PageUp(oldsz))
    requires Grown(mem1, free1, m.mem, m.free, d)
    requires if f == 0 then m.mem == mem1 && m.free == free1 == {}
             else && f in free1 && f !in m.free && m.free == {} && SameMap(mem1, m.mem, d) && !Owns(m.mem, d, f)
                  && Kept(mem1, free1, m.mem, m.free + {f}, d, {})
    modifies m
    ensures m.Valid() && WfSpace(m.mem, m.free, d, m.first) && SameMap(mem0, m.mem, d)
    ensures Grown(mem0, free0, m.mem, m.free, d) && Kept(mem0, free0, m.mem, m.free, d, {})
    ensures |free0| < Needed(mem0, d, PageUp(oldsz), PageUp(newsz))
    ensures StoppedAt(mem0, free0, m.free, d, PageUp(oldsz), PageUp(newsz), k)
  {
    hide WfSpace, Grown, Kept, Owns, Entry, Table, SameMap, ZeroPages, Spent, PageCost, Needed, TabsFor, StoppedAt;
    SpaceDir(m.mem, m.free, d, m.first);
    ghost var lo, hi, left := PageUp(oldsz), PageUp(newsz), m.free;
    SpentShort(mem0, free0, mem1, free1, d, lo, k, hi);
    AllocFails(mem0, free0, mem1, free1, m.mem, m.free, d, m.first, lo, k, f);
    Rollback(m, d, oldsz, newsz, f, mem0, free0, k);
    AllocStopped(mem0, free0, mem1, free1, left, m.mem, m.free, d, lo, k, hi, f);
  }

  /** Both failure paths of allocuvm: deallocuvm, and then kfree of a page that was not mapped. */
  method Rollback(m: Memory, d: nat, oldsz: Word32, newsz: Word32, f: nat, ghost mem0: Mem, ghost free0: set<nat>,
          ghost k: nat)
    requires m.Valid() && WfSpace(m.mem, m.free, d, m.first) && oldsz < newsz < KERNBASE
    requires PageUp(oldsz) <= k <= PageUp(newsz) && forall v: nat :: PageUp(oldsz) <= v < PageUp(newsz) ==>
             Entry(mem0, d, v) == 0
    requires Grown(mem0, free0, m.mem, m.free, d) && ZeroPages(mem0, free0, m.mem, d, PageUp(oldsz), k)
    requires f != 0 ==> f in free0 && f !in m.free && Usable(m.first, f) && !Owns(m.mem, d, f)
    requires Kept(mem0, free0, m.mem, m.free + ({f} - {0}), d, {})
    modifies m
    ensures m.Valid() && WfSpace(m.mem, m.free, d, m.first) && SameMap(mem0, m.mem, d)
    ensures Grown(mem0, free0, m.mem, m.free, d) && Kept(mem0, free0, m.mem, m.free, d, {})
    ensures |m.free| == |old(m.free)| + (k - PageUp(oldsz)) + if f == 0 then 0 else 1
  {
    hide WfSpace, Grown, Kept, Owns, Entry, Table, SameMap, ZeroPages, Released, MappedCount;
    SpaceDir(m.mem, m.free, d, m.first);
    GotPages(mem0, free0, m.mem, d, PageUp(oldsz), k, PageUp(newsz));
    ghost var mem1, free1 := m.mem, m.free;
    var _ := Deallocuvm(m, d, newsz, oldsz);
    RolledBack(mem0, free0, mem1, free1, m.mem, m.free, d, PageUp(oldsz), k, PageUp(newsz));
    KeptWith(mem0, free0, mem1, free1, m.mem, m.free, d, {f} - {0});
    if f != 0 {
      StillLoose(mem1, free1, m.mem, m.free, d, f);
      ghost var mem2, free2 := m.mem, m.free;
      m.Kfree(f);
      assert {f} - {0} == {f};
      LooseFreed(mem0, free0, mem2, free2, m.mem, d, m.first, f);
      SameMapAgain(mem0, mem2, m.mem, d);
      KeptAgain(mem0, free0, mem2, free2 + ({f} - {0}), m.mem, m.free, d, {}, {}, {});
    } else {
      assert m.free + ({f} - {0}) == m.free;
    }
  }

  lemma GotPages(mem0: Mem, free0: set<nat>, mem: Mem, d: nat, lo: nat, k: nat, hi: nat)
    requires d < NFRAMES && lo <= k <= hi && ZeroPages(mem0, free0, mem, d, lo, k)
    requires forall v: nat :: lo <= v < hi ==> Entry(mem0, d, v) == 0
    ensures MappedCount(mem, d, lo, hi) == k - lo
  {
    hide Entry, MappedCount;
    forall v: nat | lo <= v < k ensures Entry(mem, d, v) != 0 { FlaggedNotZero(Entry(mem, d, v)); }
    CountAll(mem, d, lo, k);
    CountSkip(mem, d, lo, k, hi);
  }

  lemma NoPages(mem: Mem, free: set<nat>, d: nat)
    requires d < NFRAMES
    ensures forall lo: nat, k: nat :: k <= lo ==> ZeroPages(mem, free, mem, d, lo, k)
  {
    hide Entry;
  }

  lemma NotYet(mem0: Mem, free0: set<nat>, mem: Mem, d: nat, lo: nat, k: nat)
    requires d < NFRAMES && ZeroPages(mem0, free0, mem, d, lo, k)
    ensures Entry(mem, d, k) == Entry(mem0, d, k)
  {}

  lemma GrownIn(mem0: Mem, free0: set<nat>, mem: Mem, free: set<nat>, d: nat)
    requires d < NFRAMES && Grown(mem0, free0, mem, free, d)
    ensures free <= free0
  {}

  /** Where allocuvm stands when a page could not be added. */
  lemma AllocFails(mem0: Mem, free0: set<nat>, mem1: Mem, free1: set<nat>, mem: Mem, free: set<nat>, d: nat, first: nat,
                   lo: nat, k: nat, f: nat)
    requires WfSpace(mem1, free1, d, first) && lo <= k <= UPAGES
    requires Grown(mem0, free0, mem1, free1, d) && Kept(mem0, free0, mem1, free1, d, {})
             && ZeroPages(mem0, free0, mem1, d, lo, k)
    requires Grown(mem1, free1, mem, free, d) && (f == 0 ==> mem == mem1 && free == free1)
    requires f != 0 ==> f in free1 && SameMap(mem1, mem, d) && Kept(mem1, free1, mem, free + {f}, d, {})
    ensures Grown(mem0, free0, mem, free, d) && ZeroPages(mem0, free0, mem, d, lo, k)
    ensures Kept(mem0, free0, mem, free + ({f} - {0}), d, {}) && (f != 0 ==> f in free0 && Usable(first, f))
  {
    GrownAgain(mem0, free0, mem1, free1, mem, free, d);
    hide Entry, Owns, Table;
    assert f != 0 ==> {f} - {0} == {f};
    assert f == 0 ==> free + ({f} - {0}) == free;
    if f != 0 {
      KeptAgain(mem0, free0, mem1, free1, mem, free + {f}, d, {}, {}, {});
      forall v: nat | lo <= v < k ensures ZeroPage(free0, mem, Entry(mem, d, v)) {
        assert ZeroPage(free0, mem1, Entry(mem1, d, v));
        FlaggedNotZero(Entry(mem1, d, v));
        UserPageStays(mem1, free1, mem, free, d, first, v);
      }
    }
  }

  lemma KeptWith(mem0: Mem, free0: set<nat>, mem1: Mem, free1: set<nat>, mem: Mem, free: set<nat>, d: nat, x: set<nat>)
    requires d < NFRAMES && Kept(mem0, free0, mem1, free1 + x, d, {}) && Kept(mem1, free1, mem, free, d, {})
    ensures Kept(mem0, free0, mem, free + x, d, {})
  {
    hide Owns;
    forall f: nat ensures Owns(mem, d, f) || f in free + x <==> Owns(mem0, d, f) || f in free0 {
      assert Owns(mem1, d, f) || f in free1 + x <==> Owns(mem0, d, f) || f in free0;
    }
  }

  lemma SameMapAgain(mem: Mem, mem1: Mem, mem': Mem, d: nat)
    requires d < NFRAMES && SameMap(mem, mem1, d) && SameMap(mem1, mem', d)
    ensures SameMap(mem, mem', d)
  {
    hide Entry;
  }

  // ---- copyuvm ----

  /** The child's entry maps a page with the parent's flags and contents. */
  ghost predicate CopyOf(mem0: Mem, w0: Word32, mem: Mem, w: Word32)
  {
    && FlagsOf(w) == FlagsOf(w0) && FrameOf(w) < NFRAMES && FrameOf(w0) < NFRAMES
    && mem[FrameOf(w)] == mem0[FrameOf(w0)]
  }

  /** The pages below k are copies of p's; the rest of the child is the kernel's half. */
  ghost predicate Copied(mem0: Mem, p: nat, mem: Mem, d: nat, data: nat, k: nat)
    requires p < NFRAMES && d < NFRAMES
  {
    && (forall v: nat :: v < k ==> CopyOf(mem0, Entry(mem0, p, v), mem, Entry(mem, d, v)))
    && forall v: nat :: v >= k ==> Entry(mem, d, v) == KernelEntry(data, v)
  }

  /** An address space none of whose frames were free is untouched when only free frames are written. */
  lemma Bystander(mem0: Mem, free0: set<nat>, mem: Mem, free: set<nat>, p: nat, first: nat)
    requires WfSpace(mem0, free0, p, first) && SameOutside(free0, mem0, mem) && free <= free0
    ensures WfSpace(mem, free, p, first) && SameMap(mem0, mem, p)
    ensures forall f: nat :: Owns(mem, p, f) <==> Owns(mem0, p, f)
    ensures forall f: nat :: Owns(mem, p, f) && f < NFRAMES ==> f !in free0 && mem[f] == mem0[f]
  {
    assert At(mem0, p, Dir) !in free0;
    forall i: nat | 0 < Table(mem0, p, i) < NFRAMES ensures mem[Table(mem0, p, i)] == mem0[Table(mem0, p, i)] {
      assert At(mem0, p, Tab(i)) !in free0;
    }
    NodesMap(mem0, mem, p);
    SameSlots(mem0, mem, free0, p, first);
    forall f: nat | Owns(mem0, p, f) ensures f !in free0 {
      var s :| At(mem0, p, s) == f;
    }
  }

  lemma CopiedMore(mem0: Mem, p: nat, mem: Mem, free: set<nat>, mem': Mem, free': set<nat>, d: nat, first: nat,
          data: nat, k: nat, f: nat)
    requires p < NFRAMES && WfSpace(mem, free, d, first) && Grown(mem, free, mem', free', d) && k < UPAGES
    requires Copied(mem0, p, mem, d, data, k) && (forall v: nat :: v <= k ==> Entry(mem0, p, v) != 0)
    requires f < NFRAMES && FlagsOf(Entry(mem0, p, k)) < PGSIZE
             && Mapped(mem, mem', d, k, k + 1, f, FlagsOf(Entry(mem0, p, k)))
    requires FrameOf(Entry(mem0, p, k)) < NFRAMES && mem'[f] == mem0[FrameOf(Entry(mem0, p, k))]
    ensures Copied(mem0, p, mem', d, data, k + 1)
  {
    var w0 := Entry(mem0, p, k);
    EntryHasTable(mem0, p, k);
    PteOfParts(w0);
    PteParts(f, FlagsOf(w0));
    hide Entry, WfSpace, Grown, Pte, FlagsOf, FrameOf, KernelEntry, Present;
    forall v: nat | v < k + 1 ensures CopyOf(mem0, Entry(mem0, p, v), mem', Entry(mem', d, v)) {
      if v < k {
        assert CopyOf(mem0, Entry(mem0, p, v), mem, Entry(mem, d, v));
        assert Entry(mem, d, v) != 0 by { CopyNotZero(mem0, p, v, mem, Entry(mem, d, v)); }
        UserPageStays(mem, free, mem', free', d, first, v);
      }
    }
  }

  lemma CopyNotZero(mem0: Mem, p: nat, v: nat, mem: Mem, w: Word32)
    requires p < NFRAMES && Entry(mem0, p, v) != 0 && CopyOf(mem0, Entry(mem0, p, v), mem, w)
    ensures w != 0
  {
    EntryHasTable(mem0, p, v);
    PteOfParts(Entry(mem0, p, v));
  }

  lemma NothingCopied(mem0: Mem, p: nat, mem: Mem, d: nat, data: nat)
    requires p < NFRAMES && d < NFRAMES && forall v: nat :: Entry(mem, d, v) == KernelEntry(data, v)
    ensures Copied(mem0, p, mem, d, data, 0)
  {
    hide Entry, KernelEntry;
  }

  lemma NotCopiedYet(mem0: Mem, p: nat, mem: Mem, d: nat, data: nat, k: nat)
    requires p < NFRAMES && d < NFRAMES && Copied(mem0, p, mem, d, data, k) && k < UPAGES
    ensures Entry(mem, d, k) == 0
  {
    hide Entry;
  }

  lemma DividedIn(free0: set<nat>, mem: Mem, free: set<nat>, d: nat)
    requires d < NFRAMES && Divided(free0, mem, free, d)
    ensures free <= free0 && forall f: nat :: Owns(mem, d, f) ==> f in free0
  {}

  /** Freeing the whole child brings back the free frames of before. */
  lemma FreedAll(free0: set<nat>, mem0: Mem, mem1: Mem, free1: set<nat>, mem: Mem, free: set<nat>, d: nat)
    requires d < NFRAMES && Divided(free0, mem1, free1, d) && SameOutside(free0, mem0, mem1)
    requires forall f: nat :: f in free <==> f in free1 || Owns(mem1, d, f)
    requires forall f :: 0 <= f < NFRAMES && f !in free ==> mem[f] == mem1[f]
    ensures free == free0 && SameOutside(free0, mem0, mem)
  {
    hide Owns;
  }

  /** A page that was taken and not mapped is given back. */
  lemma CopyFails(free0: set<nat>, mem0: Mem, mem1: Mem, free1: set<nat>, mem: Mem, free: set<nat>, mem': Mem, d: nat,
          first: nat, f: nat)
    requires WfSpace(mem, free, d, first) && f in free1 && f !in free && Usable(first, f) && !Owns(mem, d, f)
    requires Divided(free0, mem1, free1, d) && SameOutside(free0, mem0, mem1) && Grown(mem1, free1, mem, free, d)
    requires Kept(mem1, free1, mem, free + {f}, d, {})
    requires forall g :: 0 <= g < NFRAMES && g != f ==> mem'[g] == mem[g]
    ensures WfSpace(mem', free + {f}, d, first) && Divided(free0, mem', free + {f}, d) && SameOutside(free0, mem0, mem')
  {
    SpaceDir(mem, free, d, first);
    LooseFreed(mem1, free1, mem, free, mem', d, first, f);
    KeptAgain(mem1, free1, mem, free + {f}, mem', free + {f}, d, {}, {}, {});
    assert free1 + {} == free1;
    DividedGrown(free0, mem0, mem1, free1, mem', free + {f}, d, {});
  }

  /** In a fresh address space n user pages take n frames and one table for each 1024 of them. */
  lemma UserNeeds(mem: Mem, d: nat, n: nat)
    requires d < NFRAMES && Tabs(mem, d) == KernelTabs() && n <= UPAGES
    ensures Needed(mem, d, 0, n) == n + (n + NENTRIES - 1) / NENTRIES
  {
    hide Interval, Table, Tabs;
    var x, count := TabsFor(0, n), (n + NENTRIES - 1) / NENTRIES;
    assert n > 0 ==> (n - 1) / NENTRIES + 1 == count && (n - 1) / NENTRIES < 512;
    assert x - KernelTabs() == x;
  }

  /** One round of copyuvm. */
  method CopyPage(m: Memory, p: nat, d: nat, i: Word32, ghost mem0: Mem, ghost free0: set<nat>, ghost data: nat)
    returns (done: bool)
    requires m.Valid() && WfSpace(m.mem, m.free, d, m.first) && WfSpace(mem0, free0, p, m.first)
    requires Divided(free0, m.mem, m.free, d) && SameOutside(free0, mem0, m.mem)
    requires i % PGSIZE == 0 && i < KERNBASE && Copied(mem0, p, m.mem, d, data, i / PGSIZE)
    requires forall v: nat :: v <= i / PGSIZE ==> Entry(mem0, p, v) != 0
    modifies m
    ensures m.Valid() && WfSpace(m.mem, m.free, d, m.first)
    ensures Divided(free0, m.mem, m.free, d) && SameOutside(free0, mem0, m.mem)
    ensures done ==> Copied(mem0, p, m.mem, d, data, i / PGSIZE + 1)
    ensures done ==> Spent(old(m.mem), old(m.free), m.mem, m.free, d, {i / PGSIZE / NENTRIES}, 1)
    ensures done <==> PageCost(old(m.mem), d, i / PGSIZE) <= |old(m.free)|
  {
    hide WfSpace, Grown, Kept, Owns, Entry, Table, Mapped, SameMap, Copied, KernelEntry, Divided, SameOutside, Paid,
         Spent, PageCost;
    ghost var k := i / PGSIZE;
    SpaceDir(mem0, free0, p, m.first);
    SpaceDir(m.mem, m.free, d, m.first);
    DividedIn(free0, m.mem, m.free, d);
    ParentEntry(mem0, free0, m.mem, m.free, p, m.first, i);
    NotCopiedYet(mem0, p, m.mem, d, data, k);
    ghost var mem1, free1 := m.mem, m.free;
    var t := Walkpgdir(m, p, i, false);
    AddressParts(i);
    var pte := m.mem[t][Ptx(i)];
    var f, ok := AddPage(m, d, i, m.mem[FrameOf(pte)], FlagsOf(pte));
    if f == 0 {
      return false;
    }
    if !ok {
      ghost var mem2, free2 := m.mem, m.free;
      m.Kfree(f);
      CopyFails(free0, mem0, mem1, free1, mem2, free2, m.mem, d, m.first, f);
      return false;
    }
    assert free1 + {} == free1;
    DividedGrown(free0, mem0, mem1, free1, m.mem, m.free, d, {});
    CopiedMore(mem0, p, mem1, free1, m.mem, m.free, d, m.first, data, k, f);
    return true;
  }

  /** The parent's entry for the page at va is in memory as it was at the start. */
  lemma ParentEntry(mem0: Mem, free0: set<nat>, mem: Mem, free: set<nat>, p: nat, first: nat, va: Word32)
    requires WfSpace(mem0, free0, p, first) && SameOutside(free0, mem0, mem) && free <= free0 && va < KERNBASE
    requires Entry(mem0, p, va / PGSIZE) != 0
    ensures WfSpace(mem, free, p, first)
    ensures var t := Table(mem, p, Pdx(va));
            && 0 < t < NFRAMES && mem[t][Ptx(va)] == Entry(mem0, p, va / PGSIZE) && Present(mem[t][Ptx(va)])
            && var f := FrameOf(Entry(mem0, p, va / PGSIZE));
            && f < NFRAMES && mem[f] == mem0[f]
  {
    var v := va / PGSIZE;
    AddressParts(va);
    Bystander(mem0, free0, mem, free, p, first);
    assert Entry(mem, p, v) == Entry(mem0, p, v);
    EntryHasTable(mem, p, v);
    UsableAt(mem0, free0, p, first, User(v));
    assert Owns(mem, p, At(mem, p, User(v)));
  }

  /**
    copyuvm(): the child has the parent's pages, flags and contents on frames of its own, or nothing is
    left behind and the free frames are exactly those of before.
   */
  method Copyuvm(m: Memory, p: nat, sz: Word32, data: nat) returns (d: nat)
    requires m.Valid() && WfSpace(m.mem, m.free, p, m.first) && WfData(data) && sz <= KERNBASE
    requires forall v: nat :: v < PageUp(sz) ==> Entry(m.mem, p, v) != 0
    modifies m
    ensures m.Valid() && SameOutside(old(m.free), old(m.mem), m.mem)
    ensures WfSpace(m.mem, m.free, p, m.first) && SameMap(old(m.mem), m.mem, p)
    ensures d == 0 <==> |old(m.free)| < KERNEL_FRAMES + PageUp(sz) + (PageUp(sz) + NENTRIES - 1) / NENTRIES
    ensures d == 0 ==> m.free == old(m.free)
    ensures d != 0 ==> WfSpace(m.mem, m.free, d, m.first) && Divided(old(m.free), m.mem, m.free, d)
    ensures d != 0 ==> Copied(old(m.mem), p, m.mem, d, data, PageUp(sz))
    ensures d != 0 ==> SameAccess(old(m.mem), p, m.mem, d, PageUp(sz))
    ensures d != 0 ==> forall f: nat :: !(Owns(m.mem, d, f) && Owns(m.mem, p, f))
  {
    hide WfSpace, Owns, Entry, Table, SameMap, Copied, KernelEntry, Divided, SameOutside, Spent, PageCost, Needed,
         TabsFor, KernelTabs, WfData, KernelView, SameAccess;
    SpaceDir(m.mem, m.free, p, m.first);
    d := Setupkvm(m, data);
    if d == 0 {
      Bystander(old(m.mem), old(m.free), m.mem, m.free, p, m.first);
      return;
    }
    SpaceDir(m.mem, m.free, d, m.first);
    NothingCopied(old(m.mem), p, m.mem, d, data);
    ghost var memS, freeS, n := m.mem, m.free, PageUp(sz);
    SpentNone(memS, freeS, d, 0);
    UserNeeds(memS, d, n);
    var i := 0;
    while i < sz
      invariant i % PGSIZE == 0 && i / PGSIZE <= PageUp(sz)
      invariant m.Valid() && WfSpace(m.mem, m.free, d, m.first)
      invariant Divided(old(m.free), m.mem, m.free, d) && SameOutside(old(m.free), old(m.mem), m.mem)
      invariant Copied(old(m.mem), p, m.mem, d, data, i / PGSIZE)
      invariant Spent(memS, freeS, m.mem, m.free, d, TabsFor(0, i / PGSIZE), i / PGSIZE)
      decreases sz - i
    {
      PageBounds(i, sz);
      ghost var k := i / PGSIZE;
      ghost var mem2, free2 := m.mem, m.free;
      var done := CopyPage(m, p, d, i, old(m.mem), old(m.free), data);
      if !done {
        SpentShort(memS, freeS, mem2, free2, d, 0, k, n);
        ghost var mem1, free1 := m.mem, m.free;
        Freevm(m, d);
        FreedAll(old(m.free), old(m.mem), mem1, free1, m.mem, m.free, d);
        Bystander(old(m.mem), old(m.free), m.mem, m.free, p, m.first);
        return 0;
      }
      SpentMore(memS, freeS, mem2, free2, m.mem, m.free, d, 0, k);
      i := i + PGSIZE;
    }
    SpentIs(memS, freeS, m.mem, m.free, d, 0, n);
    CopyUses(old(m.mem), old(m.free), p, m.mem, m.free, d, m.first, data, n);
    DividedIn(old(m.free), m.mem, m.free, d);
    Bystander(old(m.mem), old(m.free), m.mem, m.free, p, m.first);
  }

  /**
    A leak: a fresh address space, two frames left, and a request for two pages. The first page and its table
    take both frames; the second page fails, the first is given back, and the table stays.
   */
  method AllocLeaks(m: Memory, data: nat) returns (d: nat, sz: Word32)
    requires m.Valid() && WfData(data) && |m.free| == KERNEL_FRAMES + 2
    modifies m
    ensures m.Valid() && d != 0 && d < NFRAMES && sz == 0 && WfSpace(m.mem, m.free, d, m.first)
    ensures (forall v: nat :: Entry(m.mem, d, v) == KernelEntry(data, v)) && |m.free| == 1
  {
    hide WfSpace, Entry, Table, KernelEntry, WfData, Grown, Kept, SameMap, ZeroPages, Divided, SameOutside, Owns,
         Needed, Missing, FirstMissing, Tabs, KernelTabs;
    assert PageUp(0) == 0 && PageUp(2 * PGSIZE) == 2;
    hide PageUp;
    d := Setupkvm(m, data);
    SpaceDir(m.mem, m.free, d, m.first);
    forall v: nat | 0 <= v < 2 ensures Entry(m.mem, d, v) == 0 { NoKernelLow(data, v); }
    ghost var mem0 := m.mem;
    TwoPagesCost(m.mem, d);
    ghost var ok, k;
    sz, ok, k := Allocuvm(m, d, 0, 2 * PGSIZE);
    SameEntries(mem0, m.mem, d);
  }

  lemma NoKernelLow(data: nat, v: nat)
    requires v < UPAGES
    ensures KernelEntry(data, v) == 0
  {}

  lemma SameEntries(mem: Mem, mem': Mem, d: nat)
    requires d < NFRAMES && SameMap(mem, mem', d)
    ensures forall v: nat :: Entry(mem', d, v) == Entry(mem, d, v)
  {}

  /** In a fresh address space one page takes two frames and two pages take three. */
  lemma TwoPagesCost(mem: Mem, d: nat)
    requires d < NFRAMES && Tabs(mem, d) == KernelTabs()
    ensures Needed(mem, d, 0, 0) == 0 && Needed(mem, d, 0, 1) == 2 && Needed(mem, d, 0, 2) == 3
    ensures Missing(mem, d, 0, 0) == 0 && Missing(mem, d, 0, 1) == 1
  {
    UserNeeds(mem, d, 0);
    UserNeeds(mem, d, 1);
    UserNeeds(mem, d, 2);
    NeededIs(mem, d, 0, 0);
    NeededIs(mem, d, 0, 1);
    hide Needed, Missing;
  }
}
