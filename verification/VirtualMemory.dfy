/** The page table routines of vm.c over physical memory. A page directory is named by its frame. */
module VirtualMemory {
  import opened Blocks
  import opened Finite
  import opened Frames
  import opened Paging

  const TOP: nat := 0x1_0000_0000    // past the last virtual address

  function Pdx(va: Word32): (i: nat) { va / 0x40_0000 }

  function Ptx(va: Word32): (j: nat) { va / PGSIZE % NENTRIES }

  function PageUp(sz: nat): (v: nat) { (sz + PGSIZE - 1) / PGSIZE }

  lemma AddressParts(va: Word32)
    ensures Pdx(va) == va / PGSIZE / NENTRIES && Ptx(va) == va / PGSIZE % NENTRIES && va / PGSIZE < PAGES
    ensures Pdx(va) < NENTRIES
  {}

  /** walkpgdir(): the table that holds the entry for va, 0 when there is none and none can be made. */
  method Walkpgdir(m: Memory, d: nat, va: Word32, alloc: bool) returns (t: nat)
    requires m.Valid() && WfSpace(m.mem, m.free, d, m.first)
    modifies m
    ensures m.Valid() && WfSpace(m.mem, m.free, d, m.first) && SameMap(old(m.mem), m.mem, d)
    ensures t == Table(m.mem, d, va / PGSIZE / NENTRIES) && t < NFRAMES && t !in m.free
    ensures t == 0 <==> Table(old(m.mem), d, va / PGSIZE / NENTRIES) == 0 && (!alloc || old(m.free) == {})
    ensures t == 0 || !alloc ==> m.mem == old(m.mem) && m.free == old(m.free)
    ensures Grown(old(m.mem), old(m.free), m.mem, m.free, d) && Kept(old(m.mem), old(m.free), m.mem, m.free, d, {})
    ensures Paid(old(m.mem), old(m.free), m.mem, m.free, d, if t == 0 then {} else {va / PGSIZE / NENTRIES})
    ensures AsMapped(m.mem, d)
  {
    hide WfSpace, Grown, Kept, SameMap, Paid, AsMapped;
    HardwareAgrees(m.mem, m.free, d, m.first);
    AddressParts(va);
    assert d < NFRAMES by { SpaceDir(m.mem, m.free, d, m.first); }
    SameStep(m.mem, m.free, d);
    UsableAt(m.mem, m.free, d, m.first, Tab(Pdx(va)));
    SpaceDir(m.mem, m.free, d, m.first);
    PaidSame(m.mem, m.mem, m.free, d, {});
    if Table(m.mem, d, Pdx(va)) != 0 { PaidSame(m.mem, m.mem, m.free, d, {Pdx(va)}); }
    var pde := m.mem[d][Pdx(va)];
    if Present(pde) {
      return FrameOf(pde);
    }
    if !alloc {
      return 0;
    }
    t := m.Kalloc();
    if t == 0 {
      return;
    }
    PteParts(t, PTE_P + PTE_W + PTE_U);
    TableStep(m.mem, old(m.free), d, m.first, Pdx(va), t, Pte(t, PTE_P + PTE_W + PTE_U));
    m.Put(t, Filled(0));
    m.Put(d, m.mem[d][Pdx(va) := Pte(t, PTE_P + PTE_W + PTE_U)]);
    HardwareAgrees(m.mem, m.free, d, m.first);
  }

  lemma SpaceDir(mem: Mem, free: set<nat>, d: nat, first: nat)
    requires WfSpace(mem, free, d, first)
    ensures Usable(first, d) && d !in free && 0 !in free && forall f :: f in free ==> Usable(first, f)
  {
    assert Held(mem, d, Dir) && At(mem, d, Dir) == d;
  }

  lemma SameStep(mem: Mem, free: set<nat>, d: nat)
    requires d < NFRAMES
    ensures SameMap(mem, mem, d) && Grown(mem, free, mem, free, d) && Kept(mem, free, mem, free, d, {})
  {}

  // ---- mappages ----

  /** What mapping page v to frame f demands: v is not mapped, and a user page takes a frame of nobody's. */
  ghost predicate Mappable(mem: Mem, free: set<nat>, d: nat, first: nat, v: nat, f: nat)
    requires d < NFRAMES
  {
    Entry(mem, d, v) == 0 && (v < UPAGES ==> Usable(first, f) && f !in free && !Owns(mem, d, f))
  }

  /** The same for the pages from lo to hi and the frames from p0 on. */
  ghost predicate AllMappable(mem: Mem, free: set<nat>, d: nat, first: nat, lo: nat, hi: nat, p0: nat)
    requires d < NFRAMES
  {
    forall v: nat :: lo <= v <= hi ==> MappableTo(mem, free, d, first, lo, p0, v)
  }

  ghost predicate MappableTo(mem: Mem, free: set<nat>, d: nat, first: nat, lo: nat, p0: nat, v: nat)
    requires d < NFRAMES
  {
    lo <= v && Mappable(mem, free, d, first, v, p0 + (v - lo))
  }

  /** The pages from lo up to k map to the frames from p0 on; the others are as they were. */
  ghost predicate Mapped(mem: Mem, mem': Mem, d: nat, lo: nat, k: nat, p0: nat, perm: nat)
    requires d < NFRAMES && perm < PGSIZE && lo <= k <= PAGES && p0 + (k - lo) <= PAGES
  {
    forall v: nat :: Entry(mem', d, v) == if lo <= v < k then Pte(p0 + (v - lo), WithP(perm)) else Entry(mem, d, v)
  }

  /** The frames that user pages got. */
  ghost function UserFrames(lo: nat, k: nat, p0: nat): (r: set<nat>)
    requires lo <= k
  {
    Interval(p0, if k <= UPAGES then k - lo else if lo < UPAGES then UPAGES - lo else 0)
  }

  /** One round of mappages. */
  method MapPage(m: Memory, d: nat, a: Word32, pa: Word32, perm: nat) returns (ok: bool)
    requires m.Valid() && WfSpace(m.mem, m.free, d, m.first) && pa % PGSIZE == 0 && perm < PGSIZE
    requires Mappable(m.mem, m.free, d, m.first, a / PGSIZE, pa / PGSIZE)
    modifies m
    ensures m.Valid() && WfSpace(m.mem, m.free, d, m.first)
    ensures Grown(old(m.mem), old(m.free), m.mem, m.free, d)
    ensures ok ==> forall v: nat :: Entry(m.mem, d, v) == if v == a / PGSIZE then Pte(pa / PGSIZE, WithP(perm))
            else Entry(old(m.mem), d, v)
    ensures ok ==> Kept(old(m.mem), old(m.free), m.mem, m.free, d, if a / PGSIZE < UPAGES then {pa / PGSIZE} else {})
    ensures ok <==> Table(old(m.mem), d, a / PGSIZE / NENTRIES) != 0 || old(m.free) != {}
    ensures !ok ==> m.mem == old(m.mem) && m.free == old(m.free) == {}
    ensures Paid(old(m.mem), old(m.free), m.mem, m.free, d, if ok then {a / PGSIZE / NENTRIES} else {})
  {
    hide WfSpace, Grown, Kept, Owns, Entry, Table, Paid;
    AddressParts(a);
    assert d < NFRAMES by { SpaceDir(m.mem, m.free, d, m.first); }
    ghost var v, f := a / PGSIZE, pa / PGSIZE;
    var t := Walkpgdir(m, d, a, true);
    if t == 0 {
      return false;
    }
    StillLoose(old(m.mem), old(m.free), m.mem, m.free, d, f);
    ghost var mem1 := m.mem;
    MapStep(m.mem, m.free, d, m.first, v, f, WithP(perm));
    PteParts(f, WithP(perm));
    StorePte(m.mem, m.free, d, m.first, v, Pte(f, WithP(perm)));
    m.Put(t, m.mem[t][Ptx(a) := pa + WithP(perm)]);
    PaidStill(old(m.mem), old(m.free), mem1, m.free, m.mem, d, {v / NENTRIES});
    GrownAgain(old(m.mem), old(m.free), mem1, m.free, m.mem, m.free, d);
    ghost var x := if v < UPAGES then {f} else {};
    KeptAgain(old(m.mem), old(m.free), mem1, m.free, m.mem, m.free, d, {}, x, x);
    return true;
  }

  lemma StillLoose(mem: Mem, free: set<nat>, mem': Mem, free': set<nat>, d: nat, f: nat)
    requires d < NFRAMES && Kept(mem, free, mem', free', d, {})
    ensures f !in free && !Owns(mem, d, f) ==> f !in free' && !Owns(mem', d, f)
  {
    hide Owns;
  }

  lemma KeptAgain(mem: Mem, free: set<nat>, mem': Mem, free': set<nat>, mem'': Mem, free'': set<nat>, d: nat,
                  x: set<nat>, y: set<nat>, z: set<nat>)
    requires d < NFRAMES && z == x + y && Kept(mem, free, mem', free', d, x) && Kept(mem', free', mem'', free'', d, y)
    ensures Kept(mem, free, mem'', free'', d, z)
  {
    hide Owns;
  }

  /** mappages(): k is the first page that was not mapped. */
  method Mappages(m: Memory, d: nat, va: Word32, size: Word32, pa: Word32, perm: nat) returns (ok: bool, ghost k: nat)
    requires m.Valid() && WfSpace(m.mem, m.free, d, m.first)
    requires 1 <= size && va + size <= TOP && pa % PGSIZE == 0 && perm < PGSIZE
    requires pa / PGSIZE + (va + size - 1) / PGSIZE - va / PGSIZE < PAGES
    requires AllMappable(m.mem, m.free, d, m.first, va / PGSIZE, (va + size - 1) / PGSIZE, pa / PGSIZE)
    modifies m
    ensures m.Valid() && WfSpace(m.mem, m.free, d, m.first)
    ensures va / PGSIZE <= k <= (va + size - 1) / PGSIZE + 1
    ensures ok <==> k == (va + size - 1) / PGSIZE + 1
    ensures Mapped(old(m.mem), m.mem, d, va / PGSIZE, k, pa / PGSIZE, perm)
    ensures Grown(old(m.mem), old(m.free), m.mem, m.free, d)
    ensures Kept(old(m.mem), old(m.free), m.mem, m.free, d, UserFrames(va / PGSIZE, k, pa / PGSIZE))
    ensures !ok ==> m.free == {} && Table(m.mem, d, k / NENTRIES) == 0
    ensures Paid(old(m.mem), old(m.free), m.mem, m.free, d, TabsFor(va / PGSIZE, k))
    ensures ok <==> Missing(old(m.mem), d, va / PGSIZE, (va + size - 1) / PGSIZE + 1) <= |old(m.free)|
    ensures AsMapped(m.mem, d)
  {
    hide AsMapped, WfSpace, Grown, Kept, Owns, Entry, Table, Mapped, UserFrames, Mappable, AllMappable, Paid, TabsFor,
         Missing;
    assert d < NFRAMES by { SpaceDir(m.mem, m.free, d, m.first); }
    var a := va / PGSIZE * PGSIZE;
    var last := (va + size - 1) % TOP / PGSIZE * PGSIZE;
    var p := pa;
    ghost var lo, hi, p0 := va / PGSIZE, (va + size - 1) / PGSIZE, pa / PGSIZE;
    k := lo;
    SameStep(m.mem, m.free, d);
    NoneMapped(m.mem, m.free, d, lo, p0, perm);
    PaidStart(m.mem, m.free, d, lo);
    while true
      invariant m.Valid() && WfSpace(m.mem, m.free, d, m.first)
      invariant lo <= k <= hi && a == PGSIZE * k && p == PGSIZE * (p0 + (k - lo))
      invariant Mapped(old(m.mem), m.mem, d, lo, k, p0, perm) && Grown(old(m.mem), old(m.free), m.mem, m.free, d)
      invariant Kept(old(m.mem), old(m.free), m.mem, m.free, d, UserFrames(lo, k, p0))
      invariant Paid(old(m.mem), old(m.free), m.mem, m.free, d, TabsFor(lo, k))
      decreases hi - k
    {
      MappableLater(old(m.mem), old(m.free), m.mem, m.free, d, m.first, lo, k, hi, p0, perm);
      ghost var mem1, free1 := m.mem, m.free;
      var done := MapPage(m, d, a, p, perm);
      if !done {
        TabsShort(old(m.mem), old(m.free), m.mem, m.free, d, lo, k, hi);
        HardwareAgrees(m.mem, m.free, d, m.first);
        return false, k;
      }
      TabsForMore(lo, k);
      PaidAgain(old(m.mem), old(m.free), mem1, free1, m.mem, m.free, d, TabsFor(lo, k), {k / NENTRIES},
          TabsFor(lo, k + 1));
      MappedMore(old(m.mem), old(m.free), mem1, free1, m.mem, m.free, d, lo, k, p0, perm);
      k := k + 1;
      if a == last {
        TabsEnough(old(m.mem), old(m.free), m.mem, m.free, d, lo, k);
        HardwareAgrees(m.mem, m.free, d, m.first);
        return true, k;
      }
      a := a + PGSIZE;
      p := p + PGSIZE;
    }
  }

  /** How many page tables the pages from lo up to k still lack. */
  ghost function Missing(mem: Mem, d: nat, lo: nat, k: nat): (n: nat)
    requires d < NFRAMES
  {
    |TabsFor(lo, k) - Tabs(mem, d)|
  }

  lemma PaidStart(mem: Mem, free: set<nat>, d: nat, lo: nat)
    requires d < NFRAMES
    ensures Paid(mem, free, mem, free, d, TabsFor(lo, lo))
  {
    PaidSame(mem, mem, free, d, {});
  }

  lemma TabsEnough(mem: Mem, free: set<nat>, mem': Mem, free': set<nat>, d: nat, lo: nat, k: nat)
    requires d < NFRAMES && Paid(mem, free, mem', free', d, TabsFor(lo, k))
    ensures |free'| + Missing(mem, d, lo, k) == |free|
  {
    hide TabsFor;
    var t0, r := Tabs(mem, d), TabsFor(lo, k);
    assert t0 + r == t0 + (r - t0);
  }

  /** A directory entry still missing with no frame left: more tables are needed than there were frames. */
  lemma TabsShort(mem: Mem, free: set<nat>, mem': Mem, free': set<nat>, d: nat, lo: nat, k: nat, hi: nat)
    requires d < NFRAMES && lo <= k <= hi < PAGES && Paid(mem, free, mem', free', d, TabsFor(lo, k))
    requires Table(mem', d, k / NENTRIES) == 0
    ensures Missing(mem, d, lo, hi + 1) > |free| - |free'|
  {
    TabsEnough(mem, free, mem', free', d, lo, k);
    var t0, r, full := Tabs(mem, d), TabsFor(lo, k), TabsFor(lo, hi + 1);
    assert k / NENTRIES !in Tabs(mem', d);
    assert k / NENTRIES in full - t0;
    assert k > lo ==> (k - 1) / NENTRIES <= hi / NENTRIES;
    assert r - t0 <= (full - t0) - {k / NENTRIES};
    SubsetCard(r - t0, (full - t0) - {k / NENTRIES});
  }

  lemma NoneMapped(mem: Mem, free: set<nat>, d: nat, lo: nat, p0: nat, perm: nat)
    requires d < NFRAMES && perm < PGSIZE && lo <= PAGES && p0 <= PAGES
    ensures Mapped(mem, mem, d, lo, lo, p0, perm) && Kept(mem, free, mem, free, d, UserFrames(lo, lo, p0))
  {}

  /** The next page is still mappable. */
  lemma MappableLater(mem: Mem, free: set<nat>, mem': Mem, free': set<nat>, d: nat, first: nat, lo: nat, k: nat,
          hi: nat, p0: nat, perm: nat)
    requires d < NFRAMES && perm < PGSIZE && lo <= k <= PAGES && p0 + (k - lo) <= PAGES
    requires Mapped(mem, mem', d, lo, k, p0, perm) && Kept(mem, free, mem', free', d, UserFrames(lo, k, p0))
    requires AllMappable(mem, free, d, first, lo, hi, p0) && k <= hi
    ensures Mappable(mem', free', d, first, k, p0 + (k - lo))
  {
    hide Owns, Entry;
    assert MappableTo(mem, free, d, first, lo, p0, k);
    var f := p0 + (k - lo);
    assert Owns(mem', d, f) || f in free' <==> Owns(mem, d, f) || f in free || f in UserFrames(lo, k, p0);
  }

  lemma MappedMore(mem: Mem, free: set<nat>, mem1: Mem, free1: set<nat>, mem': Mem, free': set<nat>, d: nat,
                   lo: nat, k: nat, p0: nat, perm: nat)
    requires d < NFRAMES && perm < PGSIZE && lo <= k < PAGES && p0 + (k - lo) < PAGES
    requires Mapped(mem, mem1, d, lo, k, p0, perm) && Kept(mem, free, mem1, free1, d, UserFrames(lo, k, p0))
    requires Grown(mem, free, mem1, free1, d) && Grown(mem1, free1, mem', free', d)
    requires Kept(mem1, free1, mem', free', d, if k < UPAGES then {p0 + (k - lo)} else {})
    requires forall v: nat :: Entry(mem', d, v) == if v == k then Pte(p0 + (k - lo), WithP(perm)) else Entry(mem1, d, v)
    ensures Mapped(mem, mem', d, lo, k + 1, p0, perm) && Grown(mem, free, mem', free', d)
    ensures Kept(mem, free, mem', free', d, UserFrames(lo, k + 1, p0))
  {
    hide Entry, Grown, Kept;
    GrownAgain(mem, free, mem1, free1, mem', free', d);
    var x := if k < UPAGES then {p0 + (k - lo)} else {};
    KeptAgain(mem, free, mem1, free1, mem', free', d, UserFrames(lo, k, p0), x, UserFrames(lo, k + 1, p0));
  }

  // ---- deallocuvm ----

  /** The pages from lo up to k are unmapped, their frames free, and everything else is as it was. */
  ghost predicate Released(mem: Mem, free: set<nat>, mem': Mem, free': set<nat>, d: nat, lo: nat, k: nat)
    requires d < NFRAMES
  {
    && (forall v: nat :: Entry(mem', d, v) == if lo <= v < k then 0 else Entry(mem, d, v))
    && (forall i: nat :: Table(mem', d, i) == Table(mem, d, i))
    && (forall f: nat :: f in free' <==> f in free || FreedBy(mem, d, lo, k, f))
    && forall f :: 0 <= f < NFRAMES && f !in free' && !Node(mem, d, f) ==> mem'[f] == mem[f]
  }

  lemma ReleasedNone(mem: Mem, free: set<nat>, d: nat, lo: nat)
    requires d < NFRAMES
    ensures Released(mem, free, mem, free, d, lo, lo)
  {}

  /** Pages that are not mapped can be skipped. */
  lemma ReleasedSkip(mem: Mem, free: set<nat>, mem': Mem, free': set<nat>, d: nat, lo: nat, k: nat, e: nat)
    requires d < NFRAMES && Released(mem, free, mem', free', d, lo, k) && lo <= k <= e
    requires forall v: nat :: k <= v < e ==> Entry(mem', d, v) == 0
    ensures Released(mem, free, mem', free', d, lo, e)
  {
    hide Entry, Table, Node;
    forall f: nat | FreedBy(mem, d, lo, e, f) ensures FreedBy(mem, d, lo, k, f) {
      var v: nat :| lo <= v < e && At(mem, d, User(v)) == f;
      assert v < k && At(mem, d, User(v)) == f;
    }
    forall f: nat | FreedBy(mem, d, lo, k, f) ensures FreedBy(mem, d, lo, e, f) {
      var v: nat :| lo <= v < k && At(mem, d, User(v)) == f;
      assert v < e && At(mem, d, User(v)) == f;
    }
  }

  lemma FreedMore(mem: Mem, d: nat, lo: nat, k: nat, f: nat)
    requires d < NFRAMES && lo <= k
    ensures FreedBy(mem, d, lo, k + 1, f) <==> FreedBy(mem, d, lo, k, f) || (f != 0 && f == At(mem, d, User(k)))
  {
    hide At;
  }

  lemma ReleasedMore(mem: Mem, free: set<nat>, mem1: Mem, free1: set<nat>, mem': Mem, free': set<nat>, d: nat,
          first: nat, lo: nat, k: nat)
    requires WfSpace(mem1, free1, d, first) && Released(mem, free, mem1, free1, d, lo, k) && lo <= k < UPAGES
             && Entry(mem1, d, k) != 0
    requires free' == free1 + {At(mem1, d, User(k))}
    requires forall v: nat :: Entry(mem', d, v) == if v == k then 0 else Entry(mem1, d, v)
    requires forall i: nat :: Table(mem', d, i) == Table(mem1, d, i)
    requires forall f :: 0 <= f < NFRAMES && f != At(mem1, d, User(k)) && f != Table(mem1, d, k / NENTRIES) ==>
             mem'[f] == mem1[f]
    ensures Released(mem, free, mem', free', d, lo, k + 1)
  {
    EntryHasTable(mem1, d, k);
    UsableAt(mem1, free1, d, first, User(k));
    hide Entry, Table, WfSpace, FreedBy;
    assert At(mem1, d, User(k)) == At(mem, d, User(k));
    forall f: nat ensures f in free' <==> f in free || FreedBy(mem, d, lo, k + 1, f) { FreedMore(mem, d, lo, k, f); }
    var t := Table(mem1, d, k / NENTRIES);
    assert Table(mem, d, k / NENTRIES) == t;
  }

  /** How many of the pages from lo up to k are mapped. */
  ghost function MappedCount(mem: Mem, d: nat, lo: nat, k: nat): (n: nat)
    requires d < NFRAMES
  {
    if k <= lo then 0 else MappedCount(mem, d, lo, k - 1) + if Entry(mem, d, k - 1) == 0 then 0 else 1
  }

  lemma {:induction false} CountSkip(mem: Mem, d: nat, lo: nat, k: nat, e: nat)
    requires d < NFRAMES && lo <= k <= e && forall v: nat :: k <= v < e ==> Entry(mem, d, v) == 0
    ensures MappedCount(mem, d, lo, e) == MappedCount(mem, d, lo, k)
    decreases e
  {
    hide Entry;
    if k < e { CountSkip(mem, d, lo, k, e - 1); }
  }

  lemma {:induction false} CountAll(mem: Mem, d: nat, lo: nat, k: nat)
    requires d < NFRAMES && lo <= k && forall v: nat :: lo <= v < k ==> Entry(mem, d, v) != 0
    ensures MappedCount(mem, d, lo, k) == k - lo
    decreases k
  {
    hide Entry;
    if lo < k { CountAll(mem, d, lo, k - 1); }
  }

  /** Skipped pages were not mapped to begin with. */
  lemma SkipCounts(mem: Mem, free: set<nat>, mem': Mem, free': set<nat>, d: nat, lo: nat, k: nat, e: nat)
    requires d < NFRAMES && Released(mem, free, mem', free', d, lo, k) && lo <= k <= e
    requires forall v: nat :: k <= v < e ==> Entry(mem', d, v) == 0
    ensures MappedCount(mem, d, lo, e) == MappedCount(mem, d, lo, k)
  {
    hide Entry, Table, FreedBy, Node;
    forall v: nat | k <= v < e ensures Entry(mem, d, v) == 0 { assert Entry(mem', d, v) == Entry(mem, d, v); }
    CountSkip(mem, d, lo, k, e);
  }

  lemma UnmapCounts(mem: Mem, free: set<nat>, mem': Mem, free': set<nat>, d: nat, first: nat, lo: nat, k: nat)
    requires d < NFRAMES && Released(mem, free, mem', free', d, lo, k) && lo <= k < UPAGES
    requires WfSpace(mem', free', d, first) && Entry(mem', d, k) != 0
    ensures MappedCount(mem, d, lo, k + 1) == MappedCount(mem, d, lo, k) + 1 && At(mem', d, User(k)) !in free'
  {
    UsableAt(mem', free', d, first, User(k));
    hide Entry, Table, FreedBy, Node;
    assert Entry(mem', d, k) == Entry(mem, d, k);
  }

  /** One mapped page of deallocuvm. */
  method Unmap(m: Memory, d: nat, a: Word32, t: nat)
    requires m.Valid() && WfSpace(m.mem, m.free, d, m.first) && a / PGSIZE < UPAGES
    requires t == Table(m.mem, d, a / PGSIZE / NENTRIES) && Entry(m.mem, d, a / PGSIZE) != 0
    modifies m
    ensures m.Valid() && WfSpace(m.mem, m.free, d, m.first)
    ensures m.free == old(m.free) + {At(old(m.mem), d, User(a / PGSIZE))}
    ensures forall v: nat :: Entry(m.mem, d, v) == if v == a / PGSIZE then 0 else Entry(old(m.mem), d, v)
    ensures forall i: nat :: Table(m.mem, d, i) == Table(old(m.mem), d, i)
    ensures forall f :: 0 <= f < NFRAMES && f != At(old(m.mem), d, User(a / PGSIZE)) && f != t ==>
            m.mem[f] == old(m.mem)[f]
    ensures Kept(old(m.mem), old(m.free), m.mem, m.free, d, {})
  {
    hide WfSpace, Kept, Owns, Entry, Table;
    ghost var v := a / PGSIZE;
    AddressParts(a);
    SpaceDir(m.mem, m.free, d, m.first);
    EntryHasTable(m.mem, d, v);
    UnmapStep(m.mem, m.mem, m.free, d, m.first, v);
    var pte := m.mem[t][Ptx(a)];
    m.Kfree(FrameOf(pte));
    UnmapStep(old(m.mem), m.mem, old(m.free), d, m.first, v);
    m.Put(t, m.mem[t][Ptx(a) := 0]);
  }

  /** The addresses deallocuvm goes on with: the next page, or the first page of the next table. */
  lemma NextAddresses(a: Word32)
    requires a % PGSIZE == 0 && a / PGSIZE < UPAGES
    ensures a + PGSIZE <= KERNBASE && (a + PGSIZE) % PGSIZE == 0 && (a + PGSIZE) / PGSIZE == a / PGSIZE + 1
    ensures var b := (Pdx(a) + 1) * 0x40_0000;
            a < b <= KERNBASE && b % PGSIZE == 0 && b / PGSIZE == (a / PGSIZE / NENTRIES + 1) * NENTRIES
  {
    var k := a / PGSIZE;
    AddressParts(a);
    PageAddress(k + 1);
    PageAddress((k / NENTRIES + 1) * NENTRIES);
    assert a == PGSIZE * k;
  }

  lemma PageAddress(v: nat)
    ensures PGSIZE * v % PGSIZE == 0 && PGSIZE * v / PGSIZE == v
  {}

  /** One round of deallocuvm: a mapped page is given up, an unmapped page or a whole missing table is skipped. */
  method ReleasePage(m: Memory, d: nat, a: Word32, ghost mem0: Mem, ghost free0: set<nat>, ghost lo: nat, ghost hi: nat)
    returns (next: Word32)
    requires m.Valid() && WfSpace(m.mem, m.free, d, m.first) && a % PGSIZE == 0
    requires lo <= a / PGSIZE < hi <= UPAGES && Released(mem0, free0, m.mem, m.free, d, lo, a / PGSIZE)
    requires |m.free| == |free0| + MappedCount(mem0, d, lo, a / PGSIZE)
    modifies m
    ensures m.Valid() && WfSpace(m.mem, m.free, d, m.first) && Kept(old(m.mem), old(m.free), m.mem, m.free, d, {})
    ensures next % PGSIZE == 0 && a < next <= KERNBASE
    ensures Released(mem0, free0, m.mem, m.free, d, lo, Min(next / PGSIZE, hi))
    ensures |m.free| == |free0| + MappedCount(mem0, d, lo, Min(next / PGSIZE, hi))
  {
    hide WfSpace, Kept, Owns, Entry, Table, Released, Paid, Grown, MappedCount, AsMapped, SameMap;
    ghost var k := a / PGSIZE;
    ghost var e := k + 1;
    next := a;
    AddressParts(a);
    NextAddresses(a);
    SpaceDir(m.mem, m.free, d, m.first);
    hide Pdx, Ptx, Present;
    var t := Walkpgdir(m, d, a, false);
    EntryIs(m.mem, m.free, d, m.first, k);
    if t == 0 {
      next := (Pdx(a) + 1) * 0x40_0000 - PGSIZE;
      NoTable(m.mem, d, k);
      e := Min((k / NENTRIES + 1) * NENTRIES, hi);
      ReleasedSkip(mem0, free0, m.mem, m.free, d, lo, k, e);
      SkipCounts(mem0, free0, m.mem, m.free, d, lo, k, e);
    } else if Present(m.mem[t][Ptx(a)]) {
      ghost var mem1, free1 := m.mem, m.free;
      UnmapCounts(mem0, free0, m.mem, m.free, d, m.first, lo, k);
      Unmap(m, d, a, t);
      ReleasedMore(mem0, free0, mem1, free1, m.mem, m.free, d, m.first, lo, k);
    } else {
      ReleasedSkip(mem0, free0, m.mem, m.free, d, lo, k, k + 1);
      SkipCounts(mem0, free0, m.mem, m.free, d, lo, k, k + 1);
    }
    next := next + PGSIZE;
    assert Min(next / PGSIZE, hi) == e;
  }

  method Deallocuvm(m: Memory, d: nat, oldsz: Word32, newsz: Word32) returns (sz: Word32)
    requires m.Valid() && WfSpace(m.mem, m.free, d, m.first) && oldsz <= KERNBASE
    modifies m
    ensures m.Valid() && WfSpace(m.mem, m.free, d, m.first)
    ensures sz == if newsz >= oldsz then oldsz else newsz
    ensures newsz >= oldsz ==> m.mem == old(m.mem) && m.free == old(m.free)
    ensures newsz < oldsz ==> Released(old(m.mem), old(m.free), m.mem, m.free, d, PageUp(newsz), PageUp(oldsz))
    ensures newsz < oldsz ==>
              |m.free| == |old(m.free)| + MappedCount(old(m.mem), d, PageUp(newsz), PageUp(oldsz))
    ensures Kept(old(m.mem), old(m.free), m.mem, m.free, d, {})
  {
    hide WfSpace, Kept, Owns, Entry, Table, Released;
    SpaceDir(m.mem, m.free, d, m.first);
    SameStep(m.mem, m.free, d);
    if newsz >= oldsz {
      return oldsz;
    }
    var a := (newsz + PGSIZE - 1) / PGSIZE * PGSIZE;
    ghost var lo, hi := PageUp(newsz), PageUp(oldsz);
    ReleasedNone(m.mem, m.free, d, lo);
    while a < oldsz
      invariant a % PGSIZE == 0 && a <= KERNBASE && lo <= a / PGSIZE
      invariant m.Valid() && WfSpace(m.mem, m.free, d, m.first) && Kept(old(m.mem), old(m.free), m.mem, m.free, d, {})
      invariant Released(old(m.mem), old(m.free), m.mem, m.free, d, lo, Min(a / PGSIZE, hi))
      invariant |m.free| == |old(m.free)| + MappedCount(old(m.mem), d, lo, Min(a / PGSIZE, hi))
      decreases KERNBASE - a
    {
      PageBounds(a, oldsz);
      ghost var mem1, free1 := m.mem, m.free;
      a := ReleasePage(m, d, a, old(m.mem), old(m.free), lo, hi);
      KeptAgain(old(m.mem), old(m.free), mem1, free1, m.mem, m.free, d, {}, {}, {});
    }
    return newsz;
  }

  function Min(a: nat, b: nat): (r: nat) { if a <= b then a else b }

  lemma PageBounds(a: Word32, sz: nat)
    requires a % PGSIZE == 0 && a < sz <= KERNBASE
    ensures a / PGSIZE < PageUp(sz) <= UPAGES && a == PGSIZE * (a / PGSIZE)
  {}

  lemma EntryIs(mem: Mem, free: set<nat>, d: nat, first: nat, v: nat)
    requires WfSpace(mem, free, d, first) && v < PAGES
    ensures var t := Table(mem, d, v / NENTRIES);
            && t < NFRAMES && (t == 0 ==> Entry(mem, d, v) == 0)
            && (t != 0 ==> (Entry(mem, d, v) != 0 <==> Present(mem[t][v % NENTRIES])))
  {
    UsableAt(mem, free, d, first, Tab(v / NENTRIES));
  }

  lemma NoTable(mem: Mem, d: nat, k: nat)
    requires d < NFRAMES && Table(mem, d, k / NENTRIES) == 0
    ensures forall v: nat :: k <= v < (k / NENTRIES + 1) * NENTRIES ==> Entry(mem, d, v) == 0
  {
    forall v: nat | k <= v < (k / NENTRIES + 1) * NENTRIES ensures Entry(mem, d, v) == 0 {
      assert v / NENTRIES == k / NENTRIES;
    }
  }

  // ---- freevm ----

  /** Frame f is the table of a directory entry below i. */
  ghost predicate TableBelow(mem: Mem, d: nat, i: nat, f: nat)
    requires d < NFRAMES
  {
    f != 0 && exists j: nat :: j < i && Table(mem, d, j) == f
  }

  /** With no user page mapped, an address space owns its directory and its tables. */
  lemma OwnsNodes(mem: Mem, d: nat, f: nat)
    requires 0 < d < NFRAMES && forall v: nat :: v < UPAGES ==> Entry(mem, d, v) == 0
    ensures Owns(mem, d, f) <==> f == d || TableBelow(mem, d, NENTRIES, f)
  {
    hide Entry;
    if f == d { assert At(mem, d, Dir) == f; }
    if TableBelow(mem, d, NENTRIES, f) {
      var j: nat :| j < NENTRIES && Table(mem, d, j) == f;
      assert At(mem, d, Tab(j)) == f;
    }
    if Owns(mem, d, f) {
      var s :| At(mem, d, s) == f;
      match s
      case Dir =>
      case Tab(i) => assert Table(mem, d, i) == f;
      case User(v) => assert false;
    }
  }

  lemma NoneBelow(mem: Mem, d: nat)
    requires d < NFRAMES
    ensures forall f: nat :: !TableBelow(mem, d, 0, f)
  {}

  lemma TableBelowMore(mem: Mem, d: nat, i: nat, f: nat)
    requires d < NFRAMES
    ensures TableBelow(mem, d, i + 1, f) <==> TableBelow(mem, d, i, f) || (f != 0 && f == Table(mem, d, i))
  {
    hide Table;
  }

  /** The table of entry i is usable and is neither the directory nor an earlier table. */
  lemma TableApart(mem: Mem, free: set<nat>, d: nat, first: nat, i: nat)
    requires WfSpace(mem, free, d, first) && Table(mem, d, i) != 0
    ensures Usable(first, Table(mem, d, i)) && Table(mem, d, i) !in free && Table(mem, d, i) != d
    ensures !TableBelow(mem, d, i, Table(mem, d, i))
  {
    UsableAt(mem, free, d, first, Tab(i));
    assert At(mem, d, Tab(i)) != At(mem, d, Dir);
    forall j: nat | j < i ensures Table(mem, d, j) != Table(mem, d, i) {
      assert At(mem, d, Tab(i)) != At(mem, d, Tab(j));
    }
  }

  /** The loop over the directory that frees the tables. */
  method FreeTables(m: Memory, d: nat)
    requires m.Valid() && WfSpace(m.mem, m.free, d, m.first)
    modifies m
    ensures m.Valid() && d !in m.free
    ensures forall f: nat :: f in m.free <==> f in old(m.free) || TableBelow(old(m.mem), d, NENTRIES, f)
    ensures forall f :: 0 <= f < NFRAMES && f !in m.free ==> m.mem[f] == old(m.mem)[f]
  {
    hide WfSpace, TableBelow;
    SpaceDir(m.mem, m.free, d, m.first);
    NoneBelow(m.mem, d);
    for i := 0 to NENTRIES
      invariant m.Valid() && d !in m.free
      invariant forall f: nat :: f in m.free <==> f in old(m.free) || TableBelow(old(m.mem), d, i, f)
      invariant forall f :: 0 <= f < NFRAMES && f !in m.free ==> m.mem[f] == old(m.mem)[f]
    {
      forall f: nat
        ensures TableBelow(old(m.mem), d, i + 1, f) <==>
                TableBelow(old(m.mem), d, i, f) || (f != 0 && f == Table(old(m.mem), d, i))
      {
        TableBelowMore(old(m.mem), d, i, f);
      }
      UsableAt(old(m.mem), old(m.free), d, m.first, Tab(i));
      if Present(m.mem[d][i]) {
        TableApart(old(m.mem), old(m.free), d, m.first, i);
        m.Kfree(FrameOf(m.mem[d][i]));
      }
    }
  }

  /** freevm(): exactly the frames of the address space become free. */
  method Freevm(m: Memory, d: nat)
    requires m.Valid() && WfSpace(m.mem, m.free, d, m.first)
    modifies m
    ensures m.Valid()
    ensures forall f: nat :: f in m.free <==> f in old(m.free) || Owns(old(m.mem), d, f)
    ensures forall f :: 0 <= f < NFRAMES && f !in m.free ==> m.mem[f] == old(m.mem)[f]
  {
    hide WfSpace, Entry, Table, TableBelow, Owns, FreedBy;
    SpaceDir(m.mem, m.free, d, m.first);
    var _ := Deallocuvm(m, d, KERNBASE, 0);
    ghost var mem1, free1 := m.mem, m.free;
    forall f: nat ensures Owns(mem1, d, f) <==> f == d || TableBelow(mem1, d, NENTRIES, f) { OwnsNodes(mem1, d, f); }
    FreeTables(m, d);
    m.Kfree(d);
    forall f | 0 <= f < NFRAMES && f !in m.free ensures m.mem[f] == old(m.mem)[f] {
      NodeIs(old(m.mem), mem1, d, f);
    }
  }

  lemma NodeIs(mem: Mem, mem1: Mem, d: nat, f: nat)
    requires d < NFRAMES && forall i: nat :: Table(mem1, d, i) == Table(mem, d, i)
    ensures Node(mem, d, f) ==> f == d || TableBelow(mem1, d, NENTRIES, f)
  {
    if Node(mem, d, f) && f != d {
      var i: nat :| Table(mem, d, i) == f;
      assert i < NENTRIES && Table(mem1, d, i) == f;
    }
  }
}
