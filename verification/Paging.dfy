/**
  Two-level page tables of vm.c as values. Entry is the flat map a page directory stands for;
  the slots of an address space are the places that own a frame.
 */
module Paging {
  import opened Blocks
  import opened Finite
  import opened Frames
  import opened Options

  const PAGES: nat := 0x10_0000    // virtual pages
  const UPAGES: nat := 0x8_0000    // those below KERNBASE
  const PTE_P: nat := 1
  const PTE_W: nat := 2
  const PTE_U: nat := 4

  predicate Present(w: Word32) { w % 2 == 1 }

  function FrameOf(w: Word32): (f: nat) { w / PGSIZE }

  function FlagsOf(w: Word32): (f: nat) { w % PGSIZE }

  /** A page frame number and flags in one word. */
  function Pte(f: nat, flags: nat): (w: Word32)
    requires f < PAGES && flags < PGSIZE
  {
    PGSIZE * f + flags
  }

  lemma PteParts(f: nat, flags: nat)
    requires f < PAGES && flags < PGSIZE
    ensures FrameOf(Pte(f, flags)) == f && FlagsOf(Pte(f, flags)) == flags
    ensures Present(Pte(f, flags)) <==> flags % 2 == 1
  {}

  lemma PteOfParts(w: Word32)
    ensures FrameOf(w) < PAGES && FlagsOf(w) < PGSIZE && w == Pte(FrameOf(w), FlagsOf(w))
    ensures Present(w) <==> FlagsOf(w) % 2 == 1
  {
    EvenPart(PGSIZE / 2 * FrameOf(w), FlagsOf(w));
  }

  lemma EvenPart(x: nat, y: nat)
    ensures (2 * x + y) % 2 == y % 2
  {}

  /** The permissions with the present bit set. */
  function WithP(perm: nat): (r: nat)
    requires perm < PGSIZE
    ensures r < PGSIZE && r % 2 == 1
  {
    if perm % 2 == 1 then perm else perm + 1
  }

  /** The page table of directory entry i, 0 when there is none. */
  function Table(mem: Mem, d: nat, i: nat): (t: nat)
    requires d < NFRAMES
  {
    if i < NENTRIES && Present(mem[d][i]) then FrameOf(mem[d][i]) else 0
  }

  /** The entry for slot j of directory entry i, 0 when the page is not present. */
  function Cell(mem: Mem, d: nat, i: nat, j: nat): (w: Word32)
    requires d < NFRAMES
  {
    var t := Table(mem, d, i);
    if 0 < t < NFRAMES && j < NENTRIES && Present(mem[t][j]) then mem[t][j] else 0
  }

  /** The flat map: the page table entry of virtual page v, 0 when v is not mapped. */
  function Entry(mem: Mem, d: nat, v: nat): (w: Word32)
    requires d < NFRAMES
  {
    Cell(mem, d, v / NENTRIES, v % NENTRIES)
  }

  /** The directory entries that have a table. */
  ghost function Tabs(mem: Mem, d: nat): (r: set<nat>)
    requires d < NFRAMES
    ensures forall i: nat :: i in r <==> i < NENTRIES && Table(mem, d, i) != 0
  {
    set i: nat | i < NENTRIES && Table(mem, d, i) != 0
  }

  /** The directory entries that the pages from lo up to k fall under. */
  ghost function TabsFor(lo: nat, k: nat): (r: set<nat>)
  {
    if k <= lo then {} else Interval(lo / NENTRIES, (k - 1) / NENTRIES - lo / NENTRIES + 1)
  }

  lemma TabsForMore(lo: nat, k: nat)
    requires lo <= k
    ensures TabsFor(lo, k + 1) == TabsFor(lo, k) + {k / NENTRIES}
  {
    assert k > lo ==> (k - 1) / NENTRIES <= k / NENTRIES <= (k - 1) / NENTRIES + 1;
  }

  /** Where an address space holds frames of its own. */
  datatype Slot = Dir | Tab(i: nat) | User(v: nat)

  predicate Held(mem: Mem, d: nat, s: Slot)
    requires d < NFRAMES
  {
    match s
    case Dir => true
    case Tab(i) => i < NENTRIES && Present(mem[d][i])
    case User(v) => v < UPAGES && Entry(mem, d, v) != 0
  }

  /** The frame that slot s holds, 0 for none. */
  function At(mem: Mem, d: nat, s: Slot): (f: nat)
    requires d < NFRAMES
  {
    match s
    case Dir => d
    case Tab(i) => Table(mem, d, i)
    case User(v) => if v < UPAGES then FrameOf(Entry(mem, d, v)) else 0
  }

  ghost predicate Owns(mem: Mem, d: nat, f: nat)
    requires d < NFRAMES
  {
    f != 0 && exists s :: At(mem, d, s) == f
  }

  /** f is the directory or one of its tables. */
  ghost predicate Node(mem: Mem, d: nat, f: nat)
    requires d < NFRAMES
  {
    f != 0 && (f == d || exists i :: Table(mem, d, i) == f)
  }

  /** No two slots hold the same frame. */
  ghost predicate Injective(mem: Mem, d: nat)
    requires d < NFRAMES
  {
    forall s, t :: s != t && At(mem, d, s) != 0 ==> At(mem, d, s) != At(mem, d, t)
  }

  ghost predicate AllUsable(mem: Mem, d: nat, first: nat)
    requires d < NFRAMES
  {
    forall s :: Held(mem, d, s) ==> Usable(first, At(mem, d, s))
  }

  ghost predicate NoneFree(mem: Mem, d: nat, free: set<nat>)
    requires d < NFRAMES
  {
    forall s :: At(mem, d, s) !in free
  }

  /** Every directory entry that is present forbids nothing: what a page may be used for is up to its table entry. */
  ghost predicate DirOpen(mem: Mem, d: nat)
    requires d < NFRAMES
  {
    forall i :: 0 <= i < NENTRIES && Present(mem[d][i]) ==> FlagsOf(mem[d][i]) == PTE_P + PTE_W + PTE_U
  }

  /** Every frame an address space holds is usable, held once, and not on the free list. */
  ghost predicate WfSpace(mem: Mem, free: set<nat>, d: nat, first: nat)
  {
    && d < NFRAMES && (forall f :: f in free ==> Usable(first, f)) && DirOpen(mem, d)
    && AllUsable(mem, d, first) && Injective(mem, d) && NoneFree(mem, d, free)
  }

  /** Slot s0 now holds x; every other slot is as it was. */
  ghost predicate AtOnly(mem: Mem, mem': Mem, d: nat, s0: Slot, x: nat)
    requires d < NFRAMES
  {
    && (forall s :: At(mem', d, s) == if s == s0 then x else At(mem, d, s))
    && forall s :: s != s0 ==> (Held(mem', d, s) <==> Held(mem, d, s))
  }

  lemma UsableAt(mem: Mem, free: set<nat>, d: nat, first: nat, s: Slot)
    requires WfSpace(mem, free, d, first)
    ensures Held(mem, d, s) <==> At(mem, d, s) != 0
    ensures At(mem, d, s) != 0 ==> Usable(first, At(mem, d, s)) && At(mem, d, s) !in free
  {
    if !Held(mem, d, s) { assert At(mem, d, s) == 0; }
  }

  /** A slot that takes a frame of nobody's, or gives its frame up, keeps the address space well formed. */
  lemma WfChange(mem: Mem, mem': Mem, free: set<nat>, free': set<nat>, d: nat, first: nat, s0: Slot, x: nat)
    requires WfSpace(mem, free, d, first) && AtOnly(mem, mem', d, s0, x) && s0 != Dir
    requires if Held(mem', d, s0) then Usable(first, x) && !Owns(mem, d, x) else x == 0
    requires x !in free' && free' <= free + (if x == 0 then {At(mem, d, s0)} - {0} else {}) && DirOpen(mem', d)
    ensures WfSpace(mem', free', d, first)
  {
    forall s ensures Held(mem', d, s) ==> Usable(first, At(mem', d, s)) {
      if s != s0 { assert At(mem', d, s) == At(mem, d, s); }
    }
    forall s, t | s != t && At(mem', d, s) != 0 ensures At(mem', d, s) != At(mem', d, t) {}
    forall s ensures At(mem', d, s) !in free' {}
    forall f | f in free' ensures Usable(first, f) { UsableAt(mem, free, d, first, s0); }
  }

  /** Who owns what after such a change. */
  lemma OwnsChange(mem: Mem, mem': Mem, free: set<nat>, d: nat, first: nat, s0: Slot, x: nat, f: nat)
    requires WfSpace(mem, free, d, first) && AtOnly(mem, mem', d, s0, x) && s0 != Dir
    ensures Owns(mem', d, f) <==> f != 0 && (f == x || (Owns(mem, d, f) && f != At(mem, d, s0)))
  {
    if Owns(mem, d, f) && f != At(mem, d, s0) {
      var s :| At(mem, d, s) == f;
      assert At(mem', d, s) == f;
    }
    if f != 0 && f == x { assert At(mem', d, s0) == x; }
    if Owns(mem', d, f) {
      var s :| At(mem', d, s) == f;
      if s != s0 { assert At(mem, d, s) == f; }
    }
  }

  // ---- what stores do to the map ----

  /** The directory and its tables are stored as before. */
  ghost predicate SameNodes(mem: Mem, mem': Mem, d: nat)
    requires d < NFRAMES
  {
    mem'[d] == mem[d] && forall i :: 0 < Table(mem, d, i) < NFRAMES ==> mem'[Table(mem, d, i)] == mem[Table(mem, d, i)]
  }

  ghost predicate SameMap(mem: Mem, mem': Mem, d: nat)
    requires d < NFRAMES
  {
    forall v: nat :: Entry(mem', d, v) == Entry(mem, d, v)
  }

  lemma NodesMap(mem: Mem, mem': Mem, d: nat)
    requires d < NFRAMES && SameNodes(mem, mem', d)
    ensures SameMap(mem, mem', d) && forall i :: Table(mem', d, i) == Table(mem, d, i)
    ensures forall s :: At(mem', d, s) == At(mem, d, s) && (Held(mem', d, s) <==> Held(mem, d, s))
  {
    forall i ensures Table(mem', d, i) == Table(mem, d, i) {}
    forall i, j ensures Cell(mem', d, i, j) == Cell(mem, d, i, j) {}
    forall s ensures At(mem', d, s) == At(mem, d, s) && (Held(mem', d, s) <==> Held(mem, d, s)) {
      match s case Dir => case Tab(i) => case User(v) => assert Entry(mem', d, v) == Entry(mem, d, v);
    }
  }

  lemma PageParts(u: nat, v: nat)
    ensures u == v <==> u / NENTRIES == v / NENTRIES && u % NENTRIES == v % NENTRIES
    ensures v < PAGES <==> v / NENTRIES < NENTRIES
  {}

  /** Storing a page table entry changes the flat map at its page and nowhere else. */
  lemma StorePte(mem: Mem, free: set<nat>, d: nat, first: nat, v: nat, w: Word32)
    requires WfSpace(mem, free, d, first) && v < PAGES && Table(mem, d, v / NENTRIES) != 0 && (w == 0 || Present(w))
    ensures Table(mem, d, v / NENTRIES) < NFRAMES
    ensures var t := Table(mem, d, v / NENTRIES);
            var mem' := mem[t := mem[t][v % NENTRIES := w]];
            && (forall u: nat :: Entry(mem', d, u) == if u == v then w else Entry(mem, d, u))
            && forall i :: Table(mem', d, i) == Table(mem, d, i)
  {
    var i0, j0 := v / NENTRIES, v % NENTRIES;
    var t := Table(mem, d, i0);
    UsableAt(mem, free, d, first, Tab(i0));
    var mem' := mem[t := mem[t][j0 := w]];
    assert At(mem, d, Tab(i0)) != At(mem, d, Dir);
    forall i ensures Table(mem', d, i) == Table(mem, d, i) {}
    forall u: nat ensures Entry(mem', d, u) == if u == v then w else Entry(mem, d, u) {
      var i := u / NENTRIES;
      PageParts(u, v);
      if i != i0 { assert At(mem, d, Tab(i)) == 0 || At(mem, d, Tab(i)) != At(mem, d, Tab(i0)); }
    }
  }

  /** Hooking up a zeroed page as a new table leaves the flat map as it is. */
  lemma StoreTable(mem: Mem, free: set<nat>, d: nat, first: nat, i0: nat, n: nat, w: Word32)
    requires WfSpace(mem, free, d, first) && i0 < NENTRIES && !Present(mem[d][i0])
    requires n in free && w == Pte(n, PTE_P + PTE_W + PTE_U)
    ensures var mem' := mem[n := Filled(0)][d := mem[d][i0 := w]];
            && SameMap(mem, mem', d)
            && forall i: nat :: Table(mem', d, i) == if i == i0 then n else Table(mem, d, i)
  {
    PteParts(n, PTE_P + PTE_W + PTE_U);
    assert At(mem, d, Dir) !in free;
    var mem' := mem[n := Filled(0)][d := mem[d][i0 := w]];
    forall i: nat ensures Table(mem', d, i) == if i == i0 then n else Table(mem, d, i) {}
    forall i: nat, j: nat ensures Cell(mem', d, i, j) == Cell(mem, d, i, j) {
      if i != i0 {
        assert At(mem, d, Tab(i)) !in free && (At(mem, d, Tab(i)) != 0 ==> At(mem, d, Tab(i)) != At(mem, d, Dir));
      }
    }
    forall v: nat ensures Entry(mem', d, v) == Entry(mem, d, v) {}
  }

  // ---- growing an address space ----

  /** Tables only come, out of the free frames, and only tables and free frames are written. */
  ghost predicate Grown(mem: Mem, free: set<nat>, mem': Mem, free': set<nat>, d: nat)
    requires d < NFRAMES
  {
    && free' <= free
    && (forall i: nat :: Table(mem', d, i) == Table(mem, d, i) || (Table(mem, d, i) == 0 && Table(mem', d, i) in free))
    && forall f :: 0 <= f < NFRAMES && f !in free && !Node(mem, d, f) ==> mem'[f] == mem[f]
  }

  /** Conservation: owned and free frames together are what they were, plus the given ones. */
  ghost predicate Kept(mem: Mem, free: set<nat>, mem': Mem, free': set<nat>, d: nat, extra: set<nat>)
    requires d < NFRAMES
  {
    forall f: nat :: Owns(mem', d, f) || f in free' <==> Owns(mem, d, f) || f in free || f in extra
  }

  lemma GrownAgain(mem: Mem, free: set<nat>, mem': Mem, free': set<nat>, mem'': Mem, free'': set<nat>, d: nat)
    requires d < NFRAMES && Grown(mem, free, mem', free', d) && Grown(mem', free', mem'', free'', d)
    ensures Grown(mem, free, mem'', free'', d)
  {}

  /** Tables for the directory entries x have been made where they were missing, one free frame for each. */
  ghost predicate Paid(mem: Mem, free: set<nat>, mem': Mem, free': set<nat>, d: nat, x: set<nat>)
    requires d < NFRAMES
  {
    |free'| + |Tabs(mem', d)| == |free| + |Tabs(mem, d)| && Tabs(mem', d) == Tabs(mem, d) + x
  }

  lemma PaidSame(mem: Mem, mem': Mem, free: set<nat>, d: nat, x: set<nat>)
    requires d < NFRAMES && (forall i: nat :: Table(mem', d, i) == Table(mem, d, i)) && x <= Tabs(mem, d)
    ensures Paid(mem, free, mem', free, d, x)
  {
    assert Tabs(mem', d) == Tabs(mem, d);
  }

  lemma PaidAgain(mem: Mem, free: set<nat>, mem': Mem, free': set<nat>, mem'': Mem, free'': set<nat>, d: nat,
                  x: set<nat>, y: set<nat>, z: set<nat>)
    requires d < NFRAMES && z == x + y && Paid(mem, free, mem', free', d, x) && Paid(mem', free', mem'', free'', d, y)
    ensures Paid(mem, free, mem'', free'', d, z)
  {}

  /** A store that moves no table is paid for as before. */
  lemma PaidStill(mem: Mem, free: set<nat>, mem': Mem, free': set<nat>, mem'': Mem, d: nat, x: set<nat>)
    requires d < NFRAMES && Paid(mem, free, mem', free', d, x) && forall i: nat ::
             Table(mem'', d, i) == Table(mem', d, i)
    ensures Paid(mem, free, mem'', free', d, x)
  {
    assert Tabs(mem'', d) == Tabs(mem', d);
  }

  lemma PaidOne(mem: Mem, free: set<nat>, mem': Mem, d: nat, i0: nat, n: nat)
    requires d < NFRAMES && n in free && 0 < n && i0 < NENTRIES && Table(mem, d, i0) == 0
    requires forall i: nat :: Table(mem', d, i) == if i == i0 then n else Table(mem, d, i)
    ensures Paid(mem, free, mem', free - {n}, d, {i0})
  {
    assert Tabs(mem', d) == Tabs(mem, d) + {i0};
  }

  /** A zeroed free frame becomes the table of directory entry i0. */
  lemma TableStored(mem: Mem, free: set<nat>, d: nat, first: nat, i0: nat, n: nat, w: Word32)
    requires WfSpace(mem, free, d, first) && i0 < NENTRIES && !Present(mem[d][i0])
    requires n in free && w == Pte(n, PTE_P + PTE_W + PTE_U)
    ensures var mem' := mem[n := Filled(0)][d := mem[d][i0 := w]];
            && SameMap(mem, mem', d) && Grown(mem, free, mem', free - {n}, d) && DirOpen(mem', d)
            && (forall i: nat :: Table(mem', d, i) == if i == i0 then n else Table(mem, d, i))
            && AtOnly(mem, mem', d, Tab(i0), n) && Held(mem', d, Tab(i0)) && Usable(first, n) && !Owns(mem, d, n)
  {
    hide Entry;
    var mem' := mem[n := Filled(0)][d := mem[d][i0 := w]];
    PteParts(n, PTE_P + PTE_W + PTE_U);
    StoreTable(mem, free, d, first, i0, n, w);
    UsableAt(mem, free, d, first, Dir);
    assert !Owns(mem, d, n);
    OpenStays(mem, mem', d, i0, n);
    hide DirOpen;
    AtFromParts(mem, mem', d, Tab(i0), n);
  }

  /** Walking down to a missing table takes one free frame for it. */
  lemma TableStep(mem: Mem, free: set<nat>, d: nat, first: nat, i0: nat, n: nat, w: Word32)
    requires WfSpace(mem, free, d, first) && i0 < NENTRIES && !Present(mem[d][i0])
    requires n in free && w == Pte(n, PTE_P + PTE_W + PTE_U)
    ensures var mem' := mem[n := Filled(0)][d := mem[d][i0 := w]];
            && WfSpace(mem', free - {n}, d, first) && SameMap(mem, mem', d) && Table(mem', d, i0) == n
            && Grown(mem, free, mem', free - {n}, d) && Kept(mem, free, mem', free - {n}, d, {})
            && Paid(mem, free, mem', free - {n}, d, {i0})
  {
    hide AtOnly, Grown, DirOpen, SameMap, Held, Entry, Filled, AllUsable, Injective, NoneFree;
    var mem' := mem[n := Filled(0)][d := mem[d][i0 := w]];
    TableStored(mem, free, d, first, i0, n, w);
    WfChange(mem, mem', free, free - {n}, d, first, Tab(i0), n);
    PaidOne(mem, free, mem', d, i0, n);
    forall f: nat ensures Owns(mem', d, f) || f in free - {n} <==> Owns(mem, d, f) || f in free {
      OwnsChange(mem, mem', free, d, first, Tab(i0), n, f);
    }
  }

  lemma OpenStays(mem: Mem, mem': Mem, d: nat, i0: nat, n: nat)
    requires d < NFRAMES && DirOpen(mem, d) && i0 < NENTRIES && n < PAGES
    requires mem'[d] == mem[d][i0 := Pte(n, PTE_P + PTE_W + PTE_U)]
    ensures DirOpen(mem', d)
  {
    PteParts(n, PTE_P + PTE_W + PTE_U);
  }

  /** A change of the map and the tables, seen slot by slot. */
  lemma AtFromParts(mem: Mem, mem': Mem, d: nat, s0: Slot, x: nat)
    requires d < NFRAMES
    requires mem'[d] == mem[d] || (s0.Tab? && s0.i < NENTRIES && mem'[d] == mem[d][s0.i := mem'[d][s0.i]])
    requires At(mem', d, s0) == x && s0 != Dir
    requires forall v: nat :: User(v) != s0 ==> Entry(mem', d, v) == Entry(mem, d, v)
    ensures AtOnly(mem, mem', d, s0, x)
  {
    forall s | s != s0 ensures At(mem', d, s) == At(mem, d, s) && (Held(mem', d, s) <==> Held(mem, d, s)) {
      match s case Dir => case Tab(i) => case User(v) => assert Entry(mem', d, v) == Entry(mem, d, v);
    }
  }

  /** Mapping page v to frame f: the frame of a user page becomes the address space's own. */
  lemma MapStep(mem: Mem, free: set<nat>, d: nat, first: nat, v: nat, f: nat, flags: nat)
    requires WfSpace(mem, free, d, first) && v < PAGES && Table(mem, d, v / NENTRIES) != 0 && Entry(mem, d, v) == 0
    requires f < PAGES && flags < PGSIZE && flags % 2 == 1
    requires v < UPAGES ==> Usable(first, f) && f !in free && !Owns(mem, d, f)
    ensures Table(mem, d, v / NENTRIES) < NFRAMES
    ensures var t := Table(mem, d, v / NENTRIES);
            var mem' := mem[t := mem[t][v % NENTRIES := Pte(f, flags)]];
            && WfSpace(mem', free, d, first) && Grown(mem, free, mem', free, d)
            && Kept(mem, free, mem', free, d, if v < UPAGES then {f} else {})
  {
    hide Pte, Entry, Table;
    PteParts(f, flags);
    StorePte(mem, free, d, first, v, Pte(f, flags));
    var t := Table(mem, d, v / NENTRIES);
    var mem' := mem[t := mem[t][v % NENTRIES := Pte(f, flags)]];
    assert At(mem, d, Tab(v / NENTRIES)) == t != At(mem, d, Dir);
    assert Grown(mem, free, mem', free, d);
    if v < UPAGES {
      AtFromParts(mem, mem', d, User(v), f);
      WfChange(mem, mem', free, free, d, first, User(v), f);
      forall g: nat ensures Owns(mem', d, g) || g in free <==> Owns(mem, d, g) || g in free || g in {f} {
        OwnsChange(mem, mem', free, d, first, User(v), f, g);
      }
    } else {
      SameSlots(mem, mem', free, d, first);
    }
  }

  /** A store that no slot sees. */
  lemma SameSlots(mem: Mem, mem': Mem, free: set<nat>, d: nat, first: nat)
    requires WfSpace(mem, free, d, first) && mem'[d] == mem[d]
    requires forall v: nat :: v < UPAGES ==> Entry(mem', d, v) == Entry(mem, d, v)
    ensures WfSpace(mem', free, d, first) && forall f: nat :: Owns(mem', d, f) <==> Owns(mem, d, f)
  {
    forall s ensures At(mem', d, s) == At(mem, d, s) && (Held(mem', d, s) <==> Held(mem, d, s)) {
      match s case Dir => case Tab(i) => case User(v) => if v < UPAGES { assert Entry(mem', d, v) == Entry(mem, d, v); }
    }
    forall f: nat ensures Owns(mem', d, f) <==> Owns(mem, d, f) {
      if s :| At(mem, d, s) == f { assert At(mem', d, s) == f; }
      if s :| At(mem', d, s) == f { assert At(mem, d, s) == f; }
    }
  }

  /** A page taken off the free list and filled is nobody's yet. */
  lemma FreshStep(mem: Mem, free: set<nat>, d: nat, first: nat, f: nat, p: Page)
    requires WfSpace(mem, free, d, first) && f in free
    ensures var mem' := mem[f := p];
            && WfSpace(mem', free - {f}, d, first) && SameMap(mem, mem', d) && !Owns(mem', d, f)
            && Grown(mem, free, mem', free - {f}, d)
            && (forall g: nat :: Owns(mem', d, g) <==> Owns(mem, d, g)) && forall i: nat ::
                 Table(mem', d, i) == Table(mem, d, i)
  {
    var mem' := mem[f := p];
    assert At(mem, d, Dir) !in free;
    forall i: nat ensures Table(mem, d, i) != f { assert At(mem, d, Tab(i)) !in free; }
    NodesMap(mem, mem', d);
    SameSlots(mem, mem', free, d, first);
  }

  // ---- shrinking an address space ----

  /** Frame f is what a page from lo up to hi is mapped to. */
  ghost predicate FreedBy(mem: Mem, d: nat, lo: nat, hi: nat, f: nat)
    requires d < NFRAMES
  {
    f != 0 && exists v: nat :: lo <= v < hi && At(mem, d, User(v)) == f
  }

  /** Freeing the frame of user page v and clearing its entry. */
  lemma UnmapStep(mem: Mem, mem1: Mem, free: set<nat>, d: nat, first: nat, v: nat)
    requires WfSpace(mem, free, d, first) && v < UPAGES && Entry(mem, d, v) != 0
    requires forall g :: 0 <= g < NFRAMES && g != At(mem, d, User(v)) ==> mem1[g] == mem[g]
    ensures var t := Table(mem, d, v / NENTRIES);
            var f := At(mem, d, User(v));
            && 0 < t < NFRAMES && t !in free && Usable(first, f) && f !in free && t != f
            && var mem' := mem1[t := mem1[t][v % NENTRIES := 0]];
            && WfSpace(mem', free + {f}, d, first)
            && (forall u: nat :: Entry(mem', d, u) == if u == v then 0 else Entry(mem, d, u))
            && (forall i: nat :: Table(mem', d, i) == Table(mem, d, i))
            && Kept(mem, free, mem', free + {f}, d, {})
  {
    hide Entry, Table;
    var i0 := v / NENTRIES;
    EntryHasTable(mem, d, v);
    var t, f := Table(mem, d, i0), At(mem, d, User(v));
    UsableAt(mem, free, d, first, User(v));
    UsableAt(mem, free, d, first, Tab(i0));
    assert At(mem, d, Tab(i0)) == t;
    assert At(mem, d, Dir) != f;
    forall i: nat ensures Table(mem, d, i) != f { assert At(mem, d, Tab(i)) != f; }
    NodesMap(mem, mem1, d);
    SameSlots(mem, mem1, free, d, first);
    StorePte(mem1, free, d, first, v, 0);
    var mem' := mem1[t := mem1[t][v % NENTRIES := 0]];
    assert At(mem, d, Tab(i0)) != At(mem, d, Dir);
    assert At(mem', d, User(v)) == 0;
    AtFromParts(mem1, mem', d, User(v), 0);
    WfChange(mem1, mem', free, free + {f}, d, first, User(v), 0);
    forall g: nat ensures Owns(mem', d, g) || g in free + {f} <==> Owns(mem, d, g) || g in free {
      OwnsChange(mem1, mem', free, d, first, User(v), 0, g);
    }
  }

  lemma EntryHasTable(mem: Mem, d: nat, v: nat)
    requires d < NFRAMES && Entry(mem, d, v) != 0
    ensures 0 < Table(mem, d, v / NENTRIES) < NFRAMES
            && Entry(mem, d, v) == mem[Table(mem, d, v / NENTRIES)][v % NENTRIES]
    ensures Present(Entry(mem, d, v)) && v < PAGES
  {}

  // ---- what the hardware makes of it ----

  predicate Has(w: Word32, flag: nat)
    requires flag > 0
  {
    w / flag % 2 == 1
  }

  /** An entry lets a user, or a write, through. */
  predicate Grants(w: Word32, user: bool, write: bool)
  {
    Present(w) && (user ==> Has(w, PTE_U)) && (write ==> Has(w, PTE_W))
  }

  /** The walk that the hardware makes for page v: the frame, or None for a fault. Both entries must let it through. */
  function Translate(mem: Mem, d: nat, v: nat, user: bool, write: bool): (r: Option<nat>)
    requires d < NFRAMES
  {
    if v >= PAGES || !Grants(mem[d][v / NENTRIES], user, write) then None else
      var t := FrameOf(mem[d][v / NENTRIES]);
      if t < NFRAMES && Grants(mem[t][v % NENTRIES], user, write) then Some(FrameOf(mem[t][v % NENTRIES])) else None
  }

  /** What the flat map lets through. */
  function Allowed(w: Word32, user: bool, write: bool): (r: Option<nat>)
  {
    if Grants(w, user, write) then Some(FrameOf(w)) else None
  }

  lemma OpenGrants(w: Word32, user: bool, write: bool)
    requires FlagsOf(w) == PTE_P + PTE_W + PTE_U
    ensures Grants(w, user, write)
  {
    PteOfParts(w);
    Seven(FrameOf(w));
  }

  /** The three low bits. */
  lemma Seven(f: nat)
    ensures var w := 4096 * f + 7; w % 2 == 1 && w / 2 % 2 == 1 && w / 4 % 2 == 1
  {
    assert (4096 * f + 7) / 2 == 2 * (1024 * f) + 3;
    assert (4096 * f + 7) / 4 == 2 * (512 * f) + 1;
    EvenPart(1024 * f, 3);
    EvenPart(512 * f, 1);
    EvenPart(2048 * f, 7);
  }

  /** In a well-formed address space the hardware does what the flat map says, for every page and access. */
  lemma TranslateIs(mem: Mem, free: set<nat>, d: nat, first: nat, v: nat, user: bool, write: bool)
    requires WfSpace(mem, free, d, first)
    ensures Translate(mem, d, v, user, write) == Allowed(Entry(mem, d, v), user, write)
  {
    if v < PAGES {
      var i := v / NENTRIES;
      var pde := mem[d][i];
      if Present(pde) {
        OpenGrants(pde, user, write);
        UsableAt(mem, free, d, first, Tab(i));
      }
    }
  }

  ghost predicate AsMapped(mem: Mem, d: nat)
    requires d < NFRAMES
  {
    forall v: nat, user: bool, write: bool ::
      Translate(mem, d, v, user, write) == Allowed(Entry(mem, d, v), user, write)
  }

  lemma HardwareAgrees(mem: Mem, free: set<nat>, d: nat, first: nat)
    requires WfSpace(mem, free, d, first)
    ensures AsMapped(mem, d)
  {
    hide Entry, Translate, Allowed;
    forall v: nat, user: bool, write: bool
      ensures Translate(mem, d, v, user, write) == Allowed(Entry(mem, d, v), user, write)
    {
      TranslateIs(mem, free, d, first, v, user, write);
    }
  }
}
