/** Physical memory of kalloc.c: page frames below PHYSTOP, the free ones linked through their first word. */
module Frames {
  import opened Blocks
  import opened Finite

  const PGSIZE: nat := 4096
  const NENTRIES: nat := 1024          // NPDENTRIES and NPTENTRIES
  const KERNBASE: nat := 0x8000_0000
  const NFRAMES: nat := 0xE000         // PHYSTOP / PGSIZE
  const JUNK: Word32 := 0x0101_0101    // what kfree fills a page with

  type Page = p: seq<Word32> | |p| == NENTRIES witness seq(NENTRIES, _ => 0)
  type Mem = m: seq<Page> | |m| == NFRAMES witness seq<Page>(NFRAMES, _ => Filled(0))

  function Filled(w: Word32): (p: Page)
    ensures forall i :: 0 <= i < NENTRIES ==> p[i] == w
  {
    seq(NENTRIES, _ => w)
  }

  /** The frames kfree accepts: from the first whole frame past the kernel up to PHYSTOP. */
  predicate Usable(first: nat, f: nat) { 1 <= first <= f < NFRAMES }

  /** The kernel's pointer to a frame (P2V), and back (V2P). */
  function Ptr(f: nat): (p: Word32)
    requires f < NFRAMES
    ensures p != 0
  {
    KERNBASE + PGSIZE * f
  }

  function FrameAt(p: Word32): (f: nat)
    requires p >= KERNBASE
  {
    (p - KERNBASE) / PGSIZE
  }

  lemma PtrRoundTrip(f: nat)
    requires f < NFRAMES
    ensures Ptr(f) >= KERNBASE && FrameAt(Ptr(f)) == f
  {}

  function PtrOf(list: seq<nat>, k: nat): (p: Word32)
    requires k < |list| ==> list[k] < NFRAMES
  {
    if k < |list| then Ptr(list[k]) else 0
  }

  ghost predicate LinkOk(mem: Mem, list: seq<nat>, k: nat)
    requires k < |list|
  {
    list[k] < NFRAMES && (k + 1 < |list| ==> list[k + 1] < NFRAMES) && mem[list[k]][0] == PtrOf(list, k + 1)
  }

  /** The free pages spell out list, from head on. */
  ghost predicate Chain(mem: Mem, head: Word32, list: seq<nat>)
  {
    && (list != [] ==> list[0] < NFRAMES) && head == PtrOf(list, 0)
    && forall k :: 0 <= k < |list| ==> LinkOk(mem, list, k)
  }

  lemma ChainPush(mem: Mem, mem': Mem, head: Word32, list: seq<nat>, f: nat)
    requires Chain(mem, head, list) && f < NFRAMES && f !in list
    requires mem'[f][0] == head && forall g :: 0 <= g < NFRAMES && g != f ==> mem'[g] == mem[g]
    ensures Chain(mem', Ptr(f), [f] + list)
  {
    var l := [f] + list;
    forall k | 0 <= k < |l| ensures LinkOk(mem', l, k) {
      if k > 0 { assert LinkOk(mem, list, k - 1); }
    }
  }

  lemma ChainPop(mem: Mem, head: Word32, list: seq<nat>)
    requires Chain(mem, head, list) && list != []
    ensures head != 0 && list[0] < NFRAMES && head == Ptr(list[0])
    ensures Chain(mem, mem[list[0]][0], list[1..])
  {
    var l := list[1..];
    assert LinkOk(mem, list, 0);
    forall k | 0 <= k < |l| ensures LinkOk(mem, l, k) { assert LinkOk(mem, list, k + 1); }
  }

  lemma ChainElsewhere(mem: Mem, mem': Mem, head: Word32, list: seq<nat>)
    requires Chain(mem, head, list) && forall g :: 0 <= g < NFRAMES && g in list ==> mem'[g] == mem[g]
    ensures Chain(mem', head, list)
  {
    forall k | 0 <= k < |list| ensures LinkOk(mem', list, k) { assert LinkOk(mem, list, k); }
  }

  class Memory {
    const first: nat
    var mem: Mem
    var freelist: Word32
    ghost var list: seq<nat>
    ghost var free: set<nat>

    ghost predicate Valid()
      reads this
    {
      && Chain(mem, freelist, list) && Distinct(list) && free == Elems(list)
      && forall f :: f in free ==> Usable(first, f)
    }

    constructor (first: nat, mem: Mem)
      ensures Valid() && free == {} && this.first == first && this.mem == mem
    {
      this.first, this.mem, freelist := first, mem, 0;
      list, free := [], {};
    }

    /** A store to a page that is not on the free list. */
    method Put(f: nat, p: Page)
      requires Valid() && f < NFRAMES && f !in free
      modifies this`mem
      ensures Valid() && mem == old(mem)[f := p]
    {
      ChainElsewhere(mem, mem[f := p], freelist, list);
      mem := mem[f := p];
    }

    method Kfree(f: nat)
      requires Valid() && Usable(first, f) && f !in free
      modifies this
      ensures Valid() && list == [f] + old(list) && free == old(free) + {f}
      ensures mem[f] == Filled(JUNK)[0 := old(freelist)]
      ensures forall g :: 0 <= g < NFRAMES && g != f ==> mem[g] == old(mem)[g]
    {
      mem := mem[f := Filled(JUNK)];
      mem := mem[f := mem[f][0 := freelist]];
      ChainPush(old(mem), mem, freelist, list, f);
      freelist := Ptr(f);
      list, free := [f] + list, free + {f};
    }

    /** kalloc(): the page freed last, or 0 when no page is free. */
    method Kalloc() returns (r: nat)
      requires Valid()
      modifies this`freelist, this`list, this`free
      ensures Valid()
      ensures r == 0 <==> old(free) == {}
      ensures r == 0 ==> free == {} && list == []
      ensures r != 0 ==> old(list) == [r] + list && r in old(free) && free == old(free) - {r}
    {
      if freelist == 0 {
        assert list == [];
        return 0;
      }
      ChainPop(mem, freelist, list);
      PtrRoundTrip(list[0]);
      r := FrameAt(freelist);
      assert r in free;
      freelist := mem[r][0];
      list := list[1..];
      free := free - {r};
    }

    /** freerange() over the bytes from start to end: every whole page in between is freed. */
    method Freerange(start: Word32, end: Word32)
      requires Valid() && first >= 1 && KERNBASE + PGSIZE * first < start + PGSIZE
      requires start <= KERNBASE + PGSIZE * NFRAMES && end <= KERNBASE + PGSIZE * NFRAMES
      requires forall f :: f in free ==> !WholeIn(start, end, f)
      modifies this
      ensures Valid() && forall f :: f in free <==> f in old(free) || WholeIn(start, end, f)
    {
      var p := (start + PGSIZE - 1) / PGSIZE * PGSIZE;
      while p + PGSIZE <= end
        invariant Valid() && p % PGSIZE == 0 && start <= p
        invariant p < start + PGSIZE || p <= end
        invariant forall f :: f in free <==> f in old(free) || (WholeIn(start, end, f) && KERNBASE + PGSIZE * f < p)
        decreases end - p
      {
        Kfree(FrameAt(p));
        p := p + PGSIZE;
      }
    }
  }

  /** Frame f lies whole between two kernel addresses. */
  predicate WholeIn(start: Word32, end: Word32, f: nat)
  {
    start <= KERNBASE + PGSIZE * f && KERNBASE + PGSIZE * f + PGSIZE <= end
  }
}
