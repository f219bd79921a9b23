/** malloc and free of umalloc.c over header memory: ptr and size of each header, by address. */
module Heap {
  import opened Options
  import opened Blocks
  import opened Finite
  import opened FreeList

  const HEADER: nat := 8       // sizeof(Header)
  const MINCORE: nat := 4096   // the least morecore asks for

  class Heap {
    const base: nat            // &base
    var ptr: map<nat, nat>     // s.ptr of each header
    var size: map<nat, nat>    // s.size of each header
    var freep: nat
    var started: bool          // freep != 0
    ghost var fb: seq<Blk>
    ghost var live: map<nat, nat>
    ghost var owned: set<nat>

    ghost predicate Valid()
      reads this
    {
      && WfHeap(fb, live, owned, base) && Sized(size, live)
      && (!started ==> fb == [Blk(base, 0)] && live == map[])
      && (started ==> Linked(ptr, size, fb) && Listed(fb, freep))
    }

    constructor (base: nat)
      ensures Valid() && this.base == base && !started && live == map[] && owned == {}
    {
      this.base := base;
      ptr, size, freep, started := map[], map[], 0, false;
      fb, live, owned := [Blk(base, 0)], map[], {};
    }

    /** free()'s search for the entry that bp goes after; it ends wherever freep stands. */
    method FindPlace(bp: nat, ghost k: nat) returns (p: nat)
      requires Valid() && started && bp > base && After(fb, k, bp)
      ensures p == fb[k].a
    {
      hide WfHeap, InFree;
      p := freep;
      ghost var c :| 0 <= c < |fb| && fb[c].a == freep;
      WfListOf(fb, live, owned, base);
      assert LinkedAt(ptr, size, fb, c);
      while !(bp > p && bp < ptr[p])
        invariant 0 <= c < |fb| && p == fb[c].a && LinkedAt(ptr, size, fb, c)
        decreases if c <= k then k - c else |fb| - c + k
      {
        AtPlace(fb, base, k, bp, c);
        if p >= ptr[p] && (bp > p || bp < ptr[p]) {
          break;
        }
        p := ptr[p];
        c := Succ(fb, c);
        assert LinkedAt(ptr, size, fb, c);
      }
      AtPlace(fb, base, k, bp, c);
    }

    /** The link and size updates of free(). */
    method Relink(p: nat, bp: nat, ghost k: nat)
      requires WfList(fb, base) && Linked(ptr, size, fb) && bp in size && FitsAfter(fb, k, Blk(bp, size[bp]))
               && p == fb[k].a
      modifies this`ptr, this`size
      ensures Linked(ptr, size, Insert(fb, k, Blk(bp, old(size)[bp])))
      ensures SameBut(old(size), size, bp, p)
    {
      hide WfList, Insert, Linked;
      ghost var b, q := Blk(bp, size[bp]), Succ(fb, k);
      EntryLinked(ptr, size, fb, k);
      EntryLinked(ptr, size, fb, q);
      FirstIsBase(fb, base);
      var n := ptr[p];
      assert bp + size[bp] == n <==> JoinsUp(fb, k, b) by { NotBelowBase(fb, base, k, b); }
      if bp + size[bp] == n {
        size := size[bp := size[bp] + size[n]];
        ptr := ptr[bp := ptr[n]];
      } else {
        ptr := ptr[bp := n];
      }
      if p + size[p] == bp {
        size := size[p := size[p] + size[bp]];
        ptr := ptr[p := ptr[bp]];
      } else {
        ptr := ptr[p := bp];
      }
      InsertLinked(old(ptr), old(size), ptr, size, fb, base, k, b);
    }

    /** free() of the block whose header is at bp. */
    method Free(bp: nat) returns (ghost k: nat)
      requires Valid() && bp in live
      modifies this
      ensures Valid() && live == old(live) - {bp} && owned == old(owned) && started
      ensures After(old(fb), k, bp) && fb == Insert(old(fb), k, Blk(bp, old(live)[bp])) && freep == old(fb)[k].a
    {
      hide WfHeap, Insert, Linked;
      ghost var b := Blk(bp, live[bp]);
      WfListOf(fb, live, owned, base);
      LiveNotFree(fb, live, owned, base, bp);
      k := Place(fb, base, bp, 0);
      var p := FindPlace(bp, k);
      FreeHeap(fb, live, owned, base, bp, k);
      LiveSizes(fb, live, owned, base, bp, k);
      Relink(p, bp, k);
      freep := p;
      FreepStays(fb, k, b);
      fb := Insert(fb, k, b);
      live := live - {bp};
    }

    /** morecore: answer is what sbrk returns, memory past everything obtained so far. */
    method Morecore(nunits: nat, answer: Option<nat>) returns (ok: bool, ghost k: nat)
      requires Valid() && started && nunits >= 1
      requires answer.Some? ==> Past(owned, base, answer.value)
      modifies this
      ensures Valid() && live == old(live) && started
      ensures ok <==> answer.Some?
      ensures !ok ==> fb == old(fb) && owned == old(owned)
      ensures ok ==> owned == old(owned) + Interval(answer.value, Asked(nunits)) && HasFit(fb, nunits)
      ensures ok ==> Granted(old(fb), k, answer.value, nunits, fb, freep)
    {
      hide WfHeap, Insert, Linked, Interval, WfList, LinkedAt, HasFit, Listed;
      var nu := if nunits < MINCORE then MINCORE else nunits;
      if answer.None? {
        return false, 0;
      }
      var hp := answer.value;
      GrantHeap(fb, live, owned, base, hp, nu);
      EntriesBelow(fb, live, owned, base, hp);
      size := size[hp := nu];
      assert Linked(ptr, size, fb) by { LinkedElsewhere(ptr, old(size), size, fb, hp); }
      live := live[hp := nu];
      owned := owned + Interval(hp, nu);
      ghost var fb0 := fb;
      k := Free(hp);
      assert live == old(live);
      JoinedFits(fb0, k, Blk(hp, nu), nunits);
      ok := true;
    }

    /** malloc's two ways of taking nunits from the entry after prevp. */
    method Take(prevp: nat, p: nat, nunits: nat, ghost c: nat) returns (h: nat)
      requires Valid() && started && c < |fb| && prevp == fb[c].a && p == fb[Succ(fb, c)].a
      requires 1 <= nunits <= fb[Succ(fb, c)].n
      modifies this
      ensures Valid() && started && owned == old(owned)
      ensures h !in old(live) && live == old(live)[h := nunits]
      ensures h == Carved(old(fb), Succ(old(fb), c), nunits).a && fb == Carve(old(fb), Succ(old(fb), c), nunits)
      ensures freep == prevp
    {
      hide WfHeap, Carve, Linked, WfList, Sized, Listed;
      ghost var k := Succ(fb, c);
      WfListOf(fb, live, owned, base);
      EntryLinked(ptr, size, fb, c);
      EntryLinked(ptr, size, fb, k);
      MallocHeap(fb, live, owned, base, k, nunits);
      NewHeader(fb, live, owned, base, k, nunits);
      if size[p] == nunits {
        ptr := ptr[prevp := ptr[p]];
        h := p;
      } else {
        size := size[p := size[p] - nunits];
        h := p + size[p];
        size := size[h := nunits];
      }
      freep := prevp;
      assert Linked(ptr, size, Carve(fb, k, nunits)) by
      { CarveLinked(old(ptr), old(size), ptr, size, fb, base, k, nunits); }
      PrevStays(fb, base, c, nunits);
      TakenSized(old(size), size, live, p, h, nunits);
      fb := Carve(fb, k, nunits);
      live := live[h := nunits];
    }

    /** The first call of malloc links base to itself. */
    method Start()
      requires Valid() && !started
      modifies this`ptr, this`size, this`freep, this`started
      ensures Valid() && started
    {
      hide WfHeap, Linked;
      ptr, freep, started := ptr[base := base], base, true;
      size := size[base := 0];
      FirstLink(ptr, size, base);
    }

    /**
      malloc(): answer is what sbrk returns should malloc ask it; the memory it grants is as
      large as morecore wanted (see SbrkAsksExactly). The entry k is taken when one fits.
     */
    method Malloc(nbytes: Word32, answer: Option<nat>) returns (r: Option<nat>, ghost k: nat)
      requires Valid()
      requires answer.Some? ==> Past(owned, base, answer.value)
      requires answer.Some? ==> Asked(UnitsFor(nbytes)) < 0x1000_0000
      modifies this
      ensures Valid() && started
      ensures r.None? <==> answer.None? && !HasFit(old(fb), UnitsFor(nbytes))
      ensures r.None? ==> fb == old(fb) && live == old(live)
      ensures r.Some? ==>
              r.value >= 1 && r.value - 1 !in old(live) && live == old(live)[r.value - 1 := UnitsFor(nbytes)]
      ensures r.None? || HasFit(old(fb), UnitsFor(nbytes)) ==> owned == old(owned)
      ensures r.Some? && !HasFit(old(fb), UnitsFor(nbytes)) ==>
                && owned == old(owned) + Interval(answer.value, Asked(UnitsFor(nbytes)))
                && TakenFromGrant(old(fb), answer.value, UnitsFor(nbytes), k, fb, r.value - 1)
      ensures HasFit(old(fb), UnitsFor(nbytes)) ==>
                && NextFit(old(fb), old(freep), UnitsFor(nbytes), k)
                && fb == Carve(old(fb), k, UnitsFor(nbytes)) && r == Some(Carved(old(fb), k, UnitsFor(nbytes)).a + 1)
                && exists c :: 0 <= c < |old(fb)| && Succ(old(fb), c) == k && freep == old(fb)[c].a
    {
      hide WfHeap, Carve, Linked, HasFit, Scanned, NextFit, Past, Sized, Listed, Succ, Ahead, UnitsFor, Asked, Carved,
           LinkedAt, TakenFromGrant, Granted, Interval, Insert;
      var nunits := UnitsFor(nbytes);
      k := 0;
      NotStartedFits(fb, base, nunits);
      if !started {
        Start();
      }
      ghost var j := EntryAt(fb, freep);
      ghost var c, grown, fb0, at := j, false, fb, 0;
      var prevp := freep;
      EntryLinked(ptr, size, fb, c);
      var p := ptr[prevp];
      ScanStart(fb, j, nunits);
      while true
        invariant Valid() && started && live == old(live)
        invariant 0 <= j < |fb| && 0 <= c < |fb| && freep == fb[j].a && prevp == fb[c].a && p == fb[Succ(fb, c)].a
        invariant Scanned(fb, j, c, nunits)
        invariant !grown ==> fb == fb0 && owned == old(owned) && (old(started) ==> freep == old(freep))
        invariant grown ==> answer.Some? && HasFit(fb, nunits) && !HasFit(fb0, nunits)
        invariant grown ==> owned == old(owned) + Interval(answer.value, Asked(nunits))
        invariant grown ==> Granted(fb0, at, answer.value, nunits, fb, freep)
        decreases !grown, Ahead(fb, j, c)
      {
        EntryLinked(ptr, size, fb, Succ(fb, c));
        ScanMore(fb, j, c, nunits);
        if size[p] >= nunits {
          k := Succ(fb, c);
          FitFound(fb, freep, j, c, nunits);
          ghost var fb1, freep1 := fb, freep;
          var h := Take(prevp, p, nunits, c);
          if grown { GrantTaken(fb0, at, answer.value, nunits, fb1, freep1, k); }
          return Some(h + 1), k;
        }
        assert p == freep <==> Succ(fb, c) == j by { EntriesApart(fb, live, owned, base, Succ(fb, c), j); }
        if p == freep {
          var ok;
          ok, at := Morecore(nunits, answer);
          if !ok {
            return None, k;
          }
          p, grown := freep, true;
          j := EntryAt(fb, freep);
          c := j;
          ScanStart(fb, j, nunits);
        } else {
          c := Succ(fb, c);
        }
        EntryLinked(ptr, size, fb, c);
        prevp, p := p, ptr[p];
      }
    }
  }

  /** morecore put the memory that sbrk granted at hp into the list and left freep at the entry before it. */
  ghost predicate Granted(fb0: seq<Blk>, at: nat, hp: nat, nunits: nat, fb: seq<Blk>, freep: nat)
  {
    After(fb0, at, hp) && fb == Insert(fb0, at, Blk(hp, Asked(nunits))) && freep == fb0[at].a
  }

  /** With nothing that fits, the block is the next fit once the granted memory is in the list. */
  ghost predicate TakenFromGrant(fb0: seq<Blk>, hp: nat, nunits: nat, k: nat, fb: seq<Blk>, h: nat)
  {
    nunits >= 1 && exists at: nat, fb1: seq<Blk>, freep: nat ::
      && Granted(fb0, at, hp, nunits, fb1, freep) && NextFit(fb1, freep, nunits, k)
      && fb == Carve(fb1, k, nunits) && h == Carved(fb1, k, nunits).a
  }

  lemma GrantTaken(fb0: seq<Blk>, at: nat, hp: nat, nunits: nat, fb: seq<Blk>, freep: nat, k: nat)
    requires Granted(fb0, at, hp, nunits, fb, freep) && NextFit(fb, freep, nunits, k) && nunits >= 1
    ensures k < |fb| && 1 <= nunits <= fb[k].n
    ensures TakenFromGrant(fb0, hp, nunits, k, Carve(fb, k, nunits), Carved(fb, k, nunits).a)
  {}

  /** Every allocated block's header holds its size. */
  ghost predicate Sized(size: map<nat, nat>, live: map<nat, nat>)
  {
    forall a :: a in live ==> a in size && size[a] == live[a]
  }

  ghost predicate Listed(fb: seq<Blk>, p: nat)
  {
    exists j :: 0 <= j < |fb| && fb[j].a == p
  }

  // ---- the search of malloc ----

  lemma EntryAt(fb: seq<Blk>, p: nat) returns (j: nat)
    requires Listed(fb, p)
    ensures j < |fb| && fb[j].a == p
  {
    j :| 0 <= j < |fb| && fb[j].a == p;
  }

  /** nunits for a request, in 32-bit arithmetic. */
  function UnitsFor(nbytes: Word32): (n: nat)
    ensures n >= 1
  {
    (nbytes + HEADER - 1) % 0x1_0000_0000 / HEADER + 1
  }

  /**
    The block holds the bytes asked for exactly when the rounding does not wrap around. A request for all 2^32 - 1
    bytes gets a header and no room.
   */
  lemma UnitsSuffice(nbytes: Word32)
    ensures HEADER * (UnitsFor(nbytes) - 1) >= nbytes <==> nbytes + HEADER - 1 < 0x1_0000_0000
    ensures nbytes + HEADER - 1 < 0x1_0000_0000 ==> HEADER * (UnitsFor(nbytes) - 1) < nbytes + HEADER
    ensures UnitsFor(0xFFFF_FFFF) == 1
  {}

  /** The int that sbrk receives for nu units: 32-bit multiplication, then a signed reading. */
  function SbrkArgument(nu: nat): (n: int)
  {
    var w := nu * HEADER % 0x1_0000_0000;
    if w < 0x8000_0000 then w else w - 0x1_0000_0000
  }

  /** morecore asks for the bytes it then counts as its own exactly below 2^28 units. */
  lemma SbrkAsksExactly(nbytes: Word32)
    ensures var nu := Asked(UnitsFor(nbytes)); SbrkArgument(nu) == nu * HEADER <==> nu < 0x1000_0000
  {}

  /** i is met on the way from just after j up to c, around the ring. */
  predicate InArc(j: nat, c: nat, i: nat)
  {
    if j <= c then j < i <= c else i > j || i <= c
  }

  ghost predicate Scanned(fb: seq<Blk>, j: nat, c: nat, nunits: nat)
  {
    forall i :: 0 <= i < |fb| && InArc(j, c, i) ==> fb[i].n < nunits
  }

  /** Entry k is the first one after freep, around the ring, that holds nunits. */
  ghost predicate NextFit(fb: seq<Blk>, freep: nat, nunits: nat, k: nat)
  {
    k < |fb| && fb[k].n >= nunits &&
    exists j, c :: 0 <= j < |fb| && 0 <= c < |fb| && fb[j].a == freep && Succ(fb, c) == k && Scanned(fb, j, c, nunits)
  }

  /** How far the scan has to go before it is back at j. */
  function Ahead(fb: seq<Blk>, j: nat, c: nat): (r: nat)
    requires j < |fb| && c < |fb|
  {
    if c >= j then |fb| - (c - j) else j - c
  }

  lemma ScanStart(fb: seq<Blk>, j: nat, nunits: nat)
    ensures Scanned(fb, j, j, nunits)
  {}

  /** One more entry looked at: the scan goes on, or it has come around and nothing fits. */
  lemma ScanMore(fb: seq<Blk>, j: nat, c: nat, nunits: nat)
    requires j < |fb| && c < |fb| && Scanned(fb, j, c, nunits)
    ensures fb[Succ(fb, c)].n < nunits && Succ(fb, c) != j ==>
              Scanned(fb, j, Succ(fb, c), nunits) && Ahead(fb, j, Succ(fb, c)) < Ahead(fb, j, c)
    ensures fb[Succ(fb, c)].n < nunits && Succ(fb, c) == j ==> !HasFit(fb, nunits)
    ensures fb[Succ(fb, c)].n >= nunits ==> HasFit(fb, nunits)
  {}

  lemma FitFound(fb: seq<Blk>, freep: nat, j: nat, c: nat, nunits: nat)
    requires j < |fb| && c < |fb| && fb[j].a == freep && Scanned(fb, j, c, nunits) && fb[Succ(fb, c)].n >= nunits
    ensures NextFit(fb, freep, nunits, Succ(fb, c))
  {
    hide Scanned;
  }

  lemma EntriesApart(fb: seq<Blk>, live: map<nat, nat>, owned: set<nat>, base: nat, i: nat, j: nat)
    requires WfHeap(fb, live, owned, base) && i < |fb| && j < |fb|
    ensures fb[i].a == fb[j].a <==> i == j
  {
    if i < j { assert End(fb[i]) < fb[j].a; }
    if j < i { assert End(fb[j]) < fb[i].a; }
  }

  lemma NotStartedFits(fb: seq<Blk>, base: nat, nunits: nat)
    requires nunits >= 1
    ensures fb == [Blk(base, 0)] ==> !HasFit(fb, nunits)
  {}

  lemma FirstLink(ptr: map<nat, nat>, size: map<nat, nat>, base: nat)
    requires base in ptr && base in size && ptr[base] == base && size[base] == 0
    ensures Linked(ptr, size, [Blk(base, 0)]) && [Blk(base, 0)][0].a == base
  {
    assert LinkedAt(ptr, size, [Blk(base, 0)], 0);
  }

  /** The block taken starts at no allocated block, and at no other entry than its own. */
  lemma NewHeader(fb: seq<Blk>, live: map<nat, nat>, owned: set<nat>, base: nat, k: nat, nu: nat)
    requires WfHeap(fb, live, owned, base) && k < |fb| && 1 <= nu <= fb[k].n
    ensures k > 0 && forall a :: a in live ==> a != fb[k].a && a != Carved(fb, k, nu).a
  {
    forall a | a in live ensures a != fb[k].a && a != Carved(fb, k, nu).a {
      LiveNotFree(fb, live, owned, base, a);
      LiveUnit(live, a, a);
      if a == Carved(fb, k, nu).a { FreeUnit(fb, k, a); }
    }
  }

  lemma CarveLinked(ptr0: map<nat, nat>, size0: map<nat, nat>, ptr: map<nat, nat>, size: map<nat, nat>,
                    fb: seq<Blk>, base: nat, k: nat, nu: nat)
    requires WfList(fb, base) && Linked(ptr0, size0, fb) && 1 <= k < |fb| && 1 <= nu <= fb[k].n
    requires SameBut(ptr0, ptr, fb[k - 1].a, fb[k - 1].a)
    requires fb[k].n == nu ==> size == size0 && fb[k - 1].a in ptr && ptr[fb[k - 1].a] == fb[Succ(fb, k)].a
    requires fb[k].n > nu ==> ptr == ptr0 && size == size0[fb[k].a := fb[k].n - nu][End(fb[k]) - nu := nu]
    ensures Linked(ptr, size, Carve(fb, k, nu))
  {
    hide Splice;
    forall i | 0 <= i < |fb| && !(k - 1 <= i < k + 1) ensures LinkedAt(ptr, size, fb, i) {
      assert LinkedAt(ptr0, size0, fb, i);
      assert i < k ==> End(fb[i]) < fb[k - 1].a;
      assert i > k ==> End(fb[k]) < fb[i].a;
    }
    assert LinkedAt(ptr0, size0, fb, k - 1) && LinkedAt(ptr0, size0, fb, k);
    assert End(fb[k - 1]) < fb[k].a;
    LinkedSplice(ptr, size, fb, k, k + 1, if fb[k].n == nu then [] else [Blk(fb[k].a, fb[k].n - nu)]);
  }

  lemma TakenSized(size: map<nat, nat>, size': map<nat, nat>, live: map<nat, nat>, p: nat, h: nat, nu: nat)
    requires Sized(size, live) && p !in live && h !in live && h in size' && size'[h] == nu && SameBut(size, size', p, h)
    ensures Sized(size', live[h := nu])
  {}

  lemma PrevStays(fb: seq<Blk>, base: nat, c: nat, nu: nat)
    requires WfList(fb, base) && c < |fb| && 1 <= nu <= fb[Succ(fb, c)].n
    ensures Listed(Carve(fb, Succ(fb, c), nu), fb[c].a)
  {
    assert Carve(fb, Succ(fb, c), nu)[c].a == fb[c].a;
  }

  /** What morecore asks sbrk for. */
  function Asked(nunits: nat): (nu: nat)
    ensures nunits <= nu && MINCORE <= nu && (nu == nunits || nu == MINCORE)
  {
    if nunits < MINCORE then MINCORE else nunits
  }

  /** at lies past base and past everything obtained so far. */
  ghost predicate Past(owned: set<nat>, base: nat, at: nat)
  {
    at > base && forall u :: u in owned ==> u < at
  }

  ghost predicate HasFit(fb: seq<Blk>, nunits: nat)
  {
    exists i :: 0 <= i < |fb| && fb[i].n >= nunits
  }

  lemma JoinedFits(fb: seq<Blk>, k: nat, b: Blk, nunits: nat)
    requires k < |fb| && b.n >= nunits
    ensures HasFit(Insert(fb, k, b), nunits)
  {
    var r := Insert(fb, k, b);
    assert r[if JoinsDown(fb, k, b) then k else k + 1] == Joined(fb, k, b);
  }

  lemma EntriesBelow(fb: seq<Blk>, live: map<nat, nat>, owned: set<nat>, base: nat, at: nat)
    requires WfHeap(fb, live, owned, base) && at > base && forall u :: u in owned ==> u < at
    ensures forall i :: 0 <= i < |fb| ==> fb[i].a != at
  {
    forall i | 0 <= i < |fb| ensures fb[i].a != at {
      if i > 0 {
        assert InBlk(fb[i], fb[i].a);
        assert InFree(fb, fb[i].a);
      }
    }
  }

  lemma LinkedElsewhere(ptr: map<nat, nat>, size: map<nat, nat>, size': map<nat, nat>, fb: seq<Blk>, x: nat)
    requires Linked(ptr, size, fb) && SameBut(size, size', x, x) && forall i :: 0 <= i < |fb| ==> fb[i].a != x
    ensures Linked(ptr, size', fb)
  {
    forall i | 0 <= i < |fb| ensures LinkedAt(ptr, size', fb, i) { assert LinkedAt(ptr, size, fb, i); }
  }

  lemma NotBelowBase(fb: seq<Blk>, base: nat, k: nat, b: Blk)
    requires WfList(fb, base) && FitsAfter(fb, k, b)
    ensures b.a + b.n == fb[Succ(fb, k)].a <==> JoinsUp(fb, k, b)
  {}

  lemma EntryLinked(ptr: map<nat, nat>, size: map<nat, nat>, fb: seq<Blk>, i: nat)
    requires Linked(ptr, size, fb) && i < |fb|
    ensures LinkedAt(ptr, size, fb, i)
    ensures fb[i].a in ptr && fb[i].a in size && size[fb[i].a] == fb[i].n && ptr[fb[i].a] == fb[Succ(fb, i)].a
  {}

  /** The entry before the inserted block is still in the list. */
  lemma FreepStays(fb: seq<Blk>, k: nat, b: Blk)
    requires k < |fb|
    ensures exists j :: 0 <= j < |Insert(fb, k, b)| && Insert(fb, k, b)[j].a == fb[k].a
  {
    assert Insert(fb, k, b)[k].a == fb[k].a;
  }

  /** No allocated block starts at an entry of the list. */
  lemma LiveSizes(fb: seq<Blk>, live: map<nat, nat>, owned: set<nat>, base: nat, bp: nat, k: nat)
    requires WfHeap(fb, live, owned, base) && bp in live && k < |fb|
    ensures forall a :: a in live ==> a != fb[k].a
  {
    forall a | a in live ensures a != fb[k].a { LiveNotFree(fb, live, owned, base, a); }
  }

  lemma WfListOf(fb: seq<Blk>, live: map<nat, nat>, owned: set<nat>, base: nat)
    requires WfHeap(fb, live, owned, base)
    ensures WfList(fb, base)
  {}
}
