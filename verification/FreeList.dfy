/**
  The free list of umalloc.c as a value: blocks in address order, starting with the
  zero-size block `base`. Addresses and sizes are in units of sizeof(Header).
 */
module FreeList {
  import opened Finite

  datatype Blk = Blk(a: nat, n: nat)

  function End(b: Blk): (e: nat) { b.a + b.n }

  /** Address-ordered and fully coalesced: each block ends strictly before the next begins. */
  predicate WfList(fb: seq<Blk>, base: nat)
  {
    && |fb| >= 1 && fb[0] == Blk(base, 0)
    && (forall i :: 1 <= i < |fb| ==> fb[i].n >= 1)
    && forall i, j :: 0 <= i < j < |fb| ==> End(fb[i]) < fb[j].a
  }

  predicate InBlk(b: Blk, u: nat) { b.a <= u < End(b) }

  predicate Apart(b: Blk, c: Blk) { End(b) <= c.a || End(c) <= b.a }

  ghost predicate InFree(fb: seq<Blk>, u: nat)
  {
    exists i :: 0 <= i < |fb| && InBlk(fb[i], u)
  }

  ghost predicate InLive(live: map<nat, nat>, u: nat)
  {
    exists a :: a in live && InBlk(Blk(a, live[a]), u)
  }

  /** The allocated blocks are nonempty, apart from each other, and share no unit with a free block. */
  ghost predicate LiveApart(fb: seq<Blk>, live: map<nat, nat>)
  {
    && (forall a :: a in live ==> live[a] >= 1)
    && (forall a, b :: a in live && b in live && a != b ==> Apart(Blk(a, live[a]), Blk(b, live[b])))
    && (forall u :: !(InFree(fb, u) && InLive(live, u)))
  }

  /** Conservation: the units obtained from sbrk are exactly the free and the allocated ones. */
  ghost predicate Conserved(fb: seq<Blk>, live: map<nat, nat>, owned: set<nat>)
  {
    forall u :: u in owned <==> InFree(fb, u) || InLive(live, u)
  }

  ghost predicate WfHeap(fb: seq<Blk>, live: map<nat, nat>, owned: set<nat>, base: nat)
  {
    && WfList(fb, base) && LiveApart(fb, live) && Conserved(fb, live, owned)
    && forall u :: u in owned ==> u > base
  }

  /** bp belongs right after entry k. */
  predicate After(fb: seq<Blk>, k: nat, bp: nat)
  {
    k < |fb| && fb[k].a < bp && (k + 1 < |fb| ==> bp < fb[k + 1].a)
  }

  function Place(fb: seq<Blk>, base: nat, bp: nat, k: nat): (r: nat)
    requires WfList(fb, base) && k < |fb| && fb[k].a < bp && (forall i :: 0 <= i < |fb| ==> fb[i].a != bp)
    ensures After(fb, r, bp)
    decreases |fb| - k
  {
    if k + 1 == |fb| || bp < fb[k + 1].a then k else Place(fb, base, bp, k + 1)
  }

  // ---- replacing a stretch of the list by one block ----

  function Splice(fb: seq<Blk>, m: nat, q: nat, mid: seq<Blk>): (r: seq<Blk>)
    requires m <= q <= |fb|
  {
    fb[..m] + mid + fb[q..]
  }

  lemma SpliceAt(fb: seq<Blk>, m: nat, q: nat, mid: seq<Blk>, i: nat)
    requires m <= q <= |fb| && i < |Splice(fb, m, q, mid)|
    ensures Splice(fb, m, q, mid)[i] == if i < m then fb[i] else if i < m + |mid| then mid[i - m]
            else fb[i - m - |mid| + q]
  {}

  lemma SpliceWf(fb: seq<Blk>, base: nat, m: nat, q: nat, mid: seq<Blk>)
    requires WfList(fb, base) && 1 <= m <= q <= |fb| && |mid| <= 1
    requires mid != [] ==> mid[0].n >= 1 && End(fb[m - 1]) < mid[0].a && (q < |fb| ==> End(mid[0]) < fb[q].a)
    ensures WfList(Splice(fb, m, q, mid), base)
  {
    var r := Splice(fb, m, q, mid);
    hide Splice;
    SpliceAt(fb, m, q, mid, 0);
    forall i | 1 <= i < |r| ensures r[i].n >= 1 { SpliceAt(fb, m, q, mid, i); }
    forall i, j | 0 <= i < j < |r| ensures End(r[i]) < r[j].a {
      SpliceAt(fb, m, q, mid, i);
      SpliceAt(fb, m, q, mid, j);
      if mid != [] && j == m && i < m - 1 { assert End(fb[i]) < fb[m - 1].a; }
      if mid != [] && i == m && j > m + 1 { assert End(fb[q]) < fb[j - m - 1 + q].a; }
    }
  }

  /** What a splice covers: everything outside the replaced stretch, and the new block. */
  lemma SpliceCovers(fb: seq<Blk>, m: nat, q: nat, mid: seq<Blk>, u: nat)
    requires m <= q <= |fb| && |mid| <= 1
    ensures InFree(Splice(fb, m, q, mid), u) <==>
              (mid != [] && InBlk(mid[0], u)) || exists i :: 0 <= i < |fb| && !(m <= i < q) && InBlk(fb[i], u)
  {
    var r := Splice(fb, m, q, mid);
    hide Splice;
    if i :| 0 <= i < |r| && InBlk(r[i], u) { SpliceAt(fb, m, q, mid, i); }
    if mid != [] { SpliceAt(fb, m, q, mid, m); }
    forall i | 0 <= i < |fb| && !(m <= i < q) && InBlk(fb[i], u) ensures InFree(r, u) {
      var j := if i < m then i else i - q + m + |mid|;
      SpliceAt(fb, m, q, mid, j);
    }
  }

  // ---- free ----

  predicate JoinsUp(fb: seq<Blk>, k: nat, b: Blk) { k + 1 < |fb| && End(b) == fb[k + 1].a }

  predicate JoinsDown(fb: seq<Blk>, k: nat, b: Blk) requires k < |fb| { End(fb[k]) == b.a }

  /** b together with the neighbours it touches. */
  function Joined(fb: seq<Blk>, k: nat, b: Blk): (j: Blk)
    requires k < |fb|
  {
    var n := b.n + if JoinsUp(fb, k, b) then fb[k + 1].n else 0;
    if JoinsDown(fb, k, b) then Blk(fb[k].a, fb[k].n + n) else Blk(b.a, n)
  }

  /** free(): insert b after entry k and join it with the neighbours it touches. */
  function Insert(fb: seq<Blk>, k: nat, b: Blk): (r: seq<Blk>)
    requires k < |fb|
  {
    Splice(fb, if JoinsDown(fb, k, b) then k else k + 1, if JoinsUp(fb, k, b) then k + 2 else k + 1, [Joined(fb, k, b)])
  }

  predicate FitsAfter(fb: seq<Blk>, k: nat, b: Blk)
  {
    k < |fb| && b.n >= 1 && End(fb[k]) <= b.a && fb[k].a < b.a && (k + 1 < |fb| ==> End(b) <= fb[k + 1].a)
  }

  lemma InsertWf(fb: seq<Blk>, base: nat, k: nat, b: Blk)
    requires WfList(fb, base) && FitsAfter(fb, k, b)
    ensures WfList(Insert(fb, k, b), base)
  {
    hide Splice;
    var m, q := if JoinsDown(fb, k, b) then k else k + 1, if JoinsUp(fb, k, b) then k + 2 else k + 1;
    SpliceWf(fb, base, m, q, [Joined(fb, k, b)]);
  }

  /** Joining covers exactly the units of the inserted block besides the free ones. */
  lemma InsertCovers(fb: seq<Blk>, base: nat, k: nat, b: Blk, u: nat)
    requires WfList(fb, base) && FitsAfter(fb, k, b)
    ensures InFree(Insert(fb, k, b), u) <==> InFree(fb, u) || InBlk(b, u)
  {
    hide Splice;
    var m, q := if JoinsDown(fb, k, b) then k else k + 1, if JoinsUp(fb, k, b) then k + 2 else k + 1;
    var j := Joined(fb, k, b);
    SpliceCovers(fb, m, q, [j], u);
    assert InBlk(j, u) <==>
             InBlk(b, u) || (JoinsDown(fb, k, b) && InBlk(fb[k], u)) || (JoinsUp(fb, k, b) && InBlk(fb[k + 1], u));
  }

  // ---- the heap operations on values ----

  /** A block handed to free() lies between two entries of the list. */
  lemma LiveFits(fb: seq<Blk>, live: map<nat, nat>, owned: set<nat>, base: nat, bp: nat, k: nat)
    requires WfHeap(fb, live, owned, base) && bp in live && After(fb, k, bp)
    ensures FitsAfter(fb, k, Blk(bp, live[bp]))
  {
    var b := Blk(bp, live[bp]);
    assert InBlk(b, bp) && InLive(live, bp);
    if k + 1 < |fb| && fb[k + 1].a < End(b) {
      var u := fb[k + 1].a;
      assert InBlk(b, u) && InBlk(fb[k + 1], u);
      assert InLive(live, u) && InFree(fb, u);
    }
  }

  /** No entry of the list starts where an allocated block starts. */
  lemma LiveNotFree(fb: seq<Blk>, live: map<nat, nat>, owned: set<nat>, base: nat, bp: nat)
    requires WfHeap(fb, live, owned, base) && bp in live
    ensures bp > base && forall i :: 0 <= i < |fb| ==> fb[i].a != bp
  {
    assert InBlk(Blk(bp, live[bp]), bp) && InLive(live, bp);
    forall i | 0 <= i < |fb| ensures fb[i].a != bp {
      if i > 0 { assert InBlk(fb[i], fb[i].a); }
    }
  }

  lemma LiveWithout(live: map<nat, nat>, bp: nat, u: nat)
    requires bp in live && forall a, b :: a in live && b in live && a != b ==> Apart(Blk(a, live[a]), Blk(b, live[b]))
    ensures InLive(live - {bp}, u) <==> InLive(live, u) && !InBlk(Blk(bp, live[bp]), u)
  {
    var rest := live - {bp};
    if InLive(live, u) && !InBlk(Blk(bp, live[bp]), u) {
      var a :| a in live && InBlk(Blk(a, live[a]), u);
      assert a in rest && rest[a] == live[a];
    }
    if a :| a in rest && InBlk(Blk(a, rest[a]), u) {
      assert Apart(Blk(a, live[a]), Blk(bp, live[bp]));
    }
  }

  /** free(): the block moves from the allocated to the free side and nothing else changes. */
  lemma FreeHeap(fb: seq<Blk>, live: map<nat, nat>, owned: set<nat>, base: nat, bp: nat, k: nat)
    requires WfHeap(fb, live, owned, base) && bp in live && After(fb, k, bp)
    ensures FitsAfter(fb, k, Blk(bp, live[bp]))
    ensures WfHeap(Insert(fb, k, Blk(bp, live[bp])), live - {bp}, owned, base)
  {
    hide Insert, InFree, InLive;
    LiveFits(fb, live, owned, base, bp, k);
    var b := Blk(bp, live[bp]);
    InsertWf(fb, base, k, b);
    forall u ensures InFree(Insert(fb, k, b), u) <==> InFree(fb, u) || InBlk(b, u) { InsertCovers(fb, base, k, b, u); }
    forall u ensures InLive(live - {bp}, u) <==> InLive(live, u) && !InBlk(b, u) { LiveWithout(live, bp, u); }
    forall u | InBlk(b, u) ensures InLive(live, u) { LiveUnit(live, bp, u); }
  }

  lemma LiveUnit(live: map<nat, nat>, bp: nat, u: nat)
    requires bp in live && InBlk(Blk(bp, live[bp]), u)
    ensures InLive(live, u)
  {}

  /** malloc(): nu units from the end of entry k, or all of it. */
  function Carve(fb: seq<Blk>, k: nat, nu: nat): (r: seq<Blk>)
    requires k < |fb| && 1 <= nu <= fb[k].n
  {
    Splice(fb, k, k + 1, if fb[k].n == nu then [] else [Blk(fb[k].a, fb[k].n - nu)])
  }

  function Carved(fb: seq<Blk>, k: nat, nu: nat): (b: Blk)
    requires k < |fb| && nu <= fb[k].n
  {
    Blk(End(fb[k]) - nu, nu)
  }

  lemma CarveCovers(fb: seq<Blk>, base: nat, k: nat, nu: nat, u: nat)
    requires WfList(fb, base) && k < |fb| && 1 <= nu <= fb[k].n
    ensures InFree(Carve(fb, k, nu), u) <==> InFree(fb, u) && !InBlk(Carved(fb, k, nu), u)
  {
    hide Splice;
    var mid := if fb[k].n == nu then [] else [Blk(fb[k].a, fb[k].n - nu)];
    SpliceCovers(fb, k, k + 1, mid, u);
    if i :| 0 <= i < |fb| && InBlk(fb[i], u) {
      assert i < k ==> End(fb[i]) < fb[k].a;
      assert i > k ==> End(fb[k]) < fb[i].a;
    }
  }

  lemma LiveWith(live: map<nat, nat>, b: Blk, u: nat)
    requires b.a !in live
    ensures InLive(live[b.a := b.n], u) <==> InLive(live, u) || InBlk(b, u)
  {
    var more := live[b.a := b.n];
    if InBlk(b, u) { assert b.a in more && more[b.a] == b.n; }
    if a :| a in live && InBlk(Blk(a, live[a]), u) { assert a in more && more[a] == live[a]; }
  }

  /** Blocks that share no unit are apart. */
  lemma ApartUnits(b: Blk, c: Blk)
    requires b.n >= 1 && c.n >= 1 && forall u :: !(InBlk(b, u) && InBlk(c, u))
    ensures Apart(b, c)
  {
    assert !(InBlk(b, b.a) && InBlk(c, b.a)) && !(InBlk(b, c.a) && InBlk(c, c.a));
  }

  /** A block that shares no unit with the allocated ones can join them. */
  lemma LiveMore(live: map<nat, nat>, b: Blk)
    requires b.n >= 1 && (forall a :: a in live ==> live[a] >= 1)
    requires forall a, c :: a in live && c in live && a != c ==> Apart(Blk(a, live[a]), Blk(c, live[c]))
    requires forall u :: InBlk(b, u) ==> !InLive(live, u)
    ensures b.a !in live
    ensures var more := live[b.a := b.n];
            forall a, c :: a in more && c in more && a != c ==> Apart(Blk(a, more[a]), Blk(c, more[c]))
  {
    assert InBlk(b, b.a);
    if b.a in live { LiveUnit(live, b.a, b.a); }
    forall a | a in live ensures Apart(b, Blk(a, live[a])) {
      forall u | InBlk(b, u) ensures !InBlk(Blk(a, live[a]), u) {
        if InBlk(Blk(a, live[a]), u) { LiveUnit(live, a, u); }
      }
      ApartUnits(b, Blk(a, live[a]));
    }
  }

  lemma FreeUnit(fb: seq<Blk>, k: nat, u: nat)
    requires k < |fb| && InBlk(fb[k], u)
    ensures InFree(fb, u)
  {}

  /** malloc() of a block that fits: it moves from the free to the allocated side and nothing else changes. */
  lemma MallocHeap(fb: seq<Blk>, live: map<nat, nat>, owned: set<nat>, base: nat, k: nat, nu: nat)
    requires WfHeap(fb, live, owned, base) && k < |fb| && 1 <= nu <= fb[k].n
    ensures var b := Carved(fb, k, nu);
            b.a !in live && WfHeap(Carve(fb, k, nu), live[b.a := nu], owned, base)
  {
    hide Carve, InFree, InLive;
    var b := Carved(fb, k, nu);
    assert WfList(Carve(fb, k, nu), base) by { CarveWf(fb, base, k, nu); }
    forall u | InBlk(b, u) ensures InFree(fb, u) { FreeUnit(fb, k, u); }
    LiveMore(live, b);
    forall u ensures InFree(Carve(fb, k, nu), u) <==> InFree(fb, u) && !InBlk(b, u) { CarveCovers(fb, base, k, nu, u); }
    forall u ensures InLive(live[b.a := b.n], u) <==> InLive(live, u) || InBlk(b, u) { LiveWith(live, b, u); }
  }

  lemma CarveWf(fb: seq<Blk>, base: nat, k: nat, nu: nat)
    requires WfList(fb, base) && k < |fb| && 1 <= nu <= fb[k].n
    ensures WfList(Carve(fb, k, nu), base)
  {
    hide Splice;
    SpliceWf(fb, base, k, k + 1, if fb[k].n == nu then [] else [Blk(fb[k].a, fb[k].n - nu)]);
  }

  /** morecore(): memory newly obtained from sbrk counts as allocated until it is freed. */
  lemma GrantHeap(fb: seq<Blk>, live: map<nat, nat>, owned: set<nat>, base: nat, at: nat, n: nat)
    requires WfHeap(fb, live, owned, base) && n >= 1 && at > base && forall u :: u in owned ==> u < at
    ensures at !in live && WfHeap(fb, live[at := n], owned + Interval(at, n), base)
  {
    hide InFree, InLive, Interval;
    var b := Blk(at, n);
    LiveMore(live, b);
    forall u ensures InLive(live[at := n], u) <==> InLive(live, u) || InBlk(b, u) { LiveWith(live, b, u); }
  }

  // ---- the ring in memory ----

  /** The entry after i, around the ring. */
  function Succ(fb: seq<Blk>, i: nat): (j: nat)
    requires i < |fb|
    ensures j < |fb|
  {
    if i + 1 < |fb| then i + 1 else 0
  }

  predicate LinkedAt(ptr: map<nat, nat>, size: map<nat, nat>, fb: seq<Blk>, i: nat)
    requires i < |fb|
  {
    && fb[i].a in ptr && fb[i].a in size
    && size[fb[i].a] == fb[i].n && ptr[fb[i].a] == fb[Succ(fb, i)].a
  }

  /** The headers in memory spell out the list fb, linked into a ring. */
  ghost predicate Linked(ptr: map<nat, nat>, size: map<nat, nat>, fb: seq<Blk>)
  {
    forall i :: 0 <= i < |fb| ==> LinkedAt(ptr, size, fb, i)
  }

  /** Relinking around a splice. */
  lemma LinkedSplice(ptr: map<nat, nat>, size: map<nat, nat>, fb: seq<Blk>, m: nat, q: nat, mid: seq<Blk>)
    requires 1 <= m <= q <= |fb| && |mid| <= 1
    requires forall i :: 0 <= i < |fb| && !(m - 1 <= i < q) ==> LinkedAt(ptr, size, fb, i)
    requires fb[m - 1].a in ptr && fb[m - 1].a in size && size[fb[m - 1].a] == fb[m - 1].n
    requires var rest := if q < |fb| then fb[q].a else fb[0].a;
             && ptr[fb[m - 1].a] == (if mid == [] then rest else mid[0].a)
             && (mid != [] ==>
                  mid[0].a in ptr && mid[0].a in size && size[mid[0].a] == mid[0].n && ptr[mid[0].a] == rest)
    ensures Linked(ptr, size, Splice(fb, m, q, mid))
  {
    var r := Splice(fb, m, q, mid);
    assert |r| == m + |mid| + |fb| - q;
    hide Splice;
    forall i | 0 <= i < |r| ensures LinkedAt(ptr, size, r, i) {
      SpliceAt(fb, m, q, mid, i);
      SpliceAt(fb, m, q, mid, Succ(r, i));
      if i < m - 1 {
        assert LinkedAt(ptr, size, fb, i);
      } else if i >= m + |mid| {
        assert LinkedAt(ptr, size, fb, i - m - |mid| + q);
      }
    }
  }

  /** The maps agree away from addresses x and y. */
  ghost predicate SameBut(m: map<nat, nat>, m': map<nat, nat>, x: nat, y: nat)
  {
    forall a :: a in m && a != x && a != y ==> a in m' && m'[a] == m[a]
  }

  lemma EntriesDiffer(fb: seq<Blk>, base: nat, k: nat, b: Blk, i: nat)
    requires WfList(fb, base) && FitsAfter(fb, k, b) && i < |fb| && i != k
    ensures fb[i].a != fb[k].a && fb[i].a != b.a
  {
    if i > k + 1 { assert End(fb[k + 1]) < fb[i].a; }
  }

  /** The memory that free() leaves spells out the list with b inserted. */
  lemma InsertLinked(ptr0: map<nat, nat>, size0: map<nat, nat>, ptr: map<nat, nat>, size: map<nat, nat>,
                     fb: seq<Blk>, base: nat, k: nat, b: Blk)
    requires WfList(fb, base) && FitsAfter(fb, k, b) && Linked(ptr0, size0, fb)
    requires SameBut(ptr0, ptr, b.a, fb[k].a) && SameBut(size0, size, b.a, fb[k].a)
    requires fb[k].a in ptr && fb[k].a in size
    requires var q := if JoinsUp(fb, k, b) then k + 2 else k + 1;
             var rest := if q < |fb| then fb[q].a else fb[0].a;
             if JoinsDown(fb, k, b) then ptr[fb[k].a] == rest && size[fb[k].a] == Joined(fb, k, b).n
             else && ptr[fb[k].a] == b.a && size[fb[k].a] == fb[k].n
                  && b.a in ptr && b.a in size && ptr[b.a] == rest && size[b.a] == Joined(fb, k, b).n
    ensures Linked(ptr, size, Insert(fb, k, b))
  {
    hide Splice, WfList;
    var m, q := if JoinsDown(fb, k, b) then k else k + 1, if JoinsUp(fb, k, b) then k + 2 else k + 1;
    assert k > 0 || !JoinsDown(fb, k, b) by { FirstIsBase(fb, base); }
    forall i | 0 <= i < |fb| && i != k ensures LinkedAt(ptr, size, fb, i) {
      assert LinkedAt(ptr0, size0, fb, i);
      EntriesDiffer(fb, base, k, b, i);
    }
    if m == k { assert LinkedAt(ptr, size, fb, k - 1); }
    LinkedSplice(ptr, size, fb, m, q, [Joined(fb, k, b)]);
  }

  lemma FirstIsBase(fb: seq<Blk>, base: nat)
    requires WfList(fb, base)
    ensures fb[0] == Blk(base, 0)
  {}

  /** Where free()'s search stands at entry c: it stops exactly at the place of bp. */
  lemma AtPlace(fb: seq<Blk>, base: nat, k: nat, bp: nat, c: nat)
    requires WfList(fb, base) && After(fb, k, bp) && bp > base && c < |fb|
    ensures var p, n := fb[c].a, fb[Succ(fb, c)].a;
            && (bp > p && bp < n <==> c == k && k + 1 < |fb|)
            && (p >= n && (bp > p || bp < n) <==> c == k && k + 1 == |fb|)
  {
    if c < k { assert End(fb[c + 1]) <= fb[k].a || c + 1 == k; }
    if c > k { assert c == k + 1 || End(fb[k + 1]) < fb[c].a; }
  }
}
