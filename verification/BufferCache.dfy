/**
  The buffer cache of bio.c over the disk of memide.c.  The buffers are the array
  elements buf[0..NBUF); the list head is element NBUF, so list pointers are indices.
  Each method is one critical section (under bcache.lock) or one step of the process
  that holds a buffer's sleep lock, so any interleaving is a sequence of method calls.
 */
module BufferCache {
  import opened Options
  import opened Blocks
  import Finite

  const NBUF: nat := 30
  const HEAD: nat := NBUF
  const DISKDEV: nat := 1

  datatype Buf = Buf(dev: nat, blockno: nat, valid: bool, dirty: bool, refcnt: nat,
                     locked: bool, data: Block, prev: nat, next: nat)

  // ---- the doubly linked list, as a property of the array contents ----

  predicate DistinctBufs(l: seq<nat>)
  {
    Finite.Below(l, NBUF) && Finite.Distinct(l)
  }

  function Ring(l: seq<nat>): (r: seq<nat>)
    ensures |r| == |l| + 2
  {
    [HEAD] + l + [HEAD]
  }

  /** l lists, from the most recently used, the buffers linked through prev and next. */
  predicate Linked(s: seq<Buf>, l: seq<nat>)
  {
    && |s| == NBUF + 1
    && DistinctBufs(l)
    && forall i :: 0 <= i <= |l| ==> s[Ring(l)[i]].next == Ring(l)[i + 1] && s[Ring(l)[i + 1]].prev == Ring(l)[i]
  }

  function Without(l: seq<nat>, k: nat): (r: seq<nat>)
    requires k < |l|
  {
    l[..k] + l[k + 1..]
  }

  lemma UnlinkLinked(s: seq<Buf>, t: seq<Buf>, l: seq<nat>, k: nat)
    requires Linked(s, l) && k < |l| && |t| == |s|
    requires forall i :: 0 <= i <= NBUF && i != l[k] ==>
               && t[i].prev == (if i == Ring(l)[k + 2] then Ring(l)[k] else s[i].prev)
               && t[i].next == (if i == Ring(l)[k] then Ring(l)[k + 2] else s[i].next)
    ensures Linked(t, Without(l, k))
  {
    var r, q := Ring(l), Ring(Without(l, k));
    forall i | 0 <= i <= |l| - 1 ensures t[q[i]].next == q[i + 1] && t[q[i + 1]].prev == q[i] {
      RingDistinct(l);
      if i < k {
        assert q[i] == r[i] && q[i + 1] == r[i + 1];
      } else if i == k {
        assert q[i] == r[i] && q[i + 1] == r[i + 2];
      } else {
        assert q[i] == r[i + 1] && q[i + 1] == r[i + 2];
      }
    }
  }

  lemma RingDistinct(l: seq<nat>)
    requires DistinctBufs(l)
    ensures forall i, j :: 0 <= i < j <= |l| ==> Ring(l)[i] != Ring(l)[j]
    ensures forall i, j :: 1 <= i < j <= |l| + 1 ==> Ring(l)[i] != Ring(l)[j]
  {}

  lemma InsertLinked(s: seq<Buf>, t: seq<Buf>, l: seq<nat>, b: nat)
    requires Linked(s, l) && b < NBUF && b !in l && |t| == |s|
    requires forall i :: 0 <= i <= NBUF ==>
               && t[i].prev == (if i == Ring(l)[1] then b else if i == b then HEAD else s[i].prev)
               && t[i].next == (if i == HEAD then b else if i == b then Ring(l)[1] else s[i].next)
    ensures Linked(t, [b] + l)
  {
    var r, q := Ring(l), Ring([b] + l);
    forall i | 0 <= i <= |l| + 1 ensures t[q[i]].next == q[i + 1] && t[q[i + 1]].prev == q[i] {
      RingDistinct(l);
      if i >= 1 {
        assert q[i + 1] == r[i] && (i > 1 ==> q[i] == r[i - 1]);
      }
    }
  }

  // ---- what the cache promises about its buffers ----

  predicate Keyed(b: Buf, dev: nat, blockno: nat)
  {
    b.dev == dev && b.blockno == blockno
  }

  /** A block of a real device is cached at most once. (All buffers start with key (0, 0).) */
  predicate Unique(s: seq<Buf>)
  {
    |s| == NBUF + 1 && forall i, j :: 0 <= i < j < NBUF && s[i].dev != 0 ==> !Keyed(s[j], s[i].dev, s[i].blockno)
  }

  predicate InUse(b: Buf)
  {
    b.refcnt > 0 || b.dirty
  }

  /** A valid buffer that is neither dirty nor held equals its disk block. */
  predicate CoherentBuf(b: Buf, disk: Disk)
  {
    && (b.valid ==> b.dev == DISKDEV && b.blockno < |disk|)
    && (b.dirty ==> b.valid)
    && (b.locked ==> b.refcnt > 0)
    && (b.valid && !b.dirty && !b.locked ==> b.data == disk[b.blockno])
  }

  predicate Coherent(s: seq<Buf>, disk: Disk)
  {
    |s| == NBUF + 1 && forall i :: 0 <= i < NBUF ==> CoherentBuf(s[i], disk)
  }

  /** Everything about a buffer except its place in the list. */
  function Content(b: Buf): (c: Buf)
  {
    b.(prev := 0, next := 0)
  }

  /** l lists the buffers from the one released last, where last[b] is when b lost its last reference. */
  predicate ByRelease(l: seq<nat>, last: seq<nat>, clock: nat)
  {
    && Finite.Below(l, |last|)
    && (forall b :: 0 <= b < |last| ==> last[b] <= clock)
    && (forall b, c :: 0 <= b < c < |last| ==> last[b] == 0 || last[b] != last[c])
    && forall i, j :: 0 <= i < j < |l| ==> last[l[i]] >= last[l[j]]
  }

  /** Releasing the buffer at place k moves it to the front. */
  lemma ReleaseOrder(l: seq<nat>, last: seq<nat>, clock: nat, k: nat)
    requires ByRelease(l, last, clock) && k < |l| && Finite.Distinct(l)
    ensures ByRelease([l[k]] + Without(l, k), last[l[k] := clock + 1], clock + 1)
  {
    var l', last' := [l[k]] + Without(l, k), last[l[k] := clock + 1];
    forall i, j | 0 <= i < j < |l'| ensures last'[l'[i]] >= last'[l'[j]] {
      assert l'[j] == l[if j <= k then j - 1 else j];
      if i > 0 { assert l'[i] == l[if i <= k then i - 1 else i]; }
    }
  }

  class Cache {
    const buf: array<Buf>
    var disk: Disk
    ghost var lru: seq<nat>
    ghost var last: seq<nat>     // when each buffer was last left without references, 0 for never
    ghost var clock: nat
    ghost var writes: seq<Write>

    ghost predicate Valid()
      reads this, buf
    {
      && Linked(buf[..], lru) && |lru| == NBUF
      && |last| == NBUF && ByRelease(lru, last, clock)
      && Unique(buf[..])
      && Coherent(buf[..], disk)
    }

    /** Of the buffers that bget may recycle, b was released first. */
    ghost predicate Oldest(b: nat)
      requires buf.Length == NBUF + 1
      reads this, buf
    {
      |last| == NBUF && b < NBUF && forall i :: 0 <= i < NBUF && !InUse(buf[i]) ==> last[b] <= last[i]
    }

    ghost predicate Cached(dev: nat, blockno: nat)
      requires buf.Length == NBUF + 1
      reads this, buf
    {
      exists i :: 0 <= i < NBUF && Keyed(buf[i], dev, blockno)
    }

    /** binit */
    constructor (disk: Disk)
      ensures Valid() && fresh(buf)
      ensures this.disk == disk && writes == []
      ensures forall i :: 0 <= i < NBUF ==> buf[i].dev == 0 && !buf[i].valid && !InUse(buf[i]) && !buf[i].locked
    {
      buf := new Buf[NBUF + 1](i => Buf(0, 0, false, false, 0, false, ZERO, HEAD, HEAD));
      this.disk := disk;
      lru := [];
      last, clock := seq(NBUF, _ => 0), 0;
      writes := [];
      new;
      for b := 0 to NBUF
        modifies this`lru, buf
        invariant |last| == NBUF && forall i :: 0 <= i < NBUF ==> last[i] == 0
        invariant |lru| == b && Linked(buf[..], lru) && forall i :: 0 <= i < |lru| ==> lru[i] < b
        invariant forall i :: 0 <= i <= NBUF ==> Content(buf[i]) == Buf(0, 0, false, false, 0, false, ZERO, 0, 0)
      {
        InsertFront(b);
      }
    }

    /** The four link assignments shared by binit and brelse. */
    method InsertFront(b: nat)
      requires Linked(buf[..], lru) && b < NBUF && b !in lru
      modifies this`lru, buf
      ensures lru == [b] + old(lru) && Linked(buf[..], lru)
      ensures forall i :: 0 <= i <= NBUF ==> Content(buf[i]) == Content(old(buf[i]))
    {
      ghost var s := buf[..];
      assert Ring(lru)[0] == HEAD && Ring(lru)[1] == buf[HEAD].next;
      var first := buf[HEAD].next;
      assert first <= NBUF && first != b && (first == HEAD || first == lru[0]);
      buf[b] := buf[b].(next := first, prev := HEAD);
      buf[first] := buf[first].(prev := b);
      buf[HEAD] := buf[HEAD].(next := b);
      InsertLinked(s, buf[..], lru, b);
      lru := [b] + lru;
    }

    /** The first loop of bget: is the block already cached? */
    method Lookup(dev: nat, blockno: nat) returns (r: Option<nat>)
      requires Valid()
      ensures r.None? ==> !Cached(dev, blockno)
      ensures r.Some? ==> r.value < NBUF && Keyed(buf[r.value], dev, blockno)
    {
      ghost var k := 0;
      var b := buf[HEAD].next;
      assert Ring(lru)[0] == HEAD;
      while b != HEAD
        invariant 0 <= k <= NBUF && b == Ring(lru)[k + 1]
        invariant forall m :: 0 <= m < k ==> !Keyed(buf[lru[m]], dev, blockno)
        decreases NBUF - k
      {
        assert b == lru[k];
        if buf[b].dev == dev && buf[b].blockno == blockno {
          return Some(b);
        }
        assert buf[Ring(lru)[k + 1]].next == Ring(lru)[k + 2];
        b := buf[b].next;
        k := k + 1;
      }
      forall i | 0 <= i < NBUF ensures !Keyed(buf[i], dev, blockno) {
        ghost var m := IndexOf(lru, i);
      }
      return None;
    }

    /** The second loop of bget: the least recently used buffer that is neither referenced nor dirty. */
    method Victim() returns (r: Option<nat>)
      requires Valid()
      ensures r.None? ==> forall i :: 0 <= i < NBUF ==> InUse(buf[i])
      ensures r.Some? ==>
                && r.value < NBUF && !InUse(buf[r.value]) && Oldest(r.value)
                && exists k :: 0 <= k < NBUF && lru[k] == r.value && forall m :: k < m < NBUF ==> InUse(buf[lru[m]])
    {
      ghost var k := NBUF;
      assert buf[Ring(lru)[NBUF + 1]].prev == Ring(lru)[NBUF];
      var b := buf[HEAD].prev;
      while b != HEAD
        invariant 0 <= k <= NBUF && b == Ring(lru)[k]
        invariant forall m :: k <= m < NBUF ==> InUse(buf[lru[m]])
        decreases k
      {
        assert b == lru[k - 1];
        if buf[b].refcnt == 0 && !buf[b].dirty {
          forall i | 0 <= i < NBUF && !InUse(buf[i]) ensures last[b] <= last[i] {
            ghost var m := IndexOf(lru, i);
          }
          return Some(b);
        }
        assert buf[Ring(lru)[k]].prev == Ring(lru)[k - 1];
        b := buf[b].prev;
        k := k - 1;
      }
      forall i | 0 <= i < NBUF ensures InUse(buf[i]) {
        ghost var m := IndexOf(lru, i);
      }
      return None;
    }

    /** bget, up to the release of bcache.lock: find the block or recycle an idle buffer. */
    method Bget(dev: nat, blockno: nat) returns (r: Option<nat>)
      requires Valid()
      modifies buf
      ensures Valid()
      ensures r.None? <==> !old(Cached(dev, blockno)) && forall i :: 0 <= i < NBUF ==> InUse(old(buf[i]))
      ensures r.None? ==> buf[..] == old(buf[..])
      ensures r.Some? ==> r.value < NBUF && Keyed(buf[r.value], dev, blockno)
      ensures r.Some? ==> forall i :: 0 <= i <= NBUF && i != r.value ==> buf[i] == old(buf[i])
      ensures r.Some? && old(Cached(dev, blockno)) ==>
                buf[r.value] == old(buf[r.value]).(refcnt := old(buf[r.value].refcnt) + 1)
      ensures r.Some? && !old(Cached(dev, blockno)) ==>
                && !InUse(old(buf[r.value])) && !buf[r.value].valid && !buf[r.value].dirty
                && buf[r.value].refcnt == 1 && !buf[r.value].locked && old(Oldest(r.value))
                && exists k :: 0 <= k < NBUF && lru[k] == r.value && forall m :: k < m < NBUF ==>
                     InUse(old(buf[lru[m]]))
    {
      ghost var s := buf[..];
      r := Lookup(dev, blockno);
      if r.Some? {
        buf[r.value] := buf[r.value].(refcnt := buf[r.value].refcnt + 1);
        SameLinks(s, buf[..], lru);
        return;
      }
      r := Victim();
      if r.Some? {
        buf[r.value] := buf[r.value].(dev := dev, blockno := blockno, valid := false, dirty := false, refcnt := 1);
        SameLinks(s, buf[..], lru);
      }
    }

    /** acquiresleep on the buffer's lock, once it is free. */
    method Lock(b: nat)
      requires Valid() && b < NBUF && buf[b].refcnt > 0 && !buf[b].locked
      modifies buf
      ensures Valid() && buf[..] == old(buf[..])[b := old(buf[b]).(locked := true)]
    {
      ghost var s := buf[..];
      buf[b] := buf[b].(locked := true);
      SameLinks(s, buf[..], lru);
    }

    /** iderw: write a dirty buffer out, or else read an invalid one in. */
    method Iderw(b: nat)
      requires Linked(buf[..], lru) && |lru| == NBUF && Unique(buf[..]) && b < NBUF
      requires |last| == NBUF && ByRelease(lru, last, clock)
      requires forall i :: 0 <= i < NBUF && i != b ==> CoherentBuf(buf[i], disk)
      requires buf[b].locked && buf[b].refcnt > 0 && (buf[b].dirty || !buf[b].valid)
      requires buf[b].dev == DISKDEV && buf[b].blockno < |disk|
      modifies buf, this`disk, this`writes
      ensures Valid()
      ensures var o := old(buf[b]);
              && (o.dirty ==>
                   && disk == old(disk)[o.blockno := o.data] && writes == old(writes) + [Write(o.blockno, o.data)]
                   && buf[..] == old(buf[..])[b := o.(dirty := false, valid := true)])
              && (!o.dirty ==>
                   && disk == old(disk) && writes == old(writes)
                   && buf[..] == old(buf[..])[b := o.(data := disk[o.blockno], valid := true)])
    {
      ghost var s := buf[..];
      if buf[b].dirty {
        buf[b] := buf[b].(dirty := false);
        disk := disk[buf[b].blockno := buf[b].data];
        writes := writes + [Write(buf[b].blockno, buf[b].data)];
      } else {
        buf[b] := buf[b].(data := disk[buf[b].blockno]);
      }
      buf[b] := buf[b].(valid := true);
      SameLinks(s, buf[..], lru);
      assert buf[..] == s[b := buf[b]];
    }

    /** Change the data of a held buffer. */
    method Modify(b: nat, data: Block)
      requires Valid() && b < NBUF && buf[b].locked && buf[b].valid
      modifies buf
      ensures Valid() && buf[..] == old(buf[..])[b := old(buf[b]).(data := data)]
    {
      ghost var s := buf[..];
      buf[b] := buf[b].(data := data);
      SameLinks(s, buf[..], lru);
    }

    /** What log_write does to the buffer: pin it in the cache. */
    method MarkDirty(b: nat)
      requires Valid() && b < NBUF && buf[b].locked && buf[b].valid
      modifies buf
      ensures Valid() && buf[..] == old(buf[..])[b := old(buf[b]).(dirty := true)]
    {
      ghost var s := buf[..];
      buf[b] := buf[b].(dirty := true);
      SameLinks(s, buf[..], lru);
    }

    method Bwrite(b: nat)
      requires Valid() && b < NBUF && buf[b].locked && buf[b].valid
      modifies buf, this`disk, this`writes
      ensures Valid()
      ensures disk == old(disk)[old(buf[b]).blockno := old(buf[b]).data]
      ensures writes == old(writes) + [Write(old(buf[b]).blockno, old(buf[b]).data)]
      ensures buf[..] == old(buf[..])[b := old(buf[b]).(dirty := false)]
    {
      MarkDirty(b);
      Iderw(b);
    }

    /** bread: the held, valid buffer of a block, or None for the "no buffers" panic. */
    method Bread(blockno: nat) returns (r: Option<nat>)
      requires Valid() && blockno < |disk|
      requires forall i :: 0 <= i < NBUF && Keyed(buf[i], DISKDEV, blockno) ==> !buf[i].locked
      modifies buf, this`disk, this`writes
      ensures Valid() && disk == old(disk) && writes == old(writes)
      ensures r.None? <==> !old(Cached(DISKDEV, blockno)) && forall i :: 0 <= i < NBUF ==> InUse(old(buf[i]))
      ensures r.None? ==> buf[..] == old(buf[..])
      ensures r.Some? ==>
                && r.value < NBUF && Keyed(buf[r.value], DISKDEV, blockno)
                && buf[r.value].locked && buf[r.value].valid
                && (forall i :: 0 <= i <= NBUF && i != r.value ==> buf[i] == old(buf[i]))
      ensures r.Some? && old(Cached(DISKDEV, blockno)) ==>
                var o := old(buf[r.value]);
                && Keyed(o, DISKDEV, blockno)
                && buf[r.value] == o.(refcnt := o.refcnt + 1, locked := true, valid := true,
                                      data := if o.valid then o.data else disk[blockno])
      ensures r.Some? && !old(Cached(DISKDEV, blockno)) ==>
                && !InUse(old(buf[r.value])) && buf[r.value].refcnt == 1 && old(Oldest(r.value))
                && !buf[r.value].dirty && buf[r.value].data == disk[blockno]
    {
      r := Bget(DISKDEV, blockno);
      if r.Some? {
        var b := r.value;
        Lock(b);
        if !buf[b].valid {
          Iderw(b);
        }
      }
    }

    /** releasesleep: the holder leaves a clean buffer equal to its disk block. */
    method Unlock(b: nat)
      requires Valid() && b < NBUF && buf[b].locked
      requires buf[b].valid && !buf[b].dirty ==> buf[b].data == disk[buf[b].blockno]
      modifies buf
      ensures Valid() && buf[..] == old(buf[..])[b := old(buf[b]).(locked := false)]
    {
      ghost var s := buf[..];
      buf[b] := buf[b].(locked := false);
      SameLinks(s, buf[..], lru);
    }

    /** The first two link assignments of brelse: take b out of the list. */
    method Unlink(b: nat, ghost k: nat)
      requires Linked(buf[..], lru) && k < |lru| && lru[k] == b
      modifies buf, this`lru
      ensures lru == Without(old(lru), k) && Linked(buf[..], lru)
      ensures forall i :: 0 <= i <= NBUF ==> Content(buf[i]) == Content(old(buf[i]))
    {
      ghost var s, r := buf[..], Ring(lru);
      assert r[k + 1] == b && buf[r[k + 1]].prev == r[k] && buf[r[k + 1]].next == r[k + 2];
      RingDistinct(lru);
      buf[buf[b].next] := buf[buf[b].next].(prev := buf[b].prev);
      buf[buf[b].prev] := buf[buf[b].prev].(next := buf[b].next);
      UnlinkLinked(s, buf[..], lru, k);
      lru := Without(lru, k);
    }

    method MoveToFront(b: nat)
      requires Linked(buf[..], lru) && |lru| == NBUF && b < NBUF && |last| == NBUF && ByRelease(lru, last, clock)
      modifies buf, this`lru, this`last, this`clock
      ensures Linked(buf[..], lru) && |lru| == NBUF && |last| == NBUF && ByRelease(lru, last, clock)
      ensures clock == old(clock) + 1 && last == old(last)[b := clock]
      ensures exists k :: 0 <= k < NBUF && old(lru)[k] == b && lru == [b] + Without(old(lru), k)
      ensures forall i :: 0 <= i <= NBUF ==> Content(buf[i]) == Content(old(buf[i]))
    {
      ghost var k := IndexOf(lru, b);
      ReleaseOrder(lru, last, clock, k);
      Unlink(b, k);
      InsertFront(b);
      clock := clock + 1;
      last := last[b := clock];
    }

    /** The rest of brelse: drop the reference and move an unreferenced buffer to the front. */
    method Put(b: nat)
      requires Valid() && b < NBUF && buf[b].refcnt > (if buf[b].locked then 1 else 0)
      modifies buf, this`lru, this`last, this`clock
      ensures Valid()
      ensures forall i :: 0 <= i < NBUF && i != b ==> Content(buf[i]) == Content(old(buf[i]))
      ensures Content(buf[b]) == Content(old(buf[b])).(refcnt := old(buf[b].refcnt) - 1)
      ensures old(buf[b].refcnt) > 1 ==> lru == old(lru) && last == old(last) && clock == old(clock)
      ensures old(buf[b].refcnt) == 1 ==>
                && clock == old(clock) + 1 && last == old(last)[b := clock]
                && exists k :: 0 <= k < NBUF && old(lru)[k] == b && lru == [b] + Without(old(lru), k)
    {
      hide Linked, ByRelease, Without;
      ghost var s := buf[..];
      buf[b] := buf[b].(refcnt := buf[b].refcnt - 1);
      SameLinks(s, buf[..], lru);
      ghost var t := buf[..];
      assert Unique(t) && Coherent(t, disk);
      hide Unique, Coherent;
      if buf[b].refcnt == 0 {
        MoveToFront(b);
        SameContents(t, buf[..], disk);
      }
    }

    method Brelse(b: nat)
      requires Valid() && b < NBUF && buf[b].locked
      requires buf[b].valid && !buf[b].dirty ==> buf[b].data == disk[buf[b].blockno]
      modifies buf, this`lru, this`last, this`clock
      ensures Valid()
      ensures forall i :: 0 <= i < NBUF && i != b ==> Content(buf[i]) == Content(old(buf[i]))
      ensures Content(buf[b]) == Content(old(buf[b])).(locked := false, refcnt := old(buf[b].refcnt) - 1)
      ensures old(buf[b].refcnt) > 1 ==> lru == old(lru) && last == old(last) && clock == old(clock)
      ensures old(buf[b].refcnt) == 1 ==>
                && clock == old(clock) + 1 && last == old(last)[b := clock]
                && exists k :: 0 <= k < NBUF && old(lru)[k] == b && lru == [b] + Without(old(lru), k)
    {
      Unlock(b);
      Put(b);
    }
  }

  /** A block that has just been released is still cached after the next block is read in, if another buffer is idle. */
  method ReleasedStays(c: Cache, b: nat, other: nat, blockno: nat) returns (r: Option<nat>)
    requires c.Valid() && b < NBUF && c.buf[b].locked && c.buf[b].refcnt == 1
    requires c.buf[b].valid && (!c.buf[b].dirty ==> c.buf[b].data == c.disk[c.buf[b].blockno])
    requires other < NBUF && other != b && !InUse(c.buf[other]) && blockno < |c.disk|
    requires forall i :: 0 <= i < NBUF && Keyed(c.buf[i], DISKDEV, blockno) ==> !c.buf[i].locked
    modifies c, c.buf
    ensures c.Valid() && r.Some? && c.Cached(old(c.buf[b].dev), old(c.buf[b].blockno))
    ensures Keyed(c.buf[b], old(c.buf[b].dev), old(c.buf[b].blockno)) && c.buf[b].valid
            && c.buf[b].data == old(c.buf[b].data)
  {
    hide Linked;
    c.Brelse(b);
    assert c.last[other] < c.last[b];
    r := c.Bread(blockno);
    assert Keyed(c.buf[b], old(c.buf[b].dev), old(c.buf[b].blockno));
  }

  ghost function IndexOf(l: seq<nat>, b: nat): (k: nat)
    requires DistinctBufs(l) && |l| == NBUF && b < NBUF
    ensures k < NBUF && l[k] == b
  {
    Finite.Covers(l, NBUF);
    assert b in l;
    var k :| 0 <= k < NBUF && l[k] == b;
    k
  }

  lemma SameContents(s: seq<Buf>, t: seq<Buf>, disk: Disk)
    requires Unique(s) && Coherent(s, disk) && |t| == NBUF + 1
    requires forall i :: 0 <= i <= NBUF ==> Content(t[i]) == Content(s[i])
    ensures Unique(t) && Coherent(t, disk)
  {}

  lemma SameLinks(s: seq<Buf>, t: seq<Buf>, l: seq<nat>)
    requires Linked(s, l) && |t| == |s|
    requires forall i :: 0 <= i <= NBUF ==> t[i].prev == s[i].prev && t[i].next == s[i].next
    ensures Linked(t, l)
  {}
}
