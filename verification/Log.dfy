/**
  log.c over the buffer cache: the in-memory header, group commit and recovery.
  Every block write reaches the disk through a cache buffer; `cache.writes` records
  them in order, so a crash is any prefix of that record.
 */
module Log {
  import opened Blocks
  import opened RedoLog
  import opened BufferCache
  import Finite

  /** A dirty buffer holds block b with contents x. */
  ghost predicate Pinned(s: seq<Buf>, b: nat, x: Block)
    requires |s| == NBUF + 1
  {
    exists i :: 0 <= i < NBUF && Keyed(s[i], DISKDEV, b) && s[i].dirty && s[i].data == x
  }

  predicate IsPinned(s: seq<Buf>, b: nat)
    requires |s| == NBUF + 1
  {
    exists i :: 0 <= i < NBUF && Keyed(s[i], DISKDEV, b) && s[i].dirty
  }

  ghost predicate AllPinned(s: seq<Buf>, lh: seq<nat>, data: seq<Block>)
    requires |s| == NBUF + 1
  {
    |lh| == |data| && forall t :: 0 <= t < |lh| ==> Pinned(s, lh[t], data[t])
  }

  /** No process is between a bread and its brelse. */
  predicate Idle(s: seq<Buf>)
  {
    |s| == NBUF + 1 && forall i :: 0 <= i < NBUF ==> s[i].refcnt == 0 && !s[i].locked
  }

  /** Nobody holds a buffer of the log or of a logged block; other buffers may be held. */
  predicate LogClear(s: seq<Buf>, g: Geometry, lh: seq<nat>)
  {
    && |s| == NBUF + 1
    && forall i :: 0 <= i < NBUF && s[i].dev == DISKDEV ==>
         g.start <= s[i].blockno < g.start + g.size || s[i].blockno in lh ==> s[i].refcnt == 0 && !s[i].locked
  }

  /** Whatever others hold stays as it is, and nothing more is left held. */
  predicate HeldSame(s: seq<Buf>, t: seq<Buf>)
  {
    |s| == |t| == NBUF + 1 && forall i :: 0 <= i < NBUF && (s[i].refcnt > 0 || t[i].refcnt > 0) ==>
        Content(t[i]) == Content(s[i])
  }

  predicate NotHeld(s: seq<Buf>, b: nat)
  {
    |s| == NBUF + 1 && forall i :: 0 <= i < NBUF && Keyed(s[i], DISKDEV, b) ==> s[i].refcnt == 0 && !s[i].locked
  }

  predicate NoneDirty(s: seq<Buf>)
  {
    |s| == NBUF + 1 && forall i :: 0 <= i < NBUF ==> !s[i].dirty
  }

  /** bget can recycle a buffer. */
  predicate Spare(s: seq<Buf>)
  {
    |s| == NBUF + 1 && exists i :: 0 <= i < NBUF && !InUse(s[i])
  }

  /** Each buffer keeps its contents, except that buffer k may differ while being clean in both. */
  predicate OnlyCleanChanged(s: seq<Buf>, t: seq<Buf>, k: nat)
  {
    && |s| == |t| == NBUF + 1 && k < NBUF
    && !s[k].dirty && !t[k].dirty
    && forall i :: 0 <= i < NBUF && i != k ==> Content(t[i]) == Content(s[i])
  }

  lemma PinnedStays(s: seq<Buf>, t: seq<Buf>, k: nat, lh: seq<nat>, data: seq<Block>)
    requires OnlyCleanChanged(s, t, k) && AllPinned(s, lh, data)
    ensures AllPinned(t, lh, data)
  {
    forall i | 0 <= i < |lh| ensures Pinned(t, lh[i], data[i]) {
      var j :| 0 <= j < NBUF && Keyed(s[j], DISKDEV, lh[i]) && s[j].dirty && s[j].data == data[i];
      assert Content(t[j]) == Content(s[j]);
    }
  }

  class LogState {
    const cache: Cache
    const g: Geometry
    var lh: seq<nat>        // log.lh.block[0 .. log.lh.n)
    var outstanding: nat
    var committing: bool

    /** initlog: recover whatever the log holds. */
    constructor (cache: Cache, g: Geometry)
      requires cache.Valid() && Idle(cache.buf[..]) && NoneDirty(cache.buf[..]) && WfDisk(g, cache.disk)
      modifies cache, cache.buf
      ensures this.cache == cache && this.g == g && outstanding == 0 && !committing
      ensures Ready() && Tracked() && lh == [] && Idle(cache.buf[..])
      ensures cache.writes == old(cache.writes) + RecoveryWrites(g, old(cache.disk))
      ensures cache.disk == Recover(g, old(cache.disk))
    {
      this.cache, this.g, lh, outstanding, committing := cache, g, [], 0, false;
      new;
      RecoverFromLog();
    }

    /** The logged blocks are exactly the dirty ones. */
    ghost predicate Tracked()
      reads this, cache, cache.buf
    {
      && cache.Valid() && WfHeader(g, cache.disk, lh)
      && DirtyIn(cache.buf[..], lh) && PinnedFrom(cache.buf[..], lh, 0)
    }

    /** One pass of begin_op's loop: false means sleep and try again. */
    method BeginOp() returns (admitted: bool)
      modifies this`outstanding
      ensures admitted <==> !committing && |lh| + (old(outstanding) + 1) * MAXOPBLOCKS <= LOGSIZE
      ensures outstanding == old(outstanding) + (if admitted then 1 else 0)
    {
      if committing {
        return false;
      } else if |lh| + (outstanding + 1) * MAXOPBLOCKS > LOGSIZE {
        return false;
      }
      outstanding := outstanding + 1;
      return true;
    }

    /** end_op up to its commit: the last operation out must commit; ending one during a commit is a panic. */
    method EndOp() returns (doCommit: bool, panic: bool)
      requires outstanding > 0
      modifies this`outstanding, this`committing
      ensures outstanding == old(outstanding) - 1
      ensures panic <==> old(committing)
      ensures doCommit <==> !panic && outstanding == 0
      ensures committing == (old(committing) || doCommit)
    {
      outstanding := outstanding - 1;
      if committing {
        return false, true;
      }
      doCommit, panic := outstanding == 0, false;
      if doCommit {
        committing := true;
      }
    }

    /** The end of end_op once commit has returned: operations are admitted again. */
    method EndCommit()
      requires committing && lh == []
      modifies this`committing
      ensures !committing
    {
      committing := false;
    }

    /** log_write on a held buffer: absorb or append its block number and pin the buffer. */
    method LogWrite(b: nat) returns (panic: bool)
      requires Tracked() && b < NBUF && cache.buf[b].locked && cache.buf[b].valid
      requires Home(g, cache.disk, cache.buf[b].blockno)
      modifies this`lh, cache.buf
      ensures panic <==> old(|lh|) >= LOGSIZE || old(|lh|) >= g.size - 1 || outstanding < 1
      ensures panic ==> lh == old(lh) && cache.buf[..] == old(cache.buf[..])
      ensures !panic ==>
                && Tracked()
                && lh == (if cache.buf[b].blockno in old(lh) then old(lh) else old(lh) + [cache.buf[b].blockno])
                && cache.buf[..] == old(cache.buf[..])[b := old(cache.buf[b]).(dirty := true)]
    {
      hide Linked, ByRelease, Word;
      if |lh| >= LOGSIZE || |lh| >= g.size - 1 {
        return true;
      }
      if outstanding < 1 {
        return true;
      }
      var i := 0;
      while i < |lh| && lh[i] != cache.buf[b].blockno
        invariant 0 <= i <= |lh| && cache.buf[b].blockno !in lh[..i]
      {
        i := i + 1;
      }
      ghost var s, was := cache.buf[..], lh;
      if i == |lh| {
        lh := lh + [cache.buf[b].blockno];
      } else {
        lh := lh[i := cache.buf[b].blockno];
      }
      cache.MarkDirty(b);
      PinMore(s, cache.buf[..], was, lh, b);
      return false;
    }

    ghost predicate Ready()
      reads this, cache, cache.buf
    {
      && cache.Valid() && LogClear(cache.buf[..], g, lh)
      && WfHeader(g, cache.disk, lh)
    }

    /** The two bread calls of a write_log or install_trans iteration; false is the panic of bget. */
    method BreadPair(logBlock: nat, home: nat) returns (ok: bool, l: nat, h: nat)
      requires cache.Valid() && NotHeld(cache.buf[..], logBlock) && NotHeld(cache.buf[..], home)
      requires logBlock < |cache.disk| && home < |cache.disk| && logBlock != home
      requires forall i :: 0 <= i < NBUF && Keyed(cache.buf[i], DISKDEV, logBlock) ==> !cache.buf[i].dirty
      requires IsPinned(cache.buf[..], home) || (NoneDirty(cache.buf[..]) && Idle(cache.buf[..]))
      modifies cache, cache.buf
      ensures cache.Valid() && cache.disk == old(cache.disk) && cache.writes == old(cache.writes)
      ensures ok <==> Spare(old(cache.buf[..]))
      ensures !ok ==> cache.buf[..] == old(cache.buf[..])
      ensures ok ==>
                && l < NBUF && h < NBUF && l != h
                && Held(cache.buf[l], logBlock) && !old(cache.buf[l]).dirty && !cache.buf[l].dirty
                && cache.buf[l].data == cache.disk[logBlock]
                && Held(cache.buf[h], home) && cache.buf[h].dirty == old(cache.buf[h]).dirty
                && (old(cache.buf[h]).dirty ==> cache.buf[h] == old(cache.buf[h]).(refcnt := 1, locked := true))
                && (IsPinned(old(cache.buf[..]), home) ==> old(cache.buf[h]).dirty)
                && old(cache.buf[l].refcnt) == 0 && old(cache.buf[h].refcnt) == 0
                && forall i :: 0 <= i < NBUF && i != l && i != h ==> cache.buf[i] == old(cache.buf[i])
    {
      hide Linked, ByRelease;
      var r := cache.Bread(logBlock);
      if r.None? {
        return false, 0, 0;
      }
      ok, l := true, r.value;
      assert !InUse(old(cache.buf[l]));
      assert !cache.buf[l].dirty && !old(cache.buf[l]).dirty;
      assert NoneDirty(old(cache.buf[..])) && Idle(old(cache.buf[..])) ==> !InUse(cache.buf[if l == 0 then 1 else 0]);
      r := cache.Bread(home);
      h := r.value;
    }

    /** The rest of a write_log iteration. */
    method StoreLog(to: nat, from: nat)
      requires cache.Valid() && to < NBUF && from < NBUF && to != from
      requires Held(cache.buf[to], cache.buf[to].blockno) && Held(cache.buf[from], cache.buf[from].blockno)
      requires cache.buf[from].dirty
      modifies cache, cache.buf
      ensures cache.Valid()
      ensures cache.disk == old(cache.disk[cache.buf[to].blockno := cache.buf[from].data])
      ensures cache.writes == old(cache.writes + [Write(cache.buf[to].blockno, cache.buf[from].data)])
      ensures !cache.buf[to].dirty && cache.buf[to].refcnt == 0 && !cache.buf[to].locked
      ensures Content(cache.buf[from]) == Content(old(cache.buf[from]).(locked := false, refcnt := 0))
      ensures forall i :: 0 <= i < NBUF && i != to && i != from ==> Content(cache.buf[i]) == Content(old(cache.buf[i]))
    {
      hide Linked, ByRelease;
      cache.Modify(to, cache.buf[from].data);
      cache.Bwrite(to);
      cache.Brelse(from);
      cache.Brelse(to);
    }

    /** The rest of an install_trans iteration. */
    method StoreHome(l: nat, h: nat)
      requires cache.Valid() && l < NBUF && h < NBUF && l != h
      requires Held(cache.buf[l], cache.buf[l].blockno) && Held(cache.buf[h], cache.buf[h].blockno)
      requires !cache.buf[l].dirty && cache.buf[l].data == cache.disk[cache.buf[l].blockno]
      requires cache.buf[l].blockno != cache.buf[h].blockno
      modifies cache, cache.buf
      ensures cache.Valid()
      ensures cache.disk == old(cache.disk[cache.buf[h].blockno := cache.buf[l].data])
      ensures cache.writes == old(cache.writes + [Write(cache.buf[h].blockno, cache.buf[l].data)])
      ensures !cache.buf[l].dirty && cache.buf[l].refcnt == 0 && !cache.buf[l].locked
      ensures !cache.buf[h].dirty && cache.buf[h].refcnt == 0 && !cache.buf[h].locked
      ensures forall i :: 0 <= i < NBUF && i != l && i != h ==> Content(cache.buf[i]) == Content(old(cache.buf[i]))
    {
      hide Linked, ByRelease;
      cache.Modify(h, cache.buf[l].data);
      cache.Bwrite(h);
      cache.Brelse(l);
      cache.Brelse(h);
    }

    /** One iteration of write_log: copy the pinned home block into log block t. False is the panic of bget. */
    method WriteLogBlock(t: nat, ghost data: seq<Block>) returns (ok: bool)
      requires Ready() && t < |lh| && AllPinned(cache.buf[..], lh, data) && DirtyIn(cache.buf[..], lh)
      modifies cache, cache.buf
      ensures ok <==> Spare(old(cache.buf[..]))
      ensures !ok ==> cache.buf[..] == old(cache.buf[..]) && cache.disk == old(cache.disk)
      ensures !ok ==> cache.writes == old(cache.writes)
      ensures cache.Valid() && LogClear(cache.buf[..], g, lh) && HeldSame(old(cache.buf[..]), cache.buf[..])
      ensures ok ==> cache.disk == old(cache.disk)[g.start + 1 + t := data[t]]
      ensures ok ==> cache.writes == old(cache.writes) + [Write(g.start + 1 + t, data[t])]
      ensures AllPinned(cache.buf[..], lh, data) && DirtyIn(cache.buf[..], lh) && (ok ==> Spare(cache.buf[..]))
    {
      hide Linked, ByRelease, Word;
      ghost var s := cache.buf[..];
      assert Pinned(s, lh[t], data[t]);
      assert Home(g, cache.disk, lh[t]);
      forall i | 0 <= i < NBUF && Keyed(s[i], DISKDEV, g.start + t + 1) ensures !s[i].dirty {
        assert !Home(g, cache.disk, s[i].blockno);
      }
      var to, from;
      ok, to, from := BreadPair(g.start + t + 1, lh[t]);
      if !ok {
        return;
      }
      assert cache.buf[from].data == data[t];
      StoreLog(to, from);
      assert OnlyCleanChanged(s, cache.buf[..], to);
      PinnedStays(s, cache.buf[..], to, lh, data);
      assert !InUse(cache.buf[to]);
    }

    /** write_log of a log that is not empty; false is the panic of bget. */
    method WriteLog(ghost data: seq<Block>) returns (ok: bool)
      requires Ready() && lh != [] && AllPinned(cache.buf[..], lh, data) && DirtyIn(cache.buf[..], lh)
      modifies cache, cache.buf
      ensures ok <==> Spare(old(cache.buf[..]))
      ensures !ok ==> cache.buf[..] == old(cache.buf[..]) && cache.disk == old(cache.disk)
      ensures !ok ==> cache.writes == old(cache.writes)
      ensures Ready() && HeldSame(old(cache.buf[..]), cache.buf[..])
      ensures ok ==> cache.writes == old(cache.writes) + LogWrites(g, data)
      ensures ok ==> cache.disk == Apply(old(cache.disk), LogWrites(g, data))
      ensures AllPinned(cache.buf[..], lh, data) && DirtyIn(cache.buf[..], lh) && (ok ==> Spare(cache.buf[..]))
    {
      hide Linked, Word, AllPinned, Spare, DirtyIn, LogClear, HeldSame, Apply;
      ok := true;
      ghost var ws := LogWrites(g, data);
      var tail := 0;
      assert |lh| == |data| by { Sizes(cache.buf[..], lh, data); }
      HeldSelf(cache.buf[..]);
      assert Apply(cache.disk, ws[..0]) == cache.disk by { ApplyNone(cache.disk, ws); }
      while tail < |lh|
        invariant 0 <= tail <= |lh| == |data|
        invariant Ready() && HeldSame(old(cache.buf[..]), cache.buf[..])
                  && cache.disk == Apply(old(cache.disk), ws[..tail])
        invariant cache.writes == old(cache.writes) + ws[..tail]
        invariant AllPinned(cache.buf[..], lh, data) && DirtyIn(cache.buf[..], lh)
        invariant if tail == 0 then cache.buf[..] == old(cache.buf[..]) && cache.disk == old(cache.disk)
                  else ok && Spare(cache.buf[..]) && Spare(old(cache.buf[..]))
      {
        ghost var s := cache.buf[..];
        ok := WriteLogBlock(tail, data);
        if !ok {
          return;
        }
        HeldAgain(old(cache.buf[..]), s, cache.buf[..]);
        ApplyStep(old(cache.disk), ws, tail);
        assert ws[..tail + 1] == ws[..tail] + [ws[tail]];
        tail := tail + 1;
      }
      assert ws[..tail] == ws;
    }

    /** One iteration of install_trans: copy log block t to its home, which unpins it. */
    method InstallBlock(t: nat)
      requires Ready() && t < |lh| && Spare(cache.buf[..]) && DirtyIn(cache.buf[..], lh[t..])
      requires PinnedFrom(cache.buf[..], lh, t) || (NoneDirty(cache.buf[..]) && Idle(cache.buf[..]))
      modifies cache, cache.buf
      ensures cache.Valid() && LogClear(cache.buf[..], g, lh) && HeldSame(old(cache.buf[..]), cache.buf[..])
      ensures cache.disk == old(cache.disk)[lh[t] := old(cache.disk)[g.start + 1 + t]]
      ensures cache.writes == old(cache.writes) + [Write(lh[t], old(cache.disk)[g.start + 1 + t])]
      ensures Spare(cache.buf[..]) && DirtyIn(cache.buf[..], lh[t + 1..])
      ensures PinnedFrom(cache.buf[..], lh, t + 1) || (NoneDirty(cache.buf[..]) && Idle(cache.buf[..]))
    {
      hide Linked, ByRelease, Word;
      ghost var s := cache.buf[..];
      assert Home(g, cache.disk, lh[t]);
      forall i | 0 <= i < NBUF && Keyed(s[i], DISKDEV, g.start + t + 1) ensures !s[i].dirty {
        assert !Home(g, cache.disk, s[i].blockno);
      }
      assert PinnedFrom(s, lh, t) ==> IsPinned(s, lh[t]);
      var _, l, h := BreadPair(g.start + t + 1, lh[t]);
      StoreHome(l, h);
      assert !InUse(cache.buf[l]);
      UnpinOne(s, cache.buf[..], lh, t, l, h);
    }

    method InstallTrans()
      requires Ready() && Spare(cache.buf[..]) && DirtyIn(cache.buf[..], lh)
      requires PinnedFrom(cache.buf[..], lh, 0) || (NoneDirty(cache.buf[..]) && Idle(cache.buf[..]))
      modifies cache, cache.buf
      ensures Ready() && NoneDirty(cache.buf[..]) && Spare(cache.buf[..]) && HeldSame(old(cache.buf[..]), cache.buf[..])
      ensures var ws := InstallWrites(lh, LogData(g, old(cache.disk), |lh|));
              cache.writes == old(cache.writes) + ws && cache.disk == Apply(old(cache.disk), ws)
    {
      hide Linked, Word, Spare, Idle, LogClear, PinnedFrom, Apply;
      ghost var data := LogData(g, cache.disk, |lh|);
      ghost var ws := InstallWrites(lh, data);
      var tail := 0;
      assert lh[0..] == lh;
      assert Apply(cache.disk, ws[..0]) == cache.disk by { ApplyNone(cache.disk, ws); }
      while tail < |lh|
        invariant 0 <= tail <= |lh|
        invariant Ready() && HeldSame(old(cache.buf[..]), cache.buf[..])
                  && cache.disk == Apply(old(cache.disk), ws[..tail])
        invariant cache.writes == old(cache.writes) + ws[..tail]
        invariant Spare(cache.buf[..]) && DirtyIn(cache.buf[..], lh[tail..])
        invariant PinnedFrom(cache.buf[..], lh, tail) || (NoneDirty(cache.buf[..]) && Idle(cache.buf[..]))
      {
        InstallAt(old(cache.disk), lh, data, tail);
        assert !Home(g, cache.disk, g.start + 1 + tail);
        assert cache.disk[g.start + 1 + tail] == data[tail];
        ghost var s := cache.buf[..];
        InstallBlock(tail);
        HeldAgain(old(cache.buf[..]), s, cache.buf[..]);
        ApplyStep(old(cache.disk), ws, tail);
        assert ws[..tail + 1] == ws[..tail] + [ws[tail]];
        tail := tail + 1;
      }
      assert ws[..tail] == ws;
    }

    /** write_head */
    method WriteHead()
      requires Ready() && Spare(cache.buf[..]) && DirtyHome(cache.buf[..], g, cache.disk)
      modifies cache, cache.buf
      ensures Ready() && Spare(cache.buf[..]) && HeldSame(old(cache.buf[..]), cache.buf[..])
      ensures var hb := Encode(old(cache.disk)[g.start], lh);
              && cache.disk == old(cache.disk)[g.start := hb]
              && cache.writes == old(cache.writes) + [Write(g.start, hb)]
      ensures exists k :: OnlyCleanChanged(old(cache.buf[..]), cache.buf[..], k)
    {
      hide Linked, Word, LogClear, HeldSame, DirtyHome, OnlyCleanChanged, WfHeader, ByRelease, Encode;
      ghost var s := cache.buf[..];
      HeaderClear(s, g, cache.disk, lh);
      var r := cache.Bread(g.start);
      var b := r.value;
      assert cache.buf[b].data == cache.disk[g.start];
      var hb := EncodeLoop(cache.buf[b].data, lh);
      cache.Modify(b, hb);
      cache.Bwrite(b);
      cache.Brelse(b);
      assert !InUse(cache.buf[b]);
      OneReleased(s, cache.buf[..], b, g, lh);
      HeaderSame(g, old(cache.disk), cache.disk, lh);
    }

    /** read_head */
    method ReadHead()
      requires cache.Valid() && Idle(cache.buf[..]) && NoneDirty(cache.buf[..]) && WfDisk(g, cache.disk)
      modifies this`lh, cache, cache.buf
      ensures Ready() && NoneDirty(cache.buf[..]) && Idle(cache.buf[..])
      ensures cache.disk == old(cache.disk) && cache.writes == old(cache.writes)
      ensures lh == HeadBlocks(cache.disk[g.start])
    {
      hide Linked, ByRelease, Word;
      assert !InUse(cache.buf[0]);
      var r := cache.Bread(g.start);
      var b := r.value;
      lh := DecodeLoop(cache.buf[b].data);
      cache.Brelse(b);
    }

    /** install_trans and then the clearing of the header, as both commit and recovery end. */
    method InstallAndClear()
      requires Ready() && Spare(cache.buf[..]) && DirtyIn(cache.buf[..], lh)
      requires PinnedFrom(cache.buf[..], lh, 0) || (NoneDirty(cache.buf[..]) && Idle(cache.buf[..]))
      modifies this`lh, cache, cache.buf
      ensures Ready() && lh == [] && NoneDirty(cache.buf[..]) && HeldSame(old(cache.buf[..]), cache.buf[..])
      ensures var ws := InstallWrites(old(lh), LogData(g, old(cache.disk), |old(lh)|));
              var d := Apply(old(cache.disk), ws);
              var hb := Encode(d[g.start], []);
              && cache.disk == d[g.start := hb]
              && cache.writes == old(cache.writes) + ws + [Write(g.start, hb)]
    {
      hide Linked, Word, Idle, Spare, HeldSame, Apply, PinnedFrom, DirtyIn, LogData, InstallWrites;
      InstallTrans();
      lh := [];
      ghost var s := cache.buf[..];
      WriteHead();
      assert NoneDirty(cache.buf[..]) by { StillNoneDirty(s, cache.buf[..]); }
      HeldAgain(old(cache.buf[..]), s, cache.buf[..]);
    }

    /** write_log and the header write: after them the transaction is durable. */
    method LogAndHead(ghost data: seq<Block>) returns (ok: bool)
      requires Ready() && lh != [] && AllPinned(cache.buf[..], lh, data) && DirtyIn(cache.buf[..], lh)
      modifies cache, cache.buf
      ensures ok <==> Spare(old(cache.buf[..]))
      ensures !ok ==> cache.buf[..] == old(cache.buf[..]) && cache.disk == old(cache.disk)
      ensures !ok ==> cache.writes == old(cache.writes)
      ensures Ready() && HeldSame(old(cache.buf[..]), cache.buf[..])
      ensures ok ==> Spare(cache.buf[..]) && DirtyIn(cache.buf[..], lh) && PinnedFrom(cache.buf[..], lh, 0)
      ensures ok ==>
              var d := Apply(old(cache.disk), LogWrites(g, data));
              var hb := Encode(d[g.start], lh);
              && cache.disk == d[g.start := hb]
              && cache.writes == old(cache.writes) + LogWrites(g, data) + [Write(g.start, hb)]
    {
      hide Linked, Word, LogClear, Spare, HeldSame, Apply, PinnedFrom, DirtyIn, AllPinned, LogWrites;
      ok := WriteLog(data);
      if !ok {
        return;
      }
      ghost var s := cache.buf[..];
      assert DirtyHome(s, g, cache.disk) by { LoggedAreHome(s, g, cache.disk, lh); }
      WriteHead();
      HeldAgain(old(cache.buf[..]), s, cache.buf[..]);
      ghost var k :| OnlyCleanChanged(s, cache.buf[..], k);
      PinnedStays(s, cache.buf[..], k, lh, data);
      DirtyStays(s, cache.buf[..], k, lh, data);
    }

    /**
      commit, with data the contents of the pinned blocks: exactly the writes CommitWrites. Other processes
      may hold buffers of other blocks, which commit leaves alone. False is the panic of bget, which comes
      before anything is written.
     */
    method Commit(ghost data: seq<Block>) returns (ok: bool)
      requires Ready() && AllPinned(cache.buf[..], lh, data) && DirtyIn(cache.buf[..], lh)
      modifies this`lh, cache, cache.buf
      ensures ok <==> old(|lh|) == 0 || Spare(old(cache.buf[..]))
      ensures !ok ==> cache.disk == old(cache.disk) && cache.writes == old(cache.writes) && lh == old(lh)
      ensures Ready() && HeldSame(old(cache.buf[..]), cache.buf[..])
      ensures ok ==> lh == [] && NoneDirty(cache.buf[..])
      ensures old(|lh|) == 0 ==> cache.disk == old(cache.disk) && cache.writes == old(cache.writes)
      ensures ok && old(|lh|) > 0 ==>
                var ws := CommitWrites(g, old(cache.disk), old(lh), data);
                cache.writes == old(cache.writes) + ws && cache.disk == Apply(old(cache.disk), ws)
    {
      hide Linked, Word, Idle, LogClear, Spare, HeldSame, Apply, PinnedFrom, DirtyIn, LogData, LogWrites,
           InstallWrites, CommitWrites;
      if |lh| > 0 {
        assert |lh| == |data|;
        CommitLogged(g, cache.disk, lh, data);
        ok := LogAndHead(data);
        if !ok {
          return;
        }
        ghost var s := cache.buf[..];
        InstallAndClear();
        HeldAgain(old(cache.buf[..]), s, cache.buf[..]);
      } else {
        ok := true;
        HeldSelf(cache.buf[..]);
        NothingLogged(cache.buf[..], lh);
      }
    }

    /** recover_from_log: exactly the writes RecoveryWrites. */
    method RecoverFromLog()
      requires cache.Valid() && Idle(cache.buf[..]) && NoneDirty(cache.buf[..]) && WfDisk(g, cache.disk)
      modifies this`lh, cache, cache.buf
      ensures Ready() && lh == [] && NoneDirty(cache.buf[..]) && Idle(cache.buf[..])
      ensures cache.writes == old(cache.writes) + RecoveryWrites(g, old(cache.disk))
      ensures cache.disk == Recover(g, old(cache.disk))
    {
      hide Linked, Word, Apply, InstallWrites;
      ReadHead();
      assert !InUse(cache.buf[0]);
      RecoveryEnds(g, cache.disk);
      ghost var s := cache.buf[..];
      InstallAndClear();
      StillIdle(s, cache.buf[..], cache.disk);
    }
  }

  lemma HeaderClear(s: seq<Buf>, g: Geometry, disk: Disk, lh: seq<nat>)
    requires LogClear(s, g, lh) && DirtyHome(s, g, disk) && WfHeader(g, disk, lh)
    ensures g.start < |disk| && |lh| <= LOGSIZE && forall i :: 0 <= i < |lh| ==> lh[i] <= UINT_MAX
    ensures forall i :: 0 <= i < NBUF && Keyed(s[i], DISKDEV, g.start) ==>
            !s[i].dirty && s[i].refcnt == 0 && !s[i].locked
  {
    forall i | 0 <= i < NBUF && Keyed(s[i], DISKDEV, g.start) ensures !s[i].dirty
    { assert !Home(g, disk, s[i].blockno); }
  }

  lemma HeaderSame(g: Geometry, d: Disk, e: Disk, lh: seq<nat>)
    requires WfHeader(g, d, lh) && |e| == |d|
    ensures WfHeader(g, e, lh)
  {
    forall i | 0 <= i < |lh| ensures Home(g, e, lh[i]) { assert Home(g, d, lh[i]); }
  }

  /** One clean buffer that nobody held has been used and released. */
  lemma OneReleased(s: seq<Buf>, t: seq<Buf>, b: nat, g: Geometry, lh: seq<nat>)
    requires |s| == |t| == NBUF + 1 && b < NBUF && LogClear(s, g, lh)
    requires s[b].refcnt == 0 && t[b].refcnt == 0 && !t[b].locked && !s[b].dirty && !t[b].dirty
    requires forall i :: 0 <= i < NBUF && i != b ==> Content(t[i]) == Content(s[i])
    ensures LogClear(t, g, lh) && HeldSame(s, t) && OnlyCleanChanged(s, t, b)
  {}

  lemma HeldSelf(s: seq<Buf>)
    requires |s| == NBUF + 1
    ensures HeldSame(s, s)
  {}

  lemma HeldAgain(s: seq<Buf>, t: seq<Buf>, u: seq<Buf>)
    requires HeldSame(s, t) && HeldSame(t, u)
    ensures HeldSame(s, u)
  {
    forall i | 0 <= i < NBUF && (s[i].refcnt > 0 || u[i].refcnt > 0) ensures Content(u[i]) == Content(s[i]) {
      assert Content(t[i]) == Content(s[i]);
    }
  }

  lemma StillIdle(s: seq<Buf>, t: seq<Buf>, disk: Disk)
    requires Idle(s) && HeldSame(s, t) && Coherent(t, disk)
    ensures Idle(t)
  {
    forall i | 0 <= i < NBUF ensures t[i].refcnt == 0 && !t[i].locked {
      assert CoherentBuf(t[i], disk);
      assert t[i].refcnt > 0 ==> Content(t[i]) == Content(s[i]);
    }
  }

  lemma StillNoneDirty(s: seq<Buf>, t: seq<Buf>)
    requires NoneDirty(s) && exists k :: OnlyCleanChanged(s, t, k)
    ensures NoneDirty(t)
  {
    var k :| OnlyCleanChanged(s, t, k);
    forall i | 0 <= i < NBUF ensures !t[i].dirty {
      assert i == k || Content(t[i]) == Content(s[i]);
    }
  }

  lemma NothingLogged(s: seq<Buf>, lh: seq<nat>)
    requires DirtyIn(s, lh) && lh == []
    ensures NoneDirty(s)
  {}

  lemma LoggedAreHome(s: seq<Buf>, g: Geometry, d: Disk, lh: seq<nat>)
    requires DirtyIn(s, lh) && WfHeader(g, d, lh)
    ensures DirtyHome(s, g, d)
  {}

  lemma RecoveryEnds(g: Geometry, d: Disk)
    requires WfDisk(g, d)
    ensures var lh := HeadBlocks(d[g.start]);
            var ws := InstallWrites(lh, LogData(g, d, |lh|));
            var e := Apply(d, ws);
            && e[g.start] == d[g.start]
            && RecoveryWrites(g, d) == ws + [Write(g.start, Encode(d[g.start], []))]
            && Recover(g, d) == e[g.start := Encode(d[g.start], [])]
  {
    hide Word, Encode, Apply, HeadBlocks;
    var lh := HeadBlocks(d[g.start]);
    var ws := InstallWrites(lh, LogData(g, d, |lh|));
    var rw := RecoveryWrites(g, d);
    InstallPrefix(g, d, |lh|);
    assert rw[..|lh|] == ws;
    ApplyStep(d, rw, |lh|);
    assert rw[..|lh| + 1] == rw;
  }

  lemma DirtyStays(s: seq<Buf>, t: seq<Buf>, k: nat, lh: seq<nat>, data: seq<Block>)
    requires OnlyCleanChanged(s, t, k) && DirtyIn(s, lh) && AllPinned(t, lh, data)
    ensures DirtyIn(t, lh) && PinnedFrom(t, lh, 0)
  {
    forall i | 0 <= i < NBUF && t[i].dirty ensures t[i].blockno in lh {
      assert Content(t[i]) == Content(s[i]);
    }
    forall u | 0 <= u < |lh| ensures IsPinned(t, lh[u]) {
      assert Pinned(t, lh[u], data[u]);
    }
  }

  /** The disks and the write record at the successive points of commit. */
  lemma CommitLogged(g: Geometry, d: Disk, lh: seq<nat>, data: seq<Block>)
    requires WfHeader(g, d, lh) && |lh| == |data|
    ensures var d1 := Apply(d, LogWrites(g, data));
            var hb := Encode(d[g.start], lh);
            var d2 := d1[g.start := hb];
            var d3 := Apply(d2, InstallWrites(lh, data));
            && d1[g.start] == d[g.start]
            && LogData(g, d2, |lh|) == data
            && d3[g.start] == hb
            && CommitWrites(g, d, lh, data)
               == LogWrites(g, data) + [Write(g.start, hb)] + InstallWrites(lh, data) + [Write(g.start, Encode(hb, []))]
            && Apply(d, CommitWrites(g, d, lh, data)) == d3[g.start := Encode(hb, [])]
  {
    hide Word, Apply, Encode, HeadBlocks, WfDisk, Updated, Durable;
    var ws := CommitWrites(g, d, lh, data);
    var n := |lh|;
    LogPrefix(g, d, lh, data, n);
    assert ws[..n] == LogWrites(g, data);
    ApplyStep(d, ws, n);
    HeaderCommits(g, d, lh, data);
    var d2 := Apply(d, ws[..n + 1]);
    ApplyConcat(d, ws[..n + 1], InstallWrites(lh, data));
    assert ws[..2 * n + 1] == ws[..n + 1] + InstallWrites(lh, data);
    ApplyStep(d, ws, 2 * n + 1);
    assert ws[..2 * n + 2] == ws;
    InstallAt(d2, lh, data, n);
    assert InstallWrites(lh, data)[..n] == InstallWrites(lh, data);
    assert !Home(g, d2, g.start);
    assert g.start !in lh[..n];
  }

  lemma PinMore(s: seq<Buf>, t: seq<Buf>, lh: seq<nat>, lh': seq<nat>, b: nat)
    requires |s| == NBUF + 1 && b < NBUF && t == s[b := s[b].(dirty := true)] && s[b].dev == DISKDEV
    requires DirtyIn(s, lh) && PinnedFrom(s, lh, 0)
    requires lh' == if s[b].blockno in lh then lh else lh + [s[b].blockno]
    ensures DirtyIn(t, lh') && PinnedFrom(t, lh', 0)
  {
    forall u | 0 <= u < |lh'| ensures IsPinned(t, lh'[u]) {
      if u < |lh| {
        var j :| 0 <= j < NBUF && Keyed(s[j], DISKDEV, lh[u]) && s[j].dirty;
        assert Keyed(t[j], DISKDEV, lh'[u]) && t[j].dirty;
      } else {
        assert Keyed(t[b], DISKDEV, lh'[u]) && t[b].dirty;
      }
    }
  }

  /** Buffers that pin lh[0], lh[1], ..., lh[k-1]. */
  ghost function PinningBufs(s: seq<Buf>, lh: seq<nat>, k: nat): (r: seq<nat>)
    requires PinnedFrom(s, lh, 0) && k <= |lh|
    ensures |r| == k && forall u :: 0 <= u < k ==> r[u] < NBUF && Keyed(s[r[u]], DISKDEV, lh[u]) && s[r[u]].dirty
  {
    if k == 0 then [] else
      assert IsPinned(s, lh[k - 1]);
      var j: nat :| j < NBUF && Keyed(s[j], DISKDEV, lh[k - 1]) && s[j].dirty;
      PinningBufs(s, lh, k - 1) + [j]
  }

  /**
    commit needs one buffer to recycle for the log blocks. With no buffer held there is one
    exactly when fewer than NBUF blocks are logged; at NBUF logged blocks bget would panic.
   */
  lemma SpareExactly(s: seq<Buf>, disk: Disk, lh: seq<nat>)
    requires Idle(s) && Unique(s) && Coherent(s, disk) && Finite.Distinct(lh)
    requires DirtyIn(s, lh) && PinnedFrom(s, lh, 0)
    ensures Spare(s) <==> |lh| < NBUF
  {
    if Spare(s) {
      var i: nat :| i < NBUF && !InUse(s[i]);
      var r := PinningBufs(s, lh, |lh|) + [i];
      forall a, b | 0 <= a < b < |r| ensures r[a] != r[b] {
        if b < |lh| { assert lh[a] != lh[b]; }
      }
      Finite.Covers(r, NBUF);
    } else {
      var blocks := seq(NBUF, i requires 0 <= i < NBUF => s[i].blockno);
      forall a, b | 0 <= a < b < NBUF ensures blocks[a] != blocks[b] {
        assert InUse(s[a]) && InUse(s[b]);
        assert CoherentBuf(s[a], disk) && CoherentBuf(s[b], disk);
        assert !Keyed(s[b], s[a].dev, s[a].blockno);
      }
      assert Finite.Elems(blocks) <= Finite.Elems(lh) by {
        forall i | 0 <= i < NBUF ensures blocks[i] in lh { assert InUse(s[i]); }
      }
      Finite.DistinctCard(blocks);
      Finite.DistinctCard(lh);
      Finite.SubsetCard(Finite.Elems(blocks), Finite.Elems(lh));
    }
  }

  lemma ApplyNone(d: Disk, ws: seq<Write>)
    ensures Apply(d, ws[..0]) == d
  {}

  /** The header-filling loop of write_head. */
  method EncodeLoop(old_: Block, lh: seq<nat>) returns (hb: Block)
    requires |lh| <= LOGSIZE && forall i :: 0 <= i < |lh| ==> lh[i] <= UINT_MAX
    ensures hb == Encode(old_, lh)
  {
    hide Word, SetWord;
    hb := SetWord(old_, 0, |lh|);
    var i := 0;
    while i < |lh|
      invariant 0 <= i <= |lh| && hb == EncodePrefix(old_, lh, i)
    {
      hb := SetWord(hb, i + 1, lh[i]);
      i := i + 1;
    }
  }

  /** The header-reading loop of read_head. */
  method DecodeLoop(hb: Block) returns (lh: seq<nat>)
    requires Word(hb, 0) <= LOGSIZE
    ensures lh == HeadBlocks(hb)
  {
    lh := [];
    var i := 0;
    while i < Word(hb, 0)
      invariant 0 <= i <= Word(hb, 0) && lh == HeadBlocks(hb)[..i]
    {
      lh := lh + [Word(hb, i + 1)];
      i := i + 1;
    }
  }

  predicate DirtyHome(s: seq<Buf>, g: Geometry, d: Disk)
  {
    |s| == NBUF + 1 && forall i :: 0 <= i < NBUF && s[i].dirty ==> Home(g, d, s[i].blockno)
  }

  ghost predicate PinnedFrom(s: seq<Buf>, lh: seq<nat>, t: nat)
  {
    |s| == NBUF + 1 && forall u :: t <= u < |lh| ==> IsPinned(s, lh[u])
  }

  lemma UnpinOne(s: seq<Buf>, r: seq<Buf>, lh: seq<nat>, t: nat, l: nat, h: nat)
    requires |s| == |r| == NBUF + 1 && t < |lh| && l < NBUF && h < NBUF && l != h && Unique(s)
    requires forall i :: 0 <= i < NBUF && i != l && i != h ==> Content(r[i]) == Content(s[i])
    requires !s[l].dirty && !r[l].dirty && !r[h].dirty
    requires s[h].dirty ==> Keyed(s[h], DISKDEV, lh[t])
    requires IsPinned(s, lh[t]) ==> s[h].dirty
    requires DirtyIn(s, lh[t..]) && Finite.Distinct(lh)
    requires PinnedFrom(s, lh, t) || NoneDirty(s)
    requires forall i :: 0 <= i < NBUF && s[i].dirty ==> s[i].dev == DISKDEV
    ensures DirtyIn(r, lh[t + 1..])
    ensures PinnedFrom(r, lh, t + 1) || NoneDirty(r)
  {
    forall i | 0 <= i < NBUF && r[i].dirty ensures r[i].blockno in lh[t + 1..] {
      assert Content(r[i]) == Content(s[i]);
      assert lh[t..] == [lh[t]] + lh[t + 1..];
      if r[i].blockno == lh[t] {
        assert false;
      }
    }
    if PinnedFrom(s, lh, t) {
      forall u | t + 1 <= u < |lh| ensures IsPinned(r, lh[u]) {
        var j :| 0 <= j < NBUF && Keyed(s[j], DISKDEV, lh[u]) && s[j].dirty;
        assert Content(r[j]) == Content(s[j]);
      }
    } else {
      forall i | 0 <= i < NBUF ensures !r[i].dirty {
        assert i == l || i == h || Content(r[i]) == Content(s[i]);
      }
    }
  }

  lemma Sizes(s: seq<Buf>, lh: seq<nat>, data: seq<Block>)
    requires |s| == NBUF + 1 && AllPinned(s, lh, data)
    ensures |lh| == |data|
  {}

  /** Every dirty buffer holds a block named in lh. */
  predicate DirtyIn(s: seq<Buf>, lh: seq<nat>)
  {
    |s| == NBUF + 1 && forall i :: 0 <= i < NBUF && s[i].dirty ==> s[i].blockno in lh
  }

  predicate Held(b: Buf, blockno: nat)
  {
    Keyed(b, DISKDEV, blockno) && b.locked && b.valid && b.refcnt == 1
  }

  // ---- a log as full as the cache ----

  /** The blocks first, first + 1, ..., n of them. */
  function Consecutive(first: nat, n: nat): (r: seq<nat>)
    ensures |r| == n && forall i :: 0 <= i < n ==> r[i] == first + i
  {
    seq(n, i requires 0 <= i < n => first + i)
  }

  /** Releasing a pinned buffer keeps the account of logged blocks. */
  lemma StillTracked(s: seq<Buf>, t: seq<Buf>, lh: seq<nat>)
    requires |s| == |t| == NBUF + 1 && DirtyIn(s, lh) && PinnedFrom(s, lh, 0)
    requires forall i :: 0 <= i < NBUF ==>
             t[i].dev == s[i].dev && t[i].blockno == s[i].blockno && t[i].dirty == s[i].dirty
    ensures DirtyIn(t, lh) && PinnedFrom(t, lh, 0)
  {
    forall u | 0 <= u < |lh| ensures IsPinned(t, lh[u]) {
      var j :| 0 <= j < NBUF && Keyed(s[j], DISKDEV, lh[u]) && s[j].dirty;
      assert Keyed(t[j], DISKDEV, lh[u]) && t[j].dirty;
    }
  }

  /** Reading a block in for an update recycles only a clean buffer. */
  lemma BreadTracked(s: seq<Buf>, t: seq<Buf>, lh: seq<nat>, b: nat)
    requires |s| == |t| == NBUF + 1 && b < NBUF && DirtyIn(s, lh) && PinnedFrom(s, lh, 0)
    requires forall i :: 0 <= i < NBUF && i != b ==> t[i] == s[i]
    requires s[b].dirty ==> t[b].dirty && t[b].dev == s[b].dev && t[b].blockno == s[b].blockno
    requires !s[b].dirty ==> !t[b].dirty
    ensures DirtyIn(t, lh) && PinnedFrom(t, lh, 0)
  {
    forall u | 0 <= u < |lh| ensures IsPinned(t, lh[u]) {
      var j :| 0 <= j < NBUF && Keyed(s[j], DISKDEV, lh[u]) && s[j].dirty;
      assert Keyed(t[j], DISKDEV, lh[u]) && t[j].dirty;
    }
  }

  /** The first half of a logged update: bread and the change of the data. */
  method HoldChanged(log: LogState, b: nat, data: Block) returns (k: nat)
    requires log.Tracked() && Idle(log.cache.buf[..]) && |log.lh| < NBUF && Home(log.g, log.cache.disk, b)
    modifies log.cache, log.cache.buf
    ensures log.Tracked() && log.cache.disk == old(log.cache.disk) && k < NBUF
    ensures var x := log.cache.buf[k];
            x.locked && x.valid && x.refcnt == 1 && Keyed(x, DISKDEV, b) && x.data == data
    ensures forall i :: 0 <= i < NBUF && i != k ==> log.cache.buf[i].refcnt == 0 && !log.cache.buf[i].locked
  {
    hide Linked, Word, PinnedFrom, DirtyIn, Coherent, Unique, ByRelease;
    ghost var s := log.cache.buf[..];
    SpareExactly(s, log.cache.disk, log.lh);
    var r := log.cache.Bread(b);
    k := r.value;
    ghost var s1 := log.cache.buf[..];
    BreadTracked(s, s1, log.lh, k);
    log.cache.Modify(k, data);
    StillTracked(s1, log.cache.buf[..], log.lh);
  }

  /** One logged update: bread, change, log_write, brelse. */
  method UpdateBlock(log: LogState, b: nat, data: Block) returns (panic: bool)
    requires log.Tracked() && Idle(log.cache.buf[..]) && |log.lh| < NBUF && Home(log.g, log.cache.disk, b)
    requires |log.lh| < LOGSIZE && |log.lh| < log.g.size - 1 && log.outstanding >= 1
    modifies log`lh, log.cache, log.cache.buf
    ensures !panic && log.Tracked() && Idle(log.cache.buf[..]) && log.cache.disk == old(log.cache.disk)
    ensures log.lh == if b in old(log.lh) then old(log.lh) else old(log.lh) + [b]
  {
    hide Linked, Word, PinnedFrom, DirtyIn, Coherent, Unique, ByRelease, WfHeader;
    var k := HoldChanged(log, b, data);
    panic := log.LogWrite(k);
    ghost var s := log.cache.buf[..];
    log.cache.Brelse(k);
    StillTracked(s, log.cache.buf[..], log.lh);
  }

  /**
    Three operations log NBUF distinct blocks between them, each within its budget. The commit of the last one
    then panics: every buffer is pinned and none is left for the first log block.
   */
  method FullLogStops(log: LogState, first: nat) returns (ok: bool)
    requires log.Tracked() && Idle(log.cache.buf[..]) && log.lh == [] && log.outstanding == 0 && !log.committing
    requires log.g.size > LOGSIZE && forall b :: first <= b < first + NBUF ==> Home(log.g, log.cache.disk, b)
    modifies log, log.cache, log.cache.buf
    ensures log.committing && |log.lh| == NBUF && !ok
  {
    hide Linked, Word, PinnedFrom, DirtyIn, Idle, WfHeader;
    ok := log.BeginOp();
    ok := log.BeginOp();
    ok := log.BeginOp();
    var i := 0;
    while i < NBUF
      invariant 0 <= i <= NBUF && log.Tracked() && Idle(log.cache.buf[..]) && log.lh == Consecutive(first, i)
      invariant log.outstanding == 3 && !log.committing && log.cache.disk == old(log.cache.disk)
    {
      var panic := UpdateBlock(log, first + i, ZERO);
      i := i + 1;
    }
    var commit, panic := log.EndOp();
    commit, panic := log.EndOp();
    commit, panic := log.EndOp();
    SpareExactly(log.cache.buf[..], log.cache.disk, log.lh);
    ghost var data := PinnedData(log.cache.buf[..], log.lh, |log.lh|);
    IdleClear(log.cache.buf[..], log.g, log.lh);
    ok := log.Commit(data);
  }

  lemma IdleClear(s: seq<Buf>, g: Geometry, lh: seq<nat>)
    requires Idle(s)
    ensures LogClear(s, g, lh)
  {}

  /** What the pinned buffers of the first n logged blocks hold. */
  lemma {:induction false} PinnedData(s: seq<Buf>, lh: seq<nat>, n: nat) returns (data: seq<Block>)
    requires PinnedFrom(s, lh, 0) && n <= |lh|
    ensures AllPinned(s, lh[..n], data) && (n == |lh| ==> AllPinned(s, lh, data))
  {
    if n == 0 {
      data := [];
    } else {
      data := PinnedData(s, lh, n - 1);
      assert IsPinned(s, lh[n - 1]);
      var i :| 0 <= i < NBUF && Keyed(s[i], DISKDEV, lh[n - 1]) && s[i].dirty;
      forall t | 0 <= t < n ensures Pinned(s, lh[t], (data + [s[i].data])[t]) {
        if t < n - 1 { assert Pinned(s, lh[..n - 1][t], data[t]); }
      }
      data := data + [s[i].data];
    }
  }
}
