/**
  What every run of the transactions guarantees: after a crash at any moment, recovery leaves whole transactions.
 */
module CrashSafeFiles {
  import opened Blocks
  import opened RedoLog
  import opened Inodes
  import opened FileData
  import opened LogProtocol
  import opened FileTransactions
  import opened TransactionSteps

  // ---- a file system on a disk ----

  /** From the inode blocks on, disk holds the blocks of fs. */
  ghost predicate Shows(sb: Super, disk: Disk, fs: Fs)
  {
    |disk| == |fs.blocks| && forall b :: sb.inodestart <= b < |disk| ==> disk[b] == fs.blocks[b]
  }

  /** disk decodes to a well-formed file system: its inodes are the on-disk ones, and file i holds what fs holds. */
  ghost predicate DecodesTo(sb: Super, disk: Disk, fs: Fs)
  {
    && WfFs(sb, fs) && WfFs(sb, Fs(disk, fs.inodes))
    && (forall i: nat :: i < |fs.inodes| ==> fs.inodes[i] == GetDinode(disk[Iblock(sb, i)], i % IPB))
    && forall i: nat :: i < |fs.inodes| ==>
         WfFile(fs, i) && WfFile(Fs(disk, fs.inodes), i) && Contents(Fs(disk, fs.inodes), i) == Contents(fs, i)
  }

  lemma ShownRefs(sb: Super, disk: Disk, fs: Fs)
    requires WfFs(sb, fs) && Shows(sb, disk, fs)
    ensures SameRefs(fs, Fs(disk, fs.inodes)) && Owns(sb, Fs(disk, fs.inodes), {}, {})
  {
    hide RefAt, Bit, Synced, WfFile;
    var fs' := Fs(disk, fs.inodes);
    RefsFrame(sb, fs, fs');
    SameRefsOwn(sb, fs, fs');
    forall b | 0 <= b < sb.size ensures BitAt(sb, fs'.blocks, b) == BitAt(sb, fs.blocks, b) { BblockIsMeta(sb, fs, b); }
  }

  lemma ShownFile(sb: Super, disk: Disk, fs: Fs, i: nat)
    requires WfFs(sb, fs) && Shows(sb, disk, fs) && i < |fs.inodes| && SameRefs(fs, Fs(disk, fs.inodes))
    ensures WfFile(fs, i) && WfFile(Fs(disk, fs.inodes), i) && Contents(Fs(disk, fs.inodes), i) == Contents(fs, i)
  {
    hide RefAt, Bitmap, RefsDistinct, Synced, BlocksFor;
    var fs' := Fs(disk, fs.inodes);
    assert WfFile(fs, i);
    forall p | 0 <= p < fs.inodes[i].size ensures FileByte(fs', i, p) == FileByte(fs, i, p) {
      BelowBlocks(p, fs.inodes[i].size);
      SameBytes(sb, fs, fs', i, p);
    }
  }

  /** The log region is nothing to a file system. */
  lemma ShowsDecodes(sb: Super, disk: Disk, fs: Fs)
    requires WfFs(sb, fs) && Shows(sb, disk, fs)
    ensures DecodesTo(sb, disk, fs)
  {
    hide RefAt, Bitmap, RefsDistinct, RefsInData, AllocTo, Contents, GetDinode;
    var fs' := Fs(disk, fs.inodes);
    ShownRefs(sb, disk, fs);
    forall i: nat | i < |fs.inodes|
      ensures SyncedAt(sb, fs', i) && fs.inodes[i] == GetDinode(disk[Iblock(sb, i)], i % IPB)
    {
      assert SyncedAt(sb, fs, i);
    }
    forall i: nat | i < |fs.inodes|
      ensures WfFile(fs, i) && WfFile(fs', i) && Contents(fs', i) == Contents(fs, i) { ShownFile(sb, disk, fs, i); }
  }

  // ---- runs ----

  ghost predicate JointRun(g: Geometry, sb: Super, j: Joint, acts: seq<Step>)
    decreases |acts|, 0
  {
    acts == [] ||
    (JointRun(g, sb, j, acts[..|acts| - 1])
        && CanStep(g, sb, JointAfter(g, sb, j, acts[..|acts| - 1]), acts[|acts| - 1]))
  }

  ghost function JointAfter(g: Geometry, sb: Super, j: Joint, acts: seq<Step>): (j': Joint)
    requires JointRun(g, sb, j, acts)
    decreases |acts|, 1
  {
    if acts == [] then j else DoStep(g, sb, JointAfter(g, sb, j, acts[..|acts| - 1]), acts[|acts| - 1])
  }

  /** The machine before its first recovery, with disk d. */
  function Boot(d: Disk, fs: Fs): (j: Joint)
  {
    Joint(Init(d), [fs], [], [], 0)
  }

  /** The log lies before the inode blocks, and recovering d gives fs. */
  ghost predicate Formatted(g: Geometry, sb: Super, d: Disk, fs: Fs)
  {
    && WfDisk(g, d) && WfFs(sb, fs) && g.start + g.size <= sb.inodestart
    && Shows(sb, Recover(g, d), fs)
  }

  lemma BootInv(g: Geometry, sb: Super, d: Disk, fs: Fs)
    requires Formatted(g, sb, d, fs)
    ensures JointInv(g, sb, Recover(g, d), Boot(d, fs))
  {
    hide Word, Encode, Durable, Apply, WfFs, Inv, Recover, WfDisk;
    InitInv(g, d);
  }

  lemma {:induction false} JointRunKeeps(g: Geometry, sb: Super, d: Disk, fs: Fs, acts: seq<Step>)
    requires Formatted(g, sb, d, fs) && JointRun(g, sb, Boot(d, fs), acts)
    ensures JointInv(g, sb, Recover(g, d), JointAfter(g, sb, Boot(d, fs), acts))
  {
    hide WfDisk, WfFs, Shows, JointInv, CanStep, DoStep, Recover;
    if acts == [] {
      BootInv(g, sb, d, fs);
    } else {
      JointRunKeeps(g, sb, d, fs, acts[..|acts| - 1]);
      StepKeepsJoint(g, sb, Recover(g, d), JointAfter(g, sb, Boot(d, fs), acts[..|acts| - 1]), acts[|acts| - 1]);
    }
  }

  lemma {:induction false} FirstStays(g: Geometry, sb: Super, j: Joint, acts: seq<Step>)
    requires JointRun(g, sb, j, acts) && j.fss != []
    ensures JointAfter(g, sb, j, acts).fss != [] && JointAfter(g, sb, j, acts).fss[0] == j.fss[0]
  {
    if acts != [] {
      hide Do, Enabled, TxnStep, Stores;
      FirstStays(g, sb, j, acts[..|acts| - 1]);
    }
  }

  // ---- what every run guarantees ----

  lemma TxnContents(sb: Super, fs: Fs, fs': Fs, t: Txn, i: nat)
    requires TxnStep(sb, fs, fs', t) && i < |fs.inodes|
    ensures WfFs(sb, fs) && WfFs(sb, fs') && |fs'.inodes| == |fs.inodes| && WfFile(fs, i) && WfFile(fs', i)
    ensures InodeOf(t) != i ==> Contents(fs', i) == Contents(fs, i)
    ensures InodeOf(t) == i && t.Trunc? ==> Contents(fs', i) == []
    ensures InodeOf(t) == i && t.Write? ==>
              t.c.off <= |Contents(fs, i)| && Contents(fs', i) == Overlay(Contents(fs, i), t.c.off, t.c.src)
  {
    hide Owns, Synced, AllocTo, FileByte, Overlay, Footprint;
    var L :| Txns(sb, fs, fs', t, L);
    assert WfFile(fs, i) && WfFile(fs', i);
  }

  /** Each file is its first contents with the transactions on it so far laid over one another. */
  lemma {:induction false} ChainContents(sb: Super, fss: seq<Fs>, txns: seq<Txn>, k: nat, i: nat)
    requires |fss| == |txns| + 1 && k <= |txns| && WfFs(sb, fss[0]) && i < |fss[0].inodes|
    requires forall n :: 0 <= n < |txns| ==> TxnStep(sb, fss[n], fss[n + 1], txns[n])
    ensures WfFs(sb, fss[k]) && |fss[k].inodes| == |fss[0].inodes| && WfFile(fss[0], i) && WfFile(fss[k], i)
    ensures Contents(fss[k], i) == ContentsAfter(Contents(fss[0], i), txns[..k], i)
  {
    hide Owns, Synced, AllocTo, Contents, TxnStep, Overlay;
    if k == 0 {
      assert WfFile(fss[0], i);
    } else {
      ChainContents(sb, fss, txns, k - 1, i);
      var n := k - 1;
      assert TxnStep(sb, fss[n], fss[n + 1], txns[n]);
      TxnContents(sb, fss[n], fss[k], txns[n], i);
      assert txns[..k][..n] == txns[..n];
    }
  }

  lemma {:induction false} SameInodes(sb: Super, fss: seq<Fs>, txns: seq<Txn>, k: nat)
    requires |fss| == |txns| + 1 && k <= |txns| && WfFs(sb, fss[0])
    requires forall n :: 0 <= n < |txns| ==> TxnStep(sb, fss[n], fss[n + 1], txns[n])
    ensures WfFs(sb, fss[k]) && |fss[k].inodes| == |fss[0].inodes|
  {
    hide TxnStep, WfFs;
    if k > 0 {
      var n := k - 1;
      SameInodes(sb, fss, txns, n);
      assert TxnStep(sb, fss[n], fss[n + 1], txns[n]);
      TxnWf(sb, fss[n], fss[k], txns[n]);
    }
  }

  /**
    At every moment of every run, a crash there and a recovery leave a well-formed file system on the disk in which
    every file holds its contents after the first k transactions, and they are all whole: k is `saved`, the number
    begun by the last header write, when every one of them was complete.
   */
  lemma FilesSurvive(g: Geometry, sb: Super, d: Disk, fs: Fs, acts: seq<Step>)
    requires Formatted(g, sb, d, fs) && JointRun(g, sb, Boot(d, fs), acts)
    ensures var j := JointAfter(g, sb, Boot(d, fs), acts);
            && |j.fss| == |j.txns| + 1 && j.saved <= |j.txns| && WfDisk(g, j.s.disk)
            && DecodesTo(sb, Recover(g, j.s.disk), j.fss[j.saved]) && |j.fss[j.saved].inodes| == |fs.inodes|
            && forall i: nat :: i < |fs.inodes| ==>
                 && WfFile(fs, i) && WfFile(j.fss[j.saved], i)
                 && Contents(j.fss[j.saved], i) == ContentsAfter(Contents(fs, i), j.txns[..j.saved], i)
  {
    hide JointRun, JointAfter, WfFs, Contents, AllocTo, TxnStep, Hist, Recover, WfDisk, DecodesTo, Inv, ContentsAfter,
         CurrentOk, OpenOk;
    JointRunKeeps(g, sb, d, fs, acts);
    FirstStays(g, sb, Boot(d, fs), acts);
    var j := JointAfter(g, sb, Boot(d, fs), acts);
    SameInodes(sb, j.fss, j.txns, j.saved);
    RecoveredShows(g, sb, Recover(g, d), j);
    ShowsDecodes(sb, Recover(g, j.s.disk), j.fss[j.saved]);
    forall i: nat | i < |fs.inodes|
      ensures WfFile(fs, i) && WfFile(j.fss[j.saved], i)
      ensures Contents(j.fss[j.saved], i) == ContentsAfter(Contents(fs, i), j.txns[..j.saved], i)
    {
      ChainContents(sb, j.fss, j.txns, j.saved, i);
    }
  }

  /** Nothing is lost but what had begun after the last header write. */
  lemma HeaderSavesAll(g: Geometry, sb: Super, d: Disk, fs: Fs, acts: seq<Step>)
    requires Formatted(g, sb, d, fs) && JointRun(g, sb, Boot(d, fs), acts)
    requires CanStep(g, sb, JointAfter(g, sb, Boot(d, fs), acts), Log(WriteHead))
    ensures var j := JointAfter(g, sb, Boot(d, fs), acts);
            j.open == [] && DoStep(g, sb, j, Log(WriteHead)).saved == |j.txns|
  {
    hide JointRun, JointAfter, Inv, Do, Chain, SavedOk, CurrentOk, OpenOk, Recover, Formatted;
    JointRunKeeps(g, sb, d, fs, acts);
    assert WfDisk(g, d) by { FormattedDisk(g, sb, d, fs); }
    var j := JointAfter(g, sb, Boot(d, fs), acts);
    CommitQuiet(g, Recover(g, d), j.s);
    NoneOpen(sb, Recover(g, d), j);
  }

  lemma FormattedDisk(g: Geometry, sb: Super, d: Disk, fs: Fs)
    requires Formatted(g, sb, d, fs)
    ensures WfDisk(g, d)
  {}

  lemma RecoveredShows(g: Geometry, sb: Super, base: Disk, j: Joint)
    requires Inv(g, base, j.s) && g.start + g.size <= sb.inodestart && SavedOk(sb, base, j)
    ensures WfDisk(g, j.s.disk) && Shows(sb, Recover(g, j.s.disk), j.fss[j.saved])
  {
    hide Word, Encode, Durable, Apply, Hist, WfFs, Inv, HeadBlocks, RecoveryWrites;
    InvDurable(g, base, j.s);
    RecoverCompletes(g, j.s.disk);
    DiskLength(g, base, j.s);
    forall b | sb.inodestart <= b < |base| ensures Recover(g, j.s.disk)[b] == j.fss[j.saved].blocks[b] {
      assert Home(g, j.s.disk, b);
    }
  }

  lemma DiskLength(g: Geometry, base: Disk, s: State)
    requires Inv(g, base, s) && WfDisk(g, s.disk)
    ensures |s.disk| == |base| == |Recover(g, s.disk)|
  {
    hide Word, Encode, Durable, WfHeader, HeadBlocks, RecoveryWrites, BeforeHead, AfterHead, CacheOk, OpsOk;
  }

  // ---- every transaction can be carried out ----

  /** The blocks of L from lo up to n, one after the other. */
  lemma {:induction false} Listing(L: set<nat>, lo: nat, n: nat) returns (bs: seq<nat>)
    ensures |bs| <= |L| && (forall b :: b in bs <==> b in L && lo <= b < n) && forall k :: 0 <= k < |bs| ==>
            lo <= bs[k] < n
    decreases |L|
  {
    if b :| b in L {
      var rest := Listing(L - {b}, lo, n);
      bs := if lo <= b < n then rest + [b] else rest;
    } else {
      bs := [];
    }
  }

  lemma ExtendJoint(g: Geometry, sb: Super, j0: Joint, acts: seq<Step>, a: Step)
    requires JointRun(g, sb, j0, acts) && CanStep(g, sb, JointAfter(g, sb, j0, acts), a)
    ensures JointRun(g, sb, j0, acts + [a])
    ensures JointAfter(g, sb, j0, acts + [a]) == DoStep(g, sb, JointAfter(g, sb, j0, acts), a)
  {
    hide CanStep, DoStep;
    assert (acts + [a])[..|acts|] == acts;
  }

  /** The open transactions have nothing left to do in the blocks of the free map that are in bs. */
  ghost predicate MapIdle(sb: Super, open: seq<Open>, bs: set<nat>)
  {
    forall k, b, p :: 0 <= k < |open| && b in bs && InMap(sb, b) && 0 <= p < BSIZE ==> Left(open[k], b, p) == 0
  }

  /** From j, operation op has begun t and has changed the first n blocks of bs to what post holds. */
  ghost predicate Doing(g: Geometry, sb: Super, base: Disk, j: Joint, jn: Joint, op: nat, t: Txn, post: Fs,
          bs: seq<nat>, n: nat)
    requires n <= |bs| && |j.fss| == |j.txns| + 1
  {
    var m, cur := |j.open|, j.fss[|j.txns|];
    && JointInv(g, sb, base, jn) && jn.fss == j.fss + [post] && jn.txns == j.txns + [t]
    && |jn.open| == m + 1 && jn.open[..m] == j.open && |cur.blocks| == |jn.open[m].at| == |post.blocks| == |base|
    && jn.open[m].t == t && jn.open[m].post == post
    && (forall b :: 0 <= b < |base| ==> jn.open[m].at[b] == if b in bs[..n] then post.blocks[b] else cur.blocks[b])
    && jn.s.phase.Running? && op < |jn.s.ops| && jn.s.ops[op].id == jn.open[m].id && jn.s.ops[op].used <= n
    && |jn.s.lh| <= |j.s.lh| + n
  }

  lemma RoomToPut(g: Geometry, base: Disk, s: State, op: nat)
    requires Inv(g, base, s) && op < |s.ops| && s.ops[op].used < MAXOPBLOCKS
    ensures |s.lh| < LOGSIZE
  {
    hide BeforeHead, AfterHead, CacheOk, IdsOk, WfHeader, WfDisk, Durable, Unused;
    UnusedBounds(s.ops);
  }

  /** A free-map block that only transaction k has yet to change is as it would be were it alone. */
  lemma MapAsAlone(sb: Super, base: Disk, j: Joint, k: nat, b: nat)
    requires CurrentOk(sb, base, j) && k < |j.open| && sb.inodestart <= b < |base|
    requires |j.open[k].at| == |base| && j.open[k].post == j.fss[|j.txns|]
    requires forall l, p :: 0 <= l < |j.open| && l != k && 0 <= p < BSIZE ==> Left(j.open[l], b, p) == 0
    ensures Hist(base, j.s.events, b) == j.open[k].at[b]
  {
    hide Hist, ToCome;
    forall p | 0 <= p < BSIZE ensures Hist(base, j.s.events, b)[p] == j.open[k].at[b][p]
    { ToComeOnly(j.open, k, b, p); }
  }

  /** What transaction o makes of block x outside the free map. */
  ghost function Merged(sb: Super, o: Open, b: nat, x: Block, y: Block): (data: Block)
  {
    seq(BSIZE, p requires 0 <= p < BSIZE => if Own(sb, o, b, p) then y[p] else x[p])
  }

  lemma StoreNext(g: Geometry, sb: Super, base: Disk, j: Joint, k: nat, b: nat) returns (data: Block)
    requires JointInv(g, sb, base, j) && k < |j.open| && sb.inodestart <= b < |base|
             && j.open[k].post == j.fss[|j.txns|]
    requires j.s.phase.Running?
    requires forall l, p :: 0 <= l < |j.open| && l != k && InMap(sb, b) && 0 <= p < BSIZE ==> Left(j.open[l], b, p) == 0
    ensures |j.s.disk| == |j.open[k].at| == |j.open[k].post.blocks| == |base|
    ensures Stores(sb, j.open[k], b, View(j.s, b), j.open[k].post.blocks[b], data)
  {
    hide Inv, Chain, SavedOk, Hist, ToCome, View, MovesBit, Own, RefAt, Left;
    var o := j.open[k];
    var y := o.post.blocks[b];
    OpenSize(sb, base, j, k);
    assert |j.s.disk| == |base| by { InvSize(g, base, j.s); }
    ViewIsHist(g, base, j.s, b);
    if InMap(sb, b) {
      MapAsAlone(sb, base, j, k, b);
      data := y;
      forall p, q | 0 <= p < BSIZE && 0 <= q < 8 ensures MovesBit(o.at[b][p], y[p], o.at[b][p], y[p], q) {
        MovesSame(o.at[b][p], y[p], q);
      }
    } else {
      data := Merged(sb, o, b, View(j.s, b), y);
    }
  }

  lemma MovesSame(a: nat, y: nat, k: nat)
    ensures MovesBit(a, y, a, y, k)
  {}

  lemma InvSize(g: Geometry, base: Disk, s: State)
    requires Inv(g, base, s)
    ensures |s.disk| == |base|
  {
    hide BeforeHead, AfterHead, CacheOk, OpsOk, WfHeader, WfDisk, Durable;
  }

  lemma PutNext(g: Geometry, sb: Super, base: Disk, j: Joint, jn: Joint, op: nat, t: Txn, post: Fs, bs: seq<nat>,
          n: nat)
    returns (a: Step)
    requires |j.fss| == |j.txns| + 1 && n < |bs| <= MAXOPBLOCKS && Doing(g, sb, base, j, jn, op, t, post, bs, n)
    requires |j.s.lh| + |bs| < g.size && MapIdle(sb, j.open, set b | b in bs)
    requires forall k :: 0 <= k < |bs| ==> sb.inodestart <= bs[k] < |base|
    ensures CanStep(g, sb, jn, a) && Doing(g, sb, base, j, DoStep(g, sb, jn, a), op, t, post, bs, n + 1)
  {
    hide Inv, TxnStep, WfFs, Hist, ToCome, Left, Stores, OpenOk, SavedOk, CurrentOk, View;
    var b, m := bs[n], |j.open|;
    forall l, p | 0 <= l < |jn.open| && l != m && InMap(sb, b) && 0 <= p < BSIZE ensures Left(jn.open[l], b, p) == 0 {
      assert jn.open[..m][l] == j.open[l];
    }
    var data := StoreNext(g, sb, base, jn, m, b);
    RoomToPut(g, base, jn.s, op);
    a := Put(m, op, b, post.blocks[b], data);
    PutKeeps(g, sb, base, jn, m, op, b, post.blocks[b], data);
    assert bs[..n + 1] == bs[..n] + [b];
  }

  lemma {:induction false} PutAll(g: Geometry, sb: Super, base: Disk, j0: Joint, acts: seq<Step>, j: Joint, op: nat,
          t: Txn, post: Fs, bs: seq<nat>, n: nat)
    returns (acts': seq<Step>)
    requires JointRun(g, sb, j0, acts) && |j.fss| == |j.txns| + 1 && n <= |bs| <= MAXOPBLOCKS
    requires Doing(g, sb, base, j, JointAfter(g, sb, j0, acts), op, t, post, bs, 0)
    requires |j.s.lh| + |bs| < g.size && MapIdle(sb, j.open, set b | b in bs)
    requires forall k :: 0 <= k < |bs| ==> sb.inodestart <= bs[k] < |base|
    ensures JointRun(g, sb, j0, acts')
    ensures Doing(g, sb, base, j, JointAfter(g, sb, j0, acts'), op, t, post, bs, n)
  {
    hide Doing, CanStep, DoStep, JointRun, JointAfter, MapIdle;
    if n == 0 {
      acts' := acts;
    } else {
      acts' := PutAll(g, sb, base, j0, acts, j, op, t, post, bs, n - 1);
      var a := PutNext(g, sb, base, j, JointAfter(g, sb, j0, acts'), op, t, post, bs, n - 1);
      ExtendJoint(g, sb, j0, acts', a);
      acts' := acts' + [a];
    }
  }

  lemma StartDoing(g: Geometry, sb: Super, base: Disk, j: Joint, op: nat, t: Txn, post: Fs, bs: seq<nat>)
    requires JointInv(g, sb, base, j) && CanStep(g, sb, j, Start(op, t, post)) && j.s.ops[op].used == 0
    ensures Doing(g, sb, base, j, DoStep(g, sb, j, Start(op, t, post)), op, t, post, bs, 0)
  {
    hide Inv, TxnStep, WfFs, Hist, ToCome, Left, OpenOk, SavedOk;
    StartKeeps(g, sb, base, j, op, t, post);
    var jn := DoStep(g, sb, j, Start(op, t, post));
    assert jn.fss[|jn.txns|] == post;
  }

  /**
    Whatever transaction writei or itrunc makes, an operation that has logged nothing yet can carry it out through the
    log without a panic, whatever else is outstanding or under way, and nothing else is disturbed.
   */
  lemma TxnRuns(g: Geometry, sb: Super, d: Disk, fs: Fs, acts: seq<Step>, op: nat, t: Txn, post: Fs, L: set<nat>)
    returns (acts': seq<Step>)
    requires Formatted(g, sb, d, fs) && JointRun(g, sb, Boot(d, fs), acts)
    requires var j := JointAfter(g, sb, Boot(d, fs), acts);
             && CanStep(g, sb, j, Start(op, t, post)) && j.s.ops[op].used == 0
             && Txns(sb, j.fss[|j.txns|], post, t, L) && |j.s.lh| + |L| < g.size && MapIdle(sb, j.open, L)
    ensures JointRun(g, sb, Boot(d, fs), acts')
    ensures var j, j' := JointAfter(g, sb, Boot(d, fs), acts), JointAfter(g, sb, Boot(d, fs), acts');
            && j'.fss == j.fss + [post] && j'.txns == j.txns + [t] && j'.open == j.open
            && j'.s.phase.Running? && j'.s.ops != []
  {
    hide Formatted, JointRun, JointAfter, JointInv, Txns, WfFs, Recover, CanStep, DoStep, Doing;
    JointRunKeeps(g, sb, d, fs, acts);
    assert WfDisk(g, d) by { FormattedDisk(g, sb, d, fs); }
    var base, j0 := Recover(g, d), Boot(d, fs);
    var j := JointAfter(g, sb, j0, acts);
    assert |j.fss| == |j.txns| + 1 by { CanStart(g, sb, j, op, t, post); }
    TxnSize(sb, j.fss[|j.txns|], post, t, L);
    var bs := Listing(L, sb.inodestart, |base|);
    StartDoing(g, sb, base, j, op, t, post, bs);
    ExtendJoint(g, sb, j0, acts, Start(op, t, post));
    acts' := PutAll(g, sb, base, j0, acts + [Start(op, t, post)], j, op, t, post, bs, |bs|);
    DoneDoing(g, sb, base, j, JointAfter(g, sb, j0, acts'), op, t, post, bs, L);
    ExtendJoint(g, sb, j0, acts', Finish(|j.open|));
    acts' := acts' + [Finish(|j.open|)];
  }

  lemma CanStart(g: Geometry, sb: Super, j: Joint, op: nat, t: Txn, post: Fs)
    requires CanStep(g, sb, j, Start(op, t, post))
    ensures |j.fss| == |j.txns| + 1
  {}

  lemma TxnSize(sb: Super, fs: Fs, fs': Fs, t: Txn, L: set<nat>)
    requires Txns(sb, fs, fs', t, L)
    ensures |fs'.blocks| == |fs.blocks| && |L| <= MAXOPBLOCKS
    ensures forall b :: 0 <= b < |fs.blocks| && (b < sb.inodestart || b !in L) ==> fs'.blocks[b] == fs.blocks[b]
  {
    hide WfFs, Written, TruncatedTo, Footprint;
  }

  lemma DoneDoing(g: Geometry, sb: Super, base: Disk, j: Joint, jn: Joint, op: nat, t: Txn, post: Fs, bs: seq<nat>,
          L: set<nat>)
    requires |j.fss| == |j.txns| + 1 && Doing(g, sb, base, j, jn, op, t, post, bs, |bs|)
    requires forall b :: 0 <= b < |base| && b in L && sb.inodestart <= b ==> b in bs
    requires Txns(sb, j.fss[|j.txns|], post, t, L)
    ensures CanStep(g, sb, jn, Finish(|j.open|))
    ensures var j' := DoStep(g, sb, jn, Finish(|j.open|));
            && j'.fss == j.fss + [post] && j'.txns == j.txns + [t] && j'.open == j.open
            && j'.s.phase.Running? && j'.s.ops != []
  {
    hide Inv, Txns, TxnStep, WfFs, Hist, ToCome, Left, OpenOk, SavedOk, CurrentOk;
    TxnSize(sb, j.fss[|j.txns|], post, t, L);
    assert bs[..|bs|] == bs;
    assert jn.open[..|j.open|] + jn.open[|j.open| + 1..] == j.open;
  }
}
