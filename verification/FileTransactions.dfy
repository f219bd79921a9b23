/**
  The chunks of filewrite, and truncations, as transactions of the logging protocol. Any number of them, on different
  inodes, are under way at once and interleave store by store; they commit together, blocks are cached, evicted,
  committed and recovered at any time, and the machine may crash at any moment.
 */
module FileTransactions {
  import opened Blocks
  import opened RedoLog
  import opened Inodes
  import opened FileData
  import opened LogProtocol

  // ---- transactions ----

  datatype Txn = Write(c: Chunk) | Trunc(i: nat)

  function InodeOf(t: Txn): (i: nat)
  {
    if t.Write? then t.c.i else t.i
  }

  /** Transaction t, done on its own, takes fs to fs' and logs the blocks L. */
  ghost predicate Txns(sb: Super, fs: Fs, fs': Fs, t: Txn, L: set<nat>)
  {
    if t.Write? then ChunkLogged(sb, fs, fs', t.c, L) else TruncLogged(sb, fs, fs', t.i, L)
  }

  ghost predicate TxnStep(sb: Super, fs: Fs, fs': Fs, t: Txn)
  {
    exists L :: Txns(sb, fs, fs', t, L)
  }

  /** File i after the transactions ts, one over the other. */
  function ContentsAfter(c: seq<Byte>, ts: seq<Txn>, i: nat): (r: seq<Byte>)
  {
    if ts == [] then c else
      var before, t := ContentsAfter(c, ts[..|ts| - 1], i), ts[|ts| - 1];
      if InodeOf(t) != i then before
      else if t.Trunc? then []
      else if t.c.off <= |before| then Overlay(before, t.c.off, t.c.src) else before
  }

  // ---- the joint state machine ----

  /** A transaction of operation id: alone, it would have left `at` on the disk by now, and it will leave post. */
  datatype Open = Open(id: nat, t: Txn, at: Disk, post: Fs)

  /**
    fss[k] is the file system after the first k of the transactions begun so far, once they are all complete.
    The last header write came when the first `saved` of them were, and no other had begun.
   */
  datatype Joint = Joint(s: State, fss: seq<Fs>, txns: seq<Txn>, open: seq<Open>, saved: nat)

  datatype Step =
    | Log(a: Action)                                       // begin_op, end_op, the cache, commit, a crash, recovery
    | Start(op: nat, t: Txn, post: Fs)                     // operation op locks an inode and begins transaction t
    | Put(k: nat, op: nat, b: nat, y: Block, data: Block)  // open transaction k makes block b data; alone, y
    | Finish(k: nat)                                       // open transaction k is complete

  /** What transaction o has yet to add to byte p of block b. */
  function Left(o: Open, b: nat, p: nat): (x: int)
  {
    if b < |o.at| && b < |o.post.blocks| && p < BSIZE then o.post.blocks[b][p] as int - o.at[b][p] as int else 0
  }

  function ToCome(open: seq<Open>, b: nat, p: nat): (x: int)
  {
    if open == [] then 0 else ToCome(open[..|open| - 1], b, p) + Left(open[|open| - 1], b, p)
  }

  /** The bytes under the lock of the transaction's inode: its own slot, and the blocks it reaches. */
  ghost predicate Own(sb: Super, o: Open, b: nat, p: nat)
  {
    var i := InodeOf(o.t);
    (b == Iblock(sb, i) && p / 64 == i % IPB) || (sb.datastart <= b && Mine(o.post, i, b))
  }

  predicate InMap(sb: Super, b: nat)
  {
    sb.bmapstart <= b < sb.datastart
  }

  /**
    How transaction o changes block b, which holds x. Bytes of its own take their value in y. Bits of the free map that
    y changes must be in x what they were for it, as balloc and bfree test. All else stays.
   */
  ghost predicate Stores(sb: Super, o: Open, b: nat, x: Block, y: Block, data: Block)
    requires b < |o.at|
  {
    if InMap(sb, b) then
      forall p, k :: 0 <= p < BSIZE && 0 <= k < 8 ==> MovesBit(o.at[b][p], y[p], x[p], data[p], k)
    else
      forall p :: 0 <= p < BSIZE ==> if Own(sb, o, b, p) then data[p] == y[p] else y[p] == o.at[b][p] && data[p] == x[p]
  }

  ghost predicate CanStep(g: Geometry, sb: Super, j: Joint, a: Step)
  {
    && |j.fss| == |j.txns| + 1 && j.saved <= |j.txns|
    && match a
       case Log(a) =>
         && Enabled(g, j.s, a) && !a.Update?
         && (a.End? ==> forall k :: 0 <= k < |j.open| ==> j.open[k].id != j.s.ops[a.op].id)
       case Start(op, t, post) =>
         && j.s.phase.Running? && op < |j.s.ops| && TxnStep(sb, j.fss[|j.txns|], post, t)
         && forall k :: 0 <= k < |j.open| ==> j.open[k].id != j.s.ops[op].id && InodeOf(j.open[k].t) != InodeOf(t)
       case Put(k, op, b, y, data) =>
         && k < |j.open| && op < |j.s.ops| && j.s.ops[op].id == j.open[k].id && sb.inodestart <= b < |j.open[k].at|
         && Enabled(g, j.s, Update(op, b, data)) && Stores(sb, j.open[k], b, View(j.s, b), y, data)
       case Finish(k) =>
         && k < |j.open| && |j.open[k].at| == |j.open[k].post.blocks|
         && forall b :: sb.inodestart <= b < |j.open[k].at| ==> j.open[k].at[b] == j.open[k].post.blocks[b]
  }

  ghost function DoStep(g: Geometry, sb: Super, j: Joint, a: Step): (j': Joint)
    requires CanStep(g, sb, j, a)
  {
    match a
    case Log(a) =>
      var s := Do(g, j.s, a);
      if a.Crash? then Joint(s, j.fss[..j.saved + 1], j.txns[..j.saved], [], j.saved)
      else if a.WriteHead? then j.(s := s, saved := |j.txns|)
      else j.(s := s)
    case Start(op, t, post) =>
      j.(fss := j.fss + [post], txns := j.txns + [t],
         open := j.open + [Open(j.s.ops[op].id, t, j.fss[|j.txns|].blocks, post)])
    case Put(k, op, b, y, data) =>
      j.(s := Do(g, j.s, Update(op, b, data)), open := j.open[k := j.open[k].(at := j.open[k].at[b := y])])
    case Finish(k) => j.(open := j.open[..k] + j.open[k + 1..])
  }

  // ---- the invariant ----

  ghost predicate Chain(sb: Super, base: Disk, j: Joint)
  {
    && |j.fss| == |j.txns| + 1 && j.saved <= |j.txns| && WfFs(sb, j.fss[0])
    && (forall k :: 0 <= k < |j.fss| ==> |j.fss[k].blocks| == |base|)
    && forall k :: 0 <= k < |j.txns| ==> TxnStep(sb, j.fss[k], j.fss[k + 1], j.txns[k])
  }

  /** The durable updates lead to the file system of the last header write. */
  ghost predicate SavedOk(sb: Super, base: Disk, j: Joint)
  {
    && j.saved < |j.fss| && |j.fss[j.saved].blocks| == |base| && j.s.durable <= |j.s.events|
    && forall b :: sb.inodestart <= b < |base| ==> Hist(base, j.s.events[..j.s.durable], b) == j.fss[j.saved].blocks[b]
  }

  /** All updates, and what the open transactions have yet to add, lead to the current file system. */
  ghost predicate CurrentOk(sb: Super, base: Disk, j: Joint)
  {
    && |j.fss| == |j.txns| + 1 && |j.fss[|j.txns|].blocks| == |base|
    && forall b, p :: sb.inodestart <= b < |base| && 0 <= p < BSIZE ==>
         Hist(base, j.s.events, b)[p] + ToCome(j.open, b, p) == j.fss[|j.txns|].blocks[b][p] as int
  }

  ghost predicate Outstanding(s: State, id: nat)
  {
    exists op :: 0 <= op < |s.ops| && s.ops[op].id == id
  }

  /** What o owns is in cur as o leaves it, and what o has yet to do is in its own bytes or the free map. */
  ghost predicate Locked(sb: Super, n: nat, cur: Fs, o: Open)
  {
    var i := InodeOf(o.t);
    && |o.at| == |o.post.blocks| == |cur.blocks| == n && i < |cur.inodes| && i < |o.post.inodes|
    && (forall l :: 0 <= l < NSLOTS ==> RefAt(cur, i, l) == RefAt(o.post, i, l))
    && (forall b, p :: sb.inodestart <= b < n && 0 <= p < BSIZE && Own(sb, o, b, p) ==>
          cur.blocks[b][p] == o.post.blocks[b][p])
    && forall b, p :: sb.inodestart <= b < n && 0 <= p < BSIZE && !InMap(sb, b) && !Own(sb, o, b, p) ==>
          o.at[b][p] == o.post.blocks[b][p]
  }

  ghost predicate Apart(open: seq<Open>)
  {
    forall k, l :: 0 <= k < l < |open| ==> InodeOf(open[k].t) != InodeOf(open[l].t)
  }

  /** Every open transaction belongs to an outstanding operation and keeps to itself. */
  ghost predicate OpenOk(sb: Super, base: Disk, j: Joint)
  {
    && |j.fss| == |j.txns| + 1 && Apart(j.open)
    && forall k :: 0 <= k < |j.open| ==>
         Outstanding(j.s, j.open[k].id) && Locked(sb, |base|, j.fss[|j.txns|], j.open[k])
  }

  ghost predicate JointInv(g: Geometry, sb: Super, base: Disk, j: Joint)
  {
    && Inv(g, base, j.s) && g.start + g.size <= sb.inodestart
    && Chain(sb, base, j) && SavedOk(sb, base, j) && CurrentOk(sb, base, j) && OpenOk(sb, base, j)
  }

  // ---- sums over the open transactions ----

  lemma {:induction false} ToComeUpdate(open: seq<Open>, k: nat, o: Open, b: nat, p: nat)
    requires k < |open|
    ensures ToCome(open[k := o], b, p) == ToCome(open, b, p) + Left(o, b, p) - Left(open[k], b, p)
  {
    hide Left;
    var n := |open| - 1;
    if k < n {
      ToComeUpdate(open[..n], k, o, b, p);
      assert open[k := o][..n] == open[..n][k := o];
    } else {
      assert open[k := o][..n] == open[..n];
    }
  }

  lemma {:induction false} ToComeRemove(open: seq<Open>, k: nat, b: nat, p: nat)
    requires k < |open|
    ensures ToCome(open[..k] + open[k + 1..], b, p) == ToCome(open, b, p) - Left(open[k], b, p)
  {
    hide Left;
    var n, r := |open| - 1, open[..k] + open[k + 1..];
    if k < n {
      ToComeRemove(open[..n], k, b, p);
      assert r[..|r| - 1] == open[..n][..k] + open[..n][k + 1..];
    } else {
      assert r == open[..n];
    }
  }

  lemma ToComeAppend(open: seq<Open>, o: Open, b: nat, p: nat)
    ensures ToCome(open + [o], b, p) == ToCome(open, b, p) + Left(o, b, p)
  {
    assert (open + [o])[..|open|] == open;
  }

  lemma {:induction false} ToComeNone(open: seq<Open>, b: nat, p: nat)
    requires forall l :: 0 <= l < |open| ==> Left(open[l], b, p) == 0
    ensures ToCome(open, b, p) == 0
  {
    if open != [] { ToComeNone(open[..|open| - 1], b, p); }
  }

  lemma ToComeOnly(open: seq<Open>, k: nat, b: nat, p: nat)
    requires k < |open| && forall l :: 0 <= l < |open| && l != k ==> Left(open[l], b, p) == 0
    ensures ToCome(open, b, p) == Left(open[k], b, p)
  {
    ToComeRemove(open, k, b, p);
    ToComeNone(open[..k] + open[k + 1..], b, p);
  }

  // ---- whose byte it is ----

  /** Two inodes of one block have different slots. */
  lemma SlotApart(sb: Super, i: nat, j: nat)
    requires i != j && Iblock(sb, i) == Iblock(sb, j)
    ensures i % IPB != j % IPB
  {}

  /** What cur reaches from inode i is reached from no other. */
  lemma ReachedOnce(sb: Super, cur: Fs, i: nat, j: nat, c: nat)
    requires WfFs(sb, cur) && i < |cur.inodes| && j < |cur.inodes| && i != j && c > 0 && Mine(cur, i, c)
    ensures !Mine(cur, j, c)
  {
    hide RefAt, Bitmap, RefsInData, Synced, WfFile;
  }

  lemma MineIn(sb: Super, n: nat, cur: Fs, o: Open, b: nat)
    requires Locked(sb, n, cur, o)
    ensures Mine(o.post, InodeOf(o.t), b) == Mine(cur, InodeOf(o.t), b)
  {
    hide RefAt, Own;
    var i := InodeOf(o.t);
    if Mine(o.post, i, b) {
      var l :| 0 <= l < NSLOTS && RefAt(o.post, i, l) == b;
      assert RefAt(cur, i, l) == b;
    }
  }

  /** No byte is under two locks. */
  lemma OwnOnce(sb: Super, n: nat, cur: Fs, o: Open, o': Open, b: nat, p: nat)
    requires WfFs(sb, cur) && Locked(sb, n, cur, o) && Locked(sb, n, cur, o') && InodeOf(o.t) != InodeOf(o'.t)
    requires Own(sb, o, b, p)
    ensures !Own(sb, o', b, p)
  {
    hide RefAt, Bitmap, RefsInData, RefsDistinct, Synced, WfFile, Mine;
    var i, i' := InodeOf(o.t), InodeOf(o'.t);
    assert Iblock(sb, i) < sb.bmapstart && Iblock(sb, i') < sb.bmapstart;
    MineIn(sb, n, cur, o, b);
    MineIn(sb, n, cur, o', b);
    if b >= sb.datastart {
      ReachedOnce(sb, cur, i, i', b);
    } else if b == Iblock(sb, i) && b == Iblock(sb, i') {
      SlotApart(sb, i, i');
    }
  }

  /** Transaction k finds its own bytes as it would were it alone. */
  lemma OwnAsAlone(sb: Super, base: Disk, j: Joint, k: nat, b: nat, p: nat)
    requires CurrentOk(sb, base, j) && WfFs(sb, j.fss[|j.txns|]) && OpenOk(sb, base, j) && k < |j.open|
    requires sb.inodestart <= b < |base| && p < BSIZE && !InMap(sb, b) && Own(sb, j.open[k], b, p)
    ensures |j.open[k].at| == |base| && Hist(base, j.s.events, b)[p] == j.open[k].at[b][p]
  {
    hide WfFs, Hist, ToCome, Own, RefAt;
    var cur, o := j.fss[|j.txns|], j.open[k];
    assert Locked(sb, |base|, cur, o);
    forall l | 0 <= l < |j.open| && l != k ensures Left(j.open[l], b, p) == 0 {
      assert Locked(sb, |base|, cur, j.open[l]);
      OwnOnce(sb, |base|, cur, o, j.open[l], b, p);
    }
    ToComeOnly(j.open, k, b, p);
  }

  lemma CurrentWf(sb: Super, base: Disk, j: Joint)
    requires Chain(sb, base, j)
    ensures WfFs(sb, j.fss[|j.txns|])
  {
    hide WfFs, TxnStep;
    var n := |j.txns|;
    if n > 0 {
      assert TxnStep(sb, j.fss[n - 1], j.fss[n - 1 + 1], j.txns[n - 1]);
      TxnWf(sb, j.fss[n - 1], j.fss[n], j.txns[n - 1]);
    }
  }

  lemma TxnWf(sb: Super, fs: Fs, fs': Fs, t: Txn)
    requires TxnStep(sb, fs, fs', t)
    ensures WfFs(sb, fs) && WfFs(sb, fs') && |fs'.inodes| == |fs.inodes| && |fs'.blocks| == |fs.blocks|
    ensures InodeOf(t) < |fs.inodes| && Footprint(sb, fs, fs', InodeOf(t))
  {
    hide WfFile, Owns, Synced, Contents, Footprint;
    var L :| Txns(sb, fs, fs', t, L);
  }

  /** The bytes under another inode's lock are not touched by a transaction that begins. */
  lemma StartApart(sb: Super, n: nat, cur: Fs, post: Fs, t: Txn, o: Open)
    requires TxnStep(sb, cur, post, t) && Locked(sb, n, cur, o) && InodeOf(o.t) != InodeOf(t)
    ensures Locked(sb, n, post, o)
  {
    hide RefAt, WfFs, Mine;
    TxnWf(sb, cur, post, t);
    var i, i' := InodeOf(t), InodeOf(o.t);
    forall b, p | sb.inodestart <= b < n && 0 <= p < BSIZE && Own(sb, o, b, p)
      ensures post.blocks[b][p] == cur.blocks[b][p]
    {
      StartMisses(sb, n, cur, post, t, o, b, p);
    }
  }

  lemma StartMisses(sb: Super, n: nat, cur: Fs, post: Fs, t: Txn, o: Open, b: nat, p: nat)
    requires TxnStep(sb, cur, post, t) && Locked(sb, n, cur, o) && InodeOf(o.t) != InodeOf(t)
    requires sb.inodestart <= b < n && p < BSIZE && Own(sb, o, b, p)
    ensures |post.blocks| == n && post.blocks[b][p] == cur.blocks[b][p]
  {
    hide RefAt, Bitmap, RefsInData, RefsDistinct, Synced, WfFile, Mine;
    TxnWf(sb, cur, post, t);
    var i, i' := InodeOf(t), InodeOf(o.t);
    MineIn(sb, n, cur, o, b);
    if b >= sb.datastart {
      assert Iblock(sb, i') < sb.bmapstart;
      MineStays(cur, post, i', b);
      ReachedOnce(sb, post, i', i, b);
    } else if b == Iblock(sb, i) {
      SlotApart(sb, i, i');
    } else {
      assert b < sb.bmapstart;
    }
  }

  lemma MineStays(cur: Fs, post: Fs, i: nat, b: nat)
    requires i < |cur.inodes| == |post.inodes| && forall l :: 0 <= l < NSLOTS ==> RefAt(post, i, l) == RefAt(cur, i, l)
    ensures Mine(post, i, b) == Mine(cur, i, b)
  {
    hide RefAt;
    if Mine(cur, i, b) {
      var l :| 0 <= l < NSLOTS && RefAt(cur, i, l) == b;
      assert RefAt(post, i, l) == b;
    }
  }

  /** A transaction that begins has its whole change to make, in bytes of its own and in the free map. */
  lemma StartLocked(sb: Super, cur: Fs, post: Fs, t: Txn, id: nat)
    requires TxnStep(sb, cur, post, t)
    ensures Locked(sb, |cur.blocks|, post, Open(id, t, cur.blocks, post))
  {
    hide RefAt, WfFile, RefsInData, RefsDistinct, Bitmap, Synced, Mine;
    TxnWf(sb, cur, post, t);
  }

  lemma LeftIs(o: Open, b: nat, p: nat)
    requires b < |o.at| == |o.post.blocks| && p < BSIZE
    ensures Left(o, b, p) == o.post.blocks[b][p] as int - o.at[b][p] as int
  {}

  /** The change made on top of what is there is the change it would make alone. */
  lemma StoresAdd(sb: Super, base: Disk, j: Joint, k: nat, b: nat, x: Block, y: Block, data: Block, p: nat)
    requires CurrentOk(sb, base, j) && WfFs(sb, j.fss[|j.txns|]) && OpenOk(sb, base, j) && k < |j.open|
    requires sb.inodestart <= b < |base| && b < |j.open[k].at| && p < BSIZE && x == Hist(base, j.s.events, b)
    requires Stores(sb, j.open[k], b, x, y, data)
    ensures data[p] as int - x[p] as int == y[p] as int - j.open[k].at[b][p] as int
  {
    hide WfFs, CurrentOk, OpenOk, Hist, Own, MovesBit;
    var o := j.open[k];
    if InMap(sb, b) {
      assert Mask(4) == 16;
      assert Mask(8) == 256;
      MovesAdd(o.at[b][p], y[p], x[p], data[p], 8);
    } else if Own(sb, o, b, p) {
      OwnAsAlone(sb, base, j, k, b, p);
    }
  }

  lemma PutLocked(sb: Super, n: nat, cur: Fs, o: Open, b: nat, x: Block, y: Block, data: Block)
    requires Locked(sb, n, cur, o) && b < n && Stores(sb, o, b, x, y, data)
    ensures Locked(sb, n, cur, o.(at := o.at[b := y]))
  {
    hide RefAt, Mine, MovesBit;
    var o' := o.(at := o.at[b := y]);
    assert forall c, p :: Own(sb, o', c, p) == Own(sb, o, c, p);
  }
}
