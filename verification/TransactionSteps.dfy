/** Every step of transactions, operations, cache, commit, crash and recovery keeps the invariant. */
module TransactionSteps {
  import opened Blocks
  import opened Inodes
  import opened FileData
  import opened RedoLog
  import opened LogProtocol
  import opened FileTransactions

  lemma QuietLog(g: Geometry, s: State, a: Action)
    requires Enabled(g, s, a) && !a.Update? && !a.Crash?
    ensures Do(g, s, a).events == s.events
    ensures Do(g, s, a).durable == if a.WriteHead? then |s.events| else s.durable
    ensures !a.Begin? && !a.End? ==> Do(g, s, a).ops == s.ops
  {
    hide Word, Encode, HeadBlocks;
  }

  /** No operation is outstanding when the header is written. */
  lemma CommitQuiet(g: Geometry, base: Disk, s: State)
    requires Inv(g, base, s) && Enabled(g, s, WriteHead)
    ensures s.ops == []
  {
    hide BeforeHead, CacheOk, WfHeader;
  }

  lemma OpenStays(g: Geometry, sb: Super, base: Disk, j: Joint, a: Action)
    requires Enabled(g, j.s, a) && !a.Update? && !a.Crash? && OpenOk(sb, base, j)
    requires a.End? ==> forall k :: 0 <= k < |j.open| ==> j.open[k].id != j.s.ops[a.op].id
    ensures OpenOk(sb, base, j.(s := Do(g, j.s, a)))
  {
    hide Word, Encode, HeadBlocks, WfHeader, WfDisk, Store, Locked;
    QuietLog(g, j.s, a);
    var ops' := Do(g, j.s, a).ops;
    forall k | 0 <= k < |j.open| ensures Outstanding(Do(g, j.s, a), j.open[k].id) {
      assert Outstanding(j.s, j.open[k].id);
      var op :| 0 <= op < |j.s.ops| && j.s.ops[op].id == j.open[k].id;
      assert ops'[if a.End? && op > a.op then op - 1 else op].id == j.open[k].id;
    }
  }

  lemma LogKeeps(g: Geometry, sb: Super, base: Disk, j: Joint, a: Action)
    requires JointInv(g, sb, base, j) && CanStep(g, sb, j, Log(a)) && !a.Crash?
    ensures JointInv(g, sb, base, DoStep(g, sb, j, Log(a)))
  {
    hide Inv, Do, TxnStep, Enabled, Hist, OpenOk, WfFs;
    QuietLog(g, j.s, a);
    StepKeepsInv(g, base, j.s, a);
    OpenStays(g, sb, base, j, a);
    SameOpenOk(sb, base, j.(s := Do(g, j.s, a)), DoStep(g, sb, j, Log(a)));
    if a.WriteHead? {
      CommitQuiet(g, base, j.s);
      NoneOpen(sb, base, j);
      WholeIsCurrent(sb, base, j);
    }
  }

  lemma SameOpenOk(sb: Super, base: Disk, j: Joint, j': Joint)
    requires OpenOk(sb, base, j) && j'.s == j.s && j'.open == j.open && j'.fss == j.fss && j'.txns == j.txns
    ensures OpenOk(sb, base, j')
  {}

  lemma NoneOpen(sb: Super, base: Disk, j: Joint)
    requires OpenOk(sb, base, j) && j.s.ops == []
    ensures j.open == []
  {
    assert j.open == [] || Outstanding(j.s, j.open[0].id);
  }

  /** With no transaction open all updates lead to the current file system. */
  lemma WholeIsCurrent(sb: Super, base: Disk, j: Joint)
    requires CurrentOk(sb, base, j) && j.open == []
    ensures forall b :: sb.inodestart <= b < |base| ==>
            Hist(base, j.s.events[..|j.s.events|], b) == j.fss[|j.txns|].blocks[b]
  {
    hide Hist;
    var es, cur := j.s.events, j.fss[|j.txns|];
    assert es[..|es|] == es;
    forall b | sb.inodestart <= b < |base| ensures Hist(base, es, b) == cur.blocks[b] {
      forall p | 0 <= p < BSIZE ensures Hist(base, es, b)[p] == cur.blocks[b][p] { assert ToCome(j.open, b, p) == 0; }
    }
  }

  lemma StartOpenOk(g: Geometry, sb: Super, base: Disk, j: Joint, op: nat, t: Txn, post: Fs)
    requires OpenOk(sb, base, j) && CanStep(g, sb, j, Start(op, t, post)) && |j.fss[|j.txns|].blocks| == |base|
    ensures OpenOk(sb, base, DoStep(g, sb, j, Start(op, t, post)))
  {
    hide Locked, TxnStep;
    var j', n := DoStep(g, sb, j, Start(op, t, post)), |j.open|;
    StartLocked(sb, j.fss[|j.txns|], post, t, j.s.ops[op].id);
    forall k | 0 <= k < |j'.open| ensures Outstanding(j'.s, j'.open[k].id) && Locked(sb, |base|, post, j'.open[k]) {
      if k < n {
        StartApart(sb, |base|, j.fss[|j.txns|], post, t, j.open[k]);
      } else {
        assert j'.s.ops[op].id == j'.open[k].id;
      }
    }
  }

  lemma StartKeeps(g: Geometry, sb: Super, base: Disk, j: Joint, op: nat, t: Txn, post: Fs)
    requires JointInv(g, sb, base, j) && CanStep(g, sb, j, Start(op, t, post))
    ensures JointInv(g, sb, base, DoStep(g, sb, j, Start(op, t, post)))
  {
    hide Inv, Hist, WfFs, TxnStep, ToCome, Left, OpenOk, Footprint;
    var j', n := DoStep(g, sb, j, Start(op, t, post)), |j.txns|;
    TxnWf(sb, j.fss[n], post, t);
    var o := j'.open[|j.open|];
    forall b, p | sb.inodestart <= b < |base| && 0 <= p < BSIZE
      ensures Hist(base, j'.s.events, b)[p] + ToCome(j'.open, b, p) == post.blocks[b][p] as int
    {
      ToComeAppend(j.open, o, b, p);
      LeftIs(o, b, p);
    }
    StartOpenOk(g, sb, base, j, op, t, post);
  }

  lemma PutKeeps(g: Geometry, sb: Super, base: Disk, j: Joint, k: nat, op: nat, b: nat, y: Block, data: Block)
    requires JointInv(g, sb, base, j) && CanStep(g, sb, j, Put(k, op, b, y, data))
    ensures JointInv(g, sb, base, DoStep(g, sb, j, Put(k, op, b, y, data)))
  {
    hide Inv, TxnStep, WfFs, Hist, ToCome, Left, Stores, OpenOk;
    StepKeepsInv(g, base, j.s, Update(op, b, data));
    CurrentWf(sb, base, j);
    PutOpenOk(g, sb, base, j, k, op, b, y, data);
    var j', o := DoStep(g, sb, j, Put(k, op, b, y, data)), j.open[k];
    ViewIsHist(g, base, j.s, b);
    forall c: nat, p: nat | sb.inodestart <= c < |base| && p < BSIZE
      ensures Hist(base, j'.s.events, c)[p] + ToCome(j'.open, c, p) == j.fss[|j.txns|].blocks[c][p] as int
    {
      HistAppend(base, j.s.events, j'.s.events[|j.s.events|], c);
      ToComeUpdate(j.open, k, j'.open[k], c, p);
      OpenSize(sb, base, j, k);
      LeftIs(o, c, p);
      LeftIs(j'.open[k], c, p);
      if c == b { StoresAdd(sb, base, j, k, b, View(j.s, b), y, data, p); }
    }
    assert j'.s.events[..j.s.durable] == j.s.events[..j.s.durable];
  }

  lemma OpenSize(sb: Super, base: Disk, j: Joint, k: nat)
    requires OpenOk(sb, base, j) && k < |j.open|
    ensures |j.open[k].at| == |j.open[k].post.blocks| == |base|
  {
    hide Own;
  }

  lemma ViewIsHist(g: Geometry, base: Disk, s: State, b: nat)
    requires Inv(g, base, s) && s.phase.Running? && Home(g, s.disk, b)
    ensures |s.disk| == |base| && View(s, b) == Hist(base, s.events, b)
  {
    hide Hist, CacheOk, OpsOk, WfHeader, View;
  }

  lemma PutOpenOk(g: Geometry, sb: Super, base: Disk, j: Joint, k: nat, op: nat, b: nat, y: Block, data: Block)
    requires JointInv(g, sb, base, j) && CanStep(g, sb, j, Put(k, op, b, y, data))
    ensures OpenOk(sb, base, DoStep(g, sb, j, Put(k, op, b, y, data)))
  {
    hide Inv, Chain, SavedOk, CurrentOk, Stores, Locked;
    var j', cur := DoStep(g, sb, j, Put(k, op, b, y, data)), j.fss[|j.txns|];
    OpenSize(sb, base, j, k);
    PutLocked(sb, |base|, cur, j.open[k], b, View(j.s, b), y, data);
    forall l | 0 <= l < |j'.open| ensures Outstanding(j'.s, j'.open[l].id) && Locked(sb, |base|, cur, j'.open[l]) {
      assert Outstanding(j.s, j.open[l].id);
      var q :| 0 <= q < |j.s.ops| && j.s.ops[q].id == j.open[l].id;
      assert j'.s.ops[q].id == j'.open[l].id;
    }
  }

  lemma FinishKeeps(g: Geometry, sb: Super, base: Disk, j: Joint, k: nat)
    requires JointInv(g, sb, base, j) && CanStep(g, sb, j, Finish(k))
    ensures JointInv(g, sb, base, DoStep(g, sb, j, Finish(k)))
  {
    hide Inv, TxnStep, WfFs, Hist, ToCome, Left, Locked;
    var j' := DoStep(g, sb, j, Finish(k));
    OpenSize(sb, base, j, k);
    forall c: nat, p: nat | sb.inodestart <= c < |base| && p < BSIZE
      ensures ToCome(j'.open, c, p) == ToCome(j.open, c, p)
    {
      ToComeRemove(j.open, k, c, p);
      LeftIs(j.open[k], c, p);
    }
  }

  lemma CrashKeepsSaved(g: Geometry, sb: Super, base: Disk, j: Joint)
    requires JointInv(g, sb, base, j) && CanStep(g, sb, j, Log(Crash))
    ensures JointInv(g, sb, base, DoStep(g, sb, j, Log(Crash)))
  {
    hide Inv, TxnStep, WfFs, Hist;
    StepKeepsInv(g, base, j.s, Crash);
    var j' := DoStep(g, sb, j, Log(Crash));
    var es := j'.s.events;
    assert es[..|es|] == es;
    assert j'.s.durable == |es|;
  }

  lemma StepKeepsJoint(g: Geometry, sb: Super, base: Disk, j: Joint, a: Step)
    requires JointInv(g, sb, base, j) && CanStep(g, sb, j, a)
    ensures JointInv(g, sb, base, DoStep(g, sb, j, a))
  {
    hide JointInv, CanStep, DoStep;
    match a
    case Log(l) => if l.Crash? { CrashKeepsSaved(g, sb, base, j); } else { LogKeeps(g, sb, base, j, l); }
    case Start(op, t, post) => StartKeeps(g, sb, base, j, op, t, post);
    case Put(k, op, b, y, data) => PutKeeps(g, sb, base, j, k, op, b, y, data);
    case Finish(k) => FinishKeeps(g, sb, base, j, k);
  }
}
