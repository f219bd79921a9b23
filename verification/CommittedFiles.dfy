/**
  Committed files: whenever no operation is outstanding and no commit is under way, a crash loses nothing; and every
  transaction gets there when its operation ends.
 */
module CommittedFiles {
  import opened Blocks
  import opened RedoLog
  import opened Inodes
  import opened FileData
  import opened LogProtocol
  import opened LogProgress
  import opened FileTransactions
  import opened TransactionSteps
  import opened CrashSafeFiles

  lemma JointSettles(g: Geometry, sb: Super, base: Disk, j: Joint, a: Step)
    requires JointInv(g, sb, base, j) && Settled(j.s) && CanStep(g, sb, j, a)
    ensures Settled(DoStep(g, sb, j, a).s)
  {
    hide Inv, Chain, SavedOk, CurrentOk, OpenOk, Settled, Enabled, Do, TxnStep, Stores;
    match a
    case Log(l) => StepSettles(g, base, j.s, l);
    case Put(k, op, b, y, data) => StepSettles(g, base, j.s, Update(op, b, data));
    case Start(op, t, post) =>
    case Finish(k) =>
  }

  lemma {:induction false} JointRunSettles(g: Geometry, sb: Super, d: Disk, fs: Fs, acts: seq<Step>)
    requires Formatted(g, sb, d, fs) && JointRun(g, sb, Boot(d, fs), acts)
    ensures Settled(JointAfter(g, sb, Boot(d, fs), acts).s)
  {
    hide Formatted, JointInv, CanStep, DoStep, Recover, Settled;
    if acts == [] {
      InitSettled(d);
    } else {
      var n := |acts| - 1;
      assert WfDisk(g, d) by { FormattedDisk(g, sb, d, fs); }
      JointRunSettles(g, sb, d, fs, acts[..n]);
      JointRunKeeps(g, sb, d, fs, acts[..n]);
      JointSettles(g, sb, Recover(g, d), JointAfter(g, sb, Boot(d, fs), acts[..n]), acts[n]);
    }
  }

  /** In such a state recovery leaves the current file system. */
  lemma QuietDecodes(g: Geometry, sb: Super, base: Disk, j: Joint)
    requires JointInv(g, sb, base, j) && j.s.phase.Running? && j.s.ops == [] && j.s.durable == |j.s.events|
    ensures j.open == [] && WfDisk(g, j.s.disk) && DecodesTo(sb, Recover(g, j.s.disk), j.fss[|j.txns|])
  {
    hide Inv, WfFs, TxnStep, Hist, Recover, WfDisk, DecodesTo, Locked, Shows;
    NoneOpen(sb, base, j);
    WholeIsCurrent(sb, base, j);
    CurrentWf(sb, base, j);
    var k := j.(saved := |j.txns|);
    assert SavedOk(sb, base, k);
    RecoveredShows(g, sb, base, k);
    ShowsDecodes(sb, Recover(g, j.s.disk), j.fss[|j.txns|]);
  }

  /**
    At every moment of every run at which no operation is outstanding and no commit is under way, a crash and a
    recovery give the file system after all transactions, each file with all of them laid over one another.
   */
  lemma NothingLost(g: Geometry, sb: Super, d: Disk, fs: Fs, acts: seq<Step>)
    requires Formatted(g, sb, d, fs) && JointRun(g, sb, Boot(d, fs), acts)
    requires JointAfter(g, sb, Boot(d, fs), acts).s.phase.Running? && JointAfter(g, sb, Boot(d, fs), acts).s.ops == []
    ensures var j := JointAfter(g, sb, Boot(d, fs), acts);
            && |j.fss| == |j.txns| + 1 && WfDisk(g, j.s.disk)
            && DecodesTo(sb, Recover(g, j.s.disk), j.fss[|j.txns|]) && |j.fss[|j.txns|].inodes| == |fs.inodes|
            && forall i: nat :: i < |fs.inodes| ==>
                 && WfFile(fs, i) && WfFile(j.fss[|j.txns|], i)
                 && Contents(j.fss[|j.txns|], i) == ContentsAfter(Contents(fs, i), j.txns, i)
  {
    hide JointRun, JointAfter, WfFs, Contents, AllocTo, TxnStep, Hist, Recover, WfDisk, DecodesTo, Inv, ContentsAfter,
         CurrentOk, OpenOk, SavedOk;
    JointRunKeeps(g, sb, d, fs, acts);
    JointRunSettles(g, sb, d, fs, acts);
    FirstStays(g, sb, Boot(d, fs), acts);
    var j := JointAfter(g, sb, Boot(d, fs), acts);
    var n := |j.txns|;
    QuietDecodes(g, sb, Recover(g, d), j);
    SameInodes(sb, j.fss, j.txns, n);
    assert j.txns[..n] == j.txns;
    forall i: nat | i < |fs.inodes|
      ensures WfFile(fs, i) && WfFile(j.fss[n], i)
      ensures Contents(j.fss[n], i) == ContentsAfter(Contents(fs, i), j.txns, i)
    {
      ChainContents(sb, j.fss, j.txns, n, i);
    }
  }

  // ---- and every transaction gets there ----

  function Logged(acts: seq<Action>): (r: seq<Step>)
  {
    seq(|acts|, i requires 0 <= i < |acts| => Log(acts[i]))
  }

  /** Steps of the log alone, between transactions: what they do to the whole. */
  lemma {:induction false} LogSteps(g: Geometry, sb: Super, j: Joint, acts: seq<Action>)
    requires |j.fss| == |j.txns| + 1 && j.saved <= |j.txns| && j.open == [] && ValidRun(g, j.s, acts)
    requires forall a :: a in acts ==> !a.Update? && !a.Crash?
    ensures JointRun(g, sb, j, Logged(acts))
    ensures JointAfter(g, sb, j, Logged(acts)) ==
            j.(s := After(g, j.s, acts), saved := if WriteHead in acts then |j.txns| else j.saved)
  {
    hide Enabled, Do;
    if acts != [] {
      var n := |acts| - 1;
      LogSteps(g, sb, j, acts[..n]);
      assert acts == acts[..n] + [acts[n]];
      assert Logged(acts)[..n] == Logged(acts[..n]);
    }
  }

  lemma {:induction false} JointConcat(g: Geometry, sb: Super, j: Joint, a: seq<Step>, b: seq<Step>)
    requires JointRun(g, sb, j, a) && JointRun(g, sb, JointAfter(g, sb, j, a), b)
    ensures JointRun(g, sb, j, a + b) && JointAfter(g, sb, j, a + b) == JointAfter(g, sb, JointAfter(g, sb, j, a), b)
  {
    hide CanStep, DoStep;
    if b == [] {
      assert a + b == a;
    } else {
      var n := |b| - 1;
      JointConcat(g, sb, j, a, b[..n]);
      assert (a + b)[..|a + b| - 1] == a + b[..n];
    }
  }

  lemma SettleQuiet(s: State)
    ensures forall a :: a in SettleActs(s) ==> !a.Update? && !a.Crash?
    ensures s.lh != [] ==> WriteHead in SettleActs(s)
  {
    if s.lh != [] {
      var c := CommitActs(|s.lh|, |s.lh|);
      assert c[|s.lh|] == WriteHead;
      assert SettleActs(s)[|s.ops| + |s.lh|] == WriteHead;
    }
  }

  /**
    From every reachable state with no transaction under way: when the outstanding operations end, all transactions
    are saved, and a crash no longer loses anything.
   */
  lemma TxnsCommit(g: Geometry, sb: Super, d: Disk, fs: Fs, acts: seq<Step>)
    requires Formatted(g, sb, d, fs) && JointRun(g, sb, Boot(d, fs), acts)
    requires var j := JointAfter(g, sb, Boot(d, fs), acts); j.s.phase.Running? && j.s.ops != [] && j.open == []
    ensures var j := JointAfter(g, sb, Boot(d, fs), acts);
            var acts' := acts + Logged(SettleActs(j.s));
            && JointRun(g, sb, Boot(d, fs), acts')
            && var j' := JointAfter(g, sb, Boot(d, fs), acts');
               && j'.fss == j.fss && j'.txns == j.txns && j'.open == []
               && j'.s.phase.Running? && j'.s.ops == [] && j'.s.lh == []
               && (j.s.lh != [] ==> j'.saved == |j.txns|) && |j.fss| == |j.txns| + 1
               && WfDisk(g, j'.s.disk) && DecodesTo(sb, Recover(g, j'.s.disk), j.fss[|j.txns|])
  {
    hide Formatted, JointRun, JointAfter, Inv, SavedOk, CurrentOk, OpenOk, TxnStep, WfFs, Recover, Settled, SettleActs,
         Logged, DecodesTo, ValidRun, After, WfDisk;
    JointRunKeeps(g, sb, d, fs, acts);
    JointRunSettles(g, sb, d, fs, acts);
    assert WfDisk(g, d) by { FormattedDisk(g, sb, d, fs); }
    var base, j := Recover(g, d), JointAfter(g, sb, Boot(d, fs), acts);
    var r := SettleRuns(g, base, j.s);
    SettleQuiet(j.s);
    LogSteps(g, sb, j, SettleActs(j.s));
    JointConcat(g, sb, Boot(d, fs), acts, Logged(SettleActs(j.s)));
    var acts' := acts + Logged(SettleActs(j.s));
    JointRunKeeps(g, sb, d, fs, acts');
    QuietDecodes(g, sb, base, JointAfter(g, sb, Boot(d, fs), acts'));
  }

  /**
    Every transaction that writei or itrunc makes, begun while no other is under way, can be carried out and
    committed; then a crash and a recovery give the file system it leaves.
   */
  lemma TxnSurvives(g: Geometry, sb: Super, d: Disk, fs: Fs, acts: seq<Step>, op: nat, t: Txn, post: Fs, L: set<nat>)
    returns (acts': seq<Step>)
    requires Formatted(g, sb, d, fs) && JointRun(g, sb, Boot(d, fs), acts)
    requires var j := JointAfter(g, sb, Boot(d, fs), acts);
             && CanStep(g, sb, j, Start(op, t, post)) && j.s.ops[op].used == 0 && j.open == []
             && Txns(sb, j.fss[|j.txns|], post, t, L) && |j.s.lh| + |L| < g.size
    ensures JointRun(g, sb, Boot(d, fs), acts')
    ensures var j, j' := JointAfter(g, sb, Boot(d, fs), acts), JointAfter(g, sb, Boot(d, fs), acts');
            && j'.fss == j.fss + [post] && j'.txns == j.txns + [t] && j'.open == [] && j'.s.ops == []
            && WfDisk(g, j'.s.disk) && DecodesTo(sb, Recover(g, j'.s.disk), post)
  {
    hide Formatted, JointRun, JointAfter, Txns, WfFs, Recover, CanStep, DecodesTo, WfDisk, SettleActs, Logged, Left,
         Settled;
    var more := TxnRuns(g, sb, d, fs, acts, op, t, post, L);
    TxnsCommit(g, sb, d, fs, more);
    var j1 := JointAfter(g, sb, Boot(d, fs), more);
    assert j1.fss[|j1.txns|] == post by { CanStart(g, sb, JointAfter(g, sb, Boot(d, fs), acts), op, t, post); }
    acts' := more + Logged(SettleActs(j1.s));
  }
}
