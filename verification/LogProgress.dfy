/**
  What the logging protocol can always do: operations end and commit, a crashed machine recovers, and whenever no
  operation is outstanding and no commit is under way, every update is durable.
 */
module LogProgress {
  import opened Blocks
  import opened RedoLog
  import opened LogProtocol

  // ---- nothing is left behind ----

  /** With no operation outstanding the log is empty, and with an empty log every update is durable. */
  ghost predicate Settled(s: State)
  {
    s.phase.Running? ==> (s.ops == [] ==> s.lh == []) && (s.lh == [] ==> s.durable == |s.events|)
  }

  lemma StepSettles(g: Geometry, base: Disk, s: State, a: Action)
    requires Inv(g, base, s) && Settled(s) && Enabled(g, s, a)
    ensures Settled(Do(g, s, a))
  {
    hide Word, Encode, HeadBlocks, BeforeHead, AfterHead, CacheOk, SpaceOk, WfHeader, WfDisk, Durable;
  }

  lemma {:induction false} RunSettles(g: Geometry, d: Disk, acts: seq<Action>)
    requires WfDisk(g, d) && ValidRun(g, Init(d), acts)
    ensures Settled(After(g, Init(d), acts))
  {
    hide Inv, Enabled, Do, Recover, WfDisk, Settled;
    if acts == [] {
      assert Settled(Init(d)) by { InitSettled(d); }
    } else {
      var n := |acts| - 1;
      RunSettles(g, d, acts[..n]);
      RunKeepsInv(g, d, acts[..n]);
      StepSettles(g, Recover(g, d), After(g, Init(d), acts[..n]), acts[n]);
    }
  }

  lemma InitSettled(d: Disk)
    ensures Settled(Init(d))
  {}

  /** Every run: once the last operation out has committed, the home blocks on disk hold every update. */
  lemma NothingPending(g: Geometry, d: Disk, acts: seq<Action>)
    requires WfDisk(g, d) && ValidRun(g, Init(d), acts)
    requires After(g, Init(d), acts).phase.Running? && After(g, Init(d), acts).ops == []
    ensures var s := After(g, Init(d), acts);
            && s.lh == [] && s.durable == |s.events| && |s.disk| == |Recover(g, d)|
            && forall b :: Home(g, s.disk, b) ==> s.disk[b] == Hist(Recover(g, d), s.events, b)
  {
    hide Word, Encode, Durable, Apply, Hist, Do, Enabled, After, ValidRun, Recover, CacheOk, SpaceOk, WfHeader;
    RunSettles(g, d, acts);
    RunKeepsInv(g, d, acts);
    var s := After(g, Init(d), acts);
    assert s.events[..|s.events|] == s.events;
  }

  // ---- the cache ----

  /** Blocks may come into the cache and clean ones may go at any moment, and nobody sees a difference. */
  lemma CacheComesAndGoes(g: Geometry, d: Disk, acts: seq<Action>, b: nat)
    requires WfDisk(g, d) && ValidRun(g, Init(d), acts)
    requires b < |After(g, Init(d), acts).disk| && !After(g, Init(d), acts).phase.Booting?
    ensures var s := After(g, Init(d), acts);
            if b !in s.cache then
              && Enabled(g, s, Load(b)) && b in Do(g, s, Load(b)).cache
              && forall c :: 0 <= c < |s.disk| ==> View(Do(g, s, Load(b)), c) == View(s, c)
            else if !s.cache[b].dirty then
              && Enabled(g, s, Evict(b)) && b !in Do(g, s, Evict(b)).cache
              && forall c :: 0 <= c < |s.disk| ==> View(Do(g, s, Evict(b)), c) == View(s, c)
            else b in s.lh
  {
    hide Word, Encode, Durable, Apply, Hist, After, ValidRun, Recover, OpsOk, WfHeader, BeforeHead, AfterHead;
    RunKeepsInv(g, d, acts);
  }

  // ---- runs of repeated steps ----

  function Times(a: Action, n: nat): (acts: seq<Action>)
  {
    seq(n, _ => a)
  }

  ghost predicate Reaches(g: Geometry, s: State, acts: seq<Action>, r: State)
  {
    ValidRun(g, s, acts) && After(g, s, acts) == r
  }

  lemma {:induction false} Concat(g: Geometry, s: State, a: seq<Action>, r: State, b: seq<Action>, q: State)
    requires Reaches(g, s, a, r) && Reaches(g, r, b, q)
    ensures Reaches(g, s, a + b, q)
  {
    hide Enabled, Do;
    if b == [] {
      assert a + b == a;
    } else {
      var n := |b| - 1;
      Concat(g, s, a, r, b[..n], After(g, r, b[..n]));
      assert (a + b)[..|a + b| - 1] == a + b[..n];
    }
  }

  lemma Single(g: Geometry, s: State, a: Action)
    requires Enabled(g, s, a)
    ensures Reaches(g, s, [a], Do(g, s, a))
  {
    hide Enabled, Do;
    EmptyRun(g, s);
    ExtendRun(g, s, [], a);
    assert [] + [a] == [a];
  }

  lemma Once(g: Geometry, s: State, a: Action, n: nat, r: State)
    requires Reaches(g, s, Times(a, n), r) && Enabled(g, r, a)
    ensures Reaches(g, s, Times(a, n + 1), Do(g, r, a))
  {
    hide Enabled, Do;
    assert Times(a, n) + [a] == Times(a, n + 1);
    Single(g, r, a);
    Concat(g, s, Times(a, n), r, [a], Do(g, r, a));
  }

  lemma None(g: Geometry, s: State, a: Action)
    ensures Reaches(g, s, Times(a, 0), s)
  {}

  /** What neither ending operations nor copying blocks touches. */
  ghost predicate SameLog(s: State, r: State)
  {
    r.lh == s.lh && r.events == s.events && r.next == s.next
  }

  // ---- committing ----

  /** The outstanding operations end, one after the other; with blocks logged the last one starts a commit. */
  lemma {:induction false} EndsRun(g: Geometry, base: Disk, s: State, n: nat) returns (r: State)
    requires Inv(g, base, s) && s.phase.Running? && n <= |s.ops| && s.ops != []
    ensures Reaches(g, s, Times(End(0), n), r) && Inv(g, base, r) && SameLog(s, r) && r.durable == s.durable
    ensures |r.ops| == |s.ops| - n && r.phase == if r.ops == [] && s.lh != [] then Logging(0) else Running
  {
    hide Inv, Reaches, Times;
    if n == 0 {
      None(g, s, End(0));
      r := s;
    } else {
      var q := EndsRun(g, base, s, n - 1);
      StepKeepsInv(g, base, q, End(0));
      Once(g, s, End(0), n - 1, q);
      r := Do(g, q, End(0));
    }
  }

  /** The facts that make the steps of commit possible. */
  lemma LogFits(g: Geometry, base: Disk, s: State)
    requires Inv(g, base, s) && !s.phase.Booting?
    ensures WfHeader(g, s.disk, s.lh) && g.start < |s.disk|
    ensures forall t :: 0 <= t < |s.lh| ==> s.lh[t] < |s.disk| && g.start + 1 + t < |s.disk|
  {
    hide BeforeHead, AfterHead, CacheOk, OpsOk;
  }

  lemma {:induction false} CopiesRun(g: Geometry, base: Disk, s: State, n: nat) returns (r: State)
    requires Inv(g, base, s) && s.phase.Logging? && s.phase.t + n <= |s.lh|
    ensures Reaches(g, s, Times(CopyToLog, n), r) && Inv(g, base, r) && SameLog(s, r) && r.durable == s.durable
    ensures r.phase == Logging(s.phase.t + n) && r.ops == s.ops
  {
    hide Inv, Reaches, Times, WfHeader;
    if n == 0 {
      None(g, s, CopyToLog);
      r := s;
    } else {
      var q := CopiesRun(g, base, s, n - 1);
      LogFits(g, base, q);
      StepKeepsInv(g, base, q, CopyToLog);
      Once(g, s, CopyToLog, n - 1, q);
      r := Do(g, q, CopyToLog);
    }
  }

  lemma {:induction false} InstallsRun(g: Geometry, base: Disk, s: State, n: nat) returns (r: State)
    requires Inv(g, base, s) && s.phase.Installing? && s.phase.t + n <= |s.lh|
    ensures Reaches(g, s, Times(Install, n), r) && Inv(g, base, r) && SameLog(s, r) && r.durable == s.durable
    ensures r.phase == Installing(s.phase.t + n) && r.ops == s.ops
  {
    hide Inv, Reaches, Times, WfHeader;
    if n == 0 {
      None(g, s, Install);
      r := s;
    } else {
      var q := InstallsRun(g, base, s, n - 1);
      LogFits(g, base, q);
      StepKeepsInv(g, base, q, Install);
      Once(g, s, Install, n - 1, q);
      r := Do(g, q, Install);
    }
  }

  /** The rest of commit once the header is written. */
  function InstallActs(n: nat): (acts: seq<Action>)
  {
    Times(Install, n) + [ClearHead]
  }

  /** The rest of commit with n log blocks still to be copied, of m. */
  function CommitActs(n: nat, m: nat): (acts: seq<Action>)
  {
    Times(CopyToLog, n) + ([WriteHead] + InstallActs(m))
  }

  lemma InstallRuns(g: Geometry, base: Disk, s: State) returns (r: State)
    requires Inv(g, base, s) && s.phase.Installing? && s.phase.t <= |s.lh|
    ensures Reaches(g, s, InstallActs(|s.lh| - s.phase.t), r) && Inv(g, base, r)
    ensures r.phase.Running? && r.lh == [] && r.ops == s.ops && r.events == s.events && r.durable == s.durable
  {
    hide Inv, Reaches, Times, WfHeader, Encode;
    var n := |s.lh| - s.phase.t;
    var q := InstallsRun(g, base, s, n);
    LogFits(g, base, q);
    StepKeepsInv(g, base, q, ClearHead);
    r := Do(g, q, ClearHead);
    Single(g, q, ClearHead);
    Concat(g, s, Times(Install, n), q, [ClearHead], r);
  }

  /** From anywhere in write_log, commit runs to its end and makes every update durable. */
  lemma CommitFinishes(g: Geometry, base: Disk, s: State) returns (r: State)
    requires Inv(g, base, s) && s.phase.Logging? && s.phase.t <= |s.lh|
    ensures Reaches(g, s, CommitActs(|s.lh| - s.phase.t, |s.lh|), r) && Inv(g, base, r)
    ensures r.phase.Running? && r.lh == [] && r.ops == s.ops && r.events == s.events && r.durable == |s.events|
  {
    hide Inv, Reaches, Times, WfHeader, Encode, InstallActs;
    var n := |s.lh| - s.phase.t;
    var q := CopiesRun(g, base, s, n);
    LogFits(g, base, q);
    StepKeepsInv(g, base, q, WriteHead);
    var h := Do(g, q, WriteHead);
    Single(g, q, WriteHead);
    r := InstallRuns(g, base, h);
    Concat(g, q, [WriteHead], h, InstallActs(|s.lh|), r);
    Concat(g, s, Times(CopyToLog, n), q, [WriteHead] + InstallActs(|s.lh|), r);
  }

  /** All outstanding operations end and, if anything is logged, the last one commits. */
  function SettleActs(s: State): (acts: seq<Action>)
  {
    Times(End(0), |s.ops|) + if s.lh == [] then [] else CommitActs(|s.lh|, |s.lh|)
  }

  lemma SettleRuns(g: Geometry, base: Disk, s: State) returns (r: State)
    requires Inv(g, base, s) && Settled(s) && s.phase.Running? && s.ops != []
    ensures Reaches(g, s, SettleActs(s), r) && Inv(g, base, r)
    ensures r.phase.Running? && r.ops == [] && r.lh == [] && r.events == s.events && r.durable == |s.events|
  {
    hide Inv, Reaches, Times, CommitActs;
    var q := EndsRun(g, base, s, |s.ops|);
    if s.lh == [] {
      r := q;
      assert Times(End(0), |s.ops|) + [] == Times(End(0), |s.ops|);
    } else {
      r := CommitFinishes(g, base, q);
      Concat(g, s, Times(End(0), |s.ops|), q, CommitActs(|s.lh|, |s.lh|), r);
    }
  }

  /**
    From every reachable state with operations outstanding: when they end, the last one out commits all that is
    logged, and then every update is durable.
   */
  lemma OperationsCommit(g: Geometry, d: Disk, acts: seq<Action>) returns (r: State)
    requires WfDisk(g, d) && ValidRun(g, Init(d), acts)
    requires After(g, Init(d), acts).phase.Running? && After(g, Init(d), acts).ops != []
    ensures var s := After(g, Init(d), acts);
            && Reaches(g, s, SettleActs(s), r)
            && r.phase.Running? && r.ops == [] && r.lh == [] && r.events == s.events && r.durable == |s.events|
  {
    hide Inv, Reaches, After, ValidRun, WfDisk, Recover, SettleActs, Settled;
    RunKeepsInv(g, d, acts);
    RunSettles(g, d, acts);
    r := SettleRuns(g, Recover(g, d), After(g, Init(d), acts));
  }

  // ---- recovering ----

  lemma {:induction false} ReinstallsRun(g: Geometry, base: Disk, s: State, n: nat) returns (r: State)
    requires Inv(g, base, s) && s.phase.Reinstalling? && s.phase.t + n <= |s.lh|
    ensures Reaches(g, s, Times(Reinstall, n), r) && Inv(g, base, r) && SameLog(s, r) && r.durable == s.durable
    ensures r.phase == Reinstalling(s.phase.t + n) && r.ops == s.ops
  {
    hide Inv, Reaches, Times, WfHeader;
    if n == 0 {
      None(g, s, Reinstall);
      r := s;
    } else {
      var q := ReinstallsRun(g, base, s, n - 1);
      LogFits(g, base, q);
      StepKeepsInv(g, base, q, Reinstall);
      Once(g, s, Reinstall, n - 1, q);
      r := Do(g, q, Reinstall);
    }
  }

  /** recover_from_log with n blocks in the log. */
  function RecoverActs(n: nat): (acts: seq<Action>)
  {
    [ReadHead] + (Times(Reinstall, n) + [FinishRecovery])
  }

  lemma BootFits(g: Geometry, base: Disk, s: State)
    requires Inv(g, base, s) && s.phase.Booting?
    ensures WfDisk(g, s.disk) && s.ops == [] && s.durable == |s.events|
  {
    hide CacheOk, SpaceOk, Durable;
  }

  /**
    A machine that crashes in any reachable state recovers: the disk then holds exactly the durable updates and
    operations are admitted again.
   */
  lemma CrashRecovers(g: Geometry, d: Disk, acts: seq<Action>) returns (n: nat, r: State)
    requires WfDisk(g, d) && ValidRun(g, Init(d), acts)
    ensures var s := After(g, Init(d), acts);
            && Reaches(g, s, [Crash] + RecoverActs(n), r)
            && r.phase.Running? && r.ops == [] && r.lh == [] && s.durable <= |s.events|
            && r.events == s.events[..s.durable] && r.durable == s.durable && Enabled(g, r, Begin)
  {
    hide Inv, Reaches, After, ValidRun, WfDisk, Recover, Times, WfHeader, Encode, HeadBlocks;
    var s, base := After(g, Init(d), acts), Recover(g, d);
    RunKeepsInv(g, d, acts);
    assert s.durable <= |s.events| by { InvDurable(g, base, s); }
    StepKeepsInv(g, base, s, Crash);
    var c := Do(g, s, Crash);
    Single(g, s, Crash);
    BootFits(g, base, c);
    StepKeepsInv(g, base, c, ReadHead);
    var h := Do(g, c, ReadHead);
    Single(g, c, ReadHead);
    n := |h.lh|;
    var q := ReinstallsRun(g, base, h, n);
    LogFits(g, base, q);
    r := Do(g, q, FinishRecovery);
    Single(g, q, FinishRecovery);
    Concat(g, h, Times(Reinstall, n), q, [FinishRecovery], r);
    Concat(g, c, [ReadHead], h, Times(Reinstall, n) + [FinishRecovery], r);
    Concat(g, s, [Crash], c, RecoverActs(n), r);
  }

  // ---- the protocol makes the disk writes of commit and of recovery ----

  /** What the cache and the disk together show of the logged blocks. */
  function LoggedData(s: State): (data: seq<Block>)
    requires forall i :: 0 <= i < |s.lh| ==> s.lh[i] < |s.disk|
    ensures |data| == |s.lh|
  {
    seq(|s.lh|, i requires 0 <= i < |s.lh| => View(s, s.lh[i]))
  }

  /** r has come to write k of the writes ws on the disk of s. */
  ghost predicate Wrote(g: Geometry, base: Disk, s: State, r: State, ws: seq<Write>, k: nat)
  {
    Inv(g, base, r) && r.lh == s.lh && k <= |ws| && r.disk == Apply(s.disk, ws[..k])
  }

  lemma {:induction false} CopyWrites(g: Geometry, base: Disk, s: State, n: nat) returns (r: State)
    requires Inv(g, base, s) && s.phase == Logging(0) && n <= |s.lh| && WfHeader(g, s.disk, s.lh)
    ensures Reaches(g, s, Times(CopyToLog, n), r) && r.phase == Logging(n) && |r.disk| == |s.disk|
    ensures Wrote(g, base, s, r, CommitWrites(g, s.disk, s.lh, LoggedData(s)), n)
    ensures forall i :: 0 <= i < |s.lh| ==> View(r, s.lh[i]) == LoggedData(s)[i]
  {
    hide Inv, Reaches, Times, Apply, Encode;
    var ws := CommitWrites(g, s.disk, s.lh, LoggedData(s));
    if n == 0 {
      None(g, s, CopyToLog);
      assert Apply(s.disk, ws[..0]) == s.disk by { ApplyNothing(s.disk, ws); }
      r := s;
    } else {
      var q := CopyWrites(g, base, s, n - 1);
      StepKeepsInv(g, base, q, CopyToLog);
      Once(g, s, CopyToLog, n - 1, q);
      r := Do(g, q, CopyToLog);
      assert ws[n - 1] == Write(g.start + n, LoggedData(s)[n - 1]);
      ApplyStep(s.disk, ws, n - 1);
      forall i | 0 <= i < |s.lh| ensures View(r, s.lh[i]) == View(q, s.lh[i]) { assert Home(g, s.disk, s.lh[i]); }
    }
  }

  lemma ApplyNothing(d: Disk, ws: seq<Write>)
    ensures Apply(d, ws[..0]) == d
  {}

  /** Installing follows writes ws that take the blocks in the log of h to the blocks h names. */
  lemma {:induction false} InstallsWrite(g: Geometry, base: Disk, s: State, h: State, ws: seq<Write>, n: nat)
    returns (r: State)
    requires h.phase == Installing(0) && n <= |h.lh| && |ws| == 2 * |h.lh| + 2 && WfHeader(g, h.disk, h.lh)
    requires Wrote(g, base, s, h, ws, |h.lh| + 1)
    requires forall i :: 0 <= i < |h.lh| ==> ws[|h.lh| + 1 + i] == Write(h.lh[i], h.disk[g.start + 1 + i])
    ensures Reaches(g, h, Times(Install, n), r) && r.phase == Installing(n) && |r.disk| == |h.disk|
    ensures Wrote(g, base, s, r, ws, |h.lh| + 1 + n)
    ensures forall c :: g.start <= c < g.start + g.size ==> r.disk[c] == h.disk[c]
  {
    hide Inv, Reaches, Times, Apply, Encode, Home;
    if n == 0 {
      None(g, h, Install);
      r := h;
    } else {
      var q := InstallsWrite(g, base, s, h, ws, n - 1);
      LogFits(g, base, q);
      StepKeepsInv(g, base, q, Install);
      Once(g, h, Install, n - 1, q);
      r := Do(g, q, Install);
      NotInLog(g, q.disk, q.lh, n - 1);
      LogShown(g, base, q, n);
      ApplyStep(s.disk, ws, |h.lh| + n);
    }
  }

  lemma NotInLog(g: Geometry, d: Disk, lh: seq<nat>, i: nat)
    requires WfHeader(g, d, lh) && i < |lh|
    ensures !(g.start <= lh[i] < g.start + g.size) && |lh| < g.size
  {
    assert Home(g, d, lh[i]);
  }

  /** The cache never differs from the disk on a log block. */
  lemma LogShown(g: Geometry, base: Disk, s: State, i: nat)
    requires Inv(g, base, s) && i < g.size && !s.phase.Booting?
    ensures g.start + i < |s.disk| && View(s, g.start + i) == s.disk[g.start + i]
  {
    hide BeforeHead, AfterHead, OpsOk;
    LogBlocksClean(g, s, i);
  }

  /** After the header write the log holds the logged data and the header names it. */
  lemma HeaderData(g: Geometry, s: State, h: State)
    requires WfHeader(g, s.disk, s.lh) && |h.disk| == |s.disk|
    requires h.disk == Apply(s.disk, CommitWrites(g, s.disk, s.lh, LoggedData(s))[..|s.lh| + 1])
    ensures forall i :: 0 <= i < |s.lh| ==> h.disk[g.start + 1 + i] == LoggedData(s)[i]
    ensures h.disk[g.start] == Encode(s.disk[g.start], s.lh)
  {
    hide Word, Encode, Apply, Updated, Durable;
    var data := LoggedData(s);
    HeaderCommits(g, s.disk, s.lh, data);
    forall i | 0 <= i < |s.lh| ensures h.disk[g.start + 1 + i] == data[i] {
      assert LogData(g, h.disk, |s.lh|)[i] == h.disk[g.start + 1 + i];
    }
  }

  /** The log blocks and then the header. */
  lemma HeaderRunWrites(g: Geometry, base: Disk, s: State) returns (h: State)
    requires Inv(g, base, s) && s.phase == Logging(0) && WfHeader(g, s.disk, s.lh)
    ensures Reaches(g, s, Times(CopyToLog, |s.lh|) + [WriteHead], h) && h.phase == Installing(0)
    ensures Wrote(g, base, s, h, CommitWrites(g, s.disk, s.lh, LoggedData(s)), |s.lh| + 1) && |h.disk| == |s.disk|
  {
    hide Inv, Reaches, Times, Encode, Apply, Word, Home;
    LogFits(g, base, s);
    var n, ws := |s.lh|, CommitWrites(g, s.disk, s.lh, LoggedData(s));
    var q := CopyWrites(g, base, s, n);
    LogFits(g, base, q);
    LogShown(g, base, q, 0);
    assert q.disk[g.start] == s.disk[g.start] by { HeaderUntouched(g, s, ws, n); }
    StepKeepsInv(g, base, q, WriteHead);
    h := Do(g, q, WriteHead);
    Single(g, q, WriteHead);
    Concat(g, s, Times(CopyToLog, n), q, [WriteHead], h);
    assert ws[n] == Write(g.start, Encode(s.disk[g.start], s.lh));
    ApplyStep(s.disk, ws, n);
  }

  /** The writes of commit after the header. */
  lemma CommitTail(g: Geometry, s: State)
    requires WfHeader(g, s.disk, s.lh)
    ensures var ws, n := CommitWrites(g, s.disk, s.lh, LoggedData(s)), |s.lh|;
            && |ws| == 2 * n + 2 && ws[n + 1 + n] == Write(g.start, Encode(Encode(s.disk[g.start], s.lh), []))
            && forall i :: 0 <= i < n ==> ws[n + 1 + i] == Write(s.lh[i], LoggedData(s)[i])
  {
    hide Encode, Home;
  }

  /** A commit of the protocol makes exactly the disk writes of commit, in order. */
  lemma CommitRunWrites(g: Geometry, base: Disk, s: State) returns (r: State)
    requires Inv(g, base, s) && s.phase == Logging(0)
    ensures WfHeader(g, s.disk, s.lh)
    ensures Reaches(g, s, CommitActs(|s.lh|, |s.lh|), r)
    ensures r.disk == Apply(s.disk, CommitWrites(g, s.disk, s.lh, LoggedData(s)))
  {
    hide Inv, Reaches, Times, Encode, Apply, Word, Home, CommitWrites, LoggedData;
    LogFits(g, base, s);
    var n, ws := |s.lh|, CommitWrites(g, s.disk, s.lh, LoggedData(s));
    CommitTail(g, s);
    var h := HeaderRunWrites(g, base, s);
    LogFits(g, base, h);
    HeaderData(g, s, h);
    var i := InstallsWrite(g, base, s, h, ws, n);
    LogFits(g, base, i);
    LogShown(g, base, i, 0);
    r := Do(g, i, ClearHead);
    Single(g, i, ClearHead);
    ApplyStep(s.disk, ws, n + 1 + n);
    assert ws[..n + 1 + n + 1] == ws;
    Concat(g, h, Times(Install, n), i, [ClearHead], r);
    Concat(g, s, Times(CopyToLog, n) + [WriteHead], h, InstallActs(n), r);
    assert Times(CopyToLog, n) + [WriteHead] + InstallActs(n) == CommitActs(n, n);
  }

  lemma HeaderUntouched(g: Geometry, s: State, ws: seq<Write>, n: nat)
    requires WfHeader(g, s.disk, s.lh) && n == |s.lh| && ws == CommitWrites(g, s.disk, s.lh, LoggedData(s))
    ensures Apply(s.disk, ws[..n])[g.start] == s.disk[g.start]
  {
    hide Word, Encode, Apply;
    LogPrefix(g, s.disk, s.lh, LoggedData(s), n);
  }

  lemma {:induction false} ReinstallWrites(g: Geometry, base: Disk, s: State, n: nat) returns (r: State)
    requires Inv(g, base, s) && s.phase == Reinstalling(0) && n <= |s.lh|
    requires WfDisk(g, s.disk) && s.lh == HeadBlocks(s.disk[g.start])
    ensures Reaches(g, s, Times(Reinstall, n), r) && r.phase == Reinstalling(n) && |r.disk| == |s.disk|
    ensures Wrote(g, base, s, r, RecoveryWrites(g, s.disk), n)
    ensures forall c :: g.start <= c < g.start + g.size ==> r.disk[c] == s.disk[c]
  {
    hide Inv, Reaches, Times, Apply, Encode, Home, HeadBlocks;
    var ws := RecoveryWrites(g, s.disk);
    if n == 0 {
      None(g, s, Reinstall);
      ApplyNothing(s.disk, ws);
      r := s;
    } else {
      var q := ReinstallWrites(g, base, s, n - 1);
      LogFits(g, base, q);
      StepKeepsInv(g, base, q, Reinstall);
      Once(g, s, Reinstall, n - 1, q);
      r := Do(g, q, Reinstall);
      assert View(q, g.start + 1 + (n - 1)) == q.disk[g.start + n] by { LogShown(g, base, q, n); }
      assert ws[n - 1] == Write(s.lh[n - 1], s.disk[g.start + n]);
      ApplyStep(s.disk, ws, n - 1);
      assert !(g.start <= s.lh[n - 1] < g.start + g.size) by { NotInLog(g, q.disk, q.lh, n - 1); }
    }
  }

  /** A reboot of the protocol makes exactly the disk writes of recovery, in order. */
  lemma RecoverRunWrites(g: Geometry, base: Disk, s: State) returns (r: State)
    requires Inv(g, base, s) && s.phase.Booting?
    ensures WfDisk(g, s.disk) && Reaches(g, s, RecoverActs(|HeadBlocks(s.disk[g.start])|), r)
    ensures r.disk == Recover(g, s.disk)
  {
    hide Inv, Reaches, Times, Encode, Apply, Home, HeadBlocks;
    BootFits(g, base, s);
    StepKeepsInv(g, base, s, ReadHead);
    var h := Do(g, s, ReadHead);
    Single(g, s, ReadHead);
    var n, ws := |h.lh|, RecoveryWrites(g, s.disk);
    var q := ReinstallWrites(g, base, h, n);
    LogFits(g, base, q);
    LogShown(g, base, q, 0);
    r := Do(g, q, FinishRecovery);
    Single(g, q, FinishRecovery);
    assert ws[n] == Write(g.start, Encode(s.disk[g.start], []));
    ApplyStep(s.disk, ws, n);
    assert ws[..n + 1] == ws;
    Concat(g, h, Times(Reinstall, n), q, [FinishRecovery], r);
    Concat(g, s, [ReadHead], h, Times(Reinstall, n) + [FinishRecovery], r);
  }
}
