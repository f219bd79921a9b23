/**
  Sleep locks (sleeplock.c) over sleep and wakeup (proc.c), for any number of processes.
  A step is one action between two lock operations; the inner spinlock lk->lk and
  ptable.lock are each held by at most one process.
 */
module SleepLock {
  import opened Options

  /** Where a process is. "inner" is lk->lk; "table" is ptable.lock. */
  datatype Pc =
    | Outside
    | Acquiring                    // acquiresleep: waiting for inner
    | Testing                      // holds inner, at while (lk->locked)
    | SleepEnter                   // in sleep: holds inner, waiting for table
    | SleepBoth                    // holds inner and table
    | SleepOnly                    // holds table, about to become SLEEPING
    | Sleeping                     // SLEEPING on lk
    | Runnable                     // woken, waiting for the scheduler
    | Resumed                      // back in sleep, holding table
    | Locking                      // holds inner, locked set
    | Holding                      // has the sleep lock
    | Releasing                    // releasesleep: waiting for inner
    | Clearing                     // holds inner, about to clear locked
    | WakeEnter                    // in wakeup: holds inner, waiting for table
    | WakeBoth                     // holds inner and table, about to run wakeup1
    | WakeDone                     // holds inner and table, wakeup1 done
    | ReleaseDone                  // holds inner
    | Asking(owns: bool)           // holdingsleep: waiting for inner
    | Answering(owns: bool)        // holds inner, about to compute the result

  datatype Sys = Sys(pc: seq<Pc>, inner: Option<nat>, table: Option<nat>, locked: bool, pid: nat)

  /** Some process outside this protocol, or a scheduler, that uses ptable.lock. */
  function Env(s: Sys): (e: nat) { |s.pc| }

  function PidOf(i: nat): (pid: nat) { i + 1 }

  datatype Action =
    | Step(i: nat)      // process i takes its next step
    | StartAcquire(i: nat) | StartRelease(i: nat) | StartAsk(i: nat)
    | Kill(i: nat)      // kill makes a sleeping process RUNNABLE
    | EnvTakes | EnvFrees

  predicate NeedsInner(p: Pc)
  {
    p.Acquiring? || p.Releasing? || p.Asking?
  }

  predicate NeedsTable(p: Pc)
  {
    p.SleepEnter? || p.WakeEnter? || p.Runnable?
  }

  predicate Enabled(s: Sys, a: Action)
  {
    match a
    case StartAcquire(i) => i < |s.pc| && s.pc[i].Outside?
    case StartRelease(i) => i < |s.pc| && s.pc[i].Holding?
    case StartAsk(i) => i < |s.pc| && (s.pc[i].Outside? || s.pc[i].Holding?)
    case Kill(i) => i < |s.pc| && s.pc[i].Sleeping? && s.table.None?
    case EnvTakes => s.table.None?
    case EnvFrees => s.table == Some(Env(s))
    case Step(i) =>
      && i < |s.pc| && !s.pc[i].Outside? && !s.pc[i].Holding? && !s.pc[i].Sleeping?
      && (NeedsInner(s.pc[i]) ==> s.inner.None?)
      && (NeedsTable(s.pc[i]) ==> s.table.None?)
  }

  /** wakeup1: every process sleeping on lk becomes RUNNABLE. */
  function WakeAll(pc: seq<Pc>): (r: seq<Pc>)
    ensures |r| == |pc| && forall i :: 0 <= i < |pc| ==> r[i] == if pc[i].Sleeping? then Runnable else pc[i]
  {
    seq(|pc|, i requires 0 <= i < |pc| => if pc[i].Sleeping? then Runnable else pc[i])
  }

  function Go(s: Sys, i: nat, p: Pc): (s': Sys)
    requires i < |s.pc|
  {
    s.(pc := s.pc[i := p])
  }

  function DoStep(s: Sys, i: nat): (s': Sys)
    requires Enabled(s, Step(i))
  {
    match s.pc[i]
    case Acquiring => Go(s, i, Testing).(inner := Some(i))
    case Testing => if s.locked then Go(s, i, SleepEnter) else Go(s, i, Locking).(locked := true, pid := PidOf(i))
    case SleepEnter => Go(s, i, SleepBoth).(table := Some(i))
    case SleepBoth => Go(s, i, SleepOnly).(inner := None)
    case SleepOnly => Go(s, i, Sleeping).(table := None)
    case Runnable => Go(s, i, Resumed).(table := Some(i))
    case Resumed => Go(s, i, Acquiring).(table := None)
    case Locking => Go(s, i, Holding).(inner := None)
    case Releasing => Go(s, i, Clearing).(inner := Some(i))
    case Clearing => Go(s, i, WakeEnter).(locked := false, pid := 0)
    case WakeEnter => Go(s, i, WakeBoth).(table := Some(i))
    case WakeBoth => s.(pc := WakeAll(s.pc)[i := WakeDone])
    case WakeDone => Go(s, i, ReleaseDone).(table := None)
    case ReleaseDone => Go(s, i, Outside).(inner := None)
    case Asking(o) => Go(s, i, Answering(o)).(inner := Some(i))
    case Answering(o) => Go(s, i, if o then Holding else Outside).(inner := None)
  }

  function Do(s: Sys, a: Action): (s': Sys)
    requires Enabled(s, a)
  {
    match a
    case StartAcquire(i) => Go(s, i, Acquiring)
    case StartRelease(i) => Go(s, i, Releasing)
    case StartAsk(i) => Go(s, i, Asking(s.pc[i].Holding?))
    case Kill(i) => Go(s, i, Runnable)
    case EnvTakes => s.(table := Some(Env(s)))
    case EnvFrees => s.(table := None)
    case Step(i) => DoStep(s, i)
  }

  // ---- the invariant ----

  predicate HasInner(p: Pc)
  {
    p.Testing? || p.SleepEnter? || p.SleepBoth? || p.Locking? || p.Clearing? || p.WakeEnter? || p.WakeBoth? ||
    p.WakeDone? || p.ReleaseDone? || p.Answering?
  }

  predicate HasTable(p: Pc)
  {
    p.SleepBoth? || p.SleepOnly? || p.Resumed? || p.WakeBoth? || p.WakeDone?
  }

  /** The process is between setting and clearing lk->locked. */
  predicate Owns(p: Pc)
  {
    p.Locking? || p.Holding? || p.Releasing? || p.Clearing? || (p.Asking? && p.owns) || (p.Answering? && p.owns)
  }

  /** The process is asleep on the lock, or has decided to sleep. */
  predicate GoingToSleep(p: Pc)
  {
    p.SleepEnter? || p.SleepBoth? || p.SleepOnly? || p.Sleeping?
  }

  predicate WillWake(p: Pc)
  {
    p.WakeEnter? || p.WakeBoth?
  }

  ghost predicate InnerOk(s: Sys)
  {
    && (forall i :: 0 <= i < |s.pc| ==> (s.inner == Some(i) <==> HasInner(s.pc[i])))
    && (s.inner.Some? ==> s.inner.value < |s.pc|)
  }

  ghost predicate TableOk(s: Sys)
  {
    forall i :: 0 <= i < |s.pc| ==> (s.table == Some(i) <==> HasTable(s.pc[i]))
  }

  ghost predicate OwnerOk(s: Sys)
  {
    && (forall i :: 0 <= i < |s.pc| && Owns(s.pc[i]) ==> s.locked && s.pid == PidOf(i))
    && (s.locked ==> s.pid >= 1 && s.pid - 1 < |s.pc| && Owns(s.pc[s.pid - 1]))
    && (!s.locked ==> s.pid == 0)
  }

  /** Whoever sleeps or is about to: the lock is taken, or its releaser is still on the way to wakeup1. */
  ghost predicate SleepersOk(s: Sys)
  {
    forall i :: 0 <= i < |s.pc| && GoingToSleep(s.pc[i]) ==>
      s.locked || (s.inner.Some? && s.inner.value < |s.pc| && WillWake(s.pc[s.inner.value]))
  }

  ghost predicate Inv(s: Sys)
  {
    InnerOk(s) && TableOk(s) && OwnerOk(s) && SleepersOk(s)
  }

  /** Only process i moves, except that wakeup1 moves sleepers. */
  ghost predicate Moves(s: Sys, s': Sys, i: nat)
  {
    && |s'.pc| == |s.pc| && i < |s.pc|
    && forall j :: 0 <= j < |s.pc| && j != i ==> s'.pc[j] == s.pc[j] || (s.pc[j].Sleeping? && s'.pc[j].Runnable?)
  }

  /** What the step of process i does to the two spinlocks. */
  ghost predicate LocalLocks(s: Sys, s': Sys, i: nat)
    requires i < |s.pc| == |s'.pc|
  {
    LocalInner(s, s', i) && LocalTable(s, s', i)
  }

  ghost predicate LocalInner(s: Sys, s': Sys, i: nat)
    requires i < |s.pc| == |s'.pc|
  {
    var p, p' := s.pc[i], s'.pc[i];
    && s'.inner == (if HasInner(p') then Some(i) else if HasInner(p) then None else s.inner)
    && (HasInner(p') ==> HasInner(p) || s.inner.None?)
  }

  ghost predicate LocalTable(s: Sys, s': Sys, i: nat)
    requires i < |s.pc| == |s'.pc|
  {
    var p, p' := s.pc[i], s'.pc[i];
    && s'.table == (if HasTable(p') then Some(i) else if HasTable(p) then None else s.table)
    && (HasTable(p') ==> HasTable(p) || s.table.None?)
  }

  /** What the step of process i does to lk->locked and lk->pid. */
  ghost predicate LocalOwner(s: Sys, s': Sys, i: nat)
    requires i < |s.pc| == |s'.pc|
  {
    var o, o' := Owns(s.pc[i]), Owns(s'.pc[i]);
    && (o == o' ==> s'.locked == s.locked && s'.pid == s.pid)
    && (o && !o' ==> !s'.locked && s'.pid == 0)
    && (!o && o' ==> !s.locked && s'.locked && s'.pid == PidOf(i))
  }

  lemma StepMoves(s: Sys, i: nat)
    requires Enabled(s, Step(i))
    ensures Moves(s, DoStep(s, i), i)
  {}

  lemma StepLocks(s: Sys, i: nat)
    requires Enabled(s, Step(i))
    requires HasInner(s.pc[i]) ==> s.inner == Some(i)
    requires HasTable(s.pc[i]) ==> s.table == Some(i)
    ensures |DoStep(s, i).pc| == |s.pc| && LocalLocks(s, DoStep(s, i), i)
  {
    StepInner(s, i);
    StepTable(s, i);
    hide DoStep, LocalInner, LocalTable;
  }

  lemma StepInner(s: Sys, i: nat)
    requires Enabled(s, Step(i)) && (HasInner(s.pc[i]) ==> s.inner == Some(i))
    ensures |DoStep(s, i).pc| == |s.pc| && LocalInner(s, DoStep(s, i), i)
  {
    match s.pc[i]
    case Acquiring => case Testing => case SleepEnter => case SleepBoth => case SleepOnly =>
    case Runnable => case Resumed => case Locking => case Releasing => case Clearing =>
    case WakeEnter => case WakeBoth => case WakeDone => case ReleaseDone =>
    case Asking(_) => case Answering(_) =>
    case Outside => case Sleeping => case Holding =>
  }

  lemma StepTable(s: Sys, i: nat)
    requires Enabled(s, Step(i)) && (HasTable(s.pc[i]) ==> s.table == Some(i))
    ensures |DoStep(s, i).pc| == |s.pc| && LocalTable(s, DoStep(s, i), i)
  {
    match s.pc[i]
    case Acquiring => case Testing => case SleepEnter => case SleepBoth => case SleepOnly =>
    case Runnable => case Resumed => case Locking => case Releasing => case Clearing =>
    case WakeEnter => case WakeBoth => case WakeDone => case ReleaseDone =>
    case Asking(_) => case Answering(_) =>
    case Outside => case Sleeping => case Holding =>
  }

  lemma StepOwner(s: Sys, i: nat)
    requires Enabled(s, Step(i))
    ensures |DoStep(s, i).pc| == |s.pc| && LocalOwner(s, DoStep(s, i), i)
    ensures s.pc[i].Testing? ==> if s.locked then DoStep(s, i).pc[i].SleepEnter? else Owns(DoStep(s, i).pc[i])
  {
    match s.pc[i]
    case Acquiring => case Testing => case SleepEnter => case SleepBoth => case SleepOnly =>
    case Runnable => case Resumed => case Locking => case Releasing => case Clearing =>
    case WakeEnter => case WakeBoth => case WakeDone => case ReleaseDone =>
    case Asking(_) => case Answering(_) =>
    case Outside => case Sleeping => case Holding =>
  }

  lemma OtherIsLocal(s: Sys, a: Action) returns (i: nat)
    requires Enabled(s, a) && (a.StartAcquire? || a.StartRelease? || a.StartAsk? || a.Kill?)
    ensures Moves(s, Do(s, a), i) && LocalLocks(s, Do(s, a), i) && LocalOwner(s, Do(s, a), i)
  {
    i := a.i;
  }

  lemma LocalKeepsLocks(s: Sys, s': Sys, i: nat)
    requires InnerOk(s) && TableOk(s) && Moves(s, s', i) && LocalLocks(s, s', i)
    ensures InnerOk(s') && TableOk(s')
  {
    hide Owns;
    forall j | 0 <= j < |s.pc| && j != i
      ensures HasInner(s'.pc[j]) == HasInner(s.pc[j]) && HasTable(s'.pc[j]) == HasTable(s.pc[j]) {}
    hide HasInner, HasTable;
  }

  lemma LocalKeepsOwner(s: Sys, s': Sys, i: nat)
    requires OwnerOk(s) && Moves(s, s', i) && LocalOwner(s, s', i)
    ensures OwnerOk(s')
  {
    hide HasInner, HasTable;
    forall j | 0 <= j < |s.pc| && j != i ensures Owns(s'.pc[j]) == Owns(s.pc[j]) {}
    hide Owns;
  }

  lemma LocksHeld(s: Sys, i: nat)
    requires InnerOk(s) && TableOk(s) && i < |s.pc|
    ensures HasInner(s.pc[i]) ==> s.inner == Some(i)
    ensures HasTable(s.pc[i]) ==> s.table == Some(i)
  {}

  /** A step of the protocol never leaves a sleeper that nobody will wake. */
  lemma StepKeepsSleepers(s: Sys, i: nat)
    requires Inv(s) && Enabled(s, Step(i))
    ensures SleepersOk(DoStep(s, i))
  {
    var s' := DoStep(s, i);
    if s.pc[i].WakeBoth? {
      forall j | 0 <= j < |s'.pc| ensures !GoingToSleep(s'.pc[j]) {}
    } else {
      StepMoves(s, i);
      forall j | 0 <= j < |s.pc| && j != i ensures s'.pc[j] == s.pc[j] {}
    }
  }

  lemma OtherKeepsSleepers(s: Sys, a: Action)
    requires Inv(s) && Enabled(s, a) && !a.Step?
    ensures SleepersOk(Do(s, a))
  {}

  lemma StepKeepsInv(s: Sys, a: Action)
    requires Inv(s) && Enabled(s, a)
    ensures Inv(Do(s, a))
  {
    hide InnerOk, TableOk, OwnerOk, SleepersOk, DoStep;
    if a.Step? { StepKeepsSleepers(s, a.i); } else { OtherKeepsSleepers(s, a); }
    if a.EnvTakes? || a.EnvFrees? {
      EnvKeeps(s, a);
    } else {
      var i;
      if a.Step? {
        i := a.i;
        StepMoves(s, i);
        assert HasInner(s.pc[i]) ==> s.inner == Some(i) by { LocksHeld(s, i); }
        assert HasTable(s.pc[i]) ==> s.table == Some(i) by { LocksHeld(s, i); }
        StepLocks(s, i);
        StepOwner(s, i);
      } else {
        i := OtherIsLocal(s, a);
      }
      hide LocalLocks, LocalOwner, Moves;
      LocalKeepsLocks(s, Do(s, a), i);
      LocalKeepsOwner(s, Do(s, a), i);
    }
  }

  lemma EnvKeeps(s: Sys, a: Action)
    requires Inv(s) && Enabled(s, a) && (a.EnvTakes? || a.EnvFrees?)
    ensures InnerOk(Do(s, a)) && TableOk(Do(s, a)) && OwnerOk(Do(s, a))
  {
    hide SleepersOk;
  }

  // ---- every run ----

  predicate ValidRun(s: Sys, acts: seq<Action>)
    decreases |acts|, 0
  {
    acts == [] ||
    var n := |acts| - 1;
    ValidRun(s, acts[..n]) && Enabled(After(s, acts[..n]), acts[n])
  }

  function After(s: Sys, acts: seq<Action>): (s': Sys)
    requires ValidRun(s, acts)
    decreases |acts|, 1
  {
    if acts == [] then s else
      var n := |acts| - 1;
      Do(After(s, acts[..n]), acts[n])
  }

  /** initsleeplock, with n processes outside. */
  function Init(n: nat): (s: Sys)
  {
    Sys(seq(n, _ => Outside), None, None, false, 0)
  }

  lemma {:induction false} RunKeepsInv(n: nat, acts: seq<Action>)
    requires ValidRun(Init(n), acts)
    ensures Inv(After(Init(n), acts))
  {
    if acts != [] {
      hide Inv, Do, Enabled;
      var k := |acts| - 1;
      RunKeepsInv(n, acts[..k]);
      StepKeepsInv(After(Init(n), acts[..k]), acts[k]);
    }
  }

  /** Mutual exclusion: in every run state at most one process has the lock, and lk->pid names it. */
  lemma MutualExclusion(n: nat, acts: seq<Action>, i: nat, j: nat)
    requires ValidRun(Init(n), acts)
    requires i < |After(Init(n), acts).pc| && j < |After(Init(n), acts).pc|
    requires Owns(After(Init(n), acts).pc[i]) && Owns(After(Init(n), acts).pc[j])
    ensures i == j && After(Init(n), acts).locked && After(Init(n), acts).pid == PidOf(i)
  {
    hide After, Owns;
    RunKeepsInv(n, acts);
  }

  /** No lost wakeup: when the inner spinlock is free and locked is 0, no process sleeps on the lock or is about to. */
  lemma NoLostWakeup(n: nat, acts: seq<Action>, i: nat)
    requires ValidRun(Init(n), acts)
    requires After(Init(n), acts).inner.None? && !After(Init(n), acts).locked
    requires i < |After(Init(n), acts).pc|
    ensures !GoingToSleep(After(Init(n), acts).pc[i])
  {
    hide After, GoingToSleep;
    RunKeepsInv(n, acts);
  }

  /** holdingsleep answers true exactly for the process that has the lock. */
  lemma HoldingsleepCorrect(n: nat, acts: seq<Action>, i: nat)
    requires ValidRun(Init(n), acts)
    requires i < |After(Init(n), acts).pc| && After(Init(n), acts).pc[i].Answering?
    ensures var s := After(Init(n), acts);
            s.locked && s.pid == PidOf(i) <==> s.pc[i].owns
  {
    hide After;
    RunKeepsInv(n, acts);
  }

  // ---- what acquiring and releasing come to ----

  /** The process is inside acquiresleep. */
  predicate InAcquire(p: Pc)
  {
    p.Acquiring? || p.Testing? || p.SleepEnter? || p.SleepBoth? || p.SleepOnly? || p.Sleeping? || p.Runnable? ||
    p.Resumed? || p.Locking?
  }

  /** The process is inside releasesleep. */
  predicate InRelease(p: Pc)
  {
    p.Releasing? || p.Clearing? || p.WakeEnter? || p.WakeBoth? || p.WakeDone? || p.ReleaseDone?
  }

  /** Process i has returned from acquiresleep with the lock. */
  predicate HasLock(s: Sys, i: nat)
  {
    i < |s.pc| && s.pc[i].Holding? && s.locked && s.pid == PidOf(i)
  }

  /** acquiresleep is left only with the lock, and releasesleep only by a process that no longer has it. */
  lemma LeavesWith(s: Sys, a: Action, i: nat)
    requires Inv(s) && Enabled(s, a) && i < |s.pc|
    ensures InAcquire(s.pc[i]) ==> InAcquire(Do(s, a).pc[i]) || HasLock(Do(s, a), i)
    ensures InRelease(s.pc[i]) ==> InRelease(Do(s, a).pc[i]) || Do(s, a).pc[i].Outside?
  {
    hide InnerOk, TableOk, OwnerOk, SleepersOk;
    StepKeepsInv(s, a);
    var s' := Do(s, a);
    if s'.pc[i].Holding? { OwnerHas(s', i); }
    if a.Step? {
      StepMoves(s, a.i);
      if a.i == i { StepLeaves(s, i); }
    }
  }

  lemma OwnerHas(s: Sys, i: nat)
    requires Inv(s) && i < |s.pc| && s.pc[i].Holding?
    ensures HasLock(s, i)
  {
    hide InnerOk, TableOk, SleepersOk;
  }

  lemma StepLeaves(s: Sys, i: nat)
    requires Enabled(s, Step(i))
    ensures InAcquire(s.pc[i]) ==> InAcquire(DoStep(s, i).pc[i]) || DoStep(s, i).pc[i].Holding?
    ensures InRelease(s.pc[i]) ==> InRelease(DoStep(s, i).pc[i]) || DoStep(s, i).pc[i].Outside?
  {}

  lemma {:induction false} RunPrefix(s: Sys, acts: seq<Action>, k: nat)
    requires ValidRun(s, acts) && k <= |acts|
    ensures ValidRun(s, acts[..k])
  {
    if k < |acts| {
      RunPrefix(s, acts[..|acts| - 1], k);
      assert acts[..|acts| - 1][..k] == acts[..k];
    } else {
      assert acts[..k] == acts;
    }
  }

  /** After j steps of the run process i is inside acquiresleep. */
  ghost predicate WaitsAt(n: nat, acts: seq<Action>, j: nat, i: nat)
  {
    && j <= |acts| && ValidRun(Init(n), acts[..j])
    && i < |After(Init(n), acts[..j]).pc| && InAcquire(After(Init(n), acts[..j]).pc[i])
  }

  /**
    In every run, whoever is in acquiresleep after m steps and out of it at the end has come out of it holding the
    lock, and was in it until then.
   */
  lemma {:induction false} AcquireReturns(n: nat, acts: seq<Action>, m: nat, i: nat) returns (k: nat)
    requires ValidRun(Init(n), acts) && WaitsAt(n, acts, m, i) && !WaitsAt(n, acts, |acts|, i)
    ensures m < k <= |acts| && ValidRun(Init(n), acts[..k]) && HasLock(After(Init(n), acts[..k]), i)
    ensures forall j :: m <= j < k ==> WaitsAt(n, acts, j, i)
    decreases |acts| - m
  {
    hide Inv, Do, Enabled, InAcquire, HasLock;
    var s := After(Init(n), acts[..m]);
    RunPrefix(Init(n), acts, m + 1);
    assert acts[..m + 1][..m] == acts[..m];
    RunKeepsInv(n, acts[..m]);
    LeavesWith(s, acts[m], i);
    assert After(Init(n), acts[..m + 1]) == Do(s, acts[m]);
    SameCount(s, acts[m]);
    if InAcquire(Do(s, acts[m]).pc[i]) {
      k := AcquireReturns(n, acts, m + 1, i);
    } else {
      k := m + 1;
    }
  }

  lemma SameCount(s: Sys, a: Action)
    requires Enabled(s, a)
    ensures |Do(s, a).pc| == |s.pc|
  {}

  lemma Extend(s: Sys, acts: seq<Action>, a: Action)
    requires ValidRun(s, acts) && Enabled(After(s, acts), a)
    ensures ValidRun(s, acts + [a]) && After(s, acts + [a]) == Do(After(s, acts), a)
  {
    hide Enabled, Do;
    assert (acts + [a])[..|acts|] == acts;
  }

  /** The next n steps of process i. */
  function Steps(i: nat, n: nat): (acts: seq<Action>)
  {
    seq(n, _ => Step(i))
  }

  ghost predicate Reaches(s: Sys, acts: seq<Action>, r: Sys)
  {
    ValidRun(s, acts) && After(s, acts) == r
  }

  lemma Begun(s: Sys, a: Action, i: nat)
    requires Enabled(s, a)
    ensures Reaches(s, [a] + Steps(i, 0), Do(s, a)) && Reaches(s, [] + Steps(i, 0), s)
  {
    hide Enabled, Do;
    assert [] + [a] == [a] && [a] + Steps(i, 0) == [a];
    Extend(s, [], a);
  }

  lemma OneMore(s: Sys, acts: seq<Action>, i: nat, n: nat, r: Sys)
    requires Reaches(s, acts + Steps(i, n), r) && Enabled(r, Step(i))
    ensures Reaches(s, acts + Steps(i, n + 1), DoStep(r, i))
  {
    hide Enabled, DoStep;
    Extend(s, acts + Steps(i, n), Step(i));
    assert acts + Steps(i, n) + [Step(i)] == acts + Steps(i, n + 1);
  }

  /** The step takes process i from r to place p with the spinlocks and the owner given. */
  lemma Goes(s: Sys, acts: seq<Action>, i: nat, n: nat, r: Sys, r': Sys)
    requires Reaches(s, acts + Steps(i, n), r) && Enabled(r, Step(i)) && DoStep(r, i) == r'
    ensures Reaches(s, acts + Steps(i, n + 1), r')
  {
    hide Reaches, Enabled, DoStep, Steps;
    OneMore(s, acts, i, n, r);
  }

  /** Nobody in the way: acquiresleep takes the lock in three steps. */
  lemma AcquireFree(s: Sys, i: nat)
    requires i < |s.pc| && s.pc[i].Outside? && s.inner.None? && !s.locked
    ensures Reaches(s, [StartAcquire(i)] + Steps(i, 3), s.(pc := s.pc[i := Holding], locked := true, pid := PidOf(i)))
  {
    hide Reaches, Steps;
    var start := [StartAcquire(i)];
    Begun(s, StartAcquire(i), i);
    var r0 := Go(s, i, Acquiring);
    var r1 := Go(s, i, Testing).(inner := Some(i));
    Goes(s, start, i, 0, r0, r1);
    var r2 := Go(s, i, Locking).(inner := Some(i), locked := true, pid := PidOf(i));
    Goes(s, start, i, 1, r1, r2);
    Goes(s, start, i, 2, r2, Go(s, i, Holding).(locked := true, pid := PidOf(i)));
  }

  /** With the lock taken, acquiresleep puts its caller to sleep. */
  lemma AcquireSleeps(s: Sys, i: nat)
    requires i < |s.pc| && s.pc[i].Outside? && s.inner.None? && s.table.None? && s.locked
    ensures Reaches(s, [StartAcquire(i)] + Steps(i, 5), s.(pc := s.pc[i := Sleeping]))
  {
    hide Reaches, Steps;
    var start := [StartAcquire(i)];
    Begun(s, StartAcquire(i), i);
    var r0 := Go(s, i, Acquiring);
    var r1 := Go(s, i, Testing).(inner := Some(i));
    Goes(s, start, i, 0, r0, r1);
    var r2 := Go(s, i, SleepEnter).(inner := Some(i));
    Goes(s, start, i, 1, r1, r2);
    var r3 := Go(s, i, SleepBoth).(inner := Some(i), table := Some(i));
    Goes(s, start, i, 2, r2, r3);
    var r4 := Go(s, i, SleepOnly).(table := Some(i));
    Goes(s, start, i, 3, r3, r4);
    Goes(s, start, i, 4, r4, Go(s, i, Sleeping));
  }

  /** releasesleep up to wakeup1. */
  lemma ReleaseClears(s: Sys, j: nat)
    requires j < |s.pc| && s.pc[j].Holding? && s.inner.None? && s.table.None?
    ensures Reaches(s, [StartRelease(j)] + Steps(j, 3),
                    Go(s, j, WakeBoth).(locked := false, pid := 0, inner := Some(j), table := Some(j)))
  {
    hide Reaches, Steps;
    var start := [StartRelease(j)];
    Begun(s, StartRelease(j), j);
    var r1 := Go(s, j, Clearing).(inner := Some(j));
    Goes(s, start, j, 0, Go(s, j, Releasing), r1);
    var r2 := Go(s, j, WakeEnter).(locked := false, pid := 0, inner := Some(j));
    Goes(s, start, j, 1, r1, r2);
    Goes(s, start, j, 2, r2, Go(s, j, WakeBoth).(locked := false, pid := 0, inner := Some(j), table := Some(j)));
  }

  /** releasesleep frees the lock and wakes everyone who sleeps on it. */
  lemma ReleaseWakes(s: Sys, j: nat)
    requires j < |s.pc| && s.pc[j].Holding? && s.inner.None? && s.table.None?
    ensures Reaches(s, [StartRelease(j)] + Steps(j, 6),
                    s.(pc := WakeAll(s.pc)[j := Outside], locked := false, pid := 0))
  {
    hide Reaches, Steps;
    var start := [StartRelease(j)];
    ReleaseClears(s, j);
    var woken := s.(pc := WakeAll(s.pc), locked := false, pid := 0);
    assert WakeAll(s.pc[j := WakeBoth])[j := WakeDone] == WakeAll(s.pc)[j := WakeDone];
    var r4 := Go(woken, j, WakeDone).(inner := Some(j), table := Some(j));
    Goes(s, start, j, 3, Go(s, j, WakeBoth).(locked := false, pid := 0, inner := Some(j), table := Some(j)), r4);
    var r5 := Go(woken, j, ReleaseDone).(inner := Some(j));
    Goes(s, start, j, 4, r4, r5);
    Goes(s, start, j, 5, r5, Go(woken, j, Outside));
  }

  /** A woken process takes the free lock. */
  lemma WokenTakes(s: Sys, i: nat)
    requires i < |s.pc| && s.pc[i].Runnable? && s.inner.None? && s.table.None? && !s.locked
    ensures Reaches(s, [] + Steps(i, 5), s.(pc := s.pc[i := Holding], locked := true, pid := PidOf(i)))
  {
    hide Reaches, Steps;
    Begun(s, Step(i), i);
    var r1 := Go(s, i, Resumed).(table := Some(i));
    Goes(s, [], i, 0, s, r1);
    var r2 := Go(s, i, Acquiring);
    Goes(s, [], i, 1, r1, r2);
    var r3 := Go(s, i, Testing).(inner := Some(i));
    Goes(s, [], i, 2, r2, r3);
    var r4 := Go(s, i, Locking).(inner := Some(i), locked := true, pid := PidOf(i));
    Goes(s, [], i, 3, r3, r4);
    Goes(s, [], i, 4, r4, Go(s, i, Holding).(locked := true, pid := PidOf(i)));
  }

  /** holdingsleep takes the inner spinlock, answers under it, and leaves everything as it was. */
  lemma AskReturns(s: Sys, i: nat)
    requires i < |s.pc| && (s.pc[i].Outside? || s.pc[i].Holding?) && s.inner.None?
    ensures Reaches(s, [StartAsk(i)] + Steps(i, 1), Go(s, i, Answering(s.pc[i].Holding?)).(inner := Some(i)))
    ensures Reaches(s, [StartAsk(i)] + Steps(i, 2), s)
  {
    hide Reaches, Steps;
    var owns := s.pc[i].Holding?;
    Begun(s, StartAsk(i), i);
    var r1 := Go(s, i, Answering(owns)).(inner := Some(i));
    Goes(s, [StartAsk(i)], i, 0, Go(s, i, Asking(owns)), r1);
    assert s.pc[i := Answering(owns)][i := s.pc[i]] == s.pc;
    Goes(s, [StartAsk(i)], i, 1, r1, s);
  }

  /** A killed sleeper wakes and tests the lock again. */
  lemma KilledTestsAgain(s: Sys, i: nat)
    requires i < |s.pc| && s.pc[i].Sleeping? && s.inner.None? && s.table.None?
    ensures Reaches(s, [Kill(i)] + Steps(i, 3), Go(s, i, Testing).(inner := Some(i)))
  {
    hide Reaches, Steps;
    Begun(s, Kill(i), i);
    var r1 := Go(s, i, Resumed).(table := Some(i));
    Goes(s, [Kill(i)], i, 0, Go(s, i, Runnable), r1);
    var r2 := Go(s, i, Acquiring);
    Goes(s, [Kill(i)], i, 1, r1, r2);
    Goes(s, [Kill(i)], i, 2, r2, Go(s, i, Testing).(inner := Some(i)));
  }

  lemma {:induction false} Concat(s: Sys, a: seq<Action>, b: seq<Action>)
    requires ValidRun(s, a) && ValidRun(After(s, a), b)
    ensures ValidRun(s, a + b) && After(s, a + b) == After(After(s, a), b)
  {
    hide Enabled, Do;
    if b == [] {
      assert a + b == a;
    } else {
      var n := |b| - 1;
      Concat(s, a, b[..n]);
      assert (a + b)[..|a + b| - 1] == a + b[..n];
    }
  }

  /** From every reachable state with the lock free and nobody at it, whoever asks has it three steps later. */
  lemma AcquireTakes(n: nat, acts: seq<Action>, i: nat)
    requires ValidRun(Init(n), acts)
    requires var s := After(Init(n), acts); i < |s.pc| && s.pc[i].Outside? && s.inner.None? && !s.locked
    ensures ValidRun(Init(n), acts + ([StartAcquire(i)] + Steps(i, 3)))
    ensures HasLock(After(Init(n), acts + ([StartAcquire(i)] + Steps(i, 3))), i)
  {
    hide After, ValidRun, Steps;
    var s := After(Init(n), acts);
    AcquireFree(s, i);
    Concat(Init(n), acts, [StartAcquire(i)] + Steps(i, 3));
  }

  /**
    Handing over, from every reachable state in which j has the lock and both spinlocks are free: i asks, sleeps,
    is woken by the release of j and has the lock.
   */
  lemma HandOver(n: nat, acts: seq<Action>, i: nat, j: nat)
    requires ValidRun(Init(n), acts)
    requires var s := After(Init(n), acts);
             && i < |s.pc| && j < |s.pc| && s.inner.None? && s.table.None?
             && s.pc[i].Outside? && s.pc[j].Holding?
    ensures var more := ([StartAcquire(i)] + Steps(i, 5)) + (([StartRelease(j)] + Steps(j, 6)) + ([] + Steps(i, 5)));
            && ValidRun(Init(n), acts + more)
            && var s' := After(Init(n), acts + more);
               HasLock(s', i) && j < |s'.pc| && s'.pc[j].Outside? && s'.inner.None? && s'.table.None?
  {
    hide After, ValidRun, Steps;
    var s := After(Init(n), acts);
    assert s.locked by {
      RunKeepsInv(n, acts);
      OwnerHas(s, j);
    }
    AcquireSleeps(s, i);
    var a1, a2, a3 := [StartAcquire(i)] + Steps(i, 5), [StartRelease(j)] + Steps(j, 6), [] + Steps(i, 5);
    var s1 := After(s, a1);
    ReleaseWakes(s1, j);
    WokenTakes(After(s1, a2), i);
    Concat(s1, a2, a3);
    Concat(s, a1, a2 + a3);
    Concat(Init(n), acts, a1 + (a2 + a3));
  }
}
