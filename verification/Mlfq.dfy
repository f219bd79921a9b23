/**
  The MLFQ scheduler of proc.c as steps at the points where ptable.lock is released:
  dispatch, time slices with demotion, sleep, wakeup, kill, fork, exit and wait.
 */
module Mlfq {
  import opened Finite
  import opened Rings

  // ---- the run-queue invariant ----

  ghost predicate RingOk(t: Table, l: nat, pending: set<nat>)
    requires WfTable(t) && l < LEVELS
  {
    && Distinct(Entries(t, l))
    && forall i :: 0 <= i < |Entries(t, l)| ==>
         var p := Entries(t, l)[i];
         p < NPROC && t.proc[p].state == RUNNABLE && t.proc[p].queue == l && p !in pending
  }

  /**
    Every RUNNABLE process outside `pending` is in exactly one ring, once, at level p->queue,
    and every queued process is RUNNABLE.
   */
  ghost predicate Consistent(t: Table, pending: set<nat>)
  {
    && WfTable(t)
    && (forall p :: 0 <= p < NPROC ==> t.proc[p].queue < LEVELS)
    && (forall l :: 0 <= l < LEVELS ==> RingOk(t, l, pending))
    && forall p :: 0 <= p < NPROC && t.proc[p].state == RUNNABLE && p !in pending ==> p in Entries(t, t.proc[p].queue)
  }

  /** All NPROC processes are RUNNABLE at level l: one more than a ring can hold. */
  predicate FullLevel(t: Table, l: nat)
  {
    |t.proc| == NPROC && forall p :: 0 <= p < NPROC ==> t.proc[p].state == RUNNABLE && t.proc[p].queue == l
  }

  predicate SomeLevelFull(t: Table)
  {
    exists l :: 0 <= l < LEVELS && FullLevel(t, l)
  }

  function SetState(t: Table, p: nat, s: ProcState): (t': Table)
    requires p < |t.proc|
  {
    t.(proc := t.proc[p := t.proc[p].(state := s)])
  }

  lemma SameRings(t: Table, t': Table, l: nat)
    requires WfTable(t) && l < LEVELS && t'.head == t.head && t'.tail == t.tail && t'.slots == t.slots
             && |t'.proc| == NPROC
    ensures WfTable(t') && Entries(t', l) == Entries(t, l)
  {}

  /** A process that is not RUNNABLE becomes RUNNABLE; it is pending until it is enqueued. */
  lemma MakePending(t: Table, p: nat)
    requires Consistent(t, {}) && p < NPROC && t.proc[p].state != RUNNABLE
    ensures Consistent(SetState(t, p, RUNNABLE), {p})
  {
    hide Entries;
    var t' := SetState(t, p, RUNNABLE);
    forall l | 0 <= l < LEVELS ensures Entries(t', l) == Entries(t, l) { SameRings(t, t', l); }
    forall l | 0 <= l < LEVELS ensures RingOk(t', l, {p}) { assert RingOk(t, l, {}); }
  }

  /** A process that is not RUNNABLE changes to another such state. */
  lemma ChangeIdle(t: Table, p: nat, q: Proc)
    requires Consistent(t, {}) && p < NPROC && t.proc[p].state != RUNNABLE && q.state != RUNNABLE && q.queue < LEVELS
    ensures Consistent(t.(proc := t.proc[p := q]), {})
  {
    hide Entries;
    var t' := t.(proc := t.proc[p := q]);
    forall l | 0 <= l < LEVELS ensures Entries(t', l) == Entries(t, l) { SameRings(t, t', l); }
    forall l | 0 <= l < LEVELS ensures RingOk(t', l, {}) { assert RingOk(t, l, {}); }
  }

  /** A consistent table never has a full level: the ring could not show all its processes. */
  lemma ConsistentNotFull(t: Table)
    requires Consistent(t, {})
    ensures !SomeLevelFull(t)
  {
    hide Entries;
    if l :| 0 <= l < LEVELS && FullLevel(t, l) {
      var es := Entries(t, l);
      assert RingOk(t, l, {});
      DistinctCard(es);
      assert Range(NPROC) <= Elems(es) by {
        forall p | p in Range(NPROC) ensures p in es { assert t.proc[p].queue == l; }
      }
      SubsetCard(Range(NPROC), Elems(es));
    }
  }

  /** Enqueueing the pending process at a level that has room. */
  lemma EnqueueRoom(t: Table, l: nat, p: nat)
    requires Consistent(t, {p}) && l < LEVELS && p < NPROC && t.proc[p].state == RUNNABLE
    requires |Entries(t, l)| < NPROC - 1
    ensures Consistent(Enqueue(t, l, p), {})
  {
    hide Entries;
    EnqueueEntries(t, l, p);
    var t' := Enqueue(t, l, p);
    forall m | 0 <= m < LEVELS ensures RingOk(t', m, {}) { assert RingOk(t, m, {p}); }
    forall q | 0 <= q < NPROC && t'.proc[q].state == RUNNABLE ensures q in Entries(t', t'.proc[q].queue) {
      if q != p { assert q in Entries(t, t.proc[q].queue); }
    }
  }

  /** Without room every process is RUNNABLE at that level, and the pending one is lost. */
  lemma EnqueueNoRoom(t: Table, l: nat, p: nat)
    requires Consistent(t, {p}) && l < LEVELS && p < NPROC && t.proc[p].state == RUNNABLE
    requires |Entries(t, l)| == NPROC - 1
    ensures FullLevel(Enqueue(t, l, p), l)
  {
    hide Entries;
    var es := Entries(t, l) + [p];
    assert RingOk(t, l, {p});
    assert Distinct(es) && Below(es, NPROC);
    Covers(es, NPROC);
    forall q | 0 <= q < NPROC ensures Enqueue(t, l, p).proc[q].state == RUNNABLE
      && Enqueue(t, l, p).proc[q].queue == l
    {
      assert q in es;
    }
  }

  /** Exactly when an enqueue keeps the run queues consistent. */
  lemma EnqueueExactly(t: Table, l: nat, p: nat)
    requires Consistent(t, {p}) && l < LEVELS && p < NPROC && t.proc[p].state == RUNNABLE
    ensures Consistent(Enqueue(t, l, p), {}) <==> !FullLevel(Enqueue(t, l, p), l)
    ensures Consistent(Enqueue(t, l, p), {}) <==> |Entries(t, l)| < NPROC - 1
  {
    hide Entries, Enqueue, RingOk;
    var t' := Enqueue(t, l, p);
    if |Entries(t, l)| < NPROC - 1 {
      EnqueueRoom(t, l, p);
      ConsistentNotFull(t');
      assert !FullLevel(t', l);
    } else {
      EnqueueNoRoom(t, l, p);
      if Consistent(t', {}) { ConsistentNotFull(t'); }
    }
  }

  // ---- wakeup1 and kill ----

  predicate SleepsOn(q: Proc, chan: nat)
  {
    q.state == SLEEPING && q.chan == chan
  }

  /** Process p becomes RUNNABLE and joins the ring of its own level. */
  function Wake(t: Table, p: nat): (t': Table)
    requires WfTable(t) && p < NPROC && t.proc[p].queue < LEVELS
    ensures WfTable(t')
  {
    Enqueue(SetState(t, p, RUNNABLE), t.proc[p].queue, p)
  }

  predicate WfLevels(t: Table)
  {
    WfTable(t) && forall p :: 0 <= p < NPROC ==> t.proc[p].queue < LEVELS
  }

  /** wakeup1's scan of the process table from index i on. */
  function WakeFrom(t: Table, chan: nat, i: nat): (t': Table)
    requires WfLevels(t) && i <= NPROC
    ensures WfLevels(t')
    decreases NPROC - i
  {
    if i == NPROC then t
    else WakeFrom(if SleepsOn(t.proc[i], chan) then Wake(t, i) else t, chan, i + 1)
  }

  lemma WakeExactly(t: Table, p: nat)
    requires Consistent(t, {}) && p < NPROC && t.proc[p].state != RUNNABLE
    ensures Consistent(Wake(t, p), {}) <==> !FullLevel(Wake(t, p), t.proc[p].queue)
  {
    hide Entries, Enqueue, RingOk;
    MakePending(t, p);
    EnqueueExactly(SetState(t, p, RUNNABLE), t.proc[p].queue, p);
  }

  /** What wakeup leaves of each process: sleepers on chan from i on become RUNNABLE, nothing else changes. */
  lemma {:induction false} WakeProcs(t: Table, chan: nat, i: nat)
    requires WfLevels(t) && i <= NPROC
    ensures forall p :: 0 <= p < NPROC ==>
              WakeFrom(t, chan, i).proc[p] == if p >= i && SleepsOn(t.proc[p], chan) then t.proc[p].(state := RUNNABLE)
                  else t.proc[p]
    decreases NPROC - i
  {
    if i < NPROC {
      WakeProcs(if SleepsOn(t.proc[i], chan) then Wake(t, i) else t, chan, i + 1);
    }
  }

  /** wakeup keeps the run queues consistent exactly when it does not make all processes RUNNABLE at one level. */
  lemma {:induction false} WakeupExactly(t: Table, chan: nat, i: nat)
    requires Consistent(t, {}) && i <= NPROC
    ensures Consistent(WakeFrom(t, chan, i), {}) <==> !SomeLevelFull(WakeFrom(t, chan, i))
    decreases NPROC - i
  {
    hide Entries, Enqueue, RingOk, Wake;
    if i == NPROC {
      ConsistentNotFull(t);
    } else if SleepsOn(t.proc[i], chan) {
      WakeExactly(t, i);
      var t1 := Wake(t, i);
      if Consistent(t1, {}) {
        WakeupExactly(t1, chan, i + 1);
      } else {
        WakeProcs(t1, chan, i + 1);
        assert FullLevel(WakeFrom(t, chan, i), t.proc[i].queue);
        if Consistent(WakeFrom(t, chan, i), {}) { ConsistentNotFull(WakeFrom(t, chan, i)); }
      }
    } else {
      WakeupExactly(t, chan, i + 1);
    }
  }

  /** Every process is at level l, and RUNNABLE or about to be woken from chan. */
  predicate WakeFills(t: Table, chan: nat, l: nat)
  {
    |t.proc| == NPROC && forall p :: 0 <= p < NPROC ==>
      t.proc[p].queue == l && (t.proc[p].state == RUNNABLE || SleepsOn(t.proc[p], chan))
  }

  /** The same, told from the state before the call. */
  lemma WakeupFits(t: Table, chan: nat)
    requires Consistent(t, {})
    ensures Consistent(WakeFrom(t, chan, 0), {}) <==> forall l :: 0 <= l < LEVELS ==> !WakeFills(t, chan, l)
  {
    hide Entries, RingOk, WakeFrom;
    WakeupExactly(t, chan, 0);
    WakeProcs(t, chan, 0);
    forall l | 0 <= l < LEVELS ensures FullLevel(WakeFrom(t, chan, 0), l) <==> WakeFills(t, chan, l) {
      if FullLevel(WakeFrom(t, chan, 0), l) {
        forall p | 0 <= p < NPROC ensures t.proc[p].queue == l
          && (t.proc[p].state == RUNNABLE || SleepsOn(t.proc[p], chan))
        {
          assert WakeFrom(t, chan, 0).proc[p].queue == l;
        }
      }
    }
  }

  /** The processes that wakeup makes RUNNABLE at level l, in table order. */
  function Woken(t: Table, chan: nat, l: nat, i: nat): (ps: seq<nat>)
    requires |t.proc| == NPROC && i <= NPROC
    decreases NPROC - i
  {
    if i == NPROC then []
    else (if SleepsOn(t.proc[i], chan) && t.proc[i].queue == l then [i] else []) + Woken(t, chan, l, i + 1)
  }

  lemma {:induction false} WokenSame(t: Table, t': Table, chan: nat, l: nat, i: nat)
    requires |t.proc| == |t'.proc| == NPROC && i <= NPROC && forall p :: i <= p < NPROC ==> t'.proc[p] == t.proc[p]
    ensures Woken(t', chan, l, i) == Woken(t, chan, l, i)
    decreases NPROC - i
  {
    if i < NPROC { WokenSame(t, t', chan, l, i + 1); }
  }

  /** wakeup appends the processes it wakes to the tail of their own level, in table order. */
  lemma {:induction false} WakeupOrder(t: Table, chan: nat, i: nat, l: nat)
    requires Consistent(t, {}) && i <= NPROC && l < LEVELS && Consistent(WakeFrom(t, chan, i), {})
    ensures Entries(WakeFrom(t, chan, i), l) == Entries(t, l) + Woken(t, chan, l, i)
    decreases NPROC - i
  {
    hide RingOk, Entries;
    if i < NPROC {
      if SleepsOn(t.proc[i], chan) {
        var t0, t1 := SetState(t, i, RUNNABLE), Wake(t, i);
        WakeExactly(t, i);
        if !Consistent(t1, {}) {
          WakeProcs(t1, chan, i + 1);
          assert FullLevel(WakeFrom(t, chan, i), t.proc[i].queue);
          ConsistentNotFull(WakeFrom(t, chan, i));
          assert false;
        }
        WokenSame(t, t1, chan, l, i + 1);
        WakeupOrder(t1, chan, i + 1, l);
        WakeEntries(t, i, l);
      } else {
        WakeupOrder(t, chan, i + 1, l);
      }
    }
  }

  lemma WakeEntries(t: Table, p: nat, l: nat)
    requires Consistent(t, {}) && p < NPROC && l < LEVELS && t.proc[p].state != RUNNABLE && Consistent(Wake(t, p), {})
    ensures Entries(Wake(t, p), l) == if l == t.proc[p].queue then Entries(t, l) + [p] else Entries(t, l)
  {
    var t0 := SetState(t, p, RUNNABLE);
    SameRings(t, t0, l);
    EnqueueEntries(t0, t.proc[p].queue, p);
    if |Entries(t0, t.proc[p].queue)| == NPROC - 1 {
      MakePending(t, p);
      EnqueueNoRoom(t0, t.proc[p].queue, p);
      ConsistentNotFull(Wake(t, p));
      assert false;
    }
  }

  /** kill's scan for the process with the given pid. */
  function FindPid(t: Table, pid: nat, i: nat): (p: nat)
    requires i <= |t.proc|
    ensures i <= p <= |t.proc|
    ensures p < |t.proc| ==> t.proc[p].pid == pid
    ensures forall q :: i <= q < p ==> t.proc[q].pid != pid
    decreases |t.proc| - i
  {
    if i == |t.proc| || t.proc[i].pid == pid then i else FindPid(t, pid, i + 1)
  }

  function MarkKilled(t: Table, p: nat): (t': Table)
    requires p < |t.proc|
  {
    t.(proc := t.proc[p := t.proc[p].(killed := true)])
  }

  function Kill(t: Table, pid: nat): (t': Table)
    requires WfLevels(t)
  {
    var p := FindPid(t, pid, 0);
    if p == NPROC then t
    else if t.proc[p].state == SLEEPING then Wake(MarkKilled(t, p), p)
    else MarkKilled(t, p)
  }

  /** Process p is the one kill means: the first with that pid. */
  ghost predicate Target(t: Table, pid: nat, p: nat)
  {
    p < |t.proc| && t.proc[p].pid == pid && forall q :: 0 <= q < p ==> t.proc[q].pid != pid
  }

  /** What kill leaves of each process: its target is marked, and RUNNABLE if it slept; nothing else changes. */
  lemma KillProcs(t: Table, pid: nat)
    requires WfLevels(t)
    ensures WfLevels(Kill(t, pid))
    ensures forall p: nat :: p < NPROC && Target(t, pid, p) ==>
              Kill(t, pid).proc[p] ==
              t.proc[p].(killed := true, state := if t.proc[p].state == SLEEPING then RUNNABLE else t.proc[p].state)
    ensures forall p: nat :: p < NPROC && !Target(t, pid, p) ==> Kill(t, pid).proc[p] == t.proc[p]
  {
    hide Entries;
    var k := FindPid(t, pid, 0);
    assert k < NPROC ==> Target(t, pid, k);
    forall p: nat | p < NPROC && Target(t, pid, p) ensures p == k {}
  }

  /** A sleeper that kill wakes joins the tail of its own level; no other ring changes. */
  lemma KillRings(t: Table, pid: nat, l: nat)
    requires Consistent(t, {}) && Consistent(Kill(t, pid), {}) && l < LEVELS
    ensures forall p: nat :: Target(t, pid, p) && t.proc[p].state == SLEEPING && t.proc[p].queue == l ==>
              Entries(Kill(t, pid), l) == Entries(t, l) + [p]
    ensures (forall p: nat :: Target(t, pid, p) ==> t.proc[p].state != SLEEPING || t.proc[p].queue != l) ==>
              Entries(Kill(t, pid), l) == Entries(t, l)
  {
    hide Entries, RingOk, Enqueue;
    var k := FindPid(t, pid, 0);
    assert k < NPROC ==> Target(t, pid, k);
    forall p: nat | Target(t, pid, p) ensures p == k {}
    if k < NPROC {
      SameRings(t, MarkKilled(t, k), l);
      MarkKilledConsistent(t, k);
      if t.proc[k].state == SLEEPING { WakeEntries(MarkKilled(t, k), k, l); }
    }
  }

  lemma MarkKilledConsistent(t: Table, p: nat)
    requires Consistent(t, {}) && p < NPROC
    ensures Consistent(MarkKilled(t, p), {})
  {
    hide Entries;
    var t' := MarkKilled(t, p);
    forall l | 0 <= l < LEVELS ensures Entries(t', l) == Entries(t, l) { SameRings(t, t', l); }
    forall l | 0 <= l < LEVELS ensures RingOk(t', l, {}) { assert RingOk(t, l, {}); }
  }

  lemma KillExactly(t: Table, pid: nat)
    requires Consistent(t, {})
    ensures Consistent(Kill(t, pid), {}) <==> !SomeLevelFull(Kill(t, pid))
  {
    hide Entries, RingOk, Enqueue;
    var p := FindPid(t, pid, 0);
    if p == NPROC {
      ConsistentNotFull(t);
    } else {
      MarkKilledConsistent(t, p);
      if t.proc[p].state == SLEEPING {
        WakeExactly(MarkKilled(t, p), p);
      }
      if Consistent(Kill(t, pid), {}) { ConsistentNotFull(Kill(t, pid)); }
    }
  }

  /** Every process is at level l and RUNNABLE, but for the sleeper that kill is about to wake. */
  predicate KillFills(t: Table, pid: nat, l: nat)
  {
    && |t.proc| == NPROC
    && var k := FindPid(t, pid, 0);
       forall p :: 0 <= p < NPROC ==>
         t.proc[p].queue == l && (t.proc[p].state == RUNNABLE || (p == k && t.proc[p].state == SLEEPING))
  }

  lemma KillFits(t: Table, pid: nat)
    requires Consistent(t, {})
    ensures Consistent(Kill(t, pid), {}) <==> forall l :: 0 <= l < LEVELS ==> !KillFills(t, pid, l)
  {
    hide Entries, RingOk;
    KillExactly(t, pid);
    var k := FindPid(t, pid, 0);
    var t' := Kill(t, pid);
    forall p | 0 <= p < NPROC ensures t'.proc[p].queue == t.proc[p].queue
                 && (t'.proc[p].state == if p == k && t.proc[p].state == SLEEPING then RUNNABLE else t.proc[p].state) {}
    hide Consistent, Kill, FindPid;
    forall l | 0 <= l < LEVELS ensures FullLevel(t', l) <==> KillFills(t, pid, l) {
      if FullLevel(t', l) {
        forall p | 0 <= p < NPROC ensures t.proc[p].queue == l
          && (t.proc[p].state == RUNNABLE || (p == k && t.proc[p].state == SLEEPING))
        {
          assert t'.proc[p].queue == l;
        }
      }
    }
  }

  // ---- dispatch and time slices ----

  function Slice(l: nat): (n: nat)
    requires l < LEVELS
    ensures n >= 1
  {
    [1, 2, 4, 8, 16][l]
  }

  /** The lowest-numbered nonempty level from l on, LEVELS if there is none. */
  function FirstLevel(t: Table, l: nat): (m: nat)
    requires WfTable(t) && l <= LEVELS
    ensures l <= m <= LEVELS
    ensures m < LEVELS ==> Entries(t, m) != []
    ensures forall k :: l <= k < m ==> Entries(t, k) == []
    decreases LEVELS - l
  {
    if l == LEVELS || Entries(t, l) != [] then l else FirstLevel(t, l + 1)
  }

  /** With consistent rings the scan finds the head of the lowest-numbered nonempty level. */
  lemma {:induction false} PickIsHead(t: Table, l: nat)
    requires Consistent(t, {}) && l <= LEVELS
    ensures Pick(t, l) == if FirstLevel(t, l) < LEVELS then Entries(t, FirstLevel(t, l))[0] else NONE
    decreases LEVELS - l
  {
    hide Entries;
    if l < LEVELS {
      assert RingOk(t, l, {});
      if Entries(t, l) == [] { PickIsHead(t, l + 1); }
    }
  }

  /** Taking the head of level m to run it. */
  function RunHead(t: Table, m: nat): (t': Table)
    requires WfTable(t) && m < LEVELS && Entries(t, m) != [] && Entries(t, m)[0] < NPROC
  {
    var p := Entries(t, m)[0];
    var t1 := Dequeue(t, m);
    t1.(proc := t1.proc[p := t1.proc[p].(state := RUNNING, numRun := t1.proc[p].numRun + 1)])
  }

  lemma RunHeadEntries(t: Table, m: nat, l: nat)
    requires WfTable(t) && m < LEVELS && Entries(t, m) != [] && Entries(t, m)[0] < NPROC && l < LEVELS
    ensures WfTable(RunHead(t, m)) && Entries(RunHead(t, m), l) == if l == m then Entries(t, l)[1..] else Entries(t, l)
  {
    hide Entries;
    DequeueEntries(t, m);
    SameRings(Dequeue(t, m), RunHead(t, m), l);
  }

  lemma RunHeadConsistent(t: Table, m: nat)
    requires Consistent(t, {}) && m < LEVELS && Entries(t, m) != []
    ensures Entries(t, m)[0] < NPROC && t.proc[Entries(t, m)[0]].state == RUNNABLE
            && t.proc[Entries(t, m)[0]].queue == m
    ensures Consistent(RunHead(t, m), {})
  {
    hide Entries, Dequeue;
    assert RingOk(t, m, {});
    DequeueProc(t, m);
    var es, t' := Entries(t, m), RunHead(t, m);
    forall l | 0 <= l < LEVELS ensures Entries(t', l) == if l == m then es[1..] else Entries(t, l)
    { RunHeadEntries(t, m, l); }
    forall l | 0 <= l < LEVELS ensures RingOk(t', l, {}) { assert RingOk(t, l, {}); }
    forall q | 0 <= q < NPROC && t'.proc[q].state == RUNNABLE ensures q in Entries(t', t'.proc[q].queue) {
      assert q in Entries(t, t.proc[q].queue);
    }
  }

  /** The end of a slice: one level down, to the tail of that ring. */
  function Demoted(l: nat): (m: nat)
    requires l < LEVELS
    ensures m < LEVELS
  {
    if l < LEVELS - 1 then l + 1 else l
  }
}
