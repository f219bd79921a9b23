/** The process table of proc.c, updated in place: the ring operations and the loops that use them. */
module Ptable {
  import opened Rings
  import opened Mlfq
  import opened Ageing

  class Ptable {
    const proc: array<Proc>
    const head: array<nat>   // queue_head[LEVELS]
    const tail: array<nat>   // queue_tail[LEVELS]
    const slots: array<nat>  // queue[LEVELS][NPROC]

    ghost predicate Valid()
      reads this, proc, head, tail, slots
    {
      && head != tail && head != slots && tail != slots
      && WfTable(T())
    }

    ghost function T(): Table
      reads this, proc, head, tail, slots
    {
      Table(proc[..], head[..], tail[..], slots[..])
    }

    constructor ()
      ensures Valid() && fresh(proc) && fresh(head) && fresh(tail) && fresh(slots)
      ensures Consistent(T(), {}) && forall p :: 0 <= p < NPROC ==> proc[p].state == UNUSED
    {
      proc := new Proc[NPROC](_ => Proc(UNUSED, 0, 0, 0, false, 0, 0, 0));
      head := new nat[LEVELS](_ => 0);
      tail := new nat[LEVELS](_ => 0);
      slots := new nat[LEVELS * NPROC](_ => NONE);
      new;
      forall l | 0 <= l < LEVELS ensures RingOk(T(), l, {}) { assert Entries(T(), l) == []; }
    }

    method Enqueue(l: nat, p: nat)
      requires Valid() && l < LEVELS && p < NPROC
      modifies proc, tail, slots
      ensures Valid() && T() == Rings.Enqueue(old(T()), l, p)
    {
      var end := tail[l];
      slots[l * NPROC + end] := p;
      proc[p] := proc[p].(queue := l);
      tail[l] := (tail[l] + 1) % NPROC;
      assert T() == Rings.Enqueue(old(T()), l, p);
    }

    method Dequeue(l: nat)
      requires Valid() && l < LEVELS
      modifies head
      ensures Valid() && T() == Rings.Dequeue(old(T()), l)
    {
      head[l] := (head[l] + 1) % NPROC;
      assert T() == Rings.Dequeue(old(T()), l);
    }

    /** Process p becomes RUNNABLE and joins the ring of its own level. */
    method WakeOne(p: nat)
      requires Valid() && p < NPROC && proc[p].queue < LEVELS
      modifies proc, tail, slots
      ensures Valid() && T() == Wake(old(T()), p)
    {
      proc[p] := proc[p].(state := RUNNABLE);
      assert T() == SetState(old(T()), p, RUNNABLE);
      Enqueue(proc[p].queue, p);
    }

    /** One iteration of wakeup1. */
    method WakeIf(p: nat, chan: nat)
      requires Valid() && WfLevels(T()) && p < NPROC
      modifies proc, tail, slots
      ensures Valid() && WfLevels(T()) && WakeFrom(T(), chan, p + 1) == WakeFrom(old(T()), chan, p)
    {
      hide Rings.Enqueue, Wake;
      ghost var t := T();
      WakeKeepsLevels(t, p);
      if proc[p].state == SLEEPING && proc[p].chan == chan {
        WakeOne(p);
      }
    }

    /** wakeup1 */
    method Wakeup1(chan: nat)
      requires Valid() && WfLevels(T())
      modifies proc, tail, slots
      ensures Valid() && T() == WakeFrom(old(T()), chan, 0)
    {
      hide WfLevels, WfTable;
      var p := 0;
      while p < NPROC
        invariant 0 <= p <= NPROC && Valid() && WfLevels(T())
        invariant WakeFrom(T(), chan, p) == WakeFrom(old(T()), chan, 0)
      {
        WakeIf(p, chan);
        p := p + 1;
      }
    }

    /** kill */
    method KillPid(pid: nat) returns (r: int)
      requires Valid() && WfLevels(T())
      modifies proc, tail, slots
      ensures Valid() && T() == Kill(old(T()), pid)
      ensures r == if FindPid(old(T()), pid, 0) < NPROC then 0 else -1
      ensures forall p: nat :: p < NPROC && Target(old(T()), pid, p) ==> proc[p].killed && proc[p].state != SLEEPING
    {
      ghost var t := T();
      KillProcs(t, pid);
      var p := 0;
      while p < NPROC
        invariant 0 <= p <= NPROC && Valid() && T() == t
        invariant FindPid(t, pid, p) == FindPid(t, pid, 0)
      {
        if proc[p].pid == pid {
          proc[p] := proc[p].(killed := true);
          assert T() == MarkKilled(t, p);
          if proc[p].state == SLEEPING {
            WakeOne(p);
          }
          return 0;
        }
        p := p + 1;
      }
      return -1;
    }

    /** The scheduler's scan for the next process: NONE if it finds none. */
    method PickNext() returns (p: nat)
      requires Valid()
      ensures p == Pick(T(), 0)
    {
      hide Entries;
      p := NONE;
      var priority := 0;
      while priority < LEVELS
        invariant 0 <= priority <= LEVELS && p == NONE
        invariant Pick(T(), priority) == Pick(T(), 0)
      {
        ghost var k, es := 0, Entries(T(), priority);
        var i := head[priority];
        ScanIndex(T(), priority, 0);
        while i != tail[priority]
          invariant 0 <= k <= |es| && i == (head[priority] + k) % NPROC && p == NONE
          invariant i == tail[priority] <==> k == |es|
          invariant FirstSet(es[k..]) == FirstSet(es)
          decreases |es| - k
        {
          ScanIndex(T(), priority, k);
          ScanIndex(T(), priority, k + 1);
          if slots[priority * NPROC + i] != NONE {
            p := slots[priority * NPROC + i];
            break;
          }
          i := (i + 1) % NPROC;
          k := k + 1;
        }
        if p != NONE {
          break;
        }
        priority := priority + 1;
      }
    }

    /** The body of the ageing scan for the entry p of ring l. */
    method AgeEntry(l: nat, p: nat, ticks: int, ghost rest: seq<nat>)
      requires Valid() && 1 <= l < LEVELS && WfLevels(T()) && AtLevel(T(), l, [p] + rest)
      modifies proc, head, tail, slots
      ensures Valid() && WfLevels(T()) && AtLevel(T(), l, rest)
      ensures AgeScan(T(), l, rest, ticks) == AgeScan(old(T()), l, [p] + rest, ticks)
      ensures tail[l] == old(tail[l]) && SameSlots(old(T()), T(), l)
    {
      hide Rings.Enqueue, Rings.Dequeue;
      ghost var t := T();
      assert ([p] + rest)[0] == p && ([p] + rest)[1..] == rest;
      forall i | 0 <= i < |rest| ensures ([p] + rest)[i + 1] == rest[i] {}
      assert AtLevel(t, l, rest);
      if ticks - proc[p].lastExecuted > AGEING {
        Dequeue(l);
        DequeueProc(t, l);
        Enqueue(proc[p].queue - 1, p);
        MoveFrame(t, l, p, rest);
      }
    }

    /** The ageing scan of one level: each aged entry pops the head and is appended one level up. */
    method AgeOne(l: nat, ticks: int)
      requires Valid() && 1 <= l < LEVELS && LevelsOk(T(), l)
      modifies proc, head, tail, slots
      ensures Valid() && T() == AgeLevel(old(T()), l, ticks)
    {
      hide Entries, AtLevel, AgeScan;
      ghost var t0 := T();
      ghost var es, k := Entries(t0, l), 0;
      var i := head[l];
      ScanIndex(t0, l, 0);
      assert es[0..] == es;
      while i != tail[l]
        invariant 0 <= k <= |es| && i == (t0.head[l] + k) % NPROC && Valid() && WfLevels(T())
        invariant i == tail[l] <==> k == |es|
        invariant tail[l] == t0.tail[l] && SameSlots(t0, T(), l)
        invariant AtLevel(T(), l, es[k..]) && AgeScan(T(), l, es[k..], ticks) == AgeScan(t0, l, es, ticks)
        decreases |es| - k
      {
        ScanIndex(t0, l, k);
        ScanIndex(t0, l, k + 1);
        var p := slots[l * NPROC + i];
        assert p == es[k] && es[k..] == [p] + es[k + 1..];
        AgeEntry(l, p, ticks, es[k + 1..]);
        i := (i + 1) % NPROC;
        k := k + 1;
      }
      assert es[k..] == [];
      ScanNothing(T(), l, ticks);
    }

    /** The ageing pass. */
    method AgeAll(ticks: int)
      requires Valid() && LevelsOk(T(), 1)
      modifies proc, head, tail, slots
      ensures Valid() && T() == AgeFrom(old(T()), 1, ticks)
    {
      hide Entries, AgeScan;
      var l := 1;
      while l < LEVELS
        invariant 1 <= l <= LEVELS && Valid() && LevelsOk(T(), l)
        invariant AgeFrom(T(), l, ticks) == AgeFrom(old(T()), 1, ticks)
      {
        AgeLevelKeeps(T(), l, ticks);
        AgeOne(l, ticks);
        l := l + 1;
      }
    }
  }

  /** The slots of ring l are untouched. */
  predicate SameSlots(t: Table, t': Table, l: nat)
    requires WfTable(t) && WfTable(t') && l < LEVELS
  {
    forall k :: l * NPROC <= k < (l + 1) * NPROC ==> t'.slots[k] == t.slots[k]
  }

  lemma ScanNothing(t: Table, l: nat, ticks: int)
    requires WfLevels(t) && 1 <= l < LEVELS
    ensures AtLevel(t, l, []) && AgeScan(t, l, [], ticks) == t
  {}

  lemma MoveFrame(t: Table, l: nat, p: nat, rest: seq<nat>)
    requires WfLevels(t) && 1 <= l < LEVELS && p < NPROC && t.proc[p].queue == l
    requires AtLevel(t, l, rest) && p !in rest
    ensures var t' := Enqueue(Dequeue(t, l), t.proc[p].queue - 1, p);
            WfLevels(t') && t'.tail[l] == t.tail[l] && SameSlots(t, t', l) && AtLevel(t', l, rest)
  {}

  lemma WakeKeepsLevels(t: Table, p: nat)
    requires WfLevels(t) && p < NPROC
    ensures WfLevels(Wake(t, p))
  {}
}
