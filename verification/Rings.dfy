/**
  The five ring queues of proc.c: queue_head, queue_tail and queue[5][NPROC], with
  head == tail meaning empty, as a value.  Slots hold process indices, NONE for null.
 */
module Rings {
  const NPROC: nat := 64
  const LEVELS: nat := 5
  const NONE: nat := NPROC

  datatype ProcState = UNUSED | EMBRYO | SLEEPING | RUNNABLE | RUNNING | ZOMBIE

  datatype Proc = Proc(state: ProcState, pid: nat, queue: nat, chan: nat, killed: bool,
                       lastExecuted: int, numRun: nat, priority: int)

  datatype Table = Table(proc: seq<Proc>, head: seq<nat>, tail: seq<nat>, slots: seq<nat>)

  predicate WfTable(t: Table)
  {
    && |t.proc| == NPROC && |t.head| == |t.tail| == LEVELS && |t.slots| == LEVELS * NPROC
    && forall l :: 0 <= l < LEVELS ==> t.head[l] < NPROC && t.tail[l] < NPROC
  }

  function Count(h: nat, e: nat): (n: nat)
    requires h < NPROC && e < NPROC
    ensures n < NPROC
  {
    if h <= e then e - h else e + NPROC - h
  }

  function Slot(l: nat, h: nat, i: nat): (k: nat)
    requires l < LEVELS && h < NPROC && i < NPROC
    ensures l * NPROC <= k < (l + 1) * NPROC
  {
    l * NPROC + (h + i) % NPROC
  }

  /** The entries of ring l from head to tail. */
  function Entries(t: Table, l: nat): (es: seq<nat>)
    requires WfTable(t) && l < LEVELS
    ensures |es| == Count(t.head[l], t.tail[l])
  {
    seq(Count(t.head[l], t.tail[l]), i requires 0 <= i < Count(t.head[l], t.tail[l]) => t.slots[Slot(l, t.head[l], i)])
  }

  /** enqueue(l, p) */
  function Enqueue(t: Table, l: nat, p: nat): (t': Table)
    requires WfTable(t) && l < LEVELS && p < NPROC
    ensures WfTable(t')
  {
    t.(slots := t.slots[l * NPROC + t.tail[l] := p],
       proc := t.proc[p := t.proc[p].(queue := l)],
       tail := t.tail[l := (t.tail[l] + 1) % NPROC])
  }

  /** dequeue(l) */
  function Dequeue(t: Table, l: nat): (t': Table)
    requires WfTable(t) && l < LEVELS
    ensures WfTable(t')
  {
    t.(head := t.head[l := (t.head[l] + 1) % NPROC])
  }

  lemma DequeueProc(t: Table, l: nat)
    requires WfTable(t) && l < LEVELS
    ensures Dequeue(t, l).proc == t.proc
  {}

  /** A ring depends only on its own head, tail and slots. */
  lemma RingFrame(t: Table, t': Table, l: nat)
    requires WfTable(t) && WfTable(t') && l < LEVELS && t'.head[l] == t.head[l] && t'.tail[l] == t.tail[l]
    requires forall k :: l * NPROC <= k < (l + 1) * NPROC ==> t'.slots[k] == t.slots[k]
    ensures Entries(t', l) == Entries(t, l)
  {}

  /** Positions up to the tail, with wrap-around. */
  lemma WrapTail(h: nat, e: nat, i: nat)
    requires h < NPROC && e < NPROC && i <= Count(h, e)
    ensures (h + i) % NPROC == e <==> i == Count(h, e)
    ensures Count(h, e) < NPROC - 1 ==> Count(h, (e + 1) % NPROC) == Count(h, e) + 1
    ensures Count(h, e) == NPROC - 1 ==> Count(h, (e + 1) % NPROC) == 0
    ensures Count(h, e) > 0 ==> Count((h + 1) % NPROC, e) == Count(h, e) - 1
  {}

  lemma WrapNext(h: nat, i: nat)
    requires h < NPROC && i < NPROC - 1
    ensures ((h + 1) % NPROC + i) % NPROC == (h + (i + 1)) % NPROC
  {
    if h + 1 < NPROC {
      assert (h + 1) % NPROC == h + 1;
    } else {
      assert (h + 1) % NPROC == 0 && (h + (i + 1)) % NPROC == i;
    }
  }

  /** enqueue appends while fewer than NPROC-1 entries are queued; one more makes the whole ring look empty. */
  lemma EnqueueEntries(t: Table, l: nat, p: nat)
    requires WfTable(t) && l < LEVELS && p < NPROC
    ensures Entries(Enqueue(t, l, p), l) == if |Entries(t, l)| < NPROC - 1 then Entries(t, l) + [p] else []
    ensures forall m :: 0 <= m < LEVELS && m != l ==> Entries(Enqueue(t, l, p), m) == Entries(t, m)
  {
    hide Count;
    var t' := Enqueue(t, l, p);
    var h, e := t.head[l], t.tail[l];
    var es, es' := Entries(t, l) + [p], Entries(t', l);
    WrapTail(h, e, 0);
    if |Entries(t, l)| < NPROC - 1 {
      forall i | 0 <= i < |es| ensures es'[i] == es[i] {
        WrapTail(h, e, i);
      }
    }
    forall m | 0 <= m < LEVELS && m != l ensures Entries(t', m) == Entries(t, m) { RingFrame(t, t', m); }
  }

  lemma DequeueEntries(t: Table, l: nat)
    requires WfTable(t) && l < LEVELS && Entries(t, l) != []
    ensures Entries(Dequeue(t, l), l) == Entries(t, l)[1..]
    ensures forall m :: 0 <= m < LEVELS && m != l ==> Entries(Dequeue(t, l), m) == Entries(t, m)
  {
    hide Count;
    var t' := Dequeue(t, l);
    WrapTail(t.head[l], t.tail[l], 0);
    var es, es' := Entries(t, l)[1..], Entries(t', l);
    forall i | 0 <= i < |es'| ensures es'[i] == es[i] {
      WrapNext(t.head[l], i);
    }
    forall m | 0 <= m < LEVELS && m != l ensures Entries(t', m) == Entries(t, m) { RingFrame(t, t', m); }
  }

  /** Scanning a ring: position k is past the end exactly when its index is the tail. */
  lemma ScanIndex(t: Table, l: nat, k: nat)
    requires WfTable(t) && l < LEVELS && k <= |Entries(t, l)|
    ensures (t.head[l] + k) % NPROC == t.tail[l] <==> k == |Entries(t, l)|
    ensures k < |Entries(t, l)| ==> Entries(t, l)[k] == t.slots[l * NPROC + (t.head[l] + k) % NPROC]
    ensures ((t.head[l] + k) % NPROC + 1) % NPROC == (t.head[l] + (k + 1)) % NPROC
  {
    hide Count;
    WrapTail(t.head[l], t.tail[l], k);
    WrapStep(t.head[l] + k);
  }

  lemma WrapStep(x: nat)
    ensures (x % NPROC + 1) % NPROC == (x + 1) % NPROC
  {}

  function FirstSet(es: seq<nat>): (p: nat)
  {
    if es == [] then NONE else if es[0] != NONE then es[0] else FirstSet(es[1..])
  }

  /** The first process found scanning the rings from level l on, NONE if there is none. */
  function Pick(t: Table, l: nat): (p: nat)
    requires WfTable(t) && l <= LEVELS
    decreases LEVELS - l
  {
    if l == LEVELS then NONE
    else if FirstSet(Entries(t, l)) != NONE then FirstSet(Entries(t, l))
    else Pick(t, l + 1)
  }
}
