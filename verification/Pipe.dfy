/**
  The pipe of pipe.c: a ring of PIPESIZE bytes indexed by two free-running 32-bit counters.
  A method is one stretch under p->lock, from an acquire or a return of sleep to the next
  sleep or release, so any interleaving of readers and writers is a sequence of calls.
 */
module Pipe {
  import opened Blocks

  const PIPESIZE: nat := 512
  const TWO32: nat := 0x1_0000_0000

  /** Counters modulo m index a ring of size n consistently exactly when n divides m. */
  lemma WrapIndex(m: nat, n: nat)
    requires m > 0 && n > 0
    ensures (forall k: nat :: k % m % n == k % n) <==> m % n == 0
  {
    if m % n == 0 {
      forall k: nat ensures k % m % n == k % n { WrapAt(m, n, k); }
    }
    if forall k: nat :: k % m % n == k % n {
      assert m % m == 0;
      assert m % m % n == m % n;
    }
  }

  lemma WrapAt(m: nat, n: nat, k: nat)
    requires m > 0 && n > 0 && m % n == 0
    ensures k % m % n == k % n
  {
    var q, r, c := k / m, k % m, m / n;
    var s, t := r / n, r % n;
    Split(k, m);
    Split(m, n);
    Split(r, n);
    Regroup(q, c, n, s);
    Unique(k, n, q * c + s, t);
  }

  lemma Split(k: nat, m: nat)
    requires m > 0
    ensures k == k / m * m + k % m && k % m < m
  {}

  lemma Regroup(q: nat, c: nat, n: nat, s: nat)
    ensures q * (c * n) + s * n == (q * c + s) * n
  {
    assert q * (c * n) == (q * c) * n;
  }

  lemma MulMono(a: nat, b: nat, m: nat)
    ensures a <= b ==> a * m <= b * m
  {}

  lemma Unique(k: nat, m: nat, q: nat, r: nat)
    requires m > 0 && k == q * m + r && r < m
    ensures k % m == r
  {
    var a, b := k / m, k % m;
    assert k == a * m + b;
    MulMono(a + 1, q, m);
    MulMono(q + 1, a, m);
    assert (a + 1) * m == a * m + m && (q + 1) * m == q * m + m;
  }

  /** A 32-bit increment of a counter. */
  lemma Increment(k: nat)
    ensures (k % TWO32 + 1) % TWO32 == (k + 1) % TWO32
  {
    var q, r := k / TWO32, k % TWO32;
    assert k == q * TWO32 + r;
    if r + 1 < TWO32 {
      Unique(k + 1, TWO32, q, r + 1);
    } else {
      Unique(k + 1, TWO32, q + 1, 0);
    }
  }

  datatype WriteResult = Wrote | WriteBlocked(at: nat) | WriteFailed
  datatype ReadResult = Got(bytes: seq<Byte>) | ReadBlocked | ReadFailed

  class Pipe {
    const data: array<Byte>
    var nread: Word32
    var nwrite: Word32
    var readopen: bool
    var writeopen: bool
    var readers: nat                 // processes asleep on nread
    var writers: nat                 // processes asleep on nwrite
    ghost var accepted: seq<Byte>    // every byte pipewrite has stored
    ghost var delivered: seq<Byte>   // every byte piperead has handed out

    /** The bytes delivered so far are those accepted first, and the ring holds the others. */
    ghost predicate Valid()
      reads this, data
    {
      && data.Length == PIPESIZE
      && |delivered| <= |accepted| <= |delivered| + PIPESIZE
      && delivered == accepted[..|delivered|]
      && nread == |delivered| % TWO32 && nwrite == |accepted| % TWO32
      && forall k :: |delivered| <= k < |accepted| ==> data[k % PIPESIZE] == accepted[k]
    }

    ghost function Buffered(): (b: seq<Byte>)
      reads this, data
      requires Valid()
      ensures delivered + b == accepted && |b| <= PIPESIZE
    {
      accepted[|delivered|..]
    }

    /** Whoever sleeps has reason to: readers on an empty pipe, writers on a full one, with the other end open. */
    ghost predicate NoneStranded()
      reads this, data
      requires Valid()
    {
      && (readers > 0 ==> Buffered() == [] && writeopen)
      && (writers > 0 ==> |Buffered()| == PIPESIZE && readopen)
    }

    /** pipealloc */
    constructor ()
      ensures Valid() && fresh(data) && accepted == [] && delivered == [] && readopen && writeopen
      ensures readers == writers == 0
    {
      data := new Byte[PIPESIZE](_ => 0);
      readers, writers := 0, 0;
      nread, nwrite, readopen, writeopen, accepted, delivered := 0, 0, true, true, [], [];
    }

    /** The counter tests see the true occupancy in spite of the wrap-around. */
    lemma CountersExact()
      requires Valid()
      ensures nwrite == (nread + PIPESIZE) % TWO32 <==> |Buffered()| == PIPESIZE
      ensures nread == nwrite <==> Buffered() == []
      ensures nwrite % PIPESIZE == |accepted| % PIPESIZE && nread % PIPESIZE == |delivered| % PIPESIZE
    {
      WrapAt(TWO32, PIPESIZE, |accepted|);
      WrapAt(TWO32, PIPESIZE, |delivered|);
    }

    /** One byte goes in at the write counter, which moves on. */
    method Put(x: Byte)
      requires Valid() && |Buffered()| < PIPESIZE
      modifies this`nwrite, this`accepted, data
      ensures Valid() && accepted == old(accepted) + [x]
    {
      CountersExact();
      ghost var a, d := |accepted|, |delivered|;
      forall k | d <= k < a ensures k % PIPESIZE != a % PIPESIZE { ApartMod(k, a); }
      Increment(a);
      data[nwrite % PIPESIZE] := x;
      nwrite := (nwrite + 1) % TWO32;
      accepted := accepted + [x];
    }

    /** One byte comes out at the read counter, which moves on. */
    method Take() returns (x: Byte)
      requires Valid() && Buffered() != []
      modifies this`nread, this`delivered
      ensures Valid() && delivered == old(delivered) + [x] && x == old(Buffered())[0]
    {
      CountersExact();
      Increment(|delivered|);
      x := data[nread % PIPESIZE];
      nread := (nread + 1) % TWO32;
      delivered := delivered + [x];
    }

    /** pipewrite from byte i on, until it is done, must sleep on a full pipe, or gives up. */
    method WritePass(addr: seq<Byte>, start: nat, killed: bool) returns (r: WriteResult)
      requires Valid() && start <= |addr|
      modifies this`nwrite, this`accepted, this`readers, this`writers, data
      ensures Valid()
      ensures readers == (if r.WriteFailed? then old(readers) else 0)
      ensures writers == old(writers) + (if r.WriteBlocked? then 1 else 0)
      ensures r.Wrote? <==> |addr| - start <= PIPESIZE - |old(Buffered())|
      ensures !r.Wrote? ==> (r.WriteFailed? <==> !readopen || killed)
      ensures old(NoneStranded()) ==>
                (NoneStranded() <==>
                 !(old(readers) > 0 && (!readopen || killed) && |addr| - start > PIPESIZE - |old(Buffered())|))
      ensures match r
              case Wrote => accepted == old(accepted) + addr[start..]
              case WriteBlocked(at) =>
                && start <= at < |addr| && accepted == old(accepted) + addr[start..at]
                && |Buffered()| == PIPESIZE && readopen && !killed
              case WriteFailed =>
                && (!readopen || killed) && |Buffered()| == PIPESIZE
                && exists at :: start <= at < |addr| && accepted == old(accepted) + addr[start..at]
    {
      var i := start;
      while i < |addr|
        invariant start <= i <= |addr| && Valid() && accepted == old(accepted) + addr[start..i]
        invariant readers == old(readers) && writers == old(writers)
      {
        CountersExact();
        if nwrite == (nread + PIPESIZE) % TWO32 {
          if !readopen || killed {
            return WriteFailed;
          }
          readers := 0;
          writers := writers + 1;
          return WriteBlocked(i);
        }
        Put(addr[i]);
        assert addr[start..i + 1] == addr[start..i] + [addr[i]];
        i := i + 1;
      }
      assert addr[start..i] == addr[start..];
      readers := 0;
      return Wrote;
    }

    /** piperead: sleep on an empty pipe that is still open for writing, else copy up to n bytes. */
    method ReadPass(n: nat, killed: bool) returns (r: ReadResult)
      requires Valid()
      modifies this`nread, this`delivered, this`readers, this`writers
      ensures Valid()
      ensures readers == old(readers) + (if r.ReadBlocked? then 1 else 0)
      ensures writers == (if r.Got? then 0 else old(writers))
      ensures old(NoneStranded()) ==> NoneStranded()
      ensures match r
              case Got(bytes) =>
                && (old(Buffered()) != [] || !writeopen)
                && |bytes| == (if n < |old(Buffered())| then n else |old(Buffered())|)
                && bytes == old(Buffered())[..|bytes|]
                && delivered == old(delivered) + bytes
              case ReadBlocked => old(Buffered()) == [] && writeopen && !killed && delivered == old(delivered)
              case ReadFailed => old(Buffered()) == [] && writeopen && killed && delivered == old(delivered)
    {
      CountersExact();
      if nread == nwrite && writeopen {
        if killed {
          return ReadFailed;
        }
        readers := readers + 1;
        return ReadBlocked;
      }
      ghost var b := Buffered();
      var bytes := [];
      while |bytes| < n
        invariant Valid() && |bytes| <= n && |bytes| <= |b| && bytes == b[..|bytes|]
        invariant delivered == old(delivered) + bytes && accepted == old(accepted) && readers == old(readers)
        decreases n - |bytes|
      {
        CountersExact();
        if nread == nwrite {
          break;
        }
        var x := Take();
        bytes := bytes + [x];
      }
      writers := 0;
      return Got(bytes);
    }

    /** pipeclose: true when both ends are closed and the page is freed. */
    method Close(writable: bool) returns (freed: bool)
      requires Valid()
      modifies this`readopen, this`writeopen, this`readers, this`writers
      ensures readers == (if writable then 0 else old(readers)) && writers == (if writable then old(writers) else 0)
      ensures old(NoneStranded()) ==> NoneStranded()
      ensures Valid() && freed == (!readopen && !writeopen)
      ensures writeopen == (old(writeopen) && !writable) && readopen == (old(readopen) && writable)
    {
      if writable {
        writeopen := false;
        readers := 0;
      } else {
        readopen := false;
        writers := 0;
      }
      freed := !readopen && !writeopen;
    }

    /** kill wakes one sleeper. */
    method KillSleeper(reader: bool)
      requires Valid() && (if reader then readers else writers) > 0
      modifies this`readers, this`writers
      ensures Valid() && (old(NoneStranded()) ==> NoneStranded())
      ensures readers == old(readers) - (if reader then 1 else 0) && writers == old(writers) - (if reader then 0 else 1)
    {
      if reader {
        readers := readers - 1;
      } else {
        writers := writers - 1;
      }
    }
  }

  /** A reader waits; a writer that has been killed fills the pipe and gives up without waking it. */
  method ReaderStranded(bytes: seq<Byte>) returns (p: Pipe)
    requires |bytes| > PIPESIZE
    ensures p.Valid() && p.readers == 1 && p.Buffered() == bytes[..PIPESIZE] && p.writeopen && !p.NoneStranded()
  {
    p := new Pipe();
    var r := p.ReadPass(1, false);
    var w := p.WritePass(bytes, 0, true);
    assert bytes[0..] == bytes;
  }

  lemma ApartMod(k: nat, a: nat)
    requires a - PIPESIZE < k < a
    ensures k % PIPESIZE != a % PIPESIZE
  {}
}
