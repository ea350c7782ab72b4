/**
 kernel/pipe.c: a ring of bytes between writers and readers that sleep.  Each
 method is what one process does from acquiring pi->lock until it sleeps or
 returns, so that any interleaving of processes is a sequence of calls.
 */
module Pipe {
  import opened Common
  import opened RingIndex

  const PIPESIZE: nat := 512

  /** How a call goes on: asleep after done bytes, or back with a count, or with -1. */
  datatype Outcome = Sleeps(done: nat) | Returns(count: nat) | Fails(done: nat)

  ghost predicate SlotAt(d: seq<Byte>, put: seq<Byte>, got: seq<Byte>, k: nat)
    requires |d| == PIPESIZE
  {
    |got| <= k < |put| ==> d[Slot(PIPESIZE, k)] == put[k]
  }

  /** First in, first out: what was taken is a prefix of what was put in, and the ring holds the rest. */
  ghost predicate Holds(d: seq<Byte>, nread: nat, nwrite: nat, put: seq<Byte>, got: seq<Byte>) {
    && |d| == PIPESIZE && got <= put && |put| - |got| <= PIPESIZE
    && nread == Counter(UINT_RANGE, |got|) && nwrite == Counter(UINT_RANGE, |put|) && forall k :: SlotAt(d, put, got, k)
  }

  lemma PutKeeps(d: seq<Byte>, nread: nat, nwrite: nat, put: seq<Byte>, got: seq<Byte>, ch: Byte)
    requires Holds(d, nread, nwrite, put, got) && |put| - |got| < PIPESIZE
    ensures Holds(d[Slot(PIPESIZE, nwrite) := ch], nread, Counter(UINT_RANGE, nwrite + 1), put + [ch], got)
  {
    hide Slot, Counter;
    SlotOf(PIPESIZE, 0x80_0000, UINT_RANGE, |put|);
    CounterAdd(UINT_RANGE, |put|, 1);
    var d', put' := d[Slot(PIPESIZE, nwrite) := ch], put + [ch];
    forall k: nat ensures SlotAt(d', put', got, k) {
      if |got| <= k < |put| {
        assert SlotAt(d, put, got, k);
        SlotsDiffer(PIPESIZE, k, |put| - k);
      }
    }
  }

  lemma GetKeeps(d: seq<Byte>, nread: nat, nwrite: nat, put: seq<Byte>, got: seq<Byte>)
    requires Holds(d, nread, nwrite, put, got) && |got| < |put|
    ensures d[Slot(PIPESIZE, nread)] == put[|got|]
    ensures Holds(d, Counter(UINT_RANGE, nread + 1), nwrite, put, got + [put[|got|]])
  {
    hide Slot, Counter;
    SlotOf(PIPESIZE, 0x80_0000, UINT_RANGE, |got|);
    CounterAdd(UINT_RANGE, |got|, 1);
    assert SlotAt(d, put, got, |got|);
    forall k: nat ensures SlotAt(d, put, got + [put[|got|]], k) {
      assert SlotAt(d, put, got, k);
    }
  }

  /** The two tests of the code, on wrapping counters, are the ones it means. */
  lemma Tests(d: seq<Byte>, nread: nat, nwrite: nat, put: seq<Byte>, got: seq<Byte>)
    requires Holds(d, nread, nwrite, put, got)
    ensures got <= put && |put| - |got| <= PIPESIZE
    ensures nwrite == Counter(UINT_RANGE, nread + PIPESIZE) <==> |put| - |got| == PIPESIZE
    ensures nread == nwrite <==> put == got
  {
    CountersTell(UINT_RANGE, |got|, |put| - |got|, PIPESIZE);
    CountersTell(UINT_RANGE, |got|, |put| - |got|, 0);
    CounterAdd(UINT_RANGE, |got|, 0);
  }

  /** The loop of pipewrite: where it stops, given the room, and why. */
  function WriteOutcome(open: bool, room: nat, len: nat, killedAt: nat, faultAt: nat): (r: Outcome) {
    var m := Least(Least(len, killedAt), Least(room, faultAt));
    if len > 0 && !open then Fails(0)
    else if m == len then Returns(len)
    else if m == killedAt then Fails(m)
    else if m == room then Sleeps(m)
    else Returns(m)
  }

  /** A write of len bytes to an empty pipe gets as far as the kill, and that is neither its start nor its end. */
  predicate KilledInside(len: nat, killedAt: nat, faultAt: nat) {
    0 < killedAt < len && killedAt <= faultAt && killedAt <= PIPESIZE
  }

  function Stop(r: Outcome): (i: nat) { if r.Returns? then r.count else r.done }

  class PipeBuffer {
    const data: array<Byte>
    var nread: nat
    var nwrite: nat
    var readopen: bool
    var writeopen: bool
    /** The page of the pipe has been given back. */
    var freed: bool
    /** All bytes ever put in and taken out. */
    ghost var put: seq<Byte>
    ghost var got: seq<Byte>
    /** The processes asleep on &pi->nread and on &pi->nwrite. */
    ghost var readers: set<nat>
    ghost var writers: set<nat>

    ghost predicate Valid()
      reads this, data
    {
      && data.Length == PIPESIZE && Holds(data[..], nread, nwrite, put, got)
      && (freed <==> !readopen && !writeopen)
    }

    /** Writers sleep only on a full pipe that can be read, readers only on an empty one that can be written. */
    ghost predicate Calm()
      reads this
    {
      && (writers != {} ==> |put| - |got| == PIPESIZE && readopen)
      && (readers != {} ==> put == got && writeopen)
    }

    constructor ()
      ensures Valid() && Calm() && put == got == [] && readopen && writeopen && readers == writers == {} && fresh(data)
    {
      data := new Byte[PIPESIZE];
      nread, nwrite, readopen, writeopen, freed := 0, 0, true, true, false;
      put, got, readers, writers := [], [], {}, {};
    }

    /** One byte into the ring. */
    method Put(ch: Byte)
      requires Valid() && |put| - |got| < PIPESIZE
      modifies data, `nwrite, `put
      ensures Valid() && put == old(put) + [ch]
    {
      hide Holds, Slot, Counter;
      PutKeeps(data[..], nread, nwrite, put, got, ch);
      ghost var d := data[..];
      data[Slot(PIPESIZE, nwrite)] := ch;
      assert data[..] == d[Slot(PIPESIZE, nwrite) := ch];
      nwrite := Counter(UINT_RANGE, nwrite + 1);
      put := put + [ch];
    }

    /** One byte out of the ring. */
    method Get() returns (ch: Byte)
      requires Valid() && |got| < |put|
      modifies `nread, `got
      ensures Valid() && ch == put[|old(got)|] && got == old(got) + [ch]
    {
      hide Holds, Slot, Counter;
      GetKeeps(data[..], nread, nwrite, put, got);
      ch := data[Slot(PIPESIZE, nread)];
      nread := Counter(UINT_RANGE, nread + 1);
      got := got + [ch];
    }

    /**
     pipewrite, from acquiring the lock until it sleeps or returns.  killedAt
     and faultAt say before which byte pr->killed is seen or copyin fails.
     */
    method Write(pid: nat, src: seq<Byte>, killedAt: nat, faultAt: nat) returns (r: Outcome)
      requires Valid()
      modifies this, data
      ensures Valid() && got == old(got) && readopen == old(readopen) && writeopen == old(writeopen)
      ensures |old(put)| - |got| <= PIPESIZE && Stop(r) <= |src| && put == old(put) + src[..Stop(r)]
      ensures r == WriteOutcome(readopen, PIPESIZE - (|old(put)| - |got|), |src|, killedAt, faultAt)
      ensures var i := Stop(r);
              && (if readopen then i <= killedAt && i <= faultAt else i == 0)
              && if i == |src| then r == Returns(i)
                 else if !readopen || i == killedAt then r == Fails(i)
                 else if |put| - |got| == PIPESIZE then r == Sleeps(i)
                 else r == Returns(i) && i == faultAt
      ensures readers == if r.Fails? then old(readers) else {}
      ensures writers == if r.Sleeps? then old(writers) + {pid} else old(writers)
    {
      hide Holds, Counter;
      Tests(data[..], nread, nwrite, put, got);
      var i := 0;
      while i < |src|
        invariant 0 <= i <= |src| && Valid() && put == old(put) + src[..i] && got == old(got)
        invariant readers == old(readers) && writers == old(writers) && readopen == old(readopen)
        invariant writeopen == old(writeopen)
        invariant i > 0 ==> readopen && i <= killedAt && i <= faultAt && |put| - |got| <= PIPESIZE
      {
        if !readopen || i == killedAt {
          return Fails(i);
        }
        Tests(data[..], nread, nwrite, put, got);
        if nwrite == Counter(UINT_RANGE, nread + PIPESIZE) {
          readers := {};
          writers := writers + {pid};
          return Sleeps(i);
        }
        if i == faultAt {
          break;
        }
        Put(src[i]);
        i := i + 1;
      }
      readers := {};
      r := Returns(i);
    }

    /** piperead, likewise; a copyout that fails at byte faultAt loses that byte. */
    method Read(pid: nat, n: nat, killed: bool, faultAt: nat) returns (r: Outcome, dst: seq<Byte>)
      requires Valid()
      modifies this
      ensures Valid() && put == old(put) && readopen == old(readopen) && writeopen == old(writeopen)
      ensures old(got) + dst <= got <= put
      ensures if put == old(got) && writeopen
              then r == (if killed then Fails(0) else Sleeps(0)) && got == old(got) && dst == []
              else r == Returns(|dst|) && |dst| == Least(Least(n, faultAt), |put| - |old(got)|)
      ensures r.Returns? && faultAt >= Least(n, |put| - |old(got)|) ==> got == old(got) + dst
      ensures readers == if r.Sleeps? then old(readers) + {pid} else old(readers)
      ensures writers == if r.Returns? then {} else old(writers)
    {
      hide Holds, Counter;
      dst := [];
      Tests(data[..], nread, nwrite, put, got);
      if nread == nwrite && writeopen {
        if killed {
          return Fails(0), dst;
        }
        readers := readers + {pid};
        return Sleeps(0), dst;
      }
      var i := 0;
      while i < n
        invariant 0 <= i <= n && Valid() && put == old(put) && readers == old(readers) && writers == old(writers)
        invariant |dst| == i <= faultAt && got == old(got) + dst && got <= put
        invariant readopen == old(readopen) && writeopen == old(writeopen)
      {
        Tests(data[..], nread, nwrite, put, got);
        if nread == nwrite {
          break;
        }
        var ch := Get();
        if i == faultAt {
          break;
        }
        dst := dst + [ch];
        i := i + 1;
      }
      writers := {};
      r := Returns(i);
    }

    /** pipeclose of one end; with both closed the page goes back. */
    method Close(writable: bool)
      requires Valid()
      modifies `readopen, `writeopen, `readers, `writers, `freed
      ensures Valid() && put == old(put) && got == old(got)
      ensures writable ==> !writeopen && readers == {} && readopen == old(readopen) && writers == old(writers)
      ensures !writable ==> !readopen && writers == {} && writeopen == old(writeopen) && readers == old(readers)
      ensures old(Calm()) ==> Calm()
      ensures freed <==> !readopen && !writeopen
    {
      if writable {
        writeopen, readers := false, {};
      } else {
        readopen, writers := false, {};
      }
      if !readopen && !writeopen {
        freed := true;
      }
    }

    /**
     A write keeps the pipe calm exactly unless it is killed behind its first
     byte while a reader sleeps: it then returns without a wakeup.
     */
    method WriteCalm(pid: nat, src: seq<Byte>, killedAt: nat, faultAt: nat) returns (r: Outcome)
      requires Valid() && Calm()
      modifies this, data
      ensures Valid() && |old(put)| - |old(got)| <= PIPESIZE
      ensures r == WriteOutcome(old(readopen), PIPESIZE - (|old(put)| - |old(got)|), |src|, killedAt, faultAt)
      ensures Calm() <==> !(old(readers) != {} && old(readopen) && KilledInside(|src|, killedAt, faultAt))
    {
      hide Holds;
      r := Write(pid, src, killedAt, faultAt);
    }

    /** A read keeps the pipe calm, whatever happens. */
    method ReadCalm(pid: nat, n: nat, killed: bool, faultAt: nat) returns (r: Outcome, dst: seq<Byte>)
      requires Valid() && Calm()
      modifies this
      ensures Valid() && Calm() && readers == (if r.Sleeps? then old(readers) + {pid} else old(readers))
      ensures put == old(put) && readopen == old(readopen) && (r.Sleeps? ==> got == old(got))
      ensures r.Sleeps? <==> old(put == got) && writeopen && !killed
    {
      hide Holds;
      r, dst := Read(pid, n, killed, faultAt);
    }
  }

  /** A writer killed behind its first byte leaves a reader asleep on a byte it could have. */
  method KilledWriterLeavesReaderAsleep() returns (p: PipeBuffer)
    ensures fresh(p) && p.Valid() && !p.Calm() && p.readers == {1} && p.put == [7] && p.got == []
  {
    hide Holds;
    p := new PipeBuffer();
    var r, dst := p.Read(1, 1, false, 1);
    r := p.Write(2, [7, 8], 1, 2);
    assert r == Fails(1) && p.put == [] + [7, 8][..1];
  }
}
