/**
 The state shared by the driver of kernel/virtio_disk.c and the device, on
 values: descriptors, command headers and the two rings, with the outstanding
 requests that they stand for.
 */
module VirtioSpec {
  import opened Common
  import opened VirtioRing
  import Sets

  const NO_BUF: int := -1
  const UNOWNED: nat := NUM
  const PENDING: nat := 0xff

  datatype Addr = Zero | OpOf(i: nat) | DataOf(b: nat) | StatusOf(i: nat)
  datatype Desc = Desc(addr: Addr, len: nat, more: bool, write: bool, next: nat)
  datatype Op = Op(write: bool, sector: nat)
  datatype Info = Info(buf: int, status: nat)

  /** Queued: in the avail ring.  Working: at the device.  Returned: in the used ring.  Settled: seen by the driver. */
  datatype Phase = Queued | Working | Returned | Settled
  datatype Chain = Chain(i1: nat, i2: nat, buf: nat, write: bool, sector: nat, phase: Phase)

  const EMPTY := Desc(Zero, 0, false, false, 0)

  /** The sector of a block, as a 32-bit product. */
  function SectorOf(blockno: nat): (s: nat) {
    (blockno * (BSIZE / 512)) % 0x1_0000_0000
  }

  lemma SectorIs(a: nat)
    ensures SectorOf(a) == 128 * (a % 0x200_0000)
  {
    assert BSIZE / 512 == 128;
    var q, x := a / 0x200_0000, a % 0x200_0000;
    assert a * 128 == 0x1_0000_0000 * q + 128 * x;
  }

  /**
   A block starts where its sector does, if its number is below 2^25; two block
   numbers share a sector exactly when they differ by a multiple of 2^25.
   */
  lemma SectorsShared(a: nat, b: nat)
    ensures SectorOf(a) * 512 == a * BSIZE <==> a < 0x200_0000
    ensures SectorOf(a) == SectorOf(b) <==> (a - b) % 0x200_0000 == 0
  {
    hide SectorOf;
    SectorIs(a);
    SectorIs(b);
    var d := a / 0x200_0000 - b / 0x200_0000;
    assert a - b == 0x200_0000 * d + (a % 0x200_0000 - b % 0x200_0000);
  }

  /** The chain of a request: command header, data, status byte (section 5.2 of the virtio specification). */
  function Linked(desc: seq<Desc>, i0: nat, i1: nat, i2: nat, b: nat, write: bool): (d: seq<Desc>)
    requires i0 < |desc| && i1 < |desc| && i2 < |desc|
    ensures |d| == |desc|
  {
    desc[i0 := Desc(OpOf(i0), 16, true, false, i1)]
        [i1 := Desc(DataOf(b), BSIZE, true, !write, i2)]
        [i2 := Desc(StatusOf(i0), 1, false, true, 0)]
  }

  /** What the device must do for a chain. */
  datatype Request = Request(write: bool, sector: nat, buf: nat) | Malformed

  datatype Queue = Queue(free: seq<bool>, desc: seq<Desc>, ops: seq<Op>, info: seq<Info>, flag: map<nat, bool>,
                         avail: Ring, used: Ring, chains: map<nat, Chain>, owner: seq<nat>,
                         queue: seq<nat>, at: nat, returned: seq<nat>, ut: nat) {

    /** A descriptor is free or in the chain of its owner, never both. */
    ghost predicate OwnerAt(i: nat)
      requires i < |free| && i < |owner|
    {
      && (free[i] <==> owner[i] == UNOWNED)
      && (owner[i] != UNOWNED ==>
            owner[i] in chains && (i == owner[i] || i == chains[owner[i]].i1 || i == chains[owner[i]].i2))
    }

    ghost predicate Sizes() {
      |free| == |desc| == |ops| == |info| == |owner| == NUM
    }

    /** The three descriptors of a request. */
    ghost predicate LinksAt(h: nat)
      requires |desc| == NUM && h in chains
    {
      var c := chains[h];
      && h < NUM && c.i1 < NUM && c.i2 < NUM && h != c.i1 && h != c.i2 && c.i1 != c.i2
      && desc[h] == Desc(OpOf(h), 16, true, false, c.i1)
      && desc[c.i1] == Desc(DataOf(c.buf), BSIZE, true, !c.write, c.i2)
      && desc[c.i2] == Desc(StatusOf(h), 1, false, true, 0)
    }

    /** The descriptors of a request, and the record kept for it. */
    ghost predicate ChainAt(h: nat)
      requires Sizes() && h in chains
    {
      var c := chains[h];
      && LinksAt(h) && owner[h] == h && owner[c.i1] == h && owner[c.i2] == h
      && ops[h] == Op(c.write, c.sector) && info[h].buf == c.buf
      && c.buf in flag && flag[c.buf] == (c.phase != Settled)
      && (c.phase == Queued || c.phase == Working ==> info[h].status == PENDING)
    }

    ghost predicate BufsDiffer(h: nat, g: nat) {
      h in chains && g in chains && h != g ==> chains[h].buf != chains[g].buf
    }

    /** The list has each chain of the phase once, and nothing else. */
    ghost predicate Tracks(list: seq<nat>, phase: Phase) {
      && (forall s, t :: 0 <= s < t < |list| ==> list[s] != list[t])
      && (forall h :: h in list <==> h in chains && chains[h].phase == phase)
    }

    /** Free descriptors and chains partition the descriptors; no two chains share a buffer. */
    ghost predicate Shaped() {
      && Sizes()
      && (forall i: nat :: i < NUM ==> OwnerAt(i))
      && (forall h :: h in chains ==> ChainAt(h))
      && (forall h, g :: BufsDiffer(h, g))
    }

    /** The rings carry exactly the queued and the returned chains. */
    ghost predicate Listed() {
      && Tracks(queue, Queued) && Tracks(returned, Returned)
      && avail.Carries(queue, at) && used.Carries(returned, ut)
    }

    ghost predicate Valid() {
      Shaped() && Listed()
    }

    /** What validity says about the rings, and about one chain. */
    lemma Carried()
      requires Valid()
      ensures Sizes() && |avail.slots| == |used.slots| == NUM && avail.Carries(queue, at) && used.Carries(returned, ut)
    {
    }

    lemma Placed(h: nat)
      requires Valid() && h in chains
      ensures Sizes() && ChainAt(h) && OwnerAt(h) && OwnerAt(chains[h].i1) && OwnerAt(chains[h].i2)
    {
      assert ChainAt(h);
      assert OwnerAt(h) && OwnerAt(chains[h].i1) && OwnerAt(chains[h].i2);
    }

    /** The device reads the request that the driver meant. */
    function Decode(h: nat): (r: Request)
      requires |desc| == |ops| == NUM && h < NUM
    {
      var d0 := desc[h];
      if !d0.addr.OpOf? || d0.addr.i >= NUM || !d0.more || d0.next >= NUM then Malformed else
      var d1 := desc[d0.next];
      if !d1.addr.DataOf? || d1.len != BSIZE || !d1.more || d1.next >= NUM then Malformed else
      var d2, op := desc[d1.next], ops[d0.addr.i];
      if d2.addr != StatusOf(h) || !d2.write || d2.more || d1.write == op.write then Malformed
      else Request(op.write, op.sector, d1.addr.b)
    }

    lemma DecodesRequest(h: nat)
      requires Valid() && h in chains
      ensures h < NUM && Decode(h) == Request(chains[h].write, chains[h].sector, chains[h].buf)
    {
      assert ChainAt(h);
    }

    // ----------------------------------------------------------------
    // The steps

    ghost predicate ThreeFree(i0: nat, i1: nat, i2: nat) {
      |free| == NUM && i0 < NUM && i1 < NUM && i2 < NUM && i0 != i1 && i0 != i2 && i1 != i2
      && free[i0] && free[i1] && free[i2]
    }

    ghost predicate Idle(b: nat) {
      forall h :: h in chains ==> chains[h].buf != b
    }

    /** A request is formatted into three free descriptors and made available. */
    ghost function Opened(i0: nat, i1: nat, i2: nat, b: nat, write: bool, sector: nat): (q: Queue)
      requires Sizes() && |avail.slots| == NUM && ThreeFree(i0, i1, i2)
    {
      Queue(free[i0 := false][i1 := false][i2 := false], Linked(desc, i0, i1, i2, b, write),
            ops[i0 := Op(write, sector)], info[i0 := Info(b, PENDING)], flag[b := true],
            avail.Push(i0), used, chains[i0 := Chain(i1, i2, b, write, sector, Queued)],
            owner[i0 := i0][i1 := i0][i2 := i0], queue + [i0], at + 1, returned, ut)
    }

    /** A chain's members are not free. */
    lemma MembersBusy(h: nat, i: nat)
      requires Shaped() && h in chains && i < NUM && free[i]
      ensures i != h && i != chains[h].i1 && i != chains[h].i2
    {
      assert ChainAt(h) && OwnerAt(i);
    }

    lemma OpenedChainAt(i0: nat, i1: nat, i2: nat, b: nat, write: bool, sector: nat, h: nat)
      requires Shaped() && |avail.slots| == NUM && ThreeFree(i0, i1, i2) && Idle(b) && (h == i0 || h in chains)
      ensures Opened(i0, i1, i2, b, write, sector).ChainAt(h)
    {
      if h != i0 {
        assert ChainAt(h);
        MembersBusy(h, i0);
        MembersBusy(h, i1);
        MembersBusy(h, i2);
      }
    }

    lemma OpenedOwnerAt(i0: nat, i1: nat, i2: nat, b: nat, write: bool, sector: nat, i: nat)
      requires Shaped() && |avail.slots| == NUM && ThreeFree(i0, i1, i2) && i < NUM
      ensures i0 !in chains && Opened(i0, i1, i2, b, write, sector).OwnerAt(i)
    {
      assert OwnerAt(i) && OwnerAt(i0);
      assert i0 in chains ==> ChainAt(i0);
    }

    lemma OpenedShaped(i0: nat, i1: nat, i2: nat, b: nat, write: bool, sector: nat)
      requires Shaped() && |avail.slots| == NUM && ThreeFree(i0, i1, i2) && Idle(b)
      ensures i0 !in chains && Opened(i0, i1, i2, b, write, sector).Shaped()
    {
      hide Queue.ChainAt, Queue.OwnerAt, Linked, Ring.Push;
      var q := Opened(i0, i1, i2, b, write, sector);
      forall i: nat | i < NUM ensures q.OwnerAt(i) {
        OpenedOwnerAt(i0, i1, i2, b, write, sector, i);
      }
      OpenedOwnerAt(i0, i1, i2, b, write, sector, i0);
      forall h | h in q.chains ensures q.ChainAt(h) {
        OpenedChainAt(i0, i1, i2, b, write, sector, h);
      }
      forall h, g ensures q.BufsDiffer(h, g) {
        assert BufsDiffer(h, g);
      }
    }

    lemma OpenedListed(i0: nat, i1: nat, i2: nat, b: nat, write: bool, sector: nat)
      requires Sizes() && Shaped() && Listed() && ThreeFree(i0, i1, i2) && i0 !in chains
      ensures |queue| < NUM && Opened(i0, i1, i2, b, write, sector).Listed()
    {
      hide Queue.Shaped, Queue.ChainAt;
      var q := Opened(i0, i1, i2, b, write, sector);
      RoomFor(queue, i0);
      PushKeeps(avail, queue, at, i0);
      hide Ring.Carries;
      AppendTracks(q, queue, Queued, i0);
      SameTracks(q, returned, Returned, i0);
    }

    lemma OpenedKeeps(i0: nat, i1: nat, i2: nat, b: nat, write: bool, sector: nat)
      requires Valid() && ThreeFree(i0, i1, i2) && Idle(b)
      ensures i0 !in chains && |queue| < NUM && Opened(i0, i1, i2, b, write, sector).Valid()
      ensures Opened(i0, i1, i2, b, write, sector).Decode(i0) == Request(write, sector, b)
    {
      OpenedShaped(i0, i1, i2, b, write, sector);
      hide Queue.Shaped, Queue.ChainAt, Queue.Decode;
      OpenedListed(i0, i1, i2, b, write, sector);
      Opened(i0, i1, i2, b, write, sector).DecodesRequest(i0);
    }

    /** There is always a free slot for a head that is not in the ring. */
    lemma RoomFor(list: seq<nat>, x: nat)
      requires x < NUM && x !in list && forall s, t :: 0 <= s < t < |list| ==> list[s] != list[t]
      requires Shaped() && forall h :: h in list ==> h in chains
      ensures |list| < NUM
    {
      var l := list + [x];
      Sets.DistinctSize(l);
      Sets.UpToSize(NUM);
      forall y: nat | y in l ensures y in Sets.UpTo(NUM) {
        assert y in list ==> ChainAt(y);
      }
      Sets.SubsetSize((set y | y in l), Sets.UpTo(NUM));
    }

    /** The device takes the oldest available chain. */
    ghost function Begun(): (q: Queue)
      requires |queue| > 0 && queue[0] in chains
    {
      this.(avail := avail.Pop(), queue := queue[1..],
            chains := chains[queue[0] := chains[queue[0]].(phase := Working)])
    }

    lemma BegunKeeps()
      requires Valid() && |queue| > 0
      ensures queue[0] in chains && avail.Front() == queue[0] && Begun().Valid()
    {
      assert queue[0] in queue;
      var q := Begun();
      PopKeeps(avail, queue, at);
      PhaseKeeps(q, queue[0]);
      hide Queue.Shaped, Ring.Carries;
      TailTracks(q, queue, Queued);
      SameTracks(q, returned, Returned, queue[0]);
    }

    /** The device finishes a chain it has taken, whichever. */
    ghost function Completed(h: nat, status: nat): (q: Queue)
      requires Sizes() && |used.slots| == NUM && h in chains && h < NUM
    {
      this.(info := info[h := info[h].(status := status)],
            used := used.Push(h), returned := returned + [h], ut := ut + 1,
            chains := chains[h := chains[h].(phase := Returned)])
    }

    lemma CompletedListed(h: nat, status: nat)
      requires Sizes() && Shaped() && Listed() && h in chains && chains[h].phase == Working && h < NUM
      ensures |returned| < NUM && Completed(h, status).Listed()
    {
      hide Queue.Shaped, Queue.ChainAt;
      var q := Completed(h, status);
      RoomFor(returned, h);
      PushKeeps(used, returned, ut, h);
      hide Ring.Carries;
      SameTracks(q, queue, Queued, h);
      AppendTracks(q, returned, Returned, h);
    }

    lemma CompletedKeeps(h: nat, status: nat)
      requires Valid() && h in chains && chains[h].phase == Working
      ensures h < NUM && |returned| < NUM && Completed(h, status).Valid()
    {
      assert ChainAt(h);
      PhaseKeeps(Completed(h, status), h);
      CompletedListed(h, status);
    }

    /** The interrupt handler settles the oldest returned chain. */
    ghost function Seen(): (q: Queue)
      requires |returned| > 0 && returned[0] in chains
    {
      var h := returned[0];
      this.(used := used.Pop(), returned := returned[1..], flag := flag[chains[h].buf := false],
            chains := chains[h := chains[h].(phase := Settled)])
    }

    lemma SeenKeeps()
      requires Valid() && |returned| > 0
      ensures returned[0] in chains && used.Front() == returned[0] && Seen().Valid()
    {
      var h := returned[0];
      assert h in returned;
      var q := Seen();
      PopKeeps(used, returned, ut);
      PhaseKeeps(q, h);
      hide Queue.Shaped, Ring.Carries;
      TailTracks(q, returned, Returned);
      SameTracks(q, queue, Queued, h);
    }

    /** The process that asked frees the descriptors. */
    ghost function Closed(h: nat): (q: Queue)
      requires Sizes() && h in chains && ChainAt(h)
    {
      var c := chains[h];
      this.(free := free[h := true][c.i1 := true][c.i2 := true], desc := desc[h := EMPTY][c.i1 := EMPTY][c.i2 := EMPTY],
            info := info[h := info[h].(buf := NO_BUF)], owner := owner[h := UNOWNED][c.i1 := UNOWNED][c.i2 := UNOWNED],
            chains := chains - {h})
    }

    lemma ClosedChainAt(h: nat, g: nat)
      requires Shaped() && h in chains && g in chains && ChainAt(h) && g != h
      ensures Closed(h).ChainAt(g)
    {
      assert ChainAt(g);
    }

    lemma ClosedOwnerAt(h: nat, i: nat)
      requires Shaped() && h in chains && ChainAt(h) && i < NUM
      ensures Closed(h).Sizes() && Closed(h).OwnerAt(i)
    {
      assert OwnerAt(i);
    }

    lemma ClosedShaped(h: nat)
      requires Shaped() && h in chains
      ensures ChainAt(h) && Closed(h).Shaped()
    {
      hide Queue.ChainAt, Queue.OwnerAt;
      var q := Closed(h);
      ClosedOwnerAt(h, 0);
      forall i: nat | i < NUM ensures q.OwnerAt(i) {
        ClosedOwnerAt(h, i);
      }
      forall g | g in q.chains ensures q.ChainAt(g) {
        ClosedChainAt(h, g);
      }
      forall f, g ensures q.BufsDiffer(f, g) {
        assert BufsDiffer(f, g);
      }
    }

    lemma BufsApart(h: nat, f: nat)
      requires Shaped() && h in chains && f in chains && h != f
      ensures chains[h].buf != chains[f].buf
    {
      assert BufsDiffer(h, f);
    }

    lemma ClosedKeeps(h: nat)
      requires Valid() && h in chains && chains[h].phase == Settled
      ensures ChainAt(h) && Closed(h).Valid() && Closed(h).Idle(chains[h].buf)
      ensures var q, c := Closed(h), chains[h];
              h !in q.chains && q.ThreeFree(h, c.i1, c.i2) && forall f :: f in chains && f != h ==>
                f in q.chains && q.chains[f] == chains[f]
    {
      ClosedShaped(h);
      hide Queue.Shaped, Ring.Carries;
      var q := Closed(h);
      assert q.Tracks(queue, Queued);
      assert q.Tracks(returned, Returned);
      forall f | f in q.chains ensures q.chains[f].buf != chains[h].buf {
        BufsApart(h, f);
      }
    }

    /** A change of phase of one chain leaves the others and the partition as they are. */
    lemma PhaseKeeps(q: Queue, h: nat)
      requires Shaped() && h in chains && h in q.chains && q.chains.Keys == chains.Keys
      requires q.free == free && q.desc == desc && q.ops == ops && q.owner == owner && |q.info| == NUM
      requires q.chains[h] == chains[h].(phase := q.chains[h].phase)
      requires forall g :: g in chains && g != h ==> q.chains[g] == chains[g]
      requires forall i :: 0 <= i < NUM && i != h ==> q.info[i] == info[i]
      requires h < NUM ==> q.info[h].buf == info[h].buf
      requires q.chains[h].phase == Working ==> h < NUM && q.info[h] == info[h] && chains[h].phase == Queued
      requires q.chains[h].phase != Queued
      requires q.flag == flag[chains[h].buf := q.chains[h].phase != Settled]
      ensures q.Shaped()
    {
      assert ChainAt(h);
      forall g | g in q.chains ensures q.ChainAt(g) {
        assert ChainAt(g) && BufsDiffer(g, h);
      }
      forall i: nat | i < NUM ensures q.OwnerAt(i) {
        assert OwnerAt(i);
      }
      forall f, g ensures q.BufsDiffer(f, g) {
        assert BufsDiffer(f, g);
      }
    }

    /** The contents of free descriptors do not matter. */
    lemma FreeDescriptors(d: seq<Desc>)
      requires Valid() && |d| == NUM && forall i :: 0 <= i < NUM && !free[i] ==> d[i] == desc[i]
      ensures this.(desc := d).Valid()
    {
      var q := this.(desc := d);
      forall h | h in chains ensures q.ChainAt(h) {
        assert ChainAt(h);
        assert OwnerAt(h) && OwnerAt(chains[h].i1) && OwnerAt(chains[h].i2);
      }
      forall i: nat | i < NUM ensures q.OwnerAt(i) {
        assert OwnerAt(i);
      }
      hide Queue.ChainAt, Queue.OwnerAt;
      forall h, g ensures q.BufsDiffer(h, g) {
        assert BufsDiffer(h, g);
      }
    }

    /** Adding a chain to a list together with its phase. */
    lemma AppendTracks(q: Queue, list: seq<nat>, phase: Phase, h: nat)
      requires Tracks(list, phase) && (h !in chains || chains[h].phase != phase)
      requires h in q.chains && (forall g :: g in q.chains <==> g in chains || g == h) && q.chains[h].phase == phase
      requires forall g :: g in chains && g != h ==> q.chains[g] == chains[g]
      ensures q.Tracks(list + [h], phase)
    {
    }

    lemma SameTracks(q: Queue, list: seq<nat>, phase: Phase, h: nat)
      requires Tracks(list, phase) && (h !in chains || chains[h].phase != phase)
      requires h in q.chains && (forall g :: g in q.chains <==> g in chains || g == h) && q.chains[h].phase != phase
      requires forall g :: g in chains && g != h ==> q.chains[g] == chains[g]
      ensures q.Tracks(list, phase)
    {
    }

    /** Dropping the first of a list together with its phase. */
    lemma TailTracks(q: Queue, list: seq<nat>, phase: Phase)
      requires Tracks(list, phase) && |list| > 0
      requires q.chains.Keys == chains.Keys && list[0] in q.chains && q.chains[list[0]].phase != phase
      requires forall g :: g in chains && g != list[0] ==> q.chains[g] == chains[g]
      ensures q.Tracks(list[1..], phase)
    {
      assert list == [list[0]] + list[1..];
    }
  }
}
