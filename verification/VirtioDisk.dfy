/**
 kernel/virtio_disk.c: the driver's methods, each run under vdisk_lock between
 two sleeps, and the steps of a device that completes chains in any order.
 */
module VirtioDisk {
  import opened Common
  import opened VirtioRing
  import opened VirtioSpec
  import opened VirtioRuns

  /** No three descriptors are free. */
  ghost predicate FewFree(free: seq<bool>) {
    forall i, j, k :: 0 <= i < j < k < |free| ==> !(free[i] && free[j] && free[k])
  }

  ghost predicate Three(free: seq<bool>, idx: seq<nat>) {
    && |free| == NUM && |idx| == 3 && idx[0] < NUM && idx[1] < NUM && idx[2] < NUM
    && idx[0] != idx[1] && idx[0] != idx[2] && idx[1] != idx[2] && free[idx[0]] && free[idx[1]] && free[idx[2]]
  }

  lemma EnoughFree(free: seq<bool>, idx: seq<nat>)
    requires Three(free, idx)
    ensures !FewFree(free)
  {
    var i, j, k := idx[0], idx[1], idx[2];
    var lo := if i < j then (if i < k then i else k) else if j < k then j else k;
    var hi := if i > j then (if i > k then i else k) else if j > k then j else k;
    var mid := i + j + k - lo - hi;
    assert 0 <= lo < mid < hi < |free| && free[lo] && free[mid] && free[hi];
  }

  /** The device reported a failure for the t-th of the heads. */
  ghost predicate FailedAt(info: seq<Info>, heads: seq<nat>, t: int) {
    0 <= t < |heads| && heads[t] < |info| && info[heads[t]].status != 0
  }

  ghost predicate SettledAt(q: Queue, q': Queue, n: nat, h: nat)
    requires n <= |q.returned| && h in q.chains && h in q'.chains
  {
    q'.chains[h] == if h in q.returned[..n] then q.chains[h].(phase := Settled) else q.chains[h]
  }

  /** From q to q', exactly the first n returned chains, none of them failed, were settled. */
  ghost predicate SettledBy(q: Queue, q': Queue, n: nat) {
    && n <= |q.returned| && q'.returned == q.returned[n..] && q'.info == q.info
    && (forall t :: 0 <= t < n ==> !FailedAt(q.info, q.returned, t))
    && (forall h :: h in q.chains <==> h in q'.chains)
    && (forall h :: h in q.chains ==> SettledAt(q, q', n, h))
  }

  lemma SettledMore(q: Queue, q1: Queue, n: nat)
    requires SettledBy(q, q1, n) && q1.returned != [] && q1.returned[0] in q1.chains
    ensures n < |q.returned| && q.returned[n] == q1.returned[0] && q.info == q1.info
    ensures !FailedAt(q.info, q.returned, n) ==> SettledBy(q, q1.Seen(), n + 1)
  {
    var q2 := q1.Seen();
    assert q.returned[..n + 1] == q.returned[..n] + [q.returned[n]];
    forall h | h in q.chains && !FailedAt(q.info, q.returned, n) ensures SettledAt(q, q2, n + 1, h) {
      assert SettledAt(q, q1, n, h);
    }
  }

  class Disk {
    var free: seq<bool>
    var desc: seq<Desc>
    var ops: seq<Op>
    var info: seq<Info>
    var flag: map<nat, bool>
    var avail: Ring
    var used: Ring
    var sectors: map<nat, Data>
    var data: map<nat, Data>
    /** The same state together with the requests it stands for. */
    ghost var g: Queue
    /** The processes asleep on &disk.free[0]. */
    ghost var waiting: set<nat>

    ghost predicate Shows()
      reads this
    {
      && g.free == free && g.desc == desc && g.ops == ops && g.info == info && g.flag == flag
      && g.avail == avail && g.used == used
    }

    ghost function St(): (s: State)
      reads this
    {
      State(g, sectors, data)
    }

    /** Nobody sleeps while there are descriptors for a request. */
    ghost predicate Valid()
      reads this
    {
      Shows() && g.Valid() && (waiting != {} ==> FewFree(free))
    }

    constructor (sectors: map<nat, Data>, data: map<nat, Data>)
      ensures Valid() && g.chains == map[] && waiting == {}
    {
      free, desc, ops := seq(NUM, _ => true), seq(NUM, _ => EMPTY), seq(NUM, _ => Op(false, 0));
      info, flag := seq(NUM, _ => Info(NO_BUF, 0)), map[];
      avail, used := Ring(seq(NUM, _ => 0), 0, 0), Ring(seq(NUM, _ => 0), 0, 0);
      this.sectors, this.data := sectors, data;
      g := Queue(seq(NUM, _ => true), seq(NUM, _ => EMPTY), seq(NUM, _ => Op(false, 0)),
                 seq(NUM, _ => Info(NO_BUF, 0)), map[], Ring(seq(NUM, _ => 0), 0, 0), Ring(seq(NUM, _ => 0), 0, 0),
                 map[], seq(NUM, _ => UNOWNED), [], 0, [], 0);
      waiting := {};
    }

    /** alloc_desc: the first free descriptor, or -1. */
    method AllocDesc() returns (i: int)
      modifies `free
      ensures i == -1 ==> free == old(free) && true !in free
      ensures i != -1 ==>
                && 0 <= i < |old(free)| && old(free)[i] && free == old(free)[i := false]
                && true !in free[..i]
    {
      i := 0;
      while i < |free|
        invariant 0 <= i <= |free| && free == old(free)
        invariant forall j :: 0 <= j < i ==> !free[j]
      {
        if free[i] {
          free := free[i := false];
          return;
        }
        i := i + 1;
      }
      i := -1;
    }

    /** free_desc, whose panics the callers rule out. */
    method FreeDesc(i: nat)
      requires |free| == |desc| == NUM && i < NUM && !free[i]
      modifies `free, `desc, `waiting
      ensures free == old(free)[i := true] && desc == old(desc)[i := EMPTY] && waiting == {}
    {
      desc := desc[i := EMPTY];
      free := free[i := true];
      waiting := {};
    }

    /** alloc3_desc: three free descriptors, or none taken and too few there. */
    method AllocThree() returns (ok: bool, idx: seq<nat>)
      requires |free| == |desc| == NUM
      modifies `free, `desc, `waiting
      ensures |desc| == NUM && |idx| == 3
      ensures ok ==>
                && desc == old(desc) && waiting == old(waiting) && Three(old(free), idx)
                && free == old(free)[idx[0] := false][idx[1] := false][idx[2] := false]
      ensures !ok ==>
                && free == old(free) && FewFree(free) && waiting <= old(waiting)
                && forall i :: 0 <= i < NUM && !free[i] ==> desc[i] == old(desc)[i]
    {
      idx := [];
      while |idx| < 3
        invariant |idx| <= 3 && |free| == NUM && desc == old(desc) && waiting == old(waiting)
        invariant forall t :: 0 <= t < |idx| ==> idx[t] < NUM && old(free)[idx[t]]
        invariant forall s, t :: 0 <= s < t < |idx| ==> idx[s] != idx[t]
        invariant forall i :: 0 <= i < NUM ==> free[i] == (old(free)[i] && i !in idx)
      {
        var i := AllocDesc();
        if i < 0 {
          assert forall i :: 0 <= i < NUM && old(free)[i] ==> i in idx;
          FewIn(old(free), idx);
          Undo(old(free), idx);
          return false, [0, 0, 0];
        }
        idx := idx + [i];
      }
      ok := true;
    }

    lemma FewIn(f: seq<bool>, idx: seq<nat>)
      requires |idx| < 3 && forall i :: 0 <= i < |f| && f[i] ==> i in idx
      ensures FewFree(f)
    {
    }

    /** The descriptors of a failed alloc3_desc go back. */
    method Undo(ghost before: seq<bool>, idx: seq<nat>)
      requires |free| == |desc| == |before| == NUM
      requires forall t :: 0 <= t < |idx| ==> idx[t] < NUM && before[idx[t]]
      requires forall s, t :: 0 <= s < t < |idx| ==> idx[s] != idx[t]
      requires forall i :: 0 <= i < NUM ==> free[i] == (before[i] && i !in idx)
      modifies `free, `desc, `waiting
      ensures free == before && |desc| == NUM && waiting <= old(waiting)
      ensures forall i :: 0 <= i < NUM && !before[i] ==> desc[i] == old(desc)[i]
    {
      var j := 0;
      while j < |idx|
        invariant 0 <= j <= |idx| && |free| == |desc| == NUM && waiting <= old(waiting)
        invariant forall i :: 0 <= i < NUM ==> free[i] == (before[i] && i !in idx[j..])
        invariant forall i :: 0 <= i < NUM && !before[i] ==> desc[i] == old(desc)[i]
      {
        assert idx[j..] == [idx[j]] + idx[j + 1..];
        FreeDesc(idx[j]);
        j := j + 1;
      }
    }

    /** virtio_disk_rw up to its second sleep: the request is queued, or the process waits for descriptors. */
    method Submit(pid: nat, b: nat, blockno: nat, write: bool) returns (ok: bool, idx: seq<nat>)
      requires Valid() && g.Idle(b)
      modifies `free, `desc, `ops, `info, `flag, `avail, `g, `waiting
      ensures Valid() && |idx| == 3 && ok == !FewFree(old(free))
      ensures ok ==>
                && old(g.Valid() && g.ThreeFree(idx[0], idx[1], idx[2])) && waiting == old(waiting) == {}
                && idx[0] !in old(g).chains && idx[0] in g.chains
                && g.chains == old(g).chains[idx[0] := g.chains[idx[0]]]
                && g.queue == old(g).queue + [idx[0]] && g.Decode(idx[0]) == Request(write, SectorOf(blockno), b)
                && Next(old(St()), Open(idx[0], idx[1], idx[2], b, blockno, write), St())
      ensures !ok ==> Next(old(St()), Scratch(desc), St()) && pid in waiting && waiting <= old(waiting) + {pid}
    {
      hide Queue.Valid, Queue.Idle, FewFree;
      g.Carried();
      ok, idx := AllocThree();
      if ok {
        EnoughFree(g.free, idx);
        Enqueue(idx[0], idx[1], idx[2], b, write, SectorOf(blockno));
      } else {
        g.FreeDescriptors(desc);
        waiting, g := waiting + {pid}, g.(desc := desc);
      }
    }

    /** The request goes to the device in the three descriptors just taken. */
    method Enqueue(i0: nat, i1: nat, i2: nat, b: nat, write: bool, sector: nat)
      requires g.Valid() && g.Idle(b) && g.ThreeFree(i0, i1, i2)
      requires Taken(i0, i1, i2)
      modifies `desc, `ops, `info, `flag, `avail, `g
      ensures Shows() && g.Valid() && old(g.Valid()) && g == old(g).Opened(i0, i1, i2, b, write, sector)
      ensures i0 !in old(g).chains && g.Decode(i0) == Request(write, sector, b)
    {
      hide Queue.Valid, Queue.Idle, Linked;
      g.OpenedKeeps(i0, i1, i2, b, write, sector);
      g.Carried();
      Format(i0, i1, i2, b, write, sector);
      g := g.Opened(i0, i1, i2, b, write, sector);
    }

    ghost predicate Taken(i0: nat, i1: nat, i2: nat)
      requires g.ThreeFree(i0, i1, i2)
      reads this
    {
      && free == g.free[i0 := false][i1 := false][i2 := false] && desc == g.desc && ops == g.ops && info == g.info
      && flag == g.flag && avail == g.avail && used == g.used
    }

    /** The descriptors, the records and the avail entry of a request. */
    method Format(i0: nat, i1: nat, i2: nat, b: nat, write: bool, sector: nat)
      requires |desc| == |ops| == |info| == |avail.slots| == NUM && i0 < NUM && i1 < NUM && i2 < NUM
      modifies `desc, `ops, `info, `flag, `avail
      ensures desc == Linked(old(desc), i0, i1, i2, b, write)
      ensures ops == old(ops)[i0 := Op(write, sector)] && info == old(info)[i0 := Info(b, PENDING)]
      ensures flag == old(flag)[b := true] && avail == old(avail).Push(i0)
    {
      ops := ops[i0 := Op(write, sector)];
      desc := desc[i0 := Desc(OpOf(i0), 16, true, false, i1)];
      desc := desc[i1 := Desc(DataOf(b), BSIZE, false, !write, 0)];
      desc := desc[i1 := desc[i1].(more := true, next := i2)];
      info := info[i0 := info[i0].(status := PENDING)];
      desc := desc[i2 := Desc(StatusOf(i0), 1, false, true, 0)];
      flag := flag[b := true];
      info := info[i0 := info[i0].(buf := b)];
      avail := avail.Push(i0);
    }

    /** The device takes the next available chain: the oldest one. */
    method DeviceTake() returns (h: nat)
      requires Valid() && !avail.Empty()
      modifies `avail, `g
      ensures Valid() && old(g).queue != [] && h == old(g).queue[0] && Next(old(St()), Take, St())
      ensures g.queue == old(g).queue[1..] && h in g.chains && g.chains[h].phase == Working
    {
      hide Queue.Valid, Ring.Carries;
      g.Carried();
      EmptyIff(avail, g.queue, g.at);
      g.BegunKeeps();
      h := avail.Front();
      avail := avail.Pop();
      g := g.Begun();
    }

    /** The transfer of a chain, as the device reads the chain from memory. */
    method Serve(h: nat)
      requires Shows() && g.Sizes() && h in g.chains && g.ChainAt(h)
      requires CanServe(g.Decode(h), sectors, data)
      modifies `sectors, `data
      ensures Served(g.Decode(h), old(sectors), old(data), sectors, data)
    {
      var op := ops[desc[h].addr.i];
      var d1 := desc[desc[h].next];
      assert g.Decode(h) == Request(op.write, op.sector, d1.addr.b);
      if op.write {
        sectors := sectors[op.sector := data[d1.addr.b]];
      } else {
        data := data[d1.addr.b := sectors[op.sector]];
      }
    }

    /** The device serves one of the chains it has taken, whichever, and returns it. */
    method DeviceComplete(h: nat, status: nat)
      requires Valid() && h in g.chains && h < NUM && g.chains[h].phase == Working
      requires status == 0 ==> CanServe(g.Decode(h), sectors, data)
      modifies `info, `used, `g, `sectors, `data
      ensures Valid() && Next(old(St()), Complete(h, status), St())
      ensures info[h].status == status && g.returned == old(g).returned + [h]
    {
      hide Queue.Valid, Queue.ChainAt, Queue.OwnerAt, Served, CanServe, Queue.Decode;
      g.Placed(h);
      g.Carried();
      if status == 0 {
        Serve(h);
      }
      Return(h, status);
    }

    /** The device writes the status byte and the used entry. */
    method Return(h: nat, status: nat)
      requires Valid() && h in g.chains && g.chains[h].phase == Working
      modifies `info, `used, `g
      ensures Valid() && h < NUM && old(g.Valid()) && g == old(g).Completed(h, status)
    {
      hide Queue.Valid, Ring.Carries;
      g.CompletedKeeps(h, status);
      g.Carried();
      info := info[h := info[h].(status := status)];
      used := used.Push(h);
      g := g.Completed(h, status);
    }

    /** One completion in the loop of virtio_disk_intr. */
    method SettleOne() returns (panicked: bool)
      requires Valid() && g.returned != []
      modifies `flag, `used, `g
      ensures Valid() && old(g.returned[0] in g.chains && g.Sizes() && g.ChainAt(g.returned[0]))
      ensures panicked <==> info[old(g).returned[0]].status != 0
      ensures if panicked then g == old(g) else g == old(g).Seen() && Next(old(St()), See, St())
    {
      hide Queue.Valid, Queue.OwnerAt;
      g.SeenKeeps();
      g.Carried();
      g.Placed(g.returned[0]);
      var id := used.Front();
      if info[id].status != 0 {
        return true;
      }
      flag := flag[info[id].buf := false];
      used := used.Pop();
      g := g.Seen();
      panicked := false;
    }

    /**
     virtio_disk_intr: the completions in the used ring are settled in order,
     up to the first that the device reports as failed.
     */
    method Intr() returns (panicked: bool, ghost n: nat)
      requires Valid()
      modifies `flag, `used, `g
      ensures Valid() && SettledBy(old(g), g, n)
      ensures if panicked then FailedAt(info, old(g).returned, n) else g.returned == []
    {
      hide Queue.Valid, Ring.Carries;
      n := 0;
      ghost var q := g;
      while !used.Empty()
        invariant Valid() && SettledBy(q, g, n)
        decreases |g.returned|
      {
        g.Carried();
        EmptyIff(used, g.returned, g.ut);
        ghost var q1 := g;
        panicked := SettleOne();
        SettledMore(q, q1, n);
        if panicked {
          return;
        }
        n := n + 1;
      }
      g.Carried();
      EmptyIff(used, g.returned, g.ut);
      panicked := false;
    }

    /** free_chain on the head of a request: its three descriptors, once each. */
    method FreeChain(h: nat)
      requires |free| == |desc| == NUM && desc == g.desc && h in g.chains && g.LinksAt(h)
      requires var c := g.chains[h]; !free[h] && !free[c.i1] && !free[c.i2]
      modifies `free, `desc, `waiting
      ensures var c := g.chains[h];
              && free == old(free)[h := true][c.i1 := true][c.i2 := true] && waiting == {}
              && desc == old(desc)[h := EMPTY][c.i1 := EMPTY][c.i2 := EMPTY]
    {
      ghost var c := g.chains[h];
      ghost var links := [h, c.i1, c.i2];
      var i := h;
      ghost var t := 0;
      while true
        invariant 0 <= t <= 2 && i == links[t] && |free| == |desc| == NUM
        invariant free ==
          if t == 0 then old(free) else if t == 1 then old(free)[h := true] else old(free)[h := true][c.i1 := true]
        invariant desc ==
          if t == 0 then old(desc) else if t == 1 then old(desc)[h := EMPTY] else old(desc)[h := EMPTY][c.i1 := EMPTY]
        decreases 2 - t
      {
        var more, nxt := desc[i].more, desc[i].next;
        FreeDesc(i);
        if more {
          i, t := nxt, t + 1;
        } else {
          break;
        }
      }
    }

    /** virtio_disk_rw after its second sleep: the process has seen that the disk is done with its buffer. */
    method Finish(h: nat)
      requires Valid() && h in g.chains && g.chains[h].buf in flag && !flag[g.chains[h].buf]
      modifies `free, `desc, `waiting, `info, `g
      ensures Valid() && Next(old(St()), Close(h), St()) && waiting == {}
      ensures var c := old(g).chains[h];
              && h !in g.chains && g.ThreeFree(h, c.i1, c.i2) && g.Idle(c.buf)
              && forall f :: f in old(g).chains && f != h ==> f in g.chains && g.chains[f] == old(g).chains[f]
    {
      hide Queue.Valid, Ring.Carries;
      g.Placed(h);
      g.Carried();
      g.ClosedKeeps(h);
      info := info[h := info[h].(buf := NO_BUF)];
      FreeChain(h);
      g := g.Closed(h);
    }
  }
}
