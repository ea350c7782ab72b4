/**
 Runs of the disk: requests made by many processes, a device that takes and
 completes them in its own order, interrupts, and processes that work on
 buffers no request is using.
 */
module VirtioRuns {
  import opened Common
  import opened VirtioRing
  import opened VirtioSpec

  type Data = seq<int>

  datatype State = State(q: Queue, sectors: map<nat, Data>, data: map<nat, Data>)

  datatype Event =
    | Open(h: nat, i1: nat, i2: nat, b: nat, blockno: nat, write: bool)   // virtio_disk_rw queues a request
    | Scratch(desc: seq<Desc>)                                            // and fails to: alloc3_desc undone
    | Take                                                                // the device fetches a chain
    | Complete(h: nat, status: nat)                                       // and returns one
    | See                                                                 // one turn of virtio_disk_intr
    | Close(h: nat)                                                       // virtio_disk_rw frees its chain
    | Fill(b: nat, bytes: Data)                                           // a process writes to an idle buffer

  /** The device can do what it read from a chain. */
  ghost predicate CanServe(r: Request, sectors: map<nat, Data>, data: map<nat, Data>) {
    r.Request? && if r.write then r.buf in data else r.sector in sectors
  }

  /** The block moved between the sector and the buffer of the request, in the direction asked for. */
  ghost predicate Served(r: Request, sectors: map<nat, Data>, data: map<nat, Data>,
                         sectors': map<nat, Data>, data': map<nat, Data>)
    requires CanServe(r, sectors, data)
  {
    if r.write then sectors' == sectors[r.sector := data[r.buf]] && data' == data
    else sectors' == sectors && data' == data[r.buf := sectors[r.sector]]
  }

  ghost predicate Next(s: State, e: Event, t: State) {
    && s.q.Sizes() && |s.q.avail.slots| == |s.q.used.slots| == NUM
    && match e
       case Open(h, i1, i2, b, blockno, write) =>
         && s.q.ThreeFree(h, i1, i2) && s.q.Idle(b)
         && t == s.(q := s.q.Opened(h, i1, i2, b, write, SectorOf(blockno)))
       case Scratch(desc) =>
         && |desc| == NUM && t == s.(q := s.q.(desc := desc))
         && forall i :: 0 <= i < NUM && !s.q.free[i] ==> desc[i] == s.q.desc[i]
       case Take => s.q.queue != [] && s.q.queue[0] in s.q.chains && t == s.(q := s.q.Begun())
       case Complete(h, status) =>
         && h < NUM && h in s.q.chains && s.q.chains[h].phase == Working && t.q == s.q.Completed(h, status)
         && if status == 0 then
              CanServe(s.q.Decode(h), s.sectors, s.data)
              && Served(s.q.Decode(h), s.sectors, s.data, t.sectors, t.data)
            else t.sectors == s.sectors && t.data == s.data
       case See =>
         && s.q.returned != [] && s.q.returned[0] in s.q.chains && s.q.returned[0] < NUM
         && s.q.info[s.q.returned[0]].status == 0 && t == s.(q := s.q.Seen())
       case Close(h) =>
         && h in s.q.chains && s.q.ChainAt(h) && s.q.chains[h].buf in s.q.flag && !s.q.flag[s.q.chains[h].buf]
         && t == s.(q := s.q.Closed(h))
       case Fill(b, bytes) => s.q.Idle(b) && t == s.(data := s.data[b := bytes])
  }

  ghost predicate Run(states: seq<State>, events: seq<Event>) {
    && |states| == |events| + 1 && states[0].q.Valid()
    && forall i :: 0 <= i < |events| ==> Next(states[i], events[i], states[i + 1])
  }

  /** Who is told that the disk is done: the chain is settled. */
  lemma DoneIsSettled(q: Queue, h: nat)
    requires q.Valid() && h in q.chains && q.chains[h].buf in q.flag && !q.flag[q.chains[h].buf]
    ensures q.chains[h].phase == Settled
  {
    q.Placed(h);
  }

  /** Every step keeps descriptors, rings and records in order. */
  lemma NextKeeps(s: State, e: Event, t: State)
    requires s.q.Valid() && Next(s, e, t)
    ensures t.q.Valid()
  {
    hide Queue.Valid, Linked, Served, CanServe, Queue.Decode, SectorOf, Queue.Idle;
    match e
    case Open(h, i1, i2, b, blockno, write) => s.q.OpenedKeeps(h, i1, i2, b, write, SectorOf(blockno));
    case Scratch(desc) => s.q.FreeDescriptors(desc);
    case Take => s.q.BegunKeeps();
    case Complete(h, status) => s.q.CompletedKeeps(h, status);
    case See => s.q.SeenKeeps();
    case Close(h) =>
      DoneIsSettled(s.q, h);
      s.q.ClosedKeeps(h);
    case Fill(_, _) =>
  }

  lemma {:induction false} RunValid(states: seq<State>, events: seq<Event>, n: nat)
    requires Run(states, events) && n <= |events|
    ensures states[n].q.Valid()
  {
    hide Next, Queue.Valid;
    if n > 0 {
      RunValid(states, events, n - 1);
      NextKeeps(states[n - 1], events[n - 1], states[n]);
    }
  }

  /** The chain at h is for the request, in some phase. */
  ghost predicate Asks(q: Queue, h: nat, b: nat, write: bool, sector: nat) {
    && h in q.chains && h < NUM && |q.info| == NUM
    && q.chains[h].buf == b && q.chains[h].write == write && q.chains[h].sector == sector
  }

  ghost predicate SameData(s: State, t: State, b: nat) {
    (b in s.data <==> b in t.data) && (b in s.data ==> t.data[b] == s.data[b])
  }

  ghost predicate AtDevice(q: Queue, h: nat) {
    h in q.chains && (q.chains[h].phase == Queued || q.chains[h].phase == Working)
  }

  /** The device has returned the chain with the status, and the driver has seen it only if that is 0. */
  ghost predicate Back(q: Queue, h: nat, status: nat) {
    && h in q.chains && h < |q.info| && q.info[h].status == status
    && (q.chains[h].phase == Returned || (q.chains[h].phase == Settled && status == 0))
  }

  /** The request just made. */
  lemma Asked(s: State, t: State, e: Event)
    requires s.q.Valid() && Next(s, e, t) && e.Open?
    ensures Asks(t.q, e.h, e.b, e.write, SectorOf(e.blockno)) && AtDevice(t.q, e.h) && SameData(s, t, e.b)
    ensures t.sectors == s.sectors
  {
    hide Queue.Valid, Queue.Idle, Linked, SectorOf;
    NextKeeps(s, e, t);
    t.q.Placed(e.h);
  }

  /** The device serves another chain: another buffer. */
  lemma OtherServed(s: State, t: State, g: nat, status: nat, h: nat)
    requires s.q.Valid() && Next(s, Complete(g, status), t) && h in s.q.chains && g != h
    ensures SameData(s, t, s.q.chains[h].buf)
  {
    s.q.DecodesRequest(g);
    assert s.q.BufsDiffer(h, g);
  }

  /** A buffer with a request changes only when the device serves that request. */
  lemma DataKept(s: State, e: Event, t: State, h: nat)
    requires s.q.Valid() && Next(s, e, t) && h in s.q.chains && !(e.Complete? && e.h == h)
    ensures SameData(s, t, s.q.chains[h].buf)
  {
    if e.Complete? {
      OtherServed(s, t, e.h, e.status, h);
    }
  }

  ghost predicate SameChain(q: Queue, q': Queue, h: nat) {
    && h in q.chains && h in q'.chains && q'.chains[h] == q.chains[h]
    && h < |q.info| == |q'.info| && q'.info[h] == q.info[h]
  }

  /** The step is about the chain at h. */
  ghost predicate IsFor(q: Queue, e: Event, h: nat) {
    match e
    case Take => q.queue != [] && q.queue[0] == h
    case See => q.returned != [] && q.returned[0] == h
    case Complete(g, _) => g == h
    case Close(g) => g == h
    case _ => false
  }

  lemma HeadsBusy(q: Queue, i: nat, h: nat)
    requires q.Valid() && h in q.chains && i < NUM && |q.free| == NUM && q.free[i]
    ensures i != h
  {
    q.MembersBusy(h, i);
  }

  lemma OtherChain(s: State, e: Event, t: State, h: nat)
    requires s.q.Valid() && Next(s, e, t) && h in s.q.chains && h < NUM && |s.q.info| == |t.q.info| == NUM
    requires !IsFor(s.q, e, h)
    ensures SameChain(s.q, t.q, h)
  {
    hide Linked, Served, CanServe, SectorOf, Queue.Decode, Queue.Valid, Queue.Idle, Queue.ChainAt;
    if e.Open? {
      HeadsBusy(s.q, e.h, h);
    }
  }

  lemma OwnStep(s: State, e: Event, t: State, h: nat)
    requires s.q.Valid() && Next(s, e, t) && h in s.q.chains && h < NUM && IsFor(s.q, e, h) && !e.Close?
    ensures h in t.q.chains && |t.q.info| == NUM && t.q.chains[h] == s.q.chains[h].(phase := t.q.chains[h].phase)
    ensures match e
            case Take => s.q.chains[h].phase == Queued && t.q.chains[h].phase == Working
            case Complete(_, status) => s.q.chains[h].phase == Working && Back(t.q, h, status)
            case See => s.q.chains[h].phase == Returned && s.q.info[h].status == 0 && Back(t.q, h, 0)
            case _ => true
  {
    hide Linked, Served, CanServe, Queue.OwnerAt, Queue.Decode, Ring.Carries, Queue.ChainAt, Queue.BufsDiffer;
    if e.Take? {
      assert s.q.queue[0] in s.q.queue;
    } else if e.See? {
      assert s.q.returned[0] in s.q.returned;
    }
  }

  /** A chain stays as it is but for its phase, until it is closed. */
  lemma ChainKept(s: State, e: Event, t: State, h: nat, b: nat, write: bool, sector: nat)
    requires s.q.Valid() && Next(s, e, t) && Asks(s.q, h, b, write, sector) && e != Close(h)
    ensures Asks(t.q, h, b, write, sector)
    ensures AtDevice(s.q, h) ==> if e.Complete? && e.h == h then Back(t.q, h, e.status) else AtDevice(t.q, h)
    ensures forall st :: Back(s.q, h, st) ==> Back(t.q, h, st) && !(e.Complete? && e.h == h)
  {
    hide Next;
    InfoSize(s, e, t);
    if IsFor(s.q, e, h) {
      OwnStep(s, e, t, h);
    } else {
      OtherChain(s, e, t, h);
    }
  }

  lemma InfoSize(s: State, e: Event, t: State)
    requires Next(s, e, t)
    ensures |s.q.info| == |t.q.info| == NUM
  {
    hide Served, CanServe, Queue.Decode, Linked;
  }

  /** The transfer of a request for a block, from the state before it to the state after. */
  ghost predicate Transfers(s: State, t: State, b: nat, write: bool, sector: nat) {
    if write then b in s.data && t.sectors == s.sectors[sector := s.data[b]] && t.data == s.data
    else sector in s.sectors && t.sectors == s.sectors && t.data == s.data[b := s.sectors[sector]]
  }

  lemma ServedTransfers(s: State, e: Event, t: State, b: nat, write: bool, sector: nat)
    requires s.q.Valid() && Next(s, e, t) && e.Complete? && Asks(s.q, e.h, b, write, sector)
    ensures if e.status == 0 then Transfers(s, t, b, write, sector) else SameData(s, t, b)
  {
    s.q.DecodesRequest(e.h);
  }

  /** Nobody frees the chain at h before step n. */
  ghost predicate HeldUntil(events: seq<Event>, h: nat, n: nat) {
    forall j :: 0 <= j < n && j < |events| ==> events[j] != Close(h)
  }

  /** The only completion of h in the first n steps is the k-th; none if k == n. */
  ghost predicate OnlyAt(events: seq<Event>, h: nat, k: nat, n: nat) {
    forall j :: 0 <= j < n && j < |events| && events[j].Complete? && events[j].h == h ==> j == k
  }

  /** Where the request of the first step stands after n steps; it was completed in step k, or not yet if k == n. */
  ghost predicate Stands(states: seq<State>, events: seq<Event>, n: nat, k: nat)
    requires |states| == |events| + 1 && 0 < n <= |events| && events[0].Open?
  {
    var o := events[0];
    && 0 < k <= n && Asks(states[n].q, o.h, o.b, o.write, SectorOf(o.blockno)) && OnlyAt(events, o.h, k, n)
    && SameData(states[0], states[k], o.b)
    && if k == n then AtDevice(states[n].q, o.h)
       else
         && events[k].Complete? && events[k].h == o.h && Back(states[n].q, o.h, events[k].status)
         && SameData(states[k + 1], states[n], o.b)
         && (events[k].status == 0 ==>
               Transfers(states[k], states[k + 1], o.b, o.write, SectorOf(o.blockno)))
  }

  lemma StandsFirst(states: seq<State>, events: seq<Event>)
    requires Run(states, events) && |events| > 0 && events[0].Open?
    ensures Stands(states, events, 1, 1)
  {
    hide Next, SectorOf;
    Asked(states[0], states[1], events[0]);
  }

  lemma StandsMore(states: seq<State>, events: seq<Event>, n: nat, k: nat) returns (k': nat)
    requires Run(states, events) && 0 < n < |events| && events[0].Open? && events[n] != Close(events[0].h)
    requires Stands(states, events, n, k)
    ensures Stands(states, events, n + 1, k')
  {
    hide Next, SectorOf, Transfers, Queue.Valid;
    var o := events[0];
    var s, e, t, h := states[n], events[n], states[n + 1], o.h;
    RunValid(states, events, n);
    ChainKept(s, e, t, h, o.b, o.write, SectorOf(o.blockno));
    if e.Complete? && e.h == h {
      k' := k;
      ServedTransfers(s, e, t, o.b, o.write, SectorOf(o.blockno));
    } else {
      k' := if k == n then n + 1 else k;
      DataKept(s, e, t, h);
    }
  }

  lemma {:induction false} Followed(states: seq<State>, events: seq<Event>, n: nat) returns (k: nat)
    requires Run(states, events) && 0 < n <= |events| && events[0].Open? && HeldUntil(events, events[0].h, n)
    ensures Stands(states, events, n, k)
  {
    hide Next, Stands, SectorOf;
    if n == 1 {
      StandsFirst(states, events);
      k := 1;
    } else {
      k := Followed(states, events, n - 1);
      k := StandsMore(states, events, n - 1, k);
    }
  }

  /** Steps lo to hi complete no write to the sector other than for the chain at h. */
  ghost predicate Quiet(states: seq<State>, events: seq<Event>, sector: nat, h: nat, lo: nat, hi: nat)
    requires |states| == |events| + 1
  {
    forall j :: lo <= j < hi && j < |events| && events[j].Complete? && events[j].h != h ==>
      events[j].h in states[j].q.chains ==>
        !states[j].q.chains[events[j].h].write || states[j].q.chains[events[j].h].sector != sector
  }

  ghost predicate SameSector(s: State, t: State, sector: nat) {
    (sector in s.sectors <==> sector in t.sectors) && (sector in s.sectors ==> t.sectors[sector] == s.sectors[sector])
  }

  lemma SectorStep(s: State, e: Event, t: State, sector: nat)
    requires s.q.Valid() && Next(s, e, t)
    requires e.Complete? && e.h in s.q.chains ==> !s.q.chains[e.h].write || s.q.chains[e.h].sector != sector
    ensures SameSector(s, t, sector)
  {
    if e.Complete? {
      s.q.DecodesRequest(e.h);
    }
  }

  lemma {:induction false} SectorKept(states: seq<State>, events: seq<Event>, sector: nat, h: nat, lo: nat, hi: nat)
    requires Run(states, events) && lo <= hi <= |events| && Quiet(states, events, sector, h, lo, hi)
    requires forall j :: lo <= j < hi ==> !(events[j].Complete? && events[j].h == h)
    ensures SameSector(states[lo], states[hi], sector)
    decreases hi - lo
  {
    hide Next;
    if lo < hi {
      SectorKept(states, events, sector, h, lo, hi - 1);
      RunValid(states, events, hi - 1);
      SectorStep(states[hi - 1], events[hi - 1], states[hi], sector);
    }
  }

  /**
   From the call of virtio_disk_rw to its return, whatever else the driver, the
   device and other processes do in between: the device completed the request
   once, without failure, and moved the block between the buffer and the block's
   sector in the direction asked for.  If nobody else wrote that sector, a read
   gives what was on the disk at the call, and a write is on the disk at the return.
   */
  lemma RequestServed(states: seq<State>, events: seq<Event>, h: nat, b: nat, blockno: nat, write: bool)
      returns (k: nat)
    requires Run(states, events) && |events| > 1 && events[0].Open? && events[0].h == h
    requires events[0].b == b && events[0].blockno == blockno && events[0].write == write
    requires HeldUntil(events, h, |events| - 1) && events[|events| - 1] == Close(h)
    ensures 0 < k < |events| - 1 && events[k] == Complete(h, 0) && OnlyAt(events, h, k, |events|)
    ensures var first, last, sector := states[0], states[|events|], SectorOf(blockno);
            && (write ==> b in first.data && states[k + 1].sectors == states[k].sectors[sector := first.data[b]])
            && (write ==> SameData(first, last, b))
            && (!write ==> sector in states[k].sectors && b in last.data && last.data[b] == states[k].sectors[sector])
            && (Quiet(states, events, sector, h, 0, |events|) ==>
                  if write then sector in last.sectors && last.sectors[sector] == first.data[b]
                  else sector in first.sectors && last.data[b] == first.sectors[sector])
  {
    hide Next, Quiet, SectorOf, Queue.Valid;
    var m := |events| - 1;
    k := Followed(states, events, m);
    RunValid(states, events, m);
    Closes(states[m], states[m + 1], h);
    var sector := SectorOf(blockno);
    if Quiet(states, events, sector, h, 0, |events|) {
      QuietPart(states, events, sector, h, 0, k);
      QuietPart(states, events, sector, h, k + 1, m + 1);
      SectorKept(states, events, sector, h, 0, k);
      SectorKept(states, events, sector, h, k + 1, m + 1);
    }
  }

  lemma QuietPart(states: seq<State>, events: seq<Event>, sector: nat, h: nat, lo: nat, hi: nat)
    requires |states| == |events| + 1 && lo <= hi <= |events| && Quiet(states, events, sector, h, 0, |events|)
    ensures Quiet(states, events, sector, h, lo, hi)
  {
  }

  /** A chain is only freed once it is settled; no byte moves. */
  lemma Closes(s: State, t: State, h: nat)
    requires s.q.Valid() && Next(s, Close(h), t)
    ensures h in s.q.chains && s.q.chains[h].phase == Settled && t.data == s.data && t.sectors == s.sectors
  {
    DoneIsSettled(s.q, h);
  }
}
