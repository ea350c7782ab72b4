/**
 The log as kernel/log.c runs it: an object whose methods update the in-memory
 header, the counters and the disk in place.  `view` is what bread returns for
 each block (BufferCache shows that the cache behaves as such a map); `trace`
 records every bwrite in order, so that a crash point is a prefix of it.
 */
module Log {
  import opened Common
  import opened LogSpec
  import LogRuns
  import LogTorn

  class RedoLog {
    const l: Layout
    var disk: Disk
    var view: Disk
    var n: nat
    var block: seq<int>
    var outstanding: nat
    var committing: bool
    ghost var trace: seq<Write>
    /** The commit under way as it began, and how much of the trace is older. */
    ghost var base: LogRuns.State
    ghost var mark: nat

    /** The in-memory list of logged blocks. */
    ghost function List(): (lh: seq<int>)
      reads this
      requires n <= |block|
    {
      block[..n]
    }

    /** The state of this object as a state of LogRuns. */
    ghost function State(): (s: LogRuns.State)
      reads this
      requires n <= |block|
    {
      if committing && base.Committing? && mark <= |trace|
      then LogRuns.Committing(base.disk, base.view, base.lh, |trace| - mark)
      else LogRuns.Up(disk, view, List(), outstanding)
    }

    /** Sizes agree, and only logged blocks differ between cache and disk. */
    ghost predicate Valid()
      reads this
    {
      && l.Valid() && |disk| == |view| == l.nblocks
      && |block| == LOGSIZE && n < l.size && l.ValidList(List())
      && forall b :: 0 <= b < l.nblocks && b !in List() ==> view[b] == disk[b]
    }

    /** Between commits the on-disk header is empty. */
    ghost predicate Quiet()
      reads this
    {
      Valid() && l.ValidDisk(disk) && disk[l.start].words[0] == 0
    }

    /**
     At any moment, also between two writes of a commit: the disk is as far as
     the commit has got, readers see the whole group, and no operation runs.
     */
    ghost predicate Ok()
      reads this
    {
      && |block| == LOGSIZE && n <= LOGSIZE
      && (!committing ==> Quiet())
      && (committing ==>
            && outstanding == 0 && base.Committing? && mark <= |trace| && LogRuns.Wf(l, State())
            && disk == CommitCrash(l, base.disk, base.lh, base.view, |trace| - mark)
            && |view| == |base.view| == l.nblocks && l.Home(view) == l.Home(base.view))
    }

    /** The write is the next one of the commit under way. */
    ghost predicate IsNext(w: Write)
      reads this
    {
      && Ok() && committing
      && var ws := CommitWrites(l, base.disk, base.lh, base.view);
         |trace| - mark < |ws| && w == ws[|trace| - mark]
    }

    /** initlog: start from whatever the disk holds, and recover. */
    constructor (l: Layout, disk: Disk)
      requires l.ValidDisk(disk)
      ensures this.l == l && Quiet() && n == 0 && outstanding == 0 && !committing
      ensures view == this.disk && trace == RecoveryWrites(l, disk)
      ensures this.disk == RecoveredDisk(l, disk)
      ensures LogRuns.Next(l, LogRuns.Down(disk), LogRuns.Reboot, State())
    {
      this.l := l;
      this.disk, this.view := disk, disk;
      this.n, this.block := 0, seq(LOGSIZE, _ => 0);
      this.outstanding, this.committing, this.trace := 0, false, [];
      this.base, this.mark := LogRuns.Down(disk), 0;
      new;
      RecoverFromLog();
    }

    /** One block to the disk; in a commit, one step of its run. */
    method Bwrite(b: nat, data: Block)
      requires b < |disk| == |view|
      modifies this`disk, this`view, this`trace
      ensures disk == old(disk)[b := data] && view == old(view)[b := data]
      ensures trace == old(trace) + [Write(b, data)]
      ensures old(IsNext(Write(b, data))) ==> Ok() && LogRuns.Next(l, old(State()), LogRuns.CommitWrite, State())
    {
      hide CommitWrites, CommitCrash, Layout.Home, Layout.ValidDisk, Layout.ValidList, RedoLog.Quiet;
      if IsNext(Write(b, data)) {
        NextStands(l, State(), view, b, data);
      }
      disk, view := disk[b := data], view[b := data];
      trace := trace + [Write(b, data)];
    }

    /** read_head: the in-memory list becomes the one the header block names. */
    method ReadHead()
      requires l.ValidDisk(view) && |block| == LOGSIZE
      modifies this`n, this`block
      ensures |block| == LOGSIZE && n < l.size && List() == HeaderList(view[l.start])
    {
      var buf := view[l.start].words;
      n := buf[0];
      var i := 0;
      while i < n
        invariant 0 <= i <= n == buf[0] && |block| == LOGSIZE
        invariant forall j :: 0 <= j < i ==> block[j] == buf[1 + j]
      {
        block := block[i := buf[1 + i]];
        i := i + 1;
      }
    }

    /** write_head: one write, of the header block carrying the in-memory list. */
    method WriteHead()
      requires l.Valid() && |disk| == |view| == l.nblocks
      requires |block| == LOGSIZE && n < l.size
      requires view[l.start] == disk[l.start] && |disk[l.start].words| == BWORDS
      modifies this`disk, this`view, this`trace
      ensures var w := HeadWrite(l, old(disk), List());
              && disk == old(disk)[l.start := w.data] && view == old(view)[l.start := w.data]
              && trace == old(trace) + [w]
    {
      var buf := view[l.start].words;
      buf := buf[0 := n];
      var i := 0;
      while i < n
        invariant 0 <= i <= n && |buf| == BWORDS
        invariant buf == [n] + block[..i] + view[l.start].words[1 + i..]
      {
        buf := buf[1 + i := block[i]];
        i := i + 1;
      }
      Bwrite(l.start, Block(buf));
    }

    /** The first k of the writes ws have been made. */
    ghost predicate Made(disk0: Disk, view0: Disk, trace0: seq<Write>, ws: seq<Write>, k: int)
      reads this
    {
      && |disk0| == |view0| == l.nblocks && InRange(disk0, ws) && 0 <= k <= |ws|
      && disk == After(disk0, ws, k) && view == After(view0, ws, k) && trace == trace0 + ws[..k]
    }

    lemma MadeNone(ws: seq<Write>)
      requires |disk| == |view| == l.nblocks && InRange(disk, ws)
      ensures Made(disk, view, trace, ws, 0)
    {
    }

    lemma MadeAll(disk0: Disk, view0: Disk, trace0: seq<Write>, ws: seq<Write>)
      requires Made(disk0, view0, trace0, ws, |ws|)
      ensures |disk0| == |view0| && InRange(disk0, ws) && InRange(view0, ws)
      ensures disk == After(disk0, ws, |ws|) && view == After(view0, ws, |ws|) && trace == trace0 + ws
    {
      assert ws[..|ws|] == ws;
    }

    /** One turn of install_trans's loop. */
    method InstallSlot(tail: nat, ghost disk0: Disk, ghost view0: Disk, ghost trace0: seq<Write>)
      requires l.Valid() && |block| == LOGSIZE && tail < n <= LOGSIZE && l.ValidList(List())
      requires |disk0| == |view0| == l.nblocks && view0[l.Slot(tail)] == disk0[l.Slot(tail)]
      requires Made(disk0, view0, trace0, InstallWrites(l, List(), disk0), tail)
      modifies this`disk, this`view, this`trace
      ensures Made(disk0, view0, trace0, InstallWrites(l, List(), disk0), tail + 1)
    {
      ghost var ws := InstallWrites(l, List(), disk0);
      AfterMiss(view0, ws, tail, l.Slot(tail));
      Append(trace0, ws, tail);
      var lbuf := view[l.start + tail + 1];
      Bwrite(block[tail], lbuf);
    }

    /** install_trans: slot by slot, in order, to the home blocks. */
    method InstallTrans()
      requires Valid()
      modifies this`disk, this`view, this`trace
      ensures var ws := InstallWrites(l, List(), old(disk));
              && InRange(old(disk), ws) && disk == After(old(disk), ws, n) && trace == old(trace) + ws
      ensures view == disk && |disk| == l.nblocks && disk[l.start] == old(disk[l.start])
    {
      ghost var lh := List();
      ghost var ws := InstallWrites(l, lh, disk);
      var tail := 0;
      while tail < n
        invariant 0 <= tail <= n && Made(old(disk), old(view), old(trace), ws, tail)
      {
        hide RedoLog.Made;
        assert l.InLog(l.Slot(tail));
        InstallSlot(tail, old(disk), old(view), old(trace));
        tail := tail + 1;
      }
      forall b | 0 <= b < l.nblocks ensures view[b] == disk[b] {
        InstallEqualisesAt(l, old(disk), old(view), lh, b);
      }
      AfterMiss(old(disk), ws, n, l.start);
    }

    /** One turn of write_log's loop. */
    method WriteSlot(tail: nat, ghost disk0: Disk, ghost view0: Disk, ghost trace0: seq<Write>)
      requires l.Valid() && |block| == LOGSIZE && tail < n <= LOGSIZE && l.ValidList(List()) && |view0| == l.nblocks
      requires Made(disk0, view0, trace0, LogWrites(l, List(), view0), tail)
      modifies this`disk, this`view, this`trace
      ensures Made(disk0, view0, trace0, LogWrites(l, List(), view0), tail + 1)
    {
      SlotWrite(l, List(), view0, tail);
      Append(trace0, LogWrites(l, List(), view0), tail);
      var from := view[block[tail]];
      Bwrite(l.start + tail + 1, from);
    }

    /** write_log: the cached contents of each listed block, to the slots. */
    method WriteLog()
      requires Valid()
      modifies this`disk, this`view, this`trace
      ensures var ws := LogWrites(l, List(), old(view));
              && InRange(old(disk), ws) && disk == After(old(disk), ws, n) && trace == old(trace) + ws
      ensures Valid() && disk[l.start] == old(disk[l.start])
    {
      hide RedoLog.Made, After;
      ghost var ws := LogWrites(l, List(), view);
      SlotsAgree(l, List(), disk, view);
      MadeNone(ws);
      var tail := 0;
      while tail < n
        invariant 0 <= tail <= n && Made(old(disk), old(view), old(trace), ws, tail)
      {
        WriteSlot(tail, old(disk), old(view), old(trace));
        tail := tail + 1;
      }
      MadeAll(old(disk), old(view), old(trace), ws);
    }

    /** recover_from_log: its writes, in order, are exactly RecoveryWrites. */
    method RecoverFromLog()
      requires l.ValidDisk(disk) && view == disk && |block| == LOGSIZE
      modifies this`disk, this`view, this`trace, this`n, this`block
      ensures Quiet() && n == 0 && view == disk
      ensures trace == old(trace) + RecoveryWrites(l, old(disk))
      ensures disk == RecoveredDisk(l, old(disk))
      ensures l.Home(disk) == Recovered(l, old(disk))
    {
      RecoveryClears(l, disk);
      ReadHead();
      InstallTrans();
      n := 0;
      WriteHead();
      RecoveryAssembles(l, old(disk), old(trace));
    }

    /** A commit is about to make its first write. */
    ghost predicate Starting()
      reads this
    {
      && Ok() && Quiet() && committing && |trace| == mark
      && base == LogRuns.Committing(disk, view, List(), 0)
    }

    /**
     commit: its writes, in order, are exactly CommitWrites.  Every one of them
     is a step of the run (Bwrite), all of them are a stretch of it from the
     state before to the state after, and CommitAtomic speaks about every crash
     point of this method.
     */
    method Commit() returns (ghost steps: seq<LogRuns.State>)
      requires Starting()
      modifies this`disk, this`view, this`trace, this`n
      ensures Ok() && n == 0 && block == old(block) && view == disk
      ensures trace == old(trace) + CommitWrites(l, old(disk), old(List()), old(view))
      ensures disk == CommittedDisk(l, old(disk), old(List()), old(view))
      ensures l.Home(disk) == Overlay(l, old(disk), old(List()), old(view)) == l.Home(old(view))
      ensures State() == base.(k := |CommitWrites(l, base.disk, base.lh, base.view)|)
      ensures |steps| == |trace| - |old(trace)| + 1 && steps[0] == old(State()) && steps[|steps| - 1] == State()
      ensures LogRuns.CommitSteps(l, steps)
    {
      hide LogRuns.CommitSteps, CommitWrites, Overlay;
      LogTorn.CommitEmpty(l, disk, view);
      steps := LogRuns.CommitStretch(l, base, |CommitWrites(l, base.disk, base.lh, base.view)|);
      CommitComplete(l, disk, List(), view);
      LogRuns.OverlayIsView(l, base);
      if n > 0 {
        CommitLoggedBlocks();
      }
    }

    /** The body of commit when the list is not empty. */
    method CommitLoggedBlocks()
      requires Quiet() && n > 0
      modifies this`disk, this`view, this`trace, this`n
      ensures |disk| == l.nblocks && n == 0 && block == old(block) && view == disk
      ensures trace == old(trace) + CommitWrites(l, old(disk), old(List()), old(view))
      ensures disk == CommittedDisk(l, old(disk), old(List()), old(view))
    {
      ghost var d, lh, v := disk, List(), view;
      WriteLog();
      WriteHead();
      InstallTrans();
      n := 0;
      WriteHead();
      CommitAssembles(l, d, lh, v);
      CommitTrace(l, d, lh, v, old(trace));
    }

    /**
     One pass of begin_op's loop, at any moment: either the operation is
     admitted, or it has to sleep and nothing changes.
     */
    method TryBeginOp() returns (admitted: bool)
      requires Ok()
      modifies this`outstanding
      ensures Ok()
      ensures admitted <==> !committing && n + (old(outstanding) + 1) * MAXOPBLOCKS <= LOGSIZE
      ensures outstanding == if admitted then old(outstanding) + 1 else old(outstanding)
      ensures LogRuns.Next(l, old(State()), if admitted then LogRuns.Begin else LogRuns.Refused, State())
    {
      if committing {
        admitted := false;
      } else if n + (outstanding + 1) * MAXOPBLOCKS > LOGSIZE {
        admitted := false;
      } else {
        outstanding := outstanding + 1;
        admitted := true;
      }
    }

    /**
     log_write of a buffer whose data the caller has just changed to `data`.
     Returns false where the kernel panics, which is always so during a commit;
     otherwise the block is in the list exactly once, at its old place if it
     was there.
     */
    method LogWrite(b: nat, data: Block) returns (ok: bool)
      requires Ok() && l.IsHome(b)
      modifies this`view, this`n, this`block
      ensures Ok()
      ensures ok <==> old(n) < l.size - 1 && outstanding >= 1
      ensures !ok ==> view == old(view) && n == old(n) && block == old(block)
      ensures ok ==> !committing && view == old(view)[b := data] && disk == old(disk)
      ensures ok ==> List() == if b in old(List()) then old(List()) else old(List()) + [b]
      ensures ok ==> LogRuns.Next(l, old(State()), LogRuns.Update(b, data), State())
    {
      if n >= LOGSIZE || n >= l.size - 1 {
        assert l.Valid();
        return false;
      }
      if outstanding < 1 { return false; }
      var i := 0;
      while i < n && block[i] != b
        invariant 0 <= i <= n && b !in block[..i]
      {
        i := i + 1;
      }
      view := view[b := data];
      block := block[i := b];
      if i == n {
        n := n + 1;
      }
      assert List() == if b in old(List()) then old(List()) else old(List()) + [b];
      return true;
    }

    /**
     end_op up to the release of the lock: the last operation starts a commit.
     The kernel's panic("log.committing") cannot happen, because an operation is
     only admitted while no commit runs.
     */
    method EndOp() returns (doCommit: bool)
      requires Ok() && outstanding > 0
      modifies this`outstanding, this`committing, this`base, this`mark
      ensures Ok() && !old(committing) && outstanding == old(outstanding) - 1
      ensures LogRuns.Next(l, old(State()), LogRuns.End, State())
      ensures doCommit == committing == (outstanding == 0)
      ensures doCommit ==> Starting()
    {
      hide CommitWrites;
      doCommit := false;
      outstanding := outstanding - 1;
      if outstanding == 0 {
        doCommit := true;
        committing := true;
        base, mark := LogRuns.Committing(disk, view, List(), 0), |trace|;
      }
    }

    /** The end of end_op, once commit has returned. */
    method EndCommit()
      requires Ok() && committing && n == 0 && view == disk
      requires |trace| - mark == |CommitWrites(l, base.disk, base.lh, base.view)|
      modifies this`committing
      ensures Ok() && Quiet() && !committing
      ensures LogRuns.Next(l, old(State()), LogRuns.Done, State())
    {
      hide CommitWrites, Overlay;
      CommitComplete(l, base.disk, base.lh, base.view);
      committing := false;
    }
  }

  /** The next write of a commit extends the prefix that is on the disk, and changes nothing that readers see. */
  lemma NextStands(l: Layout, s: LogRuns.State, view: Disk, b: nat, data: Block)
    requires s.Committing? && LogRuns.Wf(l, s) && s.k < |CommitWrites(l, s.disk, s.lh, s.view)|
    requires CommitWrites(l, s.disk, s.lh, s.view)[s.k] == Write(b, data)
    requires |view| == |s.view| == l.nblocks && b < |view| && l.Home(view) == l.Home(s.view)
    ensures CommitCrash(l, s.disk, s.lh, s.view, s.k + 1) == CommitCrash(l, s.disk, s.lh, s.view, s.k)[b := data]
    ensures l.Home(view[b := data]) == l.Home(s.view)
  {
    hide CommitWrites;
    if l.IsHome(b) {
      LogRuns.WriteHome(l, s.disk, s.lh, s.view, s.k);
      assert l.Home(s.view)[b] == data;
    }
  }

  /** The slots written so far are not the next block to be copied. */
  lemma SlotWrite(l: Layout, lh: seq<int>, view: Disk, tail: nat)
    requires l.Valid() && l.ValidList(lh) && |view| == l.nblocks && tail < |lh|
    ensures var ws := LogWrites(l, lh, view);
            && InRange(view, ws) && 0 <= lh[tail] < |view|
            && ws[tail] == Write(l.start + tail + 1, After(view, ws, tail)[lh[tail]])
  {
    AfterMiss(view, LogWrites(l, lh, view), tail, lh[tail]);
  }

  /** Writing the slots leaves cache and disk equal where they were, and the header alone. */
  lemma SlotsAgree(l: Layout, lh: seq<int>, disk: Disk, view: Disk)
    requires l.Valid() && l.ValidList(lh) && |disk| == |view| == l.nblocks
    requires forall b :: 0 <= b < l.nblocks && b !in lh ==> view[b] == disk[b]
    ensures var ws := LogWrites(l, lh, view);
            && InRange(disk, ws) && InRange(view, ws)
            && After(disk, ws, |ws|)[l.start] == disk[l.start]
            && forall b :: 0 <= b < l.nblocks && b !in lh ==> After(view, ws, |ws|)[b] == After(disk, ws, |ws|)[b]
  {
    var ws := LogWrites(l, lh, view);
    forall b | 0 <= b < l.nblocks && b !in lh ensures After(view, ws, |ws|)[b] == After(disk, ws, |ws|)[b] {
      SameWritesAgree(disk, view, ws, |ws|, b);
    }
    AfterMiss(disk, ws, |ws|, l.start);
  }

  lemma Append(t: seq<Write>, ws: seq<Write>, k: nat)
    requires k < |ws|
    ensures (t + ws[..k]) + [ws[k]] == t + ws[..k + 1]
  {
  }

  lemma Regroup(t: seq<Write>, a: seq<Write>, b: seq<Write>)
    ensures (t + a) + b == t + (a + b)
  {
  }

  /** Equal writes keep a block equal on two disks. */
  lemma {:induction false} SameWritesAgree(d: Disk, v: Disk, ws: seq<Write>, k: nat, b: nat)
    requires |d| == |v| && InRange(d, ws) && k <= |ws|
    requires b < |d| && d[b] == v[b]
    ensures InRange(v, ws) && After(d, ws, k)[b] == After(v, ws, k)[b]
  {
    if k > 0 {
      SameWritesAgree(d, v, ws, k - 1, b);
    }
  }

  /** Installing the blocks that may differ makes cache and disk agree on each block. */
  lemma InstallEqualisesAt(l: Layout, d: Disk, v: Disk, lh: seq<int>, b: nat)
    requires l.Valid() && |d| == |v| == l.nblocks && l.ValidList(lh) && b < l.nblocks
    requires b !in lh ==> v[b] == d[b]
    ensures After(v, InstallWrites(l, lh, d), |lh|)[b] == After(d, InstallWrites(l, lh, d), |lh|)[b]
  {
    var ws := InstallWrites(l, lh, d);
    if b in lh {
      var i :| 0 <= i < |lh| && lh[i] == b;
      AfterHit(d, ws, |lh|, i);
      AfterHit(v, ws, |lh|, i);
    } else {
      SameWritesAgree(d, v, ws, |lh|, b);
    }
  }

  /** Installing, then clearing the header, is a whole recovery. */
  lemma RecoveryAssembles(l: Layout, d: Disk, t: seq<Write>)
    requires l.ValidDisk(d)
    ensures var lh := HeaderList(d[l.start]);
            var ws, w := InstallWrites(l, lh, d), HeadWrite(l, d, []);
            && InRange(d, ws)
            && RecoveredDisk(l, d) == After(d, ws, |lh|)[l.start := w.data]
            && (t + ws) + [w] == t + RecoveryWrites(l, d)
  {
    var lh := HeaderList(d[l.start]);
    var ws, w := InstallWrites(l, lh, d), HeadWrite(l, d, []);
    AfterOneMore(d, ws, w);
    Regroup(t, ws, [w]);
  }

  /** Installing at the commit point, then clearing the header, completes the commit. */
  lemma CommitAssembles(l: Layout, d: Disk, lh: seq<int>, view: Disk)
    requires l.ValidDisk(d) && l.ValidList(lh) && |view| == |d| && lh != []
    ensures var d2 := HeadedDisk(l, d, lh, view);
            var ws := InstallWrites(l, lh, d2);
            && InRange(d2, ws) && |d2[l.start].words| == BWORDS
            && CommittedDisk(l, d, lh, view) == After(d2, ws, |lh|)[l.start := PutHeader(d2[l.start], [])]
  {
    HeadedDiskHeader(l, d, lh, view);
    CommittedIsRecovered(l, d, lh, view);
    RecoveryAssembles(l, HeadedDisk(l, d, lh, view), []);
  }

  /** The records of the four phases, one after the other, are CommitWrites. */
  lemma CommitTrace(l: Layout, d: Disk, lh: seq<int>, view: Disk, t: seq<Write>)
    requires l.ValidDisk(d) && l.ValidList(lh) && |view| == |d| && lh != []
    ensures var d1, d2 := LoggedDisk(l, d, lh, view), HeadedDisk(l, d, lh, view);
            (((t + LogWrites(l, lh, view)) + [HeadWrite(l, d1, lh)]) + InstallWrites(l, lh, d2))
            + [HeadWrite(l, d2, [])] == t + CommitWrites(l, d, lh, view)
  {
    HeadedDiskHeader(l, d, lh, view);
    var d1, d2 := LoggedDisk(l, d, lh, view), HeadedDisk(l, d, lh, view);
    var a, h := LogWrites(l, lh, view), [HeadWrite(l, d1, lh)];
    Regroup(t, a, h);
    Regroup(t + (a + h), InstallWrites(l, lh, d2), [HeadWrite(l, d2, [])]);
    Regroup(t, a + h, RecoveryWrites(l, d2));
  }
}
